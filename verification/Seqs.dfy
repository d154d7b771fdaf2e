/** Facts about sequences and sets that several of the models share. */
module Seqs {

  lemma TakeNext<T>(s: seq<T>, i: nat)
    requires i < |s|
    ensures s[..i + 1] == s[..i] + [s[i]]
  {
  }

  lemma FrontAndLast<T>(s: seq<T>)
    requires s != []
    ensures s == s[..|s| - 1] + [s[|s| - 1]]
  {
  }

  lemma Assoc<T>(a: seq<T>, b: seq<T>, c: seq<T>)
    ensures a + b + c == a + (b + c)
  {
  }

  lemma NothingAppended<T>(s: seq<T>)
    ensures s + [] == s
  {
  }

  lemma NothingPrepended<T>(s: seq<T>)
    ensures [] + s == s
  {
  }

  ghost predicate Distinct<T>(s: seq<T>) {
    forall i, j :: 0 <= i < j < |s| ==> s[i] != s[j]
  }

  /** A list without repetition is no longer than any set that holds its elements. */
  lemma {:induction false} Pigeonhole<T>(l: seq<T>, s: set<T>)
    requires Distinct(l) && forall i :: 0 <= i < |l| ==> l[i] in s
    ensures |l| <= |s|
  {
    if l != [] {
      var rest := l[..|l| - 1];
      forall i | 0 <= i < |rest| ensures rest[i] in s - {l[|l| - 1]} {
        assert rest[i] == l[i];
      }
      Pigeonhole(rest, s - {l[|l| - 1]});
    }
  }

  /** The next key of a map iteration, whose order is unspecified. */
  method AnyOf<T>(keys: set<T>) returns (k: T)
    requires keys != {}
    ensures k in keys
  {
    k :| k in keys;
  }
}
