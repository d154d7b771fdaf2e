/** The gateway port allocator with timed locks (api/handler/gateway_action.go). */
module GatewayPorts {
  import opened Wrappers
  import opened Seqs

  // ----- sort.Ints

  ghost predicate Sorted(s: seq<int>) {
    forall i, j :: 0 <= i < j < |s| ==> s[i] <= s[j]
  }

  function Insert(s: seq<int>, x: int): seq<int> {
    if s == [] || x <= s[0] then [x] + s else [s[0]] + Insert(s[1..], x)
  }

  lemma {:induction false} InsertKeeps(s: seq<int>, x: int)
    ensures multiset(Insert(s, x)) == multiset(s) + multiset{x}
  {
    if s == [] || x <= s[0] {
      assert multiset([x] + s) == multiset{x} + multiset(s);
    } else {
      InsertKeeps(s[1..], x);
      assert s == [s[0]] + s[1..];
    }
  }

  lemma {:induction false} InsertSorts(s: seq<int>, x: int)
    requires Sorted(s)
    ensures Sorted(Insert(s, x))
    ensures Insert(s, x)[0] == if s == [] || x <= s[0] then x else s[0]
  {
    if s != [] && x > s[0] {
      InsertSorts(s[1..], x);
      ConsSorted(s[0], Insert(s[1..], x));
    }
  }

  lemma ConsSorted(head: int, rest: seq<int>)
    requires Sorted(rest) && rest != [] && head <= rest[0]
    ensures Sorted([head] + rest)
  {
    forall i | 0 <= i < |rest| ensures head <= rest[i] {
    }
  }

  function Sort(s: seq<int>): seq<int> {
    if s == [] then [] else Insert(Sort(s[1..]), s[0])
  }

  lemma {:induction false} SortSorts(s: seq<int>)
    ensures Sorted(Sort(s)) && multiset(Sort(s)) == multiset(s)
  {
    if s != [] {
      SortSorts(s[1..]);
      InsertSorts(Sort(s[1..]), s[0]);
      InsertKeeps(Sort(s[1..]), s[0]);
      HeadAndTail(s);
    }
  }

  lemma HeadAndTail(s: seq<int>)
    requires s != []
    ensures multiset(s) == multiset(s[1..]) + multiset{s[0]}
  {
    assert s == [s[0]] + s[1..];
  }

  lemma SortKeeps(s: seq<int>)
    ensures Sorted(Sort(s)) && |Sort(s)| == |s|
    ensures forall x :: x in Sort(s) <==> x in s
  {
    SortSorts(s);
    SameMembers(Sort(s), s);
  }

  lemma SameMembers(s: seq<int>, t: seq<int>)
    requires multiset(s) == multiset(t)
    ensures |s| == |t| && forall x :: x in s <==> x in t
  {
    assert |multiset(s)| == |s| && |multiset(t)| == |t|;
    forall x ensures x in s <==> x in t {
      assert x in s <==> x in multiset(s);
      assert x in t <==> x in multiset(t);
    }
  }

  method SortInts(a: array<int>)
    modifies a
    ensures a[..] == Sort(old(a[..]))
  {
    var t := Sort(a[..]);
    SortKeeps(a[..]);
    forall i | 0 <= i < a.Length {
      a[i] := t[i];
    }
  }

  // ----- Selecting a port

  /** MIN_LB_PORT and MAX_LB_PORT as numbers; 0 when unset or not a number. */
  datatype Env = Env(minLbPort: int, maxLbPort: int)

  function MinPort(env: Env): int {
    if env.minLbPort == 0 then 10000 else env.minLbPort
  }

  function MaxPort(env: Env): int {
    if env.maxLbPort == 0 then 65535 else env.maxLbPort
  }

  /** The first rank i (from k on) at which the sorted list is ahead of lo + i. */
  function GapFrom(t: seq<int>, lo: int, k: nat): (g: nat)
    requires k <= |t|
    ensures k <= g <= |t|
    ensures forall i :: k <= i < g ==> t[i] <= lo + i
    ensures g < |t| ==> t[g] > lo + g
    decreases |t| - k
  {
    if k == |t| || t[k] > lo + k then k else GapFrom(t, lo, k + 1)
  }

  /** The port after every used one, but not below the range. */
  function NextPort(t: seq<int>, lo: int): int
    requires t != []
  {
    if t[|t| - 1] + 1 < lo then lo else t[|t| - 1] + 1
  }

  /** The selection on a sorted list: the next port if it is in range, otherwise the port
      at the first gap, counted by rank; 0 if neither exists. */
  function Choose(t: seq<int>, lo: int, hi: int): int {
    if t == [] then lo
    else if NextPort(t, lo) <= hi then NextPort(t, lo)
    else
      var g := GapFrom(t, lo, 0);
      if g < |t| || lo + g <= hi then lo + g else 0
  }

  method SelectAvailablePort(used: array<int>, env: Env) returns (port: int)
    modifies used
    ensures port == Choose(Sort(old(used[..])), MinPort(env), MaxPort(env))
    // A range that is not configured is 10000 to 65535.
    ensures MinPort(env) == if env.minLbPort == 0 then 10000 else env.minLbPort
    ensures MaxPort(env) == if env.maxLbPort == 0 then 65535 else env.maxLbPort
  {
    ghost var t := Sort(used[..]);
    SortKeeps(used[..]);
    var maxPort, minPort := env.maxLbPort, env.minLbPort;
    if minPort == 0 {
      minPort := 10000;
    }
    if maxPort == 0 {
      maxPort := 65535;
    }
    if used.Length == 0 {
      return minPort;
    }
    SortInts(used);
    assert used[..] == t;
    var selectPort := used[used.Length - 1] + 1;
    assert used[used.Length - 1] == t[|t| - 1];
    if selectPort < minPort {
      selectPort := minPort;
    }
    if selectPort <= maxPort {
      return selectPort;
    }
    port := FirstGapPort(used, minPort, maxPort);
  }

  /** The fallback scan over the sorted list. */
  method FirstGapPort(used: array<int>, minPort: int, maxPort: int) returns (port: int)
    ensures var g := GapFrom(used[..], minPort, 0);
            port == if g < used.Length || minPort + g <= maxPort then minPort + g else 0
  {
    ghost var t := used[..];
    var selectPort := minPort;
    var i := 0;
    while i < used.Length
      invariant 0 <= i <= used.Length
      invariant selectPort == minPort + i
      invariant GapFrom(t, minPort, 0) == GapFrom(t, minPort, i)
    {
      var p := used[i];
      if p == selectPort {
        selectPort := selectPort + 1;
        i := i + 1;
        continue;
      }
      if p > selectPort {
        return selectPort;
      }
      selectPort := selectPort + 1;
      i := i + 1;
    }
    if selectPort <= maxPort {
      return selectPort;
    }
    return 0;
  }

  // ----- What the selection guarantees

  /** A port that is handed out is never in use, whatever the list looks like. */
  lemma NeverUsed(used: seq<int>, lo: int, hi: int)
    ensures Choose(Sort(used), lo, hi) != 0 ==> Choose(Sort(used), lo, hi) !in used
  {
    var t := Sort(used);
    SortKeeps(used);
    if t != [] {
      var g := GapFrom(t, lo, 0);
      forall i | 0 <= i < |t| ensures t[i] < NextPort(t, lo) && t[i] != lo + g {
        RankAvoids(t, lo, i);
      }
    }
  }

  /** The first choice: the first port of the range if nothing is used, else the port after
      the greatest used one, or the first of the range if all used ones are well below it. */
  lemma NextAfterUsed(used: seq<int>, m: int, lo: int, hi: int)
    ensures used == [] ==> Choose(Sort(used), lo, hi) == lo
    ensures m in used && (forall p :: p in used ==> p <= m) ==>
              && (lo <= m + 1 <= hi ==> Choose(Sort(used), lo, hi) == m + 1)
              && (m + 1 < lo <= hi ==> Choose(Sort(used), lo, hi) == lo)
  {
    var t := Sort(used);
    SortKeeps(used);
    if m in used && forall p :: p in used ==> p <= m {
      LastIsGreatest(t);
      assert t[|t| - 1] in used && m in t;
      assert t[|t| - 1] == m;
    }
  }

  /** The second choice, when the greatest used port reaches the end of the range: the first
      port that, by rank, the used entries leave free. */
  lemma FallbackExactly(used: seq<int>, m: int, lo: int, hi: int)
    requires m in used && (forall p :: p in used ==> p <= m) && m + 1 > hi
    ensures var port := Choose(Sort(used), lo, hi);
            port != 0 ==> exists g: nat :: port == lo + g && Crowded(used, lo, g) && !Filled(used, lo, g)
  {
    var t := Sort(used);
    SortKeeps(used);
    LastIsGreatest(t);
    assert t[|t| - 1] in used && m in t;
    assert t[|t| - 1] == m;
    var g := GapFrom(t, lo, 0);
    CrowdedUpToGap(used, lo, g);
    FilledBelowGap(used, lo, g);
  }

  lemma RankAvoids(t: seq<int>, lo: int, i: nat)
    requires Sorted(t) && i < |t|
    ensures t[i] != lo + GapFrom(t, lo, 0)
  {
    var g := GapFrom(t, lo, 0);
    if i >= g {
      assert t[g] <= t[i];
    }
  }

  /** How many used entries, duplicates included, are not above p. */
  function UpTo(used: seq<int>, p: int): (n: nat)
    ensures n <= |used|
  {
    if used == [] then 0 else UpTo(used[1..], p) + if used[0] <= p then 1 else 0
  }

  /** By rank the used entries fill the n ports from lo on. */
  ghost predicate Crowded(used: seq<int>, lo: int, n: int) {
    forall i: nat :: i < n ==> Filled(used, lo, i)
  }

  predicate Filled(used: seq<int>, lo: int, i: nat) {
    UpTo(used, lo + i) > i
  }

  lemma {:induction false} UpToInsert(s: seq<int>, x: int, p: int)
    ensures UpTo(Insert(s, x), p) == UpTo(s, p) + if x <= p then 1 else 0
  {
    if s == [] || x <= s[0] {
      assert ([x] + s)[1..] == s;
    } else {
      UpToInsert(s[1..], x, p);
      assert Insert(s, x)[1..] == Insert(s[1..], x);
    }
  }

  lemma {:induction false} UpToSort(s: seq<int>, p: int)
    ensures UpTo(Sort(s), p) == UpTo(s, p)
  {
    if s != [] {
      UpToSort(s[1..], p);
      UpToInsert(Sort(s[1..]), s[0], p);
    }
  }

  lemma {:induction false} UpToRank(t: seq<int>, p: int, i: nat)
    requires Sorted(t) && i < |t|
    ensures UpTo(t, p) > i <==> t[i] <= p
  {
    if i > 0 {
      UpToRank(t[1..], p, i - 1);
    } else if t[0] > p {
      NoneUpTo(t, p);
    }
  }

  lemma {:induction false} NoneUpTo(t: seq<int>, p: int)
    requires forall i :: 0 <= i < |t| ==> t[i] > p
    ensures UpTo(t, p) == 0
  {
    if t != [] {
      NoneUpTo(t[1..], p);
    }
  }

  lemma SortLength(s: seq<int>)
    ensures Sorted(Sort(s)) && |Sort(s)| == |s|
  {
    SortKeeps(s);
  }

  /** The ports from lo on are filled by rank exactly up to the first gap of the sorted list. */
  lemma CrowdedUpToGap(used: seq<int>, lo: int, n: int)
    ensures Crowded(used, lo, n) <==> n <= GapFrom(Sort(used), lo, 0)
  {
    var g := GapFrom(Sort(used), lo, 0);
    forall i: nat | i <= g ensures Filled(used, lo, i) <==> i < g {
      FilledBelowGap(used, lo, i);
    }
    assert n > g ==> !Filled(used, lo, g);
  }

  lemma FilledBelowGap(used: seq<int>, lo: int, i: nat)
    requires i <= GapFrom(Sort(used), lo, 0)
    ensures Filled(used, lo, i) <==> i < GapFrom(Sort(used), lo, 0)
  {
    var t := Sort(used);
    SortLength(used);
    UpToSort(used, lo + i);
    if i < |t| {
      UpToRank(t, lo + i, i);
    }
  }

  /** A port that is handed out is never below the range; and it lies above the range exactly
      when the range is empty and nothing is used, or the used entries fill the range by rank
      but, reaching beyond it, leave a gap later on. */
  lemma LeavesRangeExactly(used: seq<int>, lo: int, hi: int)
    requires hi >= 0
    ensures var port := Choose(Sort(used), lo, hi);
            && (port == 0 || port >= lo)
            && (port > hi <==>
                if used == [] then lo > hi
                else Crowded(used, lo, hi - lo + 1) && !Crowded(used, lo, |used|))
  {
    SortLength(used);
    CrowdedUpToGap(used, lo, hi - lo + 1);
    CrowdedUpToGap(used, lo, |used|);
    LeavesOfSorted(Sort(used), lo, hi);
  }

  lemma LeavesOfSorted(t: seq<int>, lo: int, hi: int)
    requires Sorted(t) && hi >= 0
    ensures var port, g := Choose(t, lo, hi), GapFrom(t, lo, 0);
            && (port == 0 || port >= lo)
            && (port > hi <==> if t == [] then lo > hi else hi - lo + 1 <= g < |t|)
  {
    var g := GapFrom(t, lo, 0);
    if g < |t| {
      assert t[g] <= t[|t| - 1];
    }
  }

  /** So a port above the range can be handed out: here 4, because 5 is still in use. */
  lemma StrayLeavesRange(used: seq<int>)
    requires used == [1, 2, 3, 5]
    ensures Choose(Sort(used), 1, 3) == 4
  {
    SortOfSorted(used);
    assert GapFrom(used, 1, 2) == 3;
    assert GapFrom(used, 1, 0) == 3;
  }

  lemma StaysInRange(used: seq<int>, lo: int, hi: int)
    requires lo <= hi && forall p :: p in used ==> p <= hi
    ensures Choose(Sort(used), lo, hi) == 0 || lo <= Choose(Sort(used), lo, hi) <= hi
  {
    SortKeeps(used);
    var t := Sort(used);
    if t != [] {
      var g := GapFrom(t, lo, 0);
      if g < |t| {
        assert t[g] in used;
      }
    }
  }

  ghost predicate Full(used: seq<int>, lo: int, hi: int) {
    forall p :: lo <= p <= hi ==> p in used
  }

  /** When a search in a range of positive ports fails, exactly: some used port reaches the
      end of the range, and the used entries, duplicates and ports below the range included,
      fill by rank at least the range and leave no gap after it either. */
  lemma ZeroExactly(used: seq<int>, lo: int, hi: int)
    requires 0 < lo <= hi
    ensures Choose(Sort(used), lo, hi) == 0 <==>
            && (exists p :: p in used && p >= hi)
            && |used| > hi - lo
            && Crowded(used, lo, |used|)
  {
    SortLength(used);
    CrowdedUpToGap(used, lo, |used|);
    ZeroOfSorted(Sort(used), lo, hi);
    LastReaches(used, hi);
  }

  lemma ZeroOfSorted(t: seq<int>, lo: int, hi: int)
    requires 0 < lo <= hi
    ensures Choose(t, lo, hi) == 0 <==>
            t != [] && t[|t| - 1] >= hi && |t| > hi - lo && GapFrom(t, lo, 0) == |t|
  {
  }

  lemma LastReaches(used: seq<int>, hi: int)
    ensures var t := Sort(used);
            (exists p :: p in used && p >= hi) <==> t != [] && t[|t| - 1] >= hi
  {
    var t := Sort(used);
    SortKeeps(used);
    if t != [] {
      LastIsGreatest(t);
      assert t[|t| - 1] in used;
    }
  }

  lemma LastIsGreatest(t: seq<int>)
    requires Sorted(t) && t != []
    ensures t[|t| - 1] in t && forall p :: p in t ==> p <= t[|t| - 1]
  {
  }

  /** So failure does not mean that the range is full: here 2 is free. */
  lemma DuplicatesHideFreePorts(used: seq<int>)
    requires used == [1, 1, 3]
    ensures Choose(Sort(used), 1, 3) == 0 && !Full(used, 1, 3)
  {
    SortOfSorted(used);
    assert GapFrom(used, 1, 2) == 3;
    assert GapFrom(used, 1, 0) == 3;
    assert 2 !in used;
  }

  lemma SortOfSorted(used: seq<int>)
    requires Sorted(used)
    ensures Sort(used) == used
  {
    SortSorts(used);
    SameSorted(Sort(used), used);
  }

  /** Sorting has only one result. */
  lemma {:induction false} SameSorted(s: seq<int>, t: seq<int>)
    requires Sorted(s) && Sorted(t) && multiset(s) == multiset(t)
    ensures s == t
  {
    SameMembers(s, t);
    if s != [] {
      assert s[0] in s && t[0] in t;
      assert s[0] == t[0];
      DropHead(s);
      DropHead(t);
      SameSorted(s[1..], t[1..]);
      assert s == [s[0]] + s[1..] && t == [t[0]] + t[1..];
    }
  }

  lemma DropHead(s: seq<int>)
    requires s != []
    ensures multiset(s[1..]) == multiset(s) - multiset{s[0]}
  {
    assert s == [s[0]] + s[1..];
  }

  /** Without duplicates and strays the search is exact: it fails only on a full range... */
  lemma ZeroMeansFull(used: seq<int>, lo: int, hi: int)
    requires 0 < lo <= hi && Distinct(used) && forall p :: p in used ==> lo <= p <= hi
    ensures Choose(Sort(used), lo, hi) == 0 <==> Full(used, lo, hi)
  {
    var t := Sort(used);
    SortKeeps(used);
    StrictlySorted(used);
    ZeroExactly(used, lo, hi);
    CrowdedUpToGap(used, lo, |used|);
    if Choose(t, lo, hi) == 0 {
      forall p | lo <= p <= hi ensures p in used {
        RankBoundHolds(t, lo, p - lo);
        assert t[p - lo] == p;
      }
    }
    if Full(used, lo, hi) {
      NeverUsed(used, lo, hi);
      StaysInRange(used, lo, hi);
    }
  }

  /** ...and when the end of the range is taken, it finds the least free port. */
  lemma FallbackIsLeastFree(used: seq<int>, lo: int, hi: int)
    requires 0 < lo <= hi && hi in used && Distinct(used) && forall p :: p in used ==> lo <= p <= hi
    ensures var port := Choose(Sort(used), lo, hi);
            port != 0 ==> lo <= port <= hi && port !in used && forall p :: lo <= p < port ==> p in used
  {
    var t := Sort(used);
    SortKeeps(used);
    StrictlySorted(used);
    NeverUsed(used, lo, hi);
    StaysInRange(used, lo, hi);
    var k :| 0 <= k < |t| && t[k] == hi;
    assert t[k] <= t[|t| - 1];
    var g := GapFrom(t, lo, 0);
    forall p | lo <= p < lo + g ensures p in used {
      RankBoundHolds(t, lo, p - lo);
      assert t[p - lo] == p;
    }
  }

  lemma StrictlySorted(used: seq<int>)
    requires Distinct(used)
    ensures var t := Sort(used); forall i, j :: 0 <= i < j < |t| ==> t[i] < t[j]
  {
    var t := Sort(used);
    SortKeeps(used);
    SortSorts(used);
    forall i, j | 0 <= i < j < |t| ensures t[i] < t[j] {
      if t[i] == t[j] {
        TwiceInMultiset(t, i, j);
        OnceInMultiset(used, t[i]);
      }
    }
  }

  lemma {:induction false} RankBoundHolds(t: seq<int>, lo: int, i: nat)
    requires forall i, j :: 0 <= i < j < |t| ==> t[i] < t[j]
    requires forall p :: p in t ==> lo <= p
    ensures i < |t| ==> t[i] >= lo + i
  {
    if i < |t| {
      assert t[i] in t;
      if i > 0 {
        RankBoundHolds(t, lo, i - 1);
        assert t[i - 1] < t[i];
      }
    }
  }

  lemma TwiceInMultiset(t: seq<int>, i: nat, j: nat)
    requires i < j < |t| && t[i] == t[j]
    ensures multiset(t)[t[i]] >= 2
  {
    assert t == t[..i] + [t[i]] + t[i + 1..j] + [t[j]] + t[j + 1..];
  }

  lemma {:induction false} OnceInMultiset(s: seq<int>, x: int)
    requires Distinct(s)
    ensures multiset(s)[x] <= 1
  {
    if s != [] {
      assert s == [s[0]] + s[1..];
      OnceInMultiset(s[1..], x);
      if s[0] == x {
        assert x !in s[1..];
        assert x !in multiset(s[1..]);
      }
    }
  }

  // ----- The lock table

  /** Two minutes in nanoseconds. */
  const LOCK_TIME := 120_000_000_000

  /** A monotone clock. */
  class Clock {
    var now: int

    constructor (start: int)
      ensures now == start
    {
      now := start;
    }

    method Now() returns (t: int)
      modifies this
      ensures t == now >= old(now)
    {
      var passed := *;
      now := if passed >= 0 then now + passed else now;
      t := now;
    }
  }

  /** A port that was locked for its caller, and when. */
  datatype Grant = Grant(port: int, at: int)

  class GatewayAction {
    var lockPort: map<int, int>
    const clock: Clock
    /** Every locked grant so far, oldest first. */
    ghost var grants: seq<Grant>

    constructor (clock: Clock)
      ensures Valid() && grants == [] && this.clock == clock
    {
      lockPort, this.clock, grants := map[], clock, [];
    }

    /** The lock of a grant is still in the table, or its two minutes are over. */
    ghost predicate Protected(g: Grant)
      reads this, clock
    {
      (g.port in lockPort && lockPort[g.port] >= g.at + LOCK_TIME) || clock.now > g.at + LOCK_TIME
    }

    ghost predicate Valid()
      reads this, clock
    {
      && (forall i :: 0 <= i < |grants| ==> Protected(grants[i]))
      && FarApart(grants)
    }

    /** Drops the expired locks and lists the ports of the others. */
    method Sweep() returns (locked: seq<int>)
      requires Valid()
      modifies this`lockPort, clock
      ensures Valid() && clock.now >= old(clock.now)
      ensures forall p :: p in locked <==> p in lockPort
      ensures Distinct(locked)
      ensures forall p :: p in lockPort ==> p in old(lockPort) && lockPort[p] == old(lockPort)[p]
      ensures forall p :: p in old(lockPort) && p !in lockPort ==> old(lockPort)[p] < clock.now
      ensures forall p :: p in lockPort ==> lockPort[p] >= old(clock.now)
    {
      locked := [];
      var keys: set<int> := lockPort.Keys;
      while keys != {}
        invariant keys <= lockPort.Keys <= old(lockPort).Keys && clock.now >= old(clock.now)
        invariant forall p :: p in locked <==> p in lockPort && p !in keys
        invariant Distinct(locked)
        invariant forall p :: p in lockPort ==> lockPort[p] == old(lockPort)[p]
        invariant forall p :: p in old(lockPort) && p !in lockPort ==> old(lockPort)[p] < clock.now
        invariant forall p :: p in lockPort && p !in keys ==> lockPort[p] >= old(clock.now)
        invariant forall i :: 0 <= i < |grants| ==> Protected(grants[i])
        decreases keys
      {
        var p := AnyOf(keys);
        keys := keys - {p};
        var t := clock.Now();
        if lockPort[p] < t {
          lockPort := lockPort - {p};
        } else {
          locked := locked + [p];
        }
      }
    }

    /** One call, for the ports the database reports as used at the requested address (None
        if the query fails). Returns 0 where GetAvailablePort returns an error. */
    method GetAvailablePort(rules: Option<seq<int>>, lock: bool, env: Env) returns (port: int)
      requires Valid()
      modifies this, clock
      ensures Valid() && clock.now >= old(clock.now)
      // The database's ports and every unexpired lock are avoided, whether or not this call locks.
      ensures port != 0 ==> rules.Some? && port !in rules.value
      ensures port != 0 && port in old(lockPort) ==> old(lockPort)[port] < clock.now
      // The answer is the selection's over the database's ports and some list of the locked ones.
      ensures rules.Some? ==> exists locked ::
                  && Unexpired(locked, old(lockPort), old(clock.now), clock.now)
                  && port == Choose(Sort(rules.value + locked), MinPort(env), MaxPort(env))
      // Exactly a successful locking call records a grant and its lock.
      ensures if lock && port != 0
              then exists at :: old(clock.now) <= at <= clock.now
                                && grants == old(grants) + [Grant(port, at)]
                                && port in lockPort && lockPort[port] == at + 120_000_000_000
              else grants == old(grants)
      ensures forall p :: p in lockPort && (p != port || !lock) ==> p in old(lockPort) && lockPort[p] == old(lockPort)[p]
      ensures forall p :: p in old(lockPort) && p !in lockPort ==> old(lockPort)[p] < clock.now
    {
      if rules.None? {
        return 0;
      }
      var locked := Sweep();
      port := PickPort(rules.value + locked, env);
      assert Unexpired(locked, old(lockPort), old(clock.now), clock.now);
      assert port != 0 ==> port !in rules.value && port !in locked;
      if port != 0 && lock {
        LockFor(port);
      }
    }

    method PickPort(used: seq<int>, env: Env) returns (port: int)
      ensures port == Choose(Sort(used), MinPort(env), MaxPort(env))
      ensures port != 0 ==> port !in used
    {
      NeverUsed(used, MinPort(env), MaxPort(env));
      var ports := new int[|used|](i requires 0 <= i < |used| => used[i]);
      assert ports[..] == used;
      port := SelectAvailablePort(ports, env);
    }

    /** Locks a port that is not locked. */
    method LockFor(port: int)
      requires Valid() && port !in lockPort
      modifies this, clock
      ensures Valid() && clock.now >= old(clock.now)
      ensures exists at :: old(clock.now) <= at <= clock.now
                           && grants == old(grants) + [Grant(port, at)]
                           && lockPort == old(lockPort)[port := at + LOCK_TIME]
    {
      var t := clock.Now();
      lockPort := lockPort[port := t + LOCK_TIME];
      FarApartSnoc(grants, Grant(port, t));
      grants := grants + [Grant(port, t)];
    }
  }

  /** The ports whose lock has not expired, each once, as of some time in between. */
  ghost predicate Unexpired(locked: seq<int>, locks: map<int, int>, before: int, now: int) {
    && Distinct(locked)
    && (forall p :: p in locked ==> p in locks && locks[p] >= before)
    && (forall p :: p in locks && p !in locked ==> locks[p] < now)
  }

  /** Any two grants of the same port are more than two minutes apart. */
  ghost predicate FarApart(grants: seq<Grant>) {
    forall i, j :: 0 <= i < j < |grants| && grants[i].port == grants[j].port ==>
                     grants[j].at - grants[i].at > 120_000_000_000
  }

  lemma FarApartSnoc(grants: seq<Grant>, g: Grant)
    requires FarApart(grants)
    requires forall i :: 0 <= i < |grants| && grants[i].port == g.port ==> g.at - grants[i].at > LOCK_TIME
    ensures FarApart(grants + [g])
  {
  }
}
