/** Greedy admission of a batch of requests against the memory that is still allocatable
    (AllocMemory in api/handler/service_batch_operation.go). */
module Admission {
  import opened Seqs

  datatype Component = Component(containerMemory: int, replicas: int)

  datatype Request = Request(componentID: string, eventID: string)

  type Components = map<string, Component>

  datatype CheckError = Admitted | NotFound | LackOfMemory

  function RequestMemory(c: Component): int {
    c.containerMemory * c.replicas
  }

  /** The memory each known component asks for. */
  type Sizes = map<string, int>

  function SizesOf(components: Components): (sizes: Sizes)
    ensures sizes.Keys == components.Keys
    ensures forall id :: id in components ==> sizes[id] == RequestMemory(components[id])
  {
    map id | id in components :: RequestMemory(components[id])
  }

  function SizeOf(sizes: Sizes, r: Request): int {
    if r.componentID in sizes then sizes[r.componentID] else 0
  }

  /** The memory the given requests use together; requests for unknown components use none. */
  function TotalMemory(sizes: Sizes, reqs: seq<Request>): int {
    if reqs == [] then 0
    else
      var last := reqs[|reqs| - 1];
      TotalMemory(sizes, reqs[..|reqs| - 1])
      + SizeOf(sizes, last)
  }

  /** The requests that were marked, in order. */
  function Chosen(reqs: seq<Request>, marks: seq<bool>): seq<Request>
    requires |reqs| == |marks|
  {
    if reqs == [] then []
    else
      var n := |reqs| - 1;
      var front := Chosen(reqs[..n], marks[..n]);
      if marks[n] then front + [reqs[n]] else front
  }

  function Others(marks: seq<bool>): seq<bool> {
    seq(|marks|, i requires 0 <= i < |marks| => !marks[i])
  }

  lemma ChosenSnoc(reqs: seq<Request>, marks: seq<bool>, r: Request, m: bool)
    requires |reqs| == |marks|
    ensures Chosen(reqs + [r], marks + [m]) == if m then Chosen(reqs, marks) + [r] else Chosen(reqs, marks)
    ensures Chosen(reqs + [r], Others(marks + [m])) ==
            if m then Chosen(reqs, Others(marks)) else Chosen(reqs, Others(marks)) + [r]
  {
    assert (reqs + [r])[..|reqs|] == reqs && (marks + [m])[..|reqs|] == marks;
    assert Others(marks + [m])[..|reqs|] == Others(marks);
  }

  /** Marked requests are chosen one by one, in order. */
  lemma {:induction false} ChosenInOrder(a: seq<Request>, b: seq<Request>, ma: seq<bool>, mb: seq<bool>, r: Request)
    requires |a| == |ma| && |b| == |mb|
    ensures Chosen(a + b, ma + mb) == Chosen(a, ma) + Chosen(b, mb)
    ensures Chosen([r], [true]) == [r] && Chosen([r], [false]) == []
  {
    assert [r][..0] == [] && [true][..0] == [] && [false][..0] == [];
    if b == [] {
      assert a + b == a && ma + mb == ma;
    } else {
      var n := |b| - 1;
      ChosenInOrder(a, b[..n], ma, mb[..n], r);
      assert (a + b)[..|a| + n] == a + b[..n] && (ma + mb)[..|a| + n] == ma + mb[..n];
    }
  }

  /** The memory of a list is the sum of its components' memory times their replicas. */
  lemma TotalMemoryNext(components: Components, reqs: seq<Request>, r: Request)
    ensures TotalMemory(SizesOf(components), []) == 0
    ensures TotalMemory(SizesOf(components), reqs + [r]) == TotalMemory(SizesOf(components), reqs) +
                                                            if r.componentID in components
                                                            then components[r.componentID].containerMemory * components[r.componentID].replicas else 0
  {
    TotalMemorySnoc(SizesOf(components), reqs, r);
  }

  lemma TotalMemorySnoc(sizes: Sizes, reqs: seq<Request>, r: Request)
    ensures TotalMemory(sizes, reqs + [r]) ==
            TotalMemory(sizes, reqs) + SizeOf(sizes, r)
  {
    assert (reqs + [r])[..|reqs|] == reqs;
  }

  ghost predicate NonNegativeSizes(sizes: Sizes) {
    forall id :: id in sizes ==> sizes[id] >= 0
  }

  /** The decisions of a run that starts with `memory`: a request is admitted exactly when
      its component is known and fits in what the requests admitted before it left over. */
  ghost predicate Greedy(sizes: Sizes, memory: int, reqs: seq<Request>, marks: seq<bool>) {
    && |marks| == |reqs|
    && forall i :: 0 <= i < |reqs| ==>
                     (marks[i] <==>
                      && reqs[i].componentID in sizes
                      && SizeOf(sizes, reqs[i]) <= memory - TotalMemory(sizes, Chosen(reqs[..i], marks[..i])))
  }

  /** The lists and the remainder a run leaves behind. */
  datatype Record = Record(admitted: seq<Request>, rejected: seq<Request>, results: seq<(Request, CheckError)>,
                           remainder: int)

  /** What the record of a run holds, given its decisions. */
  ghost predicate Recorded(sizes: Sizes, memory: int, reqs: seq<Request>, marks: seq<bool>, record: Record) {
    && Greedy(sizes, memory, reqs, marks)
    && record.admitted == Chosen(reqs, marks)
    && record.rejected == Chosen(reqs, Others(marks))
    && record.remainder == memory - TotalMemory(sizes, record.admitted)
    && FailuresOf(sizes, record.rejected, record.results)
  }

  /** Each rejected request is reported, in order, with the reason. */
  ghost predicate FailuresOf(sizes: Sizes, rejected: seq<Request>, results: seq<(Request, CheckError)>) {
    |results| == |rejected| && forall k :: 0 <= k < |results| ==> results[k] == (rejected[k], Reason(sizes, rejected[k]))
  }

  function Reason(sizes: Sizes, r: Request): CheckError {
    if r.componentID in sizes then LackOfMemory else NotFound
  }

  predicate Fits(sizes: Sizes, r: Request, remainder: int) {
    r.componentID in sizes && sizes[r.componentID] <= remainder
  }

  /** The record after one more request. */
  function Decided(sizes: Sizes, record: Record, r: Request): Record {
    if Fits(sizes, r, record.remainder)
    then Record(record.admitted + [r], record.rejected, record.results, record.remainder - sizes[r.componentID])
    else Record(record.admitted, record.rejected + [r], record.results + [(r, Reason(sizes, r))], record.remainder)
  }

  lemma RecordedSnoc(sizes: Sizes, memory: int, reqs: seq<Request>, marks: seq<bool>, record: Record, r: Request)
    requires Recorded(sizes, memory, reqs, marks, record)
    ensures Recorded(sizes, memory, reqs + [r], marks + [Fits(sizes, r, record.remainder)], Decided(sizes, record, r))
  {
    var m := Fits(sizes, r, record.remainder);
    ChosenSnoc(reqs, marks, r, m);
    GreedySnoc(sizes, memory, reqs, marks, r, m);
    if m {
      TotalMemorySnoc(sizes, record.admitted, r);
    } else {
      FailuresSnoc(sizes, record.rejected, record.results, r);
    }
  }

  lemma FailuresSnoc(sizes: Sizes, rejected: seq<Request>, results: seq<(Request, CheckError)>, r: Request)
    requires FailuresOf(sizes, rejected, results)
    ensures FailuresOf(sizes, rejected + [r], results + [(r, Reason(sizes, r))])
  {
  }

  class AllocMemory {
    var allcm: int
    const components: Components
    var batchOpResult: seq<(Request, CheckError)>
    var batchOpRequests: seq<Request>
    var badOpRequest: seq<Request>

    /** The loop of NewAllocMemory, over the memory and components it looked up. */
    constructor (memory: int, components: Components, batchOpReqs: seq<Request>)
      ensures this.components == components
      ensures exists marks :: Outcome(memory, batchOpReqs, marks)
    {
      this.components := components;
      allcm := memory;
      batchOpResult, batchOpRequests, badOpRequest := [], [], [];
      new;
      ghost var sizes, marks: seq<bool> := SizesOf(components), [];
      for i := 0 to |batchOpReqs|
        invariant Recorded(sizes, memory, batchOpReqs[..i], marks, Contents())
      {
        TakeNext(batchOpReqs, i);
        RecordedSnoc(sizes, memory, batchOpReqs[..i], marks, Contents(), batchOpReqs[i]);
        marks := marks + [Fits(sizes, batchOpReqs[i], allcm)];
        Decide(batchOpReqs[i]);
      }
      assert batchOpReqs[..|batchOpReqs|] == batchOpReqs;
      assert Outcome(memory, batchOpReqs, marks);
    }

    ghost function Contents(): Record
      reads this
    {
      Record(batchOpRequests, badOpRequest, batchOpResult, allcm)
    }

    /** One turn of that loop. */
    method Decide(req: Request)
      modifies this
      ensures Contents() == Decided(SizesOf(components), old(Contents()), req)
    {
      var err := Check(req.componentID);
      if !err.Admitted? {
        batchOpResult := batchOpResult + [(req, err)];
        badOpRequest := badOpRequest + [req];
      } else {
        batchOpRequests := batchOpRequests + [req];
      }
    }

    /** What a run over the given requests has recorded. */
    ghost predicate Outcome(memory: int, reqs: seq<Request>, marks: seq<bool>)
      reads this
    {
      Recorded(SizesOf(components), memory, reqs, marks, Contents())
    }

    /** What any run leaves behind, whatever the sizes: each request in one of the two lists, in
        order, and one failure item for each rejected one, with its reason. */
    lemma Lists(memory: int, reqs: seq<Request>, marks: seq<bool>)
      requires Outcome(memory, reqs, marks)
      ensures |marks| == |reqs|
      ensures batchOpRequests == Chosen(reqs, marks) && badOpRequest == Chosen(reqs, Others(marks))
      ensures |batchOpResult| == |badOpRequest|
      ensures forall k :: 0 <= k < |batchOpResult| ==>
                            && batchOpResult[k].0 == badOpRequest[k]
                            && batchOpResult[k].1 == if badOpRequest[k].componentID in components then LackOfMemory
                                                     else NotFound
      ensures TotalMemory(SizesOf(components), batchOpRequests) + allcm == memory
    {
    }

    /** What a run over components of non-negative size, from non-negative memory, guarantees. */
    lemma Guarantees(memory: int, reqs: seq<Request>, marks: seq<bool>)
      requires Outcome(memory, reqs, marks) && memory >= 0
      requires forall id :: id in components ==> components[id].containerMemory >= 0 && components[id].replicas >= 0
      ensures TotalMemory(SizesOf(components), batchOpRequests) + allcm == memory && allcm >= 0
      ensures multiset(batchOpRequests) + multiset(badOpRequest) == multiset(reqs)
      ensures forall i :: 0 <= i < |reqs| && !marks[i] && reqs[i].componentID in components ==>
                            components[reqs[i].componentID].containerMemory * components[reqs[i].componentID].replicas > allcm
    {
      var sizes := SizesOf(components);
      forall id | id in sizes ensures sizes[id] >= 0 {
        NonNegativeProduct(components[id].containerMemory, components[id].replicas);
      }
      Partition(reqs, marks);
      RemainderShrinks(sizes, memory, reqs, marks, 0);
      forall i | 0 <= i < |reqs| && !marks[i] && reqs[i].componentID in components
        ensures sizes[reqs[i].componentID] > allcm
      {
        RejectedDoNotFit(sizes, memory, reqs, marks, i);
      }
    }

    method Check(componentID: string) returns (err: CheckError)
      modifies this`allcm
      ensures err.NotFound? <==> componentID !in components
      ensures err.Admitted? <==> componentID in components && SizesOf(components)[componentID] <= old(allcm)
      ensures allcm == if err.Admitted? then old(allcm) - SizesOf(components)[componentID] else old(allcm)
      ensures componentID in components ==>
                SizesOf(components)[componentID] == components[componentID].containerMemory * components[componentID].replicas
    {
      if componentID !in components {
        return NotFound;
      }
      var component := components[componentID];
      var requestMemory := component.containerMemory * component.replicas;
      if requestMemory > allcm {
        return LackOfMemory;
      }
      allcm := allcm - requestMemory;
      return Admitted;
    }
  }

  lemma GreedySnoc(sizes: Sizes, memory: int, reqs: seq<Request>, marks: seq<bool>, r: Request, m: bool)
    requires Greedy(sizes, memory, reqs, marks)
    requires m <==> r.componentID in sizes
                    && SizeOf(sizes, r) <= memory - TotalMemory(sizes, Chosen(reqs, marks))
    ensures Greedy(sizes, memory, reqs + [r], marks + [m])
  {
    var rs, ms := reqs + [r], marks + [m];
    forall i | 0 <= i < |rs|
      ensures ms[i] <==>
              && rs[i].componentID in sizes
              && SizeOf(sizes, rs[i]) <= memory - TotalMemory(sizes, Chosen(rs[..i], ms[..i]))
    {
      if i < |reqs| {
        assert rs[..i] == reqs[..i] && ms[..i] == marks[..i];
      } else {
        assert rs[..i] == reqs && ms[..i] == marks;
      }
    }
  }

  lemma NonNegativeProduct(a: int, b: int)
    requires a >= 0 && b >= 0
    ensures a * b >= 0
  {
  }

  // ----- What a run guarantees

  /** Nothing is lost, duplicated or reordered between the two lists. */
  lemma {:induction false} Partition(reqs: seq<Request>, marks: seq<bool>)
    requires |reqs| == |marks|
    ensures multiset(Chosen(reqs, marks)) + multiset(Chosen(reqs, Others(marks))) == multiset(reqs)
  {
    if reqs != [] {
      var n := |reqs| - 1;
      Partition(reqs[..n], marks[..n]);
      TakeNext(reqs, n);
      TakeNext(marks, n);
      assert reqs[..n + 1] == reqs && marks[..n + 1] == marks;
      PartitionSnoc(reqs[..n], marks[..n], reqs[n], marks[n]);
    }
  }

  lemma PartitionSnoc(reqs: seq<Request>, marks: seq<bool>, r: Request, m: bool)
    requires |reqs| == |marks|
    requires multiset(Chosen(reqs, marks)) + multiset(Chosen(reqs, Others(marks))) == multiset(reqs)
    ensures multiset(Chosen(reqs + [r], marks + [m])) + multiset(Chosen(reqs + [r], Others(marks + [m]))) == multiset(reqs + [r])
  {
    ChosenSnoc(reqs, marks, r, m);
    var yes, no := Chosen(reqs, marks), Chosen(reqs, Others(marks));
    assert multiset(yes + [r]) == multiset(yes) + multiset{r};
    assert multiset(no + [r]) == multiset(no) + multiset{r};
  }

  /** The remainder after the first i decisions is never below the final one, nor below zero. */
  lemma {:induction false} RemainderShrinks(sizes: Sizes, memory: int, reqs: seq<Request>, marks: seq<bool>, i: nat)
    requires NonNegativeSizes(sizes) && Greedy(sizes, memory, reqs, marks) && i <= |reqs|
    ensures TotalMemory(sizes, Chosen(reqs[..i], marks[..i])) <= TotalMemory(sizes, Chosen(reqs, marks))
    ensures memory >= 0 ==> TotalMemory(sizes, Chosen(reqs, marks)) <= memory
    ensures memory < 0 ==> Chosen(reqs, marks) == []
  {
    if i == |reqs| {
      assert reqs[..i] == reqs && marks[..i] == marks;
    }
    if reqs != [] {
      var n := |reqs| - 1;
      GreedyPrefix(sizes, memory, reqs, marks, n);
      TakeNext(reqs, n);
      TakeNext(marks, n);
      assert reqs[..n + 1] == reqs && marks[..n + 1] == marks;
      if i <= n {
        assert reqs[..n][..i] == reqs[..i] && marks[..n][..i] == marks[..i];
        RemainderShrinks(sizes, memory, reqs[..n], marks[..n], i);
      } else {
        RemainderShrinks(sizes, memory, reqs[..n], marks[..n], n);
      }
      UseSnoc(sizes, memory, reqs[..n], marks[..n], reqs[n], marks[n]);
    }
  }

  /** One more decision keeps the admitted total growing and within the memory. */
  lemma UseSnoc(sizes: Sizes, memory: int, reqs: seq<Request>, marks: seq<bool>, r: Request, m: bool)
    requires NonNegativeSizes(sizes) && |reqs| == |marks|
    requires m ==> r.componentID in sizes
                   && SizeOf(sizes, r) <= memory - TotalMemory(sizes, Chosen(reqs, marks))
    requires memory >= 0 ==> TotalMemory(sizes, Chosen(reqs, marks)) <= memory
    requires memory < 0 ==> Chosen(reqs, marks) == []
    ensures TotalMemory(sizes, Chosen(reqs, marks)) <= TotalMemory(sizes, Chosen(reqs + [r], marks + [m]))
    ensures memory >= 0 ==> TotalMemory(sizes, Chosen(reqs + [r], marks + [m])) <= memory
    ensures memory < 0 ==> Chosen(reqs + [r], marks + [m]) == []
  {
    ChosenSnoc(reqs, marks, r, m);
    TotalMemorySnoc(sizes, Chosen(reqs, marks), r);
  }

  lemma GreedyPrefix(sizes: Sizes, memory: int, reqs: seq<Request>, marks: seq<bool>, n: nat)
    requires Greedy(sizes, memory, reqs, marks) && n <= |reqs|
    ensures Greedy(sizes, memory, reqs[..n], marks[..n])
  {
    forall i | 0 <= i < n
      ensures marks[i] <==>
              && reqs[i].componentID in sizes
              && SizeOf(sizes, reqs[i]) <= memory - TotalMemory(sizes, Chosen(reqs[..n][..i], marks[..n][..i]))
    {
      assert reqs[..n][..i] == reqs[..i] && marks[..n][..i] == marks[..i];
    }
  }

  /** With sizes that are not negative, admission is maximal: a rejected request for a known
      component does not even fit in what is left at the end. */
  lemma RejectedDoNotFit(sizes: Sizes, memory: int, reqs: seq<Request>, marks: seq<bool>, i: nat)
    requires NonNegativeSizes(sizes) && Greedy(sizes, memory, reqs, marks)
    requires i < |reqs| && !marks[i] && reqs[i].componentID in sizes
    ensures SizeOf(sizes, reqs[i]) > memory - TotalMemory(sizes, Chosen(reqs, marks))
  {
    RemainderShrinks(sizes, memory, reqs, marks, i);
  }

  /** The decisions are the only ones greedy admission allows. */
  lemma {:induction false} GreedyIsUnique(sizes: Sizes, memory: int, reqs: seq<Request>, m1: seq<bool>, m2: seq<bool>)
    requires Greedy(sizes, memory, reqs, m1) && Greedy(sizes, memory, reqs, m2)
    ensures m1 == m2
  {
    if reqs != [] {
      var n := |reqs| - 1;
      GreedyPrefix(sizes, memory, reqs, m1, n);
      GreedyPrefix(sizes, memory, reqs, m2, n);
      GreedyIsUnique(sizes, memory, reqs[..n], m1[..n], m2[..n]);
      assert m1[n] == m2[n];
      assert m1 == m1[..n] + [m1[n]] && m2 == m2[..n] + [m2[n]];
    }
  }
}
