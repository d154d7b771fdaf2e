/** Start-up sequencing of a batch of services (api/handler/service_batch_operation.go):
    which dependency edges are kept when the dependency graph may contain cycles. */
module ServiceDependency {
  import opened Seqs

  datatype Relation = Relation(serviceID: string, dependServiceID: string)

  /** Adjacency lists, as sid2depsids and depsid2sids hold them. */
  type Graph = map<string, seq<string>>

  predicate Edge(g: Graph, a: string, b: string) {
    a in g && b in g[a]
  }

  /** A key is only ever present with at least one entry. */
  predicate NonEmptyLists(g: Graph) {
    forall a :: a in g ==> g[a] != []
  }

  function Nodes(g: Graph): set<string> {
    g.Keys + set a, i | a in g && 0 <= i < |g[a]| :: g[a][i]
  }

  // ----- What the search may append, and what it returns

  predicate ChildIn(g: Graph, l: seq<string>, x: string) {
    x in g && exists i :: 0 <= i < |g[x]| && g[x][i] in l
  }

  predicate Admissible(g: Graph, l: seq<string>, x: string) {
    x !in l && !ChildIn(g, l, x)
  }

  /** r extends l by dependencies of its last node, none of them pruned. */
  ghost predicate Grows(g: Graph, l: seq<string>, r: seq<string>) {
    && l <= r
    && forall i :: 1 <= |l| <= i < |r| ==> Edge(g, r[i - 1], r[i]) && Admissible(g, r[..i], r[i])
  }

  /** The search stops at r: its last node has no dependencies, or a pruned one. */
  ghost predicate Stops(g: Graph, r: seq<string>) {
    r != [] &&
    var last := r[|r| - 1];
    last in g ==> exists i :: 0 <= i < |g[last]| && !Admissible(g, r, g[last][i])
  }

  ghost predicate Emitted(g: Graph, l: seq<string>, r: seq<string>) {
    Grows(g, l, r) && Stops(g, r)
  }

  /** What dependency d of l's last node contributes. */
  ghost predicate Branch(g: Graph, l: seq<string>, d: string, r: seq<string>) {
    if Admissible(g, l, d) then Emitted(g, l + [d], r) else r == l
  }

  /** What the given dependencies of l's last node contribute together. */
  ghost predicate FromBranches(g: Graph, l: seq<string>, deps: seq<string>, r: seq<string>) {
    exists i :: 0 <= i < |deps| && Branch(g, l, deps[i], r)
  }

  lemma FromBranchesStep(g: Graph, l: seq<string>, deps: seq<string>, d: string, r: seq<string>)
    ensures FromBranches(g, l, deps + [d], r) <==> FromBranches(g, l, deps, r) || Branch(g, l, d, r)
  {
    var longer := deps + [d];
    if FromBranches(g, l, deps, r) {
      var i :| 0 <= i < |deps| && Branch(g, l, deps[i], r);
      assert Branch(g, l, longer[i], r);
    }
    if Branch(g, l, d, r) {
      assert Branch(g, l, longer[|deps|], r);
    }
  }

  lemma BranchesAreEmitted(g: Graph, l: seq<string>, r: seq<string>)
    requires l != [] && l[|l| - 1] in g
    ensures Emitted(g, l, r) <==> FromBranches(g, l, g[l[|l| - 1]], r)
  {
    var deps := g[l[|l| - 1]];
    if Emitted(g, l, r) && |r| > |l| {
      var d := r[|l|];
      assert r[..|l|] == l && r[|l| - 1] == l[|l| - 1];
      assert Edge(g, r[|l| - 1], r[|l|]) && Admissible(g, r[..|l|], r[|l|]);
      var i :| 0 <= i < |deps| && deps[i] == d;
      assert l + [d] <= r;
      assert Branch(g, l, deps[i], r);
    }
    if Emitted(g, l, r) && |r| == |l| {
      assert r == l;
      var i :| 0 <= i < |deps| && !Admissible(g, r, deps[i]);
      assert Branch(g, l, deps[i], r);
    }
    if FromBranches(g, l, deps, r) {
      var i :| 0 <= i < |deps| && Branch(g, l, deps[i], r);
      if Admissible(g, l, deps[i]) {
        assert r[..|l|] == l && r[|l|] == deps[i];
        assert Grows(g, l, r);
      }
    }
  }

  lemma NoGrowth(g: Graph, l: seq<string>, r: seq<string>)
    requires l != [] && l[|l| - 1] !in g && Grows(g, l, r)
    ensures r == l
  {
    assert |r| > |l| ==> Edge(g, r[|l| - 1], r[|l|]);
  }

  // ----- The class

  function DepsOf(relations: seq<Relation>, a: string): seq<string> {
    if relations == [] then []
    else
      var front, last := DepsOf(relations[..|relations| - 1], a), relations[|relations| - 1];
      if last.serviceID == a then front + [last.dependServiceID] else front
  }

  function UsersOf(relations: seq<Relation>, b: string): seq<string> {
    if relations == [] then []
    else
      var front, last := UsersOf(relations[..|relations| - 1], b), relations[|relations| - 1];
      if last.dependServiceID == b then front + [last.serviceID] else front
  }

  lemma {:induction false} DepsOfMembers(relations: seq<Relation>, a: string, b: string)
    ensures b in DepsOf(relations, a) <==> Relation(a, b) in relations
    ensures a in UsersOf(relations, b) <==> Relation(a, b) in relations
  {
    if relations != [] {
      var front, last := relations[..|relations| - 1], relations[|relations| - 1];
      DepsOfMembers(front, a, b);
      assert relations == front + [last];
    }
  }

  /** Dependencies and users are listed in the order of the relations. */
  lemma ListedInOrder(xs: seq<Relation>, ys: seq<Relation>, x: string)
    ensures DepsOf(xs + ys, x) == DepsOf(xs, x) + DepsOf(ys, x)
    ensures UsersOf(xs + ys, x) == UsersOf(xs, x) + UsersOf(ys, x)
  {
    DepsInOrder(xs, ys, xs + ys, x);
    UsersInOrder(xs, ys, xs + ys, x);
  }

  lemma {:induction false} DepsInOrder(xs: seq<Relation>, ys: seq<Relation>, all: seq<Relation>, x: string)
    requires all == xs + ys
    ensures DepsOf(all, x) == DepsOf(xs, x) + DepsOf(ys, x)
  {
    if ys == [] {
      assert all == xs;
    } else {
      var n := |ys| - 1;
      DepsInOrder(xs, ys[..n], xs + ys[..n], x);
      ListedNext(ys[..n], ys[n], ys, x);
      ListedNext(xs + ys[..n], ys[n], all, x);
      Assoc(DepsOf(xs, x), DepsOf(ys[..n], x), [ys[n].dependServiceID]);
    }
  }

  lemma {:induction false} UsersInOrder(xs: seq<Relation>, ys: seq<Relation>, all: seq<Relation>, x: string)
    requires all == xs + ys
    ensures UsersOf(all, x) == UsersOf(xs, x) + UsersOf(ys, x)
  {
    if ys == [] {
      assert all == xs;
    } else {
      var n := |ys| - 1;
      UsersInOrder(xs, ys[..n], xs + ys[..n], x);
      ListedNext(ys[..n], ys[n], ys, x);
      ListedNext(xs + ys[..n], ys[n], all, x);
      Assoc(UsersOf(xs, x), UsersOf(ys[..n], x), [ys[n].serviceID]);
    }
  }

  lemma ListedNext(front: seq<Relation>, r: Relation, all: seq<Relation>, x: string)
    requires all == front + [r]
    ensures DepsOf(all, x) == if r.serviceID == x then DepsOf(front, x) + [r.dependServiceID] else DepsOf(front, x)
    ensures UsersOf(all, x) == if r.dependServiceID == x then UsersOf(front, x) + [r.serviceID] else UsersOf(front, x)
  {
    assert all[..|front|] == front;
  }

  function Get(g: Graph, a: string): seq<string> {
    if a in g then g[a] else []
  }

  /** `g[a] = append(g[a], b)`. */
  function Put(g: Graph, a: string, b: string): (h: Graph)
    ensures NonEmptyLists(g) ==> NonEmptyLists(h)
    ensures forall x :: Get(h, x) == if x == a then Get(g, x) + [b] else Get(g, x)
  {
    g[a := Get(g, a) + [b]]
  }

  ghost predicate Describes(sid2deps: Graph, deps2sid: Graph, relations: seq<Relation>) {
    DescribesDeps(sid2deps, relations) && DescribesUsers(deps2sid, relations)
  }

  ghost predicate DescribesDeps(g: Graph, relations: seq<Relation>) {
    NonEmptyLists(g) && forall a :: Get(g, a) == DepsOf(relations, a)
  }

  ghost predicate DescribesUsers(g: Graph, relations: seq<Relation>) {
    NonEmptyLists(g) && forall b :: Get(g, b) == UsersOf(relations, b)
  }

  lemma DescribesDepsStep(g: Graph, front: seq<Relation>, r: Relation)
    requires DescribesDeps(g, front)
    ensures DescribesDeps(Put(g, r.serviceID, r.dependServiceID), front + [r])
  {
    forall a ensures Get(Put(g, r.serviceID, r.dependServiceID), a) == DepsOf(front + [r], a) {
      assert (front + [r])[..|front|] == front;
    }
  }

  lemma DescribesUsersStep(g: Graph, front: seq<Relation>, r: Relation)
    requires DescribesUsers(g, front)
    ensures DescribesUsers(Put(g, r.dependServiceID, r.serviceID), front + [r])
  {
    forall b ensures Get(Put(g, r.dependServiceID, r.serviceID), b) == UsersOf(front + [r], b) {
      assert (front + [r])[..|front|] == front;
    }
  }

  class ServiceDependency {
    const serviceIDs: seq<string>
    const sid2depsids: Graph
    const depsid2sids: Graph
    ghost const relations: seq<Relation>

    ghost predicate Valid() {
      && Describes(sid2depsids, depsid2sids, relations)
      && forall i :: 0 <= i < |relations| ==> relations[i].serviceID in serviceIDs
    }

    /** The relations are the rows whose service is among serviceIDs. */
    constructor (serviceIDs: seq<string>, relations: seq<Relation>)
      requires forall i :: 0 <= i < |relations| ==> relations[i].serviceID in serviceIDs
      ensures Valid() && this.serviceIDs == serviceIDs && this.relations == relations
    {
      var sid2deps: Graph, deps2sid: Graph := map[], map[];
      for i := 0 to |relations|
        invariant Describes(sid2deps, deps2sid, relations[..i])
      {
        var r := relations[i];
        DescribesDepsStep(sid2deps, relations[..i], r);
        DescribesUsersStep(deps2sid, relations[..i], r);
        TakeNext(relations, i);
        sid2deps := Put(sid2deps, r.serviceID, r.dependServiceID);
        deps2sid := Put(deps2sid, r.dependServiceID, r.serviceID);
      }
      assert relations[..|relations|] == relations;
      this.serviceIDs, this.relations := serviceIDs, relations;
      sid2depsids, depsid2sids := sid2deps, deps2sid;
    }

    /** The adjacency lists describe the relation and its inverse. */
    lemma EdgesAreRelations(a: string, b: string)
      requires Valid()
      ensures Edge(sid2depsids, a, b) <==> Relation(a, b) in relations
      ensures Edge(depsid2sids, b, a) <==> Relation(a, b) in relations
    {
      DepsOfMembers(relations, a, b);
      assert Get(sid2depsids, a) == DepsOf(relations, a);
      assert Get(depsid2sids, b) == UsersOf(relations, b);
    }

    method AlreadyInLinkedList(l: seq<string>, depsid: string) returns (found: bool)
      ensures found <==> depsid in l
    {
      var pre := |l|;
      while pre > 0
        invariant 0 <= pre <= |l|
        invariant depsid !in l[pre..]
      {
        if l[pre - 1] == depsid {
          return true;
        }
        assert l[pre - 1..] == [l[pre - 1]] + l[pre..];
        pre := pre - 1;
      }
      return false;
    }

    method ChildInLinkedList(l: seq<string>, sid: string) returns (found: bool)
      ensures found <==> ChildIn(sid2depsids, l, sid)
    {
      if sid !in sid2depsids {
        return false;
      }
      var depsids := sid2depsids[sid];
      for i := 0 to |depsids|
        invariant forall k :: 0 <= k < i ==> depsids[k] !in l
      {
        var already := AlreadyInLinkedList(l, depsids[i]);
        if already {
          return true;
        }
      }
      return false;
    }

    /** Returns exactly the unprunable extensions of l at which the search stops. */
    method BuildLinkListByHead(l: seq<string>) returns (result: seq<seq<string>>)
      requires NonEmptyLists(sid2depsids)
      ensures l == [] ==> result == []
      ensures l != [] ==> result != [] && forall r :: r in result <==> Emitted(sid2depsids, l, r)
      decreases |Nodes(sid2depsids) - set x | x in l|
    {
      if |l| == 0 {
        return [];
      }
      var sid := l[|l| - 1];
      if sid !in sid2depsids {
        forall r | Grows(sid2depsids, l, r) ensures r == l {
          NoGrowth(sid2depsids, l, r);
        }
        return [l];
      }
      var depsids := sid2depsids[sid];
      result := [];
      for i := 0 to |depsids|
        invariant i > 0 ==> result != []
        invariant forall r :: r in result <==> FromBranches(sid2depsids, l, depsids[..i], r)
      {
        var depsid := depsids[i];
        TakeNext(depsids, i);
        forall r {
          FromBranchesStep(sid2depsids, l, depsids[..i], depsid, r);
        }
        var already := AlreadyInLinkedList(l, depsid);
        var child := ChildInLinkedList(l, depsid);
        if already || child {
          result := result + [l];
          continue;
        }
        var newl := l + [depsid];
        Shrinks(sid2depsids, l, depsid);
        var sublists := BuildLinkListByHead(newl);
        if |sublists| == 0 {
          result := result + [newl];
        } else {
          result := result + sublists;
        }
      }
      assert depsids[..|depsids|] == depsids;
      forall r ensures r in result <==> Emitted(sid2depsids, l, r) {
        BranchesAreEmitted(sid2depsids, l, r);
      }
    }

    /** The services nobody depends on, then the first service that has dependencies. */
    method HeadNodes() returns (headNodes: seq<string>)
      ensures forall h :: h in headNodes <==> IsHead(h)
    {
      headNodes := [];
      for i := 0 to |serviceIDs|
        invariant forall h :: h in headNodes <==> h in serviceIDs[..i] && h !in depsid2sids
      {
        TakeNext(serviceIDs, i);
        if serviceIDs[i] in depsid2sids {
          continue;
        }
        headNodes := headNodes + [serviceIDs[i]];
      }
      assert serviceIDs[..|serviceIDs|] == serviceIDs;
      ghost var roots := headNodes;
      for i := 0 to |serviceIDs|
        invariant headNodes == roots
        invariant forall k :: 0 <= k < i ==> serviceIDs[k] !in sid2depsids
      {
        if serviceIDs[i] !in sid2depsids {
          continue;
        }
        headNodes := headNodes + [serviceIDs[i]];
        assert FirstNonTail(i);
        forall k | FirstNonTail(k) ensures k == i {
          assert !(k < i) && !(i < k);
        }
        return;
      }
    }

    ghost predicate FirstNonTail(k: int) {
      0 <= k < |serviceIDs| && serviceIDs[k] in sid2depsids
      && forall j :: 0 <= j < k ==> serviceIDs[j] !in sid2depsids
    }

    ghost predicate IsHead(h: string) {
      || (h in serviceIDs && h !in depsid2sids)
      || exists k :: FirstNonTail(k) && serviceIDs[k] == h
    }

    ghost predicate HasDependency(s: string) {
      exists b :: Relation(s, b) in relations
    }

    /** The first listed service with a dependency. */
    ghost predicate FirstDepending(k: int) {
      && 0 <= k < |serviceIDs| && HasDependency(serviceIDs[k])
      && forall j :: 0 <= j < k ==> !HasDependency(serviceIDs[j])
    }

    lemma KeysAreRelated(s: string)
      requires Valid()
      ensures s in sid2depsids <==> HasDependency(s)
      ensures s in depsid2sids <==> exists a :: Relation(a, s) in relations
    {
      if s in sid2depsids {
        EdgesAreRelations(s, sid2depsids[s][0]);
      }
      if HasDependency(s) {
        var b :| Relation(s, b) in relations;
        EdgesAreRelations(s, b);
      }
      if s in depsid2sids {
        assert Edge(depsid2sids, s, depsid2sids[s][0]);
        EdgesAreRelations(depsid2sids[s][0], s);
      }
      if a :| Relation(a, s) in relations {
        EdgesAreRelations(a, s);
      }
    }

    /** The heads in terms of the relation: the listed services nobody depends on and, always,
        the first listed service that depends on another. */
    lemma HeadsExactly(h: string)
      requires Valid()
      ensures IsHead(h) <==>
              || (h in serviceIDs && forall a :: Relation(a, h) !in relations)
              || exists k :: FirstDepending(k) && serviceIDs[k] == h
    {
      KeysAreRelated(h);
      forall k ensures FirstNonTail(k) <==> FirstDepending(k) {
        SameFirst(k);
      }
    }

    lemma SameFirst(k: int)
      requires Valid()
      ensures FirstNonTail(k) <==> FirstDepending(k)
    {
      forall j | 0 <= j < |serviceIDs| ensures serviceIDs[j] in sid2depsids <==> HasDependency(serviceIDs[j]) {
        KeysAreRelated(serviceIDs[j]);
      }
    }

    /** The edge a -> b is kept: some search from a head node walks over it. */
    ghost predicate Launched(a: string, b: string) {
      exists h, r :: IsHead(h) && Emitted(sid2depsids, [h], r) && Consecutive(r, a, b)
    }

    /** Keeps exactly the edges on the emitted lists, each of them once. */
    method ServiceStartupSequence() returns (result: Graph)
      requires Valid()
      ensures forall a, b :: Edge(result, a, b) <==> Launched(a, b)
      ensures NonEmptyLists(result) && forall a :: a in result ==> Distinct(result[a])
      ensures Acyclic(OneWay(sid2depsids)) ==> Acyclic(result)
    {
      var headNodes := HeadNodes();
      var lists: seq<seq<string>> := [];
      for i := 0 to |headNodes|
        invariant forall r :: r in lists <==> exists h :: h in headNodes[..i] && Emitted(sid2depsids, [h], r)
      {
        TakeNext(headNodes, i);
        var sub := BuildLinkListByHead([headNodes[i]]);
        lists := lists + sub;
      }
      assert headNodes[..|headNodes|] == headNodes;

      result := map[];
      for i := 0 to |lists|
        invariant OncePerEdge(result)
        invariant forall a, b :: Edge(result, a, b) <==> OnSome(lists[..i], a, b)
      {
        var l := lists[i];
        ghost var before := result;
        var cur := 0;
        while cur + 1 < |l|
          invariant 0 <= cur && (cur < |l| || l == [])
          invariant OncePerEdge(result)
          invariant forall a, b :: Edge(result, a, b) <==> Edge(before, a, b) || ConsecutiveBefore(l, cur, a, b)
        {
          result := AddOnce(result, l[cur], l[cur + 1]);
          cur := cur + 1;
        }
        TakeNext(lists, i);
        forall a, b {
          OnSomeStep(lists[..i], l, a, b);
        }
      }
      assert lists[..|lists|] == lists;
      if Acyclic(OneWay(sid2depsids)) {
        LaunchedIsAcyclic(result);
      }
    }

    // ----- What the kept edges are worth

    /** For any relation, cyclic or not: every list the search emits is a dependency path
        without repetition and without a dependency from a later node to an earlier one. */
    lemma EmittedPathsAreSafe(h: string, r: seq<string>)
      requires Emitted(sid2depsids, [h], r)
      ensures Distinct(r) && r[0] == h
      ensures forall i :: 1 <= i < |r| ==> Edge(sid2depsids, r[i - 1], r[i])
      ensures forall i, j :: 0 <= i < j < |r| ==> !Edge(sid2depsids, r[j], r[i])
    {
      forall i, j | 0 <= i < j < |r| ensures r[i] != r[j] && !Edge(sid2depsids, r[j], r[i]) {
        assert Admissible(sid2depsids, r[..j], r[j]);
        assert r[i] == r[..j][i];
      }
    }

    /** Hence only relations are kept, never a self-dependency, and of two services that
        depend on each other neither edge survives. */
    lemma LaunchedIsSafe(a: string, b: string)
      requires Valid() && Launched(a, b)
      ensures Relation(a, b) in relations && a != b && Relation(b, a) !in relations
    {
      var h, r :| IsHead(h) && Emitted(sid2depsids, [h], r) && Consecutive(r, a, b);
      var i :| 0 <= i < |r| - 1 && r[i] == a && r[i + 1] == b;
      EmittedPathsAreSafe(h, r);
      assert Edge(sid2depsids, r[i + 1 - 1], r[i + 1]) && !Edge(sid2depsids, r[i + 1], r[i]);
      EdgesAreRelations(a, b);
      EdgesAreRelations(b, a);
    }

    /** So whatever is kept is acyclic if the relation is, apart from self-dependencies and
        mutual dependencies. */
    lemma LaunchedIsAcyclic(kept: Graph)
      requires Valid() && Acyclic(OneWay(sid2depsids))
      requires forall a, b :: Edge(kept, a, b) ==> Launched(a, b)
      ensures Acyclic(kept)
    {
      forall p | Walk(kept, p) && |p| > 1 ensures p[0] != p[|p| - 1] {
        forall i | 1 <= i < |p| ensures Edge(OneWay(sid2depsids), p[i - 1], p[i]) {
          assert Edge(kept, p[i - 1], p[i]);
          LaunchedIsSafe(p[i - 1], p[i]);
          EdgesAreRelations(p[i - 1], p[i]);
          EdgesAreRelations(p[i], p[i - 1]);
          OneWayEdges(sid2depsids, p[i - 1], p[i]);
        }
        assert Walk(OneWay(sid2depsids), p);
      }
    }

    /** That is not necessary: a lone cycle of three services is entered once and broken. */
    lemma LoneThreeCycleBreaks(a: string, b: string, c: string, x: string, y: string)
      requires Valid() && |{a, b, c}| == 3 && serviceIDs == [a, b, c]
      requires sid2depsids == map[a := [b], b := [c], c := [a]]
      ensures Launched(x, y) <==> x == a && y == b
    {
      ThreeDistinct(a, b, c);
      OnlyHead(a, b, c);
      var g := sid2depsids;
      OnlyPath(g, a, b, c, [a, b]);
      assert Consecutive([a, b], a, b);
      if Launched(x, y) {
        var h, r :| IsHead(h) && Emitted(g, [h], r) && Consecutive(r, x, y);
        OnlyPath(g, a, b, c, r);
      }
    }

    lemma OnlyHead(a: string, b: string, c: string)
      requires Valid() && a != b && b != c && a != c && serviceIDs == [a, b, c]
      requires sid2depsids == map[a := [b], b := [c], c := [a]]
      ensures forall h :: IsHead(h) <==> h == a
    {
      assert sid2depsids[a][0] == b && sid2depsids[b][0] == c && sid2depsids[c][0] == a;
      EdgesAreRelations(a, b);
      EdgesAreRelations(b, c);
      EdgesAreRelations(c, a);
      assert Edge(depsid2sids, a, c) && Edge(depsid2sids, b, a) && Edge(depsid2sids, c, b);
      assert FirstNonTail(0);
    }

    /** A dependency path from a head node whose last step is the edge a -> b. */
    ghost predicate Reaches(p: seq<string>, a: string, b: string) {
      |p| >= 2 && p[|p| - 2] == a && p[|p| - 1] == b && Walk(sid2depsids, p) && IsHead(p[0])
    }

    /** Exactly which edges are kept: those that a head node reaches by a path without
        repetition and without a dependency from a later to an earlier service. */
    lemma LaunchedExactly(a: string, b: string)
      requires Valid()
      ensures Launched(a, b) <==> exists p :: Reaches(p, a, b) && OneWayPath(sid2depsids, p)
    {
      if Launched(a, b) {
        var p := ReachedBy(a, b);
      }
      if p :| Reaches(p, a, b) && OneWayPath(sid2depsids, p) {
        OneWayPathsGrow(sid2depsids, p);
        var r := ExtendToEmitted(sid2depsids, [p[0]], p);
        assert r[|p| - 2] == p[|p| - 2] && r[|p| - 1] == p[|p| - 1];
        assert Consecutive(r, a, b);
      }
    }

    lemma ReachedBy(a: string, b: string) returns (p: seq<string>)
      requires Launched(a, b)
      ensures Reaches(p, a, b) && OneWayPath(sid2depsids, p)
    {
      var h, r :| IsHead(h) && Emitted(sid2depsids, [h], r) && Consecutive(r, a, b);
      var i :| 0 <= i < |r| - 1 && r[i] == a && r[i + 1] == b;
      EmittedPathsAreSafe(h, r);
      p := r[..i + 2];
    }

    /** The first service with a dependency always starts, whether or not some service has no
        users: its dependencies are kept, unless they are on itself or mutual. */
    lemma FirstServiceStarts(k: nat, b: string)
      requires Valid() && k < |serviceIDs|
      requires forall j, d :: 0 <= j < k ==> Relation(serviceIDs[j], d) !in relations
      requires Relation(serviceIDs[k], b) in relations && b != serviceIDs[k]
      requires Relation(b, serviceIDs[k]) !in relations
      ensures Launched(serviceIDs[k], b)
    {
      var a := serviceIDs[k];
      HeadsExactly(a);
      assert FirstDepending(k);
      EdgesAreRelations(a, b);
      EdgesAreRelations(b, a);
      var p := [a, b];
      assert Reaches(p, a, b) && OneWayPath(sid2depsids, p);
      LaunchedExactly(a, b);
    }

    /** So it does beside a lone service, which has no users. */
    lemma StartsBesideLoneService(a: string, b: string, c: string, x: string)
      requires Valid() && |{a, b, c, x}| == 4 && serviceIDs == [a, b, c, x]
      requires sid2depsids == map[a := [b], b := [c], c := [a]]
      ensures IsHead(x) && Launched(a, b)
    {
      FourDistinct(a, b, c, x);
      assert sid2depsids[a][0] == b;
      EdgesAreRelations(a, b);
      EdgesAreRelations(b, a);
      assert forall d :: !Edge(sid2depsids, d, x);
      forall d ensures Relation(d, x) !in relations {
        EdgesAreRelations(d, x);
      }
      assert serviceIDs[3] == x && serviceIDs[0] == a;
      HeadsExactly(x);
      FirstServiceStarts(0, b);
    }

    /** So a dependency is kept if no walk that ends with its target meets a service twice,
        whatever cycles there are elsewhere. */
    lemma KeptUnlessCyclesLeadThere(a: string, b: string)
      requires Valid() && Relation(a, b) in relations && NoRepetitionBefore(sid2depsids, b)
      ensures Launched(a, b)
    {
      EdgesAreRelations(a, b);
      var p := [a, b];
      assert Walk(sid2depsids, p);
      var q := WalkFromRoot(p, b);
      NoEdgeBack(sid2depsids, q);
      assert q[|q| - 2..] == p && q[|q| - 2] == p[0];
      assert Reaches(q, a, b) && OneWayPath(sid2depsids, q);
      LaunchedExactly(a, b);
    }

    /** If the relation is acyclic, all of it is kept. */
    lemma AcyclicKeepsEverything(a: string, b: string)
      requires Valid() && Acyclic(sid2depsids)
      ensures Launched(a, b) <==> Relation(a, b) in relations
    {
      if Launched(a, b) {
        LaunchedIsSafe(a, b);
      }
      if Relation(a, b) in relations {
        forall p | Walk(sid2depsids, p) && p[|p| - 1] == b ensures Distinct(p) {
          AcyclicWalksAreDistinct(sid2depsids, p);
        }
        KeptUnlessCyclesLeadThere(a, b);
      }
    }

    /** Otherwise even a dependency on no cycle can be lost: here the head node x does not
        reach the cycle of c and e, so c -> d goes with it. */
    lemma UnreachedEdgeIsLost(x: string, y: string, c: string, e: string, d: string)
      requires Valid() && FiveDistinct(x, y, c, e, d) && serviceIDs == [x, y, c, e, d]
      requires sid2depsids == map[x := [y], c := [e, d], e := [c]]
      ensures Relation(c, d) in relations && !Launched(c, d)
    {
      OnlyHeadIsFirst(x, y, c, e, d);
      assert sid2depsids[c][1] == d;
      EdgesAreRelations(c, d);
      LaunchedExactly(c, d);
      forall p | Walk(sid2depsids, p) && IsHead(p[0]) ensures p[|p| - 1] != d {
        StaysAtFirst(sid2depsids, x, y, c, e, d, p);
      }
    }

    lemma OnlyHeadIsFirst(x: string, y: string, c: string, e: string, d: string)
      requires Valid() && FiveDistinct(x, y, c, e, d) && serviceIDs == [x, y, c, e, d]
      requires sid2depsids == map[x := [y], c := [e, d], e := [c]]
      ensures forall h :: IsHead(h) ==> h == x
    {
      var g := sid2depsids;
      assert g[x][0] == y && g[c][0] == e && g[c][1] == d && g[e][0] == c;
      EdgesAreRelations(x, y);
      EdgesAreRelations(c, e);
      EdgesAreRelations(c, d);
      EdgesAreRelations(e, c);
      assert Edge(depsid2sids, y, x) && Edge(depsid2sids, e, c) && Edge(depsid2sids, d, c) && Edge(depsid2sids, c, e);
      assert FirstNonTail(0);
    }

    /** Only two-service cycles are broken for sure: a cycle of three services that one
        head node enters at three places is kept whole, so the result is cyclic. */
    lemma ThreeCycleSurvives(h: string, a: string, b: string, c: string)
      requires Valid() && |{h, a, b, c}| == 4 && sid2depsids == ThreeCycle(h, a, b, c)
      ensures Launched(a, b) && Launched(b, c) && Launched(c, a)
    {
      FourDistinct(h, a, b, c);
      EdgesAreRelations(h, a);
      forall user ensures !Edge(depsid2sids, h, user) {
        EdgesAreRelations(user, h);
      }
      assert h in depsid2sids ==> Edge(depsid2sids, h, depsid2sids[h][0]);
      assert IsHead(h);
      KeptPath(sid2depsids, h, a, b, c);
    }

    /** A walk without cycles before its end can be prolonged to the left until it starts at
        a head node. */
    lemma WalkFromRoot(p: seq<string>, b: string) returns (q: seq<string>)
      requires Valid() && NoRepetitionBefore(sid2depsids, b)
      requires Walk(sid2depsids, p) && |p| >= 2 && p[|p| - 1] == b
      ensures Walk(sid2depsids, q) && |q| >= |p| && q[|q| - |p|..] == p && IsHead(q[0]) && q[|q| - 1] == b
      decreases |Nodes(sid2depsids)| - |p|
    {
      if p[0] !in depsid2sids {
        q := p;
        EdgesAreRelations(p[0], p[1]);
        assert Edge(sid2depsids, p[1 - 1], p[1]);
        return;
      }
      var a := depsid2sids[p[0]][0];
      EdgesAreRelations(a, p[0]);
      var longer := [a] + p;
      LongerWalk(sid2depsids, a, p, b, longer);
      q := WalkFromRoot(longer, b);
      EndsWithTail(q, a, p);
    }
  }

  /** The dependencies without self-dependencies and mutual ones. */
  function OneWay(g: Graph): Graph {
    map a | a in g :: OneWayOf(g, a, g[a])
  }

  function OneWayOf(g: Graph, a: string, deps: seq<string>): seq<string> {
    if deps == [] then []
    else
      var front, b := OneWayOf(g, a, deps[..|deps| - 1]), deps[|deps| - 1];
      if a == b || Edge(g, b, a) then front else front + [b]
  }

  lemma {:induction false} OneWayMembers(g: Graph, a: string, deps: seq<string>, b: string)
    ensures b in OneWayOf(g, a, deps) <==> b in deps && a != b && !Edge(g, b, a)
  {
    if deps != [] {
      OneWayMembers(g, a, deps[..|deps| - 1], b);
      assert deps == deps[..|deps| - 1] + [deps[|deps| - 1]];
    }
  }

  lemma OneWayEdges(g: Graph, a: string, b: string)
    ensures Edge(OneWay(g), a, b) <==> Edge(g, a, b) && a != b && !Edge(g, b, a)
  {
    if a in g {
      OneWayMembers(g, a, g[a], b);
    }
  }

  ghost predicate Consecutive(r: seq<string>, a: string, b: string) {
    exists i :: 0 <= i < |r| - 1 && r[i] == a && r[i + 1] == b
  }

  ghost predicate ConsecutiveBefore(r: seq<string>, n: int, a: string, b: string) {
    exists i :: 0 <= i < n && i < |r| - 1 && r[i] == a && r[i + 1] == b
  }

  ghost predicate OnSome(lists: seq<seq<string>>, a: string, b: string) {
    exists l :: l in lists && Consecutive(l, a, b)
  }

  lemma OnSomeStep(lists: seq<seq<string>>, l: seq<string>, a: string, b: string)
    ensures OnSome(lists + [l], a, b) <==> OnSome(lists, a, b) || Consecutive(l, a, b)
    ensures Consecutive(l, a, b) <==> ConsecutiveBefore(l, |l| - 1, a, b)
  {
    assert l in lists + [l];
    if OnSome(lists, a, b) {
      var k :| k in lists && Consecutive(k, a, b);
      assert k in lists + [l];
    }
  }

  ghost predicate OncePerEdge(g: Graph) {
    NonEmptyLists(g) && forall a :: a in g ==> Distinct(g[a])
  }

  /** `result[a] = append(result[a], b)` unless b is already there. */
  method AddOnce(result: Graph, a: string, b: string) returns (r: Graph)
    requires OncePerEdge(result)
    ensures OncePerEdge(r)
    ensures forall x, y :: Edge(r, x, y) <==> Edge(result, x, y) || (x == a && y == b)
  {
    var existingVals := Get(result, a);
    for i := 0 to |existingVals|
      invariant b !in existingVals[..i]
    {
      TakeNext(existingVals, i);
      if existingVals[i] == b {
        return result;
      }
    }
    assert existingVals[..|existingVals|] == existingVals;
    r := Put(result, a, b);
    forall x, y ensures Edge(r, x, y) <==> Edge(result, x, y) || (x == a && y == b) {
      assert Get(r, x) == if x == a then Get(result, x) + [b] else Get(result, x);
    }
    forall x | x in r ensures Distinct(r[x]) {
      assert r[x] == if x == a then Get(result, x) + [b] else Get(result, x);
    }
  }

  // ----- Walks in acyclic graphs

  ghost predicate Walk(g: Graph, p: seq<string>) {
    p != [] && forall i :: 1 <= i < |p| ==> Edge(g, p[i - 1], p[i])
  }

  ghost predicate Acyclic(g: Graph) {
    forall p :: Walk(g, p) && |p| > 1 ==> p[0] != p[|p| - 1]
  }

  lemma SubWalk(g: Graph, p: seq<string>, i: nat, j: nat)
    requires Walk(g, p) && i < j <= |p|
    ensures Walk(g, p[i..j])
  {
    forall k | 1 <= k < j - i ensures Edge(g, p[i..j][k - 1], p[i..j][k]) {
      assert Edge(g, p[i + k - 1], p[i + k]);
    }
  }

  lemma EndsWithTail<T>(q: seq<T>, a: T, p: seq<T>)
    requires |q| > |p| && q[|q| - |p| - 1..] == [a] + p
    ensures q[|q| - |p|..] == p
  {
    assert q[|q| - |p|..] == q[|q| - |p| - 1..][1..];
  }

  lemma WalkCons(g: Graph, a: string, p: seq<string>)
    requires Walk(g, p) && Edge(g, a, p[0])
    ensures Walk(g, [a] + p)
  {
    var longer := [a] + p;
    forall i | 1 <= i < |longer| ensures Edge(g, longer[i - 1], longer[i]) {
      if i > 1 {
        assert Edge(g, p[i - 1 - 1], p[i - 1]);
      }
    }
  }

  lemma AcyclicWalksAreDistinct(g: Graph, p: seq<string>)
    requires Acyclic(g) && Walk(g, p)
    ensures Distinct(p)
  {
    forall i, j | 0 <= i < j < |p| ensures p[i] != p[j] {
      SubWalk(g, p, i, j + 1);
      var c := p[i..j + 1];
      assert c[0] == p[i] && c[|c| - 1] == p[j];
    }
  }

  /** No walk that ends at b meets a service twice. */
  ghost predicate NoRepetitionBefore(g: Graph, b: string) {
    forall p :: Walk(g, p) && p[|p| - 1] == b ==> Distinct(p)
  }

  /** No service occurs twice on the path or depends on an earlier one. */
  ghost predicate OneWayPath(g: Graph, p: seq<string>) {
    Distinct(p) && forall i, j :: 0 <= i < j < |p| ==> !Edge(g, p[j], p[i])
  }

  lemma WalksStayInside(g: Graph, p: seq<string>)
    requires Distinct(p) && Walk(g, p) && |p| >= 2
    ensures |p| <= |Nodes(g)|
  {
    forall i | 0 <= i < |p| ensures p[i] in Nodes(g) {
      if i > 0 {
        assert Edge(g, p[i - 1], p[i]);
      } else {
        assert Edge(g, p[1 - 1], p[1]);
      }
    }
    Pigeonhole(p, Nodes(g));
  }

  lemma LongerWalk(g: Graph, a: string, p: seq<string>, b: string, longer: seq<string>)
    requires longer == [a] + p && Walk(g, p) && p[|p| - 1] == b && Edge(g, a, p[0]) && NoRepetitionBefore(g, b)
    ensures Walk(g, longer) && longer[|longer| - 1] == b && |longer| <= |Nodes(g)|
  {
    WalkCons(g, a, p);
    WalksStayInside(g, longer);
  }

  /** Neither pruning test ever fires along such a path. */
  lemma OneWayPathsGrow(g: Graph, p: seq<string>)
    requires Walk(g, p) && OneWayPath(g, p)
    ensures Grows(g, [p[0]], p)
  {
    forall j | 1 <= j < |p| ensures Edge(g, p[j - 1], p[j]) && Admissible(g, p[..j], p[j]) {
      forall i | 0 <= i < j ensures !Edge(g, p[j], p[..j][i]) {
      }
    }
  }

  /** A walk is such a path if none that ends where it ends meets a service twice. */
  lemma NoEdgeBack(g: Graph, p: seq<string>)
    requires Walk(g, p) && NoRepetitionBefore(g, p[|p| - 1])
    ensures OneWayPath(g, p)
  {
    forall i, j | 0 <= i < j < |p| ensures !Edge(g, p[j], p[i]) {
      var c := p[..j + 1] + p[i..];
      assert c[i] == c[j + 1] && c[|c| - 1] == p[|p| - 1];
      if Edge(g, p[j], p[i]) {
        WalkAround(g, p, i, j);
      }
    }
  }

  lemma WalkAround(g: Graph, p: seq<string>, i: nat, j: nat)
    requires Walk(g, p) && i <= j < |p| && Edge(g, p[j], p[i])
    ensures Walk(g, p[..j + 1] + p[i..])
  {
    var c := p[..j + 1] + p[i..];
    forall k | 1 <= k < |c| ensures Edge(g, c[k - 1], c[k]) {
      if k > j + 1 {
        assert Edge(g, p[k - j - 1 + i - 1], p[k - j - 1 + i]);
      }
    }
  }

  lemma GrowsStep(g: Graph, l: seq<string>, p: seq<string>, d: string)
    requires l != [] && Grows(g, l, p) && Edge(g, p[|p| - 1], d) && Admissible(g, p, d)
    ensures Grows(g, l, p + [d])
  {
    var longer := p + [d];
    forall i | |l| <= i < |longer| ensures Edge(g, longer[i - 1], longer[i]) && Admissible(g, longer[..i], longer[i]) {
      if i < |p| {
        assert longer[..i] == p[..i];
      } else {
        assert longer[..i] == p;
      }
    }
  }

  /** Every unpruned path is the beginning of an emitted one. */
  lemma ExtendToEmitted(g: Graph, l: seq<string>, p: seq<string>) returns (r: seq<string>)
    requires NonEmptyLists(g) && l != [] && Grows(g, l, p)
    ensures Emitted(g, l, r) && p <= r
    decreases |Nodes(g) - set x | x in p|
  {
    if Stops(g, p) {
      return p;
    }
    var d := g[p[|p| - 1]][0];
    GoesOn(g, p);
    Shrinks(g, p, d);
    GrowsStep(g, l, p, d);
    r := ExtendToEmitted(g, l, p + [d]);
    assert p <= p + [d] <= r;
  }

  lemma GoesOn(g: Graph, p: seq<string>)
    requires NonEmptyLists(g) && p != [] && !Stops(g, p)
    ensures p[|p| - 1] in g
    ensures var d := g[p[|p| - 1]][0]; Edge(g, p[|p| - 1], d) && Admissible(g, p, d) && d !in p
  {
  }

  lemma Shrinks(g: Graph, l: seq<string>, d: string)
    requires l != [] && Edge(g, l[|l| - 1], d) && d !in l
    ensures |Nodes(g) - set x | x in l + [d]| < |Nodes(g) - set x | x in l|
  {
    var before, after := Nodes(g) - (set x | x in l), Nodes(g) - (set x | x in l + [d]);
    assert after == before - {d};
    assert d in before;
  }

  // ----- Longer cycles may survive, or take other dependencies with them

  ghost predicate FiveDistinct(x: string, y: string, c: string, e: string, d: string) {
    && x != y && x != c && x != e && x != d
    && y != c && y != e && y != d
    && c != e && c != d && e != d
  }

  lemma {:induction false} StaysAtFirst(g: Graph, x: string, y: string, c: string, e: string, d: string, p: seq<string>)
    requires FiveDistinct(x, y, c, e, d) && g == map[x := [y], c := [e, d], e := [c]]
    requires Walk(g, p) && p[0] == x
    ensures p[|p| - 1] == x || p[|p| - 1] == y
  {
    if |p| > 1 {
      var n := |p| - 1;
      SubWalk(g, p, 0, n);
      StaysAtFirst(g, x, y, c, e, d, p[0..n]);
      assert Edge(g, p[n - 1], p[n]);
    }
  }

  lemma KeptPath(g: Graph, h: string, a: string, b: string, c: string)
    requires |{h, a, b, c}| == 4 && g == ThreeCycle(h, a, b, c)
    ensures Emitted(g, [h], [h, a, b]) && Consecutive([h, a, b], a, b)
    ensures Emitted(g, [h], [h, b, c]) && Consecutive([h, b, c], b, c)
    ensures Emitted(g, [h], [h, c, a]) && Consecutive([h, c, a], c, a)
  {
    KeptPathOf(g, h, a, b, c);
    KeptPathOf(g, h, b, c, a);
    KeptPathOf(g, h, c, a, b);
  }

  lemma KeptPathOf(g: Graph, h: string, x: string, y: string, z: string)
    requires |{h, x, y, z}| == 4 && g.Keys == {h, x, y, z}
    requires x in g[h] && g[x] == [y] && g[y] == [z] && g[z] == [x]
    ensures Emitted(g, [h], [h, x, y]) && Consecutive([h, x, y], x, y)
  {
    var r := [h, x, y];
    FourDistinct(h, x, y, z);
    assert r[..1] == [h] && r[..2] == [h, x];
    assert Edge(g, r[0], r[1]) && Admissible(g, r[..1], r[1]);
    assert Edge(g, r[1], r[2]) && Admissible(g, r[..2], r[2]);
    assert g[z][0] == r[1];
    assert !Admissible(g, r, g[y][0]);
    assert r[1] == x && r[1 + 1] == y;
  }

  /** From a, the search in a lone cycle of three emits one list. */
  lemma OnlyPath(g: Graph, a: string, b: string, c: string, r: seq<string>)
    requires a != b && b != c && a != c && g == map[a := [b], b := [c], c := [a]]
    ensures Emitted(g, [a], r) <==> r == [a, b]
  {
    OnlyPathEmitted(g, a, b, c);
    if Emitted(g, [a], r) {
      assert |r| == 1 ==> r == [a];
      assert Edge(g, r[1 - 1], r[1]);
      assert r[..2] == [a, b];
      ThirdIsPruned(g, a, b, c);
      ThirdGrows(g, a, r);
      assert |r| == 2;
    }
  }

  lemma ThirdGrows(g: Graph, a: string, r: seq<string>)
    requires Grows(g, [a], r)
    ensures |r| > 2 ==> Edge(g, r[1], r[2]) && Admissible(g, r[..2], r[2])
  {
    assert |r| > 2 ==> Edge(g, r[2 - 1], r[2]);
  }

  lemma OnlyPathEmitted(g: Graph, a: string, b: string, c: string)
    requires a != b && b != c && a != c && g == map[a := [b], b := [c], c := [a]]
    ensures Emitted(g, [a], [a, b]) && !Stops(g, [a])
  {
    assert g[a][0] == b && Admissible(g, [a], b);
    ThirdIsPruned(g, a, b, c);
    assert g[b][0] == c;
    assert [a, b][..1] == [a];
  }

  lemma ThirdIsPruned(g: Graph, a: string, b: string, c: string)
    requires a != b && b != c && a != c && g == map[a := [b], b := [c], c := [a]]
    ensures forall x :: Edge(g, b, x) ==> !Admissible(g, [a, b], x)
  {
    assert g[c][0] == a;
  }

  lemma ThreeDistinct(a: string, b: string, c: string)
    requires |{a, b, c}| == 3
    ensures a != b && b != c && a != c
  {
  }

  lemma FourDistinct(h: string, x: string, y: string, z: string)
    requires |{h, x, y, z}| == 4
    ensures h != x && h != y && h != z && x != y && x != z && y != z
  {
  }

  function ThreeCycle(h: string, a: string, b: string, c: string): Graph {
    map[h := [a, b, c], a := [b], b := [c], c := [a]]
  }
}
