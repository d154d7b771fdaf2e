/** The server scan of getLBChan (event/manager.go) on values: which step of the scan it
    stops at, with getLBChan's 32-bit counter and truncating remainder. */
module RoundRobin {
  import opened Wrappers

  const MAX_INT32 := 0x7fff_ffff

  predicate Int32(q: int) {
    -MAX_INT32 - 1 <= q <= MAX_INT32
  }

  /** 32-bit wrap-around, for values that overflow at most once. */
  function Wrap32(q: int): int {
    if q > MAX_INT32 then q - 0x1_0000_0000 else q
  }

  /** Go's remainder: it takes the sign of the dividend. */
  function GoMod(a: int, n: int): int
    requires n > 0
  {
    if a >= 0 then a % n else -((-a) % n)
  }

  /** The position looked at in step k of a scan that starts at counter q. */
  function Index(q: int, k: nat, n: int): int
    requires n > 0
  {
    GoMod(Wrap32(q + k), n)
  }

  /** The scan cannot get past step k: the index is out of range, or the server is healthy. */
  predicate StopsAt(servers: seq<string>, abnormal: set<string>, q: int, k: nat)
    requires servers != []
  {
    var i := Index(q, k, |servers|);
    i < 0 || (i < |servers| ==> servers[i] !in abnormal)
  }

  /** The first step from k on at which the scan stops; |servers| if there is none. */
  function Stop(servers: seq<string>, abnormal: set<string>, q: int, k: nat): (s: nat)
    requires k <= |servers|
    ensures k <= s <= |servers|
    ensures forall j :: k <= j < s ==> !StopsAt(servers, abnormal, q, j)
    ensures s < |servers| ==> StopsAt(servers, abnormal, q, s)
    decreases |servers| - k
  {
    if k == |servers| || StopsAt(servers, abnormal, q, k) then k
    else Stop(servers, abnormal, q, k + 1)
  }

  lemma GoModRange(a: int, n: int)
    requires n > 0
    ensures -n < GoMod(a, n) < n
  {
  }

  // ----- When the scan is safe

  /** No step of a scan from q can index below zero, whichever servers are abnormal. */
  ghost predicate CrashFree(q: int, n: int)
    requires n > 0
  {
    forall k: nat :: k < n ==> Index(q, k, n) >= 0
  }

  /** Exactly when that is so: a single server, a counter that does not overflow during the
      scan, or one that overflows in the last step onto a multiple of n. */
  lemma CrashFreeExactly(q: int, n: int)
    requires Int32(q) && 0 < n <= MAX_INT32
    ensures CrashFree(q, n) <==>
            || n == 1
            || (0 <= q && q + n - 1 <= MAX_INT32)
            || (q + n - 1 == MAX_INT32 + 1 && (MAX_INT32 + 1) % n == 0)
  {
    if n == 1 {
      forall k: nat | k < n ensures Index(q, k, n) >= 0 {
      }
    } else if 0 <= q && q + n - 1 <= MAX_INT32 {
    } else if q < 0 {
      assert Index(q, 0, n) == -((-q) % n);
      if q == -1 {
        assert Index(q, 0, n) < 0;
      } else if (-q) % n == 0 {
        NextMultiple(-q, n);
        assert Index(q, 1, n) == -((-q - 1) % n) < 0;
      }
    } else {
      var k := MAX_INT32 + 1 - q;
      assert Wrap32(q + k) == -MAX_INT32 - 1;
      assert Index(q, k, n) == -((MAX_INT32 + 1) % n);
      if (MAX_INT32 + 1) % n == 0 && k + 1 < n {
        NextMultiple(MAX_INT32 + 1, n);
        assert Wrap32(q + k + 1) == -MAX_INT32;
        assert Index(q, k + 1, n) == -(MAX_INT32 % n) < 0;
      }
    }
  }

  lemma NextMultiple(a: int, n: int)
    requires n > 1 && a >= 1 && a % n == 0
    ensures (a - 1) % n == n - 1
  {
    ModIs(a - 1, a / n - 1, n - 1, n);
  }

  lemma SignedMultiple(x: int, n: int)
    requires n > 0
    ensures x >= 1 ==> n * x >= n
    ensures x <= -1 ==> n * x <= -n
  {
  }

  lemma SmallMultiple(x: int, y: int, n: int)
    requires n > 0 && n * x == y && -n < y < n
    ensures y == 0
  {
    SignedMultiple(x, n);
  }

  /** Division with remainder has only one result. */
  lemma ModIs(a: int, x: int, r: int, n: int)
    requires 0 <= r < n && a == n * x + r
    ensures a % n == r
  {
    var e, m := a / n, a % n;
    assert a == n * e + m;
    assert n * (e - x) == r - m;
    SmallMultiple(e - x, r - m, n);
  }

  /** The counter does overflow: with three healthy servers the call that reads the largest
      counter leaves one from which the next call crashes. */
  lemma OverflowCrashes(servers: seq<string>)
    requires |servers| == 3
    ensures Stop(servers, {}, MAX_INT32, 0) == 0 && Index(MAX_INT32, 0, 3) >= 0
    ensures var q := Wrap32(MAX_INT32 + 1); Stop(servers, {}, q, 0) == 0 && Index(q, 0, 3) < 0
  {
  }

  // ----- What a safe scan finds

  /** Every position is looked at in exactly one of the n steps. */
  lemma StepOf(q: int, n: int, p: int) returns (k: nat)
    requires Int32(q) && 0 <= p < n <= MAX_INT32 && CrashFree(q, n)
    ensures k < n && Index(q, k, n) == p
  {
    CrashFreeExactly(q, n);
    if n == 1 {
      k := 0;
      GoModRange(Wrap32(q + k), n);
      return;
    }
    k := (p - q) % n;
    ModSum(q, p, n);
    assert (q + k) % n == p;
  }

  lemma ModSum(q: int, p: int, n: int)
    requires 0 <= p < n
    ensures (q + (p - q) % n) % n == p
  {
    var d := (p - q) / n;
    assert q + (p - q) % n == n * (-d) + p;
    ModIs(q + (p - q) % n, -d, p, n);
  }

  /** If some listed server is healthy, a scan that cannot crash stops at the first healthy
      one in cyclic order from the counter. */
  lemma FindsFirstHealthy(servers: seq<string>, abnormal: set<string>, q: int, p: nat)
    requires Int32(q) && p < |servers| <= MAX_INT32 && servers[p] !in abnormal
    requires CrashFree(q, |servers|)
    ensures var n, k := |servers|, Stop(servers, abnormal, q, 0);
            && k < n && 0 <= Index(q, k, n) < n && servers[Index(q, k, n)] !in abnormal
            && forall j :: 0 <= j < k ==> Skipped(servers, abnormal, q, j)
  {
    var n, s := |servers|, Stop(servers, abnormal, q, 0);
    var k := StepOf(q, n, p);
    assert StopsAt(servers, abnormal, q, k);
    GoModRange(Wrap32(q + s), n);
    assert Index(q, s, n) >= 0;
    forall j | 0 <= j < s ensures Skipped(servers, abnormal, q, j) {
      assert !StopsAt(servers, abnormal, q, j);
    }
  }

  /** Step k looks at an abnormal server. */
  predicate Skipped(servers: seq<string>, abnormal: set<string>, q: int, k: nat) {
    servers != [] &&
    var i := Index(q, k, |servers|);
    0 <= i < |servers| && servers[i] in abnormal
  }

  // ----- Fairness

  /** The positions chosen by consecutive calls while the same servers are abnormal. */
  function Picks(servers: seq<string>, abnormal: set<string>, q: int, calls: nat): seq<int>
    requires servers != []
    decreases calls
  {
    if calls == 0 then []
    else
      var p := Pick(servers, abnormal, q);
      [p.position] + Picks(servers, abnormal, p.counter, calls - 1)
  }

  /** What one call chooses, and the counter it leaves. */
  datatype Choice = Choice(position: int, counter: int)

  function Pick(servers: seq<string>, abnormal: set<string>, q: int): Choice
    requires servers != []
  {
    var k := Stop(servers, abnormal, q, 0);
    Choice(Index(q, k, |servers|), Wrap32(q + k + 1))
  }

  function HealthyPositions(servers: seq<string>, abnormal: set<string>): set<nat> {
    set p: nat | p < |servers| && servers[p] !in abnormal
  }

  /** Below overflow and with h healthy servers, calls that are a multiple of h choose every
      healthy position equally often, and no other. */
  lemma Fair(servers: seq<string>, abnormal: set<string>, q: int, rounds: nat, p: nat)
    requires servers != [] && 0 <= q && q + rounds * |servers| <= MAX_INT32 + 1
    ensures var healthy := HealthyPositions(servers, abnormal);
            multiset(Picks(servers, abnormal, q, rounds * |healthy|))[p] == if p in healthy then rounds else 0
  {
    var n, turn := |servers|, Turn(servers, abnormal);
    OneMore(rounds, n);
    PicksAreWindow(servers, abnormal, q, rounds * n);
    TurnIsPeriodic(servers, abnormal);
    TurnsOnce(servers, abnormal);
    WindowHits(turn, q, rounds * n, p);
    Rounds(turn, n, q, rounds, None);
    Rounds(turn, n, q, rounds, Some(p));
    FirstRound(turn, n, p);
    assert HealthyPositions(servers, abnormal) == Targets(turn, n);
  }

  /** What each value of an ever growing counter leads to, if anything. */
  type Wheel = int -> Option<int>

  /** The healthy position that a counter value leads to. */
  function Turn(servers: seq<string>, abnormal: set<string>): Wheel
    requires servers != []
  {
    j => if servers[j % |servers|] in abnormal then None else Some(j % |servers|)
  }

  /** What m counter values from q on lead to. */
  function Window(turn: Wheel, q: int, m: nat): seq<int> {
    if m == 0 then []
    else
      var front := Window(turn, q, m - 1);
      match turn(q + m - 1)
      case None => front
      case Some(p) => front + [p]
  }

  lemma {:induction false} WindowCons(turn: Wheel, q: int, m: nat)
    requires m > 0
    ensures Window(turn, q, m) ==
            match turn(q)
            case None => Window(turn, q + 1, m - 1)
            case Some(p) => [p] + Window(turn, q + 1, m - 1)
  {
    if m == 1 {
      assert Window(turn, q, 0) == [] && q + 1 - 1 == q;
    } else {
      WindowCons(turn, q, m - 1);
      assert (q + 1) + (m - 1) - 1 == q + m - 1;
    }
  }

  // ----- Calls pick the window's positions in turn

  /** k is the first of the counter values from q on that leads anywhere, counted from q. */
  ghost predicate LeadsFirst(turn: Wheel, q: int, k: nat) {
    turn(q + k).Some? && forall j :: q <= j < q + k ==> turn(j).None?
  }

  lemma {:induction false} FirstOfWindow(turn: Wheel, q: int, m: nat) returns (k: nat)
    requires Window(turn, q, m) != []
    ensures k < m && LeadsFirst(turn, q, k)
  {
    if Window(turn, q, m - 1) != [] {
      k := FirstOfWindow(turn, q, m - 1);
    } else {
      k := m - 1;
      EmptyWindow(turn, q, k);
    }
  }

  lemma {:induction false} EmptyWindow(turn: Wheel, q: int, m: nat)
    requires Window(turn, q, m) == []
    ensures forall j :: q <= j < q + m ==> turn(j).None?
  {
    if m > 0 {
      EmptyWindow(turn, q, m - 1);
    }
  }

  /** The scan stops at the first counter value that leads to a healthy position. */
  lemma StopIs(servers: seq<string>, abnormal: set<string>, q: int, k: nat)
    requires servers != [] && 0 <= q && q + k <= MAX_INT32 && LeadsFirst(Turn(servers, abnormal), q, k)
    ensures k < |servers| && Stop(servers, abnormal, q, 0) == k
    ensures Turn(servers, abnormal)(q + k) == Some(Index(q, k, |servers|))
  {
    var turn, s := Turn(servers, abnormal), Stop(servers, abnormal, q, 0);
    WithinRound(servers, abnormal, q, k);
    assert StopsAt(servers, abnormal, q, k);
    assert turn(q + s).Some?;
  }

  lemma WithinRound(servers: seq<string>, abnormal: set<string>, q: int, k: nat)
    requires servers != [] && LeadsFirst(Turn(servers, abnormal), q, k)
    ensures k < |servers|
  {
    TurnIsPeriodic(servers, abnormal);
    var j := q + k - |servers|;
    assert SameAfter(Turn(servers, abnormal), |servers|, j);
    assert Turn(servers, abnormal)(j).Some?;
  }

  lemma {:induction false} PicksAreWindow(servers: seq<string>, abnormal: set<string>, q: int, m: nat)
    requires servers != [] && 0 <= q && q + m <= MAX_INT32 + 1
    ensures var w := Window(Turn(servers, abnormal), q, m); Picks(servers, abnormal, q, |w|) == w
    decreases m
  {
    if m > 0 {
      PicksAreWindow(servers, abnormal, q + 1, m - 1);
      PicksStep(servers, abnormal, q, m, Window(Turn(servers, abnormal), q, m));
    }
  }

  lemma PicksStep(servers: seq<string>, abnormal: set<string>, q: int, m: nat, w: seq<int>)
    requires servers != [] && 0 <= q && m > 0 && q + m <= MAX_INT32 + 1
    requires w == Window(Turn(servers, abnormal), q, m)
    requires var rest := Window(Turn(servers, abnormal), q + 1, m - 1);
             Picks(servers, abnormal, q + 1, |rest|) == rest
    ensures Picks(servers, abnormal, q, |w|) == w
  {
    var turn := Turn(servers, abnormal);
    WindowCons(turn, q, m);
    var rest := Window(turn, q + 1, m - 1);
    if turn(q).Some? {
      assert w == [turn(q).value] + rest;
      PickHealthy(servers, abnormal, q, |rest|);
    } else if rest != [] {
      var k := FirstOfWindow(turn, q, m);
      SkipIll(servers, abnormal, q, k, |rest|);
    }
  }

  lemma PickHealthy(servers: seq<string>, abnormal: set<string>, q: int, calls: nat)
    requires servers != [] && 0 <= q <= MAX_INT32 && Turn(servers, abnormal)(q).Some?
    requires q + 1 <= MAX_INT32 || calls == 0
    ensures Picks(servers, abnormal, q, calls + 1) ==
            [Turn(servers, abnormal)(q).value] + Picks(servers, abnormal, q + 1, calls)
  {
    PickOf(servers, abnormal, q);
  }

  lemma PickOf(servers: seq<string>, abnormal: set<string>, q: int)
    requires servers != [] && 0 <= q <= MAX_INT32 && Turn(servers, abnormal)(q).Some?
    ensures Pick(servers, abnormal, q) == Choice(Turn(servers, abnormal)(q).value, Wrap32(q + 1))
  {
    assert q + 0 == q;
    StopIs(servers, abnormal, q, 0);
  }

  /** A call whose first server is abnormal picks what it would have picked one step later. */
  lemma SkipIll(servers: seq<string>, abnormal: set<string>, q: int, k: nat, calls: nat)
    requires servers != [] && 0 <= q && q + k <= MAX_INT32 && LeadsFirst(Turn(servers, abnormal), q, k)
    requires Turn(servers, abnormal)(q).None?
    ensures Picks(servers, abnormal, q, calls) == Picks(servers, abnormal, q + 1, calls)
  {
    SkipIllScan(servers, abnormal, q, k);
  }

  lemma SkipIllScan(servers: seq<string>, abnormal: set<string>, q: int, k: nat)
    requires servers != [] && 0 <= q && q + k <= MAX_INT32 && LeadsFirst(Turn(servers, abnormal), q, k)
    requires Turn(servers, abnormal)(q).None?
    ensures Pick(servers, abnormal, q) == Pick(servers, abnormal, q + 1)
  {
    assert k > 0 && q + 1 + (k - 1) == q + k;
    StopIs(servers, abnormal, q, k);
    StopIs(servers, abnormal, q + 1, k - 1);
  }

  // ----- What a window of whole rounds holds

  ghost predicate Periodic(turn: Wheel, n: nat) {
    forall j :: SameAfter(turn, n, j)
  }

  ghost predicate SameAfter(turn: Wheel, n: nat, j: int) {
    turn(j + n) == turn(j)
  }

  lemma TurnIsPeriodic(servers: seq<string>, abnormal: set<string>)
    requires servers != []
    ensures Periodic(Turn(servers, abnormal), |servers|)
  {
    var n := |servers|;
    forall j ensures SameAfter(Turn(servers, abnormal), n, j) {
      ModIs(j + n, j / n + 1, j % n, n);
    }
  }

  /** The first n counter values lead to themselves, if anywhere. */
  ghost predicate Once(turn: Wheel, n: nat) {
    forall j: nat :: j < n && turn(j).Some? ==> turn(j).value == j
  }

  lemma TurnsOnce(servers: seq<string>, abnormal: set<string>)
    requires servers != []
    ensures Once(Turn(servers, abnormal), |servers|)
    ensures forall j: nat :: j < |servers| ==> (Turn(servers, abnormal)(j).Some? <==> servers[j] !in abnormal)
  {
    forall j: nat | j < |servers| ensures j % |servers| == j {
      ModIs(j, 0, j, |servers|);
    }
  }

  function Targets(turn: Wheel, n: nat): set<nat> {
    set j: nat | j < n && turn(j).Some?
  }

  /** How many of m counter values from q on lead to the wanted position (None: to any). */
  function Hits(turn: Wheel, q: int, m: nat, wanted: Option<int>): nat {
    if m == 0 then 0
    else Hits(turn, q, m - 1, wanted) + if Hit(turn(q + m - 1), wanted) then 1 else 0
  }

  predicate Hit(target: Option<int>, wanted: Option<int>) {
    target.Some? && (wanted.None? || wanted == target)
  }

  lemma {:induction false} WindowHits(turn: Wheel, q: int, m: nat, p: int)
    ensures |Window(turn, q, m)| == Hits(turn, q, m, None)
    ensures multiset(Window(turn, q, m))[p] == Hits(turn, q, m, Some(p))
  {
    if m > 0 {
      WindowHits(turn, q, m - 1, p);
    }
  }

  lemma {:induction false} HitsSplit(turn: Wheel, q: int, a: nat, b: nat, wanted: Option<int>)
    ensures Hits(turn, q, a + b, wanted) == Hits(turn, q, a, wanted) + Hits(turn, q + a, b, wanted)
  {
    if b > 0 {
      HitsSplit(turn, q, a, b - 1, wanted);
      assert q + (a + b) - 1 == (q + a) + b - 1;
    }
  }

  lemma HitsOne(turn: Wheel, q: int, wanted: Option<int>)
    ensures Hits(turn, q, 1, wanted) == if Hit(turn(q), wanted) then 1 else 0
  {
    assert Hits(turn, q, 0, wanted) == 0 && q + 1 - 1 == q;
  }

  /** Wherever a round starts, it leads to the same positions. */
  lemma {:induction false} RoundFrom(turn: Wheel, n: nat, q: nat, wanted: Option<int>)
    requires n > 0 && Periodic(turn, n)
    ensures Hits(turn, q, n, wanted) == Hits(turn, 0, n, wanted)
  {
    if q > 0 {
      RoundFrom(turn, n, q - 1, wanted);
      HitsSplit(turn, q - 1, 1, n - 1, wanted);
      HitsSplit(turn, q, n - 1, 1, wanted);
      HitsOne(turn, q - 1, wanted);
      HitsOne(turn, q + (n - 1), wanted);
      assert SameAfter(turn, n, q - 1) && q - 1 + n == q + (n - 1);
    }
  }

  /** The first m counter values lead to each of their targets once. */
  lemma {:induction false} FirstRound(turn: Wheel, m: nat, p: nat)
    requires Once(turn, m)
    ensures Hits(turn, 0, m, Some(p)) == if p in Targets(turn, m) then 1 else 0
    ensures Hits(turn, 0, m, None) == |Targets(turn, m)|
  {
    if m > 0 {
      FirstRound(turn, m - 1, p);
      TargetsNext(turn, m - 1);
      HitsNext(turn, 0, m - 1, Some(p));
      HitsNext(turn, 0, m - 1, None);
    }
  }

  lemma HitsNext(turn: Wheel, q: int, m: nat, wanted: Option<int>)
    ensures Hits(turn, q, m + 1, wanted) == Hits(turn, q, m, wanted) + if Hit(turn(q + m), wanted) then 1 else 0
  {
    assert q + (m + 1) - 1 == q + m;
  }

  lemma TargetsNext(turn: Wheel, m: nat)
    ensures m !in Targets(turn, m)
    ensures Targets(turn, m + 1) == if turn(m).Some? then Targets(turn, m) + {m} else Targets(turn, m)
  {
  }

  lemma {:induction false} Rounds(turn: Wheel, n: nat, q: nat, rounds: nat, wanted: Option<int>)
    requires n > 0 && Periodic(turn, n)
    ensures rounds * n >= 0
    ensures Hits(turn, q, rounds * n, wanted) == rounds * Hits(turn, 0, n, wanted)
    decreases rounds
  {
    if rounds > 0 {
      Rounds(turn, n, q + n, rounds - 1, wanted);
      OneMore(rounds - 1, n);
      OneMore(rounds - 1, Hits(turn, 0, n, wanted));
      HitsSplit(turn, q, n, (rounds - 1) * n, wanted);
      RoundFrom(turn, n, q, wanted);
    }
  }

  lemma OneMore(rounds: nat, n: nat)
    ensures (rounds + 1) * n == n + rounds * n && rounds * n >= 0
  {
  }

  /** Below overflow that order is the plain one: a scan stops at the first of the counter
      values q, q + 1, ... that leads, modulo the number of servers, to a healthy one. */
  lemma FirstInCyclicOrder(servers: seq<string>, abnormal: set<string>, q: nat, p: nat) returns (k: nat)
    requires p < |servers| && servers[p] !in abnormal && q + |servers| - 1 <= 2147483647
    ensures k < |servers| && LeadsFirst(Turn(servers, abnormal), q, k)
    ensures Stop(servers, abnormal, q, 0) == k && Turn(servers, abnormal)(q + k) == Some(Index(q, k, |servers|))
  {
    var n, turn := |servers|, Turn(servers, abnormal);
    TurnIsPeriodic(servers, abnormal);
    TurnsOnce(servers, abnormal);
    RoundFrom(turn, n, q, None);
    FirstRound(turn, n, p);
    WindowHits(turn, q, n, p);
    assert p in Targets(turn, n);
    k := FirstOfWindow(turn, q, n);
    StopIs(servers, abnormal, q, k);
  }
}
