/** Keeping a registered service alive: the timer loop of KeepAlive.Start and reg in
    discover/register.go (TTL 10) and discover.v2/register.go (TTL 5), against the leases of
    an etcd server. Times are in seconds, of any resolution. */
module Lease {
  import opened Wrappers

  /** Leases outlive the timer period by this much. */
  const SLACK := 3.0

  /** What the loop and the server know: when the timer fires next, the lease the loop
      believes in (0 for none), when each lease runs out, and the key's lease. */
  datatype State = State(due: real, lid: nat, leases: map<nat, real>, keyLease: Option<nat>)

  /** What becomes of a firing's calls: all of them succeed as far as the network goes; the
      last one takes effect but its answer is lost; a lease is granted but the put fails; or
      no call takes effect. A renewal is one call, so there the last two are the same. */
  datatype Network = Through | Unanswered | Granted | Lost

  /** The key is renewed or put, as far as the network goes. */
  predicate TakesEffect(net: Network) {
    net.Through? || net.Unanswered?
  }

  /** One firing: how long its calls take in all, when they reach the server (the grant or
      the renewal, then the put), the id of a newly granted lease, and the network's part. */
  datatype Firing = Firing(duration: real, at: real, putAt: real, id: nat, net: Network)

  ghost predicate Possible(s: State, f: Firing) {
    && s.due <= f.at <= f.putAt <= s.due + f.duration
    && f.id > 0 && f.id !in s.leases
  }

  /** The server renews a lease that has not run out yet. */
  predicate Renewable(s: State, id: nat, at: real) {
    id in s.leases && at < s.leases[id]
  }

  function Fire(ttl: real, s: State, f: Firing): State {
    var due := s.due + f.duration + ttl;
    var until := f.at + ttl + SLACK;
    if s.lid > 0 then
      if TakesEffect(f.net) && Renewable(s, s.lid, f.at)
      then State(due, if f.net.Through? then s.lid else 0, s.leases[s.lid := until], s.keyLease)
      else State(due, 0, s.leases, s.keyLease)
    else
      var granted := if f.net.Lost? then s.leases else s.leases[f.id := until];
      State(due, if f.net.Through? then f.id else 0, granted, if TakesEffect(f.net) then Some(f.id) else s.keyLease)
  }

  // ----- The loop and the server as objects

  class Etcd {
    var leases: map<nat, real>
    var keyLease: Option<nat>

    constructor ()
      ensures leases == map[] && keyLease == None
    {
      leases, keyLease := map[], None;
    }

    method Grant(id: nat, at: real, ttl: real)
      modifies this`leases
      ensures leases == old(leases)[id := at + ttl]
    {
      leases := leases[id := at + ttl];
    }

    /** A put under another lease detaches the key from its old one. */
    method Put(id: nat)
      modifies this`keyLease
      ensures keyLease == Some(id)
    {
      keyLease := Some(id);
    }

    method KeepAliveOnce(id: nat, at: real, ttl: real) returns (ok: bool)
      modifies this`leases
      ensures ok <==> id in old(leases) && at < old(leases)[id]
      ensures leases == if ok then old(leases)[id := at + ttl] else old(leases)
    {
      ok := id in leases && at < leases[id];
      if ok {
        leases := leases[id := at + ttl];
      }
    }
  }

  class KeepAlive {
    const TTL: real
    const etcdClient: Etcd
    var LID: nat
    /** When the timer fires next. */
    var due: real

    constructor (ttl: real, etcd: Etcd, now: real)
      ensures TTL == ttl && etcdClient == etcd && LID == 0 && due == now + ttl
    {
      TTL, etcdClient, LID, due := ttl, etcd, 0, now + ttl;
    }

    ghost function Abstract(): State
      reads this, etcdClient
    {
      State(due, LID, etcdClient.leases, etcdClient.keyLease)
    }

    /** The timer case of the loop. */
    method OnTimer(f: Firing)
      requires Possible(Abstract(), f)
      modifies this, etcdClient
      ensures Abstract() == Fire(TTL, old(Abstract()), f)
    {
      if LID > 0 {
        var ok := false;
        if TakesEffect(f.net) {
          ok := etcdClient.KeepAliveOnce(LID, f.at, TTL + SLACK);
        }
        if !ok || f.net.Unanswered? {
          LID := 0;
        }
      } else {
        Register(f);
      }
      due := due + f.duration + TTL;
    }

    /** reg, which is called without a lease. */
    method Register(f: Firing)
      requires LID == 0
      modifies this`LID, etcdClient
      ensures LID == if f.net.Through? then f.id else 0
      ensures etcdClient.keyLease == if TakesEffect(f.net) then Some(f.id) else old(etcdClient.keyLease)
      ensures etcdClient.leases == if f.net.Lost? then old(etcdClient.leases)
                                   else old(etcdClient.leases)[f.id := f.at + (TTL + SLACK)]
    {
      if f.net.Lost? {
        return;
      }
      etcdClient.Grant(f.id, f.at, TTL + SLACK);
      if f.net.Granted? {
        return;
      }
      etcdClient.Put(f.id);
      if f.net.Unanswered? {
        return;
      }
      LID := f.id;
    }
  }

  // ----- Runs

  function Run(ttl: real, s: State, fs: seq<Firing>): State {
    if fs == [] then s else Fire(ttl, Run(ttl, s, fs[..|fs| - 1]), fs[|fs| - 1])
  }

  ghost predicate PossibleRun(ttl: real, s: State, fs: seq<Firing>) {
    forall i :: 0 <= i < |fs| ==> Possible(Run(ttl, s, fs[..i]), fs[i])
  }

  /** The key exists at time t. */
  predicate Live(s: State, t: real) {
    s.keyLease.Some? && s.keyLease.value in s.leases && t < s.leases[s.keyLease.value]
  }

  /** The state in which a loop that was just started finds itself. */
  predicate Fresh(s: State) {
    s.lid == 0 && s.keyLease == None
  }

  /** When a firing changes what the server holds: a renewal at once, a registration when
      the key is put. */
  function Effect(s: State, f: Firing): real {
    if s.lid > 0 then f.at else f.putAt
  }

  /** Nothing of the key's lifetime is missing around a firing: a key that was registered is
      still there when the firing takes effect, and there is one right afterwards. */
  ghost predicate Covered(ttl: real, s: State, f: Firing) {
    (s.keyLease.Some? ==> Live(s, Effect(s, f))) && Live(Fire(ttl, s, f), Effect(s, f))
  }

  /** Every call takes effect, answered or not, and any two consecutive firings take less
      than the slack. */
  ghost predicate Prompt(fs: seq<Firing>) {
    && (forall i :: 0 <= i < |fs| ==> TakesEffect(fs[i].net) && 0.0 <= fs[i].duration < SLACK)
    && (forall i :: 0 <= i < |fs| - 1 ==> fs[i].duration + fs[i + 1].duration < SLACK)
  }

  /** After a firing of the given duration: the loop believes in the key's lease or in none,
      and the key's lease still runs at the next firing's start, for at least the slack less
      that duration and at most the slack. */
  ghost predicate Ahead(s: State, duration: real) {
    && s.keyLease.Some? && s.keyLease.value in s.leases
    && (s.lid > 0 ==> s.lid == s.keyLease.value)
    && s.due - duration + SLACK <= s.leases[s.keyLease.value] <= s.due + SLACK
  }

  /** Lease safety: in every prompt run the key, once registered, is there at every effect
      of every later firing and just after it, so it never lapses in between, even if answers
      are lost and the service registers anew. */
  lemma {:induction false} NeverLapses(ttl: real, s: State, fs: seq<Firing>)
    requires ttl > 0.0 && Fresh(s) && PossibleRun(ttl, s, fs) && Prompt(fs)
    ensures AllCovered(ttl, s, fs)
    ensures fs != [] ==> Ahead(Run(ttl, s, fs), fs[|fs| - 1].duration)
  {
    if fs != [] {
      var n := |fs| - 1;
      PrefixPossible(ttl, s, fs, n);
      NeverLapses(ttl, s, fs[..n]);
      assert Possible(Run(ttl, s, fs[..n]), fs[n]);
      if n == 0 {
        FirstFiring(ttl, s, fs[0]);
      } else {
        assert fs[n - 1].duration + fs[n - 1 + 1].duration < SLACK;
        LaterFiring(ttl, Run(ttl, s, fs[..n]), fs[n - 1].duration, fs[n]);
      }
      AllCoveredSnoc(ttl, s, fs[..n], fs[n], fs);
    }
  }

  ghost predicate AllCovered(ttl: real, s: State, fs: seq<Firing>) {
    forall i :: 0 <= i < |fs| ==> Covered(ttl, Run(ttl, s, fs[..i]), fs[i])
  }

  lemma AllCoveredSnoc(ttl: real, s: State, front: seq<Firing>, f: Firing, fs: seq<Firing>)
    requires fs == front + [f]
    requires AllCovered(ttl, s, front) && Covered(ttl, Run(ttl, s, front), f)
    ensures AllCovered(ttl, s, fs)
  {
    forall i | 0 <= i < |fs| ensures Covered(ttl, Run(ttl, s, fs[..i]), fs[i]) {
      if i < |front| {
        assert fs[..i] == front[..i] && fs[i] == front[i];
      } else {
        assert fs[..i] == front && fs[i] == f;
      }
    }
  }

  lemma FirstFiring(ttl: real, s: State, f: Firing)
    requires ttl > 0.0 && Fresh(s) && Possible(s, f) && TakesEffect(f.net) && f.duration < SLACK
    ensures Covered(ttl, s, f) && Ahead(Fire(ttl, s, f), f.duration)
  {
  }

  lemma LaterFiring(ttl: real, s: State, before: real, f: Firing)
    requires ttl > 0.0 && before >= 0.0 && Ahead(s, before) && Possible(s, f)
    requires TakesEffect(f.net) && before + f.duration < SLACK
    ensures Covered(ttl, s, f) && Ahead(Fire(ttl, s, f), f.duration)
  {
  }

  lemma PrefixPossible(ttl: real, s: State, fs: seq<Firing>, n: nat)
    requires PossibleRun(ttl, s, fs) && n <= |fs|
    ensures PossibleRun(ttl, s, fs[..n])
  {
    forall i | 0 <= i < n ensures Possible(Run(ttl, s, fs[..n][..i]), fs[..n][i]) {
      assert fs[..n][..i] == fs[..i];
    }
  }

  /** So at every moment between the effects of two consecutive firings the key exists. */
  lemma AliveThroughout(ttl: real, s: State, fs: seq<Firing>, i: nat, t: real)
    requires ttl > 0.0 && Fresh(s) && PossibleRun(ttl, s, fs) && Prompt(fs) && i + 1 < |fs|
    requires Effect(Run(ttl, s, fs[..i]), fs[i]) <= t <= Effect(Run(ttl, s, fs[..i + 1]), fs[i + 1])
    ensures Live(Run(ttl, s, fs[..i + 1]), t)
  {
    NeverLapses(ttl, s, fs);
    PrefixPossible(ttl, s, fs, i + 1);
    NeverLapses(ttl, s, fs[..i + 1]);
    assert Covered(ttl, Run(ttl, s, fs[..i + 1]), fs[i + 1]);
  }

  /** Two firings of the given durations that may come next and take effect. */
  ghost predicate NextTwo(ttl: real, t: State, f1: Firing, f2: Firing, d1: real, d2: real) {
    && f1.duration == d1 && TakesEffect(f1.net) && Possible(t, f1)
    && f2.duration == d2 && TakesEffect(f2.net) && Possible(Fire(ttl, t, f1), f2)
  }

  /** Whatever the next two firings of these durations do, the key is still there when the
      second one takes effect. */
  ghost predicate AlwaysKept(ttl: real, t: State, d1: real, d2: real) {
    forall f1, f2 :: NextTwo(ttl, t, f1, f2, d1, d2) ==>
                       Live(Fire(ttl, t, f1), Effect(Fire(ttl, t, f1), f2))
  }

  /** The bound on the durations is exact, at every point of every prompt run: the next two
      firings keep the key, whenever their calls reach the server, if and only if together
      they take less than the slack. */
  lemma PromptnessIsExact(ttl: real, s: State, fs: seq<Firing>, d1: real, d2: real)
    requires ttl > 0.0 && Fresh(s) && PossibleRun(ttl, s, fs) && Prompt(fs) && d1 >= 0.0 && d2 >= 0.0
    requires fs != [] ==> fs[|fs| - 1].duration + d1 < SLACK
    ensures AlwaysKept(ttl, Run(ttl, s, fs), d1, d2) <==> d1 + d2 < 3.0
  {
    NeverLapses(ttl, s, fs);
    var t := Run(ttl, s, fs);
    if d1 + d2 < SLACK {
      forall f1, f2 | NextTwo(ttl, t, f1, f2, d1, d2)
        ensures Live(Fire(ttl, t, f1), Effect(Fire(ttl, t, f1), f2))
      {
        if fs == [] {
          FirstFiring(ttl, t, f1);
        } else {
          LaterFiring(ttl, t, fs[|fs| - 1].duration, f1);
        }
        LaterFiring(ttl, Fire(ttl, t, f1), d1, f2);
      }
    } else {
      assert fs != [] ==> Ahead(t, fs[|fs| - 1].duration) && fs[|fs| - 1].duration < SLACK;
      var f1, f2 := SlowFirings(ttl, t, d1, d2);
      assert NextTwo(ttl, t, f1, f2, d1, d2);
    }
  }

  /** An early first call and a late second one of two slow firings: the key has lapsed. */
  lemma SlowFirings(ttl: real, t: State, d1: real, d2: real) returns (f1: Firing, f2: Firing)
    requires ttl > 0.0 && d1 >= 0.0 && d2 >= 0.0 && d1 + d2 >= SLACK
    requires Fresh(t) || exists d: real :: Ahead(t, d) && d < SLACK
    ensures NextTwo(ttl, t, f1, f2, d1, d2) && f1.net.Through? && f2.net.Through?
    ensures !Live(Fire(ttl, t, f1), Effect(Fire(ttl, t, f1), f2))
  {
    var id1 := FreshId(t.leases.Keys);
    f1 := Firing(d1, t.due, t.due, id1, Through);
    var u := Fire(ttl, t, f1);
    var id2 := FreshId(u.leases.Keys);
    f2 := Firing(d2, u.due + d2, u.due + d2, id2, Through);
  }

  /** The server can always grant another lease. */
  lemma FreshId(ids: set<nat>) returns (id: nat)
    ensures id > 0 && id !in ids && forall i :: i in ids ==> i < id
  {
    id := 1;
    if ids != {} {
      var i :| i in ids;
      var other := FreshId(ids - {i});
      id := if i < other then other else i + 1;
      forall j | j in ids ensures j < id {
        assert j != i ==> j in ids - {i};
      }
    }
  }

  // ----- Renewing and registering anew

  /** A renewal that is granted and answered keeps the registration as it is, for another
      period and three seconds from when it reached the server. */
  lemma RenewalKeepsLease(ttl: real, s: State, f: Firing)
    requires s.lid > 0 && Possible(s, f) && f.net.Through? && Renewable(s, s.lid, f.at)
    ensures var t := Fire(ttl, s, f);
            && t.lid == s.lid && t.keyLease == s.keyLease
            && t.leases == s.leases[s.lid := f.at + ttl + 3.0]
            && t.due == s.due + f.duration + ttl
  {
  }

  /** The key is registered by this firing, for a period and three seconds from the grant. */
  ghost predicate Registered(ttl: real, s: State, f: Firing) {
    var t := Fire(ttl, s, f);
    && t.keyLease == Some(f.id) && t.lid == f.id
    && f.id in t.leases && t.leases[f.id] == f.at + ttl + 3.0
    && (f.putAt < f.at + ttl + 3.0 ==> Live(t, f.putAt))
    && Ahead(t, f.duration)
  }

  /** Without a lease, a firing whose calls go through registers. */
  lemma RegistersWithoutLease(ttl: real, s: State, f: Firing)
    requires s.lid == 0 && Possible(s, f) && f.net.Through?
    ensures Registered(ttl, s, f)
  {
  }

  /** From any state with a lease: if a renewal is refused, lost or unanswered, the next
      firing whose calls go through registers anew. */
  lemma RegistersAnew(ttl: real, s: State, f: Firing, next: Firing)
    requires s.lid > 0 && Possible(s, f) && !(f.net.Through? && Renewable(s, s.lid, f.at))
    requires Possible(Fire(ttl, s, f), next) && next.net.Through?
    ensures Registered(ttl, Fire(ttl, s, f), next)
  {
    RegistersWithoutLease(ttl, Fire(ttl, s, f), next);
  }

  /** After any run and then any number of firings without effect, the first firing whose
      calls go through registers, and the loop is ahead again, as after a prompt run. */
  lemma RecoversAfterOutage(ttl: real, s: State, fs: seq<Firing>, outage: seq<Firing>, next: Firing)
    requires outage != [] && forall i :: 0 <= i < |outage| ==> !TakesEffect(outage[i].net)
    requires Possible(Run(ttl, Run(ttl, s, fs), outage), next) && next.net.Through?
    ensures Registered(ttl, Run(ttl, Run(ttl, s, fs), outage), next)
  {
    NoLeaseAfterOutage(ttl, Run(ttl, s, fs), outage);
    RegistersWithoutLease(ttl, Run(ttl, Run(ttl, s, fs), outage), next);
  }

  lemma {:induction false} NoLeaseAfterOutage(ttl: real, s: State, outage: seq<Firing>)
    requires outage != [] && forall i :: 0 <= i < |outage| ==> !TakesEffect(outage[i].net)
    ensures Run(ttl, s, outage).lid == 0
  {
    var n := |outage| - 1;
    if n > 0 {
      NoLeaseAfterOutage(ttl, s, outage[..n]);
    }
    assert !TakesEffect(outage[n].net);
  }

  /** A single firing without effect always costs the key: it has lapsed before the next firing
      can register it again, for any period longer than the slack. */
  lemma OneLostRenewalLapses(ttl: real, s: State, fs: seq<Firing>, lost: Firing, next: Firing)
    requires ttl > SLACK && Fresh(s) && fs != [] && Prompt(fs) && PossibleRun(ttl, s, fs)
    requires !TakesEffect(lost.net) && Possible(Run(ttl, s, fs), lost) && Possible(Fire(ttl, Run(ttl, s, fs), lost), next)
    ensures var t := Fire(ttl, Run(ttl, s, fs), lost); !Live(t, next.at) && !Live(t, t.due)
  {
    NeverLapses(ttl, s, fs);
  }
}
