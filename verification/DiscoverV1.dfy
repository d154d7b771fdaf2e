/** The first discovery client (discover/discover.go): a server's URL and weight live under
    separate keys, whose events it folds into one endpoint cache. */
module DiscoverV1 {
  import opened Wrappers
  import opened EndpointCache
  import DiscoverV2

  /** strings.HasSuffix. */
  predicate HasSuffix(s: string, suffix: string) {
    |suffix| <= |s| && s[|s| - |suffix|..] == suffix
  }

  /** The server a key is about: its last segment but one, if it has more than two. */
  function ServerName(key: string): Option<string> {
    var kstep := DiscoverV2.Split(key, '/');
    if |kstep| > 2 then Some(kstep[|kstep| - 2]) else None
  }

  /** What a key holds of its server: mode 0 for the URL, mode 1 for the weight. */
  datatype Field = Field(name: string, mode: int)

  function FieldOf(key: string): Option<Field> {
    match ServerName(key)
    case None => None
    case Some(n) =>
      if HasSuffix(key, "/weight") then Some(Field(n, 1)) else if HasSuffix(key, "/url") then Some(Field(n, 0)) else None
  }

  /** A change of a field; atoi is strconv.Atoi without its error. */
  function ChangeTo(f: Field, value: string, atoi: string -> int): Change {
    if f.mode == 1 then Change(f.name, "", atoi(value), 1) else Change(f.name, value, 0, 0)
  }

  /** The change a key-value pair stands for. */
  function Decode(key: string, value: string, atoi: string -> int): Option<Change> {
    match FieldOf(key)
    case None => None
    case Some(f) => Some(ChangeTo(f, value, atoi))
  }

  /** What the two kinds of keys of a server stand for. */
  lemma KeysOfServer(head: string, server: string, value: string, atoi: string -> int)
    requires '/' !in server
    ensures Decode(head + "/" + server + "/url", value, atoi) == Some(Change(server, value, 0, 0))
    ensures Decode(head + "/" + server + "/weight", value, atoi) == Some(Change(server, "", atoi(value), 1))
  {
    var prefix := head + "/" + server;
    NameBefore(head, server, "url");
    NameBefore(head, server, "weight");
    assert prefix + "/" + "url" == prefix + "/url" && prefix + "/" + "weight" == prefix + "/weight";
    EndsWith(prefix, "/url");
    EndsWith(prefix, "/weight");
    NotBoth(prefix + "/url");
  }

  lemma NameBefore(head: string, server: string, last: string)
    requires '/' !in server && '/' !in last
    ensures ServerName(head + "/" + server + "/" + last) == Some(server)
  {
    DiscoverV2.SplitJoin(head, server, '/');
    DiscoverV2.SplitOne(server, '/');
    DiscoverV2.SplitOne(last, '/');
    assert head + ['/'] + server == head + "/" + server;
    DiscoverV2.SplitJoin(head + "/" + server, last, '/');
    assert head + "/" + server + ['/'] + last == head + "/" + server + "/" + last;
  }

  lemma EndsWith(s: string, suffix: string)
    ensures HasSuffix(s + suffix, suffix)
  {
    assert (s + suffix)[|s|..] == suffix;
  }

  /** Other keys stand for nothing. */
  lemma OtherKeysIgnored(key: string, value: string, atoi: string -> int)
    ensures Decode(key, value, atoi).None? <==>
            ServerName(key).None? || (!HasSuffix(key, "/url") && !HasSuffix(key, "/weight"))
  {
  }

  datatype EventType = Added | Modified | Deleted | Failed

  datatype Kv = Kv(key: string, value: string)

  /** What a watch delivers; the watcher reports its own failures without a key-value pair. */
  datatype Event = Event(kind: EventType, source: Option<Kv>)

  /** The operation of an event; a failure is none. */
  function OperationOf(kind: EventType): Option<Operation> {
    match kind
    case Added => Some(ADD)
    case Modified => Some(UPDATE)
    case Deleted => Some(DELETE)
    case Failed => None
  }

  /** An event as the cache sees it. */
  datatype Action = Action(op: Operation, change: Change)

  function ActionOf(e: Event, atoi: string -> int): Option<Action> {
    if e.source.None? then None
    else
      match (OperationOf(e.kind), Decode(e.source.value.key, e.source.value.value, atoi))
      case (Some(op), Some(c)) => Some(Action(op, c))
      case _ => None
  }

  function Act(v: View, a: Action): View {
    ApplyOne(a.op, v, a.change)
  }

  function ActAll(v: View, actions: seq<Action>): View {
    if actions == [] then v else Act(ActAll(v, actions[..|actions| - 1]), actions[|actions| - 1])
  }

  function Actions(es: seq<Event>, atoi: string -> int): seq<Action> {
    if es == [] then []
    else WithAction(Actions(es[..|es| - 1], atoi), ActionOf(es[|es| - 1], atoi))
  }

  function WithAction(actions: seq<Action>, a: Option<Action>): seq<Action> {
    if a.Some? then actions + [a.value] else actions
  }

  lemma ActAllSnoc(v: View, actions: seq<Action>, a: Action)
    ensures ActAll(v, actions + [a]) == Act(ActAll(v, actions), a)
  {
    assert (actions + [a])[..|actions|] == actions;
  }

  lemma ActionsSnoc(es: seq<Event>, i: nat, atoi: string -> int)
    requires i < |es|
    ensures Actions(es[..i + 1], atoi) == WithAction(Actions(es[..i], atoi), ActionOf(es[i], atoi))
  {
    assert es[..i + 1][..i] == es[..i];
  }

  lemma {:induction false} ActionsConcat(a: seq<Event>, b: seq<Event>, atoi: string -> int)
    ensures Actions(a + b, atoi) == Actions(a, atoi) + Actions(b, atoi)
  {
    if b == [] {
      assert a + b == a;
    } else {
      var n := |b| - 1;
      ActionsConcat(a, b[..n], atoi);
      ActionsLast(a + b[..n], b[n], a + b, atoi);
      ActionsLast(b[..n], b[n], b, atoi);
    }
  }

  lemma ActionsLast(front: seq<Event>, e: Event, es: seq<Event>, atoi: string -> int)
    requires es == front + [e]
    ensures Actions(es, atoi) == WithAction(Actions(front, atoi), ActionOf(e, atoi))
  {
    assert es[..|front|] == front;
  }

  lemma {:induction false} ActAllConcat(v: View, a: seq<Action>, b: seq<Action>)
    ensures ActAll(v, a + b) == ActAll(ActAll(v, a), b)
  {
    if b == [] {
      assert a + b == a;
    } else {
      var n := |b| - 1;
      ActAllConcat(v, a, b[..n]);
      assert (a + b)[..|a| + n] == a + b[..n];
    }
  }

  // ----- The event loop

  /** The endpoint a pair is about, built from its key and value. */
  method EndpointFor(kv: Kv, atoi: string -> int) returns (end: Option<Endpoint>)
    ensures end.Some? ==> fresh(end.value)
    ensures match Decode(kv.key, kv.value, atoi)
            case None => end == None
            case Some(c) => end.Some? && ChangeOf(end.value) == c
  {
    end := None;
    var kstep := DiscoverV2.Split(kv.key, '/');
    if HasSuffix(kv.key, "/url") {
      NotBoth(kv.key);
      if |kstep| > 2 {
        var u := new Endpoint(kstep[|kstep| - 2], kv.value, 0, 0);
        end := Some(u);
      }
    }
    if HasSuffix(kv.key, "/weight") {
      if |kstep| > 2 {
        var w := new Endpoint(kstep[|kstep| - 2], "", atoi(kv.value), 1);
        end := Some(w);
      }
    }
  }

  /** The body of the loop in `discover`, up to a failure. */
  method HandleEvent(cache: Cache, e: Event, atoi: string -> int)
    requires cache.Valid()
    modifies cache, cache.endpoints.Values
    ensures cache.Valid()
    ensures match ActionOf(e, atoi)
            case None => cache.View() == old(cache.View())
            case Some(a) => cache.View() == Act(old(cache.View()), a)
    ensures forall o :: o in cache.endpoints.Values ==> o in old(cache.endpoints.Values) || fresh(o)
  {
    if e.source.None? {
      return;
    }
    var end := EndpointFor(e.source.value, atoi);
    var op := OperationOf(e.kind);
    if end.Some? && op.Some? {
      cache.UpdateEndpoint(op.value, end.value);
    }
  }

  /** A failure that the loop looks at: one with a key-value pair. */
  predicate Noticed(e: Event) {
    e.kind.Failed? && e.source.Some?
  }

  predicate Fails(events: seq<Event>) {
    exists i :: 0 <= i < |events| && Noticed(events[i])
  }

  /** The events of a watch before its first noticed failure. */
  function Before(events: seq<Event>): seq<Event> {
    if events == [] || Noticed(events[0]) then [] else [events[0]] + Before(events[1..])
  }

  /** All events that are handled when a watch with a noticed failure is followed by the next. */
  function Handled(watches: seq<seq<Event>>): seq<Event> {
    if watches == [] then []
    else if Fails(watches[0]) then Before(watches[0]) + Handled(watches[1..])
    else watches[0]
  }

  lemma {:induction false} BeforeIs(events: seq<Event>, i: nat)
    requires i <= |events| && forall k :: 0 <= k < i ==> !Noticed(events[k])
    requires i < |events| ==> Noticed(events[i])
    ensures Before(events) == events[..i]
  {
    if i > 0 {
      BeforeIs(events[1..], i - 1);
      assert events[..i] == [events[0]] + events[1..][..i - 1];
    }
  }

  /** A failed watch is meant to be set up again. But as the watcher reports failures without
      a key-value pair, none is noticed, and no watch after the first is ever set up. */
  lemma FailuresGoUnnoticed(watches: seq<seq<Event>>)
    requires watches != [] && forall i :: 0 <= i < |watches[0]| && watches[0][i].kind.Failed? ==> watches[0][i].source.None?
    ensures Handled(watches) == watches[0] == Before(watches[0])
  {
    BeforeIs(watches[0], |watches[0]|);
  }

  /** What an event does, by its kind: an Added one makes the server known, a Modified one
      changes a known server only, a Deleted one empties its field, a failure does nothing. */
  lemma EventEffect(v: View, e: Event, atoi: string -> int)
    requires e.source.Some? && Decode(e.source.value.key, e.source.value.value, atoi).Some?
    ensures var c, w := Decode(e.source.value.key, e.source.value.value, atoi).value, ActedOn(v, ActionOf(e, atoi));
            && (c.name in w <==> c.name in v || e.kind.Added?)
            && (forall m :: m != c.name ==> (m in w <==> m in v) && (m in v ==> w[m] == v[m]))
            && UrlOf(w, c.name) == (if c.mode == 1 || e.kind.Failed? || c.name !in w then UrlOf(v, c.name)
                                    else if e.kind.Deleted? then "" else c.url)
            && WeightOf(w, c.name) == (if c.mode == 0 || e.kind.Failed? || c.name !in w then WeightOf(v, c.name)
                                       else if e.kind.Deleted? then 0 else c.weight)
  {
  }

  lemma EventWithoutPairIgnored(v: View, e: Event, atoi: string -> int)
    requires e.source.None?
    ensures ActedOn(v, ActionOf(e, atoi)) == v
  {
  }

  /** A noticed failure ends its watch; the next one is followed then. */
  lemma RestartsAfterFailure(watches: seq<seq<Event>>, i: nat)
    requires watches != [] && i < |watches[0]| && Noticed(watches[0][i])
    requires forall k :: 0 <= k < i ==> !Noticed(watches[0][k])
    ensures Handled(watches) == watches[0][..i] + Handled(watches[1..])
  {
    BeforeIs(watches[0], i);
  }

  /** The loop over one watch. */
  method Follow(cache: Cache, events: seq<Event>, atoi: string -> int) returns (failed: bool)
    requires cache.Valid()
    modifies cache, cache.endpoints.Values
    ensures cache.Valid() && failed == Fails(events)
    ensures cache.View() == ActAll(old(cache.View()), Actions(if failed then Before(events) else events, atoi))
    ensures forall o :: o in cache.endpoints.Values ==> o in old(cache.endpoints.Values) || fresh(o)
  {
    ghost var v := cache.View();
    for i := 0 to |events|
      invariant cache.Valid() && cache.View() == ActAll(v, Actions(events[..i], atoi))
      invariant forall o :: o in cache.endpoints.Values ==> o in old(cache.endpoints.Values) || fresh(o)
      invariant forall k :: 0 <= k < i ==> !Noticed(events[k])
    {
      if Noticed(events[i]) {
        BeforeIs(events, i);
        return true;
      }
      HandleNext(v, events, i, atoi);
      HandleEvent(cache, events[i], atoi);
    }
    assert events[..|events|] == events;
    return false;
  }

  lemma HandleNext(v: View, events: seq<Event>, i: nat, atoi: string -> int)
    requires i < |events|
    ensures ActAll(v, Actions(events[..i + 1], atoi)) ==
            match ActionOf(events[i], atoi)
            case None => ActAll(v, Actions(events[..i], atoi))
            case Some(a) => Act(ActAll(v, Actions(events[..i], atoi)), a)
  {
    ActionsSnoc(events, i, atoi);
    match ActionOf(events[i], atoi) {
      case None =>
      case Some(a) => ActAllSnoc(v, Actions(events[..i], atoi), a);
    }
  }

  /** `discover`, for the watches the store would set up: after a noticed failure it starts
      again, on the same cache. */
  method Discover(cache: Cache, watches: seq<seq<Event>>, atoi: string -> int)
    requires cache.Valid()
    modifies cache, cache.endpoints.Values
    ensures cache.Valid() && cache.View() == ActAll(old(cache.View()), Actions(Handled(watches), atoi))
    decreases |watches|
  {
    if watches == [] {
      return;
    }
    ghost var v := cache.View();
    var failed := Follow(cache, watches[0], atoi);
    if failed {
      HandledNext(v, watches, atoi);
      Discover(cache, watches[1..], atoi);
    }
  }

  lemma HandledNext(v: View, watches: seq<seq<Event>>, atoi: string -> int)
    requires watches != [] && Fails(watches[0])
    ensures ActAll(v, Actions(Handled(watches), atoi)) ==
            ActAll(ActAll(v, Actions(Before(watches[0]), atoi)), Actions(Handled(watches[1..]), atoi))
  {
    var before, after := Before(watches[0]), Handled(watches[1..]);
    ActionsConcat(before, after, atoi);
    ActAllConcat(v, Actions(before, atoi), Actions(after, atoi));
  }

  // ----- Each field follows its own events

  predicate SetsUrl(a: Action, n: string) {
    a.change.name == n && a.change.mode == 0
  }

  predicate SetsWeight(a: Action, n: string) {
    a.change.name == n && a.change.mode == 1
  }

  /** What decoded events look like: they add, update or delete one of the two fields. */
  ghost predicate OneField(actions: seq<Action>) {
    forall i :: 0 <= i < |actions| ==>
                  && 0 <= actions[i].change.mode <= 1 && actions[i].op != SYNC
                  && (actions[i].change.mode == 0 ==> actions[i].change.weight == 0)
                  && (actions[i].change.mode == 1 ==> actions[i].change.url == "")
  }

  lemma {:induction false} DecodedAreOneField(es: seq<Event>, atoi: string -> int)
    ensures OneField(Actions(es, atoi))
  {
    if es != [] {
      DecodedAreOneField(es[..|es| - 1], atoi);
    }
  }

  /** The watch modifies a key only after it added it. */
  ghost predicate AddedFirst(actions: seq<Action>) {
    forall i :: 0 <= i < |actions| && actions[i].op == UPDATE ==>
                  exists j :: 0 <= j < i && Introduces(actions[j], actions[i])
  }

  ghost predicate Introduces(a: Action, b: Action) {
    a.op == ADD && a.change.name == b.change.name && a.change.mode == b.change.mode
  }

  /** The URL of a server, from its own URL events alone. */
  function UrlFrom(actions: seq<Action>, n: string): string {
    if actions == [] then ""
    else
      var a := actions[|actions| - 1];
      if !SetsUrl(a, n) then UrlFrom(actions[..|actions| - 1], n)
      else if a.op == DELETE then "" else a.change.url
  }

  /** The weight of a server, from its own weight events alone. */
  function WeightFrom(actions: seq<Action>, n: string): int {
    if actions == [] then 0
    else
      var a := actions[|actions| - 1];
      if !SetsWeight(a, n) then WeightFrom(actions[..|actions| - 1], n)
      else if a.op == DELETE then 0 else a.change.weight
  }

  ghost predicate AddedSome(actions: seq<Action>, n: string) {
    exists i :: 0 <= i < |actions| && actions[i].op == ADD && actions[i].change.name == n
  }

  /** The last action on this field of the server is an update from before anything added the
      server. */
  ghost predicate Dropped(actions: seq<Action>, n: string, mode: int) {
    actions != [] &&
    var front, a := actions[..|actions| - 1], actions[|actions| - 1];
    if a.change.name == n && a.change.mode == mode then a.op == UPDATE && !AddedSome(front, n)
    else Dropped(front, n, mode)
  }

  /** Whatever the order and the interleaving of URL and weight events: a field is what its
      own events make it, except that an update which came too early is lost. So each field
      is a function of its own events exactly when its last event is no such update, or one
      to the field's initial value. */
  lemma {:induction false} FieldsExactly(actions: seq<Action>, n: string)
    requires OneField(actions)
    ensures var v := ActAll(map[], actions);
            && UrlOf(v, n) == (if Dropped(actions, n, 0) then "" else UrlFrom(actions, n))
            && WeightOf(v, n) == (if Dropped(actions, n, 1) then 0 else WeightFrom(actions, n))
            && (n in v <==> AddedSome(actions, n))
    ensures UrlOf(ActAll(map[], actions), n) == UrlFrom(actions, n) <==>
            !(Dropped(actions, n, 0) && UrlFrom(actions, n) != "")
    ensures WeightOf(ActAll(map[], actions), n) == WeightFrom(actions, n) <==>
            !(Dropped(actions, n, 1) && WeightFrom(actions, n) != 0)
  {
    if actions != [] {
      var k := |actions| - 1;
      var front, a := actions[..k], actions[k];
      assert actions == front + [a];
      FieldsExactly(front, n);
      FieldStep(front, a, n);
    }
  }

  /** In particular each field follows its own events if every update comes after an add. */
  lemma FieldsAreIndependent(actions: seq<Action>, n: string)
    requires OneField(actions) && AddedFirst(actions)
    ensures var v := ActAll(map[], actions);
            UrlOf(v, n) == UrlFrom(actions, n) && WeightOf(v, n) == WeightFrom(actions, n)
  {
    FieldsExactly(actions, n);
    NeverDropped(actions, n, 0);
    NeverDropped(actions, n, 1);
  }

  lemma {:induction false} NeverDropped(actions: seq<Action>, n: string, mode: int)
    requires AddedFirst(actions)
    ensures !Dropped(actions, n, mode)
  {
    if actions != [] {
      var front, a := actions[..|actions| - 1], actions[|actions| - 1];
      assert actions == front + [a];
      AddedFirstPrefix(front, a);
      NeverDropped(front, n, mode);
    }
  }

  lemma AddedFirstPrefix(front: seq<Action>, a: Action)
    requires AddedFirst(front + [a])
    ensures AddedFirst(front)
    ensures a.op == UPDATE ==> AddedSome(front, a.change.name)
  {
    var all := front + [a];
    forall i | 0 <= i < |front| && front[i].op == UPDATE ensures exists j :: 0 <= j < i && Introduces(front[j], front[i]) {
      assert all[i] == front[i];
      var j :| 0 <= j < i && Introduces(all[j], all[i]);
      assert Introduces(front[j], front[i]);
    }
    if a.op == UPDATE {
      assert all[|front|] == a;
      var j :| 0 <= j < |front| && Introduces(all[j], all[|front|]);
      assert front[j].op == ADD && front[j].change.name == a.change.name;
    }
  }

  lemma FieldStep(front: seq<Action>, a: Action, n: string)
    requires 0 <= a.change.mode <= 1 && a.op != SYNC
    requires (a.change.mode == 0 ==> a.change.weight == 0) && (a.change.mode == 1 ==> a.change.url == "")
    requires var v := ActAll(map[], front);
             && UrlOf(v, n) == (if Dropped(front, n, 0) then "" else UrlFrom(front, n))
             && WeightOf(v, n) == (if Dropped(front, n, 1) then 0 else WeightFrom(front, n))
             && (n in v <==> AddedSome(front, n))
    ensures var v, all := ActAll(map[], front + [a]), front + [a];
            && UrlOf(v, n) == (if Dropped(all, n, 0) then "" else UrlFrom(all, n))
            && WeightOf(v, n) == (if Dropped(all, n, 1) then 0 else WeightFrom(all, n))
            && (n in v <==> AddedSome(all, n))
  {
    ActAllSnoc(map[], front, a);
    AddedSomeSnoc(front, a, n);
    assert (front + [a])[..|front|] == front;
  }

  lemma AddedSomeSnoc(front: seq<Action>, a: Action, n: string)
    ensures AddedSome(front + [a], n) <==> AddedSome(front, n) || (a.op == ADD && a.change.name == n)
  {
    var all := front + [a];
    if AddedSome(front, n) {
      var i :| 0 <= i < |front| && front[i].op == ADD && front[i].change.name == n;
      assert all[i].op == ADD && all[i].change.name == n;
    }
    if a.op == ADD && a.change.name == n {
      assert all[|front|].op == ADD && all[|front|].change.name == n;
    }
  }

  /** Without that order a field does depend on the other's events: an update of a URL that
      was never added is dropped, unless an added weight made the server known. */
  lemma UpdateBeforeAdd(n: string, u: string, w: int)
    requires u != ""
    ensures var url, weight := Action(UPDATE, Change(n, u, 0, 0)), Action(ADD, Change(n, "", w, 1));
            UrlOf(ActAll(map[], [url]), n) == "" && UrlOf(ActAll(map[], [weight, url]), n) == u
  {
    var url, weight := Action(UPDATE, Change(n, u, 0, 0)), Action(ADD, Change(n, "", w, 1));
    ActAllSnoc(map[], [], url);
    ActAllSnoc(map[], [], weight);
    ActAllSnoc(map[], [weight], url);
    assert [] + [url] == [url] && [] + [weight] == [weight] && [weight] + [url] == [weight, url];
    assert ActAll(map[], []) == map[];
  }

  /** Added events for the two fields commute, on any cache and for any two servers. */
  lemma AddedFieldsCommute(v: View, n: string, u: string, m: string, w: int)
    ensures var url, weight := Action(ADD, Change(n, u, 0, 0)), Action(ADD, Change(m, "", w, 1));
            Act(Act(v, url), weight) == Act(Act(v, weight), url)
  {
    var url, weight := Action(ADD, Change(n, u, 0, 0)), Action(ADD, Change(m, "", w, 1));
    var x, y := Act(Act(v, url), weight), Act(Act(v, weight), url);
    assert forall k :: (k in x <==> k in y) && (k in x ==> x[k] == y[k]);
  }

  // ----- Building endpoints from a listing

  function AddedEvents(kvs: seq<Kv>): seq<Event> {
    seq(|kvs|, i requires 0 <= i < |kvs| => Event(Added, Some(kvs[i])))
  }

  /** The entries of a listing: each pair replayed as an Added event. */
  function Listed(kvs: seq<Kv>, atoi: string -> int): View {
    ActAll(map[], Actions(AddedEvents(kvs), atoi))
  }

  /** Notes a weight for a name in a map of endpoints under construction. */
  method NoteWeight(ends: map<string, Endpoint>, ghost listed: View, n: string, weight: int)
    returns (more: map<string, Endpoint>)
    requires Owned(ends, listed)
    modifies ends.Values
    ensures Owned(more, listed[n := Entry(UrlOf(listed, n), weight)])
    ensures forall m :: m in more ==> (m in ends && more[m] == ends[m]) || fresh(more[m])
  {
    if n in ends {
      assert forall m :: m in ends ==> ChangeOf(ends[m]).name == m;
      ends[n].weight := weight;
      more := ends;
    } else {
      var e := new Endpoint(n, "", weight, 0);
      more := ends[n := e];
    }
  }

  /** A listing with one more pair. */
  function Noted(listed: View, kv: Kv, atoi: string -> int): View {
    match Decode(kv.key, kv.value, atoi)
    case None => listed
    case Some(c) =>
      if c.mode == 1 then listed[c.name := Entry(UrlOf(listed, c.name), c.weight)] else WithUrl(listed, c.name, c.url)
  }

  method NotePair(ends: map<string, Endpoint>, ghost listed: View, kv: Kv, atoi: string -> int)
    returns (more: map<string, Endpoint>)
    requires Owned(ends, listed)
    modifies ends.Values
    ensures Owned(more, Noted(listed, kv, atoi))
    ensures forall m :: m in more ==> (m in ends && more[m] == ends[m]) || fresh(more[m])
  {
    more := ends;
    var kstep := DiscoverV2.Split(kv.key, '/');
    if HasSuffix(kv.key, "/url") && |kstep| > 2 {
      NotBoth(kv.key);
      more := NoteUrl(ends, listed, kstep[|kstep| - 2], kv.value);
    }
    if HasSuffix(kv.key, "/weight") && |kstep| > 2 {
      more := NoteWeight(ends, listed, kstep[|kstep| - 2], atoi(kv.value));
    }
  }

  /** makeEndpointForKvs builds exactly what replaying each pair as an Added event builds. */
  method MakeEndpointForKvs(kvs: seq<Kv>, atoi: string -> int) returns (res: seq<Endpoint>)
    ensures ListsEach(res, Listed(kvs, atoi)) && forall i :: 0 <= i < |res| ==> fresh(res[i])
  {
    var ends: map<string, Endpoint> := map[];
    for i := 0 to |kvs|
      invariant Owned(ends, Listed(kvs[..i], atoi))
      invariant forall n :: n in ends ==> fresh(ends[n])
    {
      ReplayStep(kvs, i, atoi);
      ends := NotePair(ends, Listed(kvs[..i], atoi), kvs[i], atoi);
    }
    assert kvs[..|kvs|] == kvs;
    res := ValuesOf(ends, Listed(kvs, atoi));
  }

  lemma NotBoth(key: string)
    requires HasSuffix(key, "/url")
    ensures !HasSuffix(key, "/weight")
  {
    assert key[|key| - 1] == 'l';
    OtherEnd(key, "/weight");
  }

  lemma OtherEnd(key: string, suffix: string)
    requires key != "" && suffix != "" && key[|key| - 1] != suffix[|suffix| - 1]
    ensures !HasSuffix(key, suffix)
  {
    assert |suffix| <= |key| ==> key[|key| - |suffix|..][|suffix| - 1] == key[|key| - 1];
  }

  lemma ReplayStep(kvs: seq<Kv>, i: nat, atoi: string -> int)
    requires i < |kvs|
    ensures Listed(kvs[..i + 1], atoi) == Noted(Listed(kvs[..i], atoi), kvs[i], atoi)
  {
    var es := AddedEvents(kvs);
    assert AddedEvents(kvs[..i + 1]) == es[..i + 1] && AddedEvents(kvs[..i]) == es[..i];
    HandleNext(map[], es, i, atoi);
  }

  /** SYNC of those endpoints, in whatever order, into an empty cache gives the same URLs and
      weights as the Added events. */
  lemma SyncIntoEmptyIsReplay(res: seq<Endpoint>, kvs: seq<Kv>, atoi: string -> int)
    requires ListsEach(res, Listed(kvs, atoi))
    ensures Apply(SYNC, map[], Changes(res)) == ActAll(map[], Actions(AddedEvents(kvs), atoi))
  {
    SyncIsListed(map[], res, Listed(kvs, atoi));
    assert SyncListed(map[], Listed(kvs, atoi)) == Listed(kvs, atoi);
  }

  // ----- Following a store

  type Store = map<string, string>

  function Perform(s: Store, w: DiscoverV2.Write): Store {
    match w
    case Put(k, v) => s[k := v]
    case Remove(k) => s - {k}
  }

  function PerformAll(s: Store, ws: seq<DiscoverV2.Write>): Store {
    if ws == [] then s else Perform(PerformAll(s, ws[..|ws| - 1]), ws[|ws| - 1])
  }

  /** What the watch reports for a write; removing an absent key is not an event. */
  function Report(s: Store, w: DiscoverV2.Write): Option<Event> {
    match w
    case Put(k, v) => Some(Event(if k in s then Modified else Added, Some(Kv(k, v))))
    case Remove(k) => if k in s then Some(Event(Deleted, Some(Kv(k, "")))) else None
  }

  /** The events a gap-free watch delivers for a sequence of writes. */
  function Reports(s: Store, ws: seq<DiscoverV2.Write>): seq<Event> {
    if ws == [] then []
    else
      var front := ws[..|ws| - 1];
      match Report(PerformAll(s, front), ws[|ws| - 1])
      case None => Reports(s, front)
      case Some(e) => Reports(s, front) + [e]
  }

  /** No two keys in use hold the same field of a server. */
  ghost predicate FieldsApart(keys: set<string>) {
    forall k, l :: k in keys && l in keys && FieldOf(k).Some? && FieldOf(k) == FieldOf(l) ==> k == l
  }

  ghost predicate KeysIn(ws: seq<DiscoverV2.Write>, keys: set<string>) {
    forall i :: 0 <= i < |ws| ==> ws[i].key in keys
  }

  function Stored(s: Store, k: string): Option<string> {
    if k in s then Some(s[k]) else None
  }

  /** The cache has the stored value in the field, or its initial value if there is none. */
  ghost predicate ShowsField(v: View, f: Field, stored: Option<string>, atoi: string -> int) {
    && (stored.Some? ==> f.name in v)
    && if f.mode == 1 then WeightOf(v, f.name) == if stored.Some? then atoi(stored.value) else 0
       else UrlOf(v, f.name) == if stored.Some? then stored.value else ""
  }

  ghost predicate Shows(v: View, s: Store, k: string, atoi: string -> int) {
    FieldOf(k).Some? ==> ShowsField(v, FieldOf(k).value, Stored(s, k), atoi)
  }

  /** Every server's URL and weight are the stored ones, as far as these keys hold them. */
  ghost predicate ShowsAll(v: View, s: Store, keys: set<string>, atoi: string -> int) {
    forall k :: k in keys ==> Shows(v, s, k, atoi)
  }

  function ActedOn(v: View, a: Option<Action>): View {
    if a.Some? then Act(v, a.value) else v
  }

  /** How the cache follows one write. */
  function Follows(v: View, s: Store, w: DiscoverV2.Write, atoi: string -> int): View {
    match Report(s, w)
    case None => v
    case Some(e) => ActedOn(v, ActionOf(e, atoi))
  }

  /** The same, for the field that the written key holds. */
  function FollowsField(v: View, f: Field, s: Store, w: DiscoverV2.Write, atoi: string -> int): View {
    match w
    case Put(k, value) => ApplyOne(if k in s then UPDATE else ADD, v, ChangeTo(f, value, atoi))
    case Remove(k) => if k in s then ApplyOne(DELETE, v, ChangeTo(f, "", atoi)) else v
  }

  lemma FollowsIsFollowsField(v: View, s: Store, w: DiscoverV2.Write, atoi: string -> int)
    ensures Follows(v, s, w, atoi) ==
            match FieldOf(w.key)
            case None => v
            case Some(f) => FollowsField(v, f, s, w, atoi)
    ensures FieldOf(w.key).Some? ==> 0 <= FieldOf(w.key).value.mode <= 1
  {
  }

  lemma WrittenField(v: View, f: Field, s: Store, w: DiscoverV2.Write, atoi: string -> int)
    requires 0 <= f.mode <= 1 && ShowsField(v, f, Stored(s, w.key), atoi)
    ensures ShowsField(FollowsField(v, f, s, w, atoi), f, Stored(Perform(s, w), w.key), atoi)
  {
  }

  lemma OtherField(v: View, f: Field, s: Store, w: DiscoverV2.Write, g: Field, stored: Option<string>, atoi: string -> int)
    requires 0 <= f.mode <= 1 && 0 <= g.mode <= 1 && f != g && ShowsField(v, g, stored, atoi)
    ensures ShowsField(FollowsField(v, f, s, w, atoi), g, stored, atoi)
  {
  }

  lemma ShowsAfter(v: View, s: Store, w: DiscoverV2.Write, keys: set<string>, k: string, atoi: string -> int)
    requires FieldsApart(keys) && w.key in keys && k in keys
    requires Shows(v, s, w.key, atoi) && Shows(v, s, k, atoi)
    ensures Shows(Follows(v, s, w, atoi), Perform(s, w), k, atoi)
  {
    FollowsIsFollowsField(v, s, w, atoi);
    FollowsIsFollowsField(v, s, DiscoverV2.Remove(k), atoi);
    var f, g := FieldOf(w.key), FieldOf(k);
    if k == w.key {
      if f.Some? {
        WrittenField(v, f.value, s, w, atoi);
      }
    } else {
      assert Stored(Perform(s, w), k) == Stored(s, k);
      if f.Some? && g.Some? {
        OtherField(v, f.value, s, w, g.value, Stored(s, k), atoi);
      }
    }
  }

  /** From any cache that shows a store, following the gap-free watch of any writes keeps it
      showing the store. */
  lemma {:induction false} WatchShows(v: View, s: Store, ws: seq<DiscoverV2.Write>, keys: set<string>, atoi: string -> int)
    requires FieldsApart(keys) && KeysIn(ws, keys) && ShowsAll(v, s, keys, atoi)
    ensures ShowsAll(ActAll(v, Actions(Reports(s, ws), atoi)), PerformAll(s, ws), keys, atoi)
  {
    if ws != [] {
      var front, w := ws[..|ws| - 1], ws[|ws| - 1];
      WatchShows(v, s, front, keys, atoi);
      var t, es := PerformAll(s, front), Reports(s, front);
      FollowsNext(v, t, es, w, atoi);
      forall k | k in keys ensures Shows(Follows(ActAll(v, Actions(es, atoi)), t, w, atoi), Perform(t, w), k, atoi) {
        ShowsAfter(ActAll(v, Actions(es, atoi)), t, w, keys, k, atoi);
      }
    }
  }

  lemma FollowsNext(v: View, s: Store, es: seq<Event>, w: DiscoverV2.Write, atoi: string -> int)
    ensures Follows(ActAll(v, Actions(es, atoi)), s, w, atoi) ==
            match Report(s, w)
            case None => ActAll(v, Actions(es, atoi))
            case Some(e) => ActAll(v, Actions(es + [e], atoi))
  {
    match Report(s, w) {
      case None =>
      case Some(e) => ActedOnNext(v, es, e, atoi);
    }
  }

  lemma ActedOnNext(v: View, es: seq<Event>, e: Event, atoi: string -> int)
    ensures ActAll(v, Actions(es + [e], atoi)) == ActedOn(ActAll(v, Actions(es, atoi)), ActionOf(e, atoi))
  {
    ActionsLast(es, e, es + [e], atoi);
    ActAllWith(v, Actions(es, atoi), ActionOf(e, atoi));
  }

  lemma ActAllWith(v: View, actions: seq<Action>, a: Option<Action>)
    ensures ActAll(v, WithAction(actions, a)) == ActedOn(ActAll(v, actions), a)
  {
    if a.Some? {
      ActAllSnoc(v, actions, a.value);
    }
  }

  function Puts(kvs: seq<Kv>): seq<DiscoverV2.Write> {
    seq(|kvs|, i requires 0 <= i < |kvs| => DiscoverV2.Put(kvs[i].key, kvs[i].value))
  }

  ghost predicate KeysOnce(kvs: seq<Kv>) {
    forall i, j :: 0 <= i < j < |kvs| ==> kvs[i].key != kvs[j].key
  }

  /** The watch starts with the stored pairs, as Added events: as if they were just put. */
  lemma {:induction false} ListingIsPuts(kvs: seq<Kv>)
    requires KeysOnce(kvs)
    ensures Reports(map[], Puts(kvs)) == AddedEvents(kvs)
    ensures forall k :: k in PerformAll(map[], Puts(kvs)) <==> exists i :: 0 <= i < |kvs| && kvs[i].key == k
  {
    if kvs != [] {
      var n := |kvs| - 1;
      ListingIsPuts(kvs[..n]);
      assert forall i :: 0 <= i < n ==> kvs[..n][i] == kvs[i];
      PutsNext(kvs, n);
    }
  }

  lemma PutsNext(kvs: seq<Kv>, n: nat)
    requires |kvs| == n + 1
    ensures AddedEvents(kvs) == AddedEvents(kvs[..n]) + [Event(Added, Some(kvs[n]))]
    ensures var s, w := PerformAll(map[], Puts(kvs[..n])), DiscoverV2.Put(kvs[n].key, kvs[n].value);
            && PerformAll(map[], Puts(kvs)) == Perform(s, w)
            && (kvs[n].key !in s ==>
                  Reports(map[], Puts(kvs)) == Reports(map[], Puts(kvs[..n])) + [Event(Added, Some(kvs[n]))])
  {
    assert Puts(kvs)[..n] == Puts(kvs[..n]);
  }

  /** A whole watch, from an empty cache: the stored pairs and then any writes leave every
      server with its stored URL and weight. */
  lemma WatchShowsStore(kvs: seq<Kv>, ws: seq<DiscoverV2.Write>, keys: set<string>, atoi: string -> int)
    requires KeysOnce(kvs) && FieldsApart(keys) && KeysIn(ws, keys)
    requires forall i :: 0 <= i < |kvs| ==> kvs[i].key in keys
    ensures var s := PerformAll(map[], Puts(kvs));
            ShowsAll(ActAll(map[], Actions(AddedEvents(kvs) + Reports(s, ws), atoi)), PerformAll(s, ws), keys, atoi)
  {
    var s, es := PerformAll(map[], Puts(kvs)), AddedEvents(kvs);
    ListingIsPuts(kvs);
    WatchShows(map[], map[], Puts(kvs), keys, atoi);
    WatchShows(ActAll(map[], Actions(es, atoi)), s, ws, keys, atoi);
    ActionsConcat(es, Reports(s, ws), atoi);
    ActAllConcat(map[], Actions(es, atoi), Actions(Reports(s, ws), atoi));
  }
}
