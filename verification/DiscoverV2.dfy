/** The second discovery client (discover.v2/discover.go): list a prefix, then follow its
    watch, keeping the endpoint cache in step with the store. */
module DiscoverV2 {
  import opened Wrappers
  import opened EndpointCache
  import opened Mirror

  // ----- strings.Split(key, "/")

  function Split(s: string, sep: char): (parts: seq<string>)
    ensures parts != []
  {
    if s == [] then [""]
    else if s[0] == sep then [""] + Split(s[1..], sep)
    else PrependChar(s[0], Split(s[1..], sep))
  }

  function PrependChar(c: char, parts: seq<string>): (r: seq<string>)
    requires parts != []
    ensures |r| == |parts|
  {
    [[c] + parts[0]] + parts[1..]
  }

  lemma PrependConcat(c: char, a: seq<string>, b: seq<string>)
    requires a != []
    ensures PrependChar(c, a + b) == PrependChar(c, a) + b
  {
  }

  /** The server a key is about: its last segment, if it has more than two. */
  function ServerName(key: string): Option<string> {
    var kstep := Split(key, '/');
    if |kstep| > 2 then Some(kstep[|kstep| - 1]) else None
  }

  lemma {:induction false} SplitJoin(a: string, b: string, sep: char)
    ensures Split(a + [sep] + b, sep) == Split(a, sep) + Split(b, sep)
  {
    var s := a + [sep] + b;
    if a == [] {
      assert s[0] == sep && s[1..] == b;
    } else {
      SplitJoin(a[1..], b, sep);
      assert s[0] == a[0] && s[1..] == a[1..] + [sep] + b;
      if a[0] != sep {
        PrependConcat(a[0], Split(a[1..], sep), Split(b, sep));
      } else {
        assert [""] + (Split(a[1..], sep) + Split(b, sep)) == [""] + Split(a[1..], sep) + Split(b, sep);
      }
    }
  }

  lemma {:induction false} SplitOne(s: string, sep: char)
    requires sep !in s
    ensures Split(s, sep) == [s]
  {
    if s != [] {
      SplitOne(s[1..], sep);
      assert [s[0]] + s[1..] == s;
      assert Split(s, sep) == [[s[0]] + s[1..]] + [s[1..]][1..];
    }
  }

  /** A key of a service's prefix names the server that ends it. */
  lemma ServerNameOf(dir: string, service: string, server: string)
    requires '/' !in server
    ensures ServerName("/" + dir + "/" + service + "/" + server) == Some(server)
  {
    var head := "/" + dir + "/" + service;
    SplitJoin(head, server, '/');
    SplitOne(server, '/');
    assert head == ("/" + dir) + ['/'] + service;
    SplitJoin("/" + dir, service, '/');
    assert head + ['/'] + server == "/" + dir + "/" + service + "/" + server;
  }

  /** A key with fewer than two separators names no server. */
  lemma ShortKeysNameNone(a: string, b: string)
    requires '/' !in a && '/' !in b
    ensures ServerName(a) == None && ServerName(a + "/" + b) == None
  {
    SplitOne(a, '/');
    SplitOne(b, '/');
    SplitJoin(a, b, '/');
    assert a + ['/'] + b == a + "/" + b;
  }

  // ----- The store and its watch

  datatype Versioned = Versioned(value: string, version: nat)

  type Store = map<string, Versioned>

  datatype Write = Put(key: string, value: string) | Remove(key: string)

  datatype Event = PutEvent(key: string, value: string, version: nat) | DeleteEvent(key: string)

  function Perform(s: Store, w: Write): Store {
    match w
    case Put(k, v) => s[k := Versioned(v, if k in s then s[k].version + 1 else 1)]
    case Remove(k) => s - {k}
  }

  /** What the watch reports for a write; removing an absent key is not an event. */
  function Report(s: Store, w: Write): Option<Event> {
    match w
    case Put(k, v) => Some(PutEvent(k, v, Perform(s, w)[k].version))
    case Remove(k) => if k in s then Some(DeleteEvent(k)) else None
  }

  /** Keys that exist have been put at least once. */
  ghost predicate ValidStore(s: Store) {
    forall k :: k in s ==> s[k].version >= 1
  }

  // ----- The event loop

  /** What one event does to the cache. */
  function React(v: View, e: Event): View {
    match ServerName(e.key)
    case None => v
    case Some(n) => ReactAs(v, n, e)
  }

  /** The same, for the name of the event's server. */
  function ReactAs(v: View, n: string, e: Event): View {
    match e
    case DeleteEvent(_) => ApplyOne(DELETE, v, Change(n, "", 0, 0))
    case PutEvent(_, value, version) =>
      ApplyOne(if version == 1 then ADD else UPDATE, v, Change(n, value, 0, 0))
  }

  function ReactAll(v: View, es: seq<Event>): View {
    if es == [] then v else React(ReactAll(v, es[..|es| - 1]), es[|es| - 1])
  }

  /** What an event does, by its kind: a key's first put makes the server known with its URL,
      a later one changes the URL of a known server only, and a deletion empties the URL of a
      known server; weights and other servers stay as they are. */
  lemma EventEffect(v: View, e: Event, n: string)
    requires ServerName(e.key) == Some(n)
    ensures var w := React(v, e);
            && (forall m :: m != n ==> (m in w <==> m in v) && (m in v ==> w[m] == v[m]))
            && (n in w <==> n in v || (e.PutEvent? && e.version == 1))
            && (n in w ==> w[n].url == if e.PutEvent? then e.value else "")
            && (n in v ==> w[n].weight == v[n].weight)
  {
  }

  lemma NamelessEventIgnored(v: View, e: Event)
    requires ServerName(e.key) == None
    ensures React(v, e) == v
  {
  }

  method HandleEvent(cache: Cache, e: Event)
    requires cache.Valid()
    modifies cache, cache.endpoints.Values
    ensures cache.Valid() && cache.View() == React(old(cache.View()), e)
    ensures forall o :: o in cache.endpoints.Values ==> o in old(cache.endpoints.Values) || fresh(o)
  {
    var end := EndpointFor(e.key, if e.PutEvent? then e.value else "");
    if end.Some? {
      var op := if e.DeleteEvent? then DELETE else if e.version == 1 then ADD else UPDATE;
      cache.UpdateEndpoint(op, end.value);
    }
  }

  /** The endpoint that an event's pair is about, if its key is long enough. */
  method EndpointFor(key: string, value: string) returns (end: Option<Endpoint>)
    ensures end.Some? ==> fresh(end.value)
    ensures match ServerName(key)
            case None => end == None
            case Some(n) => end.Some? && ChangeOf(end.value) == Change(n, value, 0, 0)
  {
    end := None;
    var kstep := Split(key, '/');
    if |kstep| > 2 {
      var e := new Endpoint(kstep[|kstep| - 1], value, 0, 0);
      end := Some(e);
    }
  }

  datatype Kv = Kv(key: string, value: string)

  /** The last value listed for each server. */
  function Listed(kvs: seq<Kv>): View {
    if kvs == [] then map[]
    else
      var front, kv := Listed(kvs[..|kvs| - 1]), kvs[|kvs| - 1];
      match ServerName(kv.key)
      case None => front
      case Some(n) => WithUrl(front, n, kv.value)
  }

  lemma ListedSnoc(kvs: seq<Kv>, i: nat)
    requires i < |kvs|
    ensures Listed(kvs[..i + 1]) ==
            match ServerName(kvs[i].key)
            case None => Listed(kvs[..i])
            case Some(n) => WithUrl(Listed(kvs[..i]), n, kvs[i].value)
  {
    assert kvs[..i + 1][..i] == kvs[..i];
  }

  /** Only servers named by some pair are listed, without a weight... */
  lemma {:induction false} ListedIsNamed(kvs: seq<Kv>, n: string)
    requires n in Listed(kvs)
    ensures Listed(kvs)[n].weight == 0
    ensures exists i :: 0 <= i < |kvs| && ServerName(kvs[i].key) == Some(n)
  {
    var m := |kvs| - 1;
    if ServerName(kvs[m].key) != Some(n) || n in Listed(kvs[..m]) {
      ListedIsNamed(kvs[..m], n);
      var i :| 0 <= i < m && ServerName(kvs[..m][i].key) == Some(n);
      assert kvs[i] == kvs[..m][i];
    }
  }

  /** ...and each with the value of its last pair. */
  lemma {:induction false} ListedIsLast(kvs: seq<Kv>, n: string, i: nat)
    requires i < |kvs| && ServerName(kvs[i].key) == Some(n)
    requires forall j :: i < j < |kvs| ==> ServerName(kvs[j].key) != Some(n)
    ensures n in Listed(kvs) && Listed(kvs)[n] == Entry(kvs[i].value, 0)
  {
    var m := |kvs| - 1;
    if i < m {
      ListedIsLast(kvs[..m], n, i);
    } else if n in Listed(kvs[..m]) {
      ListedIsNamed(kvs[..m], n);
    }
  }

  /** makeEndpointForKvs: one fresh endpoint per server, in some order. */
  method MakeEndpointForKvs(kvs: seq<Kv>) returns (res: seq<Endpoint>)
    ensures ListsEach(res, Listed(kvs)) && forall i :: 0 <= i < |res| ==> fresh(res[i])
  {
    var ends: map<string, Endpoint> := map[];
    for i := 0 to |kvs|
      invariant Owned(ends, Listed(kvs[..i]))
      invariant forall n :: n in ends ==> fresh(ends[n])
    {
      ListedSnoc(kvs, i);
      var kstep := Split(kvs[i].key, '/');
      if |kstep| > 2 {
        ends := NoteUrl(ends, Listed(kvs[..i]), kstep[|kstep| - 1], kvs[i].value);
      }
    }
    assert kvs[..|kvs|] == kvs;
    res := ValuesOf(ends, Listed(kvs));
  }

  /** One session of `discover`: what its listing returned, None if the query failed, and
      the events it handles until its timer fires or its watch fails. */
  datatype Session = Session(listing: Option<seq<Kv>>, events: seq<Event>)

  function AfterSession(v: View, session: Session): View {
    ReactAll(if session.listing.None? then v else SyncListed(v, Listed(session.listing.value)), session.events)
  }

  function AfterSessions(v: View, sessions: seq<Session>): View
    decreases |sessions|
  {
    if sessions == [] then v else AfterSessions(AfterSession(v, sessions[0]), sessions[1..])
  }

  /** `discover`: whether the timer fires or the watch fails, it starts another session on
      the same cache. */
  method Discover(cache: Cache, sessions: seq<Session>)
    requires cache.Valid()
    modifies cache, cache.endpoints.Values
    ensures cache.Valid() && cache.View() == AfterSessions(old(cache.View()), sessions)
    decreases |sessions|
  {
    if sessions == [] {
      return;
    }
    if sessions[0].listing.Some? {
      SyncListing(cache, sessions[0].listing.value);
    }
    Follow(cache, sessions[0].events);
    Discover(cache, sessions[1..]);
  }

  method SyncListing(cache: Cache, kvs: seq<Kv>)
    requires cache.Valid()
    modifies cache, cache.endpoints.Values
    ensures cache.Valid() && cache.View() == SyncListed(old(cache.View()), Listed(kvs))
    ensures forall o :: o in cache.endpoints.Values ==> o in old(cache.endpoints.Values) || fresh(o)
  {
    ghost var v := cache.View();
    var endpoints := MakeEndpointForKvs(kvs);
    assert cache.View() == v;
    SyncIsListed(v, endpoints, Listed(kvs));
    if |endpoints| > 0 {
      ghost var cs, objects := Changes(endpoints), cache.endpoints.Values;
      var _, applied := cache.UpdateEndpoints(SYNC, endpoints);
      NothingRepeated(SYNC, v, endpoints, objects, cs, applied);
    }
  }

  /** The loop over the events of the watch. */
  method Follow(cache: Cache, events: seq<Event>)
    requires cache.Valid()
    modifies cache, cache.endpoints.Values
    ensures cache.Valid() && cache.View() == ReactAll(old(cache.View()), events)
    ensures forall o :: o in cache.endpoints.Values ==> o in old(cache.endpoints.Values) || fresh(o)
  {
    ghost var v := cache.View();
    for i := 0 to |events|
      invariant cache.Valid() && cache.View() == ReactAll(v, events[..i])
      invariant forall o :: o in cache.endpoints.Values ==> o in old(cache.endpoints.Values) || fresh(o)
    {
      assert events[..i + 1][..i] == events[..i];
      HandleEvent(cache, events[i]);
    }
    assert events[..|events|] == events;
  }

  // ----- Agreement with the store

  /** The servers that the keys in use name. */
  type Names = map<string, string>

  /** Each key in use names a server, and no two of them the same one. */
  ghost predicate NamesApart(names: Names) {
    (forall k :: k in names ==> ServerName(k) == Some(names[k])) && Apart(names)
  }

  function Urls(v: View): map<string, string> {
    map n | n in v :: v[n].url
  }

  function Values(s: Store): map<string, string> {
    map k | k in s :: s[k].value
  }

  /** Each live key's server is cached with its current URL, and whatever else is cached is
      a tombstone with an empty URL, for one of the keys in use. */
  ghost predicate InStep(v: View, s: Store, names: Names) {
    Agrees(Urls(v), Values(s), names, "")
  }

  /** The published list of an agreeing cache: exactly the live servers that have a URL. */
  lemma AgreementPublishes(v: View, s: Store, names: Names, n: string, u: string)
    requires InStep(v, s, names)
    ensures (n in Published(v) && Published(v)[n] == u) <==>
            u != "" && exists k :: k in s && Backs(names, k, n) && s[k].value == u
  {
    if u != "" {
      AgreementShows(Urls(v), Values(s), names, "", n, u);
      assert (exists k :: k in s && Backs(names, k, n) && s[k].value == u) <==>
             exists k :: k in Values(s) && Backs(names, k, n) && Values(s)[k] == u;
    }
  }

  /** Each live key's server is cached with its current URL, whatever else is cached. */
  ghost predicate ServesStore(v: View, s: Store, names: Names) {
    Serves(Urls(v), Values(s), names)
  }

  /** No cached URL belongs to a server that is gone. */
  ghost predicate NothingStale(v: View, s: Store, names: Names) {
    NoneGone(Urls(v), Values(s), names, "")
  }

  lemma ServesAfter(v: View, s: Store, w: Write, names: Names)
    requires NamesApart(names) && ValidStore(s) && w.key in names && ServesStore(v, s, names)
    ensures ValidStore(Perform(s, w)) && ServesStore(Follows(v, s, w), Perform(s, w), names)
    ensures NothingStale(v, s, names) ==> NothingStale(Follows(v, s, w), Perform(s, w), names)
  {
    var n, t := names[w.key], Perform(s, w);
    match Report(s, w) {
      case None =>
        assert t == s;
      case Some(e) =>
        assert Backs(names, w.key, n);
        assert w.key in s ==> w.key in Values(s);
        var x := FollowsAs(v, s, w, n);
        AgreesAfter(Urls(v), Urls(x), Values(s), Values(t), w.key, names, "");
    }
  }

  /** A first put is an ADD, which revives a tombstone; a later one finds the name cached. */
  lemma FollowsAs(v: View, s: Store, w: Write, n: string) returns (x: View)
    requires ServerName(w.key) == Some(n) && Report(s, w).Some?
    requires ValidStore(s) && (w.key in s ==> n in v)
    ensures x == Follows(v, s, w)
    ensures var t := Perform(s, w);
            && (forall m :: m != n ==> (m in x <==> m in v) && (m in v ==> x[m] == v[m]))
            && (w.key in t ==> n in x && x[n].url == t[w.key].value)
            && (w.key !in t ==> n in x ==> x[n].url == "")
  {
    x := ReactAs(v, n, Report(s, w).value);
  }

  /** How the cache follows one write. */
  function Follows(v: View, s: Store, w: Write): View {
    match Report(s, w)
    case None => v
    case Some(e) => React(v, e)
  }

  function PerformAll(s: Store, ws: seq<Write>): Store {
    if ws == [] then s else Perform(PerformAll(s, ws[..|ws| - 1]), ws[|ws| - 1])
  }

  /** The events a gap-free watch delivers for a sequence of writes. */
  function Reports(s: Store, ws: seq<Write>): seq<Event> {
    if ws == [] then []
    else
      var front := ws[..|ws| - 1];
      match Report(PerformAll(s, front), ws[|ws| - 1])
      case None => Reports(s, front)
      case Some(e) => Reports(s, front) + [e]
  }

  lemma ReactAllSnoc(v: View, es: seq<Event>, e: Event)
    ensures ReactAll(v, es + [e]) == React(ReactAll(v, es), e)
  {
    assert (es + [e])[..|es|] == es;
  }

  /** From any cache that serves a store, following the gap-free watch of any writes keeps
      it serving the store, and lets no stale URL arise. */
  lemma {:induction false} WatchServes(v: View, s: Store, ws: seq<Write>, names: Names)
    requires NamesApart(names) && ValidStore(s) && ServesStore(v, s, names)
    requires forall i :: 0 <= i < |ws| ==> ws[i].key in names
    ensures ValidStore(PerformAll(s, ws)) && ServesStore(ReactAll(v, Reports(s, ws)), PerformAll(s, ws), names)
    ensures NothingStale(v, s, names) ==> NothingStale(ReactAll(v, Reports(s, ws)), PerformAll(s, ws), names)
  {
    if ws != [] {
      var front, w := ws[..|ws| - 1], ws[|ws| - 1];
      WatchServes(v, s, front, names);
      var t := PerformAll(s, front);
      var x := ReactAll(v, Reports(s, front));
      ServesAfter(x, t, w, names);
      match Report(t, w) {
        case None =>
        case Some(e) => ReactAllSnoc(v, Reports(s, front), e);
      }
    }
  }

  /** From any agreeing cache, it keeps the cache in agreement. */
  lemma WatchKeepsAgreement(v: View, s: Store, ws: seq<Write>, names: Names)
    requires NamesApart(names) && ValidStore(s) && InStep(v, s, names)
    requires forall i :: 0 <= i < |ws| ==> ws[i].key in names
    ensures ValidStore(PerformAll(s, ws)) && InStep(ReactAll(v, Reports(s, ws)), PerformAll(s, ws), names)
  {
    WatchServes(v, s, ws, names);
  }

  /** The listing of a store holds each of its keys once, with its value. */
  ghost predicate ListingOf(kvs: seq<Kv>, s: Store) {
    && (forall i, j :: 0 <= i < j < |kvs| ==> kvs[i].key != kvs[j].key)
    && (forall i :: 0 <= i < |kvs| ==> kvs[i].key in s && s[kvs[i].key].value == kvs[i].value)
    && (forall k :: k in s ==> exists i :: 0 <= i < |kvs| && kvs[i].key == k)
  }

  /** The listing by server holds each live server with its value, and nothing else. */
  lemma ListingIsLive(kvs: seq<Kv>, s: Store, names: Names)
    requires NamesApart(names) && s.Keys <= names.Keys && ListingOf(kvs, s)
    ensures ListedLive(Urls(Listed(kvs)), Values(s), names)
  {
    var listed := Urls(Listed(kvs));
    forall k, n | k in s && Backs(names, k, n) ensures n in listed && listed[n] == s[k].value {
      ListedAt(kvs, names, n);
      var i :| 0 <= i < |kvs| && kvs[i].key == k;
    }
    forall n | n in listed ensures exists k :: k in Values(s) && Backs(names, k, n) {
      ListedAt(kvs, names, n);
      var i :| 0 <= i < |kvs| && names[kvs[i].key] == n;
      assert kvs[i].key in Values(s) && Backs(names, kvs[i].key, n);
    }
  }

  lemma {:induction false} ListedAt(kvs: seq<Kv>, names: Names, n: string)
    requires NamesApart(names) && forall i :: 0 <= i < |kvs| ==> kvs[i].key in names
    requires forall i, j :: 0 <= i < j < |kvs| ==> kvs[i].key != kvs[j].key
    ensures forall i :: 0 <= i < |kvs| && names[kvs[i].key] == n ==>
                          n in Listed(kvs) && Listed(kvs)[n].url == kvs[i].value
    ensures n in Listed(kvs) ==> exists i :: 0 <= i < |kvs| && names[kvs[i].key] == n
  {
    if kvs != [] {
      var m := |kvs| - 1;
      ListedAt(kvs[..m], names, n);
      assert forall i :: 0 <= i < m ==> kvs[..m][i] == kvs[i];
      assert kvs[..m + 1] == kvs;
      ListedSnoc(kvs, m);
      assert ServerName(kvs[m].key) == Some(names[kvs[m].key]);
      if names[kvs[m].key] == n {
        assert Backs(names, kvs[m].key, n);
        forall i | 0 <= i < m ensures names[kvs[i].key] != n {
          assert kvs[i].key != kvs[m].key ==> !Backs(names, kvs[i].key, n);
        }
      } else {
        assert forall i :: 0 <= i < m && names[kvs[..m][i].key] == n ==> names[kvs[i].key] == n;
      }
    }
  }

  /** Listing the store again into any cache of these keys restores agreement exactly when
      no cached URL belongs to a server that is gone: SYNC never removes a name. */
  lemma SyncAgreesExactly(v: View, s: Store, kvs: seq<Kv>, names: Names)
    requires NamesApart(names) && s.Keys <= names.Keys && ListingOf(kvs, s)
    requires forall n :: n in v ==> exists k :: Backs(names, k, n)
    ensures ServesStore(SyncListed(v, Listed(kvs)), s, names)
    ensures InStep(SyncListed(v, Listed(kvs)), s, names) <==> NothingStale(v, s, names)
  {
    ListingIsLive(kvs, s, names);
    OverlayAgreesExactly(Urls(SyncListed(v, Listed(kvs))), Urls(v), Values(s), Urls(Listed(kvs)), names, "");
  }

  /** A whole session from an empty cache: the listing of a store and then the gap-free
      watch of any writes leave the cache in agreement with the store as it is by then. */
  lemma SessionAgrees(s: Store, kvs: seq<Kv>, ws: seq<Write>, names: Names)
    requires NamesApart(names) && s.Keys <= names.Keys && ValidStore(s) && ListingOf(kvs, s)
    requires forall i :: 0 <= i < |ws| ==> ws[i].key in names
    ensures InStep(ReactAll(SyncListed(map[], Listed(kvs)), Reports(s, ws)), PerformAll(s, ws), names)
  {
    SyncAgreesExactly(map[], s, kvs, names);
    WatchKeepsAgreement(SyncListed(map[], Listed(kvs)), s, ws, names);
  }

  // ----- Many sessions

  /** What happens to the store around a session: writes that nobody watches, then the
      listing, then writes before the watch is open, then those that the watch reports. */
  datatype Round = Round(unseen: seq<Write>, missed: seq<Write>, seen: seq<Write>)

  /** The store when the round's session lists it, and when its watch opens. */
  function Listing(s: Store, round: Round): Store {
    PerformAll(s, round.unseen)
  }

  function Opening(s: Store, round: Round): Store {
    PerformAll(Listing(s, round), round.missed)
  }

  /** The session of a round: its listing, unless that fails, and its watch. */
  ghost predicate SessionOf(session: Session, s: Store, round: Round) {
    && (session.listing.Some? ==> ListingOf(session.listing.value, Listing(s, round)))
    && session.events == Reports(Opening(s, round), round.seen)
  }

  /** Nothing is missed before the watch opens, and a listing only fails if nothing went
      unseen before it. */
  ghost predicate CatchesUp(session: Session, round: Round) {
    round.missed == [] && (session.listing.None? ==> round.unseen == [])
  }

  function AfterRound(s: Store, round: Round): Store {
    PerformAll(Opening(s, round), round.seen)
  }

  function AfterRounds(s: Store, rounds: seq<Round>): Store
    decreases |rounds|
  {
    if rounds == [] then s else AfterRounds(AfterRound(s, rounds[0]), rounds[1..])
  }

  ghost predicate SessionsOf(sessions: seq<Session>, s: Store, rounds: seq<Round>)
    decreases |rounds|
  {
    && |sessions| == |rounds|
    && (rounds != [] ==>
          SessionOf(sessions[0], s, rounds[0]) && SessionsOf(sessions[1..], AfterRound(s, rounds[0]), rounds[1..]))
  }

  ghost predicate KeysIn(ws: seq<Write>, names: Names) {
    forall i :: 0 <= i < |ws| ==> ws[i].key in names
  }

  ghost predicate RoundIn(round: Round, names: Names) {
    KeysIn(round.unseen, names) && KeysIn(round.missed, names) && KeysIn(round.seen, names)
  }

  /** Nothing is removed while nobody watches. */
  ghost predicate NoUnseenRemoval(round: Round) {
    forall i :: 0 <= i < |round.unseen| ==> round.unseen[i].Put?
  }

  lemma {:induction false} StoreStaysValid(s: Store, ws: seq<Write>, names: Names)
    requires ValidStore(s) && s.Keys <= names.Keys && KeysIn(ws, names)
    ensures ValidStore(PerformAll(s, ws)) && PerformAll(s, ws).Keys <= names.Keys
    ensures (forall i :: 0 <= i < |ws| ==> ws[i].Put?) ==> s.Keys <= PerformAll(s, ws).Keys
  {
    if ws != [] {
      StoreStaysValid(s, ws[..|ws| - 1], names);
    }
  }

  /** One round serves the store as it is then; it only lets a stale URL arise if something
      was removed unseen. */
  lemma RoundServes(v: View, s: Store, session: Session, round: Round, names: Names)
    requires NamesApart(names) && ValidStore(s) && s.Keys <= names.Keys && RoundIn(round, names)
    requires SessionOf(session, s, round) && CatchesUp(session, round) && ServesStore(v, s, names)
    ensures ServesStore(AfterSession(v, session), AfterRound(s, round), names)
    ensures NoUnseenRemoval(round) && NothingStale(v, s, names) ==>
              NothingStale(AfterSession(v, session), AfterRound(s, round), names)
    ensures ValidStore(AfterRound(s, round)) && AfterRound(s, round).Keys <= names.Keys
  {
    var t := Listing(s, round);
    assert Opening(s, round) == t;
    StoreStaysValid(s, round.unseen, names);
    StoreStaysValid(t, round.seen, names);
    if session.listing.None? {
      WatchServes(v, t, round.seen, names);
    } else {
      var kvs := session.listing.value;
      assert forall n :: n in v ==> n in Urls(v);
      SyncAgreesExactly(v, t, kvs, names);
      if NoUnseenRemoval(round) && NothingStale(v, s, names) {
        StillNothingStale(v, s, t, names);
      }
      WatchServes(SyncListed(v, Listed(kvs)), t, round.seen, names);
    }
  }

  lemma StillNothingStale(v: View, s: Store, t: Store, names: Names)
    requires NothingStale(v, s, names) && s.Keys <= t.Keys
    ensures NothingStale(v, t, names)
  {
    forall k, n | Backs(names, k, n) && k !in Values(t) && n in Urls(v) ensures Urls(v)[n] == "" {
      assert k !in Values(s);
    }
  }

  // ----- What the cache knows of each key

  /** Only names of keys in use are cached. */
  ghost predicate OnlyKnown(v: View, names: Names) {
    forall n :: n in v ==> exists k :: Backs(names, k, n)
  }

  /** The URL a name is cached with, if it is cached. */
  function Cached(v: View, n: string): Option<string> {
    if n in v then Some(v[n].url) else None
  }

  /** What was last seen of a key, after the watch reported a write: a put counts if it is
      the key's first or the key is known already; a removal leaves the empty URL. */
  function Noticed(seen: Option<string>, s: Store, w: Write, k: string): Option<string> {
    if w.key != k then seen
    else
      match w
      case Put(_, value) => if k !in s || seen.Some? then Some(value) else None
      case Remove(_) => if k in s && seen.Some? then Some("") else seen
  }

  function NoticedAll(seen: Option<string>, s: Store, ws: seq<Write>, k: string): Option<string> {
    if ws == [] then seen
    else
      var front := ws[..|ws| - 1];
      Noticed(NoticedAll(seen, s, front, k), PerformAll(s, front), ws[|ws| - 1], k)
  }

  /** What was last seen of a key after a round: the listing shows the keys there are. */
  function SeenAfterRound(seen: Option<string>, s: Store, listed: bool, round: Round, k: string): Option<string> {
    var t := Listing(s, round);
    NoticedAll(if listed && k in t then Some(t[k].value) else seen, Opening(s, round), round.seen, k)
  }

  function LastSeen(seen: Option<string>, s: Store, sessions: seq<Session>, rounds: seq<Round>, k: string): Option<string>
    requires |sessions| == |rounds|
    decreases |rounds|
  {
    if rounds == [] then seen
    else
      LastSeen(SeenAfterRound(seen, s, sessions[0].listing.Some?, rounds[0], k), AfterRound(s, rounds[0]),
               sessions[1..], rounds[1..], k)
  }

  lemma FollowsNotices(v: View, s: Store, w: Write, names: Names, k: string)
    requires NamesApart(names) && ValidStore(s) && w.key in names
    ensures k in names ==> Cached(Follows(v, s, w), names[k]) == Noticed(Cached(v, names[k]), s, w, k)
    ensures OnlyKnown(v, names) ==> OnlyKnown(Follows(v, s, w), names)
  {
    assert k in names ==> Backs(names, k, names[k]);
    assert Backs(names, w.key, names[w.key]);
    assert ServerName(w.key) == Some(names[w.key]);
  }

  lemma {:induction false} WatchNotices(v: View, s: Store, ws: seq<Write>, names: Names, k: string)
    requires NamesApart(names) && ValidStore(s) && s.Keys <= names.Keys && KeysIn(ws, names)
    ensures k in names ==> Cached(ReactAll(v, Reports(s, ws)), names[k]) == NoticedAll(Cached(v, names[k]), s, ws, k)
    ensures OnlyKnown(v, names) ==> OnlyKnown(ReactAll(v, Reports(s, ws)), names)
  {
    if ws != [] {
      var front, w := ws[..|ws| - 1], ws[|ws| - 1];
      WatchNotices(v, s, front, names, k);
      StoreStaysValid(s, front, names);
      var t, x := PerformAll(s, front), ReactAll(v, Reports(s, front));
      FollowsNotices(x, t, w, names, k);
      match Report(t, w) {
        case None =>
        case Some(e) => ReactAllSnoc(v, Reports(s, front), e);
      }
    }
  }

  lemma ListingShows(v: View, s: Store, kvs: seq<Kv>, names: Names, k: string)
    requires NamesApart(names) && s.Keys <= names.Keys && ListingOf(kvs, s)
    ensures k in names ==>
              Cached(SyncListed(v, Listed(kvs)), names[k]) == if k in s then Some(s[k].value) else Cached(v, names[k])
    ensures OnlyKnown(v, names) ==> OnlyKnown(SyncListed(v, Listed(kvs)), names)
  {
    ListingIsLive(kvs, s, names);
    if k in names {
      ListedByKey(Listed(kvs), s, names, k);
    }
    forall n | n in Listed(kvs) ensures exists l :: Backs(names, l, n) {
      assert n in Urls(Listed(kvs));
    }
  }

  lemma ListedByKey(listed: View, s: Store, names: Names, k: string)
    requires NamesApart(names) && ListedLive(Urls(listed), Values(s), names) && k in names
    ensures Cached(listed, names[k]) == if k in s then Some(s[k].value) else None
  {
    var n := names[k];
    assert Backs(names, k, n);
    assert k in s ==> k in Values(s);
    assert n in listed ==> n in Urls(listed);
  }

  lemma RoundNotices(v: View, s: Store, session: Session, round: Round, names: Names, k: string)
    requires NamesApart(names) && ValidStore(s) && s.Keys <= names.Keys && RoundIn(round, names)
    requires SessionOf(session, s, round)
    ensures k in names ==>
              Cached(AfterSession(v, session), names[k]) ==
              SeenAfterRound(Cached(v, names[k]), s, session.listing.Some?, round, k)
    ensures OnlyKnown(v, names) ==> OnlyKnown(AfterSession(v, session), names)
    ensures ValidStore(AfterRound(s, round)) && AfterRound(s, round).Keys <= names.Keys
  {
    var t, u := Listing(s, round), Opening(s, round);
    StoreStaysValid(s, round.unseen, names);
    StoreStaysValid(t, round.missed, names);
    StoreStaysValid(u, round.seen, names);
    if session.listing.Some? {
      ListingShows(v, t, session.listing.value, names, k);
    }
    WatchNotices(if session.listing.None? then v else SyncListed(v, Listed(session.listing.value)), u, round.seen, names, k);
  }

  /** Over any number of sessions, whatever goes unseen in between and whichever listings
      fail: a server is cached with what was last seen of its key. */
  lemma {:induction false} CacheIsLastSeen(v: View, s: Store, sessions: seq<Session>, rounds: seq<Round>, names: Names,
                                           k: string)
    requires NamesApart(names) && ValidStore(s) && s.Keys <= names.Keys
    requires SessionsOf(sessions, s, rounds) && forall i :: 0 <= i < |rounds| ==> RoundIn(rounds[i], names)
    ensures k in names ==>
              Cached(AfterSessions(v, sessions), names[k]) == LastSeen(Cached(v, names[k]), s, sessions, rounds, k)
    ensures OnlyKnown(v, names) ==> OnlyKnown(AfterSessions(v, sessions), names)
    ensures AfterRounds(s, rounds).Keys <= names.Keys
    decreases |rounds|
  {
    if rounds != [] {
      RoundNotices(v, s, sessions[0], rounds[0], names, k);
      CacheIsLastSeen(AfterSession(v, sessions[0]), AfterRound(s, rounds[0]), sessions[1..], rounds[1..], names, k);
    }
  }

  /** What was last seen of a key is what the store holds. */
  ghost predicate UpToDate(seen: Option<string>, s: Store, k: string) {
    if k in s then seen == Some(s[k].value) else seen.None? || seen.value == ""
  }

  lemma InStepByKey(v: View, s: Store, names: Names)
    requires NamesApart(names) && s.Keys <= names.Keys && OnlyKnown(v, names)
    ensures InStep(v, s, names) <==> forall k :: k in names ==> UpToDate(Cached(v, names[k]), s, k)
  {
    if InStep(v, s, names) {
      forall k | k in names ensures UpToDate(Cached(v, names[k]), s, k) {
        assert Backs(names, k, names[k]);
        assert k in s ==> k in Values(s);
      }
    }
    if forall k :: k in names ==> UpToDate(Cached(v, names[k]), s, k) {
      UpToDateIsInStep(v, s, names);
    }
  }

  lemma UpToDateIsInStep(v: View, s: Store, names: Names)
    requires s.Keys <= names.Keys && OnlyKnown(v, names)
    requires forall k :: k in names ==> UpToDate(Cached(v, names[k]), s, k)
    ensures InStep(v, s, names)
  {
    var cache, store := Urls(v), Values(s);
    forall k, n | k in store && Backs(names, k, n) ensures n in cache && cache[n] == store[k] {
      assert UpToDate(Cached(v, names[k]), s, k);
    }
    forall k, n | Backs(names, k, n) && k !in store && n in cache ensures cache[n] == "" {
      assert UpToDate(Cached(v, names[k]), s, k);
    }
  }

  /** So over any number of sessions the cache ends in agreement with the store exactly when
      what was last seen of every key is what the store holds by then. */
  lemma SessionsAgreeExactly(v: View, s: Store, sessions: seq<Session>, rounds: seq<Round>, names: Names)
    requires NamesApart(names) && ValidStore(s) && s.Keys <= names.Keys && OnlyKnown(v, names)
    requires SessionsOf(sessions, s, rounds) && forall i :: 0 <= i < |rounds| ==> RoundIn(rounds[i], names)
    ensures InStep(AfterSessions(v, sessions), AfterRounds(s, rounds), names) <==>
            forall k :: k in names ==>
                          UpToDate(LastSeen(Cached(v, names[k]), s, sessions, rounds, k), AfterRounds(s, rounds), k)
  {
    var w, t := AfterSessions(v, sessions), AfterRounds(s, rounds);
    CacheIsLastSeen(v, s, sessions, rounds, names, "");
    forall k | k in names ensures Cached(w, names[k]) == LastSeen(Cached(v, names[k]), s, sessions, rounds, k) {
      CacheIsLastSeen(v, s, sessions, rounds, names, k);
    }
    InStepByKey(w, t, names);
  }

  /** If every session catches up with the store, every live server is always cached with its
      current URL; so the cache agrees exactly when each key that is gone was last seen gone,
      and certainly if nothing was removed unseen. */
  lemma SessionsServe(v: View, s: Store, sessions: seq<Session>, rounds: seq<Round>, names: Names)
    requires NamesApart(names) && ValidStore(s) && s.Keys <= names.Keys && ServesStore(v, s, names)
    requires SessionsOf(sessions, s, rounds) && forall i :: 0 <= i < |rounds| ==> RoundIn(rounds[i], names)
    requires forall i :: 0 <= i < |rounds| ==> CatchesUp(sessions[i], rounds[i])
    ensures var w, t := AfterSessions(v, sessions), AfterRounds(s, rounds);
            && ServesStore(w, t, names)
            && (InStep(w, t, names) <==>
                forall k :: k in names && k !in t ==>
                              UpToDate(LastSeen(Cached(v, names[k]), s, sessions, rounds, k), t, k))
            && (NothingStale(v, s, names) && (forall i :: 0 <= i < |rounds| ==> NoUnseenRemoval(rounds[i])) ==>
                  InStep(w, t, names))
  {
    var w, t := AfterSessions(v, sessions), AfterRounds(s, rounds);
    SessionsKeepServing(v, s, sessions, rounds, names);
    assert forall n :: n in v ==> n in Urls(v);
    SessionsAgreeExactly(v, s, sessions, rounds, names);
    forall k | k in names && k in t
      ensures UpToDate(LastSeen(Cached(v, names[k]), s, sessions, rounds, k), t, k)
    {
      CacheIsLastSeen(v, s, sessions, rounds, names, k);
      assert Backs(names, k, names[k]) && k in Values(t);
    }
  }

  lemma {:induction false} SessionsKeepServing(v: View, s: Store, sessions: seq<Session>, rounds: seq<Round>, names: Names)
    requires NamesApart(names) && ValidStore(s) && s.Keys <= names.Keys && ServesStore(v, s, names)
    requires SessionsOf(sessions, s, rounds) && forall i :: 0 <= i < |rounds| ==> RoundIn(rounds[i], names)
    requires forall i :: 0 <= i < |rounds| ==> CatchesUp(sessions[i], rounds[i])
    ensures ServesStore(AfterSessions(v, sessions), AfterRounds(s, rounds), names)
    ensures NothingStale(v, s, names) && (forall i :: 0 <= i < |rounds| ==> NoUnseenRemoval(rounds[i])) ==>
              NothingStale(AfterSessions(v, sessions), AfterRounds(s, rounds), names)
    decreases |rounds|
  {
    if rounds != [] {
      RoundServes(v, s, sessions[0], rounds[0], names);
      SessionsKeepServing(AfterSession(v, sessions[0]), AfterRound(s, rounds[0]), sessions[1..], rounds[1..], names);
    }
  }

  /** A server that goes while nobody watches stays published, however often the store is
      listed again. */
  lemma UnseenRemovalStaysPublished(v: View, kvs: seq<Kv>, n: string, u: string)
    requires n in Published(v) && Published(v)[n] == u && n !in Listed(kvs)
    ensures var w := SyncListed(v, Listed(kvs)); n in Published(w) && Published(w)[n] == u
  {
  }
}
