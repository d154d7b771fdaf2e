/** The endpoint cache that both discovery clients keep (defaultCallBackUpdate in
    discover/discover.go and discover.v2/discover.go). */
module EndpointCache {
  import opened Seqs

  datatype Operation = ADD | DELETE | UPDATE | SYNC

  class Endpoint {
    const name: string
    var url: string
    var weight: int
    const mode: int

    constructor (name: string, url: string, weight: int, mode: int)
      ensures this.name == name && this.url == url && this.weight == weight && this.mode == mode
    {
      this.name, this.url, this.weight, this.mode := name, url, weight, mode;
    }
  }

  // ----- The cache as a value

  datatype Entry = Entry(url: string, weight: int)

  type View = map<string, Entry>

  /** An endpoint as an argument: mode 0 carries a URL, mode 1 a weight, mode 2 both. */
  datatype Change = Change(name: string, url: string, weight: int, mode: int)

  function Absorb(e: Entry, c: Change): Entry {
    match c.mode
    case 0 => e.(url := c.url)
    case 1 => e.(weight := c.weight)
    case 2 => Entry(c.url, c.weight)
    case _ => e
  }

  function Clear(e: Entry, c: Change): Entry {
    match c.mode
    case 0 => e.(url := "")
    case 1 => e.(weight := 0)
    case _ => e
  }

  function ApplyOne(op: Operation, v: View, c: Change): View {
    match op
    case ADD => if c.name in v then v[c.name := Absorb(v[c.name], c)] else v[c.name := Entry(c.url, c.weight)]
    case SYNC => if c.name in v then v[c.name := Absorb(v[c.name], c)] else v[c.name := Entry(c.url, c.weight)]
    case UPDATE => if c.name in v then v[c.name := Absorb(v[c.name], c)] else v
    case DELETE =>
      if c.name !in v then v
      else if c.mode == 2 then v - {c.name}
      else v[c.name := Clear(v[c.name], c)]
  }

  /** The effect of one endpoint, by operation and mode: mode 0 is about the URL, 1 about the
      weight, 2 about both; other servers are left alone. */
  lemma OneEffect(op: Operation, v: View, c: Change)
    ensures var w, n := ApplyOne(op, v, c), c.name;
            && (forall m :: m != n ==> (m in w <==> m in v) && (m in v ==> w[m] == v[m]))
            // Adding and syncing make a server known; deleting both fields forgets it.
            && (n in w <==> if n in v then !(op == DELETE && c.mode == 2) else op == ADD || op == SYNC)
            && (n in w && n !in v ==> w[n] == Entry(c.url, c.weight))
            && (n in w && n in v ==>
                  && w[n].url == (if op == DELETE then if c.mode == 0 then "" else v[n].url
                                  else if c.mode == 0 || c.mode == 2 then c.url else v[n].url)
                  && w[n].weight == (if op == DELETE then if c.mode == 1 then 0 else v[n].weight
                                     else if c.mode == 1 || c.mode == 2 then c.weight else v[n].weight))
  {
  }

  function Apply(op: Operation, v: View, cs: seq<Change>): View {
    if cs == [] then v
    else ApplyOne(op, Apply(op, v, cs[..|cs| - 1]), cs[|cs| - 1])
  }

  function UrlOf(v: View, n: string): string {
    if n in v then v[n].url else ""
  }

  function WeightOf(v: View, n: string): int {
    if n in v then v[n].weight else 0
  }

  /** The names and URLs a callback is told about. */
  function Published(v: View): map<string, string> {
    map n | n in v && v[n].url != "" :: v[n].url
  }

  // ----- The cache as an object

  class Cache {
    var endpoints: map<string, Endpoint>

    constructor ()
      ensures Valid() && View() == map[] && endpoints == map[]
    {
      endpoints := map[];
    }

    ghost predicate Valid()
      reads this
    {
      forall n :: n in endpoints ==> endpoints[n].name == n
    }

    ghost function View(): View
      reads this, endpoints.Values
    {
      map n | n in endpoints :: Entry(endpoints[n].url, endpoints[n].weight)
    }

    /** One turn of the loops of UpdateEndpoints. A new endpoint object goes into the cache
        itself; an endpoint for a known name changes the cached object. */
    method UpdateOne(op: Operation, e: Endpoint)
      requires Valid()
      modifies this, endpoints.Values
      ensures Valid() && endpoints.Values <= old(endpoints.Values) + {e}
      ensures View() == ApplyOne(op, old(View()), old(ChangeOf(e)))
      ensures op != DELETE ==>
                endpoints.Values == if Inserts(op, old(View()), e.name) then old(endpoints.Values) + {e}
                else old(endpoints.Values)
    {
      match op {
        case ADD => Upsert(e);
        case SYNC => Upsert(e);
        case DELETE => Delete(e);
        case UPDATE =>
          if e.name in endpoints {
            Refresh(e);
          }
      }
    }

    method Upsert(e: Endpoint)
      requires Valid()
      modifies this, endpoints.Values
      ensures Valid()
      ensures endpoints.Values == if Inserts(ADD, old(View()), e.name) then old(endpoints.Values) + {e}
                                  else old(endpoints.Values)
      ensures View() == ApplyOne(ADD, old(View()), old(ChangeOf(e)))
    {
      if e.name !in endpoints {
        ghost var v, c := View(), ChangeOf(e);
        ValuesGrow(endpoints, e.name, e);
        endpoints := endpoints[e.name := e];
        assert View() == v[c.name := Entry(c.url, c.weight)];
      } else {
        Refresh(e);
      }
    }

    /** The cached object of e's name takes over e's fields. */
    method Refresh(e: Endpoint)
      requires Valid() && e.name in endpoints
      modifies endpoints.Values
      ensures Valid() && View() == old(View())[e.name := Absorb(old(View())[e.name], old(ChangeOf(e)))]
    {
      ghost var v, c := View(), ChangeOf(e);
      Overwrite(endpoints[e.name], e);
      assert View()[e.name] == Absorb(v[e.name], c);
      assert forall n :: n in v && n != e.name ==> View()[n] == v[n];
    }

    method Delete(e: Endpoint)
      requires Valid()
      modifies this, endpoints.Values
      ensures Valid() && endpoints.Values <= old(endpoints.Values)
      ensures View() == ApplyOne(DELETE, old(View()), old(ChangeOf(e)))
    {
      if e.name in endpoints {
        ghost var v, c := View(), ChangeOf(e);
        if e.mode == 0 {
          endpoints[e.name].url := "";
        }
        if e.mode == 1 {
          endpoints[e.name].weight := 0;
        }
        if e.mode == 2 {
          endpoints := endpoints - {e.name};
        }
        assert e.mode != 2 ==> View()[e.name] == Clear(v[e.name], c);
        assert forall n :: n in v && n != e.name ==> View()[n] == v[n];
      }
    }

    /** UpdateEndpoints: applies an operation for a list of endpoint objects, then returns
        what the callback is given, in some order. Every object counts with the fields it was
        handed over with, except that one which the cache already holds when its turn comes
        changes nothing. */
    method UpdateEndpoints(op: Operation, ends: seq<Endpoint>) returns (re: seq<Endpoint>, ghost applied: seq<Change>)
      requires Valid()
      modifies this, endpoints.Values, ends
      ensures Valid() && View() == Apply(op, old(View()), applied)
      ensures Counted(op, old(View()), ends, old(endpoints.Values), old(Changes(ends)), applied)
      ensures endpoints.Values <= old(endpoints.Values) + set j | 0 <= j < |ends| :: ends[j]
      ensures Distinct(re)
      ensures forall e :: e in re <==> e in endpoints.Values && e.url != ""
    {
      applied := UpdateAll(op, ends);
      re := Live();
    }

    /** The same for a single endpoint that the cache does not hold yet. */
    method UpdateEndpoint(op: Operation, e: Endpoint)
      requires Valid() && e !in endpoints.Values
      modifies this, endpoints.Values, e
      ensures Valid() && View() == ApplyOne(op, old(View()), old(ChangeOf(e)))
      ensures endpoints.Values <= old(endpoints.Values) + {e}
    {
      ghost var v, cs, objects := View(), Changes([e]), endpoints.Values;
      var _, applied := UpdateEndpoints(op, [e]);
      NothingRepeated(op, v, [e], objects, cs, applied);
      SingleChange(op, v, cs[0]);
      assert cs == [cs[0]];
    }

    method UpdateAll(op: Operation, ends: seq<Endpoint>) returns (ghost applied: seq<Change>)
      requires Valid()
      modifies this, endpoints.Values, ends
      ensures Valid() && View() == Apply(op, old(View()), applied)
      ensures Counted(op, old(View()), ends, old(endpoints.Values), old(Changes(ends)), applied)
      ensures endpoints.Values <= old(endpoints.Values) + set j | 0 <= j < |ends| :: ends[j]
    {
      ghost var cs := Changes(ends);
      ghost var v := View();
      ghost var objects := endpoints.Values;
      applied := [];
      for i := 0 to |ends|
        invariant Underway(op, ends, i, objects, cs, v, applied)
      {
        applied := UpdateTally(op, ends, i, objects, cs, v, applied);
      }
      assert cs[..|ends|] == cs;
    }

    /** The state of the loop after i turns. */
    ghost predicate Underway(op: Operation, ends: seq<Endpoint>, i: nat, objects: set<Endpoint>, cs: seq<Change>,
                             v: View, applied: seq<Change>)
      requires i <= |ends|
      reads this, endpoints.Values, ends
    {
      && |cs| == |ends| && Waiting(op, ends, i, objects, cs)
      && View() == Apply(op, v, applied)
      && Tally(op, v, ends, objects, cs[..i], applied, endpoints.Values)
    }

    method UpdateTally(op: Operation, ends: seq<Endpoint>, i: nat, ghost objects: set<Endpoint>, ghost cs: seq<Change>,
                       ghost v: View, ghost applied: seq<Change>)
      returns (ghost applied': seq<Change>)
      requires i < |ends| && Underway(op, ends, i, objects, cs, v, applied)
      modifies this, endpoints.Values
      ensures Underway(op, ends, i + 1, objects, cs, v, applied')
    {
      ghost var values := endpoints.Values;
      ghost var c := UpdateNext(op, ends, i, objects, cs);
      TakeNext(cs, i);
      TallyNext(op, v, ends, objects, cs[..i], applied, values, endpoints.Values, cs[i], c);
      applied' := applied + [c];
    }

    /** The objects after i turns of the loop: those cached come from before or from earlier
        turns, and whatever is not cached is as it was handed over. */
    ghost predicate Waiting(op: Operation, ends: seq<Endpoint>, i: nat, objects: set<Endpoint>, cs: seq<Change>)
      requires i <= |ends| == |cs|
      reads this, endpoints.Values, ends
    {
      && Valid()
      && (forall e :: e in endpoints.Values ==> e in objects || e in ends[..i])
      && (op != DELETE ==> forall j :: 0 <= j < |ends| && ends[j] !in endpoints.Values ==> ChangeOf(ends[j]) == cs[j])
      && (forall j :: 0 <= j < |ends| ==> SameSlot(ends[j], cs[j]))
    }

    method UpdateNext(op: Operation, ends: seq<Endpoint>, i: nat, ghost objects: set<Endpoint>, ghost cs: seq<Change>)
      returns (ghost c: Change)
      requires i < |ends| == |cs| && Waiting(op, ends, i, objects, cs)
      modifies this, endpoints.Values
      ensures Waiting(op, ends, i + 1, objects, cs)
      ensures View() == ApplyOne(op, old(View()), c)
      ensures if op != DELETE && ends[i] in old(endpoints.Values) then View() == old(View()) else c == cs[i]
      ensures op != DELETE ==>
                endpoints.Values == if Inserts(op, old(View()), ends[i].name) then old(endpoints.Values) + {ends[i]}
                else old(endpoints.Values)
    {
      c := cs[i];
      if op != DELETE && ends[i] in endpoints.Values {
        CachedIsIdle(op, ends[i]);
        c := ChangeOf(ends[i]);
      }
      TakeNext(ends, i);
      UpdateOne(op, ends[i]);
    }

    /** A cached object that is handed over again changes nothing. */
    lemma CachedIsIdle(op: Operation, e: Endpoint)
      requires Valid() && e in endpoints.Values && op != DELETE
      ensures ApplyOne(op, View(), ChangeOf(e)) == View()
    {
      assert endpoints[e.name] == e;
    }

    /** The cached endpoints that have a URL. */
    method Live() returns (re: seq<Endpoint>)
      requires Valid()
      ensures Distinct(re) && forall e :: e in re <==> e in endpoints.Values && e.url != ""
    {
      re := [];
      var keys := endpoints.Keys;
      while keys != {}
        invariant keys <= endpoints.Keys && Distinct(re)
        invariant forall e :: e in re <==> e.name in endpoints && endpoints[e.name] == e && e.name !in keys && e.url != ""
        decreases keys
      {
        var n := AnyOf(keys);
        keys := keys - {n};
        if endpoints[n].url != "" {
          re := re + [endpoints[n]];
        }
      }
    }

    /** The published list, by name, is what Published says of the view. */
    lemma PublishedIsLive(re: seq<Endpoint>)
      requires Valid() && forall e :: e in re <==> e in endpoints.Values && e.url != ""
      ensures (set e | e in re :: (e.name, e.url)) == Published(View()).Items
    {
      var published := Published(View());
      forall n | n in published
        ensures (n, published[n]) in set e | e in re :: (e.name, e.url)
      {
        assert endpoints[n] in endpoints.Values;
        assert endpoints[n] in re;
      }
      forall e | e in re ensures e.name in published && published[e.name] == e.url {
        assert e in endpoints.Values;
      }
      forall p | p in published.Items ensures p in set e | e in re :: (e.name, e.url) {
        assert p == (p.0, published[p.0]);
      }
    }
  }

  lemma ValuesGrow<K, V>(m: map<K, V>, k: K, v: V)
    requires k !in m
    ensures m[k := v].Values == m.Values + {v}
  {
    forall w | w in m.Values ensures w in m[k := v].Values {
      var l :| l in m && m[l] == w;
      assert m[k := v][l] == w;
    }
    assert m[k := v][k] == v;
  }

  method Overwrite(cached: Endpoint, e: Endpoint)
    modifies cached
    ensures Entry(cached.url, cached.weight) == Absorb(old(Entry(cached.url, cached.weight)), old(ChangeOf(e)))
  {
    if e.mode == 0 {
      cached.url := e.url;
    }
    if e.mode == 1 {
      cached.weight := e.weight;
    }
    if e.mode == 2 {
      cached.url := e.url;
      cached.weight := e.weight;
    }
  }

  ghost function ChangeOf(e: Endpoint): Change
    reads e
  {
    Change(e.name, e.url, e.weight, e.mode)
  }

  ghost function Changes(ends: seq<Endpoint>): seq<Change>
    reads ends
  {
    seq(|ends|, i requires 0 <= i < |ends| reads ends => ChangeOf(ends[i]))
  }

  ghost predicate SameSlot(e: Endpoint, c: Change) {
    e.name == c.name && e.mode == c.mode
  }

  /** An endpoint of that name becomes part of the cache. */
  predicate Inserts(op: Operation, v: View, n: string) {
    (op == ADD || op == SYNC) && n !in v
  }

  /** The cache holds the object when turn i comes: it was cached before the call, or became
      part of the cache in an earlier turn. */
  ghost predicate Held(op: Operation, v: View, ends: seq<Endpoint>, objects: set<Endpoint>, applied: seq<Change>,
                       i: nat, e: Endpoint)
    requires i <= |applied| && i <= |ends|
  {
    e in objects || exists j :: 0 <= j < i && ends[j] == e && Inserts(op, Apply(op, v, applied[..j]), e.name)
  }

  /** The changes applied are the given ones, except that one of an object which the cache
      holds already changes nothing. A deletion always counts. */
  ghost predicate Counted(op: Operation, v: View, ends: seq<Endpoint>, objects: set<Endpoint>,
                          given: seq<Change>, applied: seq<Change>) {
    && |applied| == |given| <= |ends|
    && forall i :: 0 <= i < |given| ==>
                     if op != DELETE && Held(op, v, ends, objects, applied, i, ends[i]) then Idle(op, v, applied, i)
                     else applied[i] == given[i]
  }

  ghost predicate Idle(op: Operation, v: View, cs: seq<Change>, i: nat)
    requires i < |cs|
  {
    var before := Apply(op, v, cs[..i]);
    ApplyOne(op, before, cs[i]) == before
  }

  /** If no object is repeated, exactly the given changes are applied. */
  lemma NothingRepeated(op: Operation, v: View, ends: seq<Endpoint>, objects: set<Endpoint>,
                        given: seq<Change>, applied: seq<Change>)
    requires Counted(op, v, ends, objects, given, applied)
    requires Distinct(ends) && forall i :: 0 <= i < |ends| ==> ends[i] !in objects
    ensures applied == given
  {
    forall i: nat | i < |given| ensures applied[i] == given[i] {
      assert !Held(op, v, ends, objects, applied, i, ends[i]);
    }
  }

  lemma ApplySnoc(op: Operation, v: View, cs: seq<Change>, c: Change)
    ensures Apply(op, v, cs + [c]) == ApplyOne(op, Apply(op, v, cs), c)
  {
    assert (cs + [c])[..|cs|] == cs;
  }

  lemma HeldPrefix(op: Operation, v: View, ends: seq<Endpoint>, objects: set<Endpoint>, applied: seq<Change>,
                   c: Change, i: nat, e: Endpoint)
    requires i <= |applied| && i <= |ends|
    ensures Held(op, v, ends, objects, applied + [c], i, e) <==> Held(op, v, ends, objects, applied, i, e)
  {
    forall j: nat | j < i ensures (applied + [c])[..j] == applied[..j] {
    }
  }

  lemma HeldSnoc(op: Operation, v: View, ends: seq<Endpoint>, objects: set<Endpoint>, applied: seq<Change>,
                 c: Change, e: Endpoint)
    requires |applied| < |ends|
    ensures Held(op, v, ends, objects, applied + [c], |applied| + 1, e) <==>
            || Held(op, v, ends, objects, applied, |applied|, e)
            || (ends[|applied|] == e && Inserts(op, Apply(op, v, applied), e.name))
  {
    var i, all := |applied|, applied + [c];
    HeldPrefix(op, v, ends, objects, applied, c, i, e);
    assert all[..i] == applied;
    if Held(op, v, ends, objects, all, i, e) && e !in objects {
      var j :| 0 <= j < i && ends[j] == e && Inserts(op, Apply(op, v, all[..j]), e.name);
      assert Held(op, v, ends, objects, all, i + 1, e);
    }
  }

  lemma CountedSnoc(op: Operation, v: View, ends: seq<Endpoint>, objects: set<Endpoint>,
                    given: seq<Change>, applied: seq<Change>, c: Change, d: Change)
    requires Counted(op, v, ends, objects, given, applied) && |given| < |ends|
    requires var before := Apply(op, v, applied);
             if op != DELETE && Held(op, v, ends, objects, applied, |applied|, ends[|applied|])
             then ApplyOne(op, before, d) == before
             else c == d
    ensures Counted(op, v, ends, objects, given + [c], applied + [d])
    ensures Apply(op, v, applied + [d]) == ApplyOne(op, Apply(op, v, applied), d)
  {
    var all := applied + [d];
    ApplySnoc(op, v, applied, d);
    forall i | 0 <= i < |all|
      ensures if op != DELETE && Held(op, v, ends, objects, all, i, ends[i]) then Idle(op, v, all, i)
              else all[i] == (given + [c])[i]
    {
      HeldPrefix(op, v, ends, objects, applied, d, i, ends[i]);
      assert all[..i] == applied[..i];
      assert applied[..|applied|] == applied;
    }
  }

  /** The changes counted so far, and the objects the cache holds by then. */
  ghost predicate Tally(op: Operation, v: View, ends: seq<Endpoint>, objects: set<Endpoint>,
                        given: seq<Change>, applied: seq<Change>, values: set<Endpoint>) {
    && Counted(op, v, ends, objects, given, applied)
    && (op != DELETE ==> Holds(op, v, ends, objects, applied, values))
  }

  /** The set of the objects that are held after the changes applied so far. */
  ghost predicate Holds(op: Operation, v: View, ends: seq<Endpoint>, objects: set<Endpoint>, applied: seq<Change>,
                        values: set<Endpoint>)
    requires |applied| <= |ends|
  {
    && objects <= values
    && (forall j :: 0 <= j < |applied| && Inserts(op, Apply(op, v, applied[..j]), ends[j].name) ==> ends[j] in values)
    && (forall e :: e in values ==> Held(op, v, ends, objects, applied, |applied|, e))
  }

  lemma HoldsSnoc(op: Operation, v: View, ends: seq<Endpoint>, objects: set<Endpoint>, applied: seq<Change>,
                  values: set<Endpoint>, values': set<Endpoint>, d: Change)
    requires |applied| < |ends| && Holds(op, v, ends, objects, applied, values)
    requires values' == if Inserts(op, Apply(op, v, applied), ends[|applied|].name) then values + {ends[|applied|]}
                        else values
    ensures Holds(op, v, ends, objects, applied + [d], values')
  {
    var all := applied + [d];
    forall j | 0 <= j < |all| && Inserts(op, Apply(op, v, all[..j]), ends[j].name) ensures ends[j] in values' {
      assert j < |applied| ==> all[..j] == applied[..j];
      assert j == |applied| ==> all[..j] == applied;
    }
    forall e | e in values' ensures Held(op, v, ends, objects, all, |all|, e) {
      HeldSnoc(op, v, ends, objects, applied, d, e);
    }
  }

  lemma TallyNext(op: Operation, v: View, ends: seq<Endpoint>, objects: set<Endpoint>, given: seq<Change>,
                  applied: seq<Change>, values: set<Endpoint>, values': set<Endpoint>, c: Change, d: Change)
    requires Tally(op, v, ends, objects, given, applied, values) && |given| < |ends|
    requires var before := Apply(op, v, applied);
             if op != DELETE && ends[|given|] in values then ApplyOne(op, before, d) == before else d == c
    requires op != DELETE ==>
               values' == if Inserts(op, Apply(op, v, applied), ends[|given|].name) then values + {ends[|given|]}
               else values
    ensures Tally(op, v, ends, objects, given + [c], applied + [d], values')
    ensures Apply(op, v, applied + [d]) == ApplyOne(op, Apply(op, v, applied), d)
  {
    CountedSnoc(op, v, ends, objects, given, applied, c, d);
    if op != DELETE {
      HoldsSnoc(op, v, ends, objects, applied, values, values', d);
    }
  }

  // ----- Facts about applying lists of changes

  lemma SingleChange(op: Operation, v: View, c: Change)
    ensures Apply(op, v, [c]) == ApplyOne(op, v, c)
  {
    assert Apply(op, v, []) == v;
    assert [c][..0] == [];
  }

  ghost predicate DistinctNames(cs: seq<Change>) {
    forall i, j :: 0 <= i < j < |cs| ==> cs[i].name != cs[j].name
  }

  /** What SYNC makes of one name: the change for it if there is one, else nothing. */
  ghost predicate Synced(v: View, w: View, cs: seq<Change>, n: string) {
    && (forall i :: 0 <= i < |cs| && cs[i].name == n ==>
                      n in w && w[n] == if n in v then Absorb(v[n], cs[i]) else Entry(cs[i].url, cs[i].weight))
    && ((forall i :: 0 <= i < |cs| ==> cs[i].name != n) ==>
          (n in w <==> n in v) && (n in v ==> w[n] == v[n]))
  }

  /** SYNC of endpoints with distinct names acts on every name on its own, so the order of
      the endpoints does not matter. */
  lemma {:induction false} SyncByName(v: View, cs: seq<Change>, n: string)
    requires DistinctNames(cs)
    ensures Synced(v, Apply(SYNC, v, cs), cs, n)
  {
    if cs != [] {
      var k := |cs| - 1;
      SyncByName(v, cs[..k], n);
      assert forall i :: 0 <= i < k ==> cs[..k][i] == cs[i];
    }
  }

  // ----- Listings

  /** Endpoint objects, by name, for exactly the entries of a listing. */
  ghost predicate Owned(ends: map<string, Endpoint>, listed: View)
    reads ends.Values
  {
    ends.Keys == listed.Keys && forall n :: n in ends ==> ChangeOf(ends[n]) == ListedChange(n, listed[n])
  }

  function ListedChange(n: string, e: Entry): Change {
    Change(n, e.url, e.weight, 0)
  }

  /** The endpoints describe exactly the entries of a listing, each once. */
  ghost predicate ListsEach(res: seq<Endpoint>, listed: View)
    reads res
  {
    Distinct(res) && ListsEachChange(Changes(res), listed)
  }

  ghost predicate ListsEachChange(cs: seq<Change>, listed: View) {
    && DistinctNames(cs)
    && (forall i :: 0 <= i < |cs| ==> cs[i].name in listed && cs[i] == ListedChange(cs[i].name, listed[cs[i].name]))
    && (forall n :: n in listed ==> exists i :: 0 <= i < |cs| && cs[i].name == n)
  }

  function WithUrl(listed: View, n: string, url: string): View {
    listed[n := Entry(url, WeightOf(listed, n))]
  }

  /** Notes a URL for a name in a map of endpoints under construction. */
  method NoteUrl(ends: map<string, Endpoint>, ghost listed: View, n: string, url: string)
    returns (more: map<string, Endpoint>)
    requires Owned(ends, listed)
    modifies ends.Values
    ensures Owned(more, WithUrl(listed, n, url))
    ensures forall m :: m in more ==> (m in ends && more[m] == ends[m]) || fresh(more[m])
  {
    if n in ends {
      assert forall m :: m in ends ==> ChangeOf(ends[m]).name == m;
      ends[n].url := url;
      more := ends;
    } else {
      var e := new Endpoint(n, url, 0, 0);
      more := ends[n := e];
    }
  }

  /** The objects of a map, each once, by name. */
  ghost predicate EachOnce(ends: map<string, Endpoint>, res: seq<Endpoint>) {
    && (forall i, j :: 0 <= i < j < |res| ==> res[i].name != res[j].name)
    && (forall i :: 0 <= i < |res| ==> res[i].name in ends && ends[res[i].name] == res[i])
    && (forall n :: n in ends ==> exists i :: 0 <= i < |res| && res[i].name == n)
  }

  /** The last loop of makeEndpointForKvs: the endpoints of a map, in some order. */
  method RangeValues(ends: map<string, Endpoint>) returns (res: seq<Endpoint>)
    requires forall n :: n in ends ==> ends[n].name == n
    ensures EachOnce(ends, res)
  {
    res := [];
    var keys := ends.Keys;
    while keys != {}
      invariant keys <= ends.Keys
      invariant forall i, j :: 0 <= i < j < |res| ==> res[i].name != res[j].name
      invariant forall i :: 0 <= i < |res| ==> res[i].name in ends && ends[res[i].name] == res[i] && res[i].name !in keys
      invariant forall n :: n in ends && n !in keys ==> exists i :: 0 <= i < |res| && res[i].name == n
      decreases keys
    {
      var n := AnyOf(keys);
      keys := keys - {n};
      ghost var before := res;
      res := res + [ends[n]];
      assert res[|before|].name == n;
      assert forall i :: 0 <= i < |before| ==> res[i] == before[i];
    }
  }

  method ValuesOf(ends: map<string, Endpoint>, ghost listed: View) returns (res: seq<Endpoint>)
    requires Owned(ends, listed)
    ensures ListsEach(res, listed)
    ensures forall i :: 0 <= i < |res| ==> res[i].name in ends && ends[res[i].name] == res[i]
  {
    assert forall n :: n in ends ==> ChangeOf(ends[n]).name == n;
    res := RangeValues(ends);
    OwnedListsEach(ends, res, listed);
  }

  lemma OwnedListsEach(ends: map<string, Endpoint>, res: seq<Endpoint>, listed: View)
    requires Owned(ends, listed) && EachOnce(ends, res)
    ensures ListsEach(res, listed)
  {
    var cs := Changes(res);
    forall i | 0 <= i < |cs| ensures cs[i].name in listed && cs[i] == ListedChange(cs[i].name, listed[cs[i].name]) {
      assert cs[i] == ChangeOf(ends[res[i].name]);
    }
    forall n | n in listed ensures exists i :: 0 <= i < |cs| && cs[i].name == n {
      var i :| 0 <= i < |res| && res[i].name == n;
      assert cs[i].name == n;
    }
  }

  /** What a SYNC of a listing does to a view: listed names get their URL (and, if they are
      new, their weight), all other names stay. */
  function SyncListed(v: View, listed: View): View {
    map n | n in v.Keys + listed.Keys ::
      if n !in listed then v[n] else if n in v then v[n].(url := listed[n].url) else listed[n]
  }

  lemma SyncIsListed(v: View, res: seq<Endpoint>, listed: View)
    requires ListsEach(res, listed)
    ensures Apply(SYNC, v, Changes(res)) == SyncListed(v, listed)
  {
    SyncChanges(v, Changes(res), listed);
  }

  lemma SyncChanges(v: View, cs: seq<Change>, listed: View)
    requires ListsEachChange(cs, listed)
    ensures Apply(SYNC, v, cs) == SyncListed(v, listed)
  {
    var w, x := Apply(SYNC, v, cs), SyncListed(v, listed);
    forall n ensures (n in w <==> n in x) && (n in w ==> w[n] == x[n]) {
      SyncByName(v, cs, n);
      if n in listed {
        var i :| 0 <= i < |cs| && cs[i].name == n;
        assert cs[i] == ListedChange(n, listed[n]);
      }
    }
  }
}
