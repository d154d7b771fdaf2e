/** Reconciling the volumes of a request with the stored ones (SyncComponentVolumes in
    api/handler/service.go): delete by ID what is gone, then upsert by ID what is asked for. */
module Volumes {
  import opened Seqs

  /** What identifies a volume: its component and its name. */
  datatype Key = Key(serviceID: string, volumeName: string)

  datatype Volume = Volume(key: Key, spec: string)

  /** The table: rows by ID, and the next ID it hands out. */
  datatype Table = Table(rows: map<nat, Volume>, next: nat)

  ghost predicate ValidTable(t: Table) {
    t.next > 0 && forall id :: id in t.rows ==> 0 < id < t.next
  }

  ghost predicate UniqueKeys(t: Table) {
    forall i, j :: i in t.rows && j in t.rows && t.rows[i].key == t.rows[j].key ==> i == j
  }

  /** A row to be saved; ID 0 asks for a new one. */
  datatype Row = Row(id: nat, volume: Volume)

  function Save(t: Table, r: Row): Table {
    if r.id == 0 then Table(t.rows[t.next := r.volume], t.next + 1)
    else t.(rows := t.rows[r.id := r.volume])
  }

  function SaveAll(t: Table, rs: seq<Row>): Table {
    if rs == [] then t else Save(SaveAll(t, rs[..|rs| - 1]), rs[|rs| - 1])
  }

  // ----- The data access object

  /** Each call may fail, and then changes nothing. */
  class VolumeDao {
    var table: Table
    /** How many calls have failed. */
    var failures: nat

    constructor (table: Table)
      ensures this.table == table && failures == 0
    {
      this.table, failures := table, 0;
    }

    method ListVolumesByComponentIDs(componentIDs: seq<string>) returns (ok: bool, volumes: seq<Row>)
      modifies this`failures
      ensures failures == old(failures) + if ok then 0 else 1
      ensures ok ==> forall r :: r in volumes <==>
                                 r.id in table.rows && r.volume == table.rows[r.id] && r.volume.key.serviceID in componentIDs
    {
      ok, volumes := *, [];
      if !ok {
        failures := failures + 1;
        return;
      }
      var ids := table.rows.Keys;
      while ids != {}
        invariant failures == old(failures) && ids <= table.rows.Keys
        invariant forall r :: r in volumes <==>
                              r.id in table.rows && r.id !in ids && r.volume == table.rows[r.id] && r.volume.key.serviceID in componentIDs
        decreases ids
      {
        var id := AnyOf(ids);
        ids := ids - {id};
        if table.rows[id].key.serviceID in componentIDs {
          volumes := volumes + [Row(id, table.rows[id])];
        }
      }
    }

    method DeleteByVolumeIDs(volumeIDs: seq<nat>) returns (ok: bool)
      modifies this
      ensures failures == old(failures) + if ok then 0 else 1
      ensures table == if ok then old(table).(rows := old(table).rows - set id | id in volumeIDs) else old(table)
    {
      ok := *;
      if ok {
        table := table.(rows := table.rows - set id | id in volumeIDs);
      } else {
        failures := failures + 1;
      }
    }

    method CreateOrUpdateVolumesInBatch(volumes: seq<Row>) returns (ok: bool)
      modifies this
      ensures failures == old(failures) + if ok then 0 else 1
      ensures table == if ok then SaveAll(old(table), volumes) else old(table)
    {
      ok := *;
      if !ok {
        failures := failures + 1;
        return;
      }
      ghost var before := table;
      for i := 0 to |volumes|
        invariant failures == old(failures) && table == SaveAll(before, volumes[..i])
      {
        assert volumes[..i + 1][..i] == volumes[..i];
        table := Save(table, volumes[i]);
      }
      assert volumes[..|volumes|] == volumes;
    }
  }

  // ----- The handler

  /** A request's volumes of one component; None where the request says nothing about them. */
  datatype Component = Component(componentID: string, hasVolumes: bool, volumes: seq<(string, string)>)

  /** The incoming volume objects; only their ID is ever assigned. */
  class VolumeModel {
    var ID: nat
    const volume: Volume

    constructor (volume: Volume)
      ensures this.volume == volume && ID == 0
    {
      ID, this.volume := 0, volume;
    }
  }

  /** The components whose volumes the request determines. */
  function Touched(components: seq<Component>): seq<string> {
    if components == [] then []
    else
      var front, c := Touched(components[..|components| - 1]), components[|components| - 1];
      if c.hasVolumes then front + [c.componentID] else front
  }

  function VolumesOf(c: Component): seq<Volume> {
    seq(|c.volumes|, i requires 0 <= i < |c.volumes| => Volume(Key(c.componentID, c.volumes[i].0), c.volumes[i].1))
  }

  function Incoming(components: seq<Component>): seq<Volume> {
    if components == [] then []
    else
      var front, c := Incoming(components[..|components| - 1]), components[|components| - 1];
      if c.hasVolumes then front + VolumesOf(c) else front
  }

  ghost predicate HasKey(vs: seq<Volume>, k: Key) {
    exists i :: 0 <= i < |vs| && vs[i].key == k
  }

  ghost predicate RowsAre(models: seq<VolumeModel>, vs: seq<Volume>)
  {
    |models| == |vs| && forall i :: 0 <= i < |vs| ==> models[i].volume == vs[i]
  }

  /** The existing volumes of the given components, by key. */
  ghost predicate Existing(exist: map<Key, nat>, t: Table, componentIDs: seq<string>) {
    && (forall k :: k in exist ==> exist[k] in t.rows && t.rows[exist[k]].key == k && k.serviceID in componentIDs)
    && (forall id :: id in t.rows && t.rows[id].key.serviceID in componentIDs ==> t.rows[id].key in exist)
  }

  method GetExistVolumes(dao: VolumeDao, componentIDs: seq<string>) returns (ok: bool, exist: map<Key, nat>)
    modifies dao`failures
    ensures dao.failures == old(dao.failures) + if ok then 0 else 1
    ensures ok ==> Existing(exist, dao.table, componentIDs)
  {
    var volumes;
    ok, volumes := dao.ListVolumesByComponentIDs(componentIDs);
    exist := map[];
    if !ok {
      return;
    }
    for i := 0 to |volumes|
      invariant forall k :: k in exist ==> exists j :: 0 <= j < i && volumes[j].volume.key == k && volumes[j].id == exist[k]
      invariant forall j :: 0 <= j < i ==> volumes[j].volume.key in exist
    {
      exist := exist[volumes[i].volume.key := volumes[i].id];
    }
    forall k | k in exist ensures exist[k] in dao.table.rows && dao.table.rows[exist[k]].key == k && k.serviceID in componentIDs {
      var j :| 0 <= j < |volumes| && volumes[j].volume.key == k && volumes[j].id == exist[k];
      assert volumes[j] in volumes;
    }
    forall id | id in dao.table.rows && dao.table.rows[id].key.serviceID in componentIDs ensures dao.table.rows[id].key in exist {
      assert Row(id, dao.table.rows[id]) in volumes;
    }
  }

  method GetDeleteVolumeIDs(exist: map<Key, nat>, income: seq<VolumeModel>) returns (ids: seq<nat>)
    ensures forall id :: id in ids <==>
                         exists k :: k in exist && exist[k] == id && forall i :: 0 <= i < |income| ==> income[i].volume.key != k
  {
    var newVolumes: set<Key> := {};
    for i := 0 to |income|
      invariant forall k :: k in newVolumes <==> exists j :: 0 <= j < i && income[j].volume.key == k
    {
      newVolumes := newVolumes + {income[i].volume.key};
    }
    ids := [];
    var keys := exist.Keys;
    while keys != {}
      invariant keys <= exist.Keys
      invariant forall id :: id in ids <==> exists k :: k in exist && k !in keys && exist[k] == id && k !in newVolumes
      decreases keys
    {
      var k := AnyOf(keys);
      keys := keys - {k};
      if k !in newVolumes {
        ids := ids + [exist[k]];
      }
    }
  }

  /** Incoming volumes take over the ID of the existing volume with their key. */
  method GetCreateOrUpdateVolumes(exist: map<Key, nat>, income: seq<VolumeModel>) returns (volumes: seq<VolumeModel>)
    modifies income
    ensures volumes == income
    ensures forall i :: 0 <= i < |income| ==>
                          income[i].ID == if income[i].volume.key in exist then exist[income[i].volume.key] else old(income[i].ID)
  {
    volumes := [];
    for i := 0 to |income|
      invariant volumes == income[..i]
      invariant forall m :: m in income[..i] ==> m.ID == if m.volume.key in exist then exist[m.volume.key] else old(m.ID)
      invariant forall m :: m in income && m !in income[..i] ==> m.ID == old(m.ID)
    {
      TakeNext(income, i);
      if income[i].volume.key in exist {
        income[i].ID := exist[income[i].volume.key];
      }
      volumes := volumes + [income[i]];
    }
    assert income[..|income|] == income;
  }

  /** The ID a volume is saved under. */
  function IdFor(exist: map<Key, nat>, k: Key): nat {
    if k in exist then exist[k] else 0
  }

  function ToSave(exist: map<Key, nat>, vs: seq<Volume>): seq<Row> {
    seq(|vs|, i requires 0 <= i < |vs| => Row(IdFor(exist, vs[i].key), vs[i]))
  }

  /** The ID of an existing volume that the request no longer asks for. */
  ghost predicate Gone(exist: map<Key, nat>, vs: seq<Volume>, id: nat) {
    exists k :: k in exist && exist[k] == id && !HasKey(vs, k)
  }

  /** The table after deleting what is gone. */
  ghost predicate Pruned(t: Table, u: Table, exist: map<Key, nat>, vs: seq<Volume>) {
    && u.next == t.next
    && forall id ::
         && (id in u.rows <==> id in t.rows && !Gone(exist, vs, id))
         && (id in u.rows ==> u.rows[id] == t.rows[id])
  }

  /** If all goes well the table is pruned and saved to. If a call fails, at most the
      deletions have been made, which the caller's transaction takes back. */
  method SyncComponentVolumes(dao: VolumeDao, components: seq<Component>) returns (ok: bool)
    modifies dao
    ensures ok <==> dao.failures == old(dao.failures)
    ensures ok ==> exists exist, pruned ::
                && Existing(exist, old(dao.table), Touched(components))
                && Pruned(old(dao.table), pruned, exist, Incoming(components))
                && dao.table == SaveAll(pruned, ToSave(exist, Incoming(components)))
    ensures ok && ValidTable(old(dao.table)) && UniqueKeys(old(dao.table)) ==>
              && ReconciledTo(old(dao.table), dao.table, Touched(components), Incoming(components))
              && Fulfilled(old(dao.table), dao.table, components)
    ensures !ok ==>
              || dao.table == old(dao.table)
              || exists exist :: Existing(exist, old(dao.table), Touched(components))
                                 && Pruned(old(dao.table), dao.table, exist, Incoming(components))
  {
    ghost var t, vs := dao.table, Incoming(components);
    var deleteIDs, rows;
    ghost var exist;
    ok, deleteIDs, rows, exist := Plan(dao, components);
    if !ok {
      return;
    }
    ok := dao.DeleteByVolumeIDs(deleteIDs);
    if !ok {
      return;
    }
    ghost var pruned := dao.table;
    PrunedBy(t, pruned, exist, vs, deleteIDs);
    ok := dao.CreateOrUpdateVolumesInBatch(rows);
    if ok && ValidTable(t) && UniqueKeys(t) {
      IncomingIsForTouched(components);
      Reconciled(t, pruned, Touched(components), exist, vs);
      ReconciledIsFulfilled(t, dao.table, components);
    }
  }

  // ----- The request in its own terms

  /** The request says nothing about the component's volumes. */
  ghost predicate LeftAlone(components: seq<Component>, id: string) {
    forall i :: 0 <= i < |components| && components[i].hasVolumes ==> components[i].componentID != id
  }

  /** Some component of the request lists a volume of that name (and with that content). */
  ghost predicate Asks(components: seq<Component>, k: Key) {
    exists i, j :: 0 <= i < |components| && 0 <= j < |components[i].volumes|
                   && components[i].hasVolumes && components[i].componentID == k.serviceID
                   && components[i].volumes[j].0 == k.volumeName
  }

  ghost predicate AsksFor(components: seq<Component>, v: Volume) {
    exists i, j :: 0 <= i < |components| && 0 <= j < |components[i].volumes|
                   && components[i].hasVolumes && Lists(components[i], j, v)
  }

  ghost predicate Lists(c: Component, j: nat, v: Volume)
    requires j < |c.volumes|
  {
    c.componentID == v.key.serviceID && c.volumes[j] == (v.key.volumeName, v.spec)
  }

  /** The request is met: components it says nothing about keep exactly their volumes; of the
      others exactly the listed volumes are stored, with listed contents, and those that were
      there before under their old ID. */
  ghost predicate Fulfilled(t: Table, u: Table, components: seq<Component>) {
    && (forall id :: id in t.rows && LeftAlone(components, t.rows[id].key.serviceID) ==> id in u.rows && u.rows[id] == t.rows[id])
    && (forall id :: id in u.rows && LeftAlone(components, u.rows[id].key.serviceID) ==> id in t.rows && u.rows[id] == t.rows[id])
    && (forall k: Key :: !LeftAlone(components, k.serviceID) ==> (KeyStored(u, k) <==> Asks(components, k)))
    && (forall id :: id in u.rows && !LeftAlone(components, u.rows[id].key.serviceID) ==> AsksFor(components, u.rows[id]))
    && (forall id :: id in t.rows && Asks(components, t.rows[id].key) ==> id in u.rows && u.rows[id].key == t.rows[id].key)
  }

  lemma {:induction false} TouchedExactly(components: seq<Component>, id: string)
    ensures id in Touched(components) <==> !LeftAlone(components, id)
  {
    if components != [] {
      var n := |components| - 1;
      TouchedExactly(components[..n], id);
      assert forall i :: 0 <= i < n ==> components[..n][i] == components[i];
    }
  }

  lemma {:induction false} IncomingExactly(components: seq<Component>, v: Volume)
    ensures v in Incoming(components) <==> AsksFor(components, v)
  {
    if components != [] {
      var n := |components| - 1;
      var c := components[n];
      IncomingExactly(components[..n], v);
      AsksForSnoc(components[..n], c, components, v);
      VolumesOfExactly(c, v);
    }
  }

  lemma VolumesOfExactly(c: Component, v: Volume)
    ensures v in VolumesOf(c) <==> exists j :: 0 <= j < |c.volumes| && Lists(c, j, v)
  {
    forall j | 0 <= j < |c.volumes| ensures VolumesOf(c)[j] == v <==> Lists(c, j, v) {
    }
  }

  lemma AsksForSnoc(front: seq<Component>, c: Component, components: seq<Component>, v: Volume)
    requires |components| == |front| + 1 && components == front + [c]
    ensures AsksFor(components, v) <==>
            AsksFor(front, v) || (c.hasVolumes && exists j :: 0 <= j < |c.volumes| && Lists(c, j, v))
  {
    if AsksFor(front, v) {
      var i, j :| 0 <= i < |front| && 0 <= j < |front[i].volumes| && front[i].hasVolumes && Lists(front[i], j, v);
      assert Lists(components[i], j, v);
    }
    if c.hasVolumes {
      if j :| 0 <= j < |c.volumes| && Lists(c, j, v) {
        assert Lists(components[|front|], j, v);
      }
    }
    if AsksFor(components, v) {
      var i, j :| 0 <= i < |components| && 0 <= j < |components[i].volumes| && components[i].hasVolumes
                  && Lists(components[i], j, v);
      if i < |front| {
        assert Lists(front[i], j, v);
      }
    }
  }

  lemma KeyExactly(components: seq<Component>, k: Key)
    ensures HasKey(Incoming(components), k) <==> Asks(components, k)
  {
    if HasKey(Incoming(components), k) {
      var n :| 0 <= n < |Incoming(components)| && Incoming(components)[n].key == k;
      IncomingExactly(components, Incoming(components)[n]);
    }
    if Asks(components, k) {
      var i, j :| 0 <= i < |components| && 0 <= j < |components[i].volumes|
                  && components[i].hasVolumes && components[i].componentID == k.serviceID
                  && components[i].volumes[j].0 == k.volumeName;
      var v := Volume(k, components[i].volumes[j].1);
      assert Lists(components[i], j, v);
      IncomingExactly(components, v);
      var n :| 0 <= n < |Incoming(components)| && Incoming(components)[n] == v;
      assert Incoming(components)[n].key == k;
    }
  }

  lemma ReconciledIsFulfilled(t: Table, u: Table, components: seq<Component>)
    requires ReconciledTo(t, u, Touched(components), Incoming(components))
    ensures Fulfilled(t, u, components)
  {
    forall id ensures id in Touched(components) <==> !LeftAlone(components, id) {
      TouchedExactly(components, id);
    }
    forall k ensures HasKey(Incoming(components), k) <==> Asks(components, k) {
      KeyExactly(components, k);
    }
    forall v ensures v in Incoming(components) <==> AsksFor(components, v) {
      IncomingExactly(components, v);
    }
  }

  /** The reading half of SyncComponentVolumes: what to delete and what to save. */
  method Plan(dao: VolumeDao, components: seq<Component>)
    returns (ok: bool, deleteIDs: seq<nat>, rows: seq<Row>, ghost exist: map<Key, nat>)
    modifies dao`failures
    ensures dao.failures == old(dao.failures) + if ok then 0 else 1
    ensures ok ==> Existing(exist, dao.table, Touched(components))
    ensures ok ==> rows == ToSave(exist, Incoming(components))
    ensures ok ==> forall id: nat :: id in deleteIDs <==> Gone(exist, Incoming(components), id)
  {
    var componentIDs, models := Collect(components);
    deleteIDs, rows := [], [];
    var existing;
    ok, existing := GetExistVolumes(dao, componentIDs);
    exist := existing;
    if !ok {
      return;
    }
    deleteIDs := GetDeleteVolumeIDs(existing, models);
    GoneByModels(exist, Incoming(components), models, deleteIDs);
    rows := RowsToSave(existing, models, Incoming(components));
  }

  /** What saving sees of the incoming volume objects. */
  method RowsToSave(exist: map<Key, nat>, models: seq<VolumeModel>, ghost vs: seq<Volume>) returns (rows: seq<Row>)
    requires RowsAre(models, vs) && forall i :: 0 <= i < |models| ==> models[i].ID == 0
    modifies models
    ensures rows == ToSave(exist, vs)
  {
    var saves := GetCreateOrUpdateVolumes(exist, models);
    rows := [];
    for i := 0 to |saves|
      invariant |rows| == i && forall j :: 0 <= j < i ==> rows[j] == ToSave(exist, vs)[j]
    {
      rows := rows + [Row(saves[i].ID, saves[i].volume)];
    }
  }

  /** The touched components have exactly the incoming keys, with incoming contents, every
      surviving volume keeps its ID, and nothing of any other component has changed. */
  ghost predicate ReconciledTo(t: Table, u: Table, ids: seq<string>, vs: seq<Volume>) {
    && (forall k: Key :: k.serviceID in ids ==> (KeyStored(u, k) <==> HasKey(vs, k)))
    && (forall id :: id in u.rows && u.rows[id].key.serviceID in ids ==> u.rows[id] in vs)
    && (forall id :: id in t.rows && HasKey(vs, t.rows[id].key) ==> id in u.rows && u.rows[id].key == t.rows[id].key)
    && (forall id :: id in t.rows && t.rows[id].key.serviceID !in ids ==> id in u.rows && u.rows[id] == t.rows[id])
    && (forall id :: id in u.rows && u.rows[id].key.serviceID !in ids ==> id in t.rows && u.rows[id] == t.rows[id])
  }

  lemma PrunedBy(t: Table, u: Table, exist: map<Key, nat>, vs: seq<Volume>, ids: seq<nat>)
    requires u == t.(rows := t.rows - set id | id in ids)
    requires forall id: nat :: id in ids <==> Gone(exist, vs, id)
    ensures Pruned(t, u, exist, vs)
  {
    assert forall id :: id in u.rows <==> id in t.rows && id !in ids;
  }

  lemma GoneByModels(exist: map<Key, nat>, vs: seq<Volume>, models: seq<VolumeModel>, ids: seq<nat>)
    requires RowsAre(models, vs)
    requires forall id :: id in ids <==>
                          exists k :: k in exist && exist[k] == id && forall i :: 0 <= i < |models| ==> models[i].volume.key != k
    ensures forall id: nat :: id in ids <==> Gone(exist, vs, id)
  {
    forall k ensures HasKey(vs, k) <==> exists i :: 0 <= i < |models| && models[i].volume.key == k {
      if HasKey(vs, k) {
        var i :| 0 <= i < |vs| && vs[i].key == k;
        assert models[i].volume.key == k;
      }
      if exists i :: 0 <= i < |models| && models[i].volume.key == k {
        var i :| 0 <= i < |models| && models[i].volume.key == k;
        assert vs[i].key == k;
      }
    }
    forall id: nat ensures id in ids <==> Gone(exist, vs, id) {
      if id in ids {
        var k :| k in exist && exist[k] == id && forall i :: 0 <= i < |models| ==> models[i].volume.key != k;
        assert !HasKey(vs, k);
      }
      if Gone(exist, vs, id) {
        var k :| k in exist && exist[k] == id && !HasKey(vs, k);
        assert forall i :: 0 <= i < |models| ==> models[i].volume.key != k;
      }
    }
  }

  /** The first loop of SyncComponentVolumes. */
  method Collect(components: seq<Component>) returns (componentIDs: seq<string>, models: seq<VolumeModel>)
    ensures componentIDs == Touched(components) && RowsAre(models, Incoming(components))
    ensures forall i :: 0 <= i < |models| ==> fresh(models[i]) && models[i].ID == 0
  {
    componentIDs, models := [], [];
    for i := 0 to |components|
      invariant componentIDs == Touched(components[..i]) && RowsAre(models, Incoming(components[..i]))
      invariant forall i :: 0 <= i < |models| ==> fresh(models[i]) && models[i].ID == 0
    {
      assert components[..i + 1][..i] == components[..i];
      var c := components[i];
      if !c.hasVolumes {
        continue;
      }
      componentIDs := componentIDs + [c.componentID];
      for j := 0 to |c.volumes|
        invariant RowsAre(models, Incoming(components[..i]) + VolumesOf(c)[..j])
        invariant forall i :: 0 <= i < |models| ==> fresh(models[i]) && models[i].ID == 0
      {
        var m := new VolumeModel(Volume(Key(c.componentID, c.volumes[j].0), c.volumes[j].1));
        models := models + [m];
        TakeNext(VolumesOf(c), j);
      }
      assert VolumesOf(c)[..|c.volumes|] == VolumesOf(c);
    }
    assert components[..|components|] == components;
  }

  // ----- What a reconciliation achieves

  /** The situation after the deletions and the first n saves. */
  ghost predicate Reconciling(t: Table, u: Table, ids: seq<string>, exist: map<Key, nat>, vs: seq<Volume>, n: nat)
    requires n <= |vs|
  {
    && ValidTable(u) && u.next >= t.next
    && OthersKept(t, u, ids)
    && SurvivorsKept(u, exist, vs)
    && SavedSoFar(u, ids, exist, vs, n)
  }

  /** Rows of other components are as they were. */
  ghost predicate OthersKept(t: Table, u: Table, ids: seq<string>) {
    && (forall id :: id in t.rows && t.rows[id].key.serviceID !in ids ==> id in u.rows && u.rows[id] == t.rows[id])
    && (forall id :: id in u.rows && u.rows[id].key.serviceID !in ids ==> id in t.rows && u.rows[id] == t.rows[id])
  }

  /** Survivors keep their row. */
  ghost predicate SurvivorsKept(u: Table, exist: map<Key, nat>, vs: seq<Volume>) {
    forall k :: k in exist && HasKey(vs, k) ==> exist[k] in u.rows && u.rows[exist[k]].key == k
  }

  /** What has been saved is there, and nothing else but survivors. */
  ghost predicate SavedSoFar(u: Table, ids: seq<string>, exist: map<Key, nat>, vs: seq<Volume>, n: nat)
    requires n <= |vs|
  {
    && (forall i :: 0 <= i < n ==> KeyStored(u, vs[i].key))
    && (forall id :: id in u.rows && u.rows[id].key.serviceID in ids ==>
                       HasKey(vs, u.rows[id].key) && FromRequest(u.rows[id], exist, id, vs, n))
  }

  /** A row of a touched component was either saved, or is a survivor still waiting for it. */
  ghost predicate FromRequest(v: Volume, exist: map<Key, nat>, id: nat, vs: seq<Volume>, n: nat)
    requires n <= |vs|
  {
    && (v.key in exist ==> exist[v.key] == id)
    && (v in vs[..n] || (v.key in exist && !HasKey(vs[..n], v.key)))
  }

  ghost predicate KeyStored(u: Table, k: Key) {
    exists id :: id in u.rows && u.rows[id].key == k
  }

  /** Every incoming volume is for a touched component. */
  ghost predicate ForTouched(vs: seq<Volume>, ids: seq<string>) {
    forall i :: 0 <= i < |vs| ==> vs[i].key.serviceID in ids
  }

  lemma PrunedIsReconciling(t: Table, u: Table, ids: seq<string>, exist: map<Key, nat>, vs: seq<Volume>)
    requires ValidTable(t) && UniqueKeys(t) && Existing(exist, t, ids) && Pruned(t, u, exist, vs)
    ensures Reconciling(t, u, ids, exist, vs, 0)
  {
    forall id | id in t.rows && t.rows[id].key.serviceID !in ids ensures !Gone(exist, vs, id) {
    }
    forall k | k in exist && HasKey(vs, k) ensures !Gone(exist, vs, exist[k]) {
    }
    assert vs[..0] == [];
    forall id | id in u.rows && u.rows[id].key.serviceID in ids
      ensures HasKey(vs, u.rows[id].key) && FromRequest(u.rows[id], exist, id, vs, 0)
    {
      PrunedRow(t, u, ids, exist, vs, id);
    }
  }

  lemma PrunedRow(t: Table, u: Table, ids: seq<string>, exist: map<Key, nat>, vs: seq<Volume>, id: nat)
    requires UniqueKeys(t) && Existing(exist, t, ids) && Pruned(t, u, exist, vs)
    requires id in u.rows && u.rows[id].key.serviceID in ids
    ensures u.rows[id].key in exist && exist[u.rows[id].key] == id && HasKey(vs, u.rows[id].key)
  {
    var k := t.rows[id].key;
    assert exist[k] == id;
    assert !Gone(exist, vs, id);
  }

  /** Where a volume is saved: in its existing row, or in the next new one. */
  function RowFor(u: Table, exist: map<Key, nat>, k: Key): nat {
    if k in exist then exist[k] else u.next
  }

  lemma SavePlaces(t: Table, u: Table, ids: seq<string>, exist: map<Key, nat>, vs: seq<Volume>, n: nat)
    requires ValidTable(t) && Existing(exist, t, ids)
    requires n < |vs| && Reconciling(t, u, ids, exist, vs, n)
    ensures var k, w := vs[n].key, Save(u, Row(IdFor(exist, vs[n].key), vs[n]));
            var at := RowFor(u, exist, k);
            && ValidTable(w) && w.next >= u.next
            && w.rows == u.rows[at := vs[n]]
            && (k in exist ==> at in u.rows && u.rows[at].key == k)
            && (k !in exist ==> at !in u.rows && at !in t.rows)
  {
    assert HasKey(vs, vs[n].key);
  }

  lemma SaveStep(t: Table, u: Table, ids: seq<string>, exist: map<Key, nat>, vs: seq<Volume>, n: nat)
    requires ValidTable(t) && Existing(exist, t, ids) && ForTouched(vs, ids)
    requires n < |vs| && Reconciling(t, u, ids, exist, vs, n)
    ensures Reconciling(t, Save(u, Row(IdFor(exist, vs[n].key), vs[n])), ids, exist, vs, n + 1)
  {
    var w := Save(u, Row(IdFor(exist, vs[n].key), vs[n]));
    var at := RowFor(u, exist, vs[n].key);
    SavePlaces(t, u, ids, exist, vs, n);
    SaveKeepsOthers(t, u, w, ids, at, vs[n]);
    SaveKeepsSurvivors(u, w, exist, vs, n, at);
    SaveSaves(u, w, ids, exist, vs, n, at);
  }

  lemma SaveKeepsOthers(t: Table, u: Table, w: Table, ids: seq<string>, at: nat, v: Volume)
    requires OthersKept(t, u, ids) && w.rows == u.rows[at := v] && v.key.serviceID in ids
    requires at in u.rows ==> u.rows[at].key.serviceID in ids
    requires at !in u.rows ==> at !in t.rows
    ensures OthersKept(t, w, ids)
  {
  }

  lemma SaveKeepsSurvivors(u: Table, w: Table, exist: map<Key, nat>, vs: seq<Volume>, n: nat, at: nat)
    requires n < |vs| && SurvivorsKept(u, exist, vs) && w.rows == u.rows[at := vs[n]]
    requires at in u.rows ==> u.rows[at].key == vs[n].key
    ensures SurvivorsKept(w, exist, vs)
  {
  }

  lemma SaveSaves(u: Table, w: Table, ids: seq<string>, exist: map<Key, nat>, vs: seq<Volume>, n: nat, at: nat)
    requires n < |vs| && SavedSoFar(u, ids, exist, vs, n) && w.rows == u.rows[at := vs[n]]
    requires at in u.rows ==> u.rows[at].key == vs[n].key
    requires vs[n].key in exist ==> at == exist[vs[n].key]
    ensures SavedSoFar(w, ids, exist, vs, n + 1)
  {
    forall id | id in w.rows && w.rows[id].key.serviceID in ids
      ensures HasKey(vs, w.rows[id].key) && FromRequest(w.rows[id], exist, id, vs, n + 1)
    {
      assert vs[n].key == vs[n].key;
      FromRequestStep(w.rows[id], exist, id, vs, n, at);
    }
    forall i | 0 <= i < n + 1 ensures KeyStored(w, vs[i].key) {
      if i < n {
        assert KeyStored(u, vs[i].key);
        var id :| id in u.rows && u.rows[id].key == vs[i].key;
        assert w.rows[id].key == vs[i].key;
      } else {
        assert w.rows[at].key == vs[n].key;
      }
    }
  }

  lemma FromRequestStep(v: Volume, exist: map<Key, nat>, id: nat, vs: seq<Volume>, n: nat, at: nat)
    requires n < |vs| && (vs[n].key in exist ==> at == exist[vs[n].key])
    requires if id == at then v == vs[n] else FromRequest(v, exist, id, vs, n)
    ensures FromRequest(v, exist, id, vs, n + 1) || id == at
    ensures id == at && (v.key in exist ==> exist[v.key] == id) ==> FromRequest(v, exist, id, vs, n + 1)
  {
    TakeNext(vs, n);
    if id == at {
      assert vs[..n + 1][n] == vs[n];
    } else if v in vs[..n] {
      assert v in vs[..n + 1];
    } else {
      HasKeySnoc(vs[..n], vs[n], v.key);
    }
  }

  lemma HasKeySnoc(front: seq<Volume>, v: Volume, k: Key)
    ensures HasKey(front + [v], k) <==> HasKey(front, k) || v.key == k
  {
    var all := front + [v];
    if HasKey(front, k) {
      var i :| 0 <= i < |front| && front[i].key == k;
      assert all[i].key == k;
    }
    if v.key == k {
      assert all[|front|].key == k;
    }
  }

  lemma {:induction false} SavesReconcile(t: Table, u: Table, ids: seq<string>, exist: map<Key, nat>, vs: seq<Volume>, n: nat)
    requires ValidTable(t) && Existing(exist, t, ids) && ForTouched(vs, ids)
    requires n <= |vs| && Reconciling(t, u, ids, exist, vs, 0)
    ensures Reconciling(t, SaveAll(u, ToSave(exist, vs)[..n]), ids, exist, vs, n)
  {
    if n == 0 {
      assert SaveAll(u, ToSave(exist, vs)[..0]) == u;
    } else {
      SavesReconcile(t, u, ids, exist, vs, n - 1);
      SaveAllNext(u, exist, vs, n - 1);
      SaveStep(t, SaveAll(u, ToSave(exist, vs)[..n - 1]), ids, exist, vs, n - 1);
    }
  }

  lemma SaveAllNext(u: Table, exist: map<Key, nat>, vs: seq<Volume>, n: nat)
    requires n < |vs|
    ensures SaveAll(u, ToSave(exist, vs)[..n + 1]) ==
            Save(SaveAll(u, ToSave(exist, vs)[..n]), Row(IdFor(exist, vs[n].key), vs[n]))
  {
    var rows := ToSave(exist, vs);
    assert rows[..n + 1][..n] == rows[..n];
  }

  /** Deleting what is gone and saving what is asked for reconciles the table. */
  lemma Reconciled(t: Table, pruned: Table, ids: seq<string>, exist: map<Key, nat>, vs: seq<Volume>)
    requires ValidTable(t) && UniqueKeys(t) && Existing(exist, t, ids) && Pruned(t, pruned, exist, vs)
    requires ForTouched(vs, ids)
    ensures ReconciledTo(t, SaveAll(pruned, ToSave(exist, vs)), ids, vs)
  {
    var rows := ToSave(exist, vs);
    var u := SaveAll(pruned, rows);
    PrunedIsReconciling(t, pruned, ids, exist, vs);
    SavesReconcile(t, pruned, ids, exist, vs, |vs|);
    assert rows[..|vs|] == rows;
    assert vs[..|vs|] == vs;
    AllSaved(t, u, ids, exist, vs);
  }

  lemma AllSaved(t: Table, u: Table, ids: seq<string>, exist: map<Key, nat>, vs: seq<Volume>)
    requires UniqueKeys(t) && Existing(exist, t, ids) && ForTouched(vs, ids)
    requires Reconciling(t, u, ids, exist, vs, |vs|) && vs[..|vs|] == vs
    ensures forall k: Key :: k.serviceID in ids ==> (KeyStored(u, k) <==> HasKey(vs, k))
    ensures forall id :: id in u.rows && u.rows[id].key.serviceID in ids ==> u.rows[id] in vs
    ensures forall id :: id in t.rows && HasKey(vs, t.rows[id].key) ==> id in u.rows && u.rows[id].key == t.rows[id].key
  {
    forall k: Key | HasKey(vs, k) ensures KeyStored(u, k) {
      var i :| 0 <= i < |vs| && vs[i].key == k;
      assert KeyStored(u, vs[i].key);
    }
    forall id | id in u.rows && u.rows[id].key.serviceID in ids ensures u.rows[id] in vs {
      assert FromRequest(u.rows[id], exist, id, vs, |vs|);
    }
    forall id | id in t.rows && HasKey(vs, t.rows[id].key) ensures id in u.rows && u.rows[id].key == t.rows[id].key {
      var k := t.rows[id].key;
      var i :| 0 <= i < |vs| && vs[i].key == k;
      assert exist[k] == id;
    }
  }

  /** If an existing volume is asked for more than once, the last one asked for is stored. */
  lemma LastVolumeWins(t: Table, pruned: Table, ids: seq<string>, exist: map<Key, nat>, vs: seq<Volume>, i: nat)
    requires ValidTable(t) && Existing(exist, t, ids) && pruned.next == t.next
    requires i < |vs| && vs[i].key in exist && forall j :: i < j < |vs| ==> vs[j].key != vs[i].key
    ensures var rows := SaveAll(pruned, ToSave(exist, vs)).rows;
            exist[vs[i].key] in rows && rows[exist[vs[i].key]] == vs[i]
  {
    var rs := ToSave(exist, vs);
    forall j | i < j < |rs| ensures rs[j].id != rs[i].id {
      assert vs[j].key in exist ==> t.rows[exist[vs[j].key]].key == vs[j].key;
    }
    LastSaveWins(pruned, rs, i);
  }

  lemma {:induction false} LastSaveWins(t: Table, rs: seq<Row>, i: nat)
    requires i < |rs| && 0 < rs[i].id < t.next && forall j :: i < j < |rs| ==> rs[j].id != rs[i].id
    ensures SaveAll(t, rs).next >= t.next
    ensures rs[i].id in SaveAll(t, rs).rows && SaveAll(t, rs).rows[rs[i].id] == rs[i].volume
  {
    var n := |rs| - 1;
    NextGrows(t, rs[..n]);
    if i < n {
      LastSaveWins(t, rs[..n], i);
    }
  }

  lemma {:induction false} NextGrows(t: Table, rs: seq<Row>)
    ensures SaveAll(t, rs).next >= t.next
  {
    if rs != [] {
      NextGrows(t, rs[..|rs| - 1]);
    }
  }

  /** The table keeps its keys unique exactly when no new key occurs twice in the request. */
  lemma {:induction false} UniqueExactly(t: Table, pruned: Table, ids: seq<string>, exist: map<Key, nat>, vs: seq<Volume>, n: nat)
    requires ValidTable(t) && UniqueKeys(t) && Existing(exist, t, ids) && Pruned(t, pruned, exist, vs)
    requires ForTouched(vs, ids) && n <= |vs|
    ensures UniqueKeys(SaveAll(pruned, ToSave(exist, vs)[..n])) <==> NewKeysOnce(exist, vs[..n])
  {
    var rows := ToSave(exist, vs);
    if n == 0 {
      PrunedUnique(t, pruned, exist, vs);
    } else {
      var m := n - 1;
      UniqueExactly(t, pruned, ids, exist, vs, m);
      SaveAllNext(pruned, exist, vs, m);
      PrunedIsReconciling(t, pruned, ids, exist, vs);
      SavesReconcile(t, pruned, ids, exist, vs, m);
      UniqueStep(t, SaveAll(pruned, rows[..m]), ids, exist, vs, m);
    }
  }

  lemma PrunedUnique(t: Table, pruned: Table, exist: map<Key, nat>, vs: seq<Volume>)
    requires UniqueKeys(t) && Pruned(t, pruned, exist, vs)
    ensures UniqueKeys(pruned)
  {
  }

  lemma UniqueStep(t: Table, u: Table, ids: seq<string>, exist: map<Key, nat>, vs: seq<Volume>, m: nat)
    requires ValidTable(t) && Existing(exist, t, ids) && ForTouched(vs, ids)
    requires m < |vs| && Reconciling(t, u, ids, exist, vs, m)
    ensures var w := Save(u, Row(IdFor(exist, vs[m].key), vs[m]));
            (UniqueKeys(u) <==> NewKeysOnce(exist, vs[..m])) ==>
              (UniqueKeys(w) <==> NewKeysOnce(exist, vs[..m + 1]))
  {
    var w := Save(u, Row(IdFor(exist, vs[m].key), vs[m]));
    SavePlaces(t, u, ids, exist, vs, m);
    NewKeysNext(exist, vs, m);
    if vs[m].key in exist {
      SameKeys(u, w);
    } else {
      FreshRow(u, w, vs[m]);
      StoredIffSaved(t, u, ids, exist, vs, m);
    }
  }

  lemma NewKeysNext(exist: map<Key, nat>, vs: seq<Volume>, m: nat)
    requires m < |vs|
    ensures NewKeysOnce(exist, vs[..m + 1]) <==>
            NewKeysOnce(exist, vs[..m]) && (vs[m].key !in exist ==> !HasKey(vs[..m], vs[m].key))
  {
    TakeNext(vs, m);
    OnceStep(exist, vs[..m], vs[m]);
  }

  lemma SameKeys(u: Table, w: Table)
    requires u.rows.Keys == w.rows.Keys && forall id :: id in u.rows ==> u.rows[id].key == w.rows[id].key
    ensures UniqueKeys(u) <==> UniqueKeys(w)
  {
  }

  lemma FreshRow(u: Table, w: Table, v: Volume)
    requires u.next !in u.rows && w.rows == u.rows[u.next := v]
    ensures UniqueKeys(w) <==> UniqueKeys(u) && !KeyStored(u, v.key)
  {
    if UniqueKeys(w) {
      forall id | id in u.rows ensures u.rows[id].key != v.key {
        assert w.rows[id].key == u.rows[id].key && w.rows[u.next].key == v.key;
      }
      forall i, j | i in u.rows && j in u.rows && u.rows[i].key == u.rows[j].key ensures i == j {
        assert w.rows[i].key == w.rows[j].key;
      }
    }
  }

  lemma StoredIffSaved(t: Table, u: Table, ids: seq<string>, exist: map<Key, nat>, vs: seq<Volume>, m: nat)
    requires m < |vs| && Reconciling(t, u, ids, exist, vs, m) && ForTouched(vs, ids) && vs[m].key !in exist
    ensures KeyStored(u, vs[m].key) <==> HasKey(vs[..m], vs[m].key)
  {
    var k := vs[m].key;
    if KeyStored(u, k) {
      var id :| id in u.rows && u.rows[id].key == k;
      assert FromRequest(u.rows[id], exist, id, vs, m);
      var i :| 0 <= i < m && vs[..m][i] == u.rows[id];
      assert vs[..m][i].key == k;
    }
    if HasKey(vs[..m], k) {
      var i :| 0 <= i < m && vs[..m][i].key == k;
      assert KeyStored(u, vs[i].key);
    }
  }

  lemma OnceStep(exist: map<Key, nat>, front: seq<Volume>, v: Volume)
    ensures NewKeysOnce(exist, front + [v]) <==>
            NewKeysOnce(exist, front) && (v.key !in exist ==> !HasKey(front, v.key))
  {
    var all := front + [v];
    if NewKeysOnce(exist, all) {
      forall i, j | 0 <= i < j < |front| && front[i].key !in exist ensures front[i].key != front[j].key {
        assert all[i].key !in exist && all[j] == front[j];
      }
      if v.key !in exist {
        forall i | 0 <= i < |front| ensures front[i].key != v.key {
          assert all[i].key !in exist ==> all[i].key != all[|front|].key;
        }
      }
    }
  }

  /** No key without a stored volume occurs twice. */
  ghost predicate NewKeysOnce(exist: map<Key, nat>, vs: seq<Volume>) {
    forall i, j :: 0 <= i < j < |vs| && vs[i].key !in exist ==> vs[i].key != vs[j].key
  }

  /** The incoming volumes of a request are all for components it touches. */
  lemma {:induction false} IncomingIsForTouched(components: seq<Component>)
    ensures ForTouched(Incoming(components), Touched(components))
  {
    if components != [] {
      var n := |components| - 1;
      IncomingIsForTouched(components[..n]);
      var front, c := Incoming(components[..n]), components[n];
      if c.hasVolumes {
        assert Touched(components)[|Touched(components)| - 1] == c.componentID;
        forall i | 0 <= i < |Incoming(components)| ensures Incoming(components)[i].key.serviceID in Touched(components) {
          if i < |front| {
            assert front[i].key.serviceID in Touched(components[..n]);
          }
        }
      }
    }
  }
}
