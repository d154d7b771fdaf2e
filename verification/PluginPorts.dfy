/** Assigning plugin ports to container ports (handlePluginMappingPort in
    api/handler/service.go). */
module PluginPorts {
  import opened Seqs

  const MIN_PORT := 65301

  class BasePort {
    const port: int
    var listenPort: int

    constructor (port: int)
      ensures this.port == port
    {
      this.port, listenPort := port, 0;
    }
  }

  datatype StreamPluginPort =
    StreamPluginPort(tenantID: string, serviceID: string, pluginModel: string, containerPort: int, pluginPort: int)

  /** The port a search from `from` settles on: it moves on at most twice. */
  function Settle(taken: set<int>, from: int): int {
    var once := if from in taken then from + 1 else from;
    if once in taken then once + 1 else once
  }

  /** The i-th plugin port for the given container ports. */
  function Port(containers: set<int>, i: nat): int {
    if i == 0 then Settle(containers, MIN_PORT)
    else
      var p := Port(containers, i - 1);
      if p + 1 in containers then p + 2 else p + 1
  }

  function Containers(ports: seq<BasePort>): set<int> {
    set i | 0 <= i < |ports| :: ports[i].port
  }

  function Assigned(containers: set<int>, n: nat): set<int> {
    set i | 0 <= i < n :: Port(containers, i)
  }

  method HandlePluginMappingPort(tenantID: string, componentID: string, pluginModel: string, ports: seq<BasePort>)
    returns (newPorts: seq<StreamPluginPort>)
    modifies ports
    ensures |newPorts| == |ports| && Maps(newPorts, tenantID, componentID, pluginModel, ports, Containers(ports))
    ensures forall i :: 0 <= i < |ports| ==>
                          && newPorts[i].tenantID == tenantID && newPorts[i].serviceID == componentID
                          && newPorts[i].pluginModel == pluginModel && newPorts[i].containerPort == ports[i].port
                          && newPorts[i].pluginPort == Port(set j | 0 <= j < |ports| :: ports[j].port, i)
    ensures Distinct(ports) ==> forall i :: 0 <= i < |ports| ==> ports[i].listenPort == newPorts[i].pluginPort
  {
    var existPorts := ExistPorts(ports);
    ghost var containers := existPorts;
    var minPort := MIN_PORT;
    newPorts := [];
    for i := 0 to |ports|
      invariant |newPorts| == i && Taken(existPorts, containers, i)
      invariant minPort == if i == 0 then MIN_PORT else Port(containers, i - 1)
      invariant Maps(newPorts, tenantID, componentID, pluginModel, ports, containers)
      invariant Listening(ports, containers, i)
    {
      existPorts, minPort := AssignNext(existPorts, minPort, containers, i);
      Listen(ports, containers, i, minPort);
      MapsNext(newPorts, tenantID, componentID, pluginModel, ports, containers);
      newPorts := newPorts + [StreamPluginPort(tenantID, componentID, pluginModel, ports[i].port, minPort)];
    }
  }

  /** The first plugin ports, for their container ports. */
  ghost predicate Maps(newPorts: seq<StreamPluginPort>, tenantID: string, componentID: string, pluginModel: string,
                       ports: seq<BasePort>, containers: set<int>) {
    |newPorts| <= |ports| && forall k :: 0 <= k < |newPorts| ==>
                                           newPorts[k] == StreamPluginPort(tenantID, componentID, pluginModel, ports[k].port, Port(containers, k))
  }

  lemma MapsNext(newPorts: seq<StreamPluginPort>, tenantID: string, componentID: string, pluginModel: string,
                 ports: seq<BasePort>, containers: set<int>)
    requires |newPorts| < |ports| && Maps(newPorts, tenantID, componentID, pluginModel, ports, containers)
    ensures var i := |newPorts|;
            var next := StreamPluginPort(tenantID, componentID, pluginModel, ports[i].port, Port(containers, i));
            Maps(newPorts + [next], tenantID, componentID, pluginModel, ports, containers)
  {
  }

  /** The first i ports listen on what they were assigned, unless an object occurs twice. */
  ghost predicate Listening(ports: seq<BasePort>, containers: set<int>, i: nat)
    requires i <= |ports|
    reads ports
  {
    Distinct(ports) ==> forall k :: 0 <= k < i ==> ports[k].listenPort == Port(containers, k)
  }

  method Listen(ports: seq<BasePort>, ghost containers: set<int>, i: nat, port: int)
    requires i < |ports| && port == Port(containers, i) && Listening(ports, containers, i)
    modifies ports[i]
    ensures Listening(ports, containers, i + 1)
  {
    assert Distinct(ports) ==> forall k :: 0 <= k < i ==> ports[k] != ports[i];
    ports[i].listenPort := port;
  }

  /** The search of one turn; the port it finds is taken and becomes the new minimum. */
  method AssignNext(existPorts: set<int>, minPort: int, ghost containers: set<int>, ghost i: nat)
    returns (existPorts': set<int>, newPluginPort: int)
    requires Taken(existPorts, containers, i) && minPort == if i == 0 then MIN_PORT else Port(containers, i - 1)
    ensures Taken(existPorts', containers, i + 1) && newPluginPort == Port(containers, i)
  {
    SettlesOnNext(containers, i);
    newPluginPort := if minPort in existPorts then minPort + 1 else minPort;
    if newPluginPort in existPorts {
      newPluginPort := newPluginPort + 1;
    }
    AssignedNext(containers, i);
    existPorts' := existPorts + {newPluginPort};
  }

  /** The container ports and the plugin ports assigned so far. */
  ghost predicate Taken(existPorts: set<int>, containers: set<int>, i: nat) {
    existPorts == containers + Assigned(containers, i)
  }

  /** The container ports, as a set. */
  method ExistPorts(ports: seq<BasePort>) returns (existPorts: set<int>)
    ensures existPorts == Containers(ports)
  {
    existPorts := {};
    for i := 0 to |ports|
      invariant existPorts == set k | 0 <= k < i :: ports[k].port
    {
      existPorts := existPorts + {ports[i].port};
    }
  }

  lemma AssignedNext(containers: set<int>, i: nat)
    ensures containers + Assigned(containers, i + 1) == containers + Assigned(containers, i) + {Port(containers, i)}
  {
  }

  /** The search that also avoids the ports assigned so far finds the next port. */
  lemma SettlesOnNext(containers: set<int>, i: nat)
    ensures Settle(containers + Assigned(containers, i), if i == 0 then MIN_PORT else Port(containers, i - 1)) ==
            Port(containers, i)
  {
    if i > 0 {
      var p := Port(containers, i - 1);
      assert p in Assigned(containers, i);
      forall q | q in Assigned(containers, i) ensures q <= p {
        var k :| 0 <= k < i && Port(containers, k) == q;
        Increasing(containers, k, i - 1);
      }
    }
  }

  // ----- What the assignment guarantees

  /** Later ports are larger, by at most two per step. */
  lemma {:induction false} Increasing(containers: set<int>, i: nat, j: nat)
    requires i <= j
    ensures j - i <= Port(containers, j) - Port(containers, i) <= 2 * (j - i)
    decreases j
  {
    if i < j {
      Increasing(containers, i, j - 1);
    }
  }

  /** Plugin ports are distinct and bounded; 117 of them still fit below 65536. */
  lemma Bounded(containers: set<int>, n: nat, i: nat)
    requires i < n
    ensures MIN_PORT <= Port(containers, i) <= MIN_PORT + 2 * n
    ensures n <= 117 ==> Port(containers, i) <= 65535
    ensures forall j :: i < j < n ==> Port(containers, i) < Port(containers, j)
  {
    Increasing(containers, 0, i);
    forall j | i < j < n ensures Port(containers, i) < Port(containers, j) {
      Increasing(containers, i, j);
    }
  }

  /** How many ports from MIN_PORT up to (not including) x no container uses. */
  function Free(containers: set<int>, x: int): nat
    decreases x - MIN_PORT
  {
    if x <= MIN_PORT then 0
    else Free(containers, x - 1) + if x - 1 in containers then 0 else 1
  }

  lemma {:induction false} FreeGrows(containers: set<int>, x: int, y: int)
    requires x <= y
    ensures Free(containers, x) <= Free(containers, y)
    decreases y - x
  {
    if x < y {
      FreeGrows(containers, x, y - 1);
    }
  }

  ghost predicate CollidesBefore(containers: set<int>, n: nat) {
    exists i :: 0 <= i < n && Port(containers, i) in containers
  }

  /** Without a collision so far, the ports assigned are the least free ones. */
  lemma {:induction false} LeastFree(containers: set<int>, i: nat)
    requires !CollidesBefore(containers, i + 1)
    ensures Port(containers, i) !in containers
    ensures Free(containers, Port(containers, i)) == i && Free(containers, Port(containers, i) + 1) == i + 1
  {
    var p := Port(containers, i);
    assert p !in containers;
    if i == 0 {
      FreeAtStart(containers);
    } else {
      LeastFree(containers, i - 1);
      var q := Port(containers, i - 1);
      assert p == q + 2 ==> Free(containers, p) == Free(containers, q + 1);
    }
    assert p >= MIN_PORT by {
      Increasing(containers, 0, i);
    }
  }

  lemma FreeAtStart(containers: set<int>)
    requires Port(containers, 0) !in containers
    ensures Free(containers, Port(containers, 0)) == 0
  {
    assert Free(containers, MIN_PORT) == 0;
    assert Free(containers, MIN_PORT + 1) == if MIN_PORT in containers then 0 else 1;
  }

  /** Two container ports next to each other, above the first port, that the assignment of n
      ports reaches: fewer than n ports below them are free. */
  ghost predicate Trap(containers: set<int>, n: nat, x: int) {
    x > MIN_PORT && x in containers && x + 1 in containers && Free(containers, x) < n
  }

  /** Some plugin port equals a container port exactly when there is such a pair. */
  lemma CollisionExactly(containers: set<int>, n: nat)
    ensures CollidesBefore(containers, n) <==> exists x :: Trap(containers, n, x)
  {
    if CollidesBefore(containers, n) {
      var i :| 0 <= i < n && Port(containers, i) in containers;
      FirstCollision(containers, n, i);
    }
    if exists x :: Trap(containers, n, x) {
      var x :| Trap(containers, n, x);
      if !CollidesBefore(containers, n) {
        TrapCatches(containers, n, x);
      }
    }
  }

  /** The least such pair: the second plugin port is the second container port. */
  lemma AdjacentPortsCollide(containers: set<int>)
    requires containers == {65302, 65303}
    ensures Port(containers, 0) == 65301 && Port(containers, 1) == 65303 && Port(containers, 2) == 65304
    ensures CollidesBefore(containers, 2)
  {
    assert Port(containers, 1) in containers;
  }

  lemma {:induction false} FirstCollision(containers: set<int>, n: nat, i: nat)
    requires i < n && Port(containers, i) in containers
    ensures exists x :: Trap(containers, n, x)
  {
    if CollidesBefore(containers, i) {
      var j :| 0 <= j < i && Port(containers, j) in containers;
      FirstCollision(containers, n, j);
    } else if i == 0 {
      assert Free(containers, MIN_PORT) == 0;
      assert Trap(containers, n, MIN_PORT + 1);
    } else {
      LeastFree(containers, i - 1);
      Increasing(containers, 0, i - 1);
      assert Trap(containers, n, Port(containers, i - 1) + 1);
    }
  }

  lemma TrapCatches(containers: set<int>, n: nat, x: int)
    requires Trap(containers, n, x)
    ensures CollidesBefore(containers, n)
  {
    if !CollidesBefore(containers, n) {
      var k := Free(containers, x);
      assert !CollidesBefore(containers, k + 1);
      LeastFree(containers, k);
      var p := Port(containers, k);
      if p < x {
        FreeGrows(containers, p + 1, x);
      }
      assert p >= x + 2;
      if k > 0 {
        var q := Port(containers, k - 1);
        assert !CollidesBefore(containers, k);
        LeastFree(containers, k - 1);
        assert q >= x + 2 || q == x || q == x + 1;
        FreeGrows(containers, x, q);
      }
    }
  }
}
