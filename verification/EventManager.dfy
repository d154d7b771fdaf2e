/** The event-log client manager (event/manager.go): server handles, loggers and the
    balancing between them. Every method that takes the manager's lock is one step. */
module EventManager {
  import opened Wrappers
  import opened Seqs
  import opened RoundRobin

  /** The identity of a channel. */
  type Chan = nat

  class Logger {
    const event: string
    const createTime: int
    var sendChan: Option<Chan>

    constructor (event: string, sendChan: Option<Chan>, createTime: int)
      ensures this.event == event && this.sendChan == sendChan && this.createTime == createTime
    {
      this.event, this.sendChan, this.createTime := event, sendChan, createTime;
    }

    method SetChan(ch: Option<Chan>)
      modifies this
      ensures sendChan == ch
    {
      sendChan := ch;
    }
  }

  ghost predicate Injective(handles: map<string, Chan>) {
    forall s, t :: s in handles && t in handles && handles[s] == handles[t] ==> s == t
  }

  ghost predicate Uses(handles: map<string, Chan>, c: Chan) {
    exists s :: s in handles && handles[s] == c
  }

  /** A map of handles that only gained handles for a channel made later. */
  ghost predicate Grown(before: map<string, Chan>, after: map<string, Chan>, made: Chan) {
    && (forall s :: s in before ==> s in after && after[s] == before[s])
    && (forall s :: s in after && s !in before ==> after[s] >= made)
  }

  /** The channel of the handle of a listed server that is not abnormal. */
  ghost predicate OnHealthy(ch: Option<Chan>, handles: map<string, Chan>, servers: seq<string>, abnormal: set<string>) {
    exists s :: s in servers && s !in abnormal && s in handles && ch == Some(handles[s])
  }

  /** The channel of any handle; none exactly if there is no handle. */
  ghost predicate OnAny(ch: Option<Chan>, handles: map<string, Chan>) {
    if handles == map[] then ch == None else exists s :: s in handles && ch == Some(handles[s])
  }

  /** Handles keep their channels; and none is made unless a listed server is healthy. */
  ghost predicate Settled(before: map<string, Chan>, after: map<string, Chan>, someHealthy: bool) {
    && (forall s :: s in before ==> s in after && after[s] == before[s])
    && (!someHealthy ==> after == before)
  }

  ghost predicate PlacedAmong(ch: Option<Chan>, handles: map<string, Chan>, servers: seq<string>, abnormal: set<string>,
                              someHealthy: bool) {
    if someHealthy then OnHealthy(ch, handles, servers, abnormal) else OnAny(ch, handles)
  }

  lemma StillPlaced(ch: Option<Chan>, before: map<string, Chan>, after: map<string, Chan>, servers: seq<string>,
                    abnormal: set<string>, someHealthy: bool)
    requires Settled(before, after, someHealthy) && PlacedAmong(ch, before, servers, abnormal, someHealthy)
    ensures PlacedAmong(ch, after, servers, abnormal, someHealthy)
  {
  }

  /** Loggers that were looked at and used channel c have been placed; the others are where
      they were. */
  ghost predicate AllPlaced(was: map<string, Option<Chan>>, now: map<string, Option<Chan>>, c: Chan, keys: set<string>,
                            handles: map<string, Chan>, servers: seq<string>, abnormal: set<string>, someHealthy: bool) {
    forall e :: e in now && e in was ==>
                  if e in keys then now[e] == was[e]
                  else was[e] == Some(c) ==> PlacedAmong(now[e], handles, servers, abnormal, someHealthy)
  }

  lemma PlacedStep(was: map<string, Option<Chan>>, before: map<string, Option<Chan>>, now: map<string, Option<Chan>>,
                   c: Chan, keys: set<string>, e: string, hBefore: map<string, Chan>, hNow: map<string, Chan>,
                   servers: seq<string>, abnormal: set<string>, someHealthy: bool)
    requires AllPlaced(was, before, c, keys, hBefore, servers, abnormal, someHealthy)
    requires e in keys && e in before && e in now && now == before[e := now[e]] && Settled(hBefore, hNow, someHealthy)
    requires before[e] == Some(c) ==> PlacedAmong(now[e], hNow, servers, abnormal, someHealthy)
    ensures AllPlaced(was, now, c, keys - {e}, hNow, servers, abnormal, someHealthy)
  {
    forall f | f in now && f in was && f !in keys && was[f] == Some(c)
      ensures PlacedAmong(now[f], hNow, servers, abnormal, someHealthy)
    {
      StillPlaced(before[f], hBefore, hNow, servers, abnormal, someHealthy);
    }
  }

  /** A minute, in nanoseconds. */
  const RELEASE_AFTER := 60_000_000_000

  class Manager {
    var qos: int
    var loggers: map<string, Logger>
    /** The channel of each server's handle. */
    var handles: map<string, Chan>
    var eventServer: seq<string>
    var abnormalServer: set<string>
    /** How many channels were made so far; they are numbered. */
    var made: nat

    ghost predicate Valid()
      reads this, loggers.Values
    {
      && Int32(qos) && |eventServer| <= MAX_INT32
      && HandlesValid()
      && forall e :: e in loggers ==>
                       loggers[e].event == e && (loggers[e].sendChan.Some? ==> loggers[e].sendChan.value < made)
    }

    /** Handle channels are pairwise distinct; handles and abnormal marks are for listed servers. */
    ghost predicate HandlesValid()
      reads this
    {
      && ChannelsApart()
      && (forall s :: s in handles ==> s in eventServer)
      && (forall s :: s in abnormalServer ==> s in eventServer)
    }

    /** Handle channels are pairwise distinct, and none of them is still to be made. */
    ghost predicate ChannelsApart()
      reads this
    {
      Injective(handles) && forall s :: s in handles ==> handles[s] < made
    }

    ghost predicate SomeHealthy()
      reads this
    {
      exists i :: 0 <= i < |eventServer| && eventServer[i] !in abnormalServer
    }

    /** NewManager, followed by Start. */
    constructor (eventLogServers: seq<string>)
      requires |eventLogServers| <= MAX_INT32
      ensures Valid() && eventServer == eventLogServers && abnormalServer == {} && loggers == map[] && qos == 0
      ensures forall s :: s in handles <==> s in eventServer
    {
      qos, loggers, handles, eventServer, abnormalServer, made := 0, map[], map[], eventLogServers, {}, 0;
      new;
      for i := 0 to |eventServer|
        invariant qos == 0 && loggers == map[] && eventServer == eventLogServers && abnormalServer == {}
        invariant HandlesValid()
        invariant forall s :: s in handles <==> s in eventServer[..i]
      {
        TakeNext(eventServer, i);
        NewHandle(eventServer[i]);
      }
      assert eventServer[..|eventServer|] == eventServer;
    }

    /** `m.handles[server] = h` for a handle with a channel of its own. */
    method NewHandle(server: string)
      requires ChannelsApart()
      modifies this`handles, this`made
      ensures ChannelsApart() && handles == old(handles)[server := old(made)] && made == old(made) + 1
    {
      handles := handles[server := made];
      made := made + 1;
    }

    method UpdateEndpoints(urls: seq<string>)
      requires Valid() && |urls| <= MAX_INT32
      modifies this`handles, this`eventServer, this`abnormalServer, this`made
      ensures Valid()
      ensures urls == [] ==> handles == old(handles) && eventServer == old(eventServer)
                             && abnormalServer == old(abnormalServer)
      // A new list forgets the abnormal marks and is served by exactly one handle per
      // address; handles of addresses that stay keep their channel.
      ensures urls != [] ==>
                && abnormalServer == {} && Distinct(eventServer)
                && (forall s :: s in eventServer <==> s in urls)
                && (forall s :: s in handles <==> s in urls)
                && forall s :: s in handles && s in old(handles) ==> handles[s] == old(handles)[s]
    {
      if |urls| < 1 {
        return;
      }
      abnormalServer := {};
      AddMissing(urls);
      KeepOnly(urls);
      eventServer := Dedup(urls);
    }

    /** Makes a handle for every address that has none. */
    method AddMissing(urls: seq<string>)
      requires ChannelsApart()
      modifies this`handles, this`made
      ensures ChannelsApart() && made >= old(made)
      ensures forall s :: s in handles <==> s in old(handles) || s in urls
      ensures forall s :: s in old(handles) ==> handles[s] == old(handles)[s]
    {
      for i := 0 to |urls|
        invariant ChannelsApart() && made >= old(made)
        invariant forall s :: s in handles <==> s in old(handles) || s in urls[..i]
        invariant forall s :: s in old(handles) ==> handles[s] == old(handles)[s]
      {
        TakeNext(urls, i);
        if urls[i] !in handles {
          NewHandle(urls[i]);
        }
      }
      assert urls[..|urls|] == urls;
    }

    /** Deletes the handles of addresses that are no longer listed. */
    method KeepOnly(urls: seq<string>)
      requires ChannelsApart()
      modifies this`handles
      ensures ChannelsApart()
      ensures forall s :: s in handles <==> s in old(handles) && s in urls
      ensures forall s :: s in handles ==> handles[s] == old(handles)[s]
    {
      var keys := handles.Keys;
      while keys != {}
        invariant ChannelsApart() && keys <= handles.Keys <= old(handles).Keys
        invariant forall s :: s in handles && s !in keys ==> s in urls
        invariant forall s :: s in old(handles) && s in urls ==> s in handles
        invariant forall s :: s in handles ==> handles[s] == old(handles)[s]
        decreases keys
      {
        var k := AnyOf(keys);
        keys := keys - {k};
        if k !in urls {
          handles := handles - {k};
        }
      }
    }

    method GetLogger(eventID: string, now: int) returns (l: Option<Logger>)
      requires Valid()
      modifies this
      ensures eventServer == old(eventServer) && abnormalServer == old(abnormalServer)
      // None stands for a crash of the server scan.
      ensures l.None? <==> EventName(eventID) !in old(loggers) && Crashes(old(qos))
      ensures l.None? ==> qos <= 0
      ensures l.Some? ==>
                && Valid()
                && l.value.event == EventName(eventID)
                && loggers == old(loggers)[EventName(eventID) := l.value]
                && (EventName(eventID) in old(loggers) ==> l.value == old(loggers)[EventName(eventID)])
                && (EventName(eventID) !in old(loggers) ==> fresh(l.value))
      // Different events get different loggers; only the blank one is "system".
      ensures l.Some? ==> l.value.event == if eventID == "" || eventID == " " then "system" else eventID
      ensures EventName(eventID) in old(loggers) ==> qos == old(qos) && handles == old(handles)
      ensures l.Some? && EventName(eventID) !in old(loggers) ==>
                && l.value.createTime == now
                && qos == Wrap32(old(qos) + if Steps(old(qos)) < |eventServer| then Steps(old(qos)) + 1 else |eventServer|)
      ensures Grown(old(handles), handles, old(made))
      // A new logger starts on the channel of the server the scan stops at; if the scan finds
      // none, on that of any handle, and on none only if there is no handle.
      ensures l.Some? && EventName(eventID) !in old(loggers) && Steps(old(qos)) == |eventServer| ==>
                && (l.value.sendChan.None? <==> handles == map[])
                && (l.value.sendChan.Some? ==> Uses(handles, l.value.sendChan.value))
      ensures l.Some? && EventName(eventID) !in old(loggers) ==>
                forall s :: StopsAtServer(old(qos), s) ==>
                              s !in abnormalServer && s in handles && l.value.sendChan == Some(handles[s])
    {
      var id := EventName(eventID);
      if id in loggers {
        return Some(loggers[id]);
      }
      var ch, crashed := GetLBChan();
      if crashed {
        return None;
      }
      var created := new Logger(id, ch, now);
      loggers := loggers[id := created];
      l := Some(created);
    }

    method ReleaseLogger(event: string)
      requires Valid()
      modifies this`loggers
      ensures Valid() && loggers == old(loggers) - {event}
    {
      if event in loggers {
        loggers := loggers - {event};
      }
    }

    /** One run of the collector: it releases the loggers that are older than a minute. */
    method GC(now: int)
      requires Valid()
      modifies this`loggers
      ensures Valid()
      ensures loggers == map e | e in old(loggers) && old(loggers)[e].createTime + 60_000_000_000 >= now :: old(loggers)[e]
    {
      var keys := loggers.Keys;
      while keys != {}
        invariant keys <= loggers.Keys <= old(loggers).Keys
        invariant forall e :: e in loggers ==> loggers[e] == old(loggers)[e]
        invariant forall e :: e in old(loggers) && e !in keys ==>
                                (e in loggers <==> old(loggers)[e].createTime + RELEASE_AFTER >= now)
        decreases keys
      {
        var k := AnyOf(keys);
        keys := keys - {k};
        if loggers[k].createTime + RELEASE_AFTER < now {
          loggers := loggers - {k};
        }
      }
    }

    method RemoveHandle(server: string)
      requires Valid()
      modifies this`handles
      ensures Valid() && handles == old(handles) - {server}
    {
      if server in handles {
        handles := handles - {server};
      }
    }

    /** The loop of getLBChan: the step at which the scan ends, and the index it read there. */
    method Scan() returns (k: nat, index: int)
      requires Int32(qos) && |eventServer| <= MAX_INT32
      modifies this`qos
      ensures Int32(qos)
      ensures k == Steps(old(qos)) && qos == Wrap32(old(qos) + if k < |eventServer| then k + 1 else k)
      ensures k < |eventServer| ==> index == Index(old(qos), k, |eventServer|)
    {
      k, index := 0, 0;
      while k < |eventServer|
        invariant 0 <= k <= |eventServer| && qos == Wrap32(old(qos) + k)
        invariant eventServer != [] ==> Steps(old(qos)) == Stop(eventServer, abnormalServer, old(qos), k)
      {
        index := GoMod(qos, |eventServer|);
        assert index == Index(old(qos), k, |eventServer|);
        GoModRange(qos, |eventServer|);
        qos := if qos == MAX_INT32 then -MAX_INT32 - 1 else qos + 1;
        if index < 0 || eventServer[index] !in abnormalServer {
          return;
        }
        k := k + 1;
      }
    }

    /** How many steps a scan from counter q goes before it stops. */
    ghost function Steps(q: int): nat
      reads this
    {
      if eventServer == [] then 0 else Stop(eventServer, abnormalServer, q, 0)
    }

    /** The server a scan from counter q stops at, if it stops at one. */
    ghost predicate StopsAtServer(q: int, server: string)
      reads this
    {
      var n, k := |eventServer|, Steps(q);
      k < n && 0 <= Index(q, k, n) < n && server == eventServer[Index(q, k, n)]
    }

    /** A scan from q runs into a negative index. */
    ghost predicate Crashes(q: int)
      reads this
    {
      Steps(q) < |eventServer| && Index(q, Steps(q), |eventServer|) < 0
    }

    /** The channel of the first healthy server in cyclic order, making its handle if need
        be; if the scan finds none, the channel of any handle, or none at all. A scan that
        indexes below zero crashes. */
    method GetLBChan() returns (ch: Option<Chan>, crashed: bool)
      requires HandlesValid() && Int32(qos) && |eventServer| <= MAX_INT32
      modifies this`qos, this`handles, this`made
      ensures HandlesValid() && Int32(qos) && made >= old(made) && Grown(old(handles), handles, old(made))
      ensures (crashed <==> Crashes(old(qos))) && (crashed ==> qos <= 0)
      ensures !crashed ==>
                qos == Wrap32(old(qos) + if Steps(old(qos)) < |eventServer| then Steps(old(qos)) + 1 else |eventServer|)
      ensures forall s :: StopsAtServer(old(qos), s) ==>
                            && s !in abnormalServer && s in handles && ch == Some(handles[s])
                            && handles == if s in old(handles) then old(handles) else old(handles)[s := old(made)]
      ensures Steps(old(qos)) == |eventServer| ==>
                && handles == old(handles)
                && (ch.None? <==> handles == map[]) && (ch.Some? ==> Uses(handles, ch.value))
      ensures ch.Some? ==> ch.value < made
    {
      var k, index := Scan();
      if k < |eventServer| {
        if index < 0 {
          return None, true;
        }
        GoModRange(Wrap32(old(qos) + k), |eventServer|);
        var server := eventServer[index];
        if server !in handles {
          NewHandle(server);
        }
        return Some(handles[server]), false;
      }
      crashed := false;
      if handles == map[] {
        ch := None;
      } else {
        var any := AnyOf(handles.Keys);
        assert any in handles;
        ch := Some(handles[any]);
      }
    }

    /** A scan that does not crash stops at a server, unless no listed server is healthy. */
    lemma ScanOutcome(q: int)
      requires Int32(q) && |eventServer| <= MAX_INT32 && !Crashes(q)
      ensures (exists s :: StopsAtServer(q, s)) || (Steps(q) == |eventServer| && !SomeHealthy())
    {
      var n, k := |eventServer|, Steps(q);
      if k < n {
        GoModRange(Wrap32(q + k), n);
        assert StopsAtServer(q, eventServer[Index(q, k, n)]);
      } else if n > 0 {
        forall j: nat | j < n ensures Index(q, j, n) >= 0 {
          assert !StopsAt(eventServer, abnormalServer, q, j);
        }
        ScanFinds(q);
      }
    }

    /** `m.abnormalServer[k] = k` for every server whose handle uses the channel. */
    method MarkAbnormal(cacheChan: Chan)
      requires HandlesValid()
      modifies this`abnormalServer
      ensures HandlesValid()
      ensures forall s :: s in abnormalServer <==> s in old(abnormalServer) || (s in handles && handles[s] == cacheChan)
    {
      var keys := handles.Keys;
      while keys != {}
        invariant keys <= handles.Keys
        invariant forall s :: s in abnormalServer <==>
                              s in old(abnormalServer) || (s in handles && s !in keys && handles[s] == cacheChan)
        decreases keys
      {
        var k := AnyOf(keys);
        keys := keys - {k};
        if handles[k] == cacheChan {
          abnormalServer := abnormalServer + {k};
        }
      }
    }

    /** Every handle that uses the channel belongs to a server marked abnormal. */
    ghost predicate Marked(c: Chan)
      reads this
    {
      c < made && forall s :: s in handles && handles[s] == c ==> s in abnormalServer
    }

    /** A replacement for channel c: c itself is only possible when c has a handle and no
        listed server is healthy. */
    method Replacement(c: Chan, ghost scans: nat) returns (ch: Option<Chan>, crashed: bool)
      requires Valid() && Marked(c) && scans > 0
      modifies this`qos, this`handles, this`made
      ensures Valid() && Marked(c) && made >= old(made) && Chans() == old(Chans())
      ensures Avoidable(c) == old(Avoidable(c))
      ensures !crashed && ch == Some(c) ==> !Avoidable(c)
      ensures !crashed ==> Placed(ch)
      ensures !crashed ==> Settled(old(handles), handles, SomeHealthy())
      ensures ch.Some? ==> ch.value < made
      ensures crashed ==> qos <= 0
      ensures Room(old(qos), scans) ==> !crashed && Room(qos, scans - 1)
    {
      ghost var before := qos;
      ch, crashed := GetLBChan();
      if !crashed {
        ScanOutcome(before);
        if server :| StopsAtServer(before, server) {
          assert server in eventServer && ch == Some(handles[server]);
        }
      }
      if Room(before, scans) {
        RoomLeft(before, before, scans);
        ScansFit(before);
        RoomLeft(before, qos, scans);
      }
    }

    /** Where a logger goes: to the channel of a healthy server if one is listed, otherwise to
        that of any handle, and nowhere if there is none. */
    ghost predicate Placed(ch: Option<Chan>)
      reads this
    {
      PlacedAmong(ch, handles, eventServer, abnormalServer, SomeHealthy())
    }

    /** That many scans from counter q do not overflow it. */
    ghost predicate Room(q: int, scans: nat)
      reads this
    {
      0 <= q && q + AllSteps(scans, |eventServer|) <= MAX_INT32
    }

    lemma RoomForAll()
      ensures 0 <= qos && qos + |loggers| * |eventServer| <= MAX_INT32 <==> Room(qos, |loggers|)
    {
      AllStepsIs(|loggers|, |eventServer|);
    }

    lemma ScansFit(q: int)
      requires Room(q, 1)
      ensures !Crashes(q)
    {
      if eventServer != [] {
        CrashFreeExactly(q, |eventServer|);
      }
      ScanFinds(q);
    }

    lemma RoomLeft(q: int, next: int, scans: nat)
      requires scans > 0 && Room(q, scans) && q <= next <= q + |eventServer|
      ensures Room(q, 1) && Room(next, scans - 1)
    {
    }

    /** A handle that cannot reach its server gives its loggers away. */
    method DiscardedLoggerChan(cacheChan: Chan) returns (crashed: bool)
      requires Valid() && cacheChan < made
      modifies this, loggers.Values
      ensures eventServer == old(eventServer) && loggers == old(loggers)
      ensures forall s :: s in abnormalServer <==>
                          s in old(abnormalServer) || (s in old(handles) && old(handles)[s] == cacheChan)
      ensures !crashed ==> Valid()
      // A crash takes a counter that overflows during the scans, at most one for each logger.
      ensures crashed ==> qos <= 0
      ensures 0 <= old(qos) && old(qos) + |loggers| * |eventServer| <= MAX_INT32 ==> !crashed
      // No logger is left on the channel, as long as some listed server is not abnormal or
      // the channel belongs to no handle.
      ensures !crashed && (SomeHealthy() || !Uses(old(handles), cacheChan)) ==>
                forall e :: e in loggers ==> loggers[e].sendChan != Some(cacheChan)
      // Its loggers go to the channel of a healthy server, if one is listed; otherwise to that
      // of any handle, and to none only if there is no handle.
      ensures !crashed && SomeHealthy() ==>
                forall e :: e in loggers && old(loggers[e].sendChan) == Some(cacheChan) ==>
                              OnHealthy(loggers[e].sendChan, handles, eventServer, abnormalServer)
      ensures !crashed && !SomeHealthy() ==>
                forall e :: e in loggers && old(loggers[e].sendChan) == Some(cacheChan) ==>
                              OnAny(loggers[e].sendChan, handles)
      // Handles keep their channels.
      ensures !crashed ==> Settled(old(handles), handles, SomeHealthy())
      // Loggers on other channels keep them.
      ensures forall e :: e in loggers && old(loggers[e].sendChan) != Some(cacheChan) ==>
                            loggers[e].sendChan == old(loggers[e].sendChan)
    {
      MarkAbnormal(cacheChan);
      RoomForAll();
      ghost var was := Chans();
      crashed := RehomeLoggers(cacheChan);
      assert forall e :: e in loggers ==> Chans()[e] == loggers[e].sendChan;
    }

    /** The channel of each logger. */
    ghost function Chans(): (chans: map<string, Option<Chan>>)
      reads this, loggers.Values
      ensures chans.Keys == loggers.Keys
    {
      map e | e in loggers :: loggers[e].sendChan
    }

    /** No replacement for channel c can be c itself. */
    ghost predicate Avoidable(c: Chan)
      reads this
    {
      SomeHealthy() || !Uses(handles, c)
    }

    /** Gives every logger on the channel another one. */
    method RehomeLoggers(cacheChan: Chan) returns (crashed: bool)
      requires Valid() && Marked(cacheChan)
      modifies this`qos, this`handles, this`made, loggers.Values
      ensures if crashed then qos <= 0 else Valid()
      ensures Room(old(qos), |loggers|) ==> !crashed
      ensures AllMoved(old(Chans()), Chans(), cacheChan, {}, !crashed && old(Avoidable(cacheChan)))
      ensures !crashed ==> LoggersPlaced(old(Chans()), cacheChan, {})
      ensures !crashed ==> Settled(old(handles), handles, SomeHealthy())
    {
      ghost var avoid, was := Avoidable(cacheChan), Chans();
      ghost var room := Room(qos, |loggers|);
      var keys := loggers.Keys;
      assert |keys| == |loggers|;
      while keys != {}
        invariant Rehoming(cacheChan, keys, was, avoid, room) && Settled(old(handles), handles, SomeHealthy())
        decreases keys
      {
        keys, crashed := RehomeNext(cacheChan, keys, was, avoid, room);
        if crashed {
          return;
        }
      }
      return false;
    }

    ghost predicate LoggersPlaced(was: map<string, Option<Chan>>, c: Chan, keys: set<string>)
      reads this, loggers.Values
    {
      AllPlaced(was, Chans(), c, keys, handles, eventServer, abnormalServer, SomeHealthy())
    }

    /** Some loggers still have to be looked at. */
    ghost predicate Rehoming(c: Chan, keys: set<string>, was: map<string, Option<Chan>>, avoid: bool, room: bool)
      reads this, loggers.Values
    {
      && Valid() && Marked(c) && keys <= loggers.Keys
      && avoid == Avoidable(c)
      && AllMoved(was, Chans(), c, keys, avoid)
      && LoggersPlaced(was, c, keys)
      && (room ==> Room(qos, |keys|))
    }

    method RehomeNext(cacheChan: Chan, keys: set<string>, ghost was: map<string, Option<Chan>>, ghost avoid: bool,
                      ghost room: bool)
      returns (keys': set<string>, crashed: bool)
      requires keys != {} && Rehoming(cacheChan, keys, was, avoid, room)
      modifies this`qos, this`handles, this`made, loggers.Values
      ensures keys' < keys
      ensures !crashed ==> Rehoming(cacheChan, keys', was, avoid, room)
      ensures !crashed ==> Settled(old(handles), handles, old(SomeHealthy())) && SomeHealthy() == old(SomeHealthy())
      ensures crashed ==> qos <= 0 && !room && AllMoved(was, Chans(), cacheChan, {}, false)
    {
      var e := AnyOf(keys);
      ghost var chans, before := Chans(), handles;
      crashed := Rehome(e, cacheChan, |keys|);
      if !crashed {
        PlacedStep(was, chans, Chans(), cacheChan, keys, e, before, handles, eventServer, abnormalServer, SomeHealthy());
      }
      MovedStep(was, chans, Chans(), cacheChan, keys, avoid, crashed, e);
      keys' := keys - {e};
      assert |keys'| == |keys| - 1;
    }

    method SetLoggerChan(e: string, ch: Option<Chan>)
      requires Valid() && e in loggers && (ch.Some? ==> ch.value < made)
      modifies loggers[e]
      ensures Valid() && loggers[e].sendChan == ch && Chans() == old(Chans())[e := ch]
    {
      loggers[e].SetChan(ch);
    }

    /** Gives one logger another channel if it uses the discarded one. */
    method Rehome(e: string, cacheChan: Chan, ghost scans: nat) returns (crashed: bool)
      requires Valid() && Marked(cacheChan) && e in loggers && scans > 0
      modifies this`qos, this`handles, this`made, loggers[e]
      ensures !crashed ==> Valid() && Marked(cacheChan)
      ensures Avoidable(cacheChan) == old(Avoidable(cacheChan))
      ensures Chans() == old(Chans())[e := loggers[e].sendChan]
      ensures !crashed && Avoidable(cacheChan) ==> loggers[e].sendChan != Some(cacheChan)
      ensures old(loggers[e].sendChan) != Some(cacheChan) || crashed ==> loggers[e].sendChan == old(loggers[e].sendChan)
      ensures crashed ==> qos <= 0
      ensures Room(old(qos), scans) ==> !crashed && Room(qos, scans - 1)
      ensures !crashed && old(loggers[e].sendChan) == Some(cacheChan) ==> Placed(loggers[e].sendChan)
      ensures !crashed ==> Settled(old(handles), handles, SomeHealthy())
    {
      crashed := false;
      if loggers[e].sendChan == Some(cacheChan) {
        var ch;
        ch, crashed := Replacement(cacheChan, scans);
        if crashed {
          return;
        }
        SetLoggerChan(e, ch);
      } else if Room(qos, scans) {
        RoomLeft(qos, qos, scans);
      }
    }

    /** Below overflow it stops at the first healthy server from the counter on, in list order. */
    lemma ScanInOrder(q: nat) returns (k: nat)
      requires q + |eventServer| - 1 <= 2147483647 && SomeHealthy()
      ensures k < |eventServer| && LeadsFirst(Turn(eventServer, abnormalServer), q, k)
      ensures StopsAtServer(q, eventServer[Turn(eventServer, abnormalServer)(q + k).value])
    {
      var p :| 0 <= p < |eventServer| && eventServer[p] !in abnormalServer;
      k := FirstInCyclicOrder(eventServer, abnormalServer, q, p);
    }

    /** A scan that cannot crash finds a healthy server whenever one is listed. */
    lemma ScanFinds(q: int)
      requires Int32(q) && |eventServer| <= MAX_INT32
      requires eventServer != [] ==> CrashFree(q, |eventServer|)
      ensures !Crashes(q)
      ensures SomeHealthy() ==> exists s :: StopsAtServer(q, s) && s !in abnormalServer
    {
      if SomeHealthy() {
        var p :| 0 <= p < |eventServer| && eventServer[p] !in abnormalServer;
        FindsFirstHealthy(eventServer, abnormalServer, q, p);
        assert StopsAtServer(q, eventServer[Index(q, Steps(q), |eventServer|)]);
      }
    }
  }

  /** Loggers that did not use channel c keep theirs, and once c is to be avoided no logger
      that was looked at is left on it. */
  ghost predicate AllMoved(was: map<string, Option<Chan>>, now: map<string, Option<Chan>>, c: Chan, keys: set<string>, avoid: bool)
  {
    && was.Keys == now.Keys
    && forall e :: e in was ==>
                     (was[e] != Some(c) ==> now[e] == was[e]) && (avoid && e !in keys ==> now[e] != Some(c))
  }

  lemma MovedStep(was: map<string, Option<Chan>>, before: map<string, Option<Chan>>, now: map<string, Option<Chan>>,
                  c: Chan, keys: set<string>, avoid: bool, crashed: bool, e: string)
    requires AllMoved(was, before, c, keys, avoid) && e in keys && e in before && e in now
    requires now == before[e := now[e]] && (before[e] != Some(c) || crashed ==> now[e] == before[e])
    requires !crashed && avoid ==> now[e] != Some(c)
    ensures AllMoved(was, now, c, keys - {e}, avoid && !crashed)
    ensures crashed ==> AllMoved(was, now, c, {}, false)
  {
  }

  /** How many steps a number of scans over n servers take at most. */
  function AllSteps(scans: nat, n: nat): nat
  {
    if scans == 0 then 0 else n + AllSteps(scans - 1, n)
  }

  lemma {:induction false} AllStepsIs(scans: nat, n: nat)
    ensures AllSteps(scans, n) == scans * n
  {
    if scans > 0 {
      AllStepsIs(scans - 1, n);
      OneMore(scans - 1, n);
    }
  }

  function EventName(eventID: string): string {
    if eventID == " " || |eventID| == 0 then "system" else eventID
  }

  /** The distinct members of a list, as ranging over a map of them gives (in some order). */
  method Dedup(urls: seq<string>) returns (r: seq<string>)
    ensures Distinct(r) && |r| <= |urls| && forall s :: s in r <==> s in urls
  {
    r := [];
    for i := 0 to |urls|
      invariant Distinct(r) && |r| <= i && forall s :: s in r <==> s in urls[..i]
    {
      TakeNext(urls, i);
      if urls[i] !in r {
        r := r + [urls[i]];
      }
    }
    assert urls[..|urls|] == urls;
  }
}
