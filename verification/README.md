# Verified models of Kato's stateful cores

This project models, in Dafny, seven parts of Kato whose correctness does not show in any
single branch, and proves what they promise over every input or every run.

| part | modules |
|---|---|
| the log-stream demultiplexer | `Frames`, `StdCopy` |
| start-up sequencing and memory admission of a batch | `ServiceDependency`, `Admission` |
| the event-log client: server scan, failover, line-buffering writer | `RoundRobin`, `EventManager`, `LogWriter` |
| the gateway port allocator and its timed locks | `GatewayPorts` |
| both discovery clients and the lease keepalive | `EndpointCache`, `Mirror`, `DiscoverV1`, `DiscoverV2`, `Lease` |
| volume reconciliation and plugin ports | `Volumes`, `PluginPorts` |
| the hosts-file editor | `HostsLines`, `HostsFile` |

`Seqs` and `Wrappers` hold the few facts and types that several of them share. Check the
whole project with `dafny verify dfyconfig.toml`.

Objects the program updates in place are classes; loops that update variables are loops with
invariants. Where a class relies on a function of values for its specification (`Cut`,
`Choose`, `Apply`, `Fire`, `SaveAll`, ...), the lemmas beside it say what that function is
worth without repeating it.

## Where the code differs from what its words or names suggest

The models follow the code. Each point is proved where named.

- `serviceStartupSequence` says that of interdependent services one dependency is ignored.
  Of two services that depend on each other both edges are dropped (`LaunchedIsSafe`), and a
  cycle of three services can survive whole (`ThreeCycleSurvives`), or be broken
  (`LoneThreeCycleBreaks`), depending on where it is entered. The result is certainly acyclic
  if nothing but self-dependencies and mutual ones made the relation cyclic
  (`LaunchedIsAcyclic`). A dependency on no cycle can be lost too, if only a cycle that no
  head node reaches leads to it (`UnreachedEdgeIsLost`). `LaunchedExactly` says what is kept.
- `headNodes` says a further head is picked only if there is none. It always adds the first
  service that has dependencies (`HeadNodes`).
- `selectAvailablePort` can report that no port is left while one is free
  (`DuplicatesHideFreePorts`; `ZeroExactly` says when), and it can hand out a port above the
  configured maximum (`StrayLeavesRange`; `LeavesRangeExactly` says when), because its
  fallback scan compares with the maximum only after the last used port.
- `getLBChan` counts calls in 32 bits. `CrashFreeExactly` says from which counters a scan
  cannot index below zero, and `OverflowCrashes` gives a counter from which it does.
- A build-progress writer means to send the last progress line of a run before the line that
  ends the run. Of a run it sends exactly the first line (`FirstOfRunOnly`), so the last one
  only if the run has length one; and it sends the line that ends the run twice, the first
  time with the last progress line as its step label (`SentExactly`, `LastProgressUnsent`).
  `FaithfulExactly` says when every line is sent once.
- `Cleanup` has a case for a section that ends the file; the index it tests can never reach
  that value, and the general case already covers such a section.
- `handlePluginMappingPort` looks at two ports only, so it may assign a container's port
  (`AdjacentPortsCollide`; `CollisionExactly` says when).
- The first discovery client means to set up a failed watch again, but it skips every event
  without a key-value pair, and the watcher reports its failures as such events. When the
  watcher then closes the channel the loop ends, and the project stays registered without a
  watch (`FailuresGoUnnoticed`).
- A server that goes while the second discovery client is not watching stays published,
  however often the servers are listed again (`UnseenRemovalStaysPublished`). One that is
  first put after a listing but before its watch opens stays unknown until the next listing,
  even if the watch reports later values (`EventEffect`, `CacheIsLastSeen`).
- `Cleanup` after `AddLines` removes an older complete section instead, if there is one
  (`OldSectionGoesFirst`). The file is the same again only if the section added is the one
  that goes, or makes up for it, as when a file that ends with a section gets it once more
  (`SameSectionRestores`). `CleanupUndoesExactly` covers every file.
- Losing one renewal always costs the registration (`OneLostRenewalLapses`), because the lease
  outlives the timer period by three seconds only.

## Assumptions about the surroundings

- A reader may split its bytes anyhow, deliver finitely many empty reads, and end in EOF or in
  an error, together with the last bytes or alone. A writer may fail or write short at any
  call.
- Every method that holds a lock, and every call of the unlocked port allocator, is one step.
  Clocks never go back.
- The relation query returns the rows whose service is in the list. The volume DAO lists by
  component, deletes by ID, and saves by ID with a new ID for 0; a call that fails changes nothing.
- A watch is gap-free once it is open; before that, and between the sessions of the second
  discovery client, writes go unseen. A put under a new lease leaves the old lease.
- `net.ParseIP` and `strconv.Atoi` are parameters. Channels are identities.
- Map iteration order is arbitrary: results are stated as sets, or for every order.

## Model

| member | source | states |
|---|---|---|
| Frames.CutMux | util/copyio.go:90-157 | decoding any multiplexed list of valid frames, followed by any undeliverable bytes, gives back exactly those frames and bytes |
| Frames.MuxCut | util/copyio.go:74-158 | decoding loses, moves and invents no byte: multiplexing what was decoded and appending the remainder is the stream |
| Frames.CutCharacterised | util/copyio.go:74-158 | the decoding of a stream is the only split into valid frames and an undeliverable remainder |
| Frames.PayloadsSplit | util/copyio.go:92-108 | each payload byte of a valid list goes to exactly one of stdout and stderr |
| Frames.WireFormat | util/copyio.go:90-115 | a frame is its kind, three bytes, its length with the highest byte first, and the payload |
| StdCopy.StdCopy | util/copyio.go:63-159 | for every stream, split, writer and reader behaviour: sinks only ever extend by a prefix of their share; a writer's error is returned exactly when it returned that error, a short write exactly when one wrote short without an error, both with count 0; a read error is passed on with count 0, after every whole frame unless it comes with the last bytes; any other return has the reference decoder's payloads, count and error |
| StdCopy.CopyFrame | util/copyio.go:73-158 | one turn keeps the decoder in step: either it stops as promised, or the delivered frames, the sinks and buffer plus unread bytes again make up the stream, and at least one frame shorter |
| StdCopy.FetchFrame | util/copyio.go:75-134 | what is buffered plus what is unread never changes while a header and a frame are read, every read gets room, and it stops early only on a truncated tail, an unknown kind or a read error |
| StdCopy.DeliverFrame | util/copyio.go:142-157 | after a full write the sink of the frame's kind holds its payload and the buffer starts with the bytes after the frame |
| StdCopy.ShiftLeft | util/copyio.go:155 | the bytes from k on move to the front, in place |
| StdCopy.RoundTrip | util/copyio.go:55-159 | from a stream of valid frames cut off anywhere inside a further one, however it is split, each sink receives in order exactly the payloads meant for it, with no error and the count of all of them, unless a sink fails |
| StdCopy.ErrorFrameReturned | util/copyio.go:136-140 | frames followed by a complete error frame return its message and the count so far |
| StdCopy.UnknownKindReturned | util/copyio.go:90-113 | frames followed by a header of an unknown kind return that kind and count nothing |
| ServiceDependency.ServiceDependency.constructor | api/handler/service_batch_operation.go:309-327 | the two adjacency maps list, in order, exactly the dependencies and the users of each service |
| ServiceDependency.ListedInOrder | api/handler/service_batch_operation.go:318-325 | dependencies and users are listed in the order of the relations |
| ServiceDependency.ServiceDependency.BuildLinkListByHead | api/handler/service_batch_operation.go:394-433 | terminates on every graph and returns exactly the unprunable extensions of the list at which the search stops |
| ServiceDependency.ServiceDependency.ChildInLinkedList | api/handler/service_batch_operation.go:435-448 | true exactly when some dependency of the service is in the list |
| ServiceDependency.ServiceDependency.HeadNodes | api/handler/service_batch_operation.go:362-386 | the services nobody depends on, and the first service that has dependencies |
| ServiceDependency.ServiceDependency.HeadsExactly | api/handler/service_batch_operation.go:362-386 | the heads are the listed services nobody depends on and, always, the first listed service that depends on another |
| ServiceDependency.ServiceDependency.FirstServiceStarts | api/handler/service_batch_operation.go:374-383 | the dependencies of the first service that has any are kept, unless on itself or mutual, whether or not some service has no users |
| ServiceDependency.ServiceDependency.StartsBesideLoneService | api/handler/service_batch_operation.go:362-386 | of a three-cycle beside a lone service the first edge is kept |
| ServiceDependency.ServiceDependency.ServiceStartupSequence | api/handler/service_batch_operation.go:330-359 | keeps exactly the edges that lie on a list emitted from a head node, each once; the result is acyclic if the relation without self-dependencies and mutual ones is |
| ServiceDependency.ServiceDependency.EmittedPathsAreSafe | api/handler/service_batch_operation.go:394-461 | on any graph an emitted list is a dependency path without repetition and without a dependency from a later to an earlier node |
| ServiceDependency.ServiceDependency.LaunchedIsSafe | api/handler/service_batch_operation.go:330-359 | only relations are kept, no self-dependency, and neither edge of a mutual dependency |
| ServiceDependency.ServiceDependency.LaunchedExactly | api/handler/service_batch_operation.go:330-448 | an edge is kept exactly when a head node reaches it by a dependency path without repetition and without a dependency from a later to an earlier service |
| ServiceDependency.ServiceDependency.KeptUnlessCyclesLeadThere | api/handler/service_batch_operation.go:330-448 | a dependency is kept if no walk that ends with its target meets a service twice, whatever cycles there are elsewhere |
| ServiceDependency.ServiceDependency.AcyclicKeepsEverything | api/handler/service_batch_operation.go:330-448 | if the relation is acyclic the result is exactly the relation: every edge is reached from a head node and nothing is pruned |
| ServiceDependency.ServiceDependency.UnreachedEdgeIsLost | api/handler/service_batch_operation.go:362-386 | a dependency on no cycle is lost when it hangs on a cycle that no head node reaches |
| ServiceDependency.ServiceDependency.LaunchedIsAcyclic | api/handler/service_batch_operation.go:330-448 | any graph of kept edges is acyclic if the relation without self-dependencies and mutual ones is |
| ServiceDependency.ServiceDependency.ThreeCycleSurvives | api/handler/service_batch_operation.go:329-359 | a three-cycle that one head enters at three places is kept whole, so the result may be cyclic |
| ServiceDependency.ServiceDependency.LoneThreeCycleBreaks | api/handler/service_batch_operation.go:362-448 | of a three-cycle without other services only one edge is kept, so the condition for an acyclic result is not necessary |
| Admission.AllocMemory.constructor | api/handler/service_batch_operation.go:507-526 | the two lists, the failure items and the remainder are those of the greedy decisions, in input order |
| Admission.AllocMemory.Check | api/handler/service_batch_operation.go:559-575 | admits exactly a known component whose memory times replicas fits, and takes it off the remainder only then |
| Admission.AllocMemory.Lists | api/handler/service_batch_operation.go:511-524 | each request is in one of the two lists, in order, and each rejected one has a failure item with the reason: unknown, or lack of memory |
| Admission.AllocMemory.Guarantees | api/handler/service_batch_operation.go:507-526 | with non-negative sizes and memory: admitted memory plus remainder is the initial memory, the remainder is not negative, the lists partition the input, and no rejected known request fits the remainder |
| Admission.RejectedDoNotFit | api/handler/service_batch_operation.go:565-570 | a request rejected for lack of memory does not even fit in what is left at the end |
| Admission.ChosenInOrder | api/handler/service_batch_operation.go:511-521 | the lists keep the order of the requests |
| Admission.TotalMemoryNext | api/handler/service_batch_operation.go:564-571 | the memory of a list is the sum of memory times replicas over its known components |
| Admission.GreedyIsUnique | api/handler/service_batch_operation.go:511-521 | the decisions are determined by the input |
| RoundRobin.CrashFreeExactly | event/manager.go:259-262 | no step of a scan can index below zero exactly for a single server, a counter that does not overflow during the scan, or one that overflows in the last step onto a multiple of n |
| RoundRobin.OverflowCrashes | event/manager.go:260-261 | with three healthy servers the call after the largest counter crashes |
| RoundRobin.FindsFirstHealthy | event/manager.go:259-280 | a scan that cannot crash stops at the first server in cyclic order that is not abnormal, whenever there is one |
| RoundRobin.FirstInCyclicOrder | event/manager.go:259-280 | below overflow it stops at the first of the counter values from q on that leads, modulo the number of servers, to one that is not abnormal |
| RoundRobin.Fair | event/manager.go:259-280 | with h servers that are not abnormal, any k*h consecutive calls below overflow choose each of their positions exactly k times and no other |
| EventManager.Manager.constructor | event/manager.go:79-137 | a started manager has one handle per listed server, on channels that are pairwise distinct |
| EventManager.Manager.UpdateEndpoints | event/manager.go:139-177 | a new list clears the abnormal marks and leaves exactly one handle per listed address; handles that stay keep their channel |
| EventManager.Manager.GetLogger | event/manager.go:212-224 | returns the event's logger, or registers a new one, made now, on the channel of the server the scan stops at, otherwise of any handle; different events get different loggers |
| EventManager.Manager.GC | event/manager.go:190-208 | releases exactly the loggers older than a minute |
| EventManager.Manager.RemoveHandle | event/manager.go:287-293 | removes one handle and keeps the invariant |
| EventManager.Manager.GetLBChan | event/manager.go:258-286 | the channel of the server the scan stops at, made if need be; otherwise any handle's channel or none; the counter advances by the steps taken |
| EventManager.Manager.ScanFinds | event/manager.go:258-286 | a scan that cannot crash stops at a healthy server whenever one is listed |
| EventManager.Manager.ScanInOrder | event/manager.go:258-286 | below overflow it is the first one from the counter on, in list order |
| EventManager.Manager.DiscardedLoggerChan | event/manager.go:242-256 | marks the channel's servers; its loggers go to the channel of a listed server that is not abnormal if there is one, otherwise to that of any handle, and to none only if there is no handle; other loggers and all handles keep their channels; no crash if the counter has room for one scan per logger |
| LogWriter.LoggerWriter.Write | event/manager.go:434-474 | keeps the invariant that the assembled lines and the pending bytes make up everything written and that what was sent is determined by the lines |
| LogWriter.LoggerWriter.Conserved | event/manager.go:434-474 | over any writes without a format and for a step other than build-progress, the messages sent followed by what is pending are the bytes written, each message ending in a newline |
| LogWriter.PlainStepsSendEveryLine | event/manager.go:460-471 | for any other step each line is sent once, in order, under that step |
| LogWriter.NoTwoProgressLines | event/manager.go:460-471 | a build-progress writer never sends two progress messages in a row |
| LogWriter.SentExactly | event/manager.go:460-471 | what a build-progress writer sends are its lines in order: a progress line after a progress line not at all, the first other line after one twice, every other line once; labels are the step, except that of the first of two sendings, which is the progress line |
| LogWriter.FirstOfRunOnly | event/manager.go:460-471 | of a run of progress lines exactly the first is sent, so the last one exactly when the run has length one |
| LogWriter.LastProgressUnsent | event/manager.go:465-470 | after a run of two the last progress line shows up only as the label of the next line, which is sent twice |
| LogWriter.FaithfulExactly | event/manager.go:460-471 | the messages sent are the lines exactly when no line but the last is a progress line |
| GatewayPorts.SelectAvailablePort | api/handler/gateway_action.go:551-589 | the next port after the used ones if in range, else the port at the first gap by rank, else 0; the range is 10000 to 65535 unless configured |
| GatewayPorts.NextAfterUsed | api/handler/gateway_action.go:551-571 | the first port of the range if nothing is used; otherwise the port after the greatest used one, or the first of the range if that is below it, as long as this is in the range |
| GatewayPorts.FallbackExactly | api/handler/gateway_action.go:573-588 | otherwise, unless the search fails, the first port that the used entries, by rank, leave free |
| GatewayPorts.NeverUsed | api/handler/gateway_action.go:560-588 | a port that is handed out is not in the used list, whatever that list looks like |
| GatewayPorts.LeavesRangeExactly | api/handler/gateway_action.go:564-588 | a port that is handed out is never below the range, and above it exactly when the used entries fill the range by rank but leave a gap later on (or an empty range meets an empty list) |
| GatewayPorts.StrayLeavesRange | api/handler/gateway_action.go:573-583 | used 1, 2, 3, 5 in range 1 to 3 gives 4 |
| GatewayPorts.ZeroExactly | api/handler/gateway_action.go:569-588 | the search fails exactly when a used port reaches the end of the range and the used entries fill by rank at least the range and leave no gap after it |
| GatewayPorts.DuplicatesHideFreePorts | api/handler/gateway_action.go:574-588 | used 1, 1, 3 in range 1 to 3 fails although 2 is free |
| GatewayPorts.ZeroMeansFull | api/handler/gateway_action.go:551-589 | without duplicates and strays it fails exactly on a full range |
| GatewayPorts.FallbackIsLeastFree | api/handler/gateway_action.go:573-587 | and when the end of the range is taken it finds the least free port |
| GatewayPorts.GatewayAction.GetAvailablePort | api/handler/gateway_action.go:524-549 | over every run, two locked grants of a port are more than two minutes apart, and no call returns a port with an unexpired lock or one the database reports |
| GatewayPorts.GatewayAction.Sweep | api/handler/gateway_action.go:533-539 | drops exactly the locks that are expired when their turn comes, lists each other locked port once, and keeps every grant protected |
| EndpointCache.Cache.UpdateEndpoints | discover/discover.go:98-181 | the cache becomes what applying the changes one by one gives, where, except for a deletion, an object that was cached before or became cached in an earlier turn changes nothing; the callback gets exactly the cached endpoints with a URL |
| EndpointCache.Cache.UpdateOne | discover.v2/discover.go:100-172 | one endpoint's effect under each operation and mode |
| EndpointCache.OneEffect | discover/discover.go:102-170 | what one endpoint does to URL, weight and presence of its server, by operation and mode; other servers are left alone |
| EndpointCache.Cache.PublishedIsLive | discover.v2/discover.go:173-179 | by name and URL the published list is the non-empty part of the cache |
| EndpointCache.SyncByName | discover.v2/discover.go:118-134 | SYNC of endpoints with distinct names treats each name on its own, so their order is irrelevant |
| EndpointCache.SyncChanges | discover/discover.go:119-135 | SYNC of a listing sets the listed URLs, adds new names whole and removes nothing |
| Mirror.AgreesAfter | discover.v2/discover.go:246-267 | any change of one key together with its name keeps every stored key served, and keeps the cache free of stale values |
| Mirror.OverlayAgreesExactly | discover.v2/discover.go:223-226 | laying a listing over a cache serves every stored key, and agrees with the store exactly when nothing cached is gone from it |
| DiscoverV2.Discover | discover.v2/discover.go:220-272 | every session leaves the cache as its listing, if the query succeeds, followed by each event in turn would; when the timer fires or the watch fails the next session starts on the same cache |
| DiscoverV2.MakeEndpointForKvs | discover.v2/discover.go:287-306 | one fresh endpoint per server with its last listed value, in some order |
| DiscoverV2.ListedIsNamed | discover.v2/discover.go:287-306 | only servers named by some pair are listed |
| DiscoverV2.ListedIsLast | discover.v2/discover.go:287-306 | each named server is listed with the value of its last pair |
| DiscoverV2.HandleEvent | discover.v2/discover.go:246-267 | the effect of one watch event on the cache |
| DiscoverV2.EventEffect | discover.v2/discover.go:246-267 | a key's first put makes the server known with its URL, a later one changes a known server only, a deletion empties the URL of a known server |
| DiscoverV2.ServerNameOf | discover.v2/discover.go:249-251 | a key of a service's prefix names the server that ends it |
| DiscoverV2.ShortKeysNameNone | discover.v2/discover.go:248-249 | a key with fewer than two separators names no server |
| DiscoverV2.WatchServes | discover.v2/discover.go:246-268 | from any cache that holds every live server with its current URL, stale ones or not, following the gap-free watch of any writes keeps it so, and lets no stale URL arise |
| DiscoverV2.WatchKeepsAgreement | discover.v2/discover.go:246-268 | following the gap-free watch of any writes keeps an agreeing cache in agreement, deleted names surviving as tombstones only |
| DiscoverV2.SessionAgrees | discover.v2/discover.go:220-272 | from an empty cache, listing a store and following any writes ends in agreement with the store |
| DiscoverV2.AgreementPublishes | discover.v2/discover.go:173-179 | an agreeing cache publishes exactly the live names with their current non-empty URLs |
| DiscoverV2.SyncAgreesExactly | discover.v2/discover.go:220-236 | a re-listing serves every live server, and agrees exactly when no cached URL belongs to a server that is gone |
| DiscoverV2.CacheIsLastSeen | discover.v2/discover.go:220-272 | over any number of sessions, whatever goes unseen in between or before a watch opens, and whichever listings fail, a server is cached with what was last seen of its key: at a listing, by a reported first put, or by a later report of a known key |
| DiscoverV2.SessionsAgreeExactly | discover.v2/discover.go:220-272 | the cache ends in agreement exactly when what was last seen of every key is what the store holds by then |
| DiscoverV2.SessionsServe | discover.v2/discover.go:220-272 | if nothing is missed between a listing and its watch and no listing fails after writes went unseen, every live server is cached with its current URL, and the cache agrees exactly when every key that is gone was last seen gone, for which it is enough that nothing was removed unseen |
| DiscoverV2.UnseenRemovalStaysPublished | discover.v2/discover.go:118-134 | a re-listing without a cached server leaves it published |
| DiscoverV1.Discover | discover/discover.go:229-272 | the loop folds the decoded events into the cache one by one; after a failure that carries a key-value pair the next watch is followed on the same cache |
| DiscoverV1.FailuresGoUnnoticed | discover/discover.go:229-271 | a failure without a key-value pair, the only kind the watcher sends, is skipped, and no further watch is followed |
| DiscoverV1.RestartsAfterFailure | discover/discover.go:264-270 | a failure with a key-value pair ends its watch, and the next one is followed |
| DiscoverV1.EventEffect | discover/discover.go:233-263 | an Added event makes the server known, a Modified one changes a known server only, a Deleted one empties its field |
| DiscoverV1.KeysOfServer | discover/discover.go:234-250 | keys that end in a server's name and url or weight stand for that server's URL or weight |
| DiscoverV1.FieldsExactly | discover/discover.go:234-263 | for any order and interleaving, a field is what its own events make it, except that an update before anything added the server is lost; so it is a function of its own events exactly when its last event is no such update to a new value |
| DiscoverV1.FieldsAreIndependent | discover/discover.go:234-263 | for any interleaving in which the watch adds a key before modifying it, URL and weight are each a function of their own events |
| DiscoverV1.UpdateBeforeAdd | discover/discover.go:256-259 | without that order an update depends on the other field's events |
| DiscoverV1.AddedFieldsCommute | discover/discover.go:102-118 | Added events for the two fields commute on every cache |
| DiscoverV1.MakeEndpointForKvs | discover/discover.go:275-315 | builds exactly the entries that replaying each pair as an Added event builds |
| DiscoverV1.SyncIntoEmptyIsReplay | discover/discover.go:119-135 | SYNC of those endpoints into an empty cache, in any order, equals the replay |
| DiscoverV1.WatchShows | discover/discover.go:229-263 | from any cache with the stored URLs and weights, following the gap-free watch of any writes keeps them |
| DiscoverV1.WatchShowsStore | discover/discover.go:222-263 | a watch from an empty cache, the stored pairs first and then any writes, leaves every server with its stored URL and weight |
| Lease.KeepAlive.OnTimer | discover/register.go:93-114 | one firing: renew the known lease or forget it, else register; then wait one more period |
| Lease.RenewalKeepsLease | discover/register.go:94-102 | a renewal that is granted and answered keeps the registration for another period and three seconds |
| Lease.RegistersAnew | discover/register.go:93-111 | from any state with a lease, after a renewal that is refused, lost or unanswered the next firing whose calls go through puts the key under a new lease |
| Lease.RecoversAfterOutage | discover.v2/register.go:100-119 | after any run and any number of firings without effect, the first firing whose calls go through registers the key, and the loop is ahead of its lease again |
| Lease.KeepAlive.Register | discover.v2/register.go:130-144 | a registration puts the key under a new lease of the period plus three seconds and remembers it if it is answered; one whose answer is lost leaves the key and no memory of it; one whose put fails leaves a lease without a key; one whose grant fails changes nothing |
| Lease.NeverLapses | discover/register.go:88-117 | in every run whose calls take effect, answered or not, and whose consecutive firings take less than three seconds together, the key is there at every later effect and just after it, also when a lost answer makes the service register anew |
| Lease.AliveThroughout | discover.v2/register.go:94-122 | and at every moment in between |
| Lease.PromptnessIsExact | discover.v2/register.go:91-134 | at every point of every prompt run, the next two firings keep the key however they go if and only if they take less than three seconds together |
| Lease.OneLostRenewalLapses | discover.v2/register.go:100-119 | one call that takes no effect loses the key before the next registration can happen |
| Volumes.SyncComponentVolumes | api/handler/service.go:2608-2632 | for a table with unique keys: components the request says nothing about keep exactly their volumes, of the others exactly the listed volumes are stored, survivors under their old ID; it fails exactly when a call of the DAO fails, and then at most the deletions have been made |
| Volumes.GetExistVolumes | api/handler/service.go:2634-2644 | the stored volumes of the given components, by key |
| Volumes.GetDeleteVolumeIDs | api/handler/service.go:2656-2667 | exactly the IDs of existing volumes whose key is not incoming |
| Volumes.GetCreateOrUpdateVolumes | api/handler/service.go:2646-2654 | every incoming volume, with the ID of the existing volume of its key if there is one |
| Volumes.Reconciled | api/handler/service.go:2622-2631 | deleting and saving what the plan says reconciles any table with unique keys |
| Volumes.UniqueExactly | api/handler/service.go:2646-2654 | keys stay unique exactly when no new key occurs twice in the request |
| Volumes.LastVolumeWins | api/handler/service.go:2646-2654 | if an existing volume is asked for more than once, the last one asked for is stored |
| PluginPorts.HandlePluginMappingPort | api/handler/service.go:2797-2827 | the i-th container port is mapped to, and listens on, the i-th plugin port |
| PluginPorts.Bounded | api/handler/service.go:2803-2825 | every plugin port is between 65301 and that plus twice the number of ports, so below 65536 for up to 117 ports, and they strictly increase |
| PluginPorts.LeastFree | api/handler/service.go:2812-2819 | as long as none collides they are the least ports no container uses |
| PluginPorts.AdjacentPortsCollide | api/handler/service.go:2812-2821 | for container ports 65302 and 65303 the second plugin port is 65303 |
| PluginPorts.CollisionExactly | api/handler/service.go:2812-2821 | a plugin port equals a container port exactly when two adjacent container ports above 65301 have fewer free ports below them than ports are assigned |
| HostsLines.BuildRawLine | util/hosts.go:237-244 | prints the address and the hosts separated by blanks |
| HostsLines.RoundTripExactly | util/hosts.go:47-72 | parsing a printed line gives back address and hosts exactly when the address is a token that starts no comment and the hosts are tokens, or there is nothing |
| HostsLines.EntryParses | util/hosts.go:47-65 | an entry's line is parsed to address, hosts, its text and the verdict on its address |
| HostsLines.OtherLinesParse | util/hosts.go:47-72 | blank lines and comments keep their text only |
| HostsLines.JoinNext | util/hosts.go:237-244 | address and hosts are separated by single blanks |
| HostsLines.PrintedLineParses | util/hosts.go:47-72 | printing a parsed line and parsing it again changes neither address nor hosts |
| HostsFile.Hosts.GetIPPosition | util/hosts.go:214-225 | the first entry line for the address, or -1 |
| HostsFile.Hosts.Add | util/hosts.go:120-139 | replaces the first entry of the address by the merged one, or appends a new one |
| HostsFile.AddedLine | util/hosts.go:120-139 | the address's line holds the old hosts followed by the new ones not there yet; no other line changes |
| HostsFile.MergeInOrder | util/hosts.go:127-134 | new hosts are added one after the other, each at the end unless it is there already |
| HostsFile.AddIsIdempotent | util/hosts.go:120-139 | adding the same entry again changes nothing |
| HostsFile.Hosts.AddLines | util/hosts.go:142-146 | appends the lines, parsed |
| HostsFile.Hosts.Cleanup | util/hosts.go:149-168 | removes the first section, or changes nothing and fails if it does not end |
| HostsFile.CleanupExactly | util/hosts.go:149-168 | without a start marker nothing changes, a first section that ends is cut out, and one that does not end makes it fail |
| HostsFile.CleanupUndoesAddLines | util/hosts.go:142-168 | with no start marker before, removing an added section restores the lines exactly when its body has no end marker |
| HostsFile.CleanupUndoesExactly | util/hosts.go:142-168 | for any file, removing a section right after adding it restores the lines exactly when there is no start marker before and no end marker in the body, or dropping the complete first section for the new one gives the same lines |
| HostsFile.OldSectionGoesFirst | util/hosts.go:142-168 | with a complete section before, that one is removed and the added one stays, which restores the file exactly when the lines from there on are the same |
| HostsFile.SameSectionRestores | util/hosts.go:142-168 | a file that ends with a section gets it once more and loses one of the two |
| HostsFile.StaleStartLosesLines | util/hosts.go:149-168 | with an unended start marker before, it never does |

## Left out

- ServiceDependency.ServiceDependency.LaunchedIsAcyclic: the converse is not claimed, because a longer cycle survives or not depending on where the head nodes enter it; a lone three-cycle is broken.
- StdCopy.StdCopy: the 64-bit width of the count is not modelled; it would take a stream of 2^63 bytes. The one function is split into methods, one per step of its loop.
- EventManager.Manager.DiscardedLoggerChan: where every listed server is abnormal the replacement is any handle's channel, so nothing more is claimed than that it is one.
- EventManager.Manager.GetLBChan: a crash is a result, not a panic that ends the process.
- Volumes.SyncComponentVolumes: the transaction that takes the deletions back after an error is the caller's; a volume's key is its component and name, because the database model's Key method is not part of this model.
- GatewayPorts.SelectAvailablePort: sorting is a library function; it is modelled by its result.
- HostsFile.Hosts.Cleanup: reading and writing the file itself is not part of this model.
- DiscoverV2.Discover: `Error` callbacks and the ten-second pause after a failed watch are not modelled.
- DiscoverV1.WatchShowsStore: the watcher's own re-list after 20 idle seconds, before which writes can go unseen, is not part of the claim.
- ServiceDependency.ServiceDependency.ServiceStartupSequence: the order in which a service's kept dependencies are listed is not stated.
- Batch execution and its result lists, event records and log texts.
- HTTP controllers, request validation, transactions and the other Sync functions: plumbing over unseen DAOs that would add only easy members.
