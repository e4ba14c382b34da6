# KIRA-Rust, modelled and proved in Dafny

KIRA is a routing daemon; its protocol R²/KAD is written without I/O as state machines over maps,
queues and sequences. This project models the parts whose correctness depends on several pieces
agreeing with each other, and proves what those pieces promise together.

* **Node ids and next hops** (`Bits`, `NodeIds`, `Routing`, `FlatTables`, `TableSearch`,
  `SearchResults`, `RoutingTables`): 112-bit ids,
  shared prefixes in groups of bits, the bucket table with the underlay neighbours beside it, and the choice
  of the next overlay hop.
* **Messages between nodes** (`SourceRoutes`, `Overlay`, `OverlayNode`, `OverlayProgress`): source-routed transport and
  key-based overlay routing as one distributed run. The tables of every node may change between any
  two steps, so a step is given the tables as they are then.
* **Label forwarding** (`FwdTables`, `PathWriters`, `PathSetups`, `ForwardingNode`, `PathLifetimes`,
  `LabelForwarding`, `SetupInterleaving`): three writers build one path-id table per node; a packet labelled with the digest of
  a path follows the path, also when the setup of the path interleaves with everything else.
* **Rediscovery** (`Rediscovery`, `RediscoveryNode`, `RediscoveryRounds`): what happens to a contact whose path failed.
* **Timers** (`Timers`, `TimerRuntime`): the runtime's timers and the loop that drains them.
* **Injected requests** (`Injector`, `InjectorNode`, `InjectorAnswers`): callbacks, timeouts and periodic restores of the
  distributed hash table.
* **Underlay neighbours** (`UnderlayBase`): three maps and a 32-bit id allocator.
* **Wire format** (`WireBytes`, `WireObjects`, `WireBodies`, `WireMessages`, `WireSizes`): the binary codec of the 16
  message kinds that carry a payload.

Where the Rust code changes an object in place, the model has a class with the same fields whose methods
are proved against a function of the old state (`RoutingTables`, `OverlayNode`, `PathWriters`, `RediscoveryNode`,
`TimerRuntime`, `InjectorNode`, `UnderlayBase`, `FwdTables`, `SourceRoutes`); the properties are then lemmas
about those functions, over every event and every run.

Inputs the code takes from outside are parameters: the time, the digest of a path (`hash`, taken to be
injective), random nonces (drawn until unused), the paths the vicinity graph yields, and what use cases do
when a timer fires. `Overlay` takes any ranked list of contacts where a node asks its routing table. Iteration
orders of sets and maps are arbitrary.

## What turned out not to hold

Each of these has a lemma that says exactly when the code meets the property, and one that shows a run or an
input at which it does not.

* `next_hop` can stop although the routing table holds a contact nearer than the own node. The search of
  `closest` ends with the first bucket below the target's that has a contact; if target and own node agree in
  that bucket's bit, none of its contacts is nearer, while one in a deeper bucket can be
  (`FlatTables.StopsTooEarlyExactlyWhen`, `FlatTables.NearerContactOverlooked`). Otherwise it stops exactly
  when the own node is nearest (`FlatTables.StopsExactlyWhenRootIsNearest`).
* Refreshing an explicit path over a different neighbour updates the table but not the recorded `via`, so the
  entry survives the loss of the neighbour it forwards to (`RegisterKeepsRecordExactlyWhen`,
  `DownClearsNeighborExactlyWhen`, `StaleNextHopSurvives`).
* A request addressed to the own node, built when no contact is nearer to the key, is dropped by the entry
  checks of the transport (`LoopbackIsDroppedExactlyWhen`, `IsolatedNodeLosesItsRequests`).
* A FindNodeReq is likewise not passed on although a nearer contact is known, when that contact is overlooked
  in the search for the contacts it asks for, or when the nearest one found is the requester
  (`TableSearch.FindNodeStopsTooEarlyExactlyWhen`, `TableSearch.FindNodeOverlooksToo`).
* Handling a message panics in five situations: a path request inside the vicinity of its end, a state
  sequence number that asks for a reset, an `UpdateRouteReq` with the diagnostic flag that cannot be passed
  on, a republished store accessed before the earliest instant of the receiver's clock, and, with debug
  assertions, a Store or Fetch whose next hop is chosen by proximity while two empty buckets are taken for the
  same (`PanicsExactlyWhen`, `EachPanicHappens`, `CheckPanicHappens`). The first does not happen to requests the
  nodes themselves send (`SetupsLeaveTheVicinity`, `TeardownsLeaveTheVicinity`, `SetupAlwaysLongEnough`). For the
  last, `TableSearch.AssertionFailsExactlyWhen` gives the condition on the table.
* A contact that is replaced in the middle of its rediscovery leaves its requests in flight, although a comment
  in the code says they are forgotten then (`RequestsOutliveExactlyWhen`, `RequestsMayOutlive`).
* A `FindNodeRsp` that does not make its contact valid strands the rediscovery when nothing else is pending
  for it (`AnswerStrandsExactlyWhen`, `AnswerMayStrand`). The comment in the code assumes it became valid.
* Injecting a request under an outstanding nonce loses the older callback (`ConservedExactlyWhen`,
  `SecondInjectionLosesFirst`).
* A store is ended by the timeout of the lookup that led to it, if that fires before the answer: the timeout is
  never disarmed, and both use one nonce (`EndedByOtherTimerExactlyWhen`, `LookupTimerEndsStore`).
* After 2^32 registrations on an interface the connection id wraps to 1, and the collision assertion fires
  exactly when that id is still in use (`CollidesExactlyWhen`, `FirstCollisionExactlyWhen`,
  `CollisionHappens`).

## Model

| member | source | states |
|---|---|---|
| `Bits.MaskKeepsHighBits` | kira-r2kad/src/domain/node_id.rs:204-213 | masking with a shifted block of ones keeps exactly the high bits |
| `NodeIds.IdLeadingZerosIsCount` | kira-r2kad/src/domain/node_id.rs:121-129 | the 128-bit zero count minus the padding is the number of leading zeros of the 112-bit id |
| `NodeIds.SharedPrefixOrderIsXorOrder` | kira-r2kad/src/domain/node_id.rs:423-428 | for every group size, ordering by prefix length and then xor is the numeric order of the xor distances |
| `NodeIds.EqualPrefixIffSharedBits` | kira-r2kad/src/domain/node_id.rs:146-171 | two ids have the same n-bit prefix exactly when they share at least n leading bits |
| `NodeIds.EqualPrefixIffNear` | kira-r2kad/src/domain/node_id.rs:204-213 | equal prefixes mean an xor distance below the remaining bits, and conversely |
| `Routing.NextHopIsCloser` | kira-r2kad/src/domain/routing_table.rs:252-341 | whatever the contacts and grouping, a hop handed out is one of the contacts and strictly nearer to the target than the choosing node |
| `Routing.NextHopIsBest` | kira-r2kad/src/domain/routing_table.rs:344-373 | of all contacts with the longest prefix it is the nearest, or the one with the shortest path, depending on whether that prefix is the own one |
| `Routing.FindNodeHopIsCloser` | kira-r2kad/src/use_cases/handle_overlay_discovery.rs:166-345 | a FindNodeReq only goes on to the first contact, and only if that is strictly nearer |
| `Routing.StopsExactlyWhenNoneListedIsNearer` | kira-r2kad/src/domain/routing_table.rs:252-341 | on any list sorted by `sorter_xor`, no hop is given exactly when no listed contact is nearer than the own node |
| `Routing.SortedStopsExactlyWhen` | kira-r2kad/src/domain/routing_table/unlimited_uln_routing_table.rs:202-221 | cutting a sorted list, but not to nothing, does not change whether the search goes on |
| `FlatTables.NearerIffBitDiffers` | kira-r2kad/src/domain/routing_table/flat_routing_table.rs:502-553 | whether a contact is nearer to a target than the root depends only on the first bit in which it differs from the root: it is, exactly when the target has that bit |
| `FlatTables.LevelNearer` | kira-r2kad/src/domain/routing_table/flat_routing_table.rs:502-553 | so the contacts of a bucket other than the last are nearer, all or none: all in the target's own bucket, none above it |
| `FlatTables.GatheredIsFirstFilled` | kira-r2kad/src/domain/routing_table/flat_routing_table.rs:363-417 | asked for one contact, the walk collects exactly the first bucket at or below the target's that has any |
| `FlatTables.MergedStopsExactlyWhen` | kira-r2kad/src/domain/routing_table/unlimited_uln_routing_table.rs:184-223 | on what the table with underlay neighbours returns for any number of contacts, the search stops exactly when neither a collected contact nor a neighbour is nearer |
| `FlatTables.StopsTooEarlyExactlyWhen` | kira-r2kad/src/domain/routing_table.rs:252-341 | the search stops although table or neighbours hold a nearer contact exactly when the target's bucket is empty, the first filled one below it has the root's bit of the target, a deeper one holds a nearer contact and no neighbour is nearer |
| `FlatTables.StopsExactlyWhenRootIsNearest` | kira-r2kad/src/domain/routing_table.rs:232-341 | the search stops exactly when no contact of table or neighbours is nearer, or in that situation |
| `FlatTables.NearerContactOverlooked` | kira-r2kad/src/domain/routing_table/flat_routing_table.rs:363-417 | such a table: node 0 and contacts 4 and 1 for target 9, in the four highest bits |
| `TableSearch.MergedLeadsWithNearest` | kira-r2kad/src/domain/routing_table/unlimited_uln_routing_table.rs:184-223 | for any number of contacts asked for, the first one listed is the nearest of all collected contacts and all neighbours |
| `SearchResults.GatheredIsEnough` | kira-r2kad/src/domain/routing_table/flat_routing_table.rs:363-417 | the walk meets every bucket: it collects n contacts, or all that are stored |
| `SearchResults.FindsNearest` | kira-r2kad/src/domain/routing_table/unlimited_uln_routing_table.rs:184-223 | the search lists the n nearest of all contacts collected and all neighbours, nearest first; fewer only if it lists everything stored, more only if the first one too many is not in the last bucket |
| `SearchResults.CutExactlyWhen` | kira-r2kad/src/domain/routing_table/unlimited_uln_routing_table.rs:204-221 | the list is cut, to exactly n, exactly when the next contact agrees with the own id in all the bits the last bucket demands |
| `TableSearch.MissesExactlyWhen` | kira-r2kad/src/domain/routing_table/flat_routing_table.rs:363-417 | the walk for n contacts misses every nearer contact exactly when n contacts or more, none of them nearer, lie between the target's bucket and a deeper one with a nearer contact |
| `TableSearch.OverlookedForOne` | kira-r2kad/src/domain/routing_table/flat_routing_table.rs:363-417 | for one contact that is the situation in which next_hop stops too early |
| `TableSearch.FindNodeStopsTooEarlyExactlyWhen` | kira-r2kad/src/use_cases/handle_overlay_discovery.rs:179-345 | a FindNodeReq for n contacts is not passed on although a nearer contact is known exactly when it was overlooked and no neighbour is nearer, or the nearest contact found is the requester |
| `TableSearch.FindNodeOverlooksToo` | kira-r2kad/src/use_cases/handle_overlay_discovery.rs:179-345 | the table at which next_hop overlooks a nearer contact stops a FindNodeReq for one contact too, whoever asks |
| `TableSearch.SameBucketExactlyWhen` | kira-r2kad/src/domain/bucket.rs:51-54 | two buckets compare equal exactly when they are one, or both hold no contact at all |
| `TableSearch.ProgressIsOnLevel` | kira-r2kad/src/domain/routing_table/flat_routing_table.rs:502-553 | under every grouping a contact that shares more of the target than the root belongs to the target's bucket |
| `TableSearch.AssertionFailsExactlyWhen` | kira-r2kad/src/domain/routing_table.rs:316-330 | the debug assertion of next_hop fails exactly when the target's bucket is not the last, neither of the two holds any contact, and two neighbours share equally much of the target, more than the root and any other |
| `TableSearch.EmptyBucketsLookTheSame` | kira-r2kad/src/domain/routing_table.rs:316-330 | such a table: two empty buckets, neighbours 1100 and 1101 for target 1000 |
| `RoutingTables.FewerMeansAll` | kira-r2kad/src/domain/routing_table.rs:212-217 | fewer contacts than asked for are only collected when the buckets hold no others |
| `RoutingTables.FlatRoutingTable.Closest` | kira-r2kad/src/domain/routing_table/flat_routing_table.rs:258-480 | the walk over the levels with its three exits returns the collected buckets sorted, cut only if the last bucket alone suffices; an invalid grouping is an error |
| `RoutingTables.FlatRoutingTable.SplitBucket` | kira-r2kad/src/domain/routing_table/flat_routing_table.rs:219-245 | the last bucket is divided by one more bit, every contact of any state stays and is in the bucket of its level, and a refused split changes nothing |
| `RoutingTables.UnlimitedULNRoutingTable.Closest` | kira-r2kad/src/domain/routing_table/unlimited_uln_routing_table.rs:184-223 | neighbours are added, the list sorted again, and cut if the contact after the nth belongs to the last bucket |
| `RoutingTables.UnlimitedULNRoutingTable.NextHop` | kira-r2kad/src/domain/routing_table.rs:243-341 | a hop is strictly nearer, the search stops too early in exactly the situation above, and the debug assertion fails in exactly the situation above |
| `SourceRoutes.SourceRouteCell.New` | kira-r2kad/src/domain/source_route.rs:32-40 | a new route starts at its source with progress one |
| `SourceRoutes.SourceRouteCell.FromReversed` | kira-r2kad/src/domain/source_route.rs:43-52 | the way back is the travelled part with the current hop, reversed, at progress one |
| `SourceRoutes.SourceRouteCell.Advance` | kira-r2kad/src/domain/source_route.rs:87-93 | progress grows by one and never leaves the route |
| `SourceRoutes.SourceRouteCell.Extend` | kira-r2kad/src/domain/source_route.rs:178-182 | the path is appended, the progress kept |
| `SourceRoutes.SourceRouteCell.ExtendAndAdvance` | kira-r2kad/src/use_cases/handle_overlay_discovery.rs:87-97 | a finished route continues with the first node of the appended path |
| `SourceRoutes.TurningAroundTwice` | kira-r2kad/src/domain/source_route.rs:43-52 | turning around ends at the origin, and turning around again at its end gives the travelled part back |
| `Overlay.StepCases` | kira-r2kad/src/use_cases/forward_protocol_message.rs:535-585 | whatever the tables, a message causes at most one of four things: a forward, an overlay hop strictly nearer to the target, an answer, or an error |
| `Overlay.StepLowersRank` | kira-r2kad/src/use_cases/forward_protocol_message.rs:477-585 | every step lowers overlay distance, route length and hops left in lexicographic order; an error about a failed hop travels a strictly shorter route than the message |
| `Overlay.EveryRunIsFinite` | kira-r2kad/src/use_cases/forward_protocol_message.rs:477-585 | no message causes an infinite run of forwards, answers, errors and errors about errors, however tables and links change meanwhile |
| `Overlay.NoNodeChoosesTwice` | kira-r2kad/src/domain/routing_table.rs:252-341 | within a run no node chooses an overlay hop for the same request twice |
| `Overlay.RouteIsTheWalk` | kira-r2kad/src/domain/source_route.rs:141-165 | after any number of extensions the travelled part of the route is the walk the request took |
| `Overlay.AnswerRetracesTheWalk` | kira-r2kad/src/domain/source_route.rs:43-52 | every answer travels the walk backwards and is addressed to the requester |
| `Overlay.LoopbackIsDroppedExactlyWhen` | kira-r2kad/src/use_cases/forward_protocol_message.rs:630-675 | exactly when a request of any kind to the own node is dropped by the entry checks |
| `Overlay.IsolatedNodeLosesItsRequests` | kira-r2kad/src/use_cases/forward_protocol_message.rs:630-675 | an isolated node loses every request it addresses to itself |
| `Overlay.PanicsExactlyWhen` | kira-r2kad/src/use_cases/forward_protocol_message.rs:125-180 | path management, transport and the Store, Fetch and FindNode handlers panic in exactly five situations, one of them only with debug assertions |
| `Overlay.EachPanicHappens` | kira-r2kad/src/use_cases/explicit_path_management.rs:483-520 | a message for each of the first four |
| `Overlay.CheckPanicHappens` | kira-r2kad/src/use_cases/distributed_hash_table.rs:540-552 | a Store or Fetch for the fifth |
| `OverlayNode.MessageHandler.SendMessage` | kira-r2kad/src/runtime/mod.rs:87-112 | a message goes to its current hop, itself, or nobody |
| `OverlayNode.MessageHandler.HandleMessage` | kira-r2kad/src/use_cases/forward_protocol_message.rs:630-675 | path management, entry checks with all three kinds of sequence number, forwarding and handling in place are what the step function says |
| `OverlayNode.MessageHandler.HandleForwarding` | kira-r2kad/src/use_cases/forward_protocol_message.rs:535-585 | the route is advanced, or turned around with an error, in place |
| `OverlayNode.MessageHandler.HandleRequest` | kira-r2kad/src/use_cases/distributed_hash_table.rs:479-690 | a request at the end of its route is handled as the step function says, whose every outcome the `OverlayProgress` rows fix without naming it; it panics where that does |
| `OverlayProgress.ForwardsToNeighbor` | kira-r2kad/src/use_cases/forward_protocol_message.rs:535-585 | a message that is not at its end goes to the next node of its route, one step further and otherwise as it was, whenever that is a neighbour |
| `OverlayProgress.ReportsLostNeighbor` | kira-r2kad/src/use_cases/forward_protocol_message.rs:535-585 | otherwise its sender is told, unless it was an error itself |
| `OverlayProgress.PassesOnWhenNearer` | kira-r2kad/src/use_cases/distributed_hash_table.rs:540-572 | a Store, or a Fetch for a value not stored here, is passed on whenever some contact listed is nearer to its target: to the best of those that share the longest prefix, along that contact's path |
| `OverlayProgress.FindNodePassesOn` | kira-r2kad/src/use_cases/handle_overlay_discovery.rs:179-345 | a FindNodeReq is passed on to the nearest contact listed, if that is nearer and not the requester |
| `OverlayProgress.AnswersWhenNoneIsNearer` | kira-r2kad/src/use_cases/distributed_hash_table.rs:574-682 | where no contact listed is nearer to the target, the sender of a request gets an answer: an error for a Store and for a FindNodeReq that asks for exactly one node, a response otherwise |
| `OverlayProgress.AnswersTheNearest` | kira-r2kad/src/use_cases/handle_overlay_discovery.rs:179-345 | where the nearest contact is the requester, a FindNodeReq is answered the same way |
| `OverlayProgress.AnswersOnArrival` | kira-r2kad/src/use_cases/distributed_hash_table.rs:540-682 | at its target, or where the value is stored, every request gets a response, but for a republished store that was kept, which gets none |
| `OverlayProgress.ReachesTarget` | kira-r2kad/src/use_cases/forward_protocol_message.rs:477-585 | a request of any kind reaches its target, in a run the lemma yields, where links are up, every other node lists a contact nearer to the target, does not hold the value fetched and does not panic, and, for a FindNodeReq, the first contact listed is not the requester |
| `FwdTables.InMemoryFwdTables.CreateEntry` | kira-forwarding/src/tables/in_memory_tables.rs:104-119 | an entry is added unless its id is present, which is an error and changes nothing |
| `FwdTables.InMemoryFwdTables.UpdateEntry` | kira-forwarding/src/tables/in_memory_tables.rs:121-134 | an entry is replaced unless its id is absent, which is an error and changes nothing |
| `FwdTables.InMemoryFwdTables.RemoveEntry` | kira-forwarding/src/tables/in_memory_tables.rs:136-143 | the entry is gone and returned; an absent id is no error |
| `FwdTables.InMemoryFwdTables.HandleRequest` | kira-forwarding/src/tables/mod.rs:80-112 | the dispatch of one update, creating or updating as needed |
| `FwdTables.InMemoryFwdTables.HandleAll` | kira-forwarding/src/tables/mod.rs:80-112 | a stream succeeds exactly when its replay does, and leaves the replayed table |
| `FwdTables.ReplayRemovals` | kira-forwarding/src/tables/in_memory_tables.rs:136-143 | removals never fail and their order does not matter |
| `FwdTables.ReplayInstallations` | kira-forwarding/src/tables/in_memory_tables.rs:145-155 | installations never fail; in any order each entry ends up under its id and nothing else changes |
| `PathWriters.ExplicitPathManagement.RegisterPath` | kira-r2kad/src/use_cases/explicit_path_management.rs:255-305 | a known path is refreshed, a new one recorded with its neighbour; nothing happens when the neighbour is unknown |
| `PathWriters.ExplicitPathManagement.HandlePathSetup` | kira-r2kad/src/use_cases/explicit_path_management.rs:483-502 | a setup registers the path and stops inside the vicinity of its end |
| `PathWriters.ExplicitPathManagement.HandleProbe` | kira-r2kad/src/use_cases/explicit_path_management.rs:525-545 | a probe registers only paths that leave the vicinity |
| `PathWriters.ExplicitPathManagement.PerformCleanup` | kira-r2kad/src/use_cases/explicit_path_management.rs:211-240 | exactly the expired paths are removed and reported; which those are in terms of the run says `PathLifetimes.CleanupRemovesExactly` |
| `PathLifetimes.LastSeenIsLatest` | kira-r2kad/src/use_cases/explicit_path_management.rs:286-304 | in every run the time recorded for a path is that of the latest setup or probe that registered it |
| `PathLifetimes.CleanupRemovesExactly` | kira-r2kad/src/use_cases/explicit_path_management.rs:211-240 | in every run a cleanup removes a recorded path exactly if its latest setup or probe lies the maximum age back or longer, or that age is zero |
| `PathLifetimes.RegisteredExactlyWhen` | kira-r2kad/src/use_cases/explicit_path_management.rs:255-305 | a path that is not recorded becomes so exactly by a setup or probe for it that leaves the vicinity and whose next node is a neighbour |
| `PathWriters.ExplicitPathManagement.InvalidateAllOverInterfaces` | kira-r2kad/src/use_cases/explicit_path_management.rs:345-372 | exactly the paths recorded over the lost neighbour are removed and reported |
| `PathWriters.SetupsLeaveTheVicinity` | kira-r2kad/src/use_cases/explicit_path_management.rs:396-465 | every setup sent on a contact event has more nodes than the vicinity radius |
| `PathSetups.OneSetupPerStretch` | kira-r2kad/src/use_cases/explicit_path_management.rs:401-465 | in every life of a contact, each stretch in which it is valid and reached by one path outside the vicinity sees exactly one setup, for that path; there is none exactly if the contact was dead or unknown right before |
| `PathSetups.NoSetupOtherwise` | kira-r2kad/src/use_cases/explicit_path_management.rs:401-465 | no other event sends a setup |
| `PathSetups.TornDownExactlyWhen` | kira-r2kad/src/use_cases/explicit_path_management.rs:427-452 | when a stretch ends its path is torn down exactly if the contact stays valid by another path, or becomes invalid outside the vicinity |
| `PathWriters.TeardownTooShortExactlyWhen` | kira-r2kad/src/use_cases/explicit_path_management.rs:396-465 | exactly which contact events would make the handler send a teardown its receivers assert cannot occur |
| `PathWriters.TeardownsLeaveTheVicinity` | kira-r2kad/src/domain/contact.rs:190-220 | no such event arises, because invalidating a contact keeps the nodes of its path |
| `PathWriters.InvalidationTearsDownTwice` | kira-r2kad/src/use_cases/explicit_path_management.rs:438-452 | invalidating a contact outside the vicinity sends the same teardown twice, since the marked path differs from the old one |
| `PathWriters.PrecomputePathIds.GenEntriesFromGraph` | kira-r2kad/src/use_cases/precompute_paths_and_path_ids.rs:108-148 | one entry per path of at least two nodes whose next node is a neighbour |
| `PathWriters.PrecomputePathIds.PrecomputePathsAndIds` | kira-r2kad/src/use_cases/precompute_paths_and_path_ids.rs:150-171 | the vanished entries are removed and then the new ones installed, each in any order |
| `ForwardingNode.WritersOwnDisjointIds` | kira-r2kad/src/use_cases/explicit_path_management.rs:255-305 | explicit, precomputed and decapsulation entries never share a path id |
| `ForwardingNode.PrecomputeKeepsInv` | kira-r2kad/src/use_cases/precompute_paths_and_path_ids.rs:150-171 | the incremental update leaves exactly the vicinity entries a rebuild from scratch would, also when only a next hop changed, and no other entry changes |
| `ForwardingNode.StepKeepsInv` | kira-r2kad/src/use_cases/explicit_path_management.rs:286-304 | the updates of any event of any writer replay without error and keep table and writers in agreement |
| `ForwardingNode.EveryRunReplays` | kira-r2kad/src/use_cases/explicit_path_management.rs:286-304 | in every run, however the writers interleave, the emitted updates replay without error; the keys are those of the writers and outgoing ids agree |
| `ForwardingNode.RegisterKeepsRecordExactlyWhen` | kira-r2kad/src/use_cases/explicit_path_management.rs:286-304 | table and recorded neighbour stay in agreement exactly when the path is new or leaves over the recorded one |
| `ForwardingNode.DownClearsNeighborExactlyWhen` | kira-r2kad/src/use_cases/explicit_path_management.rs:345-372 | exactly when no explicit entry points to a neighbour after it went down |
| `ForwardingNode.StaleNextHopSurvives` | kira-r2kad/src/use_cases/explicit_path_management.rs:286-304 | a run after which an entry still points to a neighbour that is down |
| `LabelForwarding.SetupAlwaysLongEnough` | kira-r2kad/src/use_cases/explicit_path_management.rs:483-520 | in every run, whatever links do, a setup or teardown started outside the vicinity is only ever delivered with more nodes ahead than the radius, so the assertions hold |
| `LabelForwarding.SetupCoversPrefix` | kira-r2kad/src/use_cases/explicit_path_management.rs:483-502 | while links are up exactly the first n - R nodes handle the setup, in order; they and nobody else get a new entry, and all tables keep to their invariant |
| `LabelForwarding.LabelledPacketFollowsPath` | kira-r2kad/src/use_cases/explicit_path_management.rs:255-305 | after the setup a packet labelled with the digest of the path visits exactly the path and is decapsulated at its last node |
| `LabelForwarding.PrecomputeSuppliesSuffix` | kira-r2kad/src/use_cases/precompute_paths_and_path_ids.rs:108-148 | a precomputation whose graph has the rest of the path supplies the entry that delivery needs |
| `LabelForwarding.PacketReachesContact` | kira-r2kad/src/use_cases/derive_fwd_table_entries.rs:284-319 | with the entry derived for a contact, a packet goes over exactly the contact's path and is delivered there |
| `LabelForwarding.LastHopDecapsulates` | kira-r2kad/src/use_cases/derive_fwd_table_entries.rs:592-609 | a node that was started ends the path that consists of itself |
| `SetupInterleaving.ExplicitSurvives` | kira-r2kad/src/use_cases/explicit_path_management.rs:211-372 | an explicit entry survives every event of every writer that does not let it expire or take it down with its neighbour |
| `SetupInterleaving.EveryRunIsSetUp` | kira-r2kad/src/use_cases/explicit_path_management.rs:483-502 | while the hops of a setup interleave with any other events at any nodes and link changes off the path, the nodes that handled it hold their entries and all tables keep to their invariant |
| `SetupInterleaving.InterleavedSetupDelivers` | kira-r2kad/src/use_cases/explicit_path_management.rs:255-305 | however they interleave, once the setup has stopped a labelled packet visits exactly the path and is decapsulated at its end |
| `Rediscovery.PickTakesUsable` | kira-r2kad/src/use_cases/failure_handling.rs:246-299 | the contacts asked next are exactly the valid ones among those taken off the list, in list order, and fewer than wanted only if the list is used up |
| `Rediscovery.NothingFoundMeansEmpty` | kira-r2kad/src/use_cases/failure_handling.rs:175-178 | an extraction that finds nobody has emptied the list, so the assertion at the refill holds |
| `Rediscovery.StepIsForOne` | kira-r2kad/src/use_cases/failure_handling.rs:780-850 | every event changes only the contact it is about and that contact's timers |
| `Rediscovery.StepOfRediscovery` | kira-r2kad/src/use_cases/failure_handling.rs:488-700 | each timer or error of a rediscovery lowers its measure and leaves a timer behind, or the contact is found or given up |
| `Rediscovery.OtherSteps` | kira-r2kad/src/use_cases/failure_handling.rs:780-850 | all other events leave the measure as it is |
| `Rediscovery.StepKeepsInv` | kira-r2kad/src/use_cases/failure_handling.rs:301-372 | a contact being rediscovered always has a scheduled, rate-limited or in-flight timer |
| `Rediscovery.EveryRediscoveryEnds` | kira-r2kad/src/use_cases/failure_handling.rs:488-700 | in every run in which timers fire, every rediscovery ends |
| `Rediscovery.WithoutAnswerGivenUp` | kira-r2kad/src/use_cases/failure_handling.rs:488-700 | without an answer or outside news it ends with the contact dead and removed, after its last round |
| `Rediscovery.RequestsOutliveExactlyWhen` | kira-r2kad/src/use_cases/failure_handling.rs:784-806 | whatever takes a contact away in the middle of its rediscovery forgets its requests, except exactly its replacement |
| `Rediscovery.RequestsMayOutlive` | kira-r2kad/src/use_cases/failure_handling.rs:784-806 | such a state is three events away from any state with two valid contacts and nothing pending for one |
| `Rediscovery.AnswerStrandsExactlyWhen` | kira-r2kad/src/use_cases/failure_handling.rs:806-816 | an answer that leaves its contact as it is strands it exactly when its request was all that was pending |
| `Rediscovery.AnswerMayStrand` | kira-r2kad/src/use_cases/failure_handling.rs:806-816 | such a state is three events away from any state with two valid contacts and nothing pending for one |
| `RediscoveryNode.InflightReqMap.Insert` | kira-r2kad/src/utils/inflight_req_map.rs:21-34 | duplicates of timer or nonce are refused without change |
| `RediscoveryNode.InflightReqMap.RemoveByNonce` | kira-r2kad/src/utils/inflight_req_map.rs:65-71 | both indexes lose the request, stay inverse, and the assertions hold |
| `RediscoveryNode.InflightReqMap.RemoveByTimer` | kira-r2kad/src/utils/inflight_req_map.rs:75-81 | both indexes lose the request, stay inverse, and the assertions hold |
| `RediscoveryNode.InflightReqMap.RemoveById` | kira-r2kad/src/utils/inflight_req_map.rs:85-88 | exactly the requests for the node are forgotten |
| `RediscoveryNode.InflightReqMap.Exists` | kira-r2kad/src/utils/inflight_req_map.rs:56-61 | searching the nonces answers for the timers |
| `RediscoveryNode.FailureHandling.ExtractEligibleViaContacts` | kira-r2kad/src/use_cases/failure_handling.rs:246-299 | the loop and the truncation of the reversed list are the extraction |
| `RediscoveryNode.FailureHandling.SendRediscoveryForContact` | kira-r2kad/src/use_cases/failure_handling.rs:301-388 | one request per contact found, or a timer that lets the round fail |
| `RediscoveryNode.FailureHandling.SetViaContactList` | kira-r2kad/src/use_cases/failure_handling.rs:175-178 | the refill is only called with the list empty |
| `RediscoveryNode.FailureHandling.StartRediscovery` | kira-r2kad/src/use_cases/failure_handling.rs:440-483 | an invalid contact starts its first round |
| `RediscoveryNode.FailureHandling.HandleRediscoveryFailure` | kira-r2kad/src/use_cases/failure_handling.rs:488-700 | one more contact is asked, or the round is over |
| `RediscoveryNode.FailureHandling.FinishRound` | kira-r2kad/src/use_cases/failure_handling.rs:552-610 | wait, refill the list and start the next round, or give up; that the refill is the whole list of the round, in its order, is what `RediscoveryRounds.RoundAsksAll` needs of it in every run |
| `RediscoveryRounds.SendAsks` | kira-r2kad/src/use_cases/failure_handling.rs:301-372 | the first requests of a round go to the first contacts of the list that are valid, as many as are asked in parallel, in list order |
| `RediscoveryRounds.RetryAsks` | kira-r2kad/src/use_cases/failure_handling.rs:488-610 | a retry asks exactly one more contact, the next valid one, or the round is over and its list is filled again with all of its contacts |
| `RediscoveryRounds.EveryStepIsOfARound` | kira-r2kad/src/use_cases/failure_handling.rs:488-850 | every event of a rediscovery asks nobody and keeps the list, takes the next contacts off it, or ends the round |
| `RediscoveryRounds.FirstRound` | kira-r2kad/src/use_cases/failure_handling.rs:374-388 | a rediscovery starts with the contacts its start event names |
| `RediscoveryRounds.RoundAsksInOrder` | kira-r2kad/src/use_cases/failure_handling.rs:246-299 | in every run the contacts asked so far in a round are those taken off its list that were valid when it was their turn, in the order of the start event |
| `RediscoveryRounds.RoundAsksAll` | kira-r2kad/src/use_cases/failure_handling.rs:246-372 | when a round is over, every contact of the start event had its turn and exactly those valid at their turn were asked, once, in order |
| `RediscoveryRounds.RetriesCountRounds` | kira-r2kad/src/use_cases/failure_handling.rs:552-578 | the retry counter is the number of rounds that were over |
| `RediscoveryRounds.GivenUpAfterAllRounds` | kira-r2kad/src/use_cases/failure_handling.rs:580-590 | a contact is given up only after as many rounds as configured |
| `RediscoveryNode.FailureHandling.HandleTimer` | kira-r2kad/src/use_cases/failure_handling.rs:836-846 | a timer is a scheduled round, a timeout, a rate limit, or not ours |
| `RediscoveryNode.FailureHandling.HandleEvent` | kira-r2kad/src/use_cases/failure_handling.rs:780-850 | every event has the effect the step function says |
| `Timers.HandlersOnlyRemove` | kira-r2kad/src/r2kad/runtime.rs:178-220 | handlers can only remove timers, or add later ones under new ids |
| `Timers.RegisteredIsArmed` | kira-r2kad/src/r2kad/runtime.rs:154-225 | every registration of a handler takes the next id; the timer is then armed, for exactly the given time from now, unless removed later, and repeats with that period if periodic |
| `Timers.DrainEmptiesInOrder` | kira-r2kad/src/r2kad/mod.rs:342-372 | the loop ends with nothing due; what fired was due at entry, each at most once, in order of due time |
| `Timers.FiresUnlessRemoved` | kira-r2kad/src/r2kad/mod.rs:342-372 | a timer due at entry fires exactly when no handler removed it before its turn |
| `Timers.StaysUnlessRemoved` | kira-r2kad/src/r2kad/runtime.rs:202-207 | a timer that is not due stays, unchanged, exactly when no handler removes it |
| `Timers.RearmsUnlessRemoved` | kira-r2kad/src/r2kad/runtime.rs:100-125 | a timer that fired is armed again exactly when it is periodic and not removed at or after its turn, for one period from now however many were missed |
| `Timers.GoneStaysGone` | kira-r2kad/src/r2kad/runtime.rs:178-195 | a timer id that is gone does not come back |
| `TimerRuntime.R2KadRuntime.RegisterTimer` | kira-r2kad/src/r2kad/runtime.rs:178-195 | the id is new, and no id is in the heap twice |
| `TimerRuntime.R2KadRuntime.RegisterPeriodicTimer` | kira-r2kad/src/r2kad/runtime.rs:209-220 | the id is new and gets its period |
| `TimerRuntime.R2KadRuntime.RemoveTimer` | kira-r2kad/src/r2kad/runtime.rs:202-207 | exactly the timer is taken from the heap |
| `TimerRuntime.R2KadRuntime.NextTimer` | kira-r2kad/src/r2kad/runtime.rs:100-125 | the first due timer is taken, ties going to the youngest, and a periodic one re-armed under its id |
| `TimerRuntime.R2KadRuntime.HandleTimeout` | kira-r2kad/src/r2kad/mod.rs:342-372 | the loop terminates and is the draining described above, or the part of it up to the first event that leaves a use case in an error state |
| `Injector.StepKeepsInv` | kira-r2kad/src/use_cases/distributed_hash_table_injector.rs:629-777 | every callback has a pending request for its injection, every pending request an armed timeout, and no callback gets two results |
| `Injector.ConservedExactlyWhen` | kira-r2kad/src/use_cases/distributed_hash_table_injector.rs:629-690 | an event loses a callback exactly when it injects under an outstanding nonce |
| `Injector.SecondInjectionLosesFirst` | kira-r2kad/src/use_cases/distributed_hash_table_injector.rs:629-690 | the run of two injections under one nonce loses the first callback |
| `Injector.OwnTimerIsArmed` | kira-r2kad/src/use_cases/distributed_hash_table_injector.rs:279-318 | in every run a pending request has its own timeout armed, the youngest of its nonce |
| `Injector.TimeoutsAreUnfired` | kira-r2kad/src/use_cases/distributed_hash_table_injector.rs:727-777 | in every run the timeouts armed for a nonce are exactly those that were armed and have not fired |
| `Injector.EndedByOtherTimerExactlyWhen` | kira-r2kad/src/use_cases/distributed_hash_table_injector.rs:727-777 | a pending request is ended by a timer not its own exactly when that was armed for an earlier request under the nonce and has not fired |
| `Injector.LookupTimerEndsStore` | kira-r2kad/src/use_cases/distributed_hash_table_injector.rs:727-777 | in every run the timeout of a lookup ends the store it led to, reports a timeout, and the answer to the store is ignored |
| `Injector.RunConservesExactlyWhen` | kira-r2kad/src/use_cases/distributed_hash_table_injector.rs:629-777 | a run accounts for every injected request exactly when it never injects under an outstanding nonce |
| `Injector.CountsAddUp` | kira-r2kad/src/use_cases/distributed_hash_table_injector.rs:629-777 | injected requests are results handed out plus callbacks held |
| `Injector.StepConservesRestores` | kira-r2kad/src/use_cases/distributed_hash_table_injector.rs:566-585 | for every selection of payloads, armed restores are as many as stores to be restored whose answer was delivered |
| `Injector.EveryRunKeepsInv` | kira-r2kad/src/use_cases/distributed_hash_table_injector.rs:629-777 | both hold at every point between the events of every run |
| `InjectorNode.DistributedHashTableInjector.RegisterPendingReq` | kira-r2kad/src/use_cases/distributed_hash_table_injector.rs:279-318 | the request is pending and its timeout armed |
| `InjectorNode.DistributedHashTableInjector.RegisterPeriodicRestore` | kira-r2kad/src/use_cases/distributed_hash_table_injector.rs:320-340 | one restore is armed |
| `InjectorNode.DistributedHashTableInjector.HandleResponse` | kira-r2kad/src/use_cases/distributed_hash_table_injector.rs:517-606 | a lookup answer starts the store, other answers are delivered once, and a restore is armed only after a delivered answer; which answers count, in every run, say the `InjectorAnswers` rows |
| `InjectorAnswers.TakesExactlyItsAnswer` | kira-r2kad/src/use_cases/distributed_hash_table_injector.rs:692-725 | a pending request is changed by exactly the response it waits for: any FindNodeRsp for a lookup, any FetchRsp for a fetch, and for a store the StoreRsp of one node |
| `InjectorAnswers.StoreIsConfirmed` | kira-r2kad/src/use_cases/distributed_hash_table_injector.rs:440-460 | in every run, a store whose lookup was answered by a node and whose nonce saw no timeout and no other injection takes the confirmation of that very node: its requester gets its one result, the request ends, and a restore of the payload is armed if asked for and heard; any other response changes nothing |
| `InjectorAnswers.RestoreIsConfirmed` | kira-r2kad/src/use_cases/distributed_hash_table_injector.rs:566-606 | in every run, a restore that fires stores its payload again; the confirmation hands out nothing and arms nothing |
| `InjectorAnswers.FetchIsAnswered` | kira-r2kad/src/use_cases/distributed_hash_table_injector.rs:692-725 | in every run, a fetch whose nonce saw no timeout and no other injection takes the first FetchRsp, whoever sent it, as its one result |
| `InjectorAnswers.UnansweredTimesOut` | kira-r2kad/src/use_cases/distributed_hash_table_injector.rs:727-777 | in every run, the own timer of a waiting request gives its requester the one result that nothing answered, and later responses are ignored |
| `InjectorNode.DistributedHashTableInjector.HandleTimer` | kira-r2kad/src/use_cases/distributed_hash_table_injector.rs:727-777 | a timeout ends its request if it is still pending, the orphan assertion holds, and a restore re-arms itself once |
| `InjectorNode.DistributedHashTableInjector.HandleEvent` | kira-r2kad/src/use_cases/distributed_hash_table_injector.rs:629-777 | every event has the effect the step function says and keeps the invariant |
| `UnderlayBase.StaysConsistent` | kira-lib/src/underlay/information_base.rs:106-224 | every operation keeps neighbours and ids inverse and the live ids of each interface exact |
| `UnderlayBase.DownRemovesExactly` | kira-lib/src/underlay/information_base.rs:178-193 | an interface that goes down takes and reports exactly its neighbours |
| `UnderlayBase.RegistersExactlyWhen` | kira-lib/src/underlay/information_base.rs:106-155 | a neighbour is known under an id exactly when that id is filed for it, and then nothing changes; otherwise it gets an id nobody has, under which it is known afterwards |
| `UnderlayBase.CidsFollow` | kira-lib/src/underlay/information_base.rs:146-153 | the ids handed out are 0 to 2^32 - 1 and then 1 to 2^32 - 1 for ever, never 0 again |
| `UnderlayBase.CollidesExactlyWhen` | kira-lib/src/underlay/information_base.rs:125-131 | registration fails exactly when the next id of the interface is live |
| `UnderlayBase.NoCollisionBeforeWrap` | kira-lib/src/underlay/information_base.rs:125-131 | it cannot fail in the first 2^32 registrations since the interface came up |
| `UnderlayBase.FirstCollisionExactlyWhen` | kira-lib/src/underlay/information_base.rs:146-153 | the next one fails exactly when id 1 is in use |
| `UnderlayBase.CollisionHappens` | kira-lib/src/underlay/information_base.rs:146-153 | a run with two neighbours, one of which stays while the other comes and goes, ends in the collision |
| `UnderlayBase.EveryRunIsConsistent` | kira-lib/src/underlay/information_base.rs:76-224 | both hold after every sequence of events |
| `UnderlayBase.IdIsStable` | kira-lib/src/underlay/information_base.rs:106-224 | in every run an id stands for its neighbour until that is unregistered or its interface goes down: registering it again returns the id, and nobody else gets it |
| `UnderlayBase.UnderlayInformationBase.GetInformation` | kira-lib/src/underlay/information_base.rs:88-104 | the interface of a known neighbour is up |
| `UnderlayBase.UnderlayInformationBase.RegisterNeighbor` | kira-lib/src/underlay/information_base.rs:106-155 | known neighbours keep their id, new ones get the next, and only the collision assertion can fail |
| `UnderlayBase.UnderlayInformationBase.UnregisterNeighbor` | kira-lib/src/underlay/information_base.rs:157-173 | all three maps forget the neighbour and the assertions hold |
| `UnderlayBase.UnderlayInformationBase.InterfaceGoesDown` | kira-lib/src/underlay/information_base.rs:178-193 | the loop is never left early and the assertion in it holds |
| `UnderlayBase.UnderlayInformationBase.InterfaceGoesUp` | kira-lib/src/underlay/information_base.rs:198-224 | an interface already up keeps its connections |
| `WireBytes.IdRoundTrip` | kira-r2kad/src/domain/node_id.rs:216-220 | fourteen big-endian bytes give the id back |
| `WireBytes.WriteIds` | kira-lib/src/format/binrw.rs:1645-1663 | the hops are appended one by one |
| `WireBytes.ReadIds` | kira-lib/src/format/binrw.rs:1032-1045 | the hops are read one by one at the cursor |
| `WireObjects.PayloadSplits` | kira-lib/src/format/binrw.rs:1233-1243 | a payload that fits a message splits into the objects it was made of |
| `WireBodies.RouteRoundTrip` | kira-lib/src/format/binrw.rs:1645-1675 | a source route with its progress is read back |
| `WireBodies.NotViaRoundTrip` | kira-lib/src/format/binrw.rs:1677-1706 | links are read back, with age zero |
| `WireBodies.ContactListRoundTrip` | kira-lib/src/format/binrw.rs:1708-1758 | contacts keep id and sequence number |
| `WireBodies.TableRoundTrip` | kira-lib/src/format/binrw.rs:1760-1826 | contacts keep id, path and sequence number |
| `WireBodies.UpdateRoundTrip` | kira-lib/src/format/binrw.rs:1940-2018 | contacts and their actions are read back |
| `WireBodies.ErrorRoundTrip` | kira-lib/src/format/binrw.rs:1286-1328 | every kind of error is read back |
| `WireBodies.StoreReqRoundTrip` | kira-lib/src/format/binrw.rs:1387-1421 | key, data and optional age are read back |
| `WireBodies.FetchRspRoundTrip` | kira-lib/src/format/binrw.rs:1460-1515 | the values, or their absence, are read back |
| `WireMessages.HeaderRoundTrip` | kira-r2kad/src/domain/protocol_message/wire/common_header.rs:32-47 | the 55-byte header is read back |
| `WireSizes.HeaderLayout` | kira-r2kad/src/domain/protocol_message/wire/common_header.rs:32-47 | which byte of the header holds what |
| `WireSizes.ParsedHeaderLayout` | kira-r2kad/src/domain/protocol_message/wire/common_header.rs:32-47 | any 55 bytes are read that way |
| `WireMessages.ParseReqRspPayload` | kira-lib/src/format/binrw.rs:984-1230 | the loop over the cursor finds what the objects hold in any order, and fails on the first overlong one or one of a malformed kind; which bytes of routing-table entries and route indexes are excepted is said below |
| `WireMessages.ListingIsMap` | kira-lib/src/format/binrw.rs:1940-1981 | in whatever order a map is written, reading gives the map, for contacts that differ in id, path or sequence number |
| `WireMessages.RoundTrip` | kira-lib/src/format/binrw.rs:96-173 | every canonical message that serializes is parsed back, whatever the iteration order of its sets and maps: header, route and data are those written, save that contacts of a discovery keep id and sequence number only, a neighbourhood above 255 is read as 255, and links to avoid lose their age |
| `WireMessages.KindIsParsedFor` | kira-lib/src/format/binrw.rs:96-173 | each of the 16 kinds is parsed for exactly the data it carries |
| `WireMessages.ParsedCarriesItsKind` | kira-lib/src/format/binrw.rs:96-173 | from any bytes at all, what parses carries data of its kind |
| `WireSizes.SerializesExactlyWhen` | kira-lib/src/format/binrw.rs:1517-1541 | a message serializes exactly when header and payload, whose size is given field by field, fit in 16 bits, the progress of its route fits in its field, and it does not report a failed store |
| `WireMessages.LengthsAreExact` | kira-lib/src/format/binrw.rs:1517-1541 | whenever any message serializes, canonical or not, the header's length and every object's 16-bit length are exact, although the casts are unchecked |
| `WireMessages.OversizedObjectIsRefused` | kira-lib/src/format/binrw.rs:1517-1541 | an object too long for its length field makes the message be refused |

## Left out

- Bucket tables with more than one bit per level, insertion strategies and path simplification: the protocol is built with one bit per level.
- RoutingTables.FlatRoutingTable: the capacity of buckets and how contacts change state are not modelled.
- Bucket prefix entries of `DeriveFwdTableEntries`, and updates of node-id tables: they rest on routing-table events that are not modelled.
- What PathTeardownReq was meant to remove: handling it changes no forwarding state.
- Overlay.PanicsExactlyWhen: the use cases are taken to be running; messages without a source route, what nodes learn from passing messages (insertion of contacts, reported tables, route updates), the use cases behind the transport other than Store, Fetch and FindNode, and failing allocations are not covered.
- SetupInterleaving.InterleavedSetupDelivers: hops of the request wait for its links; a request lost on the way sets up only the nodes it reached.
- PathWriters.TeardownsLeaveTheVicinity: the changes of a contact are those its write guards make; a guard that both moved and invalidated a contact does not exist.
- `PathProbing`, `Contact::age` and wall-clock reads: time is a parameter where it matters.
- Native tables, sockets, netlink, the REST interface and asynchronous tasks.
- Termination of the loops that drain follow-up events: use cases may raise further events without a bound.
- The digest function itself: it is a parameter taken to be injective.
- The parts of messages that overlay routing does not look at: payloads, flags other than exact and diagnostic, and what nodes learn from passing messages.
- LabelForwarding.Travel: a packet's hop limit bounds the trip; delivery is proved for every limit the path needs.
- RediscoveryNode.FailureHandling: the message texts, the not-via lists and the waiting times of rounds are not part of the state, and table events are handled right after the change that raised them.
- TimerRuntime.R2KadRuntime: the heap is a sequence whose greatest element is searched; the 64-bit timer counter does not overflow.
- InjectorNode.DistributedHashTableInjector: sending the requests themselves is not modelled, only the tables and callbacks.
- WireMessages.RoundTrip: ULNHello, which has no payload, and bytes no writer produces inside routing-table and update objects are not covered.
- WireMessages.ParseReqRspPayload: inside routing-table entries the code asserts that a path ends at its contact and subtracts lengths unchecked, and it asserts that a route index is within the route; on such bytes the model returns an error or a route at its end instead.
- WireMessages.ListingIsMap: contacts that differ only in their state or the time they were last seen are one key here and two in the code.
- WireMessages.Deserialize: the code subtracts the header length from the announced length unchecked; on a message that announces less than its header the model returns an error instead.
