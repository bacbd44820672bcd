# A verified model of the flow runtime's algorithmic cores

The system is a flow-based automation runtime: flows of nodes that exchange
messages, an MQTT broker, a cluster that shares flows between machines, guest
plugins compiled to WebAssembly, and the stores around them. This project
models nine of its cores in Dafny and proves, for every input, run or reachable
state, what each is there for.

| core | files | main results |
|---|---|---|
| MQTT topic index | TopicFilters, TopicIndex, SubscriptionLists, TopicTrie, RetainedStore | a heap of trie nodes with three storage shapes is a plain map from (client, filter) to QoS; routing is matching; exactly which filters that holds for |
| Graphs and environments | Graphs, Shortlex, BreadthFirst, GraphSearch, EnvStore | depth-first sort on any graph, breadth-first shortest paths, and an evaluation order that makes loading independent of entry order |
| Cluster | Gossip, GossipCluster, GossipTiming, Replication, Partition | invariants over all runs of a cluster with an unreliable network, failure detection times, versioned merging, balanced partitions |
| Credentials | Encodings, Credentials, CredentialStore | the deploy rules field by field; load after save under every secret setting |
| Guest memory | WasmMemory | two bump allocators in one linear memory |
| Flow versions | Versioning | a difference that patches, mirrors and is unique; a pruned snapshot store |
| Marketplace | Marketplace | four maps that offer exactly one shelf of binaries |
| Error routing | FlowGroups, Routing | group distance, stable ranking, the cut-off at `uncaught` |
| Number parsing | ParseFloat | the longest decimal literal prefix |

Objects that the program changes in place are classes with heap state, loops are
loops with invariants, and each such method is tied to a specification about which
the laws are proved. Where the program iterates over a hash map the model takes the
elements in an arbitrary order, so a result holds for every order. Clocks, random
bytes, fresh identifiers, the JSON text format, the keystream, the hash and the
version order are parameters; what is assumed of them is stated where they are used.

## Where the code does not do what it seems to promise

* `find_or_create_node` skips `+` levels, so a filter that mixes `+` and `#` is filed
  with another one: `a/+/#` with `a/#`. `TopicIndex.WellFormedAgreement` and
  `TopicIndex.FaithfulIffApart` give the exact conditions for correct routing and
  storage.
* `path_to_bottom` and `path_to_top` document a shortest path whose first element is the
  start, without an edge. A cycle through the start that closes before every path to a
  sink, paths being taken shortest first and then by keys, breaks this: the walk back
  passes the start and goes on round the cycle, so that the path begins elsewhere, though
  from the start on it is the first of all paths to sinks (`GraphSearch.PathTo`,
  `GraphSearch.LoopedExample`). Without such a cycle the documented form holds. In debug
  builds assertions after the walk (crates/core/src/utils/graph.rs:170-182) end the
  program on some of these graphs, the example among them; they are not modelled.
* A suspected peer is refuted on the receiver's copy, whose incarnation then exceeds
  what the peer itself announces. From then on the peer's heartbeats are ignored and
  the failure detector declares it dead for good, unless a full sync, a leave or a
  restart intervenes. `GossipCluster.NeverHeardIffCutOff` gives the exact condition and
  `GossipCluster.RepeatedHeartbeatCutsOff` a run that meets it.
* A flow that is dropped and comes back starts at generation one again. Replicas that
  saw a higher generation stay with the old owner (`Partition.LatestWinsIff`,
  `Partition.DroppedFlowSplits`).
* The host heap is said to start after the global allocator's region, but nothing
  stops that region at 131072 (`WasmMemory.GuestMemory.HeapsMeetIff`,
  `WasmMemory.HeapsCanMeet`).
* Deleting a shared context key leaves no version behind, so any old update for it brings
  it back (`Replication.DeletedComesBack`).
* A group id that is registered again drops the earlier group, which later groups may have
  as their parent. Looking for catch nodes then ends the program when it climbs there
  (`FlowGroups.ParentAliveIff`, `Routing.FindCandidates`).
* With a version limit of zero every save is pruned at once and numbering starts over
  (`FlowVersions.FlowVersionStore.SaveVersion`).

## Model

| member | source | states |
|---|---|---|
| `TopicFilters.JoinSplit` | crates/mqtt-broker/src/broker/retained.rs:52-53 | joining the levels of a text cut at `/` gives the text back |
| `TopicFilters.SplitJoin` | crates/mqtt-broker/src/broker/retained.rs:52-53 | cutting joined levels gives the levels back, so filters and level lists are one and the same thing |
| `TopicFilters.LastLevelEnding` | crates/mqtt-broker/src/broker/subscription.rs:32 | `ends_with('#')` on the text is a question about its last level only |
| `TopicFilters.TopicMatchesFilter` | crates/mqtt-broker/src/broker/retained.rs:51-67 | the two-index loop decides exactly the recursive level-by-level matching relation, for every filter and topic |
| `TopicFilters.MatchesIsAccepts` | crates/mqtt-broker/src/broker/retained.rs:51-67 | the matching relation is acceptance by a pattern: the levels before the first `#`, open-ended if there is one |
| `TopicFilters.PatternsDecided` | crates/mqtt-broker/src/broker/retained.rs:51-67 | two patterns accept the same topics if and only if they are equal or both accept everything; the converse is proved by building the topic that tells them apart |
| `TopicIndex.StripConcat` | crates/mqtt-broker/src/broker/subscription.rs:152-164 | skipping wildcard levels distributes over concatenation, which is what walking level by level relies on |
| `TopicIndex.SlotMatchesIsAccepts` | crates/mqtt-broker/src/broker/subscription.rs:83-116 | each of the three storage shapes is matched as one pattern: exact path, path plus anything, or a `+` filter level by level |
| `TopicIndex.AgreesDecided` | crates/mqtt-broker/src/broker/subscription.rs:29-49 | for every filter text, well formed or not: live matching and the plain matcher agree on all topics if and only if two finite patterns are equal or both accept everything |
| `TopicIndex.HashAgreement` | crates/mqtt-broker/src/broker/subscription.rs:32-37 | a well formed filter ending in `#` is routed as it should be if and only if it has no `+` level or is `+/#` |
| `TopicIndex.PlainAgreement` | crates/mqtt-broker/src/broker/subscription.rs:38-48 | every other well formed filter is routed exactly as the plain matcher says |
| `TopicIndex.WellFormedAgreement` | crates/mqtt-broker/src/broker/subscription.rs:29-49 | over all well formed filters: agreement holds if and only if the filter does not mix `+` and `#`, or is `+/#` |
| `TopicIndex.SlotCollision` | crates/mqtt-broker/src/broker/subscription.rs:152-164 | two well formed filters share a storage slot if and only if they are equal, or both end in `#` and name the same nodes once `+` levels are skipped |
| `TopicIndex.HashSlot` | crates/mqtt-broker/src/broker/subscription.rs:32-37 | a well formed `#` filter is filed under its named levels, from which it is recovered unless it mixes the wildcards |
| `TopicIndex.PlainSlot` | crates/mqtt-broker/src/broker/subscription.rs:38-48 | any other well formed filter is recovered from its slot |
| `TopicIndex.RegularFiltersApart` | crates/mqtt-broker/src/broker/subscription.rs:29-49 | filters that do not mix the wildcards never share a slot |
| `TopicIndex.StepRepresents` | crates/mqtt-broker/src/broker/subscription.rs:29-80 | one subscribe, unsubscribe or remove-client call keeps the filed entries equal to the plain map from (client, filter) to last QoS, while slots keep apart |
| `TopicIndex.RunRepresents` | crates/mqtt-broker/src/broker/subscription.rs:29-80 | every run of calls over filters that keep apart leaves exactly that plain map, each pair stored once |
| `TopicIndex.LastCallDecides` | crates/mqtt-broker/src/broker/subscription.rs:29-80 | in the plain map a pair has a QoS if and only if the last call that settles the pair subscribed it so |
| `TopicIndex.FaithfulIffApart` | crates/mqtt-broker/src/broker/subscription.rs:29-80 | for a set of filters: every run leaves the plain map if and only if no two of them share a slot; a shared slot yields a two-call run that loses a subscription |
| `TopicIndex.MixedCollides` | crates/mqtt-broker/src/broker/subscription.rs:155 | every mixed filter shares its slot with the filter that drops its `+` levels |
| `TopicIndex.MixedExample` | crates/mqtt-broker/src/broker/subscription.rs:155 | the concrete case: `a/+/#` is filed with `a/#` |
| `TopicIndex.RoutingIsMatching` | crates/mqtt-broker/src/broker/subscription.rs:83-116 | after every such run, a topic reaches exactly one entry per subscribed pair whose filter the plain matcher accepts, with that pair's last QoS |
| `TopicIndex.RegularRouting` | crates/mqtt-broker/src/broker/subscription.rs:29-116 | the same for all runs over well formed filters that do not mix `+` and `#`, with no other condition |
| `SubscriptionLists.RetainInOrder` | crates/mqtt-broker/src/broker/subscription.rs:36 | `retain` keeps the entries of other clients one by one, in order and with their multiplicity |
| `SubscriptionLists.ListsAfterPut` | crates/mqtt-broker/src/broker/subscription.rs:35-47 | retain-then-push leaves a list that holds exactly the updated table's entries for its slot, one per client |
| `SubscriptionLists.ListsAfterRemove` | crates/mqtt-broker/src/broker/subscription.rs:74-80 | retain leaves a list that holds exactly the table without that client |
| `SubscriptionLists.WildAfterPut` | crates/mqtt-broker/src/broker/subscription.rs:38-42 | the same for the linear list of `+` filters, one entry per client and filter |
| `SubscriptionLists.TopicMatchesSingleWildcard` | crates/mqtt-broker/src/broker/subscription.rs:186-197 | the loop over zipped levels decides the `+` matching relation, for every filter text |
| `SubscriptionLists.PushAll` | crates/mqtt-broker/src/broker/subscription.rs:98-116 | appending a list delivers each of its entries once more and no other |
| `SubscriptionLists.MatchWildcards` | crates/mqtt-broker/src/broker/subscription.rs:88-95 | the linear scan adds exactly the `+` entries that match, each once |
| `SubscriptionLists.DeliveredCount` | crates/mqtt-broker/src/broker/subscription.rs:83-116 | delivering each entry once means each subscription is delivered as often as there are entries for it |
| `SubscriptionLists.DeliveriesAreMatches` | crates/mqtt-broker/src/broker/subscription.rs:29-116 | for every run over well formed filters that do not mix `+` and `#`, and every topic: each subscription is delivered exactly once per subscribed pair of its client and QoS whose filter the plain matcher accepts |
| `TopicTries.TopicTrie.FindOrCreateNode` | crates/mqtt-broker/src/broker/subscription.rs:152-164 | walks to the node of the named levels, adding only empty nodes and keeping the tree a tree and every list filed |
| `TopicTries.TopicTrie.FindNode` | crates/mqtt-broker/src/broker/subscription.rs:166-181 | finds the node of the named levels, or null exactly when there is none |
| `TopicTries.TopicTrie.NoNodeBelow` | crates/mqtt-broker/src/broker/subscription.rs:166-181 | no node hangs below a missing one, so the search may stop |
| `TopicTries.TopicTrie.Subscribe` | crates/mqtt-broker/src/broker/subscription.rs:29-49 | on the heap of nodes, the call does exactly what the table operation says and keeps tree, lists and table consistent |
| `TopicTries.TopicTrie.Unsubscribe` | crates/mqtt-broker/src/broker/subscription.rs:51-66 | the same for unsubscribing, including a filter never subscribed |
| `TopicTries.TopicTrie.RemoveSubscriptionsForClient` | crates/mqtt-broker/src/broker/subscription.rs:69-72 | removes exactly the client's entries from every node and the linear list |
| `TopicTries.TopicTrie.RemoveRecursive` | crates/mqtt-broker/src/broker/subscription.rs:74-80 | clears the client from every node at or below this one and touches no other |
| `TopicTries.TopicTrie.MatchTopic` | crates/mqtt-broker/src/broker/subscription.rs:83-96 | as a multiset, the results are exactly the reached entries: each subscription as often as there are entries for it |
| `TopicTries.TopicTrie.MatchRecursive` | crates/mqtt-broker/src/broker/subscription.rs:98-116 | the recursion delivers exactly the entries on the topic's path from this depth on, each once |
| `TopicTries.TopicTrie.NothingBelow` | crates/mqtt-broker/src/broker/subscription.rs:98-116 | a missing node on the topic's path means no entry further along it |
| `TopicTries.Replay` | crates/mqtt-broker/src/broker/subscription.rs:25-80 | any sequence of calls on a new trie leaves a consistent heap that holds exactly the entries of the run |
| `TopicTries.Publish` | crates/mqtt-broker/src/broker/subscription.rs:25-116 | the whole broker index on the heap: after any calls with well formed filters that do not mix `+` and `#`, a topic is delivered to each subscription exactly once per subscribed pair whose filter the plain matcher accepts |
| `TopicTries.PublishExample` | crates/mqtt-broker/src/broker/subscription.rs:83-116 | a subscription of `a/+` gets what is published on `a/b`, once, and not what is published on `a/b/c` |
| `RetainedStores.LatestRetained` | crates/mqtt-broker/src/broker/retained.rs:20-34 | after any sequence of store and remove calls, a filter finds exactly the topics it matches whose last call stored a message, each once with that message |
| `RetainedStores.RetainedStore.MatchRetained` | crates/mqtt-broker/src/broker/retained.rs:28-34 | returns each retained message whose topic the filter matches, once, in any order, and nothing else |
| `RetainedStores.LiveAndRetainedAgree` | crates/mqtt-broker/src/broker/retained.rs:28-34 | after any calls with well formed filters that do not mix `+` and `#`, and any retained messages: unsubscribing a pair costs exactly one delivery of a message on the topic if the pair's filter finds the topic's retained message, and none if it does not |
| `GraphPaths.SuccessorsMakeCycle` | crates/core/src/utils/graph.rs:55-76 | a finite set of nodes in which each has a successor contains a cycle reachable from the start of any walk in it |
| `Graphs.Graph.Link` | crates/core/src/utils/graph.rs:20-23 | adds exactly one edge, keeps the values of all edges there were, and does not add the child as a node |
| `Graphs.Graph.Sort` | crates/core/src/utils/graph.rs:55-64 | succeeds if and only if every edge leads to an added node; then lists each node once, each after its successors except those that lead back to it |
| `Graphs.Graph.SortInnerVisit` | crates/core/src/utils/graph.rs:66-76 | the recursive visit terminates on every graph, never lists a node twice and keeps the order property while nodes are under visit |
| `Graphs.SuccessorsFirstIffAcyclic` | crates/core/src/utils/graph.rs:55-76 | any such order puts all successors first if and only if the graph has no cycle but self-loops |
| `TopologicalSorters.TopologicalSorter.AddVertex` | crates/core/src/utils/topo.rs:22-24 | adds a vertex and no dependency |
| `TopologicalSorters.TopologicalSorter.AddDep` | crates/core/src/utils/topo.rs:26-29 | adds both vertices and exactly one dependency, keeping the sort's condition true |
| `TopologicalSorters.TopologicalSorter.TopologicalSort` | crates/core/src/utils/topo.rs:37-39 | never fails, and lists each vertex once, cycles or not |
| `TopologicalSorters.TopologicalSorter.DependencySort` | crates/core/src/utils/topo.rs:41-45 | lists each vertex once; a dependency comes first unless it depends on its dependent too; all do if and only if the dependencies are acyclic apart from self-loops |
| `TopologicalSorters.ReversedFirst` | crates/core/src/utils/topo.rs:41-45 | reversing exchanges successors-first and dependencies-first |
| `BreadthFirst.Expand` | crates/core/src/utils/graph.rs:148-155 | links and queues exactly the successors not linked yet, in the order of keys, keeping the queue in the order of its paths |
| `BreadthFirst.PathDone` | crates/core/src/utils/graph.rs:145-160 | every path that comes before the one just reached, shortest first and then by keys, ends in a node whose edges were followed |
| `BreadthFirst.Search` | crates/core/src/utils/graph.rs:142-160 | the loop terminates on every graph; it ends at the sink whose path comes first of all, or there is none; the start is linked back to if and only if some cycle through it closes before every path to a sink |
| `GraphSearch.WalkBack` | crates/core/src/utils/graph.rs:162-171 | following the links back, each once, gives a path of real edges without repeated nodes that ends in the tree path of the last node; it is that path and begins without an edge if and only if nothing links back to the start |
| `GraphSearch.PathTo` | crates/core/src/utils/graph.rs:135-171 | on every graph: a real edge path, no node twice, ending in a sink whenever one is reachable; it passes the start and goes on from there by the first of all paths to sinks, shortest first and then by keys; its first element carries an edge if and only if some cycle through the start closes before every path to a sink in that order, and is the start otherwise |
| `GraphSearch.PathToBottom` | crates/core/src/utils/graph.rs:112-114 | all that for the stored edges: each step follows one and carries it; and when nothing reachable lies on a cycle, it starts at the given node without an edge and ends in a node without outgoing edges |
| `GraphSearch.PathToTop` | crates/core/src/utils/graph.rs:124-131 | on the stored edges themselves: each step goes against an edge to its source and carries that edge; the path passes the start, and from there on no path up to a node without predecessors comes before it; when nothing that leads to the node lies on a cycle, it starts there without an edge and ends in a node no edge leads to |
| `GraphSearch.PathsTurned` | crates/core/src/utils/graph.rs:124-131 | the paths up are exactly the paths down, turned round |
| `GraphSearch.TopPathIff` | crates/core/src/utils/graph.rs:124-131 | a path against the stored edges to a node without predecessors is a path to a sink of the turned graph, and the other way round |
| `BreadthFirst.CycleClosed` | crates/core/src/utils/graph.rs:148-155 | a cycle through the start that closes before what was reached has linked the start back |
| `GraphSearch.LoopedExample` | crates/core/src/utils/graph.rs:104-114 | a graph on which the documented form fails, outside debug builds: asked for the path from 0, the call returns one that begins at 1 and carries an edge there |
| `BreadthFirst.NoSinkBefore` | crates/core/src/utils/graph.rs:142-160 | no path to a sink comes before what was followed already |
| `GraphSearch.AcyclicHasSink` | crates/core/src/utils/graph.rs:112-114 | without cycles below the start there is a sink to find |
| `EnvStores.KeepLastNames` | crates/core/src/runtime/red_env.rs:103-115 | dropping earlier duplicates keeps each name exactly once |
| `EnvStores.KeepLastIsLast` | crates/core/src/runtime/red_env.rs:103-115 | an entry is kept if and only if no later one has its name |
| `EnvStores.LookupIsFirst` | crates/core/src/runtime/red_env.rs:51-58 | with the stores listed from one outwards, a lookup gives the value of the first store that has the variable |
| `EnvStores.LookupNoneIff` | crates/core/src/runtime/red_env.rs:51-58 | and none if and only if no store of the list has it |
| `EnvStores.RedEnvStoreBuilder.ExistedIs` | crates/core/src/runtime/red_env.rs:216-222 | while loading, the builder's own variable comes first, then the first holder of the stores around it |
| `EnvStores.RedEnvStoreBuilder.EvaluateIs` | crates/core/src/runtime/red_env.rs:205-240 | a value is read as its type says; a reference without `${` as the name it is but for white space around it |
| `EnvStores.ReferencesIff` | crates/core/src/runtime/red_env.rs:117-124 | the sorted references are exactly those of the `env` entries |
| `EnvStores.PlainIff` | crates/core/src/runtime/red_env.rs:224-240 | a bare name has no white space around it and no dollar sign before a brace in it |
| `EnvStores.SolutionUnique` | crates/core/src/runtime/red_env.rs:117-134 | with references acyclic apart from self-references, at most one map gives every entry the value its text stands for |
| `EnvStores.SortNames` | crates/core/src/runtime/red_env.rs:117-124 | the names come in an order with referents first whenever there is one |
| `EnvStores.RedEnvStoreBuilder.EvaluateInOrder` | crates/core/src/runtime/red_env.rs:126-134 | evaluating in that order yields a map in which every entry is settled against the final map, and changes no other name |
| `EnvStores.RedEnvStoreBuilder.LoadJson` | crates/core/src/runtime/red_env.rs:101-139 | the built map solves the recursive definition on the last entries of each name; each reference has the final value of its variable in this store, or else the value of the first store around it that has one, and without any changes nothing; an unparsable list changes nothing |
| `EnvStores.InheritedExample` | crates/core/src/runtime/red_env.rs:101-139 | a variable that names one of the store around it takes that one's value |
| `EnvStores.OrderIndependent` | crates/core/src/runtime/red_env.rs:101-139 | two lists with the same last entries, in any order, load to the same map |
| `EnvStores.DistinctKept` | crates/core/src/runtime/red_env.rs:103-115 | entries with distinct names are all kept, so permuting them changes nothing |
| `EnvStores.LoadPermuted` | crates/core/src/runtime/red_env.rs:101-139 | loading two permutations of entries with distinct names gives equal variables, which solve the recursive definition |
| `Membership.GossipEngine.ProcessHeartbeat` | crates/cluster/src/gossip.rs:437-463 | the sender gets a new entry with all it says, keeps its entry if the message is stale, and otherwise takes over all it says, with one incarnation more if it was suspected; no other entry changes |
| `Membership.GossipEngine.ProcessFullSync` | crates/cluster/src/gossip.rs:465-487 | over the whole message: an unknown node is known afterwards if and only if some digest does not call it dead; a known one has the highest incarnation among its own and the digests, with state and address of the first digest that has it if it rose, and is unchanged otherwise |
| `Membership.SyncLaw` | crates/cluster/src/gossip.rs:465-487 | that law holds for every table and every list of digests |
| `GossipCluster.SyncSpreads` | crates/cluster/src/gossip.rs:269-283 | whatever happens in between, wherever a full sync arrives every node it lists as not dead is known afterwards, with no lower incarnation |
| `Membership.GossipEngine.HandleMessage` | crates/cluster/src/gossip.rs:548-625 | every message kind on both receiving paths: heartbeat and full sync as above, a leave removes exactly the named entry except the local one on the TCP path, and an acknowledgement does nothing |
| `Membership.GossipEngine.DetectFailures` | crates/cluster/src/gossip.rs:318-363 | for every iteration order: each remote entry is Dead if silent for longer than the timeout, Suspect if Alive and silent for longer than half of it, and otherwise unchanged; the local entry and all other fields stay |
| `Membership.GossipEngine.CollectActions` | crates/cluster/src/gossip.rs:322-345 | each remote entry that must change is listed once with its new state |
| `Membership.GossipEngine.ApplyActions` | crates/cluster/src/gossip.rs:348-362 | applying the list leaves exactly the aged table |
| `Membership.IsAliveIff` | crates/cluster/src/member.rs:83-85 | alive means neither suspected nor dead nor joining |
| `GossipTiming.StepEvent` | crates/cluster/src/gossip.rs:437-463 | in any cluster, an accepted heartbeat and a tick act on a peer's entry as the two events say, and nothing else acts on it but a sync, a leave or a restart |
| `GossipTiming.RunEvents` | crates/cluster/src/gossip.rs:318-363 | over every run in which none of those touches the entry, its state and time are what its events make of them |
| `GossipTiming.TimeIsLastAccepted` | crates/cluster/src/member.rs:78-81 | over such runs the entry's time is that of the last heartbeat accepted from the peer |
| `GossipTiming.HeardPeerStaysAlive` | crates/cluster/src/gossip.rs:318-363 | in every cluster run, a peer from which at every tick a heartbeat was accepted within half the timeout never leaves Alive |
| `GossipTiming.SilentPeerIsDead` | crates/cluster/src/gossip.rs:329-331 | in every cluster run, a peer from which nothing was accepted for longer than the timeout is Dead after the next tick, whatever its state |
| `GossipTiming.SilentPeerIsSuspectFirst` | crates/cluster/src/gossip.rs:329-345 | in every cluster run that ends with a silent, once Alive peer Dead, with each tick at most timeout minus half the timeout after the one before: the peer was Suspect somewhere on the way if and only if the first tick came within the timeout of the last heartbeat |
| `GossipTiming.SuspicionSkipped` | crates/cluster/src/gossip.rs:329-345 | in every cluster state with the peer Alive, two ticks any further apart take it straight to Dead, so that bound is exact |
| `GossipCluster.StepAccounted` | crates/cluster/src/gossip.rs:252-291 | every start, send, receive, detection or leave of any node keeps all claims in tables and in flight accounted for |
| `GossipCluster.RunAccounted` | crates/cluster/src/member.rs:100-104 | over every run with lost, duplicated and reordered messages, each incarnation in any table or message is at most the number of refutations of that node so far, and only started nodes are named |
| `GossipCluster.RunKeepsUp` | crates/cluster/src/gossip.rs:437-487 | an entry's incarnation never falls while it stays in the table |
| `GossipCluster.RunHeartbeatsAlive` | crates/cluster/src/gossip.rs:252-258 | every heartbeat ever sent announces a live sender |
| `GossipCluster.StepClaims` | crates/cluster/src/member.rs:100-104 | without a restart or a sync, what a node says of itself in its table and its heartbeats rises only by refuting a suspicion of itself, once |
| `GossipCluster.StepCutOff` | crates/cluster/src/member.rs:100-104 | once a node records a higher incarnation of a peer than the peer and its heartbeats can carry, no quiet step refreshes that entry |
| `GossipCluster.CutOffForGood` | crates/cluster/src/member.rs:100-104 | over every quiet run the entry's time stands still, and one tick after the timeout makes the peer Dead for good although it keeps sending |
| `GossipCluster.CanBeHeard` | crates/cluster/src/gossip.rs:437-463 | if the peer's claims are not all below the record, some quiet run gets a heartbeat of it accepted |
| `GossipCluster.NeverHeardIffCutOff` | crates/cluster/src/member.rs:100-104 | for any two acquainted nodes in any cluster state: no quiet run ever refreshes the entry if and only if the peer is cut off |
| `GossipCluster.FirstRefutationCutsOff` | crates/cluster/src/member.rs:100-104 | after every run without refutations of a node that does not suspect itself, its first refutation by another node cuts it off |
| `GossipCluster.RepeatedHeartbeatCutsOff` | crates/cluster/src/member.rs:100-104 | a reachable case, for any two nodes and any positive timeout: a heartbeat delivered again after a suspicion cuts its sender off |
| `Replication.MergeAllHoldsHighest` | crates/cluster/src/sync.rs:98-108 | after any updates each key holds an offered entry with the highest version, and no key appears that was not offered |
| `Replication.MergeOrderFree` | crates/cluster/src/sync.rs:98-108 | when equal versions mean equal values, any reordering and repetition of the updates gives the same table |
| `Replication.MergeIdempotent` | crates/cluster/src/sync.rs:98-108 | updates already merged change nothing, whatever their versions |
| `Replication.MergeKeepsFirst` | crates/cluster/src/sync.rs:98-108 | of entries with the same highest version the first one stays: the one that was there, or the first to arrive |
| `Replication.SyncManager.ContextSet` | crates/cluster/src/sync.rs:79-84 | a local write gets a version one higher, so it is itself a merge |
| `Replication.DeletedComesBack` | crates/cluster/src/sync.rs:92-108 | a deletion is not versioned: a deleted key comes back if and only if some update for it arrives, however old |
| `Replication.SyncManager.DeleteThenApply` | crates/cluster/src/sync.rs:92-108 | the two calls one after the other leave the key if and only if an update is for it |
| `Replication.SyncManager.ApplyContextUpdates` | crates/cluster/src/sync.rs:98-108 | the loop is the merge, and holds the highest versions |
| `RoundRobin.EvenDeal` | crates/cluster/src/partition.rs:60-68 | distinct items dealt round robin: the counts of two places differ by at most one |
| `Partition.DealBalanced` | crates/cluster/src/partition.rs:60-68 | a deal of distinct flows over distinct nodes is balanced |
| `Partition.PartitionManager.ComputeAssignments` | crates/cluster/src/partition.rs:52-95 | the table's keys become exactly the given flows, owners are alive, counts differ by at most one, a generation rises by one exactly with a new owner, and the returned list holds every entry once; no member alive changes nothing and returns nothing |
| `Partition.PartitionManager.RebalanceAfterFailure` | crates/cluster/src/partition.rs:101-132 | moves exactly the dead node's flows, onto survivors, with counts received differing by at most one, for every iteration order, and returns every entry once; no survivor changes nothing and returns nothing |
| `Partition.PartitionManager.MoveFlows` | crates/cluster/src/partition.rs:117-129 | the loop moves each of the dead node's flows once, one generation up, and leaves the others |
| `Partition.PartitionManager.ApplyAssignments` | crates/cluster/src/partition.rs:150-160 | taking over assignments is the same merge as for context, by generation |
| `Partition.GenerationsGrow` | crates/cluster/src/partition.rs:70-92 | over every history of a leader, generations of a never dropped flow rise, and equal ones mean equal entries |
| `Partition.ReplicaHoldsLatest` | crates/cluster/src/partition.rs:150-160 | whatever snapshots were lost, repeated or reordered, a replica holds for a never dropped flow the entry of the latest one it received |
| `Partition.AtMostOneOwner` | crates/cluster/src/partition.rs:145-148 | of nodes whose replicas have the leader's latest table at most one runs the flow |
| `Partition.LatestWinsIff` | crates/cluster/src/partition.rs:150-160 | for every history, dropped flows included: the latest entry wins in all orders of arrival if and only if no different entry issued for the flow has as high a generation |
| `Partition.DroppedFlowSplits` | crates/cluster/src/partition.rs:52-95 | calls of the leader after which a node that received its second and its last list takes another node for the owner than the leader does |
| `Encodings.HexRoundTrip` | crates/core/src/runtime/credentials.rs:454-469 | hex decoding inverts encoding on all byte strings |
| `Encodings.HexEncodeAt` | crates/core/src/runtime/credentials.rs:465-469 | each byte is written as its two lower-case digits |
| `Encodings.HexDecodesIff` | crates/core/src/runtime/credentials.rs:454-463 | exactly the texts of pairs of digits are read |
| `Encodings.SextetTable` | crates/core/src/runtime/credentials.rs:465-469 | the alphabet is that of table 1 of RFC 4648 |
| `Encodings.Base64Canonical` | crates/core/src/runtime/credentials.rs:454-463 | only what the encoder writes is read: no missing padding, no stray bits |
| `Encodings.Base64RoundTrip` | crates/core/src/runtime/credentials.rs:454-469 | base64 (section 4 of RFC 4648, with padding) decoding inverts encoding on all byte strings |
| `Encodings.Base64Printable` | crates/core/src/runtime/credentials.rs:454-469 | the encoding holds no white space, so trimming it does nothing |
| `Encodings.XorTwice` | crates/core/src/runtime/credentials.rs:454-469 | exclusive or with the same number twice is the identity, for all naturals |
| `Encodings.KeystreamTwice` | crates/core/src/runtime/credentials.rs:454-469 | applying a keystream (section 6.5 of NIST SP 800-38A) twice gives the data back |
| `Encodings.KeystreamBit` | crates/core/src/runtime/credentials.rs:454-469 | every bit of the data is flipped exactly where the keystream has a one |
| `Credentials.OverlayInline` | crates/core/src/runtime/credentials.rs:354-365 | the loop gives, key by key, the inline value if real and else the stored one |
| `Credentials.ApplyEdits` | crates/core/src/runtime/credentials.rs:394-409 | the loop gives, key by key, what the editor sent: kept if the untouched password, gone if blank or null, else replaced |
| `Credentials.MergeInline` | crates/core/src/runtime/credentials.rs:327-339 | each id holds its stored fields under the inline fields of the current flows, and no entry is empty |
| `Credentials.ExtractCredentials` | crates/core/src/runtime/credentials.rs:387-416 | every node with a string id loses its credentials and nothing else; each id with a node holds the edited fields, ids without one are gone |
| `Credentials.PrepareDeploy` | crates/core/src/runtime/credentials.rs:326-349 | the two together, and a change is reported if and only if the store differs |
| `Credentials.OneLayer` | crates/core/src/runtime/credentials.rs:326-349 | with distinct ids only one node's fields count for an id |
| `Credentials.DeployedField` | crates/core/src/runtime/credentials.rs:387-416 | each field after a deploy: the editor's value if real, absent if blank or null, otherwise the real inline value of the current flows, otherwise the stored value |
| `Credentials.DeployedValue` | crates/core/src/runtime/credentials.rs:387-416 | the same on the values themselves: null, white space, `__PWRD__` and everything else |
| `Credentials.SpeakerOf` | crates/core/src/runtime/credentials.rs:328-336 | the fields that count for an id are those inline in its node |
| `Credentials.StrippedNode` | crates/core/src/runtime/credentials.rs:387-416 | no node with a string id keeps credentials, and every other field stays |
| `Credentials.RepeatDeployWritesNothing` | crates/core/src/runtime/credentials.rs:342-348 | a deploy that sends only `__PWRD__` over flows without inline credentials leaves the store as it was |
| `Credentials.DeploySettles` | crates/core/src/runtime/credentials.rs:326-349 | what a deploy leaves behind meets the conditions of such a repeat |
| `CredentialStores.DecryptEncrypt` | crates/core/src/runtime/credentials.rs:454-469 | decrypting with the same secret gives back the object that was encrypted, or nothing when it was no object |
| `CredentialStores.PlainLoads` | crates/core/src/runtime/credentials.rs:217-240 | a plain file loads back, one whose only node id is `$` included |
| `CredentialStores.DecryptIff` | crates/core/src/runtime/credentials.rs:454-463 | a text is decrypted if and only if it is 16 bytes of start value in hexadecimal and, but for white space, the base64 of an object's JSON under the keystream |
| `CredentialStores.RuntimeSecretFirst` | crates/core/src/runtime/credentials.rs:199-209 | the runtime secret is that of the first directory and file that has one, later directories included |
| `CredentialStores.RuntimeSecretNone` | crates/core/src/runtime/credentials.rs:199-209 | there is none if and only if no file of any directory has one |
| `CredentialStores.LoadEncrypted` | crates/core/src/runtime/credentials.rs:242-264 | an encrypted file loads under the configured secret if that opens it, else under the runtime secret if that does; the secret is wrong if and only if there is one and none opens the file; the two other errors come exactly when there is none, as the setting says |
| `CredentialStores.RuntimeSecretLoads` | crates/core/src/runtime/credentials.rs:242-264 | a file encrypted under the runtime secret loads back under every setting whose own secret does not open it |
| `CredentialStores.LoadCases` | crates/core/src/runtime/credentials.rs:217-240 | a missing or blank file is empty, anything but an object is malformed, and a plain object keeps its object entries |
| `CredentialStores.EncryptedLoads` | crates/core/src/runtime/credentials.rs:242-264 | an encrypted file loads back when its secret is the first candidate |
| `CredentialStores.SameRuntimeSecret` | crates/core/src/runtime/credentials.rs:199-209 | writing the credentials file changes no runtime secret |
| `CredentialStores.CredentialStore.GenerateRuntimeSecret` | crates/core/src/runtime/credentials.rs:289-304 | after it, the secret found is the generated one, and all other files stay |
| `CredentialStores.CredentialStore.Save` | crates/core/src/runtime/credentials.rs:270-286 | for every secret setting, loading afterwards gives back exactly what was saved; the file is plain when encryption is disabled and otherwise one text that the configured or else the runtime secret opens; saving nothing creates no file |
| `CredentialStores.CredentialStore.ExtractForDeploy` | crates/core/src/runtime/credentials.rs:326-349 | what the store then loads is the deployed fields for every id; an unreadable store is left alone; nothing is written when nothing changed |
| `CredentialStores.CredentialStore.DeployTwice` | crates/core/src/runtime/credentials.rs:326-349 | of two deploys, the second with the same nodes and only untouched passwords, the second leaves every file as the first did |
| `Bits.MaskRoundsDown` | crates/wasm-sdk/src/lib.rs:48 | masking off the low bits of a word is rounding down to a multiple, for every width |
| `Bits.RoundUpLeast` | crates/wasm-sdk/src/lib.rs:48 | adding one less than the alignment first gives the least multiple not below the address |
| `WasmMemory.MaskUpAligns` | crates/wasm-sdk/src/lib.rs:48 | the mask expression on 32-bit words is the least aligned address at or above the pointer, for every power of two, short of overflow |
| `WasmMemory.PagesCover` | crates/wasm-sdk/src/lib.rs:103-105 | the pages asked for are enough for every byte and not one too many |
| `WasmMemory.GuestMemory.EnsurePages` | crates/wasm-sdk/src/lib.rs:103-112 | grows exactly when needed, fails only if the host refuses, and then leaves the memory alone |
| `WasmMemory.GuestMemory.Alloc` | crates/wasm-sdk/src/lib.rs:40-63 | a block is aligned, follows all earlier ones and lies in grown memory; it is refused if and only if the memory there is does not reach its end and the host does not grow it, and then the pointer is unchanged; memory grows only as far as needed; size zero returns the alignment and changes nothing |
| `WasmMemory.GuestMemory.InitHeapPtr` | crates/wasm-sdk/src/lib.rs:115-121 | sets up the host heap at 131072 on first use only |
| `WasmMemory.GuestMemory.RustRedAlloc` | crates/wasm-sdk/src/lib.rs:125-138 | the same for the host heap, with room rounded up to eight |
| `WasmMemory.GuestMemory.WriteToHost` | crates/wasm-sdk/src/lib.rs:150-164 | the new block reads back as the data and everything written before still does |
| `WasmMemory.GuestMemory.ReadFromHost` | crates/wasm-sdk/src/lib.rs:142-147 | returns the bytes at the addresses asked for |
| `WasmMemory.GuestMemory.BlocksApart` | crates/wasm-sdk/src/lib.rs:40-63 | in every reached state blocks of one heap are disjoint, and those of the two heaps are too while the global pointer is at most 131072 |
| `WasmMemory.ReadBack` | crates/wasm-sdk/src/lib.rs:142-147 | what is read from a written block is what was written |
| `WasmMemory.GuestMemory.HeapsMeetIff` | crates/wasm-sdk/src/lib.rs:115-121 | in every reached state the two heaps have used a common address if and only if both have used address 131072, and only then can their blocks overlap |
| `WasmMemory.HeapsCanMeet` | crates/wasm-sdk/src/lib.rs:115-121 | a run of two allocations whose blocks overlap |
| `FlowDiffs.BuildNodeMap` | crates/web/src/versioning.rs:293-295 | holds the nodes with a text id, under it, and misses none |
| `FlowDiffs.HoldsLast` | crates/web/src/versioning.rs:293-295 | of nodes with one id it holds the last |
| `FlowDiffs.ValueIff` | crates/web/src/versioning.rs:297-317 | a missing field counts as null, and nothing else does |
| `FlowDiffs.DiffNodeFields` | crates/web/src/versioning.rs:297-317 | finds exactly the fields whose values differ, a missing one counting as null, with both values |
| `FlowDiffs.ComputeDiff` | crates/web/src/versioning.rs:266-291 | finds exactly the added, removed and modified nodes of any two snapshots |
| `FlowDiffs.PatchGivesSecond` | crates/web/src/versioning.rs:266-317 | carrying out the difference on the first snapshot gives the second, up to null against missing fields |
| `FlowDiffs.EmptyIffSame` | crates/web/src/versioning.rs:266-317 | the difference is empty if and only if the snapshots agree up to that |
| `FlowDiffs.DiffUnique` | crates/web/src/versioning.rs:266-317 | two snapshots have one difference |
| `FlowDiffs.DiffMirrors` | crates/web/src/versioning.rs:266-317 | swapping the snapshots mirrors it |
| `FlowVersions.SavedIndex` | crates/web/src/versioning.rs:88-126 | a save keeps numbering without gaps and leaves exactly the newest entries in the index |
| `FlowVersions.SavedFiles` | crates/web/src/versioning.rs:219-236 | and exactly their files |
| `FlowVersions.FlowVersionStore.SaveVersion` | crates/web/src/versioning.rs:88-126 | in every run of saves ids strictly increase for a limit of at least one and exactly the newest snapshots are kept, with their time, user, checksum and size; with a limit of zero nothing is kept, and with versioning off nothing happens |
| `FlowVersions.FlowVersionStore.PruneOldVersions` | crates/web/src/versioning.rs:219-236 | removes exactly the oldest entries beyond the limit and their files |
| `FlowVersions.FlowVersionStore.ListVersions` | crates/web/src/versioning.rs:128-141 | a page of the newest-first list |
| `FlowVersions.FlowVersionStore.GetVersion` | crates/web/src/versioning.rs:143-161 | finds exactly the kept ids, and each comes back as it was saved |
| `FlowVersions.PagesConcatenate` | crates/web/src/versioning.rs:128-141 | successive pages join without gap or repetition |
| `FlowVersions.AllPages` | crates/web/src/versioning.rs:128-141 | enough pages give the whole reversed index |
| `Marketplace.KeyInjective` | crates/marketplace/src/store.rs:124 | the key of a stored pair is made by that pair only, even against made-up ids and versions |
| `Marketplace.Greatest` | crates/marketplace/src/store.rs:83 | finds the greatest published version in any order of iteration |
| `Marketplace.PluginStore.CheckPublish` | crates/marketplace/src/store.rs:58-90 | refuses if and only if the size, the version text or what is offered under that name says so; the name index never points at a missing plugin |
| `Marketplace.PluginStore.PutVersion` | crates/marketplace/src/store.rs:91-145 | recording a version keeps all four maps consistent and adds one binary to what is offered |
| `Marketplace.PluginStore.Publish` | crates/marketplace/src/store.rs:58-145 | offers exactly one more binary and keeps every invariant; a refusal changes nothing |
| `Marketplace.PluginStore.UnpublishVersion` | crates/marketplace/src/store.rs:151-179 | takes exactly one binary away, the plugin, its name and its ratings with the last version |
| `Marketplace.UpdatedRecordIs` | crates/marketplace/src/store.rs:126-140 | a later version may change description, tags, node types and permissions, and nothing else |
| `Marketplace.NewRecordIs` | crates/marketplace/src/store.rs:91-118 | a first publication takes everything from the metadata, with no downloads |
| `Marketplace.WithoutVersionIs` | crates/marketplace/src/store.rs:165-176 | of all plugins only the one changes, by the one version |
| `Marketplace.PluginStore.Download` | crates/marketplace/src/store.rs:194-212 | returns what is offered under the plugin's name and version and counts it; found if and only if on record |
| `Marketplace.PluginStore.Rate` | crates/marketplace/src/store.rs:278-292 | adds one rating from one to five; the average is exact and between one and five |
| `Marketplace.PluginStore.KeyOnRecordIff` | crates/marketplace/src/store.rs:194-205 | a binary is stored under a key if and only if that id and version are on record |
| `Marketplace.ShelfUnique` | crates/marketplace/src/store.rs:20-35 | what is offered is settled by the four maps |
| `FlowGroups.PopulateGroups` | crates/core/src/runtime/flow.rs:316-339 | succeeds if and only if each parent comes before its child; then keeps for each id the last group, each with the parent that was the last of its id before it; with distinct ids no parent is ever gone |
| `FlowGroups.ParentAliveIff` | crates/core/src/runtime/group.rs:105-116 | a group's parent is still kept if and only if its id is not registered again, by the group itself or later |
| `FlowGroups.ChainIsWayUp` | crates/core/src/runtime/flow.rs:923-939 | the way up: each group but the last is linked to the next, its living parent, and the last has none |
| `FlowGroups.WayUpUnique` | crates/core/src/runtime/flow.rs:923-939 | there is one way up |
| `FlowGroups.Climb` | crates/core/src/runtime/flow.rs:923-939 | for every registered list of groups, repeated ids included: a result of n steps to the target means that n parent links lead to it for the first time, and one without reaching it that no links do and the way up has n groups; it fails if and only if no links lead to the target and the way ends at a parent that is gone |
| `FlowGroups.DistanceUnique` | crates/core/src/runtime/flow.rs:923-939 | that number is the first place of the target on the way up |
| `Routing.SortByDistance` | crates/core/src/runtime/flow.rs:950 | sorted by distance, and at each distance the same nodes in the same order |
| `Routing.SortedUnique` | crates/core/src/runtime/flow.rs:950 | those two facts leave only one list |
| `Routing.FindCandidates` | crates/core/src/runtime/flow.rs:892-952 | at each distance exactly the nodes whose scope lets them hear the reporter, in flow order; distances ascending; it fails if and only if looking at some node climbs to a parent that is gone |
| `Routing.HearsIff` | crates/core/src/runtime/flow.rs:903-947 | a node hears a reporter if its scope is all, lists the reporter, or is its group and that is none or one to which links lead up from the reporter's |
| `Routing.DistanceIs` | crates/core/src/runtime/flow.rs:923-939 | the distance is the number of links that first lead to the node's group |
| `Routing.DistanceElse` | crates/core/src/runtime/flow.rs:920-939 | without a group there are no steps; without the target on the way, all of them |
| `Routing.HearingConcat` | crates/core/src/runtime/flow.rs:903-949 | candidates at one distance keep the order of the flow |
| `Routing.EnclosingExample` | crates/core/src/runtime/flow.rs:892-952 | a catch node for its group hears an error in a group inside that one, at distance one |
| `Routing.RankingUnique` | crates/core/src/runtime/flow.rs:892-952 | two flows give the same candidates if and only if they agree at each distance |
| `Routing.RankedIffHears` | crates/core/src/runtime/flow.rs:892-952 | there is a candidate if and only if some node hears the reporter |
| `Routing.DeliverError` | crates/core/src/runtime/flow.rs:858-889 | tells all candidates if none or the first is `uncaught`, else exactly those before the first `uncaught` one; handled if and only if any was told; a refusing node ends it with an error |
| `Routing.HandleError` | crates/core/src/runtime/flow.rs:794-889 | the whole of it: unless the search fails or a told node refuses, handled if and only if some node hears the error |
| `ParseFloat.ReadIsHas` | crates/core/src/text/parsing.rs:10-27 | reading a text leads to a scanner state if and only if the text has the form that state stands for |
| `ParseFloat.LiteralIsAccepting` | crates/core/src/text/parsing.rs:10-27 | the decimal literals are exactly the texts that end in an accepting state |
| `ParseFloat.LiteralForms` | crates/core/src/text/parsing.rs:10-27 | every form is a literal: with or without sign, digits on either side of the point, and exponent with or without sign |
| `ParseFloat.StopFacts` | crates/core/src/text/parsing.rs:10-27 | where the scan stops no longer prefix is a literal |
| `ParseFloat.DanglingExponent` | crates/core/src/text/parsing.rs:10-35 | an exponent without digits leaves the text before the first `e` as the longest literal |
| `ParseFloat.ParseFloatLossy` | crates/core/src/text/parsing.rs:2-35 | for every input and every result type: what the type's parser makes of the longest prefix of the trimmed text that is a decimal literal; when no prefix is one, nothing, unless the parser accepts the bare sign or point at the start, which no number type's does (section 19.2.4 of ECMA-262, `Infinity` excluded) |

## Left out

- TCP, UDP, multicast, HTTP and task plumbing; messages and files are values, and I/O errors other than a missing file do not occur.
- The MQTT codec, sessions, acknowledgements, and section 4.7.2 of MQTT 3.1.1 (`$` topics), which neither matcher implements.
- `dump_subscriptions`, `Graph::reversed`, `is_path_from_to`, `leader_id`, session affinity and its hash, deploy acknowledgements: easy next to the rest.
- `apply_credentials` and `merge_into_flows` (crates/core/src/runtime/credentials.rs:308-385): the overlay they write into nodes is the one modelled.
- `editor_view` and `strip_credentials`: simple projections.
- `list_plugins`, `latest_version` and timestamps of the marketplace; metadata that is never changed is kept as one value.
- The initial order of catch and status nodes (crates/core/src/runtime/flow.rs:435-465) is given; ranking is proved for every such order.
- `${VAR}` interpolation in environment values: a parameter, since the program substitutes only at the head of a text.
- AES and SHA-256: the keystream is any function of secret, start value and position; the hash any function of the bytes.
- The JSON parser and printer: any pair for which reading undoes writing and no document is blank.
- Integer widths, except the 32-bit words of the guest memory: counters and generations are unbounded.
- Concurrency inside one process: each handler, detector scan with its application, and store operation is one step.
- FlowDiffs.ComputeDiff: keeps the three lists by id; the order of the lists is not modelled, nor is the canonical key order of saved files.
- Marketplace.PluginStore.Publish: a new id is assumed unused and without the key separator, as a random UUID is.
- The debug-build assertions after the walk in `path_to` (crates/core/src/utils/graph.rs:170-182).
- CredentialStores.CredentialStore.Load: indexes encrypted text by character, where the program slices by byte and would stop on a multi-byte character in the first 32.
- CredentialStores.CredentialStore.Save: files are values, so writing never fails.
- CredentialStores.CredentialStore.ExtractForDeploy: files are values, so the only error is a store that cannot be decrypted or parsed.
- EnvStores.RedEnvStoreBuilder.LoadJson: says what an entry means only when references are bare names and acyclic apart from self-references; otherwise it says only that no other name changes.
- EnvStores.RedEnvStoreBuilder.EvaluateInOrder: the same, for an order with referents first; values with `${}` are a parameter.
- FlowVersions.FlowVersionStore.SaveVersion: ids are numbers, without the six-digit text, and files hold the flows rather than their text with sorted keys.
- ParseFloat.ParseFloatLossy: the number a literal stands for is a parameter.
- WasmMemory.GuestMemory.WriteToHost: what guest code itself writes into blocks of the global heap is not modelled.
