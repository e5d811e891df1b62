# InfraView: a verified model of its stateful core

InfraView is a read-only monitoring server.  Handlers ask services for snapshots,
services read them through a cache, and adapters build them from the unordered
series that a Nightingale upstream returns.  This project models the parts where
interleaving, iteration order, input order, time or machine arithmetic can go wrong,
and proves what those parts promise.

| component | modules |
|---|---|
| single-flight cache that can answer with stale values | `CacheProtocol`, `CacheSafety`, `CacheRuns`, `CacheStore` |
| discovery of the data source by concurrent queries | `Discovery`, choice of the source in `TargetListing` |
| reconciliation of samples by newest time | `SampleMerge`, `SampleCells` |
| inventories built from series | `RabbitInventory`, `RabbitDiscovery`, `RabbitIndexes`, `DiskInventory`, `ServiceInventory` |
| natural order, list columns and pages | `NaturalOrder`, `SortedPages`, `DiskPages`, `HostPages`, `ServicePages`, `AddressOrder` |
| trackers driven by time | `Freshness`, `LoginLimiter` |
| bounded arithmetic and summaries | `ShardTotals`, `MetricRange`, `Replication` |
| reading the target list page by page | `TargetListing` |
| shared by several modules | `Optional`, `Integers`, `Rearrangement` |

How the model is laid out:

- Concurrent code is a transition system with one step per critical section, clock
  reading or channel event.  Beside it stand classes whose methods are the critical
  sections on mutable records; each method ensures that the abstract view moves as the
  step function says, so the theorems about schedules apply to them.
- Loops that update variables or maps are methods with loops.  A range over a map takes
  its keys in any order (`:|`), so a deterministic postcondition is a statement about
  every iteration order.  Each loop is proved against a function or a declarative
  predicate, and the theorems are about those.
- Times and durations are integers, metric values are reals or integers, the zero time
  of the library is the constant `ZERO`.  Stable ids, which the program hashes, are
  injective constructors.  Lower-casing, trimming and address parsing are parameters.
- Where machine integers matter (page offsets, sums) they are newtypes whose every
  operation is proved not to overflow.

## What the code does not guarantee

Some of what one would expect holds only on a condition.  The condition is proved to be
exact, with an input that fails it.

- Sample records of the disk, RabbitMQ and Redis adapters ignore samples before the
  library's zero time, which the parser lets through; MySQL records also forget a
  disagreement at the zero time itself (`FlaggedExactness`, `BareExactness`,
  `ThirdSampleReopens`).
- The MySQL and Redis lists sort by address unless asked otherwise, and that comparison
  mixes two orders as soon as some addresses do not parse.  With distinct ids, and ports
  of each host whose differences are machine integers, a sorted list exists exactly when no
  unparseable address lies between two others that text and number put in opposite orders
  (`TransitiveUnlessStraddled`, `SortedExactlyIfOrderable`, `MixedAddressesCanCycle`).
  Ports are not checked to be real ones: where a difference wraps around three addresses can
  chase each other too (`FarPortsCanCycle`), and of two rows with different ids exactly one
  is less unless the ports of one host differ by 2^63 (`LessDecides`).
- A malformed uptime sample is read as zero, unlike a malformed memory sample, which leaves no
  trace.  A host's uptime is its last valid reading exactly unless the last of its samples
  that is not out of range is malformed and the valid reading is not zero
  (`UptimeIsLastValidUnlessSpoiled`, `MalformedSampleSpoilsUptime`).
- The failure limiter reads its clock before it takes its lock, so the readings need not be
  in the order of the calls.  All runs with given readings keep to the limit exactly when no
  reading ends the window of an earlier one that has more than `limit` calls from there on
  (`LimitHoldsExactlyIfTimely`, `LateReadingReopens`); readings in order that span less than
  a window satisfy that (`OrderedReadingsAreTimely`).
- When the failure limiter is full it evicts a window with the oldest start in every map
  order exactly when the empty address is absent or not strictly the oldest
  (`EvictionIsSound`).
- After RabbitMQ discovery every node id has one join key exactly when no two considered
  series entered unnamed nodes of one cluster at one instance (`OneKeyUnlessShared`,
  `UnnamedNodesCanShareAnId`).
- After discovery every node's cluster has the name the node carries exactly when no series
  recreated a cluster under another name.  That takes a collection that leads to no cluster
  and equals the identity of an existing one (`NamesKeptUnlessRecreated`,
  `NamesAgreeUnlessRenamed`, `RecreationCanBreakNames`).
- The disk inventory is accepted in every order of its series exactly when none is
  malformed, no serial numbers or WWNs clash and no two models of a device race
  (`DiskInventory.AcceptedInEveryOrder`, `ModelRefusalDependsOnOrder`); the Java inventory
  exactly when none is malformed and no two disagree about a service at one time, be it an
  older one (`ServiceInventory.AcceptedInEveryOrder`, `OlderClashDependsOnOrder`).
- The range step is the least covering step except for negative durations that are no
  multiple of 599, which no caller passes (`RangeStepIsLeast`).

## Model

| member | source | states |
|---|---|---|
| CacheStore.Store.Enter | internal/cache/store.go:60-78 | the locked lookup answers exactly when the entry of the key is younger than the ttl, and with that entry; otherwise it joins the call in flight or puts a new one in flight, and the view moves as the protocol says |
| CacheStore.Store.Complete | internal/cache/store.go:86-102 | the loader's critical section publishes value or stale entry and ends the flight, or only closes the call when it was abandoned or replaced |
| CacheStore.Store.GiveUp | internal/cache/store.go:131-142 | a caller that gives up is subtracted from a call still in flight, and the last one abandons and cancels it |
| CacheStore.Store.Answer | internal/cache/store.go:123-130 | a waiter gets the call's value as fresh, or on failure its stale entry exactly when within the caller's own bound, or its error |
| CacheSafety.EnterShape | internal/cache/store.go:58-78 | entering changes at most one call: it joins a pending call of its key or starts one, and a hit changes nothing |
| CacheSafety.HitExactlyWhenYoung | internal/cache/store.go:58-78 | a caller that enters is answered from the entry of its key if and only if there is one younger than its ttl; otherwise it waits for a call |
| CacheSafety.CompleteShape | internal/cache/store.go:81-103 | completing closes one open call, touches no other and no caller, and writes the key's entry only for a loaded value of a call still wanted |
| CacheSafety.StepKeepsInv | internal/cache/store.go:51-144 | no step of a caller, a loader or the clock breaks the invariant: pending calls are in flight, waiters are counted exactly, callers hold calls of their key, loaders and clock readings are consistent |
| CacheSafety.ScheduleKeepsInv | internal/cache/store.go:51-144 | the invariant holds after every schedule |
| CacheRuns.SingleFlight | internal/cache/store.go:51-144 | in every reachable state each key has at most one pending call; the call in flight is neither done nor abandoned and its waiters are exactly the callers attending it, at least one; a parked caller's call is done or its loader still at work |
| CacheRuns.CancelledExactlyWhenDeserted | internal/cache/store.go:80-142 | until its loader is through, the load context is cancelled if and only if every caller has left; afterwards it is cancelled |
| CacheRuns.HistoryIsMonotone | internal/cache/store.go:95-97 | over every schedule entries are never removed, their storage times never decrease, finished calls and answers are frozen |
| CacheRuns.AbandonedCallIsSilent | internal/cache/store.go:91-94 | once abandoned a call is nobody's answer in any later state, and its late completion changes neither entries nor flights nor callers, also when a replacement is in flight |
| CacheRuns.CallHistory | internal/cache/store.go:86-102 | a finished, wanted call records the outcome, clock reading and, if it failed, the entry present at the step that completed it |
| CacheRuns.LoaderHistory | internal/cache/store.go:83-84 | the outcome a loader carries is the one its callback returned |
| CacheRuns.WaitedAnswerIsJustified | internal/cache/store.go:121-130 | a fresh waited value was returned by its own call's callback and is dated by the clock as read after that; a stale one was the entry present when the call failed and is within the caller's own bound; an error means no such entry |
| CacheRuns.HitIsJustified | internal/cache/store.go:58-65 | a hit returns the entry present when the caller looked, younger than its ttl by the clock at its arrival |
| CacheRuns.YoungEntryIsServed | internal/cache/store.go:58-65 | in every schedule a caller whose entry is young when it enters is answered with it, and no other caller is ever answered from the cache |
| CacheRuns.EntryHistory | internal/cache/store.go:95-97 | every cached value was loaded for that key by a call that kept its callers |
| CacheRuns.LoaderAdvances | internal/cache/store.go:81-103 | while a caller is parked on an unfinished call a loader step is enabled that brings the answer nearer |
| CacheRuns.ParkedCallerCanFinish | internal/cache/store.go:121-130 | from every reachable state a parked caller can be answered from its own call, whatever the callback returns |
| Discovery.Provider.EnterDiscovery | internal/adapters/nightingale/client.go:163-189 | the first critical section: the remembered id, the open flight to wait for, or a new flight to lead |
| Discovery.Provider.PublishDiscovery | internal/adapters/nightingale/client.go:191-206 | the second critical section stores and answers exactly the loaded id when it is positive, and otherwise an error, and closes the flight |
| Discovery.Provider.AwaitFlight | internal/adapters/nightingale/client.go:172-182 | what a waiter reads from a closed flight |
| Discovery.ScheduleKeepsInv | internal/adapters/nightingale/client.go:162-207 | the protocol invariant holds after every schedule |
| Discovery.AtMostOneOpenFlight | internal/adapters/nightingale/client.go:162-207 | at most one flight is open, none once an id is stored, and a closed flight carries an error or the positive stored id |
| Discovery.DiscoveryIsFinal | internal/adapters/nightingale/client.go:190-201 | a stored id is never replaced and a closed flight never reopened or rewritten |
| Discovery.AllCallersAgree | internal/adapters/nightingale/client.go:162-207 | all callers that ever succeed get one positive id |
| Discovery.LeaderGetsLoad | internal/adapters/nightingale/client.go:190-206 | in every schedule the caller that closes a flight returns the positive id it had loaded, which is stored for good, and is answered as unavailable after any other load |
| Discovery.WaiterGetsLoad | internal/adapters/nightingale/client.go:172-182 | a waiter that wakes returns the id that the caller of its flight had loaded, or unavailable if that was none or not positive |
| Discovery.FoundWasLoaded | internal/adapters/nightingale/client.go:162-207 | every id a caller ever got was loaded in an earlier step |
| Discovery.WaiterHasLeader | internal/adapters/nightingale/client.go:170-186 | a waiting caller's flight is closed or has a leader at work |
| TargetListing.FirstOfSortingIsChoice | internal/adapters/nightingale/client.go:209-225 | the first source of any sorting of the candidates has the least id among the default ones, or among all when none is a default |
| TargetListing.ChoiceIgnoresOrder | internal/adapters/nightingale/provider.go:466-473 | the chosen id does not depend on the order of the listing |
| TargetListing.ListTargetRecords | internal/adapters/nightingale/provider.go:307-342 | the paging loop succeeds exactly when one of the first 10000 pages completes the list: all pages report one total, none is empty too early, and the records reach the total exactly there |
| TargetListing.ServedListIsReadBack | internal/adapters/nightingale/provider.go:307-342 | from an upstream that cuts one list into pages of 100 the loop reads back exactly that list, if and only if 10000 pages can hold it |
| TargetListing.MapTargetRecords | internal/adapters/nightingale/provider.go:344-395 | every record becomes a host, in order, showing its fields, status, core count and last usable time, exactly when no identifier is blank or repeated |
| TargetListing.LastTaken | internal/adapters/nightingale/provider.go:147-160 | what the loop leaves in a host: the parsed value of its last sample in range, where a malformed sample has parsed to zero; nothing if and only if no sample is in range |
| TargetListing.MemoryIsLastValid | internal/adapters/nightingale/provider.go:133-146 | for memory that is the last sample that is well-formed and in range |
| TargetListing.UptimeIsLastValidUnlessSpoiled | internal/adapters/nightingale/provider.go:147-160 | for uptime it is so if and only if it is not the case that the last sample not out of range is malformed while the last valid one is not zero |
| TargetListing.MalformedSampleSpoilsUptime | internal/adapters/nightingale/provider.go:153-158 | two samples, the second malformed, after which the uptime is zero instead of the first |
| TargetListing.ValuesInRange | internal/adapters/nightingale/provider.go:425-445 | a memory size is the nearest integer when that is positive and fits 64 bits; an uptime that is not negative and fits is cut to whole nanoseconds |
| TargetListing.ApplyMemory | internal/adapters/nightingale/provider.go:133-146 | the in-place loop gives every host the last memory value taken for it and changes nothing else |
| TargetListing.ApplyUptime | internal/adapters/nightingale/provider.go:147-160 | the same for uptime, with malformed samples counting as zero |
| TargetListing.ListHosts | internal/adapters/nightingale/provider.go:106-162 | all together: a served list of up to a million records yields hosts exactly when the identifiers are sound and the query is answered; each shows its record, the memory of its last valid reading, and its last valid uptime exactly unless that was spoiled |
| TargetListing.ExpectedReadings | internal/adapters/nightingale/provider.go:106-162 | so every listed host shows its record and has the memory of its last valid reading, and its last valid uptime or else zero exactly unless that was spoiled |
| SampleMerge.NewestIgnoresOrder | internal/adapters/nightingale/rabbitmq_provider.go:513-527 | the intended value, the one all newest samples share, does not depend on their order |
| SampleMerge.FlaggedTracks | internal/adapters/nightingale/disk_provider.go:252-276 | a record with value, time and conflict flag tracks the intended value of every list, except that samples before the zero time leave no trace |
| SampleMerge.PresentTracks | internal/adapters/nightingale/elasticsearch_provider.go:506-517 | a record with a presence flag tracks it for all times |
| SampleMerge.InitializedTracks | internal/adapters/nightingale/java_provider.go:220-233 | so does a record with an initialised flag |
| SampleMerge.BareTracks | internal/adapters/nightingale/mysql_provider.go:206-223 | a record of value and time only tracks it for times after the zero time |
| SampleMerge.RoleTracks | internal/adapters/nightingale/redis_provider.go:217-239 | a role record tracks the role that all newest samples name, where an unknown text names none |
| SampleMerge.PresentAndInitializedAreExact | internal/adapters/nightingale/elasticsearch_provider.go:557-570 | Elasticsearch and Java publish the intended value of every list |
| SampleMerge.FlaggedExactness | internal/adapters/nightingale/disk_provider.go:366-384 | the flagged records publish it for all lists with this newest time if and only if the time is not before the zero time |
| SampleMerge.BareExactness | internal/adapters/nightingale/mysql_provider.go:206-223 | the bare record does so if and only if the time is after the zero time |
| SampleMerge.ThirdSampleReopens | internal/adapters/nightingale/mysql_provider.go:206-223 | three samples at the zero time for which it does not |
| SampleMerge.AllRecordsAgree | internal/adapters/nightingale/redis_provider.go:252-328 | after the zero time all the merge loops publish the same value for every permutation of the samples |
| SampleMerge.FinalRoleIsExact | internal/adapters/nightingale/redis_provider.go:341-347 | current samples decide the role as soon as one was noticed, even by disagreeing; older ones only fill the gap |
| SampleCells.FlaggedCell.MergeDisk | internal/adapters/nightingale/disk_provider.go:366-384 | the in-place disk merge changes the cell as the specification does |
| SampleCells.FlaggedCell.MergeRabbitMQ | internal/adapters/nightingale/rabbitmq_provider.go:513-527 | the differently written RabbitMQ merge does the same |
| SampleCells.FlaggedCell.MergeRedis | internal/adapters/nightingale/redis_provider.go:252-271 | and the Redis one |
| SampleCells.PresentCell.Merge | internal/adapters/nightingale/elasticsearch_provider.go:506-517 | the in-place Elasticsearch merge |
| SampleCells.InitializedCell.Merge | internal/adapters/nightingale/java_provider.go:220-233 | the in-place Java merge |
| SampleCells.BareCell.MergeScalar | internal/adapters/nightingale/mysql_provider.go:206-223 | the in-place MySQL merge |
| SampleCells.BareCell.MergeBool | internal/adapters/nightingale/mysql_provider.go:338-351 | the MySQL merge of booleans, written differently, does the same |
| SampleCells.RoleCell.Merge | internal/adapters/nightingale/redis_provider.go:217-239 | the in-place role merge |
| SampleCells.MergeSeries | internal/adapters/nightingale/disk_provider.go:252-276 | one pass over the series of a query leaves in each entity's cell the fold of that entity's samples; unknown entities and invalid samples leave no trace and no cell receives another's samples |
| SampleCells.SamplesOfPermutation | internal/adapters/nightingale/disk_provider.go:309-364 | permuting the series permutes each entity's samples |
| SampleCells.SeriesOrderIsIrrelevant | internal/adapters/nightingale/disk_provider.go:309-384 | what an entity's cell ends up with is the same for every order of the series, and is the intended value unless the newest sample is before the zero time |
| RabbitInventory.DisagreeIsDifference | internal/adapters/nightingale/rabbitmq_provider.go:358-362 | the identity test between two candidates of one node misses no difference |
| RabbitInventory.Absorb | internal/adapters/nightingale/rabbitmq_provider.go:143-168 | the two maps hold per node id its newest candidate and whether another of that time contradicts it |
| RabbitInventory.BuildInventory | internal/adapters/nightingale/rabbitmq_provider.go:140-201 | the whole builder equals placing the resolved nodes in id order |
| RabbitInventory.ResolvedExactly | internal/adapters/nightingale/rabbitmq_provider.go:143-174 | a node is resolved to a content exactly when all its newest candidates say that content |
| RabbitInventory.ResolvedFromSeries | internal/adapters/nightingale/rabbitmq_provider.go:317-362 | a node is resolved to a content if and only if usable series say it, current ones dated by their sample time and historical ones by their reported time, and no usable series of the node is later or says otherwise at that time |
| RabbitInventory.NodesShowTheirSeries | internal/adapters/nightingale/rabbitmq_provider.go:140-201 | every node of the inventory carries name, cluster, address and cluster id as the labels of its newest series spell them |
| RabbitInventory.CollectionsOfNodes | internal/adapters/nightingale/rabbitmq_provider.go:167-200 | a cluster exists exactly when it has a node, and its collections are exactly those of its nodes |
| RabbitInventory.InventoryIgnoresSeriesOrder | internal/adapters/nightingale/rabbitmq_provider.go:140-201 | node ids and resolved contents, and so the inventory, are the same for every order of the series |
| RabbitInventory.ResolvedIsCoherent | internal/adapters/nightingale/rabbitmq_provider.go:317-356 | every resolved content carries the id, cluster id and join key its own labels determine |
| RabbitInventory.PlaceIsSound | internal/adapters/nightingale/rabbitmq_provider.go:171-200 | every kept node's cluster exists under the cluster name of the node, and ids are those of the contents |
| RabbitInventory.PlaceAgrees | internal/adapters/nightingale/rabbitmq_provider.go:193-199 | the join index and the id index hold the same nodes, each once |
| RabbitInventory.KeptExactly | internal/adapters/nightingale/rabbitmq_provider.go:175-186 | a resolved node is kept exactly when it names its cluster as the cluster's first resolved node in id order does |
| RabbitDiscovery.NodeNameHints | internal/adapters/nightingale/rabbitmq_provider.go:254-273 | a join key has a hint exactly when it has a non-empty name and all its non-empty names over all queries are equal |
| RabbitDiscovery.ClusterForCollection | internal/adapters/nightingale/rabbitmq_provider.go:297-315 | the only cluster with the collection, failing any the only cluster there is, otherwise none, in every listing order |
| RabbitDiscovery.DiscoverNode | internal/adapters/nightingale/rabbitmq_provider.go:210-250 | one connection series against the inventory |
| RabbitDiscovery.DiscoveredNodeShows | internal/adapters/nightingale/rabbitmq_provider.go:203-252 | label by label: which series does nothing, which cluster it belongs to or founds, and the name, id, cluster and address of the node it enters |
| RabbitDiscovery.DiscoverNodes | internal/adapters/nightingale/rabbitmq_provider.go:203-252 | the discovery loop |
| RabbitDiscovery.DiscoveryIsSafe | internal/adapters/nightingale/rabbitmq_provider.go:203-252 | for all series discovery keeps every named node as it is, keeps every node's cluster present, and never yields two nodes of one cluster with one non-empty name |
| RabbitDiscovery.InventorySurvivesDiscovery | internal/adapters/nightingale/rabbitmq_provider.go:84-101 | whatever the inventory builder made passes through discovery unchanged |
| RabbitIndexes.PlacedUnderOneKey | internal/adapters/nightingale/rabbitmq_provider.go:171-201 | after the inventory builder both node indexes know the same ids, each id is listed under one join key, and all nodes have names |
| RabbitIndexes.OnlyUnnamedNodesAreReplaced | internal/adapters/nightingale/rabbitmq_provider.go:229-251 | a fresh node is written under a known id exactly when the series enters an unnamed node whose cluster and instance make that id; the node displaced was unnamed, of that cluster and instance |
| RabbitIndexes.OneKeyKeptUnlessReplaced | internal/adapters/nightingale/rabbitmq_provider.go:210-251 | one series keeps one join key per id if and only if it does not enter an unnamed node under a known id |
| RabbitIndexes.UnnamedWereEntered | internal/adapters/nightingale/rabbitmq_provider.go:203-252 | the unnamed ids after a run are exactly those entered during it |
| RabbitIndexes.OneKeyUnlessShared | internal/adapters/nightingale/rabbitmq_provider.go:203-252 | over a whole run every id keeps one join key if and only if no two considered series enter unnamed nodes of one assigned cluster at one instance |
| RabbitIndexes.SnapshotSharesIdExactly | internal/adapters/nightingale/rabbitmq_provider.go:84-101 | the same from the inventory series to the end of discovery |
| RabbitIndexes.DistinctInstancesAreSafe | internal/adapters/nightingale/rabbitmq_provider.go:203-252 | it is enough that no two nameless series of different collections have one instance |
| RabbitIndexes.UnnamedNodesCanShareAnId | internal/adapters/nightingale/rabbitmq_provider.go:216-251 | from an empty inventory, two series after which two join keys lead to one node id |
| RabbitIndexes.OnlyRecreatedClustersChange | internal/adapters/nightingale/rabbitmq_provider.go:216-228 | a cluster record changes exactly when a considered series finds no cluster for its collection and that collection is the identity of the cluster, and then it is that of this single collection |
| RabbitIndexes.NamesKeptUnlessRecreated | internal/adapters/nightingale/rabbitmq_provider.go:210-251 | a series keeps every node's cluster under the name the node carries if and only if it does not recreate a cluster of another name that still has a node |
| RabbitIndexes.NamesAgreeUnlessRenamed | internal/adapters/nightingale/rabbitmq_provider.go:84-101 | from the inventory series to the end of discovery every node's cluster has the name the node carries if and only if no series recreated a cluster under another name |
| RabbitIndexes.RecreationCanBreakNames | internal/adapters/nightingale/rabbitmq_provider.go:216-228 | two inventory series, the nodes the builder makes of them, and a discovered series after which a node's cluster has another name |
| RabbitDiscovery.MatchNode | internal/adapters/nightingale/rabbitmq_provider.go:460-484 | a series without a name joins a lone node; with a name, the only node of that name; otherwise none |
| RabbitDiscovery.TallyReports | internal/adapters/nightingale/rabbitmq_provider.go:414-431 | the three counters are the numbers of nodes and of zero reports and the largest positive report per cluster, in every iteration order |
| RabbitDiscovery.AggregateUnreachablePeers | internal/adapters/nightingale/rabbitmq_provider.go:413-443 | a cluster's count is its largest positive report, zero exactly when it has nodes and all report zero, otherwise absent |
| DiskInventory.BuildRecords | internal/adapters/nightingale/disk_provider.go:121-168 | the first loop, with its early refusals |
| DiskInventory.RecordsDescribe | internal/adapters/nightingale/disk_provider.go:121-168 | accepted records are one per host and device, with the newest report time and the only non-empty serial number and WWN seen |
| DiskInventory.NewestModelIsKept | internal/adapters/nightingale/disk_provider.go:122-168 | a device whose newest series all name one model has it |
| DiskInventory.ClashesAreRefused | internal/adapters/nightingale/disk_provider.go:210-223 | malformed series and clashing serial numbers or WWNs are refused in every order |
| DiskInventory.RefusalHasAReason | internal/adapters/nightingale/disk_provider.go:121-168 | nothing is refused but for a malformed series, a clash of identities or a model race: two models of a device met at the later one's time, by a series of that time or carried there by one without a model |
| DiskInventory.AcceptedInEveryOrder | internal/adapters/nightingale/disk_provider.go:121-168 | no order of the series is refused if and only if none is malformed, no identities clash and no models race |
| DiskInventory.RaceFirst | internal/adapters/nightingale/disk_provider.go:153-166 | racing series have an order that is refused |
| DiskInventory.ModelRefusalDependsOnOrder | internal/adapters/nightingale/disk_provider.go:153-166 | series that are refused in one order and accepted in another over their model texts |
| DiskInventory.ClaimsExactly | internal/adapters/nightingale/disk_provider.go:175-184 | the three index tests refuse exactly the devices that share an id, or on one host a serial number or WWN, with a device placed before |
| DiskInventory.DistinctUnlessShared | internal/adapters/nightingale/disk_provider.go:170-187 | stable ids and identities are distinct exactly when no two devices of one host share a serial number or a WWN |
| DiskInventory.AssignIds | internal/adapters/nightingale/disk_provider.go:170-208 | the second loop succeeds exactly when no two records share an identity, in every iteration order, and makes one device of each record |
| DiskInventory.BuildDiskStates | internal/adapters/nightingale/disk_provider.go:121-208 | the whole builder: it succeeds exactly when the records can be built and no two devices of one host share a serial number or a WWN; then every series has its device, devices describe their series and their ids are distinct and stand for the WWN, failing that the serial number, failing that the device name |
| ServiceInventory.BuildJavaInventory | internal/adapters/nightingale/java_provider.go:80-117 | the Java loop equals the fold with its refusals |
| ServiceInventory.AcceptedIsNewest | internal/adapters/nightingale/java_provider.go:80-117 | an accepted inventory holds for each service the one content all its newest series state, in whatever order they came |
| ServiceInventory.RefusalHasAReason | internal/adapters/nightingale/java_provider.go:87-110 | a refusal means a malformed series or two series that disagree about one service at one time |
| ServiceInventory.AcceptedInEveryOrder | internal/adapters/nightingale/java_provider.go:80-117 | no order of the series is refused if and only if none is malformed and no two disagree about a service at any one time |
| ServiceInventory.NewestClashIsRefused | internal/adapters/nightingale/java_provider.go:105-110 | a disagreement about the newest time is refused in every order |
| ServiceInventory.OlderClashDependsOnOrder | internal/adapters/nightingale/java_provider.go:102-116 | three series that are refused or accepted as the newest comes last or first |
| ServiceInventory.BuildNodeInventory | internal/adapters/nightingale/elasticsearch_provider.go:170-226 | the Elasticsearch node loop equals its fold, and an empty inventory is an error |
| ServiceInventory.NodeIsNewest | internal/adapters/nightingale/elasticsearch_provider.go:205-219 | a node carries its newest report time and the address all series of that time give, or none when they differ |
| ServiceInventory.NodesIgnoreOrder | internal/adapters/nightingale/elasticsearch_provider.go:170-226 | the node inventory is the same for every order of the series |
| NaturalOrder.NaturalSegmentEnd | internal/service/disk_service.go:501-507 | the scan stops exactly at the end of the run of digits or non-digits |
| NaturalOrder.CompareNatural | internal/service/disk_service.go:463-499 | the two-index scanner terminates and equals the comparison by runs of the lower-cased names |
| NaturalOrder.NumbersByValue | internal/service/disk_service.go:509-534 | digit runs of any length are ordered by their integer value, equal values by the length of the run |
| NaturalOrder.NumberIsDecimal | internal/service/disk_service.go:509-538 | the digits are the ten of ASCII and the value of a run is that of its decimal notation |
| NaturalOrder.CompareAntisymmetric | internal/service/disk_service.go:463-534 | swapping the sides negates the result, which is zero exactly for equal lower-cased names |
| NaturalOrder.CompareTransitive | internal/service/disk_service.go:463-534 | the comparison is transitive |
| NaturalOrder.NumbersDecide | internal/service/disk_service.go:463-534 | names that differ first in a digit run are ordered by the two numbers, and equal numbers by the length of the run |
| NaturalOrder.BytesDecide | internal/service/disk_service.go:486-497 | after any common prefix the smaller of two bytes that are no digits comes first, whatever follows |
| NaturalOrder.FirstByteDecides | internal/service/disk_service.go:477-484 | where one name starts with a digit and the other does not, the smaller first byte comes first |
| NaturalOrder.DigitsEndText | internal/service/disk_service.go:485-497 | after a common prefix that ends in text a digit comes before anything else |
| NaturalOrder.PrefixFirst | internal/service/disk_service.go:465-475 | a name comes before every longer name that starts with it |
| NaturalOrder.PrefixCancels | internal/service/disk_service.go:463-499 | a common prefix that ends outside a digit run decides nothing |
| SortedPages.PrecedesTotal | internal/service/disk_service.go:328-390 | of two rows with different ids exactly one precedes the other, in either direction |
| SortedPages.PrecedesTransitive | internal/service/disk_service.go:328-390 | precedence by key with missing keys last and ties by id is transitive |
| SortedPages.KeyOrderIsTotal | internal/service/disk_service.go:328-390 | a closure that follows the keys is a strict order, total on rows with distinct ids |
| SortedPages.SortIsUnique | internal/service/disk_service.go:328-390 | such a closure leaves one sorted arrangement |
| SortedPages.SortSorts | internal/service/disk_service.go:328-390 | the sort used in the model rearranges without inversions |
| SortedPages.SortableMeansOrdered | internal/service/disk_service.go:328-390 | a list that has a sorted arrangement at all is strictly ordered by the closure |
| SortedPages.ListingIsCanonical | internal/service/disk_service.go:126-142 | when the kept rows are strictly ordered the filtered sorted list is the same for every order of the snapshot |
| SortedPages.PagesPartition | internal/service/disk_service.go:145-162 | pages 1 to the last concatenate to the list, all but the last are full, later ones are empty |
| SortedPages.CutPage | internal/service/disk_service.go:145-151 | the unguarded offset arithmetic does not overflow for accepted queries and cuts the page |
| SortedPages.CutGuardedPage | internal/service/hosts.go:44-53 | the guarded arithmetic does not overflow for any positive page and cuts the same page |
| SortedPages.CountPages | internal/service/disk_service.go:152-155 | the page count does not overflow and is the number of pages |
| SortedPages.AcceptPage | internal/service/rabbitmq_service.go:205-223 | the quotient tests accept exactly the pages whose first row, or whose end, has a machine index |
| SortedPages.ServePage | internal/service/redis_service.go:137-170 | filtering, sorting and cutting together give the asked page of the sorted list of the kept rows, and their number |
| DiskPages.NormalizeDiskQuery | internal/service/disk_service.go:294-326 | the accepted queries, with their status, field and direction |
| DiskPages.DiskErrorSortValue | internal/service/disk_service.go:408-427 | the error column sums the counters there are, and is missing if and only if all of them are |
| DiskPages.LessIsKeyOrder | internal/service/disk_service.go:328-390 | the disk closure is the order on keys in every column |
| DiskPages.LessIsStrictTotalOrder | internal/service/disk_service.go:328-390 | with distinct ids the disk closure is a strict total order |
| DiskPages.LessMeansColumn | internal/service/disk_service.go:328-456 | in every column rows that the closure does not put the other way stand in the order of their field, ties by id |
| DiskPages.ErrorsAddUp | internal/service/disk_service.go:408-427 | the error column of the seven counters is their sum |
| DiskPages.Devices | internal/service/disk_service.go:118-162 | exactly the queries with valid texts and numbers are answered, with their page of a list that holds the devices of the status and text asked for, each as often as the snapshot has it, in the direction asked for by the device field that the sort text names, missing values last and ties by id, and with the list's length |
| DiskPages.ListingIgnoresSnapshotOrder | internal/service/disk_service.go:126-142 | the list does not depend on the order of the snapshot |
| DiskPages.MissingValuesComeLast | internal/service/disk_service.go:328-390 | rows without a value come after all rows with one, ascending and descending |
| DiskPages.ListingIsComplete | internal/service/disk_service.go:126-141 | the list holds exactly the devices that pass the filter |
| HostPages.LessIsKeyOrder | internal/service/hosts.go:132-171 | the three-tier host closure is the order on keys in every column |
| HostPages.LessIsStrictTotalOrder | internal/service/hosts.go:132-171 | with distinct ids it is a strict total order |
| HostPages.LessMeansColumn | internal/service/hosts.go:132-277 | in every column rows that the closure does not put the other way stand in the order of their field, ties by id |
| HostPages.Hosts | internal/service/hosts.go:12-60 | exactly the queries with valid texts and numbers are answered, with their page of a list that holds the hosts of the status and text asked for, in the direction asked for by the host field that the sort text names, missing values last and ties by id, and with its length |
| HostPages.ListingIgnoresInventoryOrder | internal/service/hosts.go:30-42 | the host list does not depend on the order of the inventory, whatever the filter |
| HostPages.MissingValuesComeLast | internal/service/hosts.go:132-171 | hosts without a value come last in both directions |
| ServicePages.NodeOrder | internal/service/rabbitmq_service.go:454-482 | the RabbitMQ closure, and the Elasticsearch one of the same shape, is the order on keys for every column of theirs |
| ServicePages.JavaOrder | internal/service/java_service.go:402-447 | so is the Java closure with its text, flag, integer and number tiers |
| ServicePages.RedisOrder | internal/service/redis_service.go:397-431 | so is the Redis closure in every column but the address |
| ServicePages.MySqlOrder | internal/service/mysql_service.go:252-280 | so is the MySQL closure in every column but the address |
| ServicePages.LocatedIsAddressOrder | internal/service/redis_service.go:417-418 | in the address column, the default one, both closures are the mixed address order |
| ServicePages.LocatedOrderedUnlessStraddled | internal/service/mysql_service.go:252-280 | the rows of a list with distinct ids and ports whose differences fit are strictly ordered by address if and only if none straddles |
| ServicePages.ClosureIsStrictOrder | internal/service/elasticsearch_service.go:580-608 | on the rows of a list every closure decides different rows, and is a strict order if and only if the rows are orderable, which only the address column can fail |
| ServicePages.SortedExactlyIfOrderable | internal/service/mysql_service.go:252-280 | a list has a sorted arrangement, in the chosen column and direction, if and only if its rows are orderable |
| ServicePages.UniformListsAreOrderable | internal/service/mysql_service.go:351-361 | they are, in both directions, when all addresses parse or none does |
| ServicePages.ListingIgnoresArrival | internal/service/mysql_service.go:179-215 | for orderable rows with distinct ids, in every column of the five lists, the filtered sorted list is the same for every order of arrival |
| ServicePages.SortedIsOrdered | internal/service/java_service.go:402-447 | a sorted arrangement of any of the five lists stands in the order of the values its column reads, missing ones last and ties by id |
| ServicePages.List | internal/service/rabbitmq_service.go:151-203 | a request to one of the five lists is answered exactly when its page, after defaults, is accepted by that list; it gets its page of a list of the kept rows, each as often as the snapshot has it, and their number; when the rows have an order the list is sorted and stands in the direction asked for by the values of its column |
| ServicePages.MissingRowsComeLast | internal/service/java_service.go:402-447 | in every sorted list of these pages rows without a value come last in both directions |
| AddressOrder.LessDecides | internal/service/mysql_service.go:351-361 | of two rows with different ids exactly one is less, whatever parses, if and only if they are not two ports of one host that differ by 2^63 |
| AddressOrder.TransitiveUnlessStraddled | internal/service/mysql_service.go:351-361 | the address order is transitive if and only if no unparseable address lies by text between two others that text and number order differently |
| AddressOrder.UniformAddressesAreOrdered | internal/service/mysql_service.go:351-377 | in particular when all addresses parse or none does |
| AddressOrder.MixedAddressesCanCycle | internal/service/mysql_service.go:351-361 | three addresses each less than the next in a circle |
| AddressOrder.FarPortsCanCycle | internal/service/mysql_service.go:351-377 | three rows of one host, each less than the next in a circle because the difference of the outer two ports wraps around |
| Freshness.Tracker.ObserveLocked | internal/service/freshness.go:61-70 | one sample changes at most its own key, and only when it is usable and differs |
| Freshness.Tracker.ObserveAt | internal/service/freshness.go:38-45 | the range over the samples equals observing them at once, in every iteration order |
| Freshness.Tracker.LevelAt | internal/service/freshness.go:47-59 | missing samples and unknown keys are critical, others go by the age of their record |
| Freshness.Tracker.Capture | internal/service/elasticsearch_service.go:262-273 | the captured map has the samples still current, with their moments |
| Freshness.TableTellsStreaks | internal/service/freshness.go:38-70 | after any run a key is on record exactly when it is not empty and was seen with a sample, with the first sight of its present sample since the last change |
| Freshness.AdvancedAtIsFirstSight | internal/service/freshness.go:61-70 | so the recorded moment is the time of that observation, whichever it is |
| Freshness.RepeatsMoveNothing | internal/service/freshness.go:66-69 | seeing an unchanged sample again, however often, moves nothing |
| Freshness.LevelOnlyWorsens | internal/service/service.go:72-84 | until the sample changes the level only gets worse as time passes |
| Freshness.LevelBands | internal/service/service.go:72-84 | a missing sample is critical, a first sight at no time is a warning, and otherwise the level is normal exactly below two intervals since the first sight and critical exactly from five |
| Freshness.UnseenIsCritical | internal/service/freshness.go:54-57 | a key never seen is critical |
| Freshness.CaptureIsComplete | internal/service/rabbitmq_service.go:70-74 | captured right after its observation a snapshot holds exactly its usable samples |
| Freshness.CapturedIsFirstSight | internal/service/elasticsearch_service.go:262-273 | what is captured of a key is the moment its present sample was first seen |
| Freshness.CaptureUnderRace | internal/service/rabbitmq_service.go:91-102 | when observations of other loads slip in between, a usable sample is captured exactly when it is still the last one seen of its key |
| LoginLimiter.Limiter.PruneExpired | internal/auth/limiter.go:97-103 | pruning keeps exactly the windows that have not ended |
| LoginLimiter.Limiter.EnsureCapacity | internal/auth/limiter.go:105-118 | a table that is not full is left alone; a full one loses one window, chosen by the scan over some order |
| LoginLimiter.Limiter.Record | internal/auth/limiter.go:70-82 | recording counts up an open window below the limit, or opens one in the room made by a window the scan may choose |
| LoginLimiter.Limiter.AllowLogin | internal/auth/limiter.go:35-42 | an address is allowed exactly while its window is below the limit; the table stays within bounds |
| LoginLimiter.Limiter.RecordLoginFailure | internal/auth/limiter.go:44-50 | the call extends the run of the limiter by one recorded failure whose victim, if the table was full, was real; counts and table stay within bounds |
| LoginLimiter.Limiter.AttemptLogin | internal/auth/limiter.go:54-68 | verification is asked exactly when the address is not blocked; the call extends the run by this attempt with a real victim, and counts and table stay within bounds |
| LoginLimiter.Limiter.ResetLogin | internal/auth/limiter.go:84-90 | a reset prunes and clears the address |
| LoginLimiter.EvictionIsSound | internal/auth/limiter.go:105-118 | the evicted window has the oldest start in every map order if and only if the empty address is absent or some other window is at least as old |
| LoginLimiter.CountsAreBounded | internal/auth/limiter.go:35-118 | over every sequence of operations each stored count is between 1 and the limit and at most 4096 windows exist |
| LoginLimiter.ClearedOnlyBy | internal/auth/limiter.go:54-118 | a live window goes away exactly by a reset, an admitted success or eviction from a full table |
| LoginLimiter.CountIsExact | internal/auth/limiter.go:35-82 | over every run a window starts with the report that opened it and counts exactly the failures reported since, up to the limit |
| LoginLimiter.WindowCounts | internal/auth/limiter.go:54-82 | from the call that opens a window, until the window is cleared or a reading ends it, it stays and holds at least the verifications failed since |
| LoginLimiter.AtMostLimitPerWindow | internal/auth/limiter.go:35-82 | among any calls of any run at most `limit` verifications of an address fail, unless its window is cleared or a reading ends the window of an earlier one with more than `limit` calls to come; no order of the readings is supposed |
| LoginLimiter.LimitHoldsExactlyIfTimely | internal/auth/limiter.go:35-82 | for given clock readings every run keeps to the limit if and only if no reading ends the window of an earlier one with more than `limit` calls to come |
| LoginLimiter.OrderedReadingsAreTimely | internal/auth/limiter.go:35-82 | readings in the order of the calls that span less than one window length meet that condition |
| LoginLimiter.LateReadingReopens | internal/auth/limiter.go:35-68 | limit one: a call that read the clock late but got the lock early lets two attempts fail at one moment |
| LoginLimiter.NoLimitNoBlock | internal/auth/limiter.go:70-82 | with a limit of zero or less nothing is ever stored |
| ShardTotals.SumInts | internal/adapters/nightingale/elasticsearch_provider.go:572-584 | the exact sum precisely when there is a part, all parts are known and the true sum fits 64 bits, in every iteration order and without overflow on the way |
| ShardTotals.SaturatingAdd | internal/service/elasticsearch_service.go:745-751 | addition stops at the largest integer and does not overflow on the way |
| ShardTotals.ClusterAlerts | internal/service/elasticsearch_service.go:125-143 | the unassigned-shard totals are the smaller of the largest integer and the true sum, and yellow and red clusters are counted, for every list of clusters |
| ShardTotals.UnassignedOfOne | internal/service/elasticsearch_service.go:125-143 | one cluster counts for its own health with the non-negative number of shards it reports |
| ShardTotals.TotalsIgnoreOrder | internal/service/elasticsearch_service.go:125-143 | the true sums do not depend on the order of the clusters |
| MetricRange.RangeStepIsLeast | internal/service/metrics.go:103-110 | the step is the least of which 599 cover the duration if and only if the duration is not negative or a multiple of 599 |
| MetricRange.EmitPoints | internal/adapters/mock/provider.go:75-86 | the emission loop yields exactly quotient plus one points, at whole steps from the start |
| MetricRange.TicksFillRange | internal/adapters/mock/provider.go:79-86 | the emitted times are exactly those in the range that lie whole steps after its start |
| MetricRange.ChosenStepFits | internal/service/metrics.go:103-110 | with the chosen step a range yields at most 600 points |
| MetricRange.DurationSecondsIsLeast | internal/adapters/nightingale/provider.go:415-421 | the upstream step is the least number of whole seconds, at least one, that covers the duration |
| MetricRange.WholeSecondRangeFits | internal/adapters/nightingale/provider.go:244-249 | so does the upstream query whose ends are rounded down and whose step is rounded up to whole seconds |
| MetricRange.NormalizePoints | internal/service/metrics.go:112-128 | short lists are kept as they are, longer ones become 600 points taken at computed indices within the list |
| MetricRange.KeptIndicesSpreadEvenly | internal/service/metrics.go:120-127 | the kept indices include the first and the last, and neighbours lie the rounded-down or rounded-up stride apart |
| MetricRange.KeptIndicesIncrease | internal/service/metrics.go:120-127 | the kept indices are strictly increasing |
| MetricRange.LoadPoints | internal/service/metrics.go:49-86 | step, emission and thinning together: what a provider emits for a range passes through unchanged |
| Replication.ThreadsLevel | internal/service/mysql_service.go:388-406 | critical exactly when a thread is stopped, otherwise unknown exactly when one is unreported |
| Replication.LagLevel | internal/service/mysql_service.go:408-427 | critical exactly from 30 seconds of the largest valid lag, warning exactly from 5, available exactly when there is one |
| Replication.DataLevel | internal/service/mysql_service.go:429-442 | unknown exactly when some channel is incomplete or a replica has none |
| Replication.ChannelStates | internal/service/mysql_service.go:388-457 | a thread that reports false stops a channel, a thread that reports nothing leaves it incomplete, and it is in order only with both running and a valid lag |
| Replication.Summarize | internal/service/mysql_service.go:486-539 | one pass finds the largest valid lag and the level: critical exactly with a stopped thread or a lag from 30 seconds, else warning from 5, else unknown exactly with an incomplete channel or a replica without channels |
| Replication.SummaryMatchesAlerts | internal/service/mysql_service.go:144-152 | for every list of channels the summary level is the worst of the three separately computed alert levels, and the lags agree |
| Replication.ChannelOrderIsIrrelevant | internal/service/mysql_service.go:486-539 | none of it depends on the order of the channels |

## Left out

- HTTP handlers, middleware, JSON envelopes and the Nightingale transport: responses enter the model as values.
- The web front end, configuration, wiring in `main.go`, timeouts and graceful shutdown.
- PromQL texts, URL, CIDR, number and time parsing: the model starts from parsed labels and samples.  A malformed series is a case of its own where the code treats it as one.
- Hashing of stable ids, taken as injective; `strings.ToLower`, trimming and `netip` parsing, taken as arbitrary functions.
- Floating-point rounding: metric values are reals.  Values that are not finite are a separate case in `Replication` and missing values elsewhere.
- The session manager of `internal/auth/manager.go`, clone functions, status tables of single items and threshold checks: easy members.
- The alternative-assessment choices of the overviews, `mergeMeta` and `latestTime`: short maxima that would only add easy members.
- Which stored value a sort field reads in the RabbitMQ, Elasticsearch, Java, Redis and MySQL lists: `ServicePages` is stated for any reading.
- The cache's lazy creation of its maps and the derivation of the load context, beyond when it is cancelled.
- CacheStore.Store.Enter: starting the loader goroutine is a step of the transition system, not of the method.
- RabbitInventory.BuildInventory: nodes are values, so that both indexes point to one mutable state, which later merges rely on, is not captured; a second record under one id shows as a second join key.
- DiskInventory.RecordsDescribe: which of several model texts is kept when the newest series do not all name one (`NewestModelIsKept`) depends on the order of the series and is left open.
- Freshness.LevelBands: saturation of the time difference and overflow of five intervals at lengths of decades are not modelled.
- AddressOrder.TransitiveUnlessStraddled: supposes that differences of ports of one host fit the machine integer; `FarPortsCanCycle` shows the need, but which lists survive a wrapped difference is left open.
- ServicePages.List: which statuses, roles and sort names a query may carry, and the options listed beside the rows, are not modelled.
- SortedPages.CutPage: a list longer than the machine integer less 500 is excluded, as no slice of rows can be that long.
- MetricRange.NormalizePoints: overflow of index times length is not modelled; it needs more than 2^53 points.
