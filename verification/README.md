# SentinelDock: verified models of its engines

SentinelDock collects an inventory of hosts, containers and services and derives findings from it. This project models the engines
behind those findings and proves what their code and documentation promise:

- policy evaluation as a reconciler over the `policy_violations` table, and its split by network segment and shard
  (`PolicyLanguage`, `PolicyEngine`, `Violations`, `PolicyMeaning`, `DistributedEvaluation`), also when the split parts run at the same time
  (`ParallelEvaluation`);
- the attack-path builder, a bounded breadth-first search over the dependency graph (`AttackGraph`, `AttackPaths`);
- the worker fleet: the Redis lock around a collection cycle, the hash-based work split and the bounded async pool
  (`CycleLock`, `Sharding`, `WorkerPool`);
- the correlated timeline (`Timeline`, with `NewestFirst` for its sort);
- statistics: least-squares trend, z-score outliers, attack simulation, behaviour baselines (`Regression`, `Outliers`, `Sandbox`, `Ueba`);
- wire formats and addresses: BER lengths and elements, object identifiers, DNS names, CIDR sweeps (`Ber`, `Oid`, `DnsName`, `CidrSweep`).

`Options`, `Sequences`, `JsText`, `JsArithmetic`, `RealArithmetic`, `Bytes`, `Assets` and `Inventory` hold what these share.
Tables are sequences of rows (a row's position is its identity), maps the source fills in loops are maps, and objects with updated fields are classes whose methods
are tied to a specification function; the lemmas are about those functions. Numbers are exact reals or unbounded integers, except where
JavaScript's 32-bit operators are used: `JsArithmetic` models those bit by bit. The two copies of the string hash
(worker and backend) are one function here.

## Where the code and its descriptions differ

The model follows the code; these are the places where a promise holds only under a condition, and the member that gives it.

- Splitting an evaluation by segment equals the global one when references are intact. `containers.host_id` is nullable in the
  schema, though the TypeScript type says otherwise; a container without a host is never evaluated by any shard
  (`HostlessContainerIsMissed`, exact condition in `SplitDiffersIff`).
- "At most one open row per policy and asset" survives every evaluation, acknowledgement, resolution and policy deletion, but not a
  PATCH that reopens a row while another one is open (`HistoryKeepsOneOpenRowIff`, `AcknowledgedThenReopened`).
- A shard plan for one shard assigns everything to shard 0, yet a call with any index then evaluates everything (`PlanNamesTheCall`).
- A hop's success probability is documented as coming from the strongest applicable signal. The code takes the first kind of signal it
  finds, and among threat-intel matches, ordered by the severity's name as text, the weakest. `HopTakesStrongestIff` says exactly when
  that is the strongest one on record; `WeakExploitHidesMatch` is an input where it is not.
- Evaluations may overlap in time: what ends up open is the same whatever their scopes. Rows are never doubled exactly if every
  violated pair two of the runs have in scope already has its open row (`NeverDoublesIff`), as it does trivially for segments and shards.
- The cycle lock excludes other replicas exactly if nobody tries to acquire it while another replica is past its ttl and still inside
  (`ExclusionIff`, and `AloneInFnIff` for the cycle itself); an overrun alone does no harm. `OverrunAdmitsSecondReplica` is a schedule
  where it does.
- The lock is released only by its holder, as a comment in the code has it, exactly if no DEL is issued past its issuer's own deadline
  while some key is live (`StealingIff`; `OverrunStealsLock` is a schedule where one is).
- The pool fills every result slot unless its limit is below one (`FinalResults`).
- BER lengths read back below 2^31 only (`LengthRoundTrip`). A larger one can read as negative and take the value walk back: it then
  never ends, exactly if it reaches some position twice (`EndlessIff`; `WalkStandsStill` is a buffer where it does).
- Object identifiers decode to themselves exactly when 40 times the first arc plus the second is below 0x80 and every later arc is
  below 2^31, though SNMP allows arcs up to 2^32 - 1 (`OidRoundTrip`, `LargeArcIsLost`).
- DNS names read back up to 64 labels, and their end position up to 63 (`NameRoundTrip`).

## Model

| member | source | states |
|---|---|---|
| DistributedEvaluation.SplitEqualsGlobal | backend/src/services/distributedEvaluationEngine.ts:45-126 | With references intact, calling every shard of any shard count, in any order and with repetitions, leaves exactly the open (policy, asset) pairs of one global evaluation, for every inventory, policy set and table |
| DistributedEvaluation.SplitRunResult | backend/src/services/distributedEvaluationEngine.ts:74-126 | Without that premise: the pairs of assets some existing host and segment account for end up open exactly if violated, all others stay as they were |
| DistributedEvaluation.SplitDiffersIff | backend/src/services/distributedEvaluationEngine.ts:99-119 | Split and global evaluation agree on a pair exactly when its asset is covered by a host with an existing (or no) segment, or its state needs no change |
| DistributedEvaluation.HostlessContainerIsMissed | backend/src/services/distributedEvaluationEngine.ts:114-119 | A container without a host that some enabled policy matches, not open yet, is opened globally and by no shard, in any inventory and table |
| DistributedEvaluation.CallReaches | backend/src/services/distributedEvaluationEngine.ts:80-119 | The scopes one call evaluates reach exactly the assets of hosts whose segment (or the unassigned bucket) belongs to that shard |
| DistributedEvaluation.ShardsAreDisjoint | backend/src/services/distributedEvaluationEngine.ts:59-67 | Scopes evaluated by different shards share no host |
| DistributedEvaluation.CountingAgreesWithScope | backend/src/services/distributedEvaluationEngine.ts:20-35 | The counting query's joins and COALESCE attribute an asset to the same hosts as `ownerHostId` does |
| DistributedEvaluation.CountSurvivesOtherRuns | backend/src/services/distributedEvaluationEngine.ts:91-111 | A segment's open count is unchanged by an evaluation of any other set of hosts |
| DistributedEvaluation.ReportDescribesFinalTable | backend/src/services/distributedEvaluationEngine.ts:88-125 | A call reports on each segment of its shard and on no other, with its name, the number of its hosts, and the number of open rows in the final table whose asset belongs to one of them |
| DistributedEvaluation.CountOpenIsSize | backend/src/services/distributedEvaluationEngine.ts:19-35 | The count is the number of rows that are open and whose asset belongs to one of the hosts |
| DistributedEvaluation.HostsCount | backend/src/services/distributedEvaluationEngine.ts:80-86 | The sizes reported are the numbers of hosts in a segment and without one |
| DistributedEvaluation.PlanNamesTheCall | backend/src/services/distributedEvaluationEngine.ts:134-141 | The plan lists every segment with its id and name, and its shard index is the index of the one call that evaluates it, exactly for more than one shard (or index 0) |
| DistributedEvaluation.EvaluatePoliciesBySegment | backend/src/services/distributedEvaluationEngine.ts:74-126 | The call leaves the table of its scopes run in order, returns the reports described above, and counts each segment of another shard as skipped |
| DistributedEvaluation.GroupBySegment | backend/src/services/distributedEvaluationEngine.ts:80-86 | The grouping loop's map holds, for every segment, exactly the ids of its hosts |
| ParallelEvaluation.ParallelShardsEqualGlobal | backend/src/services/distributedEvaluationEngine.ts:50-67 | With references intact, the evaluations of all segments of all shards may run in parallel: every interleaving of their SELECT, UPDATE and INSERT statements ends with exactly the pairs open that one global evaluation leaves open |
| ParallelEvaluation.ParallelShardsKeepOneOpenRow | backend/src/services/distributedEvaluationEngine.ts:59-67 | At no moment of such an interleaving does a pair have two open rows |
| ParallelEvaluation.ParallelRunsSettle | backend/src/services/policyEngine.ts:140-147 | However runs of any scopes, overlapping or not, interleave: the pairs of their scopes end up open exactly if violated and all others stay as they were |
| ParallelEvaluation.NeverDoublesIff | backend/src/services/policyEngine.ts:199-226 | Every interleaving of a list of runs keeps at most one open row per pair exactly if every violated pair in the scopes of two of them is already open at the start |
| ParallelEvaluation.ParallelRunsKeepOneOpenRow | backend/src/services/policyEngine.ts:196-226 | In particular runs over pairwise disjoint scopes never double a row, at any moment of any interleaving |
| ParallelEvaluation.StepKeepsCourse | backend/src/services/policyEngine.ts:199-226 | The invariant behind it: each statement of any run, whatever its scope, leaves every run that has read the table bound to settle its own |
| ParallelEvaluation.UninterruptedRunReconciles | backend/src/services/policyEngine.ts:199-226 | The statements of one run, issued without interruption, do to the table what the reconciliation specifies |
| ParallelEvaluation.ScriptMeans | backend/src/services/policyEngine.ts:207-219 | What a run writes after reading the table: a resolution for each stale open row of its scope, an insertion for each detection without an open row |
| ParallelEvaluation.OverlapDoublesRows | backend/src/services/policyEngine.ts:199-226 | For every two overlapping scopes and every violated pair in both that has no open row, a finished interleaving of the two runs that leaves two |
| Violations.OpenAfterRun | backend/src/services/policyEngine.ts:148-229 | After a run, a pair in scope is open exactly if violated now, and a pair out of scope is open exactly if it was |
| Violations.GlobalRunOpensViolations | backend/src/services/policyEngine.ts:135-138 | After an unscoped run the open pairs are exactly the violated ones, orphaned rows included |
| Violations.RunTouchesOnlyItsScope | backend/src/services/policyEngine.ts:140-147 | Rows that are not open or not in scope are unchanged; a changed row is only resolved and stamped, and was no longer violated; every added row is open, in scope, violated and was not open |
| Violations.SecondRunWritesNothing | backend/src/services/policyEngine.ts:135-138 | An evaluation right after another, at any time, leaves the table unchanged |
| Violations.RunKeepsOneOpenRow | backend/src/services/policyEngine.ts:215-226 | An evaluation keeps at most one open row per pair |
| Violations.HistoryKeepsOneOpenRowIff | backend/src/services/policyEngine.ts:196-226 | Over every history of evaluations (any inventories, any scopes), status changes and policy deletions, a pair has at most one open row at every moment exactly if no row is set back to open while another row of its pair is open |
| Violations.HistoryKeepsOneOpenRow | backend/src/services/policyEngine.ts:196-226 | In particular over every history that never reopens a row |
| Violations.DeletionKeepsOneOpenRow | db/migrations/001_init.sql:101 | Deleting a policy's rows keeps at most one open row per pair and invents none |
| Violations.DeletionMeans | db/migrations/001_init.sql:101 | Deleting a policy removes exactly its rows |
| Violations.ReopeningIsSafeIff | backend/src/routes/policies.ts:180-190 | Setting a row back to open keeps that invariant exactly when no other row of the pair is open |
| Violations.AcknowledgedThenReopened | backend/src/routes/policies.ts:180-190 | Evaluating a violated pair whose row is acknowledged and then reopening that row always breaks it |
| Violations.DisjointRunsCommute | backend/src/services/policyEngine.ts:140-147 | Two runs over disjoint host sets, in either order, leave the same earlier rows and add the same two groups of rows |
| Violations.AddedRowsRecordTheirPolicy | backend/src/services/policyEngine.ts:163-193 | Every added row has the severity of an enabled policy that matches the asset, the asset's details and the time of the run |
| Violations.ViolationStore.EvaluatePolicies | backend/src/services/policyEngine.ts:148-229 | The detect, resolve and insert loops leave the reconciled table and return its open rows newest first |
| Violations.SortedOpenRows | backend/src/services/policyEngine.ts:228 | What a run returns is every open row, as often as it occurs, and no other, newest first |
| Violations.ViolationStore.Patch | backend/src/routes/policies.ts:180-190 | A patch touches one row at most and of it only the status, if one is given, and the resolution time, set exactly when resolving; an unknown row is reported and nothing changes |
| Violations.DetectViolations | backend/src/services/policyEngine.ts:163-194 | The nested loops detect, per enabled policy and in order, every in-scope asset of its target kind that matches |
| PolicyEngine.DetectMeans | backend/src/services/policyEngine.ts:149-194 | A scoped run detects a pair exactly if it is violated by the whole-inventory reading and its asset is in scope |
| PolicyEngine.DetectByDistinct | backend/src/services/policyEngine.ts:163-194 | No pair is detected twice in a run |
| PolicyEngine.CandidateOwner | backend/src/services/policyEngine.ts:154-161 | The host an asset is filtered by during detection is the host `ownerHostId` finds for its violations |
| PolicyEngine.GroupDeviceClasses | backend/src/services/policyEngine.ts:57-67 | The map holds, per segment, exactly the device classes of its hosts |
| PolicyEngine.MixedSegmentFlag | backend/src/services/policyEngine.ts:72-84 | The flag policies read is true exactly when the segment holds a host of another device class anywhere in the inventory |
| PolicyEngine.ServicePathsReachItsOwner | backend/src/services/policyEngine.ts:96-133 | A policy path `host.…` on a service reads the enriched form of the very host that owns the service for scoping |
| PolicyMeaning.HostPolicyFlags | backend/src/services/policyEngine.ts:13-37 | After a global run, a host policy with one condition on a column has flagged a host exactly as that operator compares the column's value: equal or not, in the list or not, below or above, containing the text |
| PolicyMeaning.ContainerPolicyFlags | backend/src/services/policyEngine.ts:174-180 | The same for containers and their columns |
| PolicyMeaning.ServicePolicyFlags | backend/src/services/policyEngine.ts:181-192 | The same for services and their columns, the numeric port among them |
| PolicyMeaning.SegmentPolicyFlags | backend/src/services/policyEngine.ts:72-84 | A condition on `network_segment.…` compares the column of the host's segment, and nothing for a host without one |
| PolicyMeaning.MixedSegmentPolicyFlags | backend/src/services/policyEngine.ts:57-84 | A policy on the mixed-classes flag flags a host exactly if its segment holds a host of another device class anywhere in the inventory |
| PolicyMeaning.ServiceHostPolicyFlags | backend/src/services/policyEngine.ts:96-133 | A condition on `host.…` of a service compares the column of the host that owns it |
| PolicyMeaning.ServiceContainerPolicyFlags | backend/src/services/policyEngine.ts:103-110 | A condition on `container.…` of a service compares the column of its container |
| PolicyMeaning.ContainerHostPolicyFlags | backend/src/services/policyEngine.ts:86-94 | A condition on `host.…` of a container compares the column of its host |
| PolicyMeaning.OneConditionOnComposite | backend/src/services/policyEngine.ts:14-36 | A value that is a list or an object equals nothing, is in no list and has no order |
| PolicyMeaning.PoliciesCombine | backend/src/services/policyEngine.ts:39-44 | A policy flags an asset exactly if each of its `all` conditions alone would, and, when it has `any` conditions, one of those alone would |
| PolicyMeaning.OthersFlagNothing | backend/src/services/policyEngine.ts:149-194 | A disabled policy flags nothing, and an enabled one nothing of another kind than its target |
| PolicyMeaning.AddedRowTellsAsset | backend/src/services/policyEngine.ts:167-192 | The details of an added row read back as the asset's name, image, port and address |
| PolicyLanguage.NestedPath | backend/src/services/policyEngine.ts:6-11 | A dotted path reads one level after the other, and below a missing or null level everything is undefined |
| PolicyLanguage.LengthRead | backend/src/services/policyEngine.ts:6-11 | Reading `length` of a text or list gives its length, and any path into a number, truth value or nothing gives undefined |
| PolicyLanguage.AnyOfOppositesNegatesAll | backend/src/services/policyEngine.ts:13-44 | On well-typed operands the opposites of a list of conditions match under `any` exactly when the list fails under `all`, or is empty |
| JsText.JoinUndoesSplit | backend/src/services/policyEngine.ts:7 | Joining the parts of a split string gives the string back |
| AttackGraph.HopsAreBall | backend/src/services/attackPathEngine.ts:54-95 | The hops of a path are exactly the assets at undirected distance one to four from the entry, each once, in non-decreasing distance |
| AttackGraph.BfsIsBall | backend/src/services/attackPathEngine.ts:62-95 | The same from any layer and for any depth: what the search finds completes the ball of that radius |
| AttackGraph.ReachIsMutual | backend/src/services/attackPathEngine.ts:28-42 | An asset is reached from another exactly if the other is reached from it |
| AttackGraph.HopsAreConnected | backend/src/services/attackPathEngine.ts:64-76 | Every hop is an edge from the entry or from a hop listed before it |
| AttackGraph.HopsInQueueOrder | backend/src/services/attackPathEngine.ts:62-95 | The hops are listed as one scan of a queue finds them: the new ends of the entry's edges, then of each hop's in turn |
| AttackGraph.EdgesInOrder | backend/src/services/attackPathEngine.ts:32-42 | An asset's edges are in the order of the dependencies |
| AttackGraph.EdgeMeans | backend/src/services/attackPathEngine.ts:32-42 | The edges of a node are exactly the dependencies at either end of it, marked as reversed when read backwards |
| AttackGraph.BuildAdjacency | backend/src/services/attackPathEngine.ts:32-42 | The adjacency map lists every node's edges in order of insertion |
| AttackPaths.RowExists | backend/src/services/attackPathEngine.ts:49-52 | An exposed service gets a row exactly if it carries a risk and depends on, or is depended on by, some other asset |
| AttackPaths.RowDescribesReach | backend/src/services/attackPathEngine.ts:49-122 | Of every row: over the assets within four undirected steps, the severity is the attained maximum with its two escalations, the target is a worst one and the nearest of them, and the blast radius is their number |
| AttackPaths.SeverityIsMaximum | backend/src/services/attackPathEngine.ts:84-108 | The severity bounds the entry's and every reached asset's, is critical with a privileged container and at least high across two segments, and one of these attains it |
| AttackPaths.WorstIsMaximum | backend/src/services/attackPathEngine.ts:84-87 | The running severity is the attained maximum over entry and hops |
| AttackPaths.TargetIsFirstWorst | backend/src/services/attackPathEngine.ts:89-91 | The target is the first hop in order of discovery that no other hop exceeds in severity |
| AttackPaths.TargetIsNearest | backend/src/services/attackPathEngine.ts:89-91 | No reached asset of the target's severity is nearer to the entry than the target |
| AttackPaths.LastRiskWins | backend/src/services/attackPathEngine.ts:26 | An asset's severity comes from its last risk row |
| AttackPaths.NoteReached | backend/src/services/attackPathEngine.ts:78-91 | The running maxima, flags and segments describe the hops found so far |
| AttackPaths.ScanNode | backend/src/services/attackPathEngine.ts:64-93 | Scanning a node's edges appends exactly the unseen ones to hops, marks and queues them |
| AttackPaths.ScanLayer | backend/src/services/attackPathEngine.ts:63-94 | Scanning a frontier appends the layer's fresh edges and queues their nodes |
| AttackPaths.BuildPath | backend/src/services/attackPathEngine.ts:49-122 | The search loop with its early stop builds the specified row, with `visited.size - 1` equal to the number of hops |
| AttackPaths.AttackPathTable.Rebuild | backend/src/services/attackPathEngine.ts:17-125 | The table is replaced by one row for each service that is exposed, has a risk and another asset across a dependency, in the order of the services, each with the severity, target, blast radius and name its reach within four steps gives it |
| AttackPaths.TableMeans | backend/src/services/attackPathEngine.ts:18-122 | The same for the first n services |
| AttackPaths.SeverityOfMeans | backend/src/services/attackPathEngine.ts:84-86 | An asset's severity is that of its last risk row, else a host's criticality, else low |
| AttackPaths.PrivilegedMeans | backend/src/services/attackPathEngine.ts:25-78 | What escalates a path is a container whose row says privileged |
| AttackPaths.SegmentOfMeans | backend/src/services/attackPathEngine.ts:79-82 | Only hosts have a segment, the one in their row |
| CycleLock.ExclusionIff | worker/src/services/distributedLock.ts:33-60 | In every interleaving of SET, expiry, GET and DEL by any replicas, at most one is between its SET and the end of its release throughout, exactly if nobody tries a SET while another is past its deadline and still inside |
| CycleLock.MutualExclusion | worker/src/services/distributedLock.ts:19-60 | In particular when every holder finishes within its ttl |
| CycleLock.StealingIff | worker/src/services/distributedLock.ts:52-55 | In every interleaving no DEL removes a lock another replica acquired, exactly if none is issued past its issuer's own deadline while some key is live |
| CycleLock.ReleaseFollowsItsGet | worker/src/services/distributedLock.ts:52-55 | In every run a release removes the key if the GET before it found the live key held by the replica itself, and leaves it exactly as it is if it found another id or nothing |
| CycleLock.ExclusiveRunsStealNothing | worker/src/services/distributedLock.ts:52-55 | In particular in every run that excludes, overruns or not |
| CycleLock.AloneInFnIff | worker/src/services/distributedLock.ts:19-22 | In every interleaving one replica at a time runs a cycle, exactly if nobody tries a SET while another one runs without its lock |
| CycleLock.StealingNothingUnexclusively | worker/src/services/distributedLock.ts:48-59 | A schedule that does not exclude, yet steals nothing and has one replica at a time inside `fn` |
| CycleLock.BlocksForItsTtlAtMost | worker/src/services/distributedLock.ts:28-42 | Whatever becomes of a holder, once its ttl has passed and nobody else has acquired the key, the next SET does |
| CycleLock.DelRemovesOwnLock | worker/src/services/distributedLock.ts:52-55 | In particular when every holder finishes within its ttl: a DEL then meets its issuer's own live key, and frees it |
| CycleLock.LockIsVisibleThroughout | worker/src/services/distributedLock.ts:38-50 | From SET to release the key shows its holder with the holder's deadline, and every other SET is refused |
| CycleLock.TimelyRunKeepsHoldersTrue | worker/src/services/distributedLock.ts:33-60 | The inductive invariant: whoever holds is who the key names, and every GET of a holder read its own id |
| CycleLock.OverrunAdmitsSecondReplica | worker/src/services/distributedLock.ts:33-60 | For any two replicas and ttl, a schedule in which an overrun lets the second into `fn` beside the first |
| CycleLock.OverrunStealsLock | worker/src/services/distributedLock.ts:52-55 | For any two replicas and ttl, a schedule whose late DEL removes the lock of the next holder, since GET and DEL are two commands |
| Sharding.FleetPartitionsWork | worker/src/services/distributedLock.ts:73-89 | The shares of all online replicas together are the work items, each claimed exactly once |
| Sharding.ShareIsOwnedItems | worker/src/services/distributedLock.ts:84-89 | An online replica's share is exactly the items it owns, in their original order |
| Sharding.UnlistedClaimsAll | worker/src/services/distributedLock.ts:80-87 | A replica its own list does not name claims every item |
| Sharding.ShardIsOwnersPosition | backend/src/services/distributedEvaluationEngine.ts:5-17 | Backend shards and the worker fleet split alike: an item belongs to the replica at the position that is its shard |
| Sharding.ViewsAgree | worker/src/services/distributedLock.ts:73-89 | Replicas whose heartbeat lists hold the same ids, in any order and with any duplicates, compute the same shares |
| Sharding.FleetIgnoresOrderAndDuplicates | worker/src/services/distributedLock.ts:85 | The sorted, deduplicated fleet depends only on the set of ids |
| Sharding.SignedHashIsDjb2 | worker/src/services/distributedLock.ts:66-71 | The signed running value stays in 32 bits, times 33 stays exact in a double, and read unsigned it is the fold modulo 2^32 |
| Sharding.HashesByHand | worker/src/services/distributedLock.ts:67-71 | The hashes of the empty text and of one letter, worked out by hand |
| JsText.LessMeans | worker/src/services/distributedLock.ts:85 | One text sorts before another if it is a proper prefix of it or smaller where they first differ |
| Sharding.StringHash | backend/src/services/distributedEvaluationEngine.ts:5-10 | The loop returns the unsigned hash |
| Sharding.ShardFor | backend/src/services/distributedEvaluationEngine.ts:14-17 | A shard index is the remainder of the hash, below the shard count |
| WorkerPool.FinalResults | worker/src/collectors/subnetScanner.ts:65-76 | When every loop has returned, the results are the outcomes in order of the items, exactly if the limit is at least one or there is nothing to do |
| WorkerPool.ClaimedAtMostOnce | worker/src/collectors/subnetScanner.ts:69-71 | In every interleaving no index is claimed twice |
| WorkerPool.ClaimedAtLeastOnce | worker/src/collectors/subnetScanner.ts:69-71 | Every index below the cursor was claimed by some step |
| WorkerPool.InFlightBound | worker/src/collectors/subnetScanner.ts:74 | At most min(limit, number of items) calls are in flight |
| WorkerPool.BoundIsReached | worker/src/collectors/subnetScanner.ts:74 | A run in which min(limit, number of items) calls are in flight |
| WorkerPool.PoolTerminates | worker/src/collectors/subnetScanner.ts:65-76 | A run has at most one step per loop plus one per item, and a pool that cannot step has returned everywhere |
| WorkerPool.RunSpendsRemaining | worker/src/collectors/subnetScanner.ts:68-73 | Each step uses up exactly one unit of unstarted loops and empty slots |
| WorkerPool.RunsStayValid | worker/src/collectors/subnetScanner.ts:66-73 | Slots below the cursor are filled or in flight, those above are empty, and loops return only at the end |
| Timeline.ClustersAreComponents | backend/src/services/siemEngine.ts:12-59 | Two events share a cluster id exactly if a chain of events of their asset, with gaps of at most ten minutes, links them |
| Timeline.PerSourceLimitIsExact | backend/src/services/siemEngine.ts:20-61 | Fetching only the newest `limit` rows per source gives, cluster ids included, the first `limit` events of the timeline of all rows, for any number of sources and with ties |
| Timeline.TimelineHasNewest | backend/src/services/siemEngine.ts:20-61 | The returned list has min(limit, number of rows) rows of the sources, none more often than they have it, newest first, and none left out is newer; all rows if the limit allows |
| Timeline.TimelineIgnoresStorageOrder | backend/src/services/siemEngine.ts:32-41 | With distinct times the timeline does not depend on how the rows are listed |
| Timeline.ClusteredOfPrefix | backend/src/services/siemEngine.ts:47-61 | Cutting the timeline keeps the cluster ids of what remains |
| Timeline.ClusterPass | backend/src/services/siemEngine.ts:43-59 | The one-pass map of last seen events computes the clusters |
| Timeline.CorrelatedTimeline | backend/src/services/siemEngine.ts:20-62 | The returned list is the clustered, cut timeline of the limited sources that the rows above describe |
| NewestFirst.SortOfConcat | backend/src/services/siemEngine.ts:32-41 | Sorting the concatenated sources stably is merging the sorted sources |
| NewestFirst.TakeOfMerge | backend/src/services/siemEngine.ts:22-27 | The n first of a merge need only the n first of either side |
| Regression.FitIsLeastSquares | backend/src/services/quantumEngine.ts:29-51 | No other line has a smaller sum of squared residuals, and none other has the same |
| Regression.NormalEquations | backend/src/services/quantumEngine.ts:42-51 | Residuals sum to zero, plain and weighted by position |
| Regression.DenominatorIsPositive | backend/src/services/quantumEngine.ts:46-50 | The denominator is n(n²-1)/12, so the zero guard never fires for two or more samples |
| Regression.LinearSeriesRecovered | backend/src/services/quantumEngine.ts:42-62 | An exactly linear series gives back its line, its next value up to clamp and rounding, and its direction, from a slope of 0.05 either way |
| RealArithmetic.RoundIsNearest | backend/src/services/quantumEngine.ts:58-60 | Rounding gives a nearest multiple, the upper one of two |
| Regression.ReversalNegatesSlope | backend/src/services/quantumEngine.ts:42-51 | Reversing a series negates the slope |
| Regression.ReversalTurnsDirection | backend/src/services/quantumEngine.ts:54 | Reversing swaps increasing and decreasing and keeps stable |
| Regression.FitLine | backend/src/services/quantumEngine.ts:39-51 | The accumulating loops compute the fitted line |
| Regression.LinearRegressionTrend | backend/src/services/quantumEngine.ts:35-63 | The whole trend, with the clamp at zero, both roundings and the two-sample minimum |
| Outliers.FewAreFlagged | backend/src/services/quantumEngine.ts:85-95 | (number flagged) times the squared threshold is at most n |
| Outliers.NegativeThresholdFlagsAll | backend/src/services/quantumEngine.ts:95 | A negative threshold flags every score, so there the bound holds exactly from -1 up |
| Outliers.NoneIsFar | backend/src/services/quantumEngine.ts:85-87 | A squared deviation is at most (n-1) times the variance |
| Outliers.SmallFleetHasNoOutlier | backend/src/services/quantumEngine.ts:83-95 | Fewer than 1 + threshold² scores never yield an outlier |
| Outliers.DefaultThresholdNeedsFive | backend/src/services/quantumEngine.ts:80-95 | At the default threshold fewer than five risks never yield an outlier |
| Outliers.FiveCanHaveAnOutlier | backend/src/services/quantumEngine.ts:80-95 | Five risks can: the bound is attained |
| Outliers.ZeroExitIff | backend/src/services/quantumEngine.ts:88-89 | The zero-deviation exit is taken exactly if all scores are equal |
| Outliers.OutlierInSquares | backend/src/services/quantumEngine.ts:94-95 | The z-score test is the comparison of squares |
| Outliers.RowsCountFlagged | backend/src/services/quantumEngine.ts:91-103 | One row is written per flagged score |
| Outliers.OutlierTable.ComputeQuantumOutliers | backend/src/services/quantumEngine.ts:80-105 | The table is emptied and, after both early exits, filled with a row for each risk at least the threshold off the mean, in order, with its asset, score, rounded mean, deviation and z-score |
| Ueba.BaselinesMirrorLastRun | backend/src/services/uebaEngine.ts:72-77 | Over every history the stored baselines are those of the last run's hosts, and the stored count is the size of the stored port set |
| Ueba.NewPortsReported | backend/src/services/uebaEngine.ts:47-59 | A new-port anomaly appears exactly if the host was in the last run too and gained ports, and lists precisely those |
| Ueba.SpikeReported | backend/src/services/uebaEngine.ts:61-69 | A spike appears exactly if the host was in both runs and grew from at least two ports by at least two and by half |
| Ueba.SpikeComesWithNewPorts | backend/src/services/uebaEngine.ts:51-69 | Every spike is accompanied by a new-port anomaly of the same host in the same run |
| Ueba.NothingToReport | backend/src/services/uebaEngine.ts:22-28 | A first sighting and an unchanged host report nothing |
| Ueba.PortsOfMeans | backend/src/services/uebaEngine.ts:33-44 | A host's port list is ascending, without repetition, and holds exactly its services' ports |
| Ueba.GroupPorts | backend/src/services/uebaEngine.ts:33-39 | The grouping loop holds every host's port list |
| Ueba.UebaEngine.ComputeUebaAnomalies | backend/src/services/uebaEngine.ts:29-81 | One run returns and records the anomalies against the stored baselines and overwrites every host's baseline |
| Sandbox.FullChainIff | backend/src/services/sandboxEngine.ts:52-75 | Every hop is simulated and compromised exactly if the product of all hop probabilities is at least 0.03, and then the overall value is that product rounded |
| Sandbox.StepsMean | backend/src/services/sandboxEngine.ts:55-75 | Step k is about hop k, with the hop's chance and the product of the chances so far, rounded; the steps stop where that product is below 0.03 |
| Sandbox.CompromisedStepsArePrefix | backend/src/services/sandboxEngine.ts:55-70 | The compromised steps are a prefix followed by at most one other step, and a chain cut short ends in one |
| Sandbox.TextOrderPicksWeakest | backend/src/services/sandboxEngine.ts:26-30 | The threat-intel match taken is the weakest of all |
| Sandbox.HopProbabilityMeans | backend/src/services/sandboxEngine.ts:19-37 | The chance of a hop for every combination of signals on record |
| Sandbox.HopTakesStrongestIff | backend/src/services/sandboxEngine.ts:18-37 | A hop's probability is at least what every signal on record stands for exactly if the known exploitability outweighs all others, or there is none and all threat-intel matches are equally strong and outweigh a write risk, or there is neither |
| Sandbox.WeakExploitHidesMatch | backend/src/services/sandboxEngine.ts:23-30 | A weak known exploit is taken although a critical threat-intel match is on record |
| Sandbox.PickIsStrongestIff | backend/src/services/sandboxEngine.ts:26-30 | Among threat-intel matches alone, the one taken is the strongest exactly if all are equally strong |
| Sandbox.SimulateHops | backend/src/services/sandboxEngine.ts:52-70 | The loop with its early break simulates the specified steps |
| Sandbox.SandboxStore.SimulateAttackPath | backend/src/services/sandboxEngine.ts:48-77 | An existing path's simulation is appended and returned, an unknown path changes nothing |
| Sandbox.SandboxStore.RunSimulationCampaign | backend/src/services/attackSimulationEngine.ts:16-51 | A campaign records the count, rounded average (of the sum of all overall values) and maximum of its simulations and the first path that attains the maximum, or nothing when none ran |
| Sandbox.SimulationsMean | backend/src/services/attackSimulationEngine.ts:25-34 | It simulates each listed path that exists once, in order |
| Sandbox.FindPathMeans | backend/src/services/sandboxEngine.ts:49-50 | The path simulated is the one with the id asked for |
| Sandbox.AverageAtMostMaximum | backend/src/services/attackSimulationEngine.ts:42-49 | The rounded average never exceeds the rounded maximum |
| Ber.LengthRoundTrip | worker/src/collectors/snmpScanner.ts:9-18 | Reading any encoded length anywhere in a buffer skips exactly its octets and returns its signed 32-bit reading, or its last octet if that is negative: the length itself exactly below 2^31 |
| Ber.AtMostFourDigits | worker/src/collectors/snmpScanner.ts:13-16 | The signed shift loop makes at most four octets, whatever the length |
| Ber.ParsingInvertsEncoding | worker/src/collectors/snmpScanner.ts:69-88 | Parsing any flat sequence of elements returns exactly the octet strings' contents in order if all contents are below 2^31 octets; it never does if the first longer one is an octet string, and goes on inside it, at a stated place, if it is of another kind |
| Ber.WalkOverShort | worker/src/collectors/snmpScanner.ts:80-87 | Walking elements with contents below 2^31 octets, from any position, in front of any octets and with values already collected, takes one step per element |
| Ber.EndlessIff | worker/src/collectors/snmpScanner.ts:80-86 | The walk is unfinished after every number of elements exactly if it reaches some position twice |
| Ber.ParseIsExact | worker/src/collectors/snmpScanner.ts:80-87 | Looking after as many elements as there are positions loses nothing: a walk that ends has ended by then with the same values, one that has not never ends |
| Ber.WalkEnds | worker/src/collectors/snmpScanner.ts:80-87 | The walk ends within one element per octet if each element it takes up ends behind where it starts; nothing is asked of positions it never reaches |
| Ber.WalkStandsStill | worker/src/collectors/snmpScanner.ts:74-85 | A six-octet element whose length reads as -6 on which the walk never ends |
| Ber.EncodeLength | worker/src/collectors/snmpScanner.ts:9-18 | The unshift loop produces the specified octets |
| Ber.ReadLength | worker/src/collectors/snmpScanner.ts:72-79 | The accumulating loop reads the specified length and position, at any position of any buffer |
| Ber.ParseVarBindValues | worker/src/collectors/snmpScanner.ts:69-88 | The walking loop with its early exit collects the specified values on every buffer; "unfinished" stands for not returning, which the walk's repetition decides |
| Oid.OidRoundTrip | worker/src/collectors/snmpScanner.ts:36-56 | For every object identifier a decoder by sections 8.1.3 and 8.19 of ITU-T X.690 recovers it exactly if 40 times its first arc plus its second is below 0x80 and every later arc below 2^31 |
| Oid.DecodesWrapped | worker/src/collectors/snmpScanner.ts:40-54 | With the first octet right, the decoder returns the first two arcs and every later one as its signed 32-bit reading, or its last seven bits if that is negative |
| Oid.LargeArcIsLost | worker/src/collectors/snmpScanner.ts:45-52 | 1.3.2147483648 comes back as 1.3.0 |
| Oid.SnmpOidRoundTrip | worker/src/collectors/snmpScanner.ts:36-56 | With a second arc below 40 it is recovered exactly if every later arc is below 2^31 |
| Oid.TailReadsBack | worker/src/collectors/snmpScanner.ts:40-54 | Any arcs decode to their wrapped values, none with a leading 0x80 octet |
| Oid.ArcReadsBack | worker/src/collectors/snmpScanner.ts:41-53 | One arc, in front of any octets, decodes to its wrapped value, which is itself exactly below 2^31, and does not start with 0x80 |
| Oid.EncodeOid | worker/src/collectors/snmpScanner.ts:37-56 | The encoder's loop produces the specified element |
| Oid.EncodeArc | worker/src/collectors/snmpScanner.ts:41-53 | The unshift loop produces the arc's octets |
| Bytes.AsciiMeans | worker/src/collectors/mdnsScanner.ts:14-45 | Text and octets correspond one to one, each with its high bits dropped |
| DnsName.NameRoundTrip | worker/src/collectors/mdnsScanner.ts:11-49 | At any offset of any buffer, reading returns an encoded name exactly up to 64 labels and the offset past it exactly up to 63 |
| DnsName.PointerRoundTrip | worker/src/collectors/mdnsScanner.ts:37-48 | A bare pointer to an encoded name advances by two and reads as that name, exactly up to 64 labels |
| DnsName.EncodedLabels | worker/src/collectors/mdnsScanner.ts:11-16 | Encoding a dotted name gives its labels length-prefixed and a final zero |
| DnsName.ReadLoop | worker/src/collectors/mdnsScanner.ts:27-47 | The reading loop with its breaks, 64-turn bound and recursion computes the specified labels and position |
| DnsName.ReadNameAt | worker/src/collectors/mdnsScanner.ts:26-49 | The joined name and the next offset, at any position of any buffer |
| CidrSweep.SweepStaysInside | worker/src/collectors/subnetScanner.ts:55-63 | For every address and prefix length the k-th address returned is the network address plus k + 1, strictly between network and broadcast |
| CidrSweep.SweepIsConsecutive | worker/src/collectors/subnetScanner.ts:58-61 | The signed shift, mask and addition never carry into the prefix bits nor wrap |
| CidrSweep.SweepSize | worker/src/collectors/subnetScanner.ts:49-53 | The list returned has 2^(32-p)-2 addresses for p from 24 to 30, 254 for 16 to 23, and none otherwise or for malformed octets |
| CidrSweep.DefaultPrefix | worker/src/collectors/subnetScanner.ts:47-53 | Without a prefix length the range is a /24; with one that is not a number it is empty |
| CidrSweep.MaskKeepsPrefix | worker/src/collectors/subnetScanner.ts:59 | The signed mask clears exactly the host bits |
| CidrSweep.BaseIsValue | worker/src/collectors/subnetScanner.ts:55 | Shifting and or-ing the octets gives the unsigned value of the address |
| CidrSweep.OctetsOfValue | worker/src/collectors/subnetScanner.ts:60 | Splitting a signed value into octets and reading them back gives its unsigned value |
| CidrSweep.ExpandCidrHosts | worker/src/collectors/subnetScanner.ts:45-63 | The pushing loop returns the list the other rows are about, with every early refusal |

## Left out

- Sockets, HTTP routes, the Redis and Postgres clients, authentication, the frontend and the deployment files.
- Engines that only score or match against thresholds and static tables (risk, EDR, XDR, hardening, segmentation, threat intel, cloud, ICS, remediation, playbooks, secrets): they would add only easy members.
- Floating-point rounding: statistics are exact reals with `Math.round` written out; the standard deviation is passed in as the non-negative number whose square is the variance.
- Row ids, `now()` and tie order: a row's id is its position, a run has one time, and rows of equal time keep the order of one stable sort; attack paths and campaigns are stored without their generated ids.
- Text around the logic: parsing of dotted addresses and object identifiers and printing of addresses happen outside (octets, arcs and prefix arrive as numbers or as NaN), as do display names, kill-chain techniques and timeline summaries.
- EvalCondition: the conversion of an operand to a number or to text is a parameter, so the results hold for any such conversion; numbers in data are reals, hence NaN values inside rows are not modelled.
- GetField: reads own properties and `length`; inherited properties and numeric positions of lists and strings are not modelled.
- EvaluatePolicies: a run reads one inventory throughout; changes to the inventory or to policies between the queries of a run are not modelled, nor is the database's own isolation of statements (each statement is one atomic step).
- MutualExclusion: Redis absent or unreachable, where every replica deliberately runs on its own, is not part of the protocol modelled, nor is a ttl below one millisecond, which Redis refuses.
- ShardWorkItems: replicas whose heartbeat lists hold different ids are not covered; the case of a replica missing from its own list follows the code.
- FinalResults: a rejected worker call, which rejects the whole pool, is not modelled; every call resolves.
- ReadNameAt: the depth of recursion through pointers is bounded by a parameter, and running out of it stands for the exception of an endless recursion; round trips are stated for plain names and for names that are one pointer.
- EncodeLength: the whole SNMP request and response around the elements is not modelled; integers in it are encoded as one octet each.
- HopProbability: the rule table that maps a service to a known exploitability is an optional number from 0 to 10.
- The wrappers that fetch rows for the trend, list past runs or record risk-score snapshots.
