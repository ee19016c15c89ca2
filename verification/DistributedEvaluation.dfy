// Policy evaluation split by network segment, optionally over shards: each
// call runs the scoped evaluation once per segment of its shard, and once for
// the hosts without a segment if that bucket is its own.
module DistributedEvaluation {
  import opened Options
  import opened JsText
  import opened Assets
  import opened Inventory
  import opened PolicyEngine
  import opened Violations
  import opened Sharding

  const UNASSIGNED_SHARD_KEY: JsString := Literal("unassigned-hosts")

  function HostIdsOf(hosts: seq<Host>, segment: Id): set<Id> {
    set h | h in hosts && h.segmentId == Some(segment) :: h.id
  }

  function UnassignedHosts(hosts: seq<Host>): set<Id> {
    var withSegment := set h | h in hosts && h.segmentId.Some? :: h.id;
    set h | h in hosts && h.id !in withSegment :: h.id
  }

  // The optional parameters restrict a call only when both are given and
  // there is more than one shard.
  predicate IsSharded(shardIndex: Option<int>, shardCount: Option<int>) {
    shardIndex.Some? && shardCount.Some? && shardCount.value > 1
  }

  predicate IsMine(shardIndex: Option<int>, shardCount: Option<int>, key: JsString) {
    IsSharded(shardIndex, shardCount) ==> ShardFor(key, shardCount.value) == shardIndex.value
  }

  function SegmentScopes(w: World, shardIndex: Option<int>, shardCount: Option<int>,
                         segments: seq<Segment>): seq<set<Id>> {
    if segments == [] then []
    else
      var segment := segments[|segments| - 1];
      SegmentScopes(w, shardIndex, shardCount, segments[..|segments| - 1])
        + if IsMine(shardIndex, shardCount, segment.id) && HostIdsOf(w.hosts, segment.id) != {}
          then [HostIdsOf(w.hosts, segment.id)] else []
  }

  function ScopesOf(w: World, shardIndex: Option<int>, shardCount: Option<int>): seq<set<Id>> {
    SegmentScopes(w, shardIndex, shardCount, w.segments)
      + if UnassignedHosts(w.hosts) != {} && IsMine(shardIndex, shardCount, UNASSIGNED_SHARD_KEY)
        then [UnassignedHosts(w.hosts)] else []
  }

  function RunScopes(w: World, scopes: seq<set<Id>>, t: Table, now: int): Table {
    if scopes == [] then t
    else Reconcile(w, Some(scopes[|scopes| - 1]), RunScopes(w, scopes[..|scopes| - 1], t, now), now)
  }

  // ---- Counting ----

  predicate HasContainer(w: World, hostIds: set<Id>, id: Id) {
    exists c :: c in w.containers && c.id == id && c.hostId.Some? && c.hostId.value in hostIds
  }

  // The query's WHERE clause: three joins and a COALESCE instead of `ownerHostId`.
  predicate CountedFor(w: World, hostIds: set<Id>, asset: Asset) {
    || (asset.kind.HostAsset? && asset.id in hostIds)
    || (asset.kind.ContainerAsset? && HasContainer(w, hostIds, asset.id))
    || (asset.kind.ServiceAsset? && exists s ::
          && s in w.services && s.id == asset.id
          && if s.hostId.Some? then s.hostId.value in hostIds
             else s.containerId.Some? && HasContainer(w, hostIds, s.containerId.value))
  }

  function CountOpen(w: World, hostIds: set<Id>, t: Table): nat {
    if t == [] then 0
    else
      var v := t[|t| - 1];
      CountOpen(w, hostIds, t[..|t| - 1]) + if v.status.Open? && CountedFor(w, hostIds, v.key.asset) then 1 else 0
  }

  datatype SegmentReport = SegmentReport(segment: Id, name: JsString, hostCount: nat, violations: nat)

  function SegmentReports(w: World, shardIndex: Option<int>, shardCount: Option<int>, segments: seq<Segment>,
                          t: Table, now: int): seq<SegmentReport> {
    if segments == [] then []
    else
      var segment := segments[|segments| - 1];
      var ids := HostIdsOf(w.hosts, segment.id);
      SegmentReports(w, shardIndex, shardCount, segments[..|segments| - 1], t, now)
        + if !IsMine(shardIndex, shardCount, segment.id) then []
          else [SegmentReport(segment.id, segment.name, |ids|,
                  if ids == {} then 0
                  else CountOpen(w, ids, RunScopes(w, SegmentScopes(w, shardIndex, shardCount, segments), t, now)))]
  }

  method GroupBySegment(hosts: seq<Host>) returns (hostIdsBySegment: map<Id, set<Id>>)
    ensures forall s :: (if s in hostIdsBySegment then hostIdsBySegment[s] else {}) == HostIdsOf(hosts, s)
  {
    hostIdsBySegment := map[];
    for i := 0 to |hosts|
      invariant forall s :: (if s in hostIdsBySegment then hostIdsBySegment[s] else {}) == HostIdsOf(hosts[..i], s)
    {
      var host := hosts[i];
      assert hosts[..i + 1] == hosts[..i] + [host];
      if host.segmentId.Some? {
        var key := host.segmentId.value;
        var ids := if key in hostIdsBySegment then hostIdsBySegment[key] else {};
        hostIdsBySegment := hostIdsBySegment[key := ids + {host.id}];
      }
    }
    assert hosts[..|hosts|] == hosts;
  }

  lemma NoSegments(w: World, shardIndex: Option<int>, shardCount: Option<int>, t: Table, now: int)
    ensures RunScopes(w, SegmentScopes(w, shardIndex, shardCount, []), t, now) == t
    ensures SegmentReports(w, shardIndex, shardCount, [], t, now) == []
  {
  }

  // What one more segment adds to the scopes, the table and the report.
  lemma NextSegment(w: World, shardIndex: Option<int>, shardCount: Option<int>, i: nat, next: nat, t: Table, now: int)
    requires next == i + 1 <= |w.segments|
    ensures var segment, ids := w.segments[i], HostIdsOf(w.hosts, w.segments[i].id);
      var before := SegmentScopes(w, shardIndex, shardCount, w.segments[..i]);
      var after := SegmentScopes(w, shardIndex, shardCount, w.segments[..next]);
      var reports := SegmentReports(w, shardIndex, shardCount, w.segments[..i], t, now);
      && RunScopes(w, after, t, now)
           == (if IsMine(shardIndex, shardCount, segment.id) && ids != {}
               then Reconcile(w, Some(ids), RunScopes(w, before, t, now), now)
               else RunScopes(w, before, t, now))
      && SegmentReports(w, shardIndex, shardCount, w.segments[..next], t, now)
           == reports
            + (if !IsMine(shardIndex, shardCount, segment.id) then []
               else [SegmentReport(segment.id, segment.name, |ids|,
                                   if ids == {} then 0 else CountOpen(w, ids, RunScopes(w, after, t, now)))])
  {
    hide Reconcile, CountOpen, IsMine, HostIdsOf;
    var upTo := w.segments[..next];
    assert upTo[..|upTo| - 1] == w.segments[..i] && upTo[|upTo| - 1] == w.segments[i];
    var before := SegmentScopes(w, shardIndex, shardCount, w.segments[..i]);
    assert before + [] == before;
    RunOneMore(w, SegmentScopes(w, shardIndex, shardCount, w.segments[..i]), HostIdsOf(w.hosts, w.segments[i].id), t,
               now);
  }

  method EvaluatePoliciesBySegment(store: ViolationStore, w: World, shardIndex: Option<int>, shardCount: Option<int>,
                                   now: int)
    returns (perSegment: seq<SegmentReport>, unassigned: nat, skipped: nat)
    modifies store
    ensures store.violations == RunScopes(w, ScopesOf(w, shardIndex, shardCount), old(store.violations), now)
    ensures perSegment == SegmentReports(w, shardIndex, shardCount, w.segments, old(store.violations), now)
    ensures skipped + |perSegment| == |w.segments|
    ensures unassigned == if IsMine(shardIndex, shardCount, UNASSIGNED_SHARD_KEY) then |UnassignedHosts(w.hosts)| else 0
  {
    var hostIdsBySegment := GroupBySegment(w.hosts);
    hide Reconcile, CountOpen, IsMine, HostIdsOf, UnassignedHosts;
    perSegment, skipped := [], 0;
    ghost var t := store.violations;
    NoSegments(w, shardIndex, shardCount, t, now);
    for i := 0 to |w.segments|
      invariant store.violations == RunScopes(w, SegmentScopes(w, shardIndex, shardCount, w.segments[..i]), t, now)
      invariant perSegment == SegmentReports(w, shardIndex, shardCount, w.segments[..i], t, now)
      invariant skipped + |perSegment| == i
    {
      hide RunScopes, SegmentScopes, SegmentReports;
      var segment := w.segments[i];
      NextSegment(w, shardIndex, shardCount, i, i + 1, t, now);
      if !IsMine(shardIndex, shardCount, segment.id) {
        skipped := skipped + 1;
      } else {
        var scopeHostIds := if segment.id in hostIdsBySegment then hostIdsBySegment[segment.id] else {};
        if scopeHostIds == {} {
          perSegment := perSegment + [SegmentReport(segment.id, segment.name, 0, 0)];
        } else {
          var _ := store.EvaluatePolicies(w, Some(scopeHostIds), now);
          perSegment := perSegment
            + [SegmentReport(segment.id, segment.name, |scopeHostIds|, CountOpen(w, scopeHostIds, store.violations))];
        }
      }
    }
    assert w.segments[..|w.segments|] == w.segments;
    var unassignedHosts := UnassignedHosts(w.hosts);
    var mine := IsMine(shardIndex, shardCount, UNASSIGNED_SHARD_KEY);
    ghost var scopes := SegmentScopes(w, shardIndex, shardCount, w.segments);
    assert scopes + [] == scopes;
    if unassignedHosts != {} && mine {
      RunOneMore(w, SegmentScopes(w, shardIndex, shardCount, w.segments), unassignedHosts, t, now);
      var _ := store.EvaluatePolicies(w, Some(unassignedHosts), now);
    }
    unassigned := if mine then |unassignedHosts| else 0;
  }

  lemma RunOneMore(w: World, scopes: seq<set<Id>>, scope: set<Id>, t: Table, now: int)
    ensures RunScopes(w, scopes + [scope], t, now) == Reconcile(w, Some(scope), RunScopes(w, scopes, t, now), now)
  {
    assert (scopes + [scope])[..|scopes|] == scopes;
  }

  // ---- Which assets the scopes reach ----

  // The asset belongs to an existing host whose segment, if any, exists.
  ghost predicate Covered(w: World, asset: Asset) {
    exists h :: h in w.hosts && Owner(w, asset) == Some(h.id)
      && (h.segmentId.None? || exists s :: s in w.segments && s.id == h.segmentId.value)
  }

  ghost predicate Reaches(w: World, scopes: seq<set<Id>>, asset: Asset) {
    exists i :: 0 <= i < |scopes| && InScope(w, Some(scopes[i]), asset)
  }

  lemma ReachesConcat(w: World, a: seq<set<Id>>, b: seq<set<Id>>, asset: Asset)
    ensures Reaches(w, a + b, asset) <==> Reaches(w, a, asset) || Reaches(w, b, asset)
  {
    hide InScope;
    if i :| 0 <= i < |a| && InScope(w, Some(a[i]), asset) {
      assert (a + b)[i] == a[i];
    }
    if i :| 0 <= i < |b| && InScope(w, Some(b[i]), asset) {
      assert (a + b)[|a| + i] == b[i];
    }
  }

  lemma ReachesOne(w: World, scope: set<Id>, asset: Asset)
    ensures Reaches(w, [scope], asset) <==> InScope(w, Some(scope), asset)
  {
    hide InScope;
    assert [scope][0] == scope;
  }

  // The segment of a host, as a shard key.
  function ShardKey(h: Host): JsString {
    if h.segmentId.Some? then h.segmentId.value else UNASSIGNED_SHARD_KEY
  }

  lemma {:induction false} SegmentScopesReach(w: World, shardIndex: Option<int>, shardCount: Option<int>,
                                              segments: seq<Segment>, asset: Asset)
    ensures Reaches(w, SegmentScopes(w, shardIndex, shardCount, segments), asset)
       <==> exists h, s :: h in w.hosts && s in segments && h.segmentId == Some(s.id)
              && Owner(w, asset) == Some(h.id) && IsMine(shardIndex, shardCount, s.id)
  {
    hide Owner, IsMine;
    if segments != [] {
      var front, segment := segments[..|segments| - 1], segments[|segments| - 1];
      assert segments == front + [segment];
      SegmentScopesReach(w, shardIndex, shardCount, front, asset);
      var ids := HostIdsOf(w.hosts, segment.id);
      var last := if IsMine(shardIndex, shardCount, segment.id) && ids != {} then [ids] else [];
      ReachesConcat(w, SegmentScopes(w, shardIndex, shardCount, front), last, asset);
      ReachesOne(w, ids, asset);
    }
  }

  // One call reaches the covered assets whose segment (or bucket) is its own.
  lemma CallReaches(w: World, shardIndex: Option<int>, shardCount: Option<int>, asset: Asset)
    requires UniqueIds(w)
    ensures Reaches(w, ScopesOf(w, shardIndex, shardCount), asset)
       <==> exists h :: h in w.hosts && Owner(w, asset) == Some(h.id) && IsMine(shardIndex, shardCount, ShardKey(h))
              && (h.segmentId.None? || exists s :: s in w.segments && s.id == h.segmentId.value)
  {
    hide Owner, IsMine, UniqueIds;
    var free := UnassignedHosts(w.hosts);
    var last := if free != {} && IsMine(shardIndex, shardCount, UNASSIGNED_SHARD_KEY) then [free] else [];
    SegmentScopesReach(w, shardIndex, shardCount, w.segments, asset);
    ReachesConcat(w, SegmentScopes(w, shardIndex, shardCount, w.segments), last, asset);
    ReachesOne(w, free, asset);
    UnassignedMeans(w);
  }

  lemma UnassignedMeans(w: World)
    requires UniqueIds(w)
    ensures forall id :: id in UnassignedHosts(w.hosts) <==> exists h :: h in w.hosts && h.id == id && h.segmentId.None?
  {
  }

  // ---- Any way of making the calls ----

  // Shard calls one after another, each with the same inventory.
  function ShardCalls(w: World, n: nat, calls: seq<int>, t: Table, now: int): Table {
    if calls == [] then t
    else RunScopes(w, ScopesOf(w, Some(calls[|calls| - 1]), Some(n)), ShardCalls(w, n, calls[..|calls| - 1], t, now),
                   now)
  }

  lemma {:induction false} OpenAfterScopes(w: World, scopes: seq<set<Id>>, t: Table, now: int, key: Key)
    requires UniqueIds(w)
    ensures OpenAt(RunScopes(w, scopes, t, now), key)
       <==> if Reaches(w, scopes, key.asset) then Violates(w, key) else OpenAt(t, key)
  {
    hide InScope, UniqueIds, Violates, Reconcile, OpenAt;
    if scopes != [] {
      var front, last := scopes[..|scopes| - 1], scopes[|scopes| - 1];
      assert scopes == front + [last];
      OpenAfterScopes(w, front, t, now, key);
      OpenAfterRun(w, Some(last), RunScopes(w, front, t, now), now, key);
      ReachesConcat(w, front, [last], key.asset);
      ReachesOne(w, last, key.asset);
    }
  }

  ghost predicate SomeCallReaches(w: World, n: nat, calls: seq<int>, asset: Asset) {
    exists k :: 0 <= k < |calls| && Reaches(w, ScopesOf(w, Some(calls[k]), Some(n)), asset)
  }

  lemma {:induction false} OpenAfterCalls(w: World, n: nat, calls: seq<int>, t: Table, now: int, key: Key)
    requires UniqueIds(w)
    ensures OpenAt(ShardCalls(w, n, calls, t, now), key)
       <==> if SomeCallReaches(w, n, calls, key.asset) then Violates(w, key) else OpenAt(t, key)
  {
    hide Reaches, UniqueIds, Violates, RunScopes, OpenAt, ScopesOf;
    if calls != [] {
      var m := |calls| - 1;
      var front := calls[..m];
      OpenAfterCalls(w, n, front, t, now, key);
      OpenAfterScopes(w, ScopesOf(w, Some(calls[m]), Some(n)), ShardCalls(w, n, front, t, now), now, key);
      assert forall k :: 0 <= k < m ==> front[k] == calls[k];
    }
  }

  lemma AllCallsReachCovered(w: World, n: nat, calls: seq<int>, asset: Asset)
    requires UniqueIds(w) && n >= 1 && forall i :: 0 <= i < n ==> i in calls
    ensures SomeCallReaches(w, n, calls, asset) <==> Covered(w, asset)
  {
    hide UniqueIds, Owner, ScopesOf, Reaches;
    if Covered(w, asset) {
      var h :| h in w.hosts && Owner(w, asset) == Some(h.id)
        && (h.segmentId.None? || exists s :: s in w.segments && s.id == h.segmentId.value);
      var i: int := ShardFor(ShardKey(h), n);
      assert i in calls;
      var k :| 0 <= k < |calls| && calls[k] == i;
      assert IsMine(Some(calls[k]), Some(n), ShardKey(h));
      CallReaches(w, Some(calls[k]), Some(n), asset);
    }
    if SomeCallReaches(w, n, calls, asset) {
      var k :| 0 <= k < |calls| && Reaches(w, ScopesOf(w, Some(calls[k]), Some(n)), asset);
      CallReaches(w, Some(calls[k]), Some(n), asset);
    }
  }

  // Calling every shard at least once, in any order and any number of times,
  // settles exactly the covered pairs and leaves the others as they were.
  lemma SplitRunResult(w: World, n: nat, calls: seq<int>, t: Table, now: int, key: Key)
    requires UniqueIds(w) && n >= 1 && forall i :: 0 <= i < n ==> i in calls
    ensures OpenAt(ShardCalls(w, n, calls, t, now), key)
       <==> if Covered(w, key.asset) then Violates(w, key) else OpenAt(t, key)
  {
    hide UniqueIds, Violates, OpenAt, ShardCalls, Covered, SomeCallReaches;
    OpenAfterCalls(w, n, calls, t, now, key);
    AllCallsReachCovered(w, n, calls, key.asset);
  }

  // References intact: a host's segment exists, a container's host exists, a
  // service's host or else its container exists, and so does every asset an
  // open row points at.
  ghost predicate Exists(w: World, asset: Asset) {
    match asset.kind
    case HostAsset => HostById(w.hosts, asset.id).Some?
    case ContainerAsset => ContainerById(w.containers, asset.id).Some?
    case ServiceAsset => ServiceById(w.services, asset.id).Some?
    case NetworkAsset => false
  }

  ghost predicate Intact(w: World, t: Table) {
    && (forall h :: h in w.hosts && h.segmentId.Some? ==> SegmentById(w.segments, h.segmentId.value).Some?)
    && (forall c :: c in w.containers ==> c.hostId.Some? && HostById(w.hosts, c.hostId.value).Some?)
    && (forall s :: s in w.services ==>
          if s.hostId.Some? then HostById(w.hosts, s.hostId.value).Some?
          else s.containerId.Some? && ContainerById(w.containers, s.containerId.value).Some?)
    && (forall v :: v in t && v.status.Open? ==> Exists(w, v.key.asset))
  }

  lemma ExistingIsCovered(w: World, t: Table, asset: Asset)
    requires Intact(w, t) && Exists(w, asset)
    ensures Covered(w, asset)
  {
    var owner := Owner(w, asset);
    assert owner.Some? && HostById(w.hosts, owner.value).Some?;
    var h := HostById(w.hosts, owner.value).value;
    if h.segmentId.Some? {
      var s := SegmentById(w.segments, h.segmentId.value).value;
      assert s in w.segments && s.id == h.segmentId.value;
    }
  }

  lemma ViolatingExists(w: World, key: Key)
    requires Violates(w, key)
    ensures Exists(w, key.asset)
  {
    hide Satisfies, EnrichHost, EnrichContainer, EnrichService;
  }

  // The split evaluation is equivalent to the global one: with references
  // intact, both leave the same pairs open - for any inventory, any policies,
  // any table, any number of shards and any order of the calls.
  lemma SplitEqualsGlobal(w: World, n: nat, calls: seq<int>, t: Table, now: int, key: Key)
    requires UniqueIds(w) && Intact(w, t)
    requires n >= 1 && forall i :: 0 <= i < n ==> i in calls
    ensures OpenAt(ShardCalls(w, n, calls, t, now), key) <==> OpenAt(Reconcile(w, None, t, now), key)
  {
    hide UniqueIds, ShardCalls, Reconcile;
    SplitRunResult(w, n, calls, t, now, key);
    GlobalRunOpensViolations(w, t, now, key);
    if !Covered(w, key.asset) {
      if OpenAt(t, key) {
        var i :| 0 <= i < |t| && t[i].status.Open? && t[i].key == key;
        assert t[i] in t;
        ExistingIsCovered(w, t, key.asset);
      }
      if Violates(w, key) {
        ViolatingExists(w, key);
        ExistingIsCovered(w, t, key.asset);
      }
    }
  }

  // Without that premise they differ on exactly the pairs of assets no host
  // accounts for whose state would have to change.
  lemma SplitDiffersIff(w: World, n: nat, calls: seq<int>, t: Table, now: int, key: Key)
    requires UniqueIds(w) && n >= 1 && forall i :: 0 <= i < n ==> i in calls
    ensures (OpenAt(ShardCalls(w, n, calls, t, now), key) <==> OpenAt(Reconcile(w, None, t, now), key))
       <==> Covered(w, key.asset) || (Violates(w, key) <==> OpenAt(t, key))
  {
    hide UniqueIds, ShardCalls, Reconcile, Covered, Violates, OpenAt;
    SplitRunResult(w, n, calls, t, now, key);
    GlobalRunOpensViolations(w, t, now, key);
  }

  // A container without a host (the column is nullable) is such an asset: a
  // pair it violates and that is not open yet is opened globally, and by no shard.
  lemma HostlessContainerIsMissed(w: World, c: Container, p: Policy, t: Table, n: nat, calls: seq<int>, now: int)
    requires UniqueIds(w) && c in w.containers && c.hostId.None?
    requires p in w.policies && p.enabled && p.target.TargetContainer? && Satisfies(w, p, ContainerCandidate(w, c))
    requires !OpenAt(t, Key(p.id, Asset(ContainerAsset, c.id)))
    requires n >= 1 && forall i :: 0 <= i < n ==> i in calls
    ensures var key := Key(p.id, Asset(ContainerAsset, c.id));
      OpenAt(Reconcile(w, None, t, now), key) && !OpenAt(ShardCalls(w, n, calls, t, now), key)
  {
    var key := Key(p.id, Asset(ContainerAsset, c.id));
    var i :| 0 <= i < |w.containers| && w.containers[i] == c;
    var candidate := ContainerCandidate(w, c);
    assert Candidates(w, TargetContainer)[i] == candidate;
    assert candidate in Candidates(w, p.target);
    hide Candidates, Satisfies, UniqueIds, OpenAt, ShardCalls, Reconcile, EnrichContainer, Owner;
    assert Violates(w, key);
    CandidateOwner(w, TargetContainer, candidate);
    assert !Covered(w, key.asset);
    SplitRunResult(w, n, calls, t, now, key);
    GlobalRunOpensViolations(w, t, now, key);
  }

  // ---- Shards keep out of each other's way ----

  lemma {:induction false} SegmentScopeOrigin(w: World, shardIndex: Option<int>, shardCount: Option<int>,
                                              segments: seq<Segment>, scope: set<Id>)
    requires scope in SegmentScopes(w, shardIndex, shardCount, segments)
    ensures exists s :: s in segments && scope == HostIdsOf(w.hosts, s.id) && IsMine(shardIndex, shardCount, s.id)
  {
    hide IsMine, HostIdsOf;
    var front, segment := segments[..|segments| - 1], segments[|segments| - 1];
    assert segments == front + [segment];
    if scope in SegmentScopes(w, shardIndex, shardCount, front) {
      SegmentScopeOrigin(w, shardIndex, shardCount, front, scope);
    }
  }

  // Scopes of different shards share no host, so (by `DisjointRunsCommute`)
  // shards may run in either order and never touch each other's rows.
  lemma ShardsAreDisjoint(w: World, n: nat, i: int, j: int, a: set<Id>, b: set<Id>)
    requires UniqueIds(w) && n > 1 && i != j
    requires a in ScopesOf(w, Some(i), Some(n)) && b in ScopesOf(w, Some(j), Some(n))
    ensures a !! b
  {
    forall id | id in a && id in b ensures false {
      var h := HostOfScope(w, n, i, a, id);
      var h' := HostOfScope(w, n, j, b, id);
    }
  }

  lemma HostOfScope(w: World, n: nat, i: int, scope: set<Id>, id: Id) returns (h: Host)
    requires UniqueIds(w) && n > 1 && scope in ScopesOf(w, Some(i), Some(n)) && id in scope
    ensures h in w.hosts && h.id == id && ShardFor(ShardKey(h), n) == i
  {
    if scope in SegmentScopes(w, Some(i), Some(n), w.segments) {
      SegmentScopeOrigin(w, Some(i), Some(n), w.segments, scope);
      var s :| s in w.segments && scope == HostIdsOf(w.hosts, s.id) && IsMine(Some(i), Some(n), s.id);
      h :| h in w.hosts && h.segmentId == Some(s.id) && h.id == id;
    } else {
      UnassignedMeans(w);
      h :| h in w.hosts && h.id == id && h.segmentId.None?;
    }
  }

  // ---- The reported counts ----

  // The SQL join and `ownerHostId` attribute an asset to the same hosts.
  lemma CountingAgreesWithScope(w: World, hostIds: set<Id>, asset: Asset)
    requires UniqueIds(w)
    ensures CountedFor(w, hostIds, asset) <==> InScope(w, Some(hostIds), asset)
  {
    UniqueContainer(w);
    if asset.kind.ServiceAsset? {
      UniqueService(w);
    }
  }

  lemma UniqueContainer(w: World)
    requires UniqueIds(w)
    ensures forall c :: c in w.containers ==> ContainerById(w.containers, c.id) == Some(c)
  {
  }

  lemma UniqueService(w: World)
    requires UniqueIds(w)
    ensures forall s :: s in w.services ==> ServiceById(w.services, s.id) == Some(s)
  {
  }

  lemma {:induction false} CountOpenConcat(w: World, hostIds: set<Id>, a: Table, b: Table)
    ensures CountOpen(w, hostIds, a + b) == CountOpen(w, hostIds, a) + CountOpen(w, hostIds, b)
  {
    hide CountedFor;
    if b == [] {
      assert a + b == a;
    } else {
      assert (a + b)[..|a + b| - 1] == a + b[..|b| - 1];
      CountOpenConcat(w, hostIds, a, b[..|b| - 1]);
    }
  }

  lemma {:induction false} CountOpenSame(w: World, hostIds: set<Id>, a: Table, b: Table)
    requires |a| == |b|
    requires forall i :: 0 <= i < |a| ==>
      a[i] == b[i] || (a[i].key == b[i].key && !CountedFor(w, hostIds, a[i].key.asset))
    ensures CountOpen(w, hostIds, a) == CountOpen(w, hostIds, b)
  {
    hide CountedFor;
    if a != [] {
      CountOpenSame(w, hostIds, a[..|a| - 1], b[..|b| - 1]);
    }
  }

  lemma {:induction false} CountOpenNone(w: World, hostIds: set<Id>, t: Table)
    requires forall i :: 0 <= i < |t| ==> !CountedFor(w, hostIds, t[i].key.asset)
    ensures CountOpen(w, hostIds, t) == 0
  {
    hide CountedFor;
    if t != [] {
      CountOpenNone(w, hostIds, t[..|t| - 1]);
    }
  }

  // A segment's count, taken right after its own run, stays true: runs over
  // other hosts do not change it.
  lemma CountSurvivesOtherRuns(w: World, hostIds: set<Id>, other: set<Id>, t: Table, now: int)
    requires UniqueIds(w) && hostIds !! other
    ensures CountOpen(w, hostIds, Reconcile(w, Some(other), t, now)) == CountOpen(w, hostIds, t)
  {
    hide UniqueIds, CountedFor, InScope, Violates;
    var t' := Reconcile(w, Some(other), t, now);
    RunTouchesOnlyItsScope(w, Some(other), t, now);
    forall i | 0 <= i < |t'| && InScope(w, Some(other), t'[i].key.asset)
      ensures !CountedFor(w, hostIds, t'[i].key.asset)
    {
      CountingAgreesWithScope(w, hostIds, t'[i].key.asset);
      NotInBoth(w, hostIds, other, t'[i].key.asset);
    }
    CountOpenSame(w, hostIds, t, t'[..|t|]);
    CountOpenNone(w, hostIds, t'[|t|..]);
    CountOpenConcat(w, hostIds, t'[..|t|], t'[|t|..]);
    assert t'[..|t|] + t'[|t|..] == t';
  }

  lemma SegmentsShareNoHost(w: World, a: Id, b: Id)
    requires UniqueIds(w) && a != b
    ensures HostIdsOf(w.hosts, a) !! HostIdsOf(w.hosts, b)
  {
  }

  lemma UnassignedAreInNoSegment(w: World, a: Id)
    requires UniqueIds(w)
    ensures HostIdsOf(w.hosts, a) !! UnassignedHosts(w.hosts)
  {
  }

  lemma CountOpenOfNobody(w: World, t: Table)
    ensures CountOpen(w, {}, t) == 0
  {
    CountOpenNone(w, {}, t);
  }

  ghost predicate UniqueSegments(w: World) {
    forall i, j :: 0 <= i < j < |w.segments| ==> w.segments[i].id != w.segments[j].id
  }

  ghost predicate TrueOf(w: World, reports: seq<SegmentReport>, t: Table) {
    forall r :: r in reports ==> r.violations == CountOpen(w, HostIdsOf(w.hosts, r.segment), t)
  }

  lemma {:induction false} SegmentReportsTrue(w: World, shardIndex: Option<int>, shardCount: Option<int>, n: nat,
                                              t: Table, now: int)
    requires UniqueIds(w) && UniqueSegments(w) && n <= |w.segments|
    ensures TrueOf(w, SegmentReports(w, shardIndex, shardCount, w.segments[..n], t, now),
                   RunScopes(w, SegmentScopes(w, shardIndex, shardCount, w.segments[..n]), t, now))
    ensures forall r :: r in SegmentReports(w, shardIndex, shardCount, w.segments[..n], t, now) ==>
      exists i :: 0 <= i < n && w.segments[i].id == r.segment
  {
    hide UniqueIds, Reconcile, CountOpen, IsMine, HostIdsOf, RunScopes, SegmentScopes;
    if n > 0 {
      SegmentReportsTrue(w, shardIndex, shardCount, n - 1, t, now);
      NextSegment(w, shardIndex, shardCount, n - 1, n, t, now);
      var segment := w.segments[n - 1];
      var ids := HostIdsOf(w.hosts, segment.id);
      var before := RunScopes(w, SegmentScopes(w, shardIndex, shardCount, w.segments[..n - 1]), t, now);
      var after := RunScopes(w, SegmentScopes(w, shardIndex, shardCount, w.segments[..n]), t, now);
      CountOpenOfNobody(w, after);
      forall r | r in SegmentReports(w, shardIndex, shardCount, w.segments[..n - 1], t, now)
        ensures r.violations == CountOpen(w, HostIdsOf(w.hosts, r.segment), after)
      {
        SegmentsShareNoHost(w, r.segment, segment.id);
        CountSurvivesOtherRuns(w, HostIdsOf(w.hosts, r.segment), ids, before, now);
      }
    }
  }

  // The counts, taken right after each segment's run, still hold at the end.
  lemma ReportsAreTrue(w: World, shardIndex: Option<int>, shardCount: Option<int>, t: Table, now: int)
    requires UniqueIds(w) && UniqueSegments(w)
    ensures TrueOf(w, SegmentReports(w, shardIndex, shardCount, w.segments, t, now),
                   RunScopes(w, ScopesOf(w, shardIndex, shardCount), t, now))
  {
    hide UniqueIds, Reconcile, CountOpen, IsMine, HostIdsOf, UnassignedHosts;
    var segmentScopes := SegmentScopes(w, shardIndex, shardCount, w.segments);
    var free := UnassignedHosts(w.hosts);
    assert w.segments[..|w.segments|] == w.segments;
    SegmentReportsTrue(w, shardIndex, shardCount, |w.segments|, t, now);
    RunOneMore(w, segmentScopes, free, t, now);
    assert segmentScopes + [] == segmentScopes;
    var before := RunScopes(w, segmentScopes, t, now);
    forall r | r in SegmentReports(w, shardIndex, shardCount, w.segments, t, now)
      ensures CountOpen(w, HostIdsOf(w.hosts, r.segment), Reconcile(w, Some(free), before, now))
           == CountOpen(w, HostIdsOf(w.hosts, r.segment), before)
    {
      UnassignedAreInNoSegment(w, r.segment);
      CountSurvivesOtherRuns(w, HostIdsOf(w.hosts, r.segment), free, RunScopes(w, segmentScopes, t, now), now);
    }
  }

  // ---- What the reports say, in terms of the tables alone ----

  ghost function OpenPositions(w: World, hostIds: set<Id>, t: Table): set<int> {
    set i | 0 <= i < |t| && t[i].status.Open? && InScope(w, Some(hostIds), t[i].key.asset)
  }

  // The count is the number of open rows whose asset belongs to the hosts.
  lemma {:induction false} CountOpenIsSize(w: World, hostIds: set<Id>, t: Table)
    requires UniqueIds(w)
    ensures CountOpen(w, hostIds, t) == |OpenPositions(w, hostIds, t)|
  {
    hide UniqueIds, CountedFor, InScope;
    if t != [] {
      var n := |t| - 1;
      CountOpenIsSize(w, hostIds, t[..n]);
      CountingAgreesWithScope(w, hostIds, t[n].key.asset);
      var before := OpenPositions(w, hostIds, t[..n]);
      assert n !in before;
      assert OpenPositions(w, hostIds, t)
          == before + if t[n].status.Open? && InScope(w, Some(hostIds), t[n].key.asset) then {n} else {};
    }
  }

  ghost function HostsAt(hosts: seq<Host>, segment: Option<Id>): set<int> {
    set i | 0 <= i < |hosts| && hosts[i].segmentId == segment
  }

  ghost function IdsAt(hosts: seq<Host>, positions: set<int>): set<Id>
    requires forall i :: i in positions ==> 0 <= i < |hosts|
  {
    set i | i in positions :: hosts[i].id
  }

  lemma {:induction false} DistinctIdsCount(hosts: seq<Host>, positions: set<int>, n: nat)
    requires forall i, j :: 0 <= i < j < |hosts| ==> hosts[i].id != hosts[j].id
    requires n <= |hosts| && forall i :: i in positions ==> 0 <= i < n
    ensures |IdsAt(hosts, positions)| == |positions|
  {
    if n == 0 {
      forall i ensures i !in positions {
      }
      assert |positions| == 0 && IdsAt(hosts, positions) == {};
    } else {
      var rest := positions - {n - 1};
      DistinctIdsCount(hosts, rest, n - 1);
      if n - 1 in positions {
        assert IdsAt(hosts, positions) == IdsAt(hosts, rest) + {hosts[n - 1].id};
      } else {
        assert rest == positions;
      }
    }
  }

  lemma HostsCount(w: World, segment: Id)
    requires UniqueIds(w)
    ensures |HostIdsOf(w.hosts, segment)| == |HostsAt(w.hosts, Some(segment))|
    ensures |UnassignedHosts(w.hosts)| == |HostsAt(w.hosts, None)|
  {
    UnassignedMeans(w);
    DistinctIdsCount(w.hosts, HostsAt(w.hosts, Some(segment)), |w.hosts|);
    assert HostIdsOf(w.hosts, segment) == IdsAt(w.hosts, HostsAt(w.hosts, Some(segment)));
    DistinctIdsCount(w.hosts, HostsAt(w.hosts, None), |w.hosts|);
    assert UnassignedHosts(w.hosts) == IdsAt(w.hosts, HostsAt(w.hosts, None));
  }

  // The open rows whose asset belongs to a host of the segment.
  ghost function OpenInSegment(w: World, segment: Id, t: Table): set<int> {
    set i | 0 <= i < |t| && t[i].status.Open?
            && exists h :: h in w.hosts && h.segmentId == Some(segment) && Owner(w, t[i].key.asset) == Some(h.id)
  }

  // A report about a segment of the inventory: its name, how many hosts it
  // has and how many open rows are theirs.
  ghost predicate Tells(w: World, r: SegmentReport, segment: Segment, t: Table) {
    && r.segment == segment.id && r.name == segment.name
    && r.hostCount == |HostsAt(w.hosts, Some(segment.id))|
    && r.violations == |OpenInSegment(w, segment.id, t)|
  }

  ghost predicate Names(w: World, r: SegmentReport, s: Segment) {
    r.segment == s.id && r.name == s.name && r.hostCount == |HostIdsOf(w.hosts, s.id)|
  }

  ghost predicate NamedIn(w: World, r: SegmentReport, shardIndex: Option<int>, shardCount: Option<int>,
                          segments: seq<Segment>)
  {
    exists s :: s in segments && IsMine(shardIndex, shardCount, s.id) && Names(w, r, s)
  }

  ghost predicate HasReport(w: World, s: Segment, reports: seq<SegmentReport>) {
    exists r :: r in reports && Names(w, r, s)
  }

  lemma {:induction false} ReportsNameSegments(w: World, shardIndex: Option<int>, shardCount: Option<int>,
                                               segments: seq<Segment>, t: Table, now: int)
    ensures forall r :: r in SegmentReports(w, shardIndex, shardCount, segments, t, now) ==>
      NamedIn(w, r, shardIndex, shardCount, segments)
    ensures forall s :: s in segments && IsMine(shardIndex, shardCount, s.id) ==>
      HasReport(w, s, SegmentReports(w, shardIndex, shardCount, segments, t, now))
  {
    hide IsMine, HostIdsOf, CountOpen, RunScopes, SegmentScopes, NamedIn, HasReport;
    if segments != [] {
      var front, last := segments[..|segments| - 1], segments[|segments| - 1];
      ReportsNameSegments(w, shardIndex, shardCount, front, t, now);
      var before := SegmentReports(w, shardIndex, shardCount, front, t, now);
      var all := SegmentReports(w, shardIndex, shardCount, segments, t, now);
      var added := all[|before|..];
      assert segments == front + [last] && all == before + added;
      forall r | r in all ensures NamedIn(w, r, shardIndex, shardCount, segments) {
        if r in before {
          NamedInMore(w, r, shardIndex, shardCount, front, segments);
        } else {
          OwnName(w, r, shardIndex, shardCount, last, segments);
        }
      }
      forall s | s in segments && IsMine(shardIndex, shardCount, s.id) ensures HasReport(w, s, all) {
        if s in front {
          HasReportMore(w, s, before, all);
        } else {
          OwnReport(w, s, added[0], all);
        }
      }
    }
  }

  lemma NamedInMore(w: World, r: SegmentReport, shardIndex: Option<int>, shardCount: Option<int>, front: seq<Segment>,
                    segments: seq<Segment>)
    requires NamedIn(w, r, shardIndex, shardCount, front) && forall s :: s in front ==> s in segments
    ensures NamedIn(w, r, shardIndex, shardCount, segments)
  {
  }

  lemma OwnName(w: World, r: SegmentReport, shardIndex: Option<int>, shardCount: Option<int>, s: Segment,
                segments: seq<Segment>)
    requires s in segments && IsMine(shardIndex, shardCount, s.id) && Names(w, r, s)
    ensures NamedIn(w, r, shardIndex, shardCount, segments)
  {
  }

  lemma HasReportMore(w: World, s: Segment, before: seq<SegmentReport>, all: seq<SegmentReport>)
    requires HasReport(w, s, before) && forall r :: r in before ==> r in all
    ensures HasReport(w, s, all)
  {
  }

  lemma OwnReport(w: World, s: Segment, r: SegmentReport, all: seq<SegmentReport>)
    requires r in all && Names(w, r, s)
    ensures HasReport(w, s, all)
  {
  }

  lemma OpenOfSegment(w: World, segment: Id, t: Table)
    ensures OpenPositions(w, HostIdsOf(w.hosts, segment), t) == OpenInSegment(w, segment, t)
  {
    hide Owner;
  }

  // What a call reports per segment is what the table it leaves contains: one
  // report for each segment of its shard and none for others.
  lemma ReportDescribesFinalTable(w: World, shardIndex: Option<int>, shardCount: Option<int>, t: Table, now: int)
    requires UniqueIds(w) && UniqueSegments(w)
    ensures var reports := SegmentReports(w, shardIndex, shardCount, w.segments, t, now);
      var after := RunScopes(w, ScopesOf(w, shardIndex, shardCount), t, now);
      && TrueOf(w, reports, after)
      && (forall r :: r in reports ==>
            exists s :: s in w.segments && IsMine(shardIndex, shardCount, s.id) && Tells(w, r, s, after))
      && (forall s :: s in w.segments && IsMine(shardIndex, shardCount, s.id) ==>
            exists r :: r in reports && Tells(w, r, s, after))
  {
    hide UniqueIds, UniqueSegments, RunScopes, SegmentReports, ScopesOf, IsMine, HostIdsOf, CountOpen, OpenPositions,
      OpenInSegment, HostsAt;
    var reports := SegmentReports(w, shardIndex, shardCount, w.segments, t, now);
    var after := RunScopes(w, ScopesOf(w, shardIndex, shardCount), t, now);
    ReportsAreTrue(w, shardIndex, shardCount, t, now);
    ReportsNameSegments(w, shardIndex, shardCount, w.segments, t, now);
    forall r, s | r in reports && s in w.segments && Names(w, r, s) ensures Tells(w, r, s, after) {
      HostsCount(w, s.id);
      CountOpenIsSize(w, HostIdsOf(w.hosts, s.id), after);
      OpenOfSegment(w, s.id, after);
    }
  }

  // ---- The published plan ----

  datatype Assignment = Assignment(segment: Id, name: JsString, shard: nat)

  function PlanEvaluationShards(w: World, shardCount: nat): (seq<Assignment>, nat)
    requires shardCount > 0
  {
    (seq(|w.segments|, k requires 0 <= k < |w.segments| =>
       Assignment(w.segments[k].id, w.segments[k].name, ShardFor(w.segments[k].id, shardCount))),
     ShardFor(UNASSIGNED_SHARD_KEY, shardCount))
  }

  // The plan names the one call that will evaluate a segment - except that
  // with a single shard every call evaluates everything, whatever its index.
  lemma PlanNamesTheCall(w: World, shardCount: nat, i: int, k: nat)
    requires shardCount > 0 && k < |w.segments|
    ensures var (plan, unassigned) := PlanEvaluationShards(w, shardCount);
      && |plan| == |w.segments| && plan[k].segment == w.segments[k].id && plan[k].name == w.segments[k].name
      && ((IsMine(Some(i), Some(shardCount), w.segments[k].id) <==> plan[k].shard == i) <==> shardCount > 1 || i == 0)
      && ((IsMine(Some(i), Some(shardCount), UNASSIGNED_SHARD_KEY) <==> unassigned == i) <==> shardCount > 1 || i == 0)
  {
    hide Djb2;
  }
}
