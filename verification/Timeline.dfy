// The SIEM-lite timeline: six detection tables merged newest first, then one
// pass that gives each event the cluster id of the asset's previous (newer)
// event when the two are at most ten minutes apart.
module Timeline {
  import opened JsText
  import opened NewestFirst
  import opened Assets

  datatype Source = Risk | Violation | Secret | Ti | Ueba | Edr

  datatype RawEvent = RawEvent(id: JsString, source: Source, asset: Asset, severity: Severity, summary: string,
                               occurredMs: int)

  // `asset_type:asset_id:event_id` - the asset and the newest event of the cluster.
  datatype ClusterId = ClusterId(asset: Asset, newest: JsString)

  datatype TimelineEvent = TimelineEvent(raw: RawEvent, cluster: ClusterId)

  const CLUSTER_WINDOW_MINUTES := 10
  const WINDOW_MS := CLUSTER_WINDOW_MINUTES * 60_000

  const TIME := (e: RawEvent) => e.occurredMs

  // ---- The clustering pass ----

  // The most recent earlier position on the same asset, if any: what the
  // pass finds in its map when it comes to position i.
  function Previous(raw: seq<RawEvent>, asset: Asset, i: nat): (p: int)
    requires i <= |raw|
    ensures -1 <= p < i
    ensures p >= 0 ==> raw[p].asset == asset
    ensures forall k :: p < k < i ==> raw[k].asset != asset
  {
    if i == 0 then -1
    else if raw[i - 1].asset == asset then i - 1
    else Previous(raw, asset, i - 1)
  }

  // Position of the event that opened i's cluster.
  function Head(raw: seq<RawEvent>, i: nat): (h: nat)
    requires i < |raw|
    ensures h <= i && raw[h].asset == raw[i].asset
  {
    var p := Previous(raw, raw[i].asset, i);
    if p >= 0 && raw[p].occurredMs - raw[i].occurredMs <= WINDOW_MS then Head(raw, p) else i
  }

  function ClusterOf(raw: seq<RawEvent>, i: nat): ClusterId
    requires i < |raw|
  {
    ClusterId(raw[i].asset, raw[Head(raw, i)].id)
  }

  function Clustered(raw: seq<RawEvent>): seq<TimelineEvent> {
    seq(|raw|, i requires 0 <= i < |raw| => TimelineEvent(raw[i], ClusterOf(raw, i)))
  }

  datatype LastSeen = LastSeen(cluster: ClusterId, lastSeenMs: int)

  // The map holds, per asset, the cluster and time of its last seen event.
  ghost predicate Remembers(raw: seq<RawEvent>, i: nat, seen: map<Asset, LastSeen>, asset: Asset)
    requires i <= |raw|
  {
    var p := Previous(raw, asset, i);
    if p >= 0 then asset in seen && seen[asset] == LastSeen(ClusterOf(raw, p), raw[p].occurredMs)
    else asset !in seen
  }

  ghost predicate RemembersAll(raw: seq<RawEvent>, i: nat, seen: map<Asset, LastSeen>)
    requires i <= |raw|
  {
    forall a :: Remembers(raw, i, seen, a)
  }

  lemma RememberNext(raw: seq<RawEvent>, i: nat, seen: map<Asset, LastSeen>, next: nat, seen': map<Asset, LastSeen>)
    requires next == i + 1 <= |raw| && RemembersAll(raw, i, seen)
    requires seen' == seen[raw[i].asset := LastSeen(ClusterOf(raw, i), raw[i].occurredMs)]
    ensures RemembersAll(raw, next, seen')
  {
    forall a ensures Remembers(raw, next, seen', a) {
      assert Remembers(raw, i, seen, a);
    }
  }

  lemma SeenDecides(raw: seq<RawEvent>, i: nat, seen: map<Asset, LastSeen>)
    requires i < |raw| && RemembersAll(raw, i, seen)
    ensures var e := raw[i];
      ClusterOf(raw, i)
        == if e.asset in seen && seen[e.asset].lastSeenMs - e.occurredMs <= WINDOW_MS
           then seen[e.asset].cluster
           else ClusterId(e.asset, e.id)
  {
    assert Remembers(raw, i, seen, raw[i].asset);
  }

  method ClusterPass(raw: seq<RawEvent>) returns (events: seq<TimelineEvent>)
    ensures events == Clustered(raw)
  {
    var clusterKeyByAsset: map<Asset, LastSeen> := map[];
    events := [];
    for i := 0 to |raw|
      invariant events == Clustered(raw)[..i]
      invariant RemembersAll(raw, i, clusterKeyByAsset)
    {
      var e := raw[i];
      ghost var seen := clusterKeyByAsset;
      SeenDecides(raw, i, seen);
      var clusterId;
      if e.asset in clusterKeyByAsset && clusterKeyByAsset[e.asset].lastSeenMs - e.occurredMs <= WINDOW_MS {
        clusterId := clusterKeyByAsset[e.asset].cluster;
      } else {
        clusterId := ClusterId(e.asset, e.id);
      }
      clusterKeyByAsset := clusterKeyByAsset[e.asset := LastSeen(clusterId, e.occurredMs)];
      RememberNext(raw, i, seen, i + 1, clusterKeyByAsset);
      events := events + [TimelineEvent(e, clusterId)];
    }
  }

  // ---- Single linkage ----

  ghost predicate Close(raw: seq<RawEvent>, i: nat, j: nat)
    requires i < |raw| && j < |raw|
  {
    && raw[i].asset == raw[j].asset
    && -600_000 <= raw[i].occurredMs - raw[j].occurredMs <= 600_000
  }

  // A chain of positions, each event close to the next one.
  ghost predicate IsChain(raw: seq<RawEvent>, chain: seq<nat>) {
    && chain != []
    && (forall k :: 0 <= k < |chain| ==> chain[k] < |raw|)
    && forall k :: 0 <= k < |chain| - 1 ==> Close(raw, chain[k], chain[k + 1])
  }

  ghost predicate Linked(raw: seq<RawEvent>, i: nat, j: nat) {
    exists chain: seq<nat> :: IsChain(raw, chain) && chain[0] == i && chain[|chain| - 1] == j
  }

  lemma {:induction false} ChainToHead(raw: seq<RawEvent>, i: nat) returns (chain: seq<nat>)
    requires Sorted(raw, TIME) && i < |raw|
    ensures IsChain(raw, chain) && chain[0] == i && chain[|chain| - 1] == Head(raw, i)
    decreases i
  {
    chain := [i];
    if Head(raw, i) != i {
      var p := Previous(raw, raw[i].asset, i);
      assert TIME(raw[p]) >= TIME(raw[i]);
      var rest := ChainToHead(raw, p);
      chain := [i] + rest;
    }
  }

  lemma {:induction false} ChainFromHead(raw: seq<RawEvent>, i: nat) returns (chain: seq<nat>)
    requires Sorted(raw, TIME) && i < |raw|
    ensures IsChain(raw, chain) && chain[0] == Head(raw, i) && chain[|chain| - 1] == i
    decreases i
  {
    chain := [i];
    if Head(raw, i) != i {
      var p := Previous(raw, raw[i].asset, i);
      assert TIME(raw[p]) >= TIME(raw[i]);
      var rest := ChainFromHead(raw, p);
      chain := rest + [i];
    }
  }

  // Close events share a head: everything on the asset between them in time
  // is at least as close to the older one.
  lemma {:induction false} CloseShareHead(raw: seq<RawEvent>, i: nat, j: nat)
    requires Sorted(raw, TIME) && i <= j < |raw| && Close(raw, i, j)
    ensures Head(raw, i) == Head(raw, j)
    decreases j
  {
    if i < j {
      var p := Previous(raw, raw[j].asset, j);
      assert p >= i;
      assert TIME(raw[i]) >= TIME(raw[p]) >= TIME(raw[j]);
      CloseShareHead(raw, i, p);
    }
  }

  lemma {:induction false} ChainSharesHead(raw: seq<RawEvent>, chain: seq<nat>)
    requires Sorted(raw, TIME) && IsChain(raw, chain)
    ensures Head(raw, chain[0]) == Head(raw, chain[|chain| - 1])
  {
    var n := |chain| - 1;
    if n > 0 {
      var i, j := chain[n - 1], chain[n];
      assert Close(raw, chain[n - 1], chain[n - 1 + 1]);
      CloseShareHead(raw, if i <= j then i else j, if i <= j then j else i);
      ChainSharesHead(raw, chain[..n]);
    }
  }

  ghost predicate DistinctIds(raw: seq<RawEvent>) {
    forall i, j :: 0 <= i < j < |raw| ==> raw[i].id != raw[j].id
  }

  // Two events carry the same cluster id exactly when a chain of events of
  // their common asset links them, successive gaps at most ten minutes.
  lemma ClustersAreComponents(raw: seq<RawEvent>, i: nat, j: nat)
    requires Sorted(raw, TIME) && DistinctIds(raw) && i < |raw| && j < |raw|
    ensures Clustered(raw)[i].cluster == Clustered(raw)[j].cluster <==> Linked(raw, i, j)
  {
    if Linked(raw, i, j) {
      var chain: seq<nat> :| IsChain(raw, chain) && chain[0] == i && chain[|chain| - 1] == j;
      ChainSharesHead(raw, chain);
    }
    if ClusterOf(raw, i) == ClusterOf(raw, j) {
      var up := ChainToHead(raw, i);
      var down := ChainFromHead(raw, j);
      JoinChains(raw, up, down);
    }
  }

  lemma JoinChains(raw: seq<RawEvent>, up: seq<nat>, down: seq<nat>)
    requires IsChain(raw, up) && IsChain(raw, down) && up[|up| - 1] == down[0]
    ensures Linked(raw, up[0], down[|down| - 1])
  {
    var chain := up + down[1..];
    forall k | 0 <= k < |chain| - 1 ensures Close(raw, chain[k], chain[k + 1]) {
      if k >= |up| - 1 {
        assert chain[k] == down[k - (|up| - 1)] && chain[k + 1] == down[k - (|up| - 1) + 1];
      }
    }
    assert IsChain(raw, chain);
  }

  // ---- Limits ----

  function Concat<T>(parts: seq<seq<T>>): seq<T> {
    if parts == [] then [] else parts[0] + Concat(parts[1..])
  }

  // `... ORDER BY <time> DESC LIMIT n` over rows given in that order.
  function Limited<T>(sources: seq<seq<T>>, n: nat): seq<seq<T>> {
    if sources == [] then [] else [Take(sources[0], n)] + Limited(sources[1..], n)
  }

  function TimelineOf(sources: seq<seq<RawEvent>>, limit: nat): seq<TimelineEvent> {
    Take(Clustered(Sort(Concat(sources), TIME)), limit)
  }

  method CorrelatedTimeline(sources: seq<seq<RawEvent>>, limit: nat) returns (events: seq<TimelineEvent>)
    ensures events == TimelineOf(Limited(sources, limit), limit)
  {
    var raw := Sort(Concat(Limited(sources, limit)), TIME);
    events := ClusterPass(raw);
    events := Take(events, limit);
  }

  lemma {:induction false} HeadOfPrefix(raw: seq<RawEvent>, n: nat, i: nat)
    requires i < n <= |raw|
    ensures Head(raw[..n], i) == Head(raw, i)
    decreases i
  {
    PreviousOfPrefix(raw, raw[i].asset, n, i);
    var p := Previous(raw, raw[i].asset, i);
    if p >= 0 {
      HeadOfPrefix(raw, n, p);
    }
  }

  lemma {:induction false} PreviousOfPrefix(raw: seq<RawEvent>, asset: Asset, n: nat, i: nat)
    requires i <= n <= |raw|
    ensures Previous(raw[..n], asset, i) == Previous(raw, asset, i)
  {
    if i > 0 {
      PreviousOfPrefix(raw, asset, n, i - 1);
    }
  }

  // Cluster ids look only backwards, so cutting the list keeps them.
  lemma ClusteredOfPrefix(raw: seq<RawEvent>, n: nat)
    ensures Take(Clustered(raw), n) == Clustered(Take(raw, n))
  {
    if n < |raw| {
      forall i | 0 <= i < n ensures Clustered(raw)[i] == Clustered(raw[..n])[i] {
        HeadOfPrefix(raw, n, i);
      }
    }
  }

  lemma {:induction false} TakeOfSortedConcat(sources: seq<seq<RawEvent>>, n: nat)
    requires forall k :: 0 <= k < |sources| ==> Sorted(sources[k], TIME)
    ensures Take(Sort(Concat(Limited(sources, n)), TIME), n) == Take(Sort(Concat(sources), TIME), n)
  {
    if sources != [] {
      var first, rest := sources[0], sources[1..];
      TakeOfSortedConcat(rest, n);
      var few := Take(first, n);
      assert Limited(sources, n)[1..] == Limited(rest, n);
      SortOfConcat(first, Concat(rest), TIME);
      SortOfConcat(few, Concat(Limited(rest, n)), TIME);
      SortOfSorted(first, TIME);
      SortOfSorted(few, TIME);
      assert Take(few, n) == Take(first, n);
      TakeOfMerge(few, Sort(Concat(Limited(rest, n)), TIME), first, Sort(Concat(rest), TIME), n, TIME);
    }
  }

  // Fetching only the newest `limit` rows of each source loses nothing: the
  // returned list, cluster ids included, is the head of the timeline built
  // from all rows. Ties in time are allowed; any number of sources will do.
  lemma PerSourceLimitIsExact(sources: seq<seq<RawEvent>>, limit: nat)
    requires forall k :: 0 <= k < |sources| ==> Sorted(sources[k], TIME)
    ensures TimelineOf(Limited(sources, limit), limit) == TimelineOf(sources, limit)
  {
    TakeOfSortedConcat(sources, limit);
    ClusteredOfPrefix(Sort(Concat(sources), TIME), limit);
    ClusteredOfPrefix(Sort(Concat(Limited(sources, limit)), TIME), limit);
  }

  // With distinct timestamps the timeline does not depend on how the rows
  // were stored either: every listing of the same events gives the same one.
  lemma TimelineIgnoresStorageOrder(sources: seq<seq<RawEvent>>, others: seq<seq<RawEvent>>, limit: nat)
    requires multiset(Concat(sources)) == multiset(Concat(others))
    requires DistinctTimes(Sort(Concat(sources), TIME), TIME)
    ensures TimelineOf(sources, limit) == TimelineOf(others, limit)
  {
    SortSorts(Concat(sources), TIME);
    SortSorts(Concat(others), TIME);
    DistinctTimesForceOrder(Sort(Concat(sources), TIME), Sort(Concat(others), TIME), TIME);
  }

  // ---- What the timeline contains ----

  // All rows of all sources, however often each occurs.
  ghost function AllRows(sources: seq<seq<RawEvent>>): multiset<RawEvent> {
    if sources == [] then multiset{}
    else AllRows(sources[..|sources| - 1]) + multiset(sources[|sources| - 1])
  }

  lemma {:induction false} ConcatSnoc<T>(parts: seq<seq<T>>, last: seq<T>)
    ensures Concat(parts + [last]) == Concat(parts) + last
  {
    if parts == [] {
      assert [last][1..] == [];
      assert Concat([last]) == last + [];
      assert [] + [last] == [last];
    } else {
      assert (parts + [last])[1..] == parts[1..] + [last];
      ConcatSnoc(parts[1..], last);
      assert parts[0] + (Concat(parts[1..]) + last) == (parts[0] + Concat(parts[1..])) + last;
    }
  }

  lemma {:induction false} ConcatHasAllRows(sources: seq<seq<RawEvent>>)
    ensures multiset(Concat(sources)) == AllRows(sources)
    ensures |Concat(sources)| == |AllRows(sources)|
  {
    if sources != [] {
      var front, last := sources[..|sources| - 1], sources[|sources| - 1];
      ConcatHasAllRows(front);
      ConcatSnoc(front, last);
      assert sources == front + [last];
    }
    assert |multiset(Concat(sources))| == |Concat(sources)|;
  }

  function RawOf(events: seq<TimelineEvent>): seq<RawEvent> {
    seq(|events|, i requires 0 <= i < |events| => events[i].raw)
  }

  // The list holds rows of the sources, none more often than they do, as many
  // as the limit allows, newest first, and leaves out none that is newer.
  ghost predicate IsNewestOf(events: seq<TimelineEvent>, sources: seq<seq<RawEvent>>, limit: nat) {
    var shown, all := RawOf(events), AllRows(sources);
    && multiset(shown) <= all
    && |events| == (if |all| < limit then |all| else limit)
    && (forall i, j :: 0 <= i < j < |shown| ==> shown[i].occurredMs >= shown[j].occurredMs)
    && (forall e, i :: 0 <= i < |shown| && e in all - multiset(shown) ==> e.occurredMs <= shown[i].occurredMs)
  }

  lemma PrefixOfSorted(raw: seq<RawEvent>, n: nat)
    requires Sorted(raw, TIME)
    ensures var head := Take(raw, n);
      && multiset(head) <= multiset(raw)
      && (forall e, i :: 0 <= i < |head| && e in multiset(raw) - multiset(head) ==> e.occurredMs <= head[i].occurredMs)
  {
    if n < |raw| {
      var head, rest := raw[..n], raw[n..];
      assert raw == head + rest;
      assert multiset(raw) - multiset(head) == multiset(rest);
      forall e: RawEvent, i | 0 <= i < |head| && e in multiset(rest) ensures e.occurredMs <= head[i].occurredMs {
        var j :| 0 <= j < |rest| && rest[j] == e;
        assert raw[n + j] == e && TIME(raw[i]) >= TIME(raw[n + j]);
      }
    } else {
      assert multiset(raw) - multiset(raw) == multiset{};
    }
  }

  // The returned timeline is the newest rows of all sources; with a limit no
  // smaller than their number, all of them.
  lemma TimelineHasNewest(sources: seq<seq<RawEvent>>, limit: nat)
    requires forall k :: 0 <= k < |sources| ==> Sorted(sources[k], TIME)
    ensures var events := TimelineOf(Limited(sources, limit), limit);
      && IsNewestOf(events, sources, limit)
      && (limit >= |AllRows(sources)| ==> multiset(RawOf(events)) == AllRows(sources))
  {
    var raw := Sort(Concat(sources), TIME);
    PerSourceLimitIsExact(sources, limit);
    ConcatHasAllRows(sources);
    SortSorts(Concat(sources), TIME);
    ClusteredOfPrefix(raw, limit);
    ClusteredHead(raw, sources, limit);
  }

  lemma ClusteredHead(raw: seq<RawEvent>, sources: seq<seq<RawEvent>>, limit: nat)
    requires Sorted(raw, TIME) && multiset(raw) == AllRows(sources)
    ensures var events := Clustered(Take(raw, limit));
      && IsNewestOf(events, sources, limit)
      && (limit >= |AllRows(sources)| ==> multiset(RawOf(events)) == AllRows(sources))
  {
    hide AllRows, ClusterOf;
    PrefixOfSorted(raw, limit);
    var head := Take(raw, limit);
    assert RawOf(Clustered(head)) == head;
    assert |raw| == |multiset(raw)|;
    forall i, j | 0 <= i < j < |head| ensures head[i].occurredMs >= head[j].occurredMs {
      assert TIME(raw[i]) >= TIME(raw[j]);
    }
  }
}
