// Attack paths: one row per publicly exposed service that carries a risk and
// can reach anything, with everything reachable in at most four moves, the
// worst severity among it and the asset that has it.
module AttackPaths {
  import opened Options
  import opened Assets
  import opened Inventory
  import opened JsText
  import opened AttackGraph
  import opened Sequences

  datatype Risk = Risk(asset: Asset, severity: Severity)

  datatype World = World(services: seq<Service>, dependencies: seq<Dependency>, hosts: seq<Host>,
                         risks: seq<Risk>, containers: seq<Container>)

  // The pieces of the path's display name; formatting is left out.
  datatype PathName = PathName(entryName: JsString, privilegeEscalation: bool, segmentsCrossed: Option<nat>,
                               target: AssetType)

  datatype AttackPath = AttackPath(name: PathName, entry: Asset, target: Asset, hops: seq<Hop>,
                                   blastRadius: nat, severity: Severity)

  datatype Target = Target(asset: Asset, severity: Severity)

  // `new Map(risks.map(...))`: the last risk row of an asset wins.
  function RiskOf(risks: seq<Risk>, asset: Asset): Option<Severity> {
    if risks == [] then None
    else if risks[|risks| - 1].asset == asset then Some(risks[|risks| - 1].severity)
    else RiskOf(risks[..|risks| - 1], asset)
  }

  function SegmentOf(w: World, asset: Asset): Option<Id> {
    var host := if asset.kind.HostAsset? then HostById(w.hosts, asset.id) else None;
    if host.Some? then host.value.segmentId else None
  }

  // Severity of a reached asset: its risk, else a host's criticality, else low.
  function SeverityOf(w: World, asset: Asset): Severity {
    var host := if asset.kind.HostAsset? then HostById(w.hosts, asset.id) else None;
    if RiskOf(w.risks, asset).Some? then RiskOf(w.risks, asset).value
    else if host.Some? then host.value.criticality
    else Low
  }

  predicate IsPrivileged(w: World, asset: Asset) {
    asset.kind.ContainerAsset? && exists c :: c in w.containers && c.privileged && c.id == asset.id
  }

  // ---- What a list of hops amounts to ----

  function WorstOf(w: World, base: Severity, hops: seq<Hop>): Severity {
    if hops == [] then base
    else Worse(WorstOf(w, base, hops[..|hops| - 1]), SeverityOf(w, hops[|hops| - 1].asset))
  }

  function WorstTarget(w: World, hops: seq<Hop>): Option<Target> {
    if hops == [] then None
    else
      var before, asset := WorstTarget(w, hops[..|hops| - 1]), hops[|hops| - 1].asset;
      if before.None? || Rank(SeverityOf(w, asset)) > Rank(before.value.severity)
      then Some(Target(asset, SeverityOf(w, asset)))
      else before
  }

  predicate Escalates(w: World, hops: seq<Hop>) {
    exists h :: h in hops && IsPrivileged(w, h.asset)
  }

  function SegmentsCrossed(w: World, hops: seq<Hop>): set<Id> {
    set h | h in hops && SegmentOf(w, h.asset).Some? :: SegmentOf(w, h.asset).value
  }

  function OverallSeverity(w: World, base: Severity, hops: seq<Hop>): Severity {
    var worst := if Escalates(w, hops) then Critical else WorstOf(w, base, hops);
    if |SegmentsCrossed(w, hops)| >= 2 then Worse(worst, High) else worst
  }

  function EntryOf(service: Service): Asset {
    Asset(ServiceAsset, service.id)
  }

  // The row for one exposed service, if it gets one.
  function PathFrom(w: World, service: Service): Option<AttackPath> {
    var risk := RiskOf(w.risks, EntryOf(service));
    if risk.None? then None else RowOf(w, service, risk.value, HopsFrom(w.dependencies, EntryOf(service)))
  }

  // The row that a service with that risk gets for those hops.
  function RowOf(w: World, service: Service, base: Severity, hops: seq<Hop>): Option<AttackPath> {
    var entry := EntryOf(service);
    if hops == [] then None
    else
      var target := WorstTarget(w, hops);
      var crossed := |SegmentsCrossed(w, hops)|;
      Some(AttackPath(
        PathName(service.name, Escalates(w, hops), if crossed >= 2 then Some(crossed) else None,
                 if target.Some? then target.value.asset.kind else ServiceAsset),
        entry,
        if target.Some? then target.value.asset else entry,
        hops, |hops|, OverallSeverity(w, base, hops)))
  }

  function AllPaths(w: World, services: seq<Service>): seq<AttackPath> {
    if services == [] then []
    else
      var service := services[|services| - 1];
      AllPaths(w, services[..|services| - 1])
        + if service.exposedPublicly && PathFrom(w, service).Some? then [PathFrom(w, service).value] else []
  }

  // ---- What those folds mean ----

  // The worst severity is an upper bound of the entry's and every reached
  // asset's severity, and one of them attains it.
  lemma {:induction false} WorstIsMaximum(w: World, base: Severity, hops: seq<Hop>)
    ensures Rank(base) <= Rank(WorstOf(w, base, hops))
    ensures forall h :: h in hops ==> Rank(SeverityOf(w, h.asset)) <= Rank(WorstOf(w, base, hops))
    ensures WorstOf(w, base, hops) == base || exists h :: h in hops && SeverityOf(w, h.asset) == WorstOf(w, base, hops)
  {
    if hops != [] {
      var front, last := hops[..|hops| - 1], hops[|hops| - 1];
      assert hops == front + [last];
      WorstIsMaximum(w, base, front);
      if WorstOf(w, base, hops) != base {
        if Rank(WorstOf(w, base, front)) >= Rank(SeverityOf(w, last.asset)) {
          var h :| h in front && SeverityOf(w, h.asset) == WorstOf(w, base, front);
          assert h in hops;
        } else {
          assert last in hops;
        }
      }
    }
  }

  // The target is the first hop, in order of discovery, whose severity no
  // other hop exceeds.
  lemma {:induction false} TargetIsFirstWorst(w: World, hops: seq<Hop>) returns (i: nat)
    requires hops != []
    ensures i < |hops| && WorstTarget(w, hops) == Some(Target(hops[i].asset, SeverityOf(w, hops[i].asset)))
    ensures forall j :: 0 <= j < |hops| ==> Rank(SeverityOf(w, hops[j].asset)) <= Rank(SeverityOf(w, hops[i].asset))
    ensures forall j :: 0 <= j < i ==> Rank(SeverityOf(w, hops[j].asset)) < Rank(SeverityOf(w, hops[i].asset))
  {
    var n := |hops| - 1;
    var front, last := hops[..n], hops[n];
    if front == [] {
      i := 0;
    } else {
      i := TargetIsFirstWorst(w, front);
      if Rank(SeverityOf(w, last.asset)) > Rank(SeverityOf(w, front[i].asset)) {
        i := n;
      }
    }
  }

  // The severity of a path is the maximum over the entry's risk and every
  // reached asset, critical once a privileged container is reached and at
  // least high once two segments are - and no higher than one of these makes it.
  lemma SeverityIsMaximum(w: World, base: Severity, hops: seq<Hop>, s: Severity)
    requires s == OverallSeverity(w, base, hops)
    ensures Rank(s) >= Rank(base) && forall h :: h in hops ==> Rank(s) >= Rank(SeverityOf(w, h.asset))
    ensures Escalates(w, hops) ==> s == Critical
    ensures |SegmentsCrossed(w, hops)| >= 2 ==> Rank(s) >= Rank(High)
    ensures || s == base
            || (exists h :: h in hops && SeverityOf(w, h.asset) == s)
            || (s == Critical && Escalates(w, hops))
            || (s == High && |SegmentsCrossed(w, hops)| >= 2)
  {
    hide SeverityOf, Escalates, SegmentsCrossed, WorstOf;
    WorstIsMaximum(w, base, hops);
  }

  // The target of a path is never further from the entry than another
  // reached asset of the same severity.
  lemma TargetIsNearest(w: World, entry: Asset, j: nat, k: nat)
    requires j < |HopsFrom(w.dependencies, entry)|
    ensures var hops := HopsFrom(w.dependencies, entry);
      var target := WorstTarget(w, hops);
      && target.Some?
      && (&& Rank(SeverityOf(w, hops[j].asset)) == Rank(target.value.severity)
          && Within(w.dependencies, entry, hops[j].asset, k)
          ==> Within(w.dependencies, entry, target.value.asset, k))
  {
    hide Within, SeverityOf, HopsFrom;
    var hops := HopsFrom(w.dependencies, entry);
    var i := TargetIsFirstWorst(w, hops);
    HopsAreBall(w.dependencies, entry);
    var x, y := hops[i].asset, hops[j].asset;
    if Rank(SeverityOf(w, y)) == Rank(SeverityOf(w, x)) && Within(w.dependencies, entry, y, k) {
      EarlierIsNearer(w.dependencies, entry, hops, i, j, k);
    }
  }

  ghost predicate InTwoSegments(w: World, x: Asset, y: Asset) {
    SegmentOf(w, x).Some? && SegmentOf(w, y).Some? && SegmentOf(w, x) != SegmentOf(w, y)
  }

  ghost predicate Reached(w: World, service: Service, x: Asset) {
    x != EntryOf(service) && Within(w.dependencies, EntryOf(service), x, MAX_DEPTH)
  }

  // The severity of a path over a set of reached assets: the maximum over
  // the entry's risk and those assets, critical when one of them is a
  // privileged container, at least high when two of them lie in different
  // segments, and no higher than one of these makes it.
  ghost predicate IsSeverityOver(w: World, base: Severity, reached: set<Asset>, s: Severity) {
    var escalates := exists x :: x in reached && IsPrivileged(w, x);
    var crosses := exists x, y :: x in reached && y in reached && InTwoSegments(w, x, y);
    && Rank(s) >= Rank(base)
    && (forall x :: x in reached ==> Rank(s) >= Rank(SeverityOf(w, x)))
    && (escalates ==> s == Critical)
    && (crosses ==> Rank(s) >= Rank(High))
    && (|| s == base
        || (exists x :: x in reached && SeverityOf(w, x) == s)
        || (s == Critical && escalates)
        || (s == High && crosses))
  }

  // Its target: a reached asset that no other exceeds in severity and no
  // other of that severity precedes in distance.
  ghost predicate IsTargetOver(w: World, entry: Asset, reached: set<Asset>, target: Asset) {
    && target in reached
    && (forall x :: x in reached ==> Rank(SeverityOf(w, x)) <= Rank(SeverityOf(w, target)))
    && forall x, k: nat ::
         && x in reached && SeverityOf(w, x) == SeverityOf(w, target) && Within(w.dependencies, entry, x, k)
         ==> Within(w.dependencies, entry, target, k)
  }

  // A row, said in terms of the graph alone: severity and target over the
  // assets within four steps, and their number.
  lemma RowDescribesReach(w: World, service: Service, row: AttackPath, reached: set<Asset>)
    requires PathFrom(w, service) == Some(row)
    requires forall x :: x in reached <==> Reached(w, service, x)
    ensures RiskOf(w.risks, EntryOf(service)).Some?
    ensures IsSeverityOver(w, RiskOf(w.risks, EntryOf(service)).value, reached, row.severity)
    ensures IsTargetOver(w, EntryOf(service), reached, row.target)
    ensures row.blastRadius == |reached|
  {
    var deps, entry := w.dependencies, EntryOf(service);
    var hops := HopsFrom(deps, entry);
    HopsAreBall(deps, entry);
    ReachedAreNodes(hops, reached);
    SeverityOverReached(w, RiskOf(w.risks, entry).value, hops, reached);
    TargetOverReached(w, entry, hops, reached);
    hide HopsFrom, OverallSeverity, IsSeverityOver, IsTargetOver, Within, RiskOf;
  }

  lemma SeverityOverReached(w: World, base: Severity, hops: seq<Hop>, reached: set<Asset>)
    requires forall x :: x in reached <==> exists j :: 0 <= j < |hops| && hops[j].asset == x
    ensures IsSeverityOver(w, base, reached, OverallSeverity(w, base, hops))
  {
    var s := OverallSeverity(w, base, hops);
    SeverityIsMaximum(w, base, hops, s);
    EscalatesAmong(w, hops, reached);
    CrossesAmong(w, hops, reached);
    hide OverallSeverity, SeverityOf, IsPrivileged, InTwoSegments, Escalates, SegmentsCrossed;
    forall x | x in reached ensures Rank(s) >= Rank(SeverityOf(w, x)) {
      var j :| 0 <= j < |hops| && hops[j].asset == x;
      assert hops[j] in hops;
    }
  }

  lemma TargetOverReached(w: World, entry: Asset, hops: seq<Hop>, reached: set<Asset>)
    requires hops == HopsFrom(w.dependencies, entry) && hops != []
    requires forall x :: x in reached <==> exists j :: 0 <= j < |hops| && hops[j].asset == x
    ensures WorstTarget(w, hops).Some? && IsTargetOver(w, entry, reached, WorstTarget(w, hops).value.asset)
  {
    var i := TargetIsFirstWorst(w, hops);
    var target := hops[i].asset;
    HopsAreBall(w.dependencies, entry);
    hide HopsFrom, SeverityOf, Within, WorstTarget;
    forall x | x in reached ensures Rank(SeverityOf(w, x)) <= Rank(SeverityOf(w, target)) {
      var j :| 0 <= j < |hops| && hops[j].asset == x;
    }
    forall x, k: nat | x in reached && SeverityOf(w, x) == SeverityOf(w, target) && Within(w.dependencies, entry, x, k)
      ensures Within(w.dependencies, entry, target, k)
    {
      var j :| 0 <= j < |hops| && hops[j].asset == x;
      EarlierIsNearer(w.dependencies, entry, hops, i, j, k);
    }
  }

  lemma ReachedAreNodes(hops: seq<Hop>, reached: set<Asset>)
    requires Distinct(Nodes(hops)) && forall x :: x in reached <==> x in Nodes(hops)
    ensures |reached| == |hops|
    ensures forall x :: x in reached <==> exists j :: 0 <= j < |hops| && hops[j].asset == x
  {
    DistinctCount(Nodes(hops));
    assert reached == set x | x in Nodes(hops);
    forall j | 0 <= j < |hops| ensures hops[j].asset in Nodes(hops) {
      assert Nodes(hops)[j] == hops[j].asset;
    }
  }

  lemma {:induction false} DistinctCount(nodes: seq<Asset>)
    requires Distinct(nodes)
    ensures |set x | x in nodes| == |nodes|
  {
    if nodes != [] {
      var front, last := nodes[..|nodes| - 1], nodes[|nodes| - 1];
      DistinctCount(front);
      assert nodes == front + [last];
      var some := set x | x in front;
      assert (set x | x in nodes) == some + {last} && last !in some;
    }
  }

  lemma EscalatesAmong(w: World, hops: seq<Hop>, reached: set<Asset>)
    requires forall x :: x in reached <==> exists j :: 0 <= j < |hops| && hops[j].asset == x
    ensures Escalates(w, hops) <==> exists x :: x in reached && IsPrivileged(w, x)
  {
    hide IsPrivileged;
    if h :| h in hops && IsPrivileged(w, h.asset) {
      assert h.asset in reached;
    }
    if x :| x in reached && IsPrivileged(w, x) {
      var j :| 0 <= j < |hops| && hops[j].asset == x;
      assert hops[j] in hops;
    }
  }

  lemma CrossesAmong(w: World, hops: seq<Hop>, reached: set<Asset>)
    requires forall x :: x in reached <==> exists j :: 0 <= j < |hops| && hops[j].asset == x
    ensures |SegmentsCrossed(w, hops)| >= 2
       <==> exists x, y :: x in reached && y in reached && InTwoSegments(w, x, y)
  {
    hide SegmentOf;
    var crossed := SegmentsCrossed(w, hops);
    TwoOrMore(crossed);
    if s, t :| s in crossed && t in crossed && s != t {
      var g :| g in hops && SegmentOf(w, g.asset) == Some(s);
      var h :| h in hops && SegmentOf(w, h.asset) == Some(t);
      assert g.asset in reached && h.asset in reached;
    }
    if x, y :| x in reached && y in reached && InTwoSegments(w, x, y) {
      var i :| 0 <= i < |hops| && hops[i].asset == x;
      var j :| 0 <= j < |hops| && hops[j].asset == y;
      assert hops[i] in hops && hops[j] in hops;
      assert SegmentOf(w, x).value in crossed && SegmentOf(w, y).value in crossed;
    }
  }

  lemma TwoOrMore(s: set<Id>)
    ensures |s| >= 2 <==> exists x, y :: x in s && y in s && x != y
  {
    if s != {} {
      var x :| x in s;
      var rest := s - {x};
      assert s == rest + {x};
      if rest != {} {
        var y :| y in rest;
        assert y in s;
      }
      if a, b :| a in s && b in s && a != b {
        assert (if a == x then b else a) in rest;
      }
    }
  }

  lemma EarlierIsNearer(deps: seq<Dependency>, entry: Asset, hops: seq<Hop>, i: nat, j: nat, k: nat)
    requires ByDistance(deps, entry, Nodes(hops)) && i <= j < |hops| && Within(deps, entry, hops[j].asset, k)
    ensures Within(deps, entry, hops[i].asset, k)
  {
    hide Within;
    assert Nodes(hops)[i] == hops[i].asset && Nodes(hops)[j] == hops[j].asset;
  }

  // An exposed service gets a row exactly when it carries a risk and has a
  // dependency to or from any other asset.
  lemma RowExists(w: World, service: Service)
    ensures PathFrom(w, service).Some?
       <==> && RiskOf(w.risks, EntryOf(service)).Some?
            && exists x :: x != EntryOf(service) && Adjacent(w.dependencies, EntryOf(service), x)
  {
    var deps, entry := w.dependencies, EntryOf(service);
    HopsAreBall(deps, entry);
    RowIffHops(w, service);
    hide HopsFrom, PathFrom, RiskOf, Within, Adjacent;
    if x :| x != entry && Adjacent(deps, entry, x) {
      WithinZero(deps, entry, entry);
      WithinNext(deps, entry, x, 0);
      WithinMonotone(deps, entry, x, 1, MAX_DEPTH);
      assert x in Nodes(HopsFrom(deps, entry));
    }
    if HopsFrom(deps, entry) != [] {
      var x := Nodes(HopsFrom(deps, entry))[0];
      assert x in Nodes(HopsFrom(deps, entry));
      WalkLeavesEntry(deps, entry, x);
    }
  }

  lemma RowIffHops(w: World, service: Service)
    ensures PathFrom(w, service).Some?
       <==> RiskOf(w.risks, EntryOf(service)).Some? && HopsFrom(w.dependencies, EntryOf(service)) != []
  {
    hide HopsFrom, RiskOf;
  }

  lemma WalkLeavesEntry(deps: seq<Dependency>, entry: Asset, x: Asset)
    requires x != entry && Within(deps, entry, x, MAX_DEPTH)
    ensures exists y :: y != entry && Adjacent(deps, entry, y)
  {
    var walk :| IsWalk(deps, walk) && |walk| <= MAX_DEPTH + 1 && walk[0] == entry && walk[|walk| - 1] == x;
    LeavesAtSomeStep(deps, entry, walk);
  }

  lemma {:induction false} LeavesAtSomeStep(deps: seq<Dependency>, entry: Asset, walk: seq<Asset>)
    requires IsWalk(deps, walk) && walk[0] == entry && walk[|walk| - 1] != entry
    ensures exists y :: y != entry && Adjacent(deps, entry, y)
  {
    assert Adjacent(deps, walk[0], walk[1]);
    if walk[1] == entry {
      var rest := walk[1..];
      forall i | 0 <= i < |rest| - 1 ensures Adjacent(deps, rest[i], rest[i + 1]) {
        assert Adjacent(deps, walk[i + 1], walk[i + 1 + 1]);
      }
      LeavesAtSomeStep(deps, entry, rest);
    }
  }

  // ---- The loops ----

  // The running maxima of the search loop.
  datatype Findings = Findings(worstTarget: Option<Target>, overallSeverity: Severity,
                               privilegeEscalation: bool, segmentsCrossed: set<Id>)

  // They describe the hops found so far.
  ghost predicate Describes(w: World, base: Severity, hops: seq<Hop>, f: Findings) {
    f == Findings(WorstTarget(w, hops), WorstOf(w, base, hops), Escalates(w, hops), SegmentsCrossed(w, hops))
  }

  method NoteReached(w: World, ghost base: Severity, ghost hops: seq<Hop>, f: Findings, hop: Hop) returns (f': Findings)
    requires Describes(w, base, hops, f)
    ensures Describes(w, base, hops + [hop], f')
  {
    var asset := hop.asset;
    DescribesNext(w, base, hops, hop, hops + [hop]);
    f' := f;
    if IsPrivileged(w, asset) {
      f' := f'.(privilegeEscalation := true);
    }
    if SegmentOf(w, asset).Some? {
      f' := f'.(segmentsCrossed := f'.segmentsCrossed + {SegmentOf(w, asset).value});
    }
    var targetSeverity := SeverityOf(w, asset);
    f' := f'.(overallSeverity := Worse(f'.overallSeverity, targetSeverity));
    if f'.worstTarget.None? || Rank(targetSeverity) > Rank(f'.worstTarget.value.severity) {
      f' := f'.(worstTarget := Some(Target(asset, targetSeverity)));
    }
  }

  lemma DescribesNext(w: World, base: Severity, hops: seq<Hop>, hop: Hop, hops': seq<Hop>)
    requires hops' == hops + [hop]
    ensures WorstOf(w, base, hops') == Worse(WorstOf(w, base, hops), SeverityOf(w, hop.asset))
    ensures WorstTarget(w, hops') ==
      if WorstTarget(w, hops).None? || Rank(SeverityOf(w, hop.asset)) > Rank(WorstTarget(w, hops).value.severity)
      then Some(Target(hop.asset, SeverityOf(w, hop.asset)))
      else WorstTarget(w, hops)
    ensures Escalates(w, hops') == (Escalates(w, hops) || IsPrivileged(w, hop.asset))
    ensures SegmentsCrossed(w, hops')
         == SegmentsCrossed(w, hops) + (if SegmentOf(w, hop.asset).Some? then {SegmentOf(w, hop.asset).value} else {})
  {
    assert hops'[..|hops'| - 1] == hops;
    assert hop in hops';
  }

  // Where the scan of one layer stands after the edges `seen`: what it has
  // found, marked and queued.
  ghost predicate Scanned(seen: seq<Hop>, hops0: seq<Hop>, visited0: set<Asset>, hops: seq<Hop>, visited: set<Asset>,
                          next: seq<Asset>) {
    && hops == hops0 + Fresh(seen, visited0)
    && next == Nodes(Fresh(seen, visited0))
    && visited == visited0 + (set x | x in next)
  }

  lemma ScannedNext(seen: seq<Hop>, edge: Hop, hops0: seq<Hop>, visited0: set<Asset>, hops: seq<Hop>,
                    visited: set<Asset>, next: seq<Asset>)
    requires Scanned(seen, hops0, visited0, hops, visited, next)
    ensures edge.asset in visited ==> Scanned(seen + [edge], hops0, visited0, hops, visited, next)
    ensures edge.asset !in visited ==>
      Scanned(seen + [edge], hops0, visited0, hops + [edge], visited + {edge.asset}, next + [edge.asset])
  {
    FreshSnoc(seen, edge, visited0);
    NodesAppend(Fresh(seen, visited0), [edge]);
    assert hops0 + (Fresh(seen, visited0) + [edge]) == hops0 + Fresh(seen, visited0) + [edge];
  }

  // The edges of one frontier node, after the edges `before` of its layer.
  method ScanNode(w: World, ghost base: Severity, edges: seq<Hop>, ghost before: seq<Hop>, ghost hops0: seq<Hop>,
                  ghost visited0: set<Asset>, hops1: seq<Hop>, visited1: set<Asset>, next1: seq<Asset>, f1: Findings)
    returns (hops: seq<Hop>, visited: set<Asset>, next: seq<Asset>, f: Findings)
    requires Scanned(before, hops0, visited0, hops1, visited1, next1) && Describes(w, base, hops1, f1)
    ensures Scanned(before + edges, hops0, visited0, hops, visited, next) && Describes(w, base, hops, f)
    ensures |visited| - |hops| == |visited1| - |hops1|
  {
    hide Scanned, Describes;
    hops, visited, next, f := hops1, visited1, next1, f1;
    assert before + edges[..0] == before;
    for e := 0 to |edges|
      invariant Scanned(before + edges[..e], hops0, visited0, hops, visited, next)
      invariant Describes(w, base, hops, f)
      invariant |visited| - |hops| == |visited1| - |hops1|
    {
      var edge := edges[e];
      ScannedNext(before + edges[..e], edge, hops0, visited0, hops, visited, next);
      assert before + edges[..e] + [edge] == before + edges[..e + 1];
      if edge.asset !in visited {
        f := NoteReached(w, base, hops, f, edge);
        visited := visited + {edge.asset};
        hops := hops + [edge];
        next := next + [edge.asset];
      }
    }
    assert edges[..|edges|] == edges;
  }

  // One layer of the search: every edge of every frontier node.
  method ScanLayer(w: World, adjacency: map<Asset, seq<Hop>>, ghost base: Severity, frontier: seq<Asset>,
                   hops0: seq<Hop>, visited0: set<Asset>, f0: Findings)
    returns (hops: seq<Hop>, visited: set<Asset>, next: seq<Asset>, f: Findings)
    requires Mirrors(adjacency, w.dependencies) && Describes(w, base, hops0, f0)
    ensures Scanned(LayerEdges(w.dependencies, frontier), hops0, visited0, hops, visited, next)
    ensures Describes(w, base, hops, f)
    ensures |visited| - |hops| == |visited0| - |hops0|
  {
    hide Describes;
    hops, visited, next, f := hops0, visited0, [], f0;
    for n := 0 to |frontier|
      invariant Scanned(LayerEdges(w.dependencies, frontier[..n]), hops0, visited0, hops, visited, next)
      invariant Describes(w, base, hops, f)
      invariant |visited| - |hops| == |visited0| - |hops0|
    {
      hide Scanned;
      hops, visited, next, f := ScanNode(w, base, Lookup(adjacency, frontier[n]),
                                         LayerEdges(w.dependencies, frontier[..n]),
                                         hops0, visited0, hops, visited, next, f);
      assert frontier[..n + 1][..n] == frontier[..n];
    }
    assert frontier[..|frontier|] == frontier;
  }

  // The hops found, and those still to come from the current frontier, are
  // together the hops of the path.
  ghost predicate Searching(deps: seq<Dependency>, entry: Asset, depth: nat, frontier: seq<Asset>,
                            visited: set<Asset>, hops: seq<Hop>) {
    depth <= MAX_DEPTH && hops + Bfs(deps, frontier, visited, MAX_DEPTH - depth) == HopsFrom(deps, entry)
  }

  lemma SearchStarts(deps: seq<Dependency>, entry: Asset)
    ensures Searching(deps, entry, 0, [entry], {entry}, [])
  {
    assert [] + HopsFrom(deps, entry) == HopsFrom(deps, entry);
  }

  lemma SearchGoesOn(deps: seq<Dependency>, entry: Asset, depth: nat, frontier: seq<Asset>, visited: set<Asset>,
                     hops: seq<Hop>, next: seq<Asset>, visited': set<Asset>, hops': seq<Hop>)
    requires depth < MAX_DEPTH
    ensures && Searching(deps, entry, depth, frontier, visited, hops)
            && Scanned(LayerEdges(deps, frontier), hops, visited, hops', visited', next)
            ==> Searching(deps, entry, depth + 1, next, visited', hops')
  {
    hide Fresh, LayerEdges, HopsFrom;
    Associative(hops, Fresh(LayerEdges(deps, frontier), visited), Bfs(deps, next, visited', MAX_DEPTH - (depth + 1)));
  }

  lemma SearchEnds(deps: seq<Dependency>, entry: Asset, depth: nat, frontier: seq<Asset>, visited: set<Asset>,
                   hops: seq<Hop>)
    requires depth == MAX_DEPTH || frontier == []
    ensures Searching(deps, entry, depth, frontier, visited, hops) ==> hops == HopsFrom(deps, entry)
  {
    hide Bfs, HopsFrom;
    if depth <= MAX_DEPTH {
      var left := MAX_DEPTH - depth;
      NoneFrom(deps, frontier, visited, left);
      assert hops + [] == hops;
    }
  }

  lemma NoneFrom(deps: seq<Dependency>, frontier: seq<Asset>, visited: set<Asset>, left: nat)
    requires left == 0 || frontier == []
    ensures Bfs(deps, frontier, visited, left) == []
  {
    if frontier == [] {
      BfsFromNowhere(deps, visited, left);
    }
  }

  method BuildPath(w: World, adjacency: map<Asset, seq<Hop>>, service: Service) returns (row: Option<AttackPath>)
    requires Mirrors(adjacency, w.dependencies)
    ensures row == PathFrom(w, service)
  {
    var entry := EntryOf(service);
    var entryRisk := RiskOf(w.risks, entry);
    if entryRisk.None? {
      return None;
    }
    var visited: set<Asset>, hops: seq<Hop>, frontier := {entry}, [], [entry];
    var f := Findings(None, entryRisk.value, false, {});
    SearchStarts(w.dependencies, entry);
    hide HopsFrom, RiskOf, Searching;
    var depth := 0;
    while depth < MAX_DEPTH && |frontier| > 0
      invariant Searching(w.dependencies, entry, depth, frontier, visited, hops)
      invariant Describes(w, entryRisk.value, hops, f)
      invariant |visited| == |hops| + 1
      decreases MAX_DEPTH - depth
    {
      hide Describes, Scanned;
      ghost var frontier0, visited0, hops0 := frontier, visited, hops;
      hops, visited, frontier, f := ScanLayer(w, adjacency, entryRisk.value, frontier, hops, visited, f);
      SearchGoesOn(w.dependencies, entry, depth, frontier0, visited0, hops0, frontier, visited, hops);
      depth := depth + 1;
    }
    SearchEnds(w.dependencies, entry, depth, frontier, visited, hops);
    row := FinishRow(w, service, entryRisk.value, hops, |visited| - 1, f);
  }

  method FinishRow(w: World, service: Service, base: Severity, hops: seq<Hop>, blastRadius: nat, f: Findings)
    returns (row: Option<AttackPath>)
    requires blastRadius == |hops| && Describes(w, base, hops, f)
    ensures row == RowOf(w, service, base, hops)
  {
    if |hops| == 0 {
      return None;
    }
    var overallSeverity := if f.privilegeEscalation then Critical else f.overallSeverity;
    var multiSegment := |f.segmentsCrossed| >= 2;
    if multiSegment {
      overallSeverity := Worse(overallSeverity, High);
    }
    var target := if f.worstTarget.Some? then f.worstTarget.value else Target(EntryOf(service), base);
    row := Some(AttackPath(
      PathName(service.name, f.privilegeEscalation, if multiSegment then Some(|f.segmentsCrossed|) else None,
               target.asset.kind),
      EntryOf(service), target.asset, hops, blastRadius, overallSeverity));
  }

  class AttackPathTable {
    var rows: seq<AttackPath>

    constructor ()
      ensures rows == []
    {
      rows := [];
    }

    // Empties the table and fills it again from the current inventory.
    method Rebuild(w: World)
      modifies this
      ensures rows == AllPaths(w, w.services)
      ensures exists at :: IsTableOf(w, rows, at)
    {
      var adjacency := BuildAdjacency(w.dependencies);
      hide IsRowOf, Qualifies, PathFrom;
      rows := [];
      for i := 0 to |w.services|
        invariant rows == AllPaths(w, w.services[..i])
      {
        assert w.services[..i + 1][..i] == w.services[..i];
        if w.services[i].exposedPublicly {
          var row := BuildPath(w, adjacency, w.services[i]);
          if row.Some? {
            rows := rows + [row.value];
          }
        }
      }
      assert w.services[..|w.services|] == w.services;
      TableOfServices(w);
    }
  }

  // ---- The table, told by the inventory ----

  // The risk row of an asset that counts: the last one.
  ghost predicate IsRiskOf(risks: seq<Risk>, asset: Asset, severity: Severity) {
    exists i :: && 0 <= i < |risks| && risks[i] == Risk(asset, severity)
                && forall j :: i < j < |risks| ==> risks[j].asset != asset
  }

  // Where severities come from: the asset's last risk row; without one, the
  // criticality of a host; and low for anything else.
  lemma SeverityOfMeans(w: World, x: Asset)
    ensures forall s :: IsRiskOf(w.risks, x, s) ==> SeverityOf(w, x) == s
    ensures (forall r :: r in w.risks ==> r.asset != x) && x.kind.HostAsset? && UniqueHosts(w) ==>
      forall h :: h in w.hosts && h.id == x.id ==> SeverityOf(w, x) == h.criticality
    ensures (forall r :: r in w.risks ==> r.asset != x)
            && (x.kind.HostAsset? ==> forall h :: h in w.hosts ==> h.id != x.id) ==>
      SeverityOf(w, x) == Low
  {
    LastRiskWins(w.risks, x);
  }

  ghost predicate UniqueHosts(w: World) {
    forall i, j :: 0 <= i < j < |w.hosts| ==> w.hosts[i].id != w.hosts[j].id
  }

  lemma SegmentOfMeans(w: World, x: Asset)
    requires UniqueHosts(w)
    ensures forall h :: h in w.hosts && x == Asset(HostAsset, h.id) ==> SegmentOf(w, x) == h.segmentId
    ensures (forall h :: h in w.hosts ==> x != Asset(HostAsset, h.id)) ==> SegmentOf(w, x) == None
  {
  }

  lemma PrivilegedMeans(w: World, x: Asset)
    ensures IsPrivileged(w, x) <==> exists c :: c in w.containers && c.privileged && x == Asset(ContainerAsset, c.id)
  {
  }

  // A service gets a row if it is exposed, has a risk, and some other asset
  // is on the other side of a dependency.
  ghost predicate Qualifies(w: World, s: Service) {
    && s.exposedPublicly
    && (exists r :: r in w.risks && r.asset == Asset(ServiceAsset, s.id))
    && exists x :: x != Asset(ServiceAsset, s.id) && Adjacent(w.dependencies, Asset(ServiceAsset, s.id), x)
  }

  function SegmentsAmong(w: World, assets: set<Asset>): set<Id> {
    set x | x in assets && SegmentOf(w, x).Some? :: SegmentOf(w, x).value
  }

  lemma SameSegments(w: World, hops: seq<Hop>)
    ensures SegmentsCrossed(w, hops) == SegmentsAmong(w, ReachedBy(hops))
  {
    hide SegmentOf;
    forall h | h in hops ensures h.asset in ReachedBy(hops) {
      var i :| 0 <= i < |hops| && hops[i] == h;
      assert Nodes(hops)[i] == h.asset;
    }
    forall x | x in ReachedBy(hops) ensures exists h :: h in hops && h.asset == x {
      var i :| 0 <= i < |Nodes(hops)| && Nodes(hops)[i] == x;
      assert hops[i] in hops;
    }
  }

  ghost predicate IsRowOf(w: World, s: Service, row: AttackPath) {
    var entry, reached := Asset(ServiceAsset, s.id), ReachedBy(row.hops);
    && row.entry == entry && row.name.entryName == s.name
    && (forall x :: x in reached <==> x != entry && Within(w.dependencies, entry, x, 4))
    && (exists risk :: IsRiskOf(w.risks, entry, risk) && IsSeverityOver(w, risk, reached, row.severity))
    && IsTargetOver(w, entry, reached, row.target)
    && row.blastRadius == |reached|
    && (row.name.privilegeEscalation <==> exists x :: x in reached && IsPrivileged(w, x))
    && (row.name.segmentsCrossed.Some? <==> exists x, y :: x in reached && y in reached && InTwoSegments(w, x, y))
    && (row.name.segmentsCrossed.Some? ==> row.name.segmentsCrossed.value == |SegmentsAmong(w, reached)|)
    && row.name.target == row.target.kind
  }

  // The rows are those of the services at the positions `at`: of all that
  // qualify, once each, in the order of the services.
  ghost predicate IsTableUpTo(w: World, rows: seq<AttackPath>, at: seq<nat>, n: nat)
    requires n <= |w.services|
  {
    && |at| == |rows|
    && (forall i :: 0 <= i < |at| ==>
          at[i] < n && Qualifies(w, w.services[at[i]]) && IsRowOf(w, w.services[at[i]], rows[i]))
    && (forall i, j :: 0 <= i < j < |at| ==> at[i] < at[j])
    && forall k :: 0 <= k < n && Qualifies(w, w.services[k]) ==> k in at
  }

  ghost predicate IsTableOf(w: World, rows: seq<AttackPath>, at: seq<nat>) {
    IsTableUpTo(w, rows, at, |w.services|)
  }

  lemma PathMeans(w: World, s: Service)
    ensures s.exposedPublicly && PathFrom(w, s).Some? <==> Qualifies(w, s)
    ensures PathFrom(w, s).Some? ==> IsRowOf(w, s, PathFrom(w, s).value)
  {
    RowExists(w, s);
    LastRiskWins(w.risks, EntryOf(s));
    if PathFrom(w, s).Some? {
      RowMeans(w, s, PathFrom(w, s).value);
    }
    hide PathFrom, RiskOf, IsRowOf, Adjacent;
  }

  lemma RowMeans(w: World, s: Service, row: AttackPath)
    requires PathFrom(w, s) == Some(row)
    ensures IsRowOf(w, s, row)
  {
    hide *;
    RowParts(w, s, row);
    ReachOfRow(w, s);
    RiskOfRow(w, s);
    TargetOfRow(w, s);
    SameSegments(w, row.hops);
    PartsMakeRow(w, s, row, WorstTarget(w, row.hops).value.asset);
  }

  lemma PartsMakeRow(w: World, s: Service, row: AttackPath, target: Asset)
    requires row.entry == EntryOf(s) && row.name.entryName == s.name && row.target == target
    requires forall x :: x in ReachedBy(row.hops) <==> x != EntryOf(s) && Within(w.dependencies, EntryOf(s), x, 4)
    requires exists risk ::
      IsRiskOf(w.risks, EntryOf(s), risk) && IsSeverityOver(w, risk, ReachedBy(row.hops), row.severity)
    requires IsTargetOver(w, EntryOf(s), ReachedBy(row.hops), target)
    requires row.blastRadius == |ReachedBy(row.hops)|
    requires row.name.privilegeEscalation <==> exists x :: x in ReachedBy(row.hops) && IsPrivileged(w, x)
    requires row.name.segmentsCrossed.Some?
      <==> exists x, y :: x in ReachedBy(row.hops) && y in ReachedBy(row.hops) && InTwoSegments(w, x, y)
    requires row.name.segmentsCrossed.Some? ==>
      row.name.segmentsCrossed.value == |SegmentsAmong(w, ReachedBy(row.hops))|
    requires row.name.target == row.target.kind
    ensures IsRowOf(w, s, row)
  {
    hide SegmentsAmong, ReachedBy, IsSeverityOver, IsTargetOver, Within, IsRiskOf, IsPrivileged, InTwoSegments;
  }

  function ReachedBy(hops: seq<Hop>): set<Asset> {
    set x | x in Nodes(hops)
  }

  lemma ReachOfRow(w: World, s: Service)
    ensures var hops := HopsFrom(w.dependencies, EntryOf(s));
      && (forall x :: x in ReachedBy(hops) <==> x != EntryOf(s) && Within(w.dependencies, EntryOf(s), x, 4))
      && |ReachedBy(hops)| == |hops|
  {
    var hops := HopsFrom(w.dependencies, EntryOf(s));
    HopsAreBall(w.dependencies, EntryOf(s));
    hide HopsFrom, Within;
    ReachedAreNodes(hops, ReachedBy(hops));
  }

  lemma RiskOfRow(w: World, s: Service)
    ensures var hops, risk := HopsFrom(w.dependencies, EntryOf(s)), RiskOf(w.risks, EntryOf(s));
      var reached := ReachedBy(hops);
      && (risk.Some? ==>
            exists r :: IsRiskOf(w.risks, EntryOf(s), r)
                        && IsSeverityOver(w, r, reached, OverallSeverity(w, risk.value, hops)))
      && (Escalates(w, hops) <==> exists x :: x in reached && IsPrivileged(w, x))
      && (|SegmentsCrossed(w, hops)| >= 2 <==> exists x, y :: x in reached && y in reached && InTwoSegments(w, x, y))
  {
    var hops, risk := HopsFrom(w.dependencies, EntryOf(s)), RiskOf(w.risks, EntryOf(s));
    HopsAreBall(w.dependencies, EntryOf(s));
    hide HopsFrom, Within;
    ReachedAreNodes(hops, ReachedBy(hops));
    LastRiskWins(w.risks, EntryOf(s));
    hide RiskOf, OverallSeverity, IsSeverityOver, Escalates, SegmentsCrossed, IsPrivileged, InTwoSegments, ReachedBy;
    EscalatesAmong(w, hops, ReachedBy(hops));
    CrossesAmong(w, hops, ReachedBy(hops));
    if risk.Some? {
      SeverityOverReached(w, risk.value, hops, ReachedBy(hops));
      assert IsRiskOf(w.risks, EntryOf(s), risk.value);
    }
  }

  lemma TargetOfRow(w: World, s: Service)
    ensures var hops := HopsFrom(w.dependencies, EntryOf(s));
      hops != [] ==>
        WorstTarget(w, hops).Some? && IsTargetOver(w, EntryOf(s), ReachedBy(hops), WorstTarget(w, hops).value.asset)
  {
    var hops := HopsFrom(w.dependencies, EntryOf(s));
    HopsAreBall(w.dependencies, EntryOf(s));
    ReachedAreNodes(hops, ReachedBy(hops));
    if hops != [] {
      TargetOverReached(w, EntryOf(s), hops, ReachedBy(hops));
    }
  }

  lemma RowParts(w: World, s: Service, row: AttackPath)
    requires PathFrom(w, s) == Some(row)
    ensures var hops := HopsFrom(w.dependencies, EntryOf(s));
      var target := WorstTarget(w, hops);
      && RiskOf(w.risks, EntryOf(s)).Some? && hops != [] && row.hops == hops && row.entry == EntryOf(s)
      && row.blastRadius == |hops| && row.severity == OverallSeverity(w, RiskOf(w.risks, EntryOf(s)).value, hops)
      && row.name.entryName == s.name && row.name.privilegeEscalation == Escalates(w, hops)
      && (row.name.segmentsCrossed.Some? <==> |SegmentsCrossed(w, hops)| >= 2)
      && (row.name.segmentsCrossed.Some? ==> row.name.segmentsCrossed.value == |SegmentsCrossed(w, hops)|)
      && (target.Some? ==> row.target == target.value.asset && row.name.target == row.target.kind)
  {
    hide HopsFrom, OverallSeverity, Escalates, SegmentsCrossed, WorstTarget, RiskOf;
  }

  lemma TableOfServices(w: World)
    ensures exists at :: IsTableOf(w, AllPaths(w, w.services), at)
  {
    var at := TableMeans(w, |w.services|);
    assert w.services[..|w.services|] == w.services;
    hide IsTableUpTo;
    assert IsTableOf(w, AllPaths(w, w.services), at);
  }

  // There is one row for each qualifying service, in order, and each tells
  // what the graph says of its service.
  lemma {:induction false} TableMeans(w: World, n: nat) returns (at: seq<nat>)
    requires n <= |w.services|
    ensures IsTableUpTo(w, AllPaths(w, w.services[..n]), at, n)
  {
    hide IsRowOf, Qualifies, PathFrom;
    at := [];
    if n > 0 {
      at := TableMeans(w, n - 1);
      var s := w.services[n - 1];
      assert w.services[..n][..n - 1] == w.services[..n - 1];
      PathMeans(w, s);
      var before := AllPaths(w, w.services[..n - 1]);
      if s.exposedPublicly && PathFrom(w, s).Some? {
        assert AllPaths(w, w.services[..n]) == before + [PathFrom(w, s).value];
        OneMoreRow(w, before, at, n - 1, PathFrom(w, s).value);
        at := at + [n - 1];
      } else {
        assert before + [] == before;
        NoMoreRow(w, before, at, n - 1);
      }
    }
  }

  lemma OneMoreRow(w: World, rows: seq<AttackPath>, at: seq<nat>, k: nat, row: AttackPath)
    requires k < |w.services|
    ensures IsTableUpTo(w, rows, at, k) && Qualifies(w, w.services[k]) && IsRowOf(w, w.services[k], row) ==>
      IsTableUpTo(w, rows + [row], at + [k], k + 1)
  {
    hide IsRowOf, Qualifies;
    assert forall i :: i in at ==> i in at + [k];
  }

  lemma NoMoreRow(w: World, rows: seq<AttackPath>, at: seq<nat>, k: nat)
    requires k < |w.services| && IsTableUpTo(w, rows, at, k) && !Qualifies(w, w.services[k])
    ensures IsTableUpTo(w, rows, at, k + 1)
  {
    hide IsRowOf, Qualifies;
  }

  // The last risk row of an asset decides its severity.
  lemma {:induction false} LastRiskWins(risks: seq<Risk>, asset: Asset)
    ensures RiskOf(risks, asset).None? <==> forall r :: r in risks ==> r.asset != asset
    ensures RiskOf(risks, asset).Some? ==>
      exists i :: 0 <= i < |risks| && risks[i] == Risk(asset, RiskOf(risks, asset).value)
        && forall j :: i < j < |risks| ==> risks[j].asset != asset
  {
    if risks != [] {
      var n := |risks| - 1;
      assert risks == risks[..n] + [risks[n]];
      if risks[n].asset == asset {
        assert risks[n] == Risk(asset, RiskOf(risks, asset).value);
      } else {
        LastRiskWins(risks[..n], asset);
        if RiskOf(risks, asset).Some? {
          var i :| 0 <= i < n && risks[..n][i] == Risk(asset, RiskOf(risks, asset).value)
            && forall j :: i < j < n ==> risks[..n][j].asset != asset;
          assert risks[i] == Risk(asset, RiskOf(risks, asset).value);
          assert forall j :: i < j < n ==> risks[j].asset == risks[..n][j].asset;
        }
      }
    }
  }
}
