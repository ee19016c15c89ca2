// What policies flag, told by the columns of the inventory and the rows an
// evaluation leaves open.
module PolicyMeaning {
  import opened Options
  import opened JsText
  import opened Assets
  import opened Inventory
  import opened PolicyLanguage
  import opened PolicyEngine
  import opened Violations

  // A global evaluation leaves the pair open.
  ghost predicate Flagged(w: World, t: Table, now: int, p: Policy, asset: Asset) {
    OpenAt(Reconcile(w, None, t, now), Key(p.id, asset))
  }

  ghost predicate IsCandidate(w: World, p: Policy, c: Candidate) {
    p in w.policies && p.enabled && c in Candidates(w, p.target)
  }

  // Ids are unique, so the pair speaks of this policy and this asset.
  lemma FlaggedMeans(w: World, t: Table, now: int, p: Policy, c: Candidate)
    requires UniqueIds(w) && IsCandidate(w, p, c)
    ensures Flagged(w, t, now, p, c.asset) <==> Satisfies(w, p, c)
  {
    var key := Key(p.id, c.asset);
    GlobalRunOpensViolations(w, t, now, key);
    CandidatesDistinct(w, p.target);
    hide Candidates, Satisfies, OpenAt, Reconcile;
    if Violates(w, key) {
      var q, d :| && q in w.policies && q.enabled && d in Candidates(w, q.target) && key == Key(q.id, d.asset)
                  && Satisfies(w, q, d);
      SamePolicy(w, p, q);
      SameCandidate(Candidates(w, p.target), c, d);
    }
  }

  lemma SamePolicy(w: World, p: Policy, q: Policy)
    requires UniqueIds(w) && p in w.policies && q in w.policies && p.id == q.id
    ensures p == q
  {
  }

  lemma SameCandidate(candidates: seq<Candidate>, c: Candidate, d: Candidate)
    requires DistinctAssets(candidates) && c in candidates && d in candidates && c.asset == d.asset
    ensures c == d
  {
  }

  // Policies that are disabled, or for assets of another kind, flag nothing.
  lemma OthersFlagNothing(w: World, t: Table, now: int, p: Policy, asset: Asset)
    requires UniqueIds(w) && p in w.policies
    requires !p.enabled || (p.target.TargetHost? && !asset.kind.HostAsset?)
      || (p.target.TargetContainer? && !asset.kind.ContainerAsset?)
      || (p.target.TargetService? && !asset.kind.ServiceAsset?) || p.target.TargetOther?
    ensures !Flagged(w, t, now, p, asset)
  {
    var key := Key(p.id, asset);
    GlobalRunOpensViolations(w, t, now, key);
    hide Satisfies, OpenAt, Reconcile, EnrichHost, EnrichContainer, EnrichService;
    if Violates(w, key) {
      var q, d :| && q in w.policies && q.enabled && d in Candidates(w, q.target) && key == Key(q.id, d.asset)
                  && Satisfies(w, q, d);
      SamePolicy(w, p, q);
    }
  }

  // ---- One condition ----

  ghost predicate HasOnly(p: Policy, cond: Condition) {
    p.all == Some([cond]) && p.any.None?
  }

  // What a single condition says about a plain value: text, number, truth
  // value or null.
  ghost predicate Verdict(js: Coercions, cond: Condition, actual: Value, flagged: bool) {
    var limit := js.toNumber(cond.value);
    match cond.operator
    case Eq => flagged <==> cond.value == actual
    case Neq => flagged <==> cond.value != actual
    case In => flagged <==> cond.value.Arr? && actual in cond.value.items
    case NotIn => flagged <==> cond.value.Arr? && actual !in cond.value.items
    case Lt => flagged <==> actual.Num? && limit.Some? && actual.n < limit.value
    case Lte => flagged <==> actual.Num? && limit.Some? && actual.n <= limit.value
    case Gt => flagged <==> actual.Num? && limit.Some? && actual.n > limit.value
    case Gte => flagged <==> actual.Num? && limit.Some? && actual.n >= limit.value
    case Contains => flagged <==> actual.Str? && exists pre, post :: actual.s == pre + js.toText(cond.value) + post
    case UnknownOperator => !flagged
  }

  lemma OccursIff(text: JsString, part: JsString)
    ensures ContainsText(text, part) <==> exists pre, post :: text == pre + part + post
  {
    if i :| 0 <= i <= |text| && OccursAt(text, part, i) {
      assert text == text[..i] + part + text[i + |part|..];
    }
    if pre, post :| text == pre + part + post {
      assert OccursAt(text, part, |pre|);
    }
  }

  lemma IncludesIff(items: seq<Value>, actual: Value)
    requires !actual.Arr? && !actual.Obj?
    ensures Includes(items, actual) <==> actual in items
  {
  }

  lemma EvalIsVerdict(js: Coercions, target: Value, cond: Condition, actual: Value)
    requires actual == GetField(target, cond.field) && !actual.Arr? && !actual.Obj?
    ensures Verdict(js, cond, actual, EvalCondition(js, target, cond))
  {
    hide GetField, Includes, ContainsText;
    if cond.value.Arr? {
      IncludesIff(cond.value.items, actual);
    }
    if actual.Str? {
      OccursIff(actual.s, js.toText(cond.value));
    }
  }

  lemma OneConditionFlags(w: World, t: Table, now: int, p: Policy, c: Candidate, cond: Condition, actual: Value)
    requires UniqueIds(w) && IsCandidate(w, p, c) && HasOnly(p, cond)
    requires actual == GetField(c.enriched, cond.field) && !actual.Arr? && !actual.Obj?
    ensures Verdict(w.js, cond, actual, Flagged(w, t, now, p, c.asset))
  {
    FlaggedMeans(w, t, now, p, c);
    EvalIsVerdict(w.js, c.enriched, cond, actual);
    assert [cond][0] == cond;
    hide EvalCondition, Verdict;
    assert Satisfies(w, p, c) <==> EvalCondition(w.js, c.enriched, cond);
  }

  // A list or an object equals nothing, is in no list, and has no order.
  lemma OneConditionOnComposite(w: World, t: Table, now: int, p: Policy, c: Candidate, cond: Condition)
    requires UniqueIds(w) && IsCandidate(w, p, c) && HasOnly(p, cond)
    requires GetField(c.enriched, cond.field).Arr? || GetField(c.enriched, cond.field).Obj?
    ensures Flagged(w, t, now, p, c.asset) <==> cond.operator.Neq? || (cond.operator.NotIn? && cond.value.Arr?)
  {
    FlaggedMeans(w, t, now, p, c);
    assert [cond][0] == cond;
    hide GetField;
    assert Satisfies(w, p, c) <==> EvalCondition(w.js, c.enriched, cond);
  }

  // ---- The columns ----

  // The names an engine reads or adds; any other column is as the row has it.
  function HostNames(): set<JsString> {
    {Literal("id"), Literal("hostname"), Literal("network_segment_id"), Literal("device_class"), Literal("criticality"),
     Literal("network_segment"), Literal("segment_has_mixed_device_classes")}
  }

  function ContainerNames(): set<JsString> {
    {Literal("id"), Literal("host_id"), Literal("name"), Literal("image"), Literal("privileged"), Literal("host")}
  }

  function ServiceNames(): set<JsString> {
    {Literal("id"), Literal("host_id"), Literal("container_id"), Literal("name"), Literal("port"),
     Literal("bind_address"), Literal("exposed_publicly"), Literal("host"), Literal("container")}
  }

  ghost predicate IsOtherColumn(columns: map<JsString, Value>, names: set<JsString>, field: JsString, v: Value) {
    field in columns && field !in names && DOT !in field && v == columns[field] && !v.Arr? && !v.Obj?
  }

  ghost predicate IsHostColumn(h: Host, field: JsString, v: Value) {
    || IsOtherColumn(h.columns, HostNames(), field, v)
    || (field == Literal("id") && v == Str(h.id))
    || (field == Literal("hostname") && v == Str(h.hostname))
    || (field == Literal("device_class") && v == Str(h.deviceClass))
    || (field == Literal("network_segment_id") && v == if h.segmentId.Some? then Str(h.segmentId.value) else Null)
    || (field == Literal("criticality") && h.criticality.Low? && v == Str(Literal("low")))
    || (field == Literal("criticality") && h.criticality.Medium? && v == Str(Literal("medium")))
    || (field == Literal("criticality") && h.criticality.High? && v == Str(Literal("high")))
    || (field == Literal("criticality") && h.criticality.Critical? && v == Str(Literal("critical")))
  }

  ghost predicate IsContainerColumn(c: Container, field: JsString, v: Value) {
    || IsOtherColumn(c.columns, ContainerNames(), field, v)
    || (field == Literal("id") && v == Str(c.id))
    || (field == Literal("name") && v == Str(c.name))
    || (field == Literal("image") && v == Str(c.image))
    || (field == Literal("privileged") && v == Bool(c.privileged))
    || (field == Literal("host_id") && v == if c.hostId.Some? then Str(c.hostId.value) else Null)
  }

  ghost predicate IsServiceColumn(s: Service, field: JsString, v: Value) {
    || IsOtherColumn(s.columns, ServiceNames(), field, v)
    || (field == Literal("id") && v == Str(s.id))
    || (field == Literal("name") && v == Str(s.name))
    || (field == Literal("port") && v == Num(s.port as real))
    || (field == Literal("bind_address") && v == Str(s.bindAddress))
    || (field == Literal("exposed_publicly") && v == Bool(s.exposedPublicly))
    || (field == Literal("host_id") && v == if s.hostId.Some? then Str(s.hostId.value) else Null)
    || (field == Literal("container_id") && v == if s.containerId.Some? then Str(s.containerId.value) else Null)
  }

  // Names of equal length, told apart by a letter.
  lemma NamesDiffer()
    ensures Literal("name") != Literal("host") && Literal("name") != Literal("port")
    ensures Literal("host") != Literal("port")
    ensures Literal("container_id") != Literal("bind_address")
  {
    assert Literal("name")[0] != Literal("host")[0] && Literal("name")[0] != Literal("port")[0];
    assert Literal("host")[0] != Literal("port")[0];
    assert Literal("container_id")[0] != Literal("bind_address")[0];
  }

  lemma HostColumnRead(w: World, h: Host, field: JsString, v: Value)
    requires IsHostColumn(h, field, v)
    ensures GetField(EnrichHost(w, h), field) == v
  {
    assert DOT !in field && field in EnrichHost(w, h).fields && EnrichHost(w, h).fields[field] == v;
    hide EnrichHost, IsHostColumn;
    PlainField(EnrichHost(w, h).fields, field);
  }

  lemma ContainerColumnRead(w: World, c: Container, field: JsString, v: Value)
    requires IsContainerColumn(c, field, v)
    ensures GetField(EnrichContainer(w, c), field) == v
  {
    hide EnrichHostById;
    NamesDiffer();
    assert DOT !in field && field in EnrichContainer(w, c).fields && EnrichContainer(w, c).fields[field] == v;
    hide EnrichContainer, IsContainerColumn;
    PlainField(EnrichContainer(w, c).fields, field);
  }

  lemma ServiceColumnRead(w: World, s: Service, field: JsString, v: Value)
    requires IsServiceColumn(s, field, v)
    ensures GetField(EnrichService(w, s), field) == v
  {
    hide EnrichHostById, EnrichContainer;
    NamesDiffer();
    assert DOT !in field && field in EnrichService(w, s).fields && EnrichService(w, s).fields[field] == v;
    hide EnrichService, IsServiceColumn;
    PlainField(EnrichService(w, s).fields, field);
  }

  // ---- What one-condition policies flag ----

  lemma HostPolicyFlags(w: World, t: Table, now: int, p: Policy, h: Host, cond: Condition, v: Value)
    requires UniqueIds(w) && p in w.policies && p.enabled && p.target.TargetHost? && HasOnly(p, cond)
    requires h in w.hosts && IsHostColumn(h, cond.field, v)
    ensures Verdict(w.js, cond, v, Flagged(w, t, now, p, Asset(HostAsset, h.id)))
  {
    var c := HostCandidate(w, h);
    IsHostCandidate(w, h);
    HostColumnRead(w, h, cond.field, v);
    OneConditionFlags(w, t, now, p, c, cond, v);
  }

  lemma ContainerPolicyFlags(w: World, t: Table, now: int, p: Policy, x: Container, cond: Condition, v: Value)
    requires UniqueIds(w) && p in w.policies && p.enabled && p.target.TargetContainer? && HasOnly(p, cond)
    requires x in w.containers && IsContainerColumn(x, cond.field, v)
    ensures Verdict(w.js, cond, v, Flagged(w, t, now, p, Asset(ContainerAsset, x.id)))
  {
    var c := ContainerCandidate(w, x);
    IsContainerCandidate(w, x);
    ContainerColumnRead(w, x, cond.field, v);
    OneConditionFlags(w, t, now, p, c, cond, v);
  }

  lemma ServicePolicyFlags(w: World, t: Table, now: int, p: Policy, s: Service, cond: Condition, v: Value)
    requires UniqueIds(w) && p in w.policies && p.enabled && p.target.TargetService? && HasOnly(p, cond)
    requires s in w.services && IsServiceColumn(s, cond.field, v)
    ensures Verdict(w.js, cond, v, Flagged(w, t, now, p, Asset(ServiceAsset, s.id)))
  {
    var c := ServiceCandidate(w, s);
    IsServiceCandidate(w, s);
    ServiceColumnRead(w, s, cond.field, v);
    OneConditionFlags(w, t, now, p, c, cond, v);
  }

  lemma IsHostCandidate(w: World, h: Host)
    requires h in w.hosts
    ensures HostCandidate(w, h) in Candidates(w, TargetHost)
  {
    hide HostCandidate;
    var i :| 0 <= i < |w.hosts| && w.hosts[i] == h;
    assert Candidates(w, TargetHost)[i] == HostCandidate(w, h);
  }

  lemma IsContainerCandidate(w: World, c: Container)
    requires c in w.containers
    ensures ContainerCandidate(w, c) in Candidates(w, TargetContainer)
  {
    hide ContainerCandidate;
    var i :| 0 <= i < |w.containers| && w.containers[i] == c;
    assert Candidates(w, TargetContainer)[i] == ContainerCandidate(w, c);
  }

  lemma IsServiceCandidate(w: World, s: Service)
    requires s in w.services
    ensures ServiceCandidate(w, s) in Candidates(w, TargetService)
  {
    hide ServiceCandidate;
    var i :| 0 <= i < |w.services| && w.services[i] == s;
    assert Candidates(w, TargetService)[i] == ServiceCandidate(w, s);
  }

  ghost predicate IsSegmentColumn(s: Segment, field: JsString, v: Value) {
    || IsOtherColumn(s.columns, {Literal("id"), Literal("name")}, field, v)
    || (field == Literal("id") && v == Str(s.id))
    || (field == Literal("name") && v == Str(s.name))
  }

  // The column of the host's segment; undefined for a host without one.
  ghost predicate IsSegmentValue(w: World, h: Host, column: JsString, v: Value) {
    match SegmentOfHost(w, h)
    case None => v == Undefined
    case Some(s) => IsSegmentColumn(s, column, v)
  }

  // A condition on `network_segment.<column>` speaks of the host's segment,
  // and of undefined for a host without one.
  lemma SegmentPolicyFlags(w: World, t: Table, now: int, p: Policy, h: Host, column: JsString, cond: Condition,
                           v: Value)
    requires UniqueIds(w) && p in w.policies && p.enabled && p.target.TargetHost? && HasOnly(p, cond)
    requires h in w.hosts && cond.field == Literal("network_segment") + [DOT] + column
    requires IsSegmentValue(w, h, column, v)
    ensures Verdict(w.js, cond, v, Flagged(w, t, now, p, Asset(HostAsset, h.id)))
  {
    var c := HostCandidate(w, h);
    IsHostCandidate(w, h);
    SegmentColumnRead(w, h, column, v);
    hide EnrichHost, IsSegmentValue, GetField, Literal;
    OneConditionFlags(w, t, now, p, c, cond, v);
  }

  lemma SegmentColumnRead(w: World, h: Host, column: JsString, v: Value)
    requires IsSegmentValue(w, h, column, v)
    ensures GetField(EnrichHost(w, h), Literal("network_segment") + [DOT] + column) == v
    ensures !v.Arr? && !v.Obj?
  {
    var key := Literal("network_segment");
    SegmentValue(w, h, key);
    NestedPath(EnrichHost(w, h), key, column);
    hide EnrichHost, GetField;
    match SegmentOfHost(w, h)
    case None =>
    case Some(s) =>
      SegmentRowRead(s, column, v);
  }

  lemma SegmentValue(w: World, h: Host, key: JsString)
    requires key == Literal("network_segment")
    ensures GetField(EnrichHost(w, h), key)
         == match SegmentOfHost(w, h) case None => Null case Some(s) => Obj(SegmentRow(s))
  {
    var fields := EnrichHost(w, h).fields;
    assert DOT !in key && key in fields
      && fields[key] == match SegmentOfHost(w, h) case None => Null case Some(s) => Obj(SegmentRow(s));
    hide EnrichHost;
    PlainField(fields, key);
  }

  lemma SegmentRowRead(s: Segment, column: JsString, v: Value)
    requires IsSegmentColumn(s, column, v)
    ensures GetField(Obj(SegmentRow(s)), column) == v
  {
    PlainField(SegmentRow(s), column);
  }

  function SegmentOfHost(w: World, h: Host): Option<Segment> {
    if h.segmentId.Some? then SegmentById(w.segments, h.segmentId.value) else None
  }

  // The computed flag: set exactly if the host's segment holds a host of
  // another device class, anywhere in the inventory.
  lemma MixedSegmentPolicyFlags(w: World, t: Table, now: int, p: Policy, h: Host, cond: Condition)
    requires UniqueIds(w) && p in w.policies && p.enabled && p.target.TargetHost? && HasOnly(p, cond)
    requires h in w.hosts && cond == Condition(Literal("segment_has_mixed_device_classes"), Eq, Bool(true))
    ensures Flagged(w, t, now, p, Asset(HostAsset, h.id))
       <==> && h.segmentId.Some?
            && exists g :: g in w.hosts && g.segmentId == h.segmentId && g.deviceClass != h.deviceClass
  {
    var c := HostCandidate(w, h);
    var mixed := && h.segmentId.Some?
                 && exists g :: g in w.hosts && g.segmentId == h.segmentId && g.deviceClass != h.deviceClass;
    IsHostCandidate(w, h);
    MixedSegmentFlag(w, h);
    hide EnrichHost, Flagged, GetField, Literal;
    OneConditionFlags(w, t, now, p, c, cond, Bool(mixed));
  }

  // A condition on `host.<column>` of a service speaks of the host that owns it.
  lemma ServiceHostPolicyFlags(w: World, t: Table, now: int, p: Policy, s: Service, h: Host, column: JsString,
                               cond: Condition, v: Value)
    requires UniqueIds(w) && p in w.policies && p.enabled && p.target.TargetService? && HasOnly(p, cond)
    requires s in w.services && h in w.hosts && Owner(w, Asset(ServiceAsset, s.id)) == Some(h.id)
    requires cond.field == Literal("host") + [DOT] + column && IsHostColumn(h, column, v)
    ensures Verdict(w.js, cond, v, Flagged(w, t, now, p, Asset(ServiceAsset, s.id)))
  {
    var c := ServiceCandidate(w, s);
    IsServiceCandidate(w, s);
    SameHost(w, h);
    ServicePathsReachItsOwner(w, s, h.id, column);
    HostColumnRead(w, h, column, v);
    hide EnrichHost, EnrichService, GetField, Literal, Owner;
    OneConditionFlags(w, t, now, p, c, cond, v);
  }

  lemma SameHost(w: World, h: Host)
    requires UniqueIds(w) && h in w.hosts
    ensures HostById(w.hosts, h.id) == Some(h)
  {
  }

  // A condition on `container.<column>` speaks of the service's container.
  lemma ServiceContainerPolicyFlags(w: World, t: Table, now: int, p: Policy, s: Service, x: Container, column: JsString,
                                    cond: Condition, v: Value)
    requires UniqueIds(w) && p in w.policies && p.enabled && p.target.TargetService? && HasOnly(p, cond)
    requires s in w.services && x in w.containers && s.containerId == Some(x.id)
    requires cond.field == Literal("container") + [DOT] + column && IsContainerColumn(x, column, v)
    ensures Verdict(w.js, cond, v, Flagged(w, t, now, p, Asset(ServiceAsset, s.id)))
  {
    var c := ServiceCandidate(w, s);
    IsServiceCandidate(w, s);
    SameContainer(w, x);
    ServiceContainerRead(w, s, x, column, v);
    hide EnrichService, GetField, Literal, Owner;
    OneConditionFlags(w, t, now, p, c, cond, v);
  }

  lemma ServiceContainerRead(w: World, s: Service, x: Container, column: JsString, v: Value)
    requires s.containerId.Some? && ContainerById(w.containers, s.containerId.value) == Some(x)
    requires IsContainerColumn(x, column, v)
    ensures GetField(EnrichService(w, s), Literal("container") + [DOT] + column) == v
  {
    var key := Literal("container");
    ContainerValue(w, s, x, key);
    ContainerColumnRead(w, x, column, v);
    NestedPath(EnrichService(w, s), key, column);
    hide EnrichService, EnrichContainer, GetField, IsContainerColumn;
  }

  lemma ContainerValue(w: World, s: Service, x: Container, key: JsString)
    requires s.containerId.Some? && ContainerById(w.containers, s.containerId.value) == Some(x)
    requires key == Literal("container")
    ensures GetField(EnrichService(w, s), key) == EnrichContainer(w, x)
  {
    hide EnrichContainer, EnrichHostById;
    var fields := EnrichService(w, s).fields;
    assert DOT !in key && key in fields && fields[key] == EnrichContainer(w, x);
    hide EnrichService;
    PlainField(fields, key);
  }

  lemma SameContainer(w: World, x: Container)
    requires UniqueIds(w) && x in w.containers
    ensures ContainerById(w.containers, x.id) == Some(x)
  {
  }

  // The same for a container, whose host is in its own row.
  lemma ContainerHostPolicyFlags(w: World, t: Table, now: int, p: Policy, x: Container, h: Host, column: JsString,
                                 cond: Condition, v: Value)
    requires UniqueIds(w) && p in w.policies && p.enabled && p.target.TargetContainer? && HasOnly(p, cond)
    requires x in w.containers && h in w.hosts && x.hostId == Some(h.id)
    requires cond.field == Literal("host") + [DOT] + column && IsHostColumn(h, column, v)
    ensures Verdict(w.js, cond, v, Flagged(w, t, now, p, Asset(ContainerAsset, x.id)))
  {
    var c := ContainerCandidate(w, x);
    IsContainerCandidate(w, x);
    SameHost(w, h);
    ContainerHostRead(w, x, h, column, v);
    hide EnrichContainer, GetField, Literal;
    OneConditionFlags(w, t, now, p, c, cond, v);
  }

  lemma ContainerHostRead(w: World, x: Container, h: Host, column: JsString, v: Value)
    requires x.hostId.Some? && HostById(w.hosts, x.hostId.value) == Some(h) && IsHostColumn(h, column, v)
    ensures GetField(EnrichContainer(w, x), Literal("host") + [DOT] + column) == v
  {
    var key := Literal("host");
    HostValue(w, x, h, key);
    HostColumnRead(w, h, column, v);
    NestedPath(EnrichContainer(w, x), key, column);
    hide EnrichContainer, EnrichHost, GetField, IsHostColumn;
  }

  lemma HostValue(w: World, x: Container, h: Host, key: JsString)
    requires x.hostId.Some? && HostById(w.hosts, x.hostId.value) == Some(h) && key == Literal("host")
    ensures GetField(EnrichContainer(w, x), key) == EnrichHost(w, h)
  {
    hide EnrichHost;
    var fields := EnrichContainer(w, x).fields;
    assert DOT !in key && key in fields && fields[key] == EnrichHost(w, h);
    hide EnrichContainer;
    PlainField(fields, key);
  }

  // ---- Several conditions ----

  // The policy with one of its conditions only, alone in the inventory.
  function Narrowed(p: Policy, cond: Condition): Policy {
    p.(all := Some([cond]), any := None)
  }

  function WithOnly(w: World, p: Policy): World {
    w.(policies := [p])
  }

  // A policy flags an asset exactly if each of its `all` conditions on its own
  // would, and, when it lists `any` conditions, at least one of those would.
  lemma PoliciesCombine(w: World, t: Table, now: int, p: Policy, c: Candidate)
    requires UniqueIds(w) && IsCandidate(w, p, c)
    ensures Flagged(w, t, now, p, c.asset) <==>
      && (p.all.Some? ==> forall cond :: cond in p.all.value ==> FlaggedAlone(w, t, now, p, cond, c.asset))
      && (p.any.Some? && p.any.value != [] ==>
            exists cond :: cond in p.any.value && FlaggedAlone(w, t, now, p, cond, c.asset))
  {
    FlaggedMeans(w, t, now, p, c);
    forall cond ensures FlaggedAlone(w, t, now, p, cond, c.asset) <==> EvalCondition(w.js, c.enriched, cond) {
      AloneMeans(w, t, now, p, c, cond);
    }
    hide EvalCondition, FlaggedAlone, Flagged;
  }

  ghost predicate FlaggedAlone(w: World, t: Table, now: int, p: Policy, cond: Condition, asset: Asset) {
    Flagged(WithOnly(w, Narrowed(p, cond)), t, now, Narrowed(p, cond), asset)
  }

  lemma AloneMeans(w: World, t: Table, now: int, p: Policy, c: Candidate, cond: Condition)
    requires UniqueIds(w) && IsCandidate(w, p, c)
    ensures FlaggedAlone(w, t, now, p, cond, c.asset) <==> EvalCondition(w.js, c.enriched, cond)
  {
    var q := Narrowed(p, cond);
    var v := WithOnly(w, q);
    SameCandidates(w, v, p.target);
    hide EvalCondition, Candidates;
    assert q in v.policies && IsCandidate(v, q, c);
    FlaggedMeans(v, t, now, q, c);
    assert [cond][0] == cond;
    assert Satisfies(v, q, c) <==> EvalCondition(w.js, c.enriched, cond);
  }

  // Candidates do not depend on the policies.
  lemma SameCandidates(w: World, v: World, target: TargetKind)
    requires v == w.(policies := v.policies)
    ensures Candidates(v, target) == Candidates(w, target)
  {
    forall h ensures HostCandidate(v, h) == HostCandidate(w, h) {
    }
    forall c ensures ContainerCandidate(v, c) == ContainerCandidate(w, c) {
    }
    forall s ensures ServiceCandidate(v, s) == ServiceCandidate(w, s) {
    }
    hide HostCandidate, ContainerCandidate, ServiceCandidate;
  }

  // What an added row tells of its asset: a host's name; a container's name
  // and image; a service's name, port and address.
  ghost predicate TellsOf(w: World, asset: Asset, details: Value) {
    match asset.kind
    case HostAsset => exists h ::
      h in w.hosts && asset.id == h.id && GetField(details, Literal("hostname")) == Str(h.hostname)
    case ContainerAsset => exists c ::
      && c in w.containers && asset.id == c.id && GetField(details, Literal("name")) == Str(c.name)
      && GetField(details, Literal("image")) == Str(c.image)
    case ServiceAsset => exists s ::
      && s in w.services && asset.id == s.id && GetField(details, Literal("name")) == Str(s.name)
      && GetField(details, Literal("port")) == Num(s.port as real)
      && GetField(details, Literal("bind_address")) == Str(s.bindAddress)
    case NetworkAsset => false
  }

  lemma HostDetails(w: World, h: Host)
    requires h in w.hosts
    ensures TellsOf(w, HostCandidate(w, h).asset, HostCandidate(w, h).details)
  {
    hide EnrichHost;
    PlainField(HostCandidate(w, h).details.fields, Literal("hostname"));
  }

  lemma ContainerDetails(w: World, c: Container)
    requires c in w.containers
    ensures TellsOf(w, ContainerCandidate(w, c).asset, ContainerCandidate(w, c).details)
  {
    hide EnrichContainer;
    var fields := ContainerCandidate(w, c).details.fields;
    PlainField(fields, Literal("name"));
    PlainField(fields, Literal("image"));
  }

  lemma ServiceDetails(w: World, s: Service)
    requires s in w.services
    ensures TellsOf(w, ServiceCandidate(w, s).asset, ServiceCandidate(w, s).details)
  {
    hide EnrichService, Owner;
    NamesDiffer();
    var fields := ServiceCandidate(w, s).details.fields;
    PlainField(fields, Literal("name"));
    PlainField(fields, Literal("port"));
    PlainField(fields, Literal("bind_address"));
  }

  lemma CandidateDetails(w: World, target: TargetKind, c: Candidate)
    requires c in Candidates(w, target)
    ensures TellsOf(w, c.asset, c.details)
  {
    hide TellsOf, HostCandidate, ContainerCandidate, ServiceCandidate;
    match target
    case TargetHost =>
      var k :| 0 <= k < |w.hosts| && c == HostCandidate(w, w.hosts[k]);
      HostDetails(w, w.hosts[k]);
    case TargetContainer =>
      var k :| 0 <= k < |w.containers| && c == ContainerCandidate(w, w.containers[k]);
      ContainerDetails(w, w.containers[k]);
    case TargetService =>
      var k :| 0 <= k < |w.services| && c == ServiceCandidate(w, w.services[k]);
      ServiceDetails(w, w.services[k]);
  }

  lemma AddedRowTellsAsset(w: World, scope: Scope, t: Table, now: int, i: nat)
    requires |t| <= i < |Reconcile(w, scope, t, now)|
    ensures var v := Reconcile(w, scope, t, now)[i]; TellsOf(w, v.key.asset, v.details)
  {
    AddedRowsRecordTheirPolicy(w, scope, t, now, i);
    hide Candidates, Satisfies, TellsOf;
    var row := Reconcile(w, scope, t, now)[i];
    var p, c :| && p in w.policies && p.enabled && c in Candidates(w, p.target) && Satisfies(w, p, c)
                && row == Violation(Key(p.id, c.asset), p.severity, c.details, Open, now, None);
    CandidateDetails(w, p.target, c);
  }
}
