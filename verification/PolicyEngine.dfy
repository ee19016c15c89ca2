// Policy evaluation: which (policy, asset) pairs are violated now, and the
// reconciliation of the violations table with them, for the whole inventory
// or for the assets of a given set of hosts.
module PolicyEngine {
  import opened Options
  import opened JsText
  import opened Assets
  import opened Inventory
  import opened PolicyLanguage

  datatype TargetKind = TargetHost | TargetContainer | TargetService | TargetOther

  datatype Policy = Policy(id: Id, severity: Severity, target: TargetKind, all: Option<seq<Condition>>,
                           any: Option<seq<Condition>>, enabled: bool)

  datatype World = World(policies: seq<Policy>, segments: seq<Segment>, hosts: seq<Host>,
                         containers: seq<Container>, services: seq<Service>, js: Coercions)

  // ---- Enrichment: an asset with its host and segment, from the whole inventory ----

  function DeviceClasses(hosts: seq<Host>, segment: Id): set<JsString> {
    set h | h in hosts && h.segmentId == Some(segment) :: h.deviceClass
  }

  // The map of `buildEvaluationContext`, filled host by host.
  method GroupDeviceClasses(hosts: seq<Host>) returns (deviceClassesBySegment: map<Id, set<JsString>>)
    ensures forall s ::
      (if s in deviceClassesBySegment then deviceClassesBySegment[s] else {}) == DeviceClasses(hosts, s)
  {
    deviceClassesBySegment := map[];
    for i := 0 to |hosts|
      invariant forall s ::
        (if s in deviceClassesBySegment then deviceClassesBySegment[s] else {}) == DeviceClasses(hosts[..i], s)
    {
      var host := hosts[i];
      assert hosts[..i + 1] == hosts[..i] + [host];
      if host.segmentId.Some? {
        var key := host.segmentId.value;
        var classes := if key in deviceClassesBySegment then deviceClassesBySegment[key] else {};
        deviceClassesBySegment := deviceClassesBySegment[key := classes + {host.deviceClass}];
      }
    }
    assert hosts[..|hosts|] == hosts;
  }

  function OrNull(id: Option<Id>): Value {
    if id.Some? then Str(id.value) else Null
  }

  function SeverityName(s: Severity): JsString {
    match s
    case Low => Literal("low")
    case Medium => Literal("medium")
    case High => Literal("high")
    case Critical => Literal("critical")
  }

  function HostRow(h: Host): map<JsString, Value> {
    h.columns[Literal("id") := Str(h.id)][Literal("hostname") := Str(h.hostname)]
      [Literal("network_segment_id") := OrNull(h.segmentId)][Literal("device_class") := Str(h.deviceClass)]
      [Literal("criticality") := Str(SeverityName(h.criticality))]
  }

  function SegmentRow(s: Segment): map<JsString, Value> {
    s.columns[Literal("id") := Str(s.id)][Literal("name") := Str(s.name)]
  }

  function EnrichHost(w: World, h: Host): Value {
    var segment := if h.segmentId.Some? then SegmentById(w.segments, h.segmentId.value) else None;
    var segmentValue := if segment.Some?
      then Obj(SegmentRow(segment.value)) else Null;
    var mixed := h.segmentId.Some? && |DeviceClasses(w.hosts, h.segmentId.value)| > 1;
    Obj(HostRow(h)[Literal("network_segment") := segmentValue]
      [Literal("segment_has_mixed_device_classes") := Bool(mixed)])
  }

  function EnrichHostById(w: World, id: Option<Id>): Value {
    if id.Some? && HostById(w.hosts, id.value).Some? then EnrichHost(w, HostById(w.hosts, id.value).value) else Null
  }

  function ContainerRow(c: Container): map<JsString, Value> {
    c.columns[Literal("id") := Str(c.id)][Literal("host_id") := OrNull(c.hostId)][Literal("name") := Str(c.name)]
      [Literal("image") := Str(c.image)][Literal("privileged") := Bool(c.privileged)]
  }

  function EnrichContainer(w: World, c: Container): Value {
    Obj(ContainerRow(c)[Literal("host") := EnrichHostById(w, c.hostId)])
  }

  function ServiceRow(s: Service): map<JsString, Value> {
    s.columns[Literal("id") := Str(s.id)][Literal("host_id") := OrNull(s.hostId)]
      [Literal("container_id") := OrNull(s.containerId)][Literal("name") := Str(s.name)]
      [Literal("port") := Num(s.port as real)]
      [Literal("bind_address") := Str(s.bindAddress)][Literal("exposed_publicly") := Bool(s.exposedPublicly)]
  }

  function EnrichService(w: World, s: Service): Value {
    var container := if s.containerId.Some? then ContainerById(w.containers, s.containerId.value) else None;
    var own := EnrichHostById(w, s.hostId);
    var host := if own == Null && container.Some? then EnrichHostById(w, container.value.hostId) else own;
    Obj(ServiceRow(s)[Literal("host") := host]
      [Literal("container") := if container.Some? then EnrichContainer(w, container.value) else Null])
  }

  // ---- Scope ----

  // The host an asset belongs to: a host is its own owner, a service goes
  // with its host or, lacking one, with its container's.
  function Owner(w: World, asset: Asset): Option<Id> {
    match asset.kind
    case HostAsset => Some(asset.id)
    case ContainerAsset => ContainerHost(w, asset.id)
    case ServiceAsset =>
      var s := ServiceById(w.services, asset.id);
      if s.None? then None
      else if s.value.hostId.Some? then s.value.hostId
      else if s.value.containerId.Some? then ContainerHost(w, s.value.containerId.value)
      else None
    case NetworkAsset => None
  }

  function ContainerHost(w: World, id: Id): Option<Id> {
    var c := ContainerById(w.containers, id);
    if c.Some? then c.value.hostId else None
  }

  type Scope = Option<set<Id>>

  predicate OwnedBy(owner: Option<Id>, scope: Scope) {
    scope.None? || (owner.Some? && owner.value in scope.value)
  }

  predicate InScope(w: World, scope: Scope, asset: Asset) {
    OwnedBy(Owner(w, asset), scope)
  }

  // ---- Detection ----

  datatype Key = Key(policy: Id, asset: Asset)

  datatype Detection = Detection(key: Key, severity: Severity, details: Value)

  // An asset as evaluation meets it: whose it is, its enriched form, and what
  // a violation row would record about it.
  datatype Candidate = Candidate(asset: Asset, owner: Option<Id>, enriched: Value, details: Value)

  function HostCandidate(w: World, h: Host): Candidate {
    Candidate(Asset(HostAsset, h.id), Some(h.id), EnrichHost(w, h), Obj(map[Literal("hostname") := Str(h.hostname)]))
  }

  function ContainerCandidate(w: World, c: Container): Candidate {
    Candidate(Asset(ContainerAsset, c.id), c.hostId, EnrichContainer(w, c),
              Obj(map[Literal("name") := Str(c.name), Literal("image") := Str(c.image)]))
  }

  function ServiceCandidate(w: World, s: Service): Candidate {
    Candidate(Asset(ServiceAsset, s.id), Owner(w, Asset(ServiceAsset, s.id)), EnrichService(w, s),
              Obj(map[Literal("name") := Str(s.name), Literal("port") := Num(s.port as real),
                      Literal("bind_address") := Str(s.bindAddress)]))
  }

  function Candidates(w: World, target: TargetKind): seq<Candidate> {
    match target
    case TargetHost => seq(|w.hosts|, i requires 0 <= i < |w.hosts| => HostCandidate(w, w.hosts[i]))
    case TargetContainer =>
      seq(|w.containers|, i requires 0 <= i < |w.containers| => ContainerCandidate(w, w.containers[i]))
    case TargetService => seq(|w.services|, i requires 0 <= i < |w.services| => ServiceCandidate(w, w.services[i]))
    case TargetOther => []
  }

  predicate Satisfies(w: World, p: Policy, c: Candidate) {
    Matches(w.js, c.enriched, p.all, p.any)
  }

  function DetectAmong(w: World, p: Policy, scope: Scope, candidates: seq<Candidate>): seq<Detection> {
    if candidates == [] then []
    else
      var c := candidates[|candidates| - 1];
      DetectAmong(w, p, scope, candidates[..|candidates| - 1])
        + if OwnedBy(c.owner, scope) && Satisfies(w, p, c)
          then [Detection(Key(p.id, c.asset), p.severity, c.details)] else []
  }

  function DetectBy(w: World, scope: Scope, policies: seq<Policy>): seq<Detection> {
    if policies == [] then []
    else
      var p := policies[|policies| - 1];
      DetectBy(w, scope, policies[..|policies| - 1])
        + if p.enabled then DetectAmong(w, p, scope, Candidates(w, p.target)) else []
  }

  function Detect(w: World, scope: Scope): seq<Detection> {
    DetectBy(w, scope, w.policies)
  }

  // What it means, scope aside, that some enabled policy rejects an asset.
  ghost predicate Violates(w: World, key: Key) {
    exists p, c :: p in w.policies && p.enabled && c in Candidates(w, p.target) && key == Key(p.id,
        c.asset) && Satisfies(w, p, c)
  }

  // Primary keys.
  ghost predicate UniqueIds(w: World) {
    && (forall i, j :: 0 <= i < j < |w.policies| ==> w.policies[i].id != w.policies[j].id)
    && (forall i, j :: 0 <= i < j < |w.hosts| ==> w.hosts[i].id != w.hosts[j].id)
    && (forall i, j :: 0 <= i < j < |w.containers| ==> w.containers[i].id != w.containers[j].id)
    && (forall i, j :: 0 <= i < j < |w.services| ==> w.services[i].id != w.services[j].id)
  }

  // ---- What detection finds ----

  ghost predicate Detected(ds: seq<Detection>, key: Key) {
    exists d :: d in ds && d.key == key
  }

  lemma DetectedConcat(a: seq<Detection>, b: seq<Detection>, key: Key)
    ensures Detected(a + b, key) <==> Detected(a, key) || Detected(b, key)
  {
    if Detected(a, key) {
      var d :| d in a && d.key == key;
      assert d in a + b;
    }
    if Detected(b, key) {
      var d :| d in b && d.key == key;
      assert d in a + b;
    }
  }

  ghost predicate Hit(w: World, p: Policy, scope: Scope, c: Candidate, key: Key) {
    OwnedBy(c.owner, scope) && Satisfies(w, p, c) && key == Key(p.id, c.asset)
  }

  lemma {:induction false} DetectAmongMeans(w: World, p: Policy, scope: Scope, candidates: seq<Candidate>, key: Key)
    ensures Detected(DetectAmong(w, p, scope, candidates), key)
       <==> exists c :: c in candidates && Hit(w, p, scope, c, key)
  {
    hide Satisfies, OwnedBy;
    if candidates != [] {
      var front, last := candidates[..|candidates| - 1], candidates[|candidates| - 1];
      assert candidates == front + [last];
      DetectAmongMeans(w, p, scope, front, key);
      var found := if OwnedBy(last.owner, scope) && Satisfies(w, p, last)
        then [Detection(Key(p.id, last.asset), p.severity, last.details)] else [];
      assert Detected(found, key) <==> Hit(w, p, scope, last, key) by {
        if Hit(w, p, scope, last, key) {
          assert found[0] in found;
        }
      }
      DetectedConcat(DetectAmong(w, p, scope, front), found, key);
      assert forall c :: c in candidates <==> c in front || c == last;
    }
  }

  lemma {:induction false} DetectByMeans(w: World, scope: Scope, policies: seq<Policy>, key: Key)
    ensures Detected(DetectBy(w, scope, policies), key)
       <==> exists p, c :: p in policies && p.enabled && c in Candidates(w, p.target) && Hit(w, p, scope, c, key)
  {
    hide Candidates, Hit;
    if policies != [] {
      var front, last := policies[..|policies| - 1], policies[|policies| - 1];
      assert policies == front + [last];
      DetectByMeans(w, scope, front, key);
      DetectAmongMeans(w, last, scope, Candidates(w, last.target), key);
      var back := if last.enabled then DetectAmong(w, last, scope, Candidates(w, last.target)) else [];
      DetectedConcat(DetectBy(w, scope, front), back, key);
    }
  }

  // A candidate's owner, taken from its own row, is the owner looked up by id.
  lemma CandidateOwner(w: World, target: TargetKind, c: Candidate)
    requires UniqueIds(w) && c in Candidates(w, target)
    ensures c.owner == Owner(w, c.asset)
  {
    if target.TargetContainer? {
      var i :| 0 <= i < |w.containers| && c == ContainerCandidate(w, w.containers[i]);
      var found := ContainerById(w.containers, w.containers[i].id);
      assert found.Some?;
      var j :| 0 <= j < |w.containers| && w.containers[j] == found.value;
      assert i == j;
    }
  }

  // A scoped run detects exactly the violated pairs whose asset is in scope;
  // what counts as violated does not depend on the scope.
  lemma DetectMeans(w: World, scope: Scope, key: Key)
    requires scope.None? || UniqueIds(w)
    ensures Detected(Detect(w, scope), key) <==> Violates(w, key) && InScope(w, scope, key.asset)
  {
    hide Candidates, Satisfies, Owner, UniqueIds;
    DetectByMeans(w, scope, w.policies, key);
    if Detected(Detect(w, scope), key) {
      var p, c :| p in w.policies && p.enabled && c in Candidates(w, p.target) && Hit(w, p, scope, c, key);
      if scope.Some? {
        CandidateOwner(w, p.target, c);
      }
    }
    if Violates(w, key) && InScope(w, scope, key.asset) {
      var p, c :| p in w.policies && p.enabled && c in Candidates(w, p.target) && key == Key(p.id,
          c.asset) && Satisfies(w, p, c);
      if scope.Some? {
        CandidateOwner(w, p.target, c);
      }
      assert Hit(w, p, scope, c, key);
    }
  }

  // ---- No pair is detected twice ----

  ghost predicate DistinctKeys(ds: seq<Detection>) {
    forall i, j :: 0 <= i < j < |ds| ==> ds[i].key != ds[j].key
  }

  ghost predicate DistinctAssets(candidates: seq<Candidate>) {
    forall i, j :: 0 <= i < j < |candidates| ==> candidates[i].asset != candidates[j].asset
  }

  lemma {:induction false} DetectAmongDistinct(w: World, p: Policy, scope: Scope, candidates: seq<Candidate>)
    requires DistinctAssets(candidates)
    ensures DistinctKeys(DetectAmong(w, p, scope, candidates))
    ensures forall d :: d in DetectAmong(w, p, scope, candidates) ==>
      d.key.policy == p.id && exists i :: 0 <= i < |candidates| && candidates[i].asset == d.key.asset
  {
    hide Satisfies, OwnedBy;
    if candidates != [] {
      var n := |candidates| - 1;
      DetectAmongDistinct(w, p, scope, candidates[..n]);
    }
  }

  lemma CandidatesDistinct(w: World, target: TargetKind)
    requires UniqueIds(w)
    ensures DistinctAssets(Candidates(w, target))
  {
  }

  lemma {:induction false} DetectByDistinct(w: World, scope: Scope, policies: seq<Policy>)
    requires UniqueIds(w) && forall i, j :: 0 <= i < j < |policies| ==> policies[i].id != policies[j].id
    ensures DistinctKeys(DetectBy(w, scope, policies))
    ensures forall d :: d in DetectBy(w, scope, policies) ==>
      exists i :: 0 <= i < |policies| && policies[i].id == d.key.policy
  {
    if policies != [] {
      hide Candidates, UniqueIds, DetectAmong, DistinctAssets;
      var n := |policies| - 1;
      var last := policies[n];
      var front := DetectBy(w, scope, policies[..n]);
      var back := if last.enabled then DetectAmong(w, last, scope, Candidates(w, last.target)) else [];
      DetectByDistinct(w, scope, policies[..n]);
      CandidatesDistinct(w, last.target);
      DetectAmongDistinct(w, last, scope, Candidates(w, last.target));
      assert DetectBy(w, scope, policies) == front + back;
      hide DetectBy, DistinctKeys;
      assert forall d :: d in front ==> d.key.policy != last.id;
      assert forall d :: d in back ==> d.key.policy == last.id;
      KeysApart(front, back, last.id);
    }
  }

  lemma KeysApart(front: seq<Detection>, back: seq<Detection>, policy: Id)
    requires DistinctKeys(front) && DistinctKeys(back)
    requires forall d :: d in front ==> d.key.policy != policy
    requires forall d :: d in back ==> d.key.policy == policy
    ensures DistinctKeys(front + back)
  {
    var all := front + back;
    forall i, j | 0 <= i < j < |all| ensures all[i].key != all[j].key {
      if i < |front| <= j {
        assert all[i] in front && all[j] in back;
      }
    }
  }

  // ---- What policies can see of an asset's surroundings ----

  lemma PlainField(fields: map<JsString, Value>, key: JsString)
    requires DOT !in key && key in fields
    ensures GetField(Obj(fields), key) == fields[key]
  {
    SplitWithoutSeparator(key, DOT);
    assert Walk(Obj(fields), [key]) == Walk(fields[key], []);
  }

  // The flag says that the host's segment holds a host of another device
  // class, anywhere in the inventory.
  lemma MixedSegmentFlag(w: World, h: Host)
    requires h in w.hosts
    ensures GetField(EnrichHost(w, h), Literal("segment_has_mixed_device_classes"))
         == Bool(&& h.segmentId.Some?
                 && exists g :: g in w.hosts && g.segmentId == h.segmentId && g.deviceClass != h.deviceClass)
  {
    var key := MixedKey();
    var flag := h.segmentId.Some? && |DeviceClasses(w.hosts, h.segmentId.value)| > 1;
    assert EnrichHost(w, h).fields[key] == Bool(flag);
    if h.segmentId.Some? {
      SeveralClasses(w.hosts, h, h.segmentId.value);
    }
    hide EnrichHost, DeviceClasses;
    PlainField(EnrichHost(w, h).fields, key);
  }

  lemma MixedKey() returns (key: JsString)
    ensures key == Literal("segment_has_mixed_device_classes") && DOT !in key
  {
    key := Literal("segment_has_mixed_device_classes");
  }

  lemma SeveralClasses(hosts: seq<Host>, h: Host, segment: Id)
    requires h in hosts && h.segmentId == Some(segment)
    ensures |DeviceClasses(hosts, segment)| > 1
       <==> exists g :: g in hosts && g.segmentId == Some(segment) && g.deviceClass != h.deviceClass
  {
    var classes := DeviceClasses(hosts, segment);
    assert h.deviceClass in classes;
    MoreThanOne(classes, h.deviceClass);
    if y :| y in classes && y != h.deviceClass {
      var g :| g in hosts && g.segmentId == Some(segment) && g.deviceClass == y;
    }
    if g :| g in hosts && g.segmentId == Some(segment) && g.deviceClass != h.deviceClass {
      assert g.deviceClass in classes;
    }
  }

  lemma MoreThanOne(s: set<JsString>, x: JsString)
    requires x in s
    ensures |s| > 1 <==> exists y :: y in s && y != x
  {
    assert s == {x} + (s - {x});
    if |s| > 1 {
      assert s - {x} != {};
      var y :| y in s - {x};
    }
  }

  // A dotted path through `host` reads the enriched form of the very host
  // that owns the service, so matching and scoping speak of the same host.
  lemma ServicePathsReachItsOwner(w: World, s: Service, owner: Id, path: JsString)
    requires UniqueIds(w) && s in w.services
    requires Owner(w, Asset(ServiceAsset, s.id)) == Some(owner) && HostById(w.hosts, owner).Some?
    ensures GetField(EnrichService(w, s), Literal("host") + [DOT] + path)
         == GetField(EnrichHost(w, HostById(w.hosts, owner).value), path)
  {
    assert ServiceById(w.services, s.id) == Some(s);
    var key := Literal("host");
    hide EnrichHost, ServiceRow, EnrichContainer, UniqueIds;
    assert key in EnrichService(w, s).fields;
    assert EnrichService(w, s).fields[key] == EnrichHost(w, HostById(w.hosts, owner).value);
    PlainField(EnrichService(w, s).fields, key);
    NestedPath(EnrichService(w, s), key, path);
  }
}
