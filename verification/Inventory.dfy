// The inventory tables, one datatype per row type. `columns` holds the
// columns no engine reads by name; nullable foreign keys are options, as the
// schema declares them.
module Inventory {
  import opened Options
  import opened JsText
  import opened Assets

  // A JSON or SQL value as the policy language sees it.
  datatype Value =
    | Undefined
    | Null
    | Bool(b: bool)
    | Num(n: real)
    | Str(s: JsString)
    | Arr(items: seq<Value>)
    | Obj(fields: map<JsString, Value>)

  datatype Segment = Segment(id: Id, name: JsString, columns: map<JsString, Value>)

  datatype Host = Host(id: Id, hostname: JsString, segmentId: Option<Id>, criticality: Severity,
                       deviceClass: JsString, columns: map<JsString, Value>)

  datatype Container = Container(id: Id, hostId: Option<Id>, name: JsString, image: JsString,
                                 privileged: bool, columns: map<JsString, Value>)

  datatype Service = Service(id: Id, hostId: Option<Id>, containerId: Option<Id>, name: JsString, port: int,
                             bindAddress: JsString, exposedPublicly: bool, columns: map<JsString, Value>)

  // `new Map(rows.map(r => [r.id, r])).get(id)`: the last row with that id.

  function HostById(hosts: seq<Host>, id: Id): (r: Option<Host>)
    ensures r.Some? ==> r.value in hosts && r.value.id == id
    ensures r.None? ==> forall h :: h in hosts ==> h.id != id
  {
    if hosts == [] then None
    else if hosts[|hosts| - 1].id == id then Some(hosts[|hosts| - 1])
    else HostById(hosts[..|hosts| - 1], id)
  }

  function ContainerById(containers: seq<Container>, id: Id): (r: Option<Container>)
    ensures r.Some? ==> r.value in containers && r.value.id == id
    ensures r.None? ==> forall c :: c in containers ==> c.id != id
  {
    if containers == [] then None
    else if containers[|containers| - 1].id == id then Some(containers[|containers| - 1])
    else ContainerById(containers[..|containers| - 1], id)
  }

  function ServiceById(services: seq<Service>, id: Id): (r: Option<Service>)
    ensures r.Some? ==> r.value in services && r.value.id == id
    ensures r.None? ==> forall s :: s in services ==> s.id != id
  {
    if services == [] then None
    else if services[|services| - 1].id == id then Some(services[|services| - 1])
    else ServiceById(services[..|services| - 1], id)
  }

  function SegmentById(segments: seq<Segment>, id: Id): (r: Option<Segment>)
    ensures r.Some? ==> r.value in segments && r.value.id == id
    ensures r.None? ==> forall s :: s in segments ==> s.id != id
  {
    if segments == [] then None
    else if segments[|segments| - 1].id == id then Some(segments[|segments| - 1])
    else SegmentById(segments[..|segments| - 1], id)
  }
}
