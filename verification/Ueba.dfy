// Behaviour baselines: each run compares every host's service ports with the
// ports stored by the previous run, reports deviations and stores the new ports.
module Ueba {
  import opened Options
  import opened Assets
  import opened Inventory

  datatype Baseline = Baseline(portSet: seq<int>, serviceCount: int)

  datatype Anomaly =
    | NewServicePort(host: Id, newPorts: seq<int>, baselinePorts: seq<int>, severity: Severity)
    | ServiceCountSpike(host: Id, previousCount: int, currentCount: int, severity: Severity)

  type Baselines = map<Id, Baseline>

  const SENSITIVE_NEW_PORTS: set<int> := {22, 3389, 5900, 502, 102, 4840, 47808}

  // ---- The ports of a host, ascending, each once ----

  function InsertPort(port: int, ports: seq<int>): seq<int> {
    if ports == [] then [port]
    else if port < ports[0] then [port] + ports
    else if port == ports[0] then ports
    else [ports[0]] + InsertPort(port, ports[1..])
  }

  function PortsOf(services: seq<Service>, host: Id): seq<int> {
    if services == [] then []
    else
      var front, s := services[..|services| - 1], services[|services| - 1];
      if s.hostId == Some(host) then InsertPort(s.port, PortsOf(front, host)) else PortsOf(front, host)
  }

  ghost predicate Ascending(ports: seq<int>) {
    forall i, j :: 0 <= i < j < |ports| ==> ports[i] < ports[j]
  }

  lemma {:induction false} InsertPortMeans(port: int, ports: seq<int>)
    requires Ascending(ports)
    ensures Ascending(InsertPort(port, ports))
    ensures forall x :: x in InsertPort(port, ports) <==> x == port || x in ports
  {
    if ports != [] {
      var first, rest := ports[0], InsertPort(port, ports[1..]);
      assert ports == [first] + ports[1..];
      InsertPortMeans(port, ports[1..]);
      if port < first {
        AscendingCons(port, ports);
      } else if port > first {
        AscendingCons(first, rest);
        assert InsertPort(port, ports) == [first] + rest;
        assert forall x :: x in [first] + rest <==> x == first || x in rest;
      }
    }
  }

  lemma AscendingCons(first: int, rest: seq<int>)
    requires Ascending(rest) && forall x :: x in rest ==> first < x
    ensures Ascending([first] + rest)
  {
    forall j | 0 <= j < |rest| ensures first < rest[j] {
      var x := rest[j];
      assert x in rest;
    }
  }

  lemma {:induction false} PortsOfMeans(services: seq<Service>, host: Id)
    ensures Ascending(PortsOf(services, host))
    ensures forall x :: x in PortsOf(services, host) <==> exists s ::
      s in services && s.hostId == Some(host) && s.port == x
  {
    if services != [] {
      var front, s := services[..|services| - 1], services[|services| - 1];
      assert services == front + [s];
      PortsOfMeans(front, host);
      InsertPortMeans(s.port, PortsOf(front, host));
    }
  }

  // ---- One host, one run ----

  function Without(ports: seq<int>, known: seq<int>): seq<int> {
    if ports == [] then []
    else Without(ports[..|ports| - 1], known) + if ports[|ports| - 1] in known then [] else [ports[|ports| - 1]]
  }

  function Deviations(host: Id, baseline: Option<Baseline>, ports: seq<int>): seq<Anomaly> {
    if baseline.None? then []
    else
      var b := baseline.value;
      var newPorts := Without(ports, b.portSet);
      var severity := if exists p :: p in newPorts && p in SENSITIVE_NEW_PORTS then High else Medium;
      var grew := |ports| - b.serviceCount;
      (if newPorts != [] then [NewServicePort(host, newPorts, b.portSet, severity)] else [])
        + (if b.serviceCount >= 2 && grew >= 2 && |ports| as real >= b.serviceCount as real * 1.5
           then [ServiceCountSpike(host, b.serviceCount, |ports|, Medium)] else [])
  }

  function StoredFor(baselines: Baselines, host: Id): Option<Baseline> {
    if host in baselines then Some(baselines[host]) else None
  }

  // ---- One run ----

  datatype Observed = Observed(hosts: seq<Id>, services: seq<Service>)

  // Deleting a host deletes its baseline with it.
  function Cascade(baselines: Baselines, hosts: seq<Id>): Baselines {
    map h | h in baselines && h in hosts :: baselines[h]
  }

  function BaselinesAfter(baselines: Baselines, hosts: seq<Id>, services: seq<Service>): Baselines {
    if hosts == [] then baselines
    else
      var host := hosts[|hosts| - 1];
      var ports := PortsOf(services, host);
      BaselinesAfter(baselines, hosts[..|hosts| - 1], services)[host := Baseline(ports, |ports|)]
  }

  function AnomaliesOf(baselines: Baselines, hosts: seq<Id>, services: seq<Service>): seq<Anomaly> {
    if hosts == [] then []
    else
      var front, host := hosts[..|hosts| - 1], hosts[|hosts| - 1];
      AnomaliesOf(baselines, front, services)
        + Deviations(host, StoredFor(BaselinesAfter(baselines, front, services), host), PortsOf(services, host))
  }

  lemma NoHosts(baselines: Baselines, services: seq<Service>)
    ensures AnomaliesOf(baselines, [], services) == [] && BaselinesAfter(baselines, [], services) == baselines
  {
  }

  lemma NextHost(baselines: Baselines, hosts: seq<Id>, services: seq<Service>, i: nat, next: nat)
    requires next == i + 1 <= |hosts|
    ensures var host, ports, stored := hosts[i], PortsOf(services, hosts[i]), BaselinesAfter(baselines, hosts[..i],
        services);
      && AnomaliesOf(baselines, hosts[..next], services)
           == AnomaliesOf(baselines, hosts[..i], services) + Deviations(host, StoredFor(stored, host), ports)
      && BaselinesAfter(baselines, hosts[..next], services) == stored[host := Baseline(ports, |ports|)]
  {
    assert hosts[..next][..i] == hosts[..i];
  }

  lemma FirstSighting(host: Id, ports: seq<int>)
    ensures Deviations(host, None, ports) == []
  {
  }

  class UebaEngine {
    var baselines: Baselines
    var recorded: seq<Anomaly>

    constructor ()
      ensures baselines == map[] && recorded == []
    {
      baselines, recorded := map[], [];
    }

    // The two checks of one host that has a baseline.
    static method CompareWithBaseline(host: Id, baseline: Baseline, currentPorts: seq<int>) returns (rows: seq<Anomaly>)
      ensures rows == Deviations(host, Some(baseline), currentPorts)
    {
      rows := [];
      var newPorts := Without(currentPorts, baseline.portSet);
      if |newPorts| > 0 {
        var sensitiveHit := exists p :: p in newPorts && p in SENSITIVE_NEW_PORTS;
        rows := rows + [NewServicePort(host, newPorts, baseline.portSet, if sensitiveHit then High else Medium)];
      }
      var grew := |currentPorts| - baseline.serviceCount;
      if baseline.serviceCount >= 2 && grew >= 2 && |currentPorts| as real >= baseline.serviceCount as real * 1.5 {
        rows := rows + [ServiceCountSpike(host, baseline.serviceCount, |currentPorts|, Medium)];
      }
    }

    method ComputeUebaAnomalies(hosts: seq<Id>, services: seq<Service>) returns (anomalies: seq<Anomaly>)
      modifies this
      ensures anomalies == AnomaliesOf(old(baselines), hosts, services)
      ensures baselines == BaselinesAfter(old(baselines), hosts, services)
      ensures recorded == old(recorded) + anomalies
    {
      var portsByHost := GroupPorts(services);
      hide PortsOf, Deviations, AnomaliesOf, BaselinesAfter;
      anomalies := [];
      ghost var stored, history := baselines, recorded;
      NoHosts(stored, services);
      for i := 0 to |hosts|
        invariant anomalies == AnomaliesOf(stored, hosts[..i], services)
        invariant baselines == BaselinesAfter(stored, hosts[..i], services)
        invariant recorded == history + anomalies
      {
        var host := hosts[i];
        NextHost(stored, hosts, services, i, i + 1);
        FirstSighting(host, PortsOf(services, host));
        var currentPorts := if host in portsByHost then portsByHost[host] else [];
        if host in baselines {
          var rows := CompareWithBaseline(host, baselines[host], currentPorts);
          recorded, anomalies := recorded + rows, anomalies + rows;
        }
        baselines := baselines[host := Baseline(currentPorts, |currentPorts|)];
      }
      assert hosts[..|hosts|] == hosts;
    }
  }

  method GroupPorts(services: seq<Service>) returns (portsByHost: map<Id, seq<int>>)
    ensures forall h :: (if h in portsByHost then portsByHost[h] else []) == PortsOf(services, h)
  {
    portsByHost := map[];
    for i := 0 to |services|
      invariant forall h :: (if h in portsByHost then portsByHost[h] else []) == PortsOf(services[..i], h)
    {
      assert services[..i + 1][..i] == services[..i];
      if services[i].hostId.Some? {
        var h := services[i].hostId.value;
        var ports := if h in portsByHost then portsByHost[h] else [];
        portsByHost := portsByHost[h := InsertPort(services[i].port, ports)];
      }
    }
    assert services[..|services|] == services;
  }

  // ---- Whole histories ----

  function Observe(baselines: Baselines, seen: Observed): Baselines {
    BaselinesAfter(Cascade(baselines, seen.hosts), seen.hosts, seen.services)
  }

  function Report(baselines: Baselines, seen: Observed): seq<Anomaly> {
    AnomaliesOf(Cascade(baselines, seen.hosts), seen.hosts, seen.services)
  }

  function BaselinesOver(history: seq<Observed>): Baselines {
    if history == [] then map[]
    else Observe(BaselinesOver(history[..|history| - 1]), history[|history| - 1])
  }

  ghost predicate DistinctHosts(seen: Observed) {
    forall i, j :: 0 <= i < j < |seen.hosts| ==> seen.hosts[i] != seen.hosts[j]
  }

  lemma {:induction false} BaselinesAfterMeans(baselines: Baselines, hosts: seq<Id>, services: seq<Service>, h: Id)
    ensures StoredFor(BaselinesAfter(baselines, hosts, services), h)
         == if h in hosts then Some(Baseline(PortsOf(services, h), |PortsOf(services, h)|)) else StoredFor(baselines, h)
  {
    if hosts != [] {
      var front, last := hosts[..|hosts| - 1], hosts[|hosts| - 1];
      assert hosts == front + [last];
      BaselinesAfterMeans(baselines, front, services, h);
    }
  }

  // After any history the stored baselines are those of the hosts of its last
  // run, with that run's ports: distinct, and as many as the stored count says.
  lemma BaselinesMirrorLastRun(history: seq<Observed>, h: Id)
    requires history != []
    ensures var last := history[|history| - 1];
      StoredFor(BaselinesOver(history), h)
        == if h in last.hosts then Some(Baseline(PortsOf(last.services, h), |PortsOf(last.services, h)|)) else None
    ensures h in BaselinesOver(history) ==>
      var stored := BaselinesOver(history)[h];
      Ascending(stored.portSet) && stored.serviceCount == |stored.portSet|
  {
    var last := history[|history| - 1];
    BaselinesAfterMeans(Cascade(BaselinesOver(history[..|history| - 1]), last.hosts), last.hosts, last.services, h);
    PortsOfMeans(last.services, h);
  }

  lemma {:induction false} AnomaliesComeFromDeviations(baselines: Baselines, hosts: seq<Id>, services: seq<Service>,
                                                       a: Anomaly)
    requires forall i, j :: 0 <= i < j < |hosts| ==> hosts[i] != hosts[j]
    ensures a in AnomaliesOf(baselines, hosts, services)
       <==> a.host in hosts && a in Deviations(a.host, StoredFor(baselines, a.host), PortsOf(services, a.host))
  {
    hide Deviations, PortsOf;
    if hosts != [] {
      var front, last := hosts[..|hosts| - 1], hosts[|hosts| - 1];
      assert hosts == front + [last];
      AnomaliesComeFromDeviations(baselines, front, services, a);
      BaselinesAfterMeans(baselines, front, services, last);
      DeviationsNameTheirHost(last, StoredFor(baselines, last), PortsOf(services, last), a);
    }
  }

  lemma DeviationsNameTheirHost(host: Id, baseline: Option<Baseline>, ports: seq<int>, a: Anomaly)
    ensures a in Deviations(host, baseline, ports) ==> a.host == host
  {
  }

  lemma {:induction false} WithoutMeans(ports: seq<int>, known: seq<int>)
    ensures forall x :: x in Without(ports, known) <==> x in ports && x !in known
    ensures Ascending(ports) ==> Ascending(Without(ports, known))
  {
    if ports != [] {
      var front, last := ports[..|ports| - 1], ports[|ports| - 1];
      assert ports == front + [last];
      WithoutMeans(front, known);
      if Ascending(ports) {
        var kept := Without(front, known);
        forall i | 0 <= i < |kept| ensures kept[i] < last {
          assert kept[i] in kept;
        }
      }
    }
  }

  lemma NewPortDeviation(stored: Option<Baseline>, ports: seq<int>, a: Anomaly)
    requires a.NewServicePort?
    ensures a in Deviations(a.host, stored, ports)
       <==> && stored.Some? && a.newPorts == Without(ports, stored.value.portSet) != []
            && a.baselinePorts == stored.value.portSet
            && a.severity == if exists p :: p in a.newPorts && p in {22, 3389, 5900, 502, 102, 4840, 47808}
                             then High else Medium
  {
    hide Without;
  }

  // The run that follows a non-empty history reports a host's new ports
  // exactly when the host was there in the last run and a port was not, and
  // then lists precisely those ports; a first sighting reports nothing.
  lemma NewPortsReported(history: seq<Observed>, seen: Observed, a: Anomaly)
    requires history != [] && DistinctHosts(seen) && a.NewServicePort?
    ensures var last := history[|history| - 1];
      var before, now := PortsOf(last.services, a.host), PortsOf(seen.services, a.host);
      (a in Report(BaselinesOver(history), seen))
        <==> && a.host in last.hosts && a.host in seen.hosts
             && a.newPorts == Without(now, before) != [] && a.baselinePorts == before
             && a.severity == if exists p :: p in a.newPorts && p in {22, 3389, 5900, 502, 102, 4840, 47808}
                              then High else Medium
  {
    hide PortsOf, Without, BaselinesOver, AnomaliesOf, Deviations;
    var last := history[|history| - 1];
    var stored := Cascade(BaselinesOver(history), seen.hosts);
    AnomaliesComeFromDeviations(stored, seen.hosts, seen.services, a);
    BaselinesMirrorLastRun(history, a.host);
    NewPortDeviation(StoredFor(stored, a.host), PortsOf(seen.services, a.host), a);
    assert a.host in seen.hosts ==> StoredFor(stored, a.host) == StoredFor(BaselinesOver(history), a.host);
  }

  // No anomaly of either kind without a previous sighting, and none when
  // nothing changed.
  lemma NothingToReport(history: seq<Observed>, seen: Observed, h: Id)
    requires DistinctHosts(seen)
    requires history == [] || h !in history[|history| - 1].hosts
      || PortsOf(history[|history| - 1].services, h) == PortsOf(seen.services, h)
    ensures forall a :: a in Report(BaselinesOver(history), seen) ==> a.host != h
  {
    hide PortsOf, BaselinesOver, AnomaliesOf, Deviations;
    var stored := Cascade(BaselinesOver(history), seen.hosts);
    NothingStored();
    if history != [] {
      BaselinesMirrorLastRun(history, h);
    }
    FirstSighting(h, PortsOf(seen.services, h));
    UnchangedPorts(h, PortsOf(seen.services, h));
    forall a | a in Report(BaselinesOver(history), seen) ensures a.host != h {
      AnomaliesComeFromDeviations(stored, seen.hosts, seen.services, a);
    }
  }

  lemma NothingStored()
    ensures BaselinesOver([]) == map[]
  {
  }

  lemma UnchangedPorts(host: Id, ports: seq<int>)
    ensures Deviations(host, Some(Baseline(ports, |ports|)), ports) == []
  {
    NothingWithoutItself(ports);
  }

  lemma NothingWithoutItself(ports: seq<int>)
    ensures Without(ports, ports) == []
  {
    WithoutMeans(ports, ports);
    if Without(ports, ports) != [] {
      SomeMember(Without(ports, ports));
    }
  }

  lemma SomeMember(ports: seq<int>)
    requires ports != []
    ensures exists x :: x in ports
  {
    var x := ports[0];
    assert x in ports;
  }

  // A longer list of distinct ports has one the shorter list lacks.
  lemma {:induction false} MoreDistinctPorts(ports: seq<int>, known: seq<int>)
    requires Ascending(ports) && |ports| > |known|
    ensures Without(ports, known) != []
  {
    WithoutMeans(ports, known);
    if Without(ports, known) == [] {
      var all, limited := set p | p in ports, set p | p in known;
      assert forall p :: p in ports ==> p in known;
      AscendingSize(ports);
      AtMostLength(known);
      Subset(all, limited);
    }
  }

  lemma {:induction false} AscendingSize(ports: seq<int>)
    requires Ascending(ports)
    ensures |set p | p in ports| == |ports|
  {
    if ports != [] {
      var front, last := ports[..|ports| - 1], ports[|ports| - 1];
      AscendingSize(front);
      assert ports == front + [last];
      assert (set p | p in ports) == (set p | p in front) + {last};
    }
  }

  lemma {:induction false} AtMostLength(known: seq<int>)
    ensures |set p | p in known| <= |known|
  {
    if known != [] {
      var front, last := known[..|known| - 1], known[|known| - 1];
      AtMostLength(front);
      assert known == front + [last];
      assert (set p | p in known) == (set p | p in front) + {last};
    }
  }

  lemma Subset(a: set<int>, b: set<int>)
    requires a <= b
    ensures |a| <= |b|
  {
    assert |b| == |a| + |b - a| by {
      assert a + (b - a) == b;
    }
  }

  // Every spike comes with new ports of the same host in the same run,
  // because the stored count is the size of the stored port set.
  lemma SpikeComesWithNewPorts(history: seq<Observed>, seen: Observed, a: Anomaly) returns (b: Anomaly)
    requires DistinctHosts(seen) && a in Report(BaselinesOver(history), seen) && a.ServiceCountSpike?
    ensures b in Report(BaselinesOver(history), seen) && b.NewServicePort? && b.host == a.host
    ensures |b.newPorts| > 0
    ensures a.currentCount == |PortsOf(seen.services, a.host)| && a.currentCount >= a.previousCount + 2
  {
    var stored := Cascade(BaselinesOver(history), seen.hosts);
    AnomaliesComeFromDeviations(stored, seen.hosts, seen.services, a);
    assert history != [];
    BaselinesMirrorLastRun(history, a.host);
    var ports := PortsOf(seen.services, a.host);
    var known := stored[a.host].portSet;
    PortsOfMeans(seen.services, a.host);
    MoreDistinctPorts(ports, known);
    b := Deviations(a.host, StoredFor(stored, a.host), ports)[0];
    AnomaliesComeFromDeviations(stored, seen.hosts, seen.services, b);
  }

  // And a spike is reported exactly when a host seen twice grew from at least
  // two ports by at least two and by at least half.
  lemma SpikeReported(history: seq<Observed>, seen: Observed, a: Anomaly)
    requires history != [] && DistinctHosts(seen) && a.ServiceCountSpike?
    ensures var last := history[|history| - 1];
      var before, now := |PortsOf(last.services, a.host)|, |PortsOf(seen.services, a.host)|;
      (a in Report(BaselinesOver(history), seen))
        <==> && a.host in last.hosts && a.host in seen.hosts
             && a == ServiceCountSpike(a.host, before, now, Medium)
             && before >= 2 && now >= before + 2 && 2 * now >= 3 * before
  {
    hide PortsOf, Without, BaselinesOver, AnomaliesOf;
    var last := history[|history| - 1];
    var stored := Cascade(BaselinesOver(history), seen.hosts);
    AnomaliesComeFromDeviations(stored, seen.hosts, seen.services, a);
    BaselinesMirrorLastRun(history, a.host);
    assert a.host in seen.hosts ==> StoredFor(stored, a.host) == StoredFor(BaselinesOver(history), a.host);
  }
}
