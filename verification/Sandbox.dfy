// The attack sandbox: a chain of hop probabilities with a cut-off, and the
// campaign that aggregates one simulation per attack path.
module Sandbox {
  import opened Options
  import opened Assets
  import opened AttackGraph
  import opened RealArithmetic

  const DEFAULT_HOP_PROBABILITY := 0.55
  const MIN_CHAIN_PROBABILITY := 0.03

  // What is on record about one service: the exploitability (0 to 10) of the
  // rule it matches, the severities of its threat-intel matches, and whether
  // an ICS write-risk snapshot exists.
  datatype Signals = Signals(exploitability: Option<real>, tiSeverities: seq<Severity>, icsWriteRisk: bool)

  type Recorded = map<Id, Signals>

  ghost predicate IsRecord(recorded: Recorded) {
    forall id :: id in recorded && recorded[id].exploitability.Some? ==>
      0.0 <= recorded[id].exploitability.value <= 10.0
  }

  // ---- One hop ----

  // `ORDER BY severity DESC` compares the severity names as text.
  function TextRank(s: Severity): nat {
    match s
    case Critical => 0
    case High => 1
    case Low => 2
    case Medium => 3
  }

  function LastInText(severities: seq<Severity>): Severity
    requires severities != []
  {
    if |severities| == 1 then severities[0]
    else
      var rest := LastInText(severities[1..]);
      if TextRank(severities[0]) >= TextRank(rest) then severities[0] else rest
  }

  function TiProbability(s: Severity): real {
    if s.Critical? then 0.9 else if s.High? then 0.75 else 0.6
  }

  function HopProbability(recorded: Recorded, asset: Asset): real {
    if asset.kind.ServiceAsset? && asset.id in recorded then
      var r := recorded[asset.id];
      if r.exploitability.Some? then
        if r.exploitability.value / 10.0 < 1.0 then r.exploitability.value / 10.0 else 1.0
      else if r.tiSeverities != [] then TiProbability(LastInText(r.tiSeverities))
      else if r.icsWriteRisk then 0.7
      else DEFAULT_HOP_PROBABILITY
    else DEFAULT_HOP_PROBABILITY
  }

  lemma HopProbabilityInRange(recorded: Recorded, asset: Asset)
    requires IsRecord(recorded)
    ensures 0.0 <= HopProbability(recorded, asset) <= 1.0
  {
  }

  // The comment on the function promises the strongest signal. Text order
  // runs against strength, so among several matches the weakest is taken...
  lemma {:induction false} TextOrderPicksWeakest(severities: seq<Severity>)
    requires severities != []
    ensures LastInText(severities) in severities
    ensures forall s :: s in severities ==> TiProbability(LastInText(severities)) <= TiProbability(s)
  {
    assert severities == [severities[0]] + severities[1..];
    if |severities| > 1 {
      TextOrderPicksWeakest(severities[1..]);
    }
  }

  // The chances the signals on record stand for, one by one.
  ghost predicate IsStrongest(r: Signals, chance: real) {
    && (r.exploitability.Some? ==>
          chance >= if r.exploitability.value < 10.0 then r.exploitability.value / 10.0 else 1.0)
    && (forall s :: s in r.tiSeverities ==> chance >= TiProbability(s))
    && (r.icsWriteRisk ==> chance >= 0.7)
  }

  // When the order in which the signals are consulted does not matter: the
  // known exploitability outweighs everything else on record; or there is
  // none, all threat-intel matches are equally strong and outweigh the
  // write risk; or there is neither.
  ghost predicate FirstSignalOutweighs(r: Signals) {
    match r.exploitability
    case Some(e) =>
      (forall s :: s in r.tiSeverities ==> e >= 10.0 * TiProbability(s)) && (r.icsWriteRisk ==> e >= 7.0)
    case None =>
      || r.tiSeverities == []
      || ((forall s, t :: s in r.tiSeverities && t in r.tiSeverities ==> TiProbability(s) == TiProbability(t))
          && (r.icsWriteRisk ==> TiProbability(r.tiSeverities[0]) >= 0.7))
  }

  // The comment promises the strongest applicable signal of the hop's target.
  // The first kind of signal present is taken instead; that is the strongest
  // in exactly these cases.
  lemma HopTakesStrongestIff(recorded: Recorded, asset: Asset)
    requires asset.kind.ServiceAsset? && asset.id in recorded
    ensures IsStrongest(recorded[asset.id], HopProbability(recorded, asset))
       <==> FirstSignalOutweighs(recorded[asset.id])
  {
    var r := recorded[asset.id];
    if r.exploitability.None? && r.tiSeverities != [] {
      PickIsStrongestIff(r.tiSeverities);
      TextOrderPicksWeakest(r.tiSeverities);
      assert r.tiSeverities[0] in r.tiSeverities;
    }
  }

  // For instance a weak known exploit hides a critical threat-intel match.
  lemma WeakExploitHidesMatch(asset: Asset)
    requires asset.kind.ServiceAsset?
    ensures HopProbability(map[asset.id := Signals(Some(3.0), [Critical], false)], asset)
         == 0.3 < TiProbability(Critical)
  {
  }

  // Among threat-intel matches alone the pick is the strongest exactly when
  // all are equally strong.
  lemma PickIsStrongestIff(severities: seq<Severity>)
    requires severities != []
    ensures (forall s :: s in severities ==> TiProbability(s) <= TiProbability(LastInText(severities)))
       <==> forall s, t :: s in severities && t in severities ==> TiProbability(s) == TiProbability(t)
  {
    TextOrderPicksWeakest(severities);
  }

  // What a hop's chance is, told by the signals on record: 0.55 unless its
  // target is a service on record; then a tenth of the known exploitability,
  // at most 1; without one, the chance of the weakest threat-intel match;
  // without any, 0.7 for a write risk and 0.55 otherwise.
  lemma HopProbabilityMeans(recorded: Recorded, asset: Asset)
    ensures !asset.kind.ServiceAsset? || asset.id !in recorded ==> HopProbability(recorded, asset) == 0.55
    ensures asset.kind.ServiceAsset? && asset.id in recorded ==>
      var r, p := recorded[asset.id], HopProbability(recorded, asset);
      var matches := r.tiSeverities;
      match r.exploitability
      case Some(e) => p == if e < 10.0 then e / 10.0 else 1.0
      case None =>
        if matches == [] then p == if r.icsWriteRisk then 0.7 else 0.55
        else p == if Low in matches || Medium in matches then 0.6 else if High in matches then 0.75 else 0.9
  {
    if asset.kind.ServiceAsset? && asset.id in recorded && recorded[asset.id].tiSeverities != [] {
      var matches := recorded[asset.id].tiSeverities;
      TextOrderPicksWeakest(matches);
      assert LastInText(matches) in matches;
    }
  }

  // ---- One path ----

  datatype Step = Step(hopIndex: nat, asset: Asset, via: string, success: real, cumulative: real, compromised: bool)

  // Chance of getting through the first k hops.
  function Chain(recorded: Recorded, hops: seq<Hop>, k: nat): real
    requires k <= |hops|
  {
    if k == 0 then 1.0 else Chain(recorded, hops, k - 1) * HopProbability(recorded, hops[k - 1].asset)
  }

  // How many hops are simulated before the attacker gives up.
  function Reached(recorded: Recorded, hops: seq<Hop>, k: nat): (m: nat)
    requires k <= |hops|
    ensures k <= m <= |hops|
    ensures forall j :: k <= j < m ==> Chain(recorded, hops, j) >= MIN_CHAIN_PROBABILITY
    ensures m < |hops| ==> Chain(recorded, hops, m) < MIN_CHAIN_PROBABILITY
    decreases |hops| - k
  {
    if k == |hops| || Chain(recorded, hops, k) < MIN_CHAIN_PROBABILITY then k else Reached(recorded, hops, k + 1)
  }

  function StepAt(recorded: Recorded, hops: seq<Hop>, k: nat): Step
    requires k < |hops|
  {
    var cumulative := Chain(recorded, hops, k + 1);
    Step(k, hops[k].asset, hops[k].via, RoundTo(HopProbability(recorded, hops[k].asset), 10000),
         RoundTo(cumulative, 10000),
         cumulative >= MIN_CHAIN_PROBABILITY)
  }

  function Compromised(steps: seq<Step>): nat {
    if steps == [] then 0 else Compromised(steps[..|steps| - 1]) + if steps[|steps| - 1].compromised then 1 else 0
  }

  datatype Simulation = Simulation(path: Id, steps: seq<Step>, overall: real, hopsCompromised: nat)

  function Simulate(recorded: Recorded, path: Id, hops: seq<Hop>): Simulation {
    var m := Reached(recorded, hops, 0);
    var steps := seq(m, k requires 0 <= k < m => StepAt(recorded, hops, k));
    Simulation(path, steps, RoundTo(Chain(recorded, hops, m), 10000), Compromised(steps))
  }

  method SimulateHops(recorded: Recorded, path: Id, hops: seq<Hop>) returns (s: Simulation)
    ensures s == Simulate(recorded, path, hops)
  {
    hide RoundTo, HopProbability, Compromised, Chain;
    ChainStart(recorded, hops);
    var steps, cumulative: real := [], 1.0;
    var index := 0;
    while index < |hops|
      invariant index <= |hops|
      invariant cumulative == Chain(recorded, hops, index)
      invariant steps == seq(index, k requires 0 <= k < index => StepAt(recorded, hops, k))
      invariant Reached(recorded, hops, index) == Reached(recorded, hops, 0)
    {
      if cumulative < MIN_CHAIN_PROBABILITY {
        break;
      }
      var hop := hops[index];
      ChainUnfolds(recorded, hops, index, index + 1);
      var probability := HopProbability(recorded, hop.asset);
      cumulative := cumulative * probability;
      steps := steps + [Step(index, hop.asset, hop.via, RoundTo(probability, 10000), RoundTo(cumulative, 10000),
                             cumulative >= MIN_CHAIN_PROBABILITY)];
      index := index + 1;
    }
    s := Simulation(path, steps, RoundTo(cumulative, 10000), Compromised(steps));
  }

  // The compromised steps are a prefix, followed by at most one step that is
  // not: the one where the chain falls below the cut-off.
  lemma CompromisedStepsArePrefix(recorded: Recorded, path: Id, hops: seq<Hop>)
    ensures var s := Simulate(recorded, path, hops);
      && (forall k :: 0 <= k < |s.steps| - 1 ==> s.steps[k].compromised)
      && |s.steps| - 1 <= s.hopsCompromised <= |s.steps|
      && (s.hopsCompromised == |s.steps| <==> s.steps == [] || s.steps[|s.steps| - 1].compromised)
      && (|s.steps| < |hops| ==> s.steps != [] && !s.steps[|s.steps| - 1].compromised)
  {
    var s := Simulate(recorded, path, hops);
    var m := |s.steps|;
    forall k | 0 <= k < m - 1 ensures s.steps[k].compromised {
      assert Chain(recorded, hops, k + 1) >= MIN_CHAIN_PROBABILITY;
    }
    CountPrefix(s.steps);
  }

  lemma {:induction false} CountAll(steps: seq<Step>)
    requires forall k :: 0 <= k < |steps| ==> steps[k].compromised
    ensures Compromised(steps) == |steps|
  {
    if steps != [] {
      CountAll(steps[..|steps| - 1]);
    }
  }

  lemma CountPrefix(steps: seq<Step>)
    requires forall k :: 0 <= k < |steps| - 1 ==> steps[k].compromised
    ensures Compromised(steps) == |steps| - (if steps == [] || steps[|steps| - 1].compromised then 0 else 1)
  {
    if steps != [] {
      CountAll(steps[..|steps| - 1]);
    }
  }

  lemma {:induction false} ChainDecreases(recorded: Recorded, hops: seq<Hop>, j: nat, k: nat)
    requires IsRecord(recorded) && j <= k <= |hops|
    ensures 0.0 <= Chain(recorded, hops, k) <= Chain(recorded, hops, j) <= 1.0
    decreases k
  {
    hide HopProbability, Chain, IsRecord;
    if k == 0 {
      ChainStart(recorded, hops);
    } else {
      ChainDecreases(recorded, hops, if j < k then j else k - 1, k - 1);
      ChainStep(recorded, hops, k);
    }
  }

  lemma ChainStart(recorded: Recorded, hops: seq<Hop>)
    ensures Chain(recorded, hops, 0) == 1.0
  {
  }

  lemma ChainUnfolds(recorded: Recorded, hops: seq<Hop>, k: nat, next: nat)
    requires next == k + 1 <= |hops|
    ensures Chain(recorded, hops, next) == Chain(recorded, hops, k) * HopProbability(recorded, hops[k].asset)
  {
    hide HopProbability;
  }

  lemma ChainStep(recorded: Recorded, hops: seq<Hop>, k: nat)
    requires IsRecord(recorded) && 0 < k <= |hops| && Chain(recorded, hops, k - 1) >= 0.0
    ensures 0.0 <= Chain(recorded, hops, k) <= Chain(recorded, hops, k - 1)
  {
    hide HopProbability, Chain;
    ChainUnfolds(recorded, hops, k - 1, k);
    HopProbabilityInRange(recorded, hops[k - 1].asset);
    var x, p := Chain(recorded, hops, k - 1), HopProbability(recorded, hops[k - 1].asset);
    ShrinkingProduct(x, p);
    assert 0.0 <= x * p <= x;
    assert Chain(recorded, hops, k) == x * p;
  }

  lemma ShrinkingProduct(x: real, p: real)
    requires 0.0 <= x && 0.0 <= p <= 1.0
    ensures 0.0 <= x * p <= x
  {
  }

  // ---- The steps, told by the chances of the hops ----

  ghost function Product(ps: seq<real>): real {
    if ps == [] then 1.0 else ps[0] * Product(ps[1..])
  }

  lemma {:induction false} ProductSnoc(ps: seq<real>, p: real)
    ensures Product(ps + [p]) == Product(ps) * p
  {
    if ps == [] {
      assert [p][1..] == [];
      assert Product([p]) == p * 1.0;
      assert ps + [p] == [p];
    } else {
      assert (ps + [p])[1..] == ps[1..] + [p];
      ProductSnoc(ps[1..], p);
      Reassociate(ps[0], Product(ps[1..]), p);
    }
  }

  lemma Reassociate(a: real, b: real, c: real)
    ensures a * (b * c) == (a * b) * c
  {
  }

  ghost function Chances(recorded: Recorded, hops: seq<Hop>): seq<real> {
    seq(|hops|, i requires 0 <= i < |hops| => HopProbability(recorded, hops[i].asset))
  }

  lemma {:induction false} ChainIsProduct(recorded: Recorded, hops: seq<Hop>, k: nat)
    requires k <= |hops|
    ensures Chain(recorded, hops, k) == Product(Chances(recorded, hops)[..k])
  {
    hide HopProbability, Product, Chain;
    if k == 0 {
      ChainStart(recorded, hops);
      NoFactors(Chances(recorded, hops)[..0]);
    } else {
      var ps := Chances(recorded, hops);
      ChainIsProduct(recorded, hops, k - 1);
      ChainUnfolds(recorded, hops, k - 1, k);
      ProductSnoc(ps[..k - 1], ps[k - 1]);
      assert ps[..k] == ps[..k - 1] + [ps[k - 1]];
    }
  }

  lemma NoFactors(ps: seq<real>)
    requires |ps| == 0
    ensures Product(ps) == 1.0
  {
  }

  // Step k is about hop k; its figures are the hop's chance and the product of
  // the chances so far; the steps stop where that product is below 0.03.
  lemma StepsMean(recorded: Recorded, path: Id, hops: seq<Hop>)
    ensures var s, ps := Simulate(recorded, path, hops), Chances(recorded, hops);
      && s.path == path && |s.steps| <= |hops|
      && (forall k :: 0 <= k < |s.steps| ==>
            && s.steps[k].hopIndex == k && s.steps[k].asset == hops[k].asset && s.steps[k].via == hops[k].via
            && s.steps[k].success == RoundTo(ps[k], 10000)
            && s.steps[k].cumulative == RoundTo(Product(ps[..k + 1]), 10000)
            && (s.steps[k].compromised <==> Product(ps[..k + 1]) >= 0.03))
      && s.overall == RoundTo(Product(ps[..|s.steps|]), 10000)
      && (|s.steps| < |hops| ==> Product(ps[..|s.steps|]) < 0.03)
  {
    var s, ps := Simulate(recorded, path, hops), Chances(recorded, hops);
    forall k: nat | k <= |hops| ensures Chain(recorded, hops, k) == Product(ps[..k]) {
      ChainIsProduct(recorded, hops, k);
    }
    hide Chain, Product, RoundTo, HopProbability, Compromised;
  }

  // The whole chain is simulated and every step of it compromised exactly
  // when the product of all hop probabilities reaches the cut-off, and then
  // the stored value is that product rounded.
  lemma FullChainIff(recorded: Recorded, path: Id, hops: seq<Hop>)
    requires IsRecord(recorded)
    ensures var s, product := Simulate(recorded, path, hops), Product(Chances(recorded, hops));
      && (s.hopsCompromised == |hops| <==> product >= 0.03)
      && (product >= 0.03 ==> |s.steps| == |hops| && s.overall == RoundTo(product, 10000))
  {
    ChainIsProduct(recorded, hops, |hops|);
    assert Chances(recorded, hops)[..|hops|] == Chances(recorded, hops);
    hide Product;
    var s := Simulate(recorded, path, hops);
    var m := |s.steps|;
    CompromisedStepsArePrefix(recorded, path, hops);
    ChainDecreases(recorded, hops, m, |hops|);
    hide HopProbability, RoundTo, Chain, IsRecord, Compromised;
    ChainStart(recorded, hops);
    assert m == Reached(recorded, hops, 0);
    if m > 0 {
      assert s.steps[m - 1] == StepAt(recorded, hops, m - 1);
      assert s.steps[m - 1].compromised <==> Chain(recorded, hops, m) >= MIN_CHAIN_PROBABILITY;
    }
  }

  // ---- A campaign over all paths ----

  datatype PathRow = PathRow(id: Id, hops: seq<Hop>)

  function FindPath(paths: seq<PathRow>, id: Id): Option<PathRow> {
    if paths == [] then None
    else if paths[0].id == id then Some(paths[0])
    else FindPath(paths[1..], id)
  }

  // The row with the id asked for, if there is one.
  lemma {:induction false} FindPathMeans(paths: seq<PathRow>, id: Id)
    ensures FindPath(paths, id).Some? ==> FindPath(paths, id).value in paths && FindPath(paths, id).value.id == id
    ensures FindPath(paths, id).None? ==> forall row :: row in paths ==> row.id != id
  {
    if paths != [] {
      assert paths == [paths[0]] + paths[1..];
      FindPathMeans(paths[1..], id);
    }
  }

  function SimulatePath(recorded: Recorded, paths: seq<PathRow>, id: Id): Option<Simulation> {
    var row := FindPath(paths, id);
    if row.None? then None else Some(Simulate(recorded, id, row.value.hops))
  }

  // The simulations of the listed paths that still exist.
  function Simulations(recorded: Recorded, paths: seq<PathRow>, listed: seq<Id>): seq<Simulation> {
    if listed == [] then []
    else
      var s := SimulatePath(recorded, paths, listed[|listed| - 1]);
      Simulations(recorded, paths, listed[..|listed| - 1]) + if s.Some? then [s.value] else []
  }

  function Total(sims: seq<Simulation>): real {
    if sims == [] then 0.0 else Total(sims[..|sims| - 1]) + sims[|sims| - 1].overall
  }

  // Which simulations a campaign runs: one for each listed path that exists,
  // at the positions `at`, in order, each for its path.
  ghost predicate AreSimulationsAt(recorded: Recorded, paths: seq<PathRow>, listed: seq<Id>, sims: seq<Simulation>,
                                   at: seq<nat>)
  {
    && |at| == |sims|
    && (forall i, j :: 0 <= i < j < |at| ==> at[i] < at[j])
    && (forall i :: 0 <= i < |at| ==>
          && at[i] < |listed|
          && exists row :: row in paths && row.id == listed[at[i]] && sims[i] == Simulate(recorded, row.id, row.hops))
    && forall k :: 0 <= k < |listed| ==> (k in at <==> exists row :: row in paths && row.id == listed[k])
  }

  lemma {:induction false} SimulationsMean(recorded: Recorded, paths: seq<PathRow>, listed: seq<Id>)
    returns (at: seq<nat>)
    ensures AreSimulationsAt(recorded, paths, listed, Simulations(recorded, paths, listed), at)
  {
    hide Simulate;
    at := [];
    if listed != [] {
      var n := |listed| - 1;
      at := SimulationsMean(recorded, paths, listed[..n]);
      FindPathMeans(paths, listed[n]);
      hide FindPath;
      if SimulatePath(recorded, paths, listed[n]).Some? {
        at := at + [n];
      }
    }
  }

  ghost function Sum(ps: seq<real>): real {
    if ps == [] then 0.0 else ps[0] + Sum(ps[1..])
  }

  lemma {:induction false} SumSnoc(ps: seq<real>, p: real)
    ensures Sum(ps + [p]) == Sum(ps) + p
  {
    if ps == [] {
      assert [p][1..] == [] && ps + [p] == [p];
    } else {
      assert (ps + [p])[1..] == ps[1..] + [p];
      SumSnoc(ps[1..], p);
    }
  }

  ghost function Overalls(sims: seq<Simulation>): seq<real> {
    seq(|sims|, i requires 0 <= i < |sims| => sims[i].overall)
  }

  lemma {:induction false} TotalIsSum(sims: seq<Simulation>)
    ensures Total(sims) == Sum(Overalls(sims))
  {
    if sims != [] {
      var front, last := sims[..|sims| - 1], sims[|sims| - 1];
      TotalIsSum(front);
      SumSnoc(Overalls(front), last.overall);
      assert Overalls(sims) == Overalls(front) + [last.overall];
    }
  }

  datatype Campaign = Campaign(pathCount: nat, average: real, maximum: real, worstPath: Id)

  // `w` is the place of the campaign's worst path: the first one whose
  // probability no other exceeds.
  ghost predicate IsFirstMaximum(sims: seq<Simulation>, w: nat) {
    && w < |sims|
    && (forall j :: 0 <= j < |sims| ==> sims[j].overall <= sims[w].overall)
    && (forall j :: 0 <= j < w ==> sims[j].overall < sims[w].overall)
  }

  class SandboxStore {
    var simulations: seq<Simulation>
    var campaigns: seq<Campaign>

    constructor ()
      ensures simulations == [] && campaigns == []
    {
      simulations, campaigns := [], [];
    }

    method SimulateAttackPath(recorded: Recorded, paths: seq<PathRow>, id: Id) returns (r: Option<Simulation>)
      modifies this`simulations
      ensures r == SimulatePath(recorded, paths, id)
      ensures simulations == old(simulations) + if r.Some? then [r.value] else []
    {
      var row := FindPath(paths, id);
      if row.None? {
        return None;
      }
      var s := SimulateHops(recorded, id, row.value.hops);
      simulations := simulations + [s];
      r := Some(s);
    }

    method RunSimulationCampaign(recorded: Recorded, paths: seq<PathRow>, listed: seq<Id>)
      returns (c: Option<Campaign>, ghost w: nat)
      requires IsRecord(recorded)
      modifies this
      ensures var sims := Simulations(recorded, paths, listed);
        && simulations == old(simulations) + sims
        && (c.None? <==> sims == [])
        && campaigns == old(campaigns) + (if c.Some? then [c.value] else [])
        && (c.Some? ==>
              && IsFirstMaximum(sims, w)
              && c.value == Campaign(|sims|, RoundTo(Total(sims) / |sims| as real, 100000),
                                     RoundTo(sims[w].overall, 100000), sims[w].path))
      ensures c.Some? ==>
        var chances := Overalls(Simulations(recorded, paths, listed));
        c.value.average == RoundTo(Sum(chances) / |chances| as real, 100000)
    {
      hide Total, Simulations, SimulatePath, Simulate, RoundTo, FindPath, IsFirstMaximum;
      NoSimulations(recorded, paths);
      var count, totalProbability, maxProbability, worstAttackPathId: Option<Id> := 0, 0.0, -1.0, None;
      w := 0;
      ghost var before := simulations;
      for i := 0 to |listed|
        invariant simulations == before + Simulations(recorded, paths, listed[..i])
        invariant count == |Simulations(recorded, paths, listed[..i])|
        invariant totalProbability == Total(Simulations(recorded, paths, listed[..i]))
        invariant count == 0 ==> maxProbability == -1.0
        invariant count > 0 ==>
          var sims := Simulations(recorded, paths, listed[..i]);
          && w < |sims| && IsFirstMaximum(sims, w)
          && maxProbability == sims[w].overall && worstAttackPathId == Some(sims[w].path)
        invariant campaigns == old(campaigns)
      {
        ghost var sims := Simulations(recorded, paths, listed[..i]);
        SimulationsNext(recorded, paths, listed, i, i + 1);
        var simulation := SimulateAttackPath(recorded, paths, listed[i]);
        assert sims + [] == sims;
        if simulation.Some? {
          var probability := simulation.value.overall;
          OverallIsProbability(recorded, paths, listed[i]);
          TotalNext(sims, simulation.value);
          MaximumNext(sims, simulation.value, w);
          count := count + 1;
          totalProbability := totalProbability + probability;
          if probability > maxProbability {
            maxProbability := probability;
            worstAttackPathId := Some(listed[i]);
            w := |sims|;
          }
        }
      }
      assert listed[..|listed|] == listed;
      if count == 0 {
        return None, 0;
      }
      var campaign := Campaign(count, RoundTo(totalProbability / count as real, 100000),
                               RoundTo(maxProbability, 100000), worstAttackPathId.value);
      campaigns := campaigns + [campaign];
      TotalIsSum(Simulations(recorded, paths, listed));
      c := Some(campaign);
    }
  }

  lemma NoSimulations(recorded: Recorded, paths: seq<PathRow>)
    ensures Simulations(recorded, paths, []) == [] && Total([]) == 0.0
  {
  }

  lemma SimulationsNext(recorded: Recorded, paths: seq<PathRow>, listed: seq<Id>, i: nat, next: nat)
    requires next == i + 1 <= |listed|
    ensures var s := SimulatePath(recorded, paths, listed[i]);
      Simulations(recorded, paths, listed[..next])
        == Simulations(recorded, paths, listed[..i]) + if s.Some? then [s.value] else []
  {
    hide SimulatePath;
    assert listed[..next][..i] == listed[..i];
  }

  lemma MaximumNext(sims: seq<Simulation>, s: Simulation, w: nat)
    ensures sims == [] ==> IsFirstMaximum(sims + [s], |sims|)
    ensures sims != [] && IsFirstMaximum(sims, w) ==>
      w < |sims| && IsFirstMaximum(sims + [s], if s.overall > sims[w].overall then |sims| else w)
  {
  }

  lemma TotalNext(sims: seq<Simulation>, s: Simulation)
    ensures Total(sims + [s]) == Total(sims) + s.overall
  {
    assert (sims + [s])[..|sims|] == sims;
  }

  lemma OverallIsProbability(recorded: Recorded, paths: seq<PathRow>, id: Id)
    requires IsRecord(recorded) && SimulatePath(recorded, paths, id).Some?
    ensures 0.0 <= SimulatePath(recorded, paths, id).value.overall <= 1.0
    ensures SimulatePath(recorded, paths, id).value.path == id
  {
    var hops := FindPath(paths, id).value.hops;
    var m := Reached(recorded, hops, 0);
    ChainDecreases(recorded, hops, m, m);
    RoundMonotone(0.0, Chain(recorded, hops, m), 10000);
    RoundMonotone(Chain(recorded, hops, m), 1.0, 10000);
    RoundOfGrid(0, 10000);
    RoundOfGrid(10000, 10000);
  }

  // No average exceeds the maximum, rounded or not.
  lemma AverageAtMostMaximum(sims: seq<Simulation>, w: nat)
    requires IsFirstMaximum(sims, w)
    ensures RoundTo(Total(sims) / |sims| as real, 100000) <= RoundTo(sims[w].overall, 100000)
  {
    hide Total, RoundTo;
    var total, n, most := Total(sims), |sims| as real, sims[w].overall;
    TotalBound(sims, most);
    AverageBound(total, n, most);
    hide *;
    RoundMonotone(total / n, most, 100000);
  }

  lemma AverageBound(total: real, n: real, bound: real)
    requires n > 0.0 && total <= n * bound
    ensures total / n <= bound
  {
    DivMonotone(total, n * bound, n);
    DivUndone(bound, n);
  }

  lemma OneMore(n: real, bound: real)
    ensures (n + 1.0) * bound == n * bound + bound
  {
  }

  lemma {:induction false} TotalBound(sims: seq<Simulation>, bound: real)
    requires forall s :: s in sims ==> s.overall <= bound
    ensures Total(sims) <= |sims| as real * bound
  {
    if sims != [] {
      var front, last := sims[..|sims| - 1], sims[|sims| - 1];
      assert sims == front + [last];
      TotalBound(front, bound);
      OneMore(|front| as real, bound);
      assert |sims| as real == |front| as real + 1.0;
    }
  }
}
