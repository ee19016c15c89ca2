// The bounded pool that sweeps addresses: several async loops share one
// cursor and one result array. JavaScript runs a loop without interruption
// from one `await` to the next, so the atomic steps are: a loop starts, or
// the call a loop is waiting for resolves.
module WorkerPool {
  import opened Options

  datatype Loop = NotStarted | Waiting(index: nat) | Returned

  datatype Pool<R> = Pool(cursor: nat, loops: seq<Loop>, results: seq<Option<R>>)

  datatype Step = Start(loop: nat) | Resolve(loop: nat)

  function LoopCount(n: nat, limit: int): nat {
    var m := if limit < n then limit else n;
    if m < 0 then 0 else m
  }

  function Initial<R>(n: nat, limit: int): Pool<R> {
    Pool(0, seq(LoopCount(n, limit), _ => NotStarted), seq(n, _ => None))
  }

  predicate Enabled<R>(p: Pool<R>, step: Step) {
    && step.loop < |p.loops|
    && if step.Start? then p.loops[step.loop].NotStarted? else p.loops[step.loop].Waiting?
  }

  // Back at the loop's test: take the next index, or return.
  function TakeNext<R>(p: Pool<R>, loop: nat): Pool<R>
    requires loop < |p.loops|
  {
    if p.cursor < |p.results|
    then p.(cursor := p.cursor + 1, loops := p.loops[loop := Waiting(p.cursor)])
    else p.(loops := p.loops[loop := Returned])
  }

  function Record<R>(results: seq<Option<R>>, index: nat, outcome: seq<R>): seq<Option<R>> {
    if index < |results| && index < |outcome| then results[index := Some(outcome[index])] else results
  }

  // `outcome[i]` is what the call on item i resolves to.
  function Apply<R>(p: Pool<R>, step: Step, outcome: seq<R>): Pool<R>
    requires Enabled(p, step)
  {
    if step.Start? then TakeNext(p, step.loop)
    else TakeNext(p.(results := Record(p.results, p.loops[step.loop].index, outcome)), step.loop)
  }

  ghost predicate Valid<R>(p: Pool<R>, outcome: seq<R>) {
    && |p.results| == |outcome|
    && p.cursor <= |outcome|
    && (forall j :: 0 <= j < |p.loops| && p.loops[j].Waiting? ==>
          p.loops[j].index < p.cursor && p.results[p.loops[j].index] == None)
    && (forall j, k :: 0 <= j < k < |p.loops| && p.loops[j].Waiting? && p.loops[k].Waiting? ==>
          p.loops[j].index != p.loops[k].index)
    && (forall i :: 0 <= i < p.cursor ==> p.results[i] == Some(outcome[i]) || InFlight(p, i))
    && (forall i :: p.cursor <= i < |outcome| ==> p.results[i] == None)
    && (forall j :: 0 <= j < |p.loops| && p.loops[j].Returned? ==> p.cursor == |outcome|)
  }

  ghost predicate InFlight<R>(p: Pool<R>, i: nat) {
    exists j :: 0 <= j < |p.loops| && p.loops[j] == Waiting(i)
  }

  lemma StepKeepsValid<R>(p: Pool<R>, step: Step, outcome: seq<R>)
    requires Valid(p, outcome) && Enabled(p, step)
    ensures Valid(Apply(p, step, outcome), outcome)
  {
    var p' := Apply(p, step, outcome);
    forall i | 0 <= i < p'.cursor
      ensures p'.results[i] == Some(outcome[i]) || InFlight(p', i)
    {
      if i == p.cursor {
        assert p'.loops[step.loop] == Waiting(i);
      } else if p.results[i] != Some(outcome[i]) {
        var j :| 0 <= j < |p.loops| && p.loops[j] == Waiting(i);
        if j != step.loop {
          assert p'.loops[j] == Waiting(i);
        }
      }
    }
  }

  ghost predicate IsRun<R>(states: seq<Pool<R>>, steps: seq<Step>, outcome: seq<R>, limit: int) {
    && |states| == |steps| + 1
    && states[0] == Initial(|outcome|, limit)
    && forall i :: 0 <= i < |steps| ==>
         && Enabled(states[i], steps[i])
         && states[i + 1] == Apply(states[i], steps[i], outcome)
  }

  // Validity holds at the start and every step keeps it.
  lemma {:induction false} RunsStayValid<R>(states: seq<Pool<R>>, steps: seq<Step>, outcome: seq<R>, limit: int, i: nat)
    requires IsRun(states, steps, outcome, limit) && i < |states|
    ensures Valid(states[i], outcome) && |states[i].loops| == LoopCount(|outcome|, limit)
  {
    if i > 0 {
      RunsStayValid(states, steps, outcome, limit, i - 1);
      StepKeepsValid(states[i - 1], steps[i - 1], outcome);
    }
  }

  // ---- How far a run can go ----

  function Unstarted(loops: seq<Loop>): nat {
    if loops == [] then 0 else (if loops[0].NotStarted? then 1 else 0) + Unstarted(loops[1..])
  }

  function Holes<R>(results: seq<Option<R>>): nat {
    if results == [] then 0 else (if results[0].None? then 1 else 0) + Holes(results[1..])
  }

  lemma {:induction false} StartingOne(loops: seq<Loop>, j: nat, l: Loop)
    requires j < |loops| && !l.NotStarted?
    ensures Unstarted(loops[j := l]) == Unstarted(loops) - (if loops[j].NotStarted? then 1 else 0)
  {
    if j > 0 {
      StartingOne(loops[1..], j - 1, l);
      assert loops[j := l][1..] == loops[1..][j - 1 := l];
    } else {
      assert loops[j := l][1..] == loops[1..];
    }
  }

  lemma {:induction false} FillingOne<R>(results: seq<Option<R>>, i: nat, r: R)
    requires i < |results|
    ensures Holes(results[i := Some(r)]) == Holes(results) - (if results[i].None? then 1 else 0)
  {
    if i > 0 {
      FillingOne(results[1..], i - 1, r);
      assert results[i := Some(r)][1..] == results[1..][i - 1 := Some(r)];
    } else {
      assert results[i := Some(r)][1..] == results[1..];
    }
  }

  function Remaining<R>(p: Pool<R>): nat {
    Unstarted(p.loops) + Holes(p.results)
  }

  lemma StepUsesOne<R>(p: Pool<R>, step: Step, outcome: seq<R>)
    requires Valid(p, outcome) && Enabled(p, step)
    ensures Remaining(Apply(p, step, outcome)) == Remaining(p) - 1
  {
    var p' := Apply(p, step, outcome);
    StartingOne(p.loops, step.loop, p'.loops[step.loop]);
    if step.Resolve? {
      var index := p.loops[step.loop].index;
      FillingOne(p.results, index, outcome[index]);
    }
  }

  lemma {:induction false} InitialRemaining<R>(n: nat, k: nat)
    ensures Unstarted(seq(k, _ => NotStarted)) == k && Holes<R>(seq(n, _ => None)) == n
  {
    if k > 0 {
      InitialRemaining<R>(n, k - 1);
      assert seq(k, _ => NotStarted)[1..] == seq(k - 1, _ => NotStarted);
    } else if n > 0 {
      InitialRemaining<R>(n - 1, k);
      var none: seq<Option<R>> := seq(n, _ => None);
      assert none[1..] == seq(n - 1, _ => None);
    }
  }

  lemma {:induction false} RunSpendsRemaining<R>(states: seq<Pool<R>>, steps: seq<Step>, outcome: seq<R>, limit: int,
                                                 i: nat)
    requires IsRun(states, steps, outcome, limit) && i < |states|
    ensures Remaining(states[i]) + i == LoopCount(|outcome|, limit) + |outcome|
  {
    if i == 0 {
      InitialRemaining<R>(|outcome|, LoopCount(|outcome|, limit));
    } else {
      RunSpendsRemaining(states, steps, outcome, limit, i - 1);
      RunsStayValid(states, steps, outcome, limit, i - 1);
      StepUsesOne(states[i - 1], steps[i - 1], outcome);
    }
  }

  // ---- What every run guarantees ----

  ghost predicate AllReturned<R>(p: Pool<R>) {
    forall j :: 0 <= j < |p.loops| ==> p.loops[j].Returned?
  }

  // The pool terminates: no run is longer than one step per loop plus one per
  // item, and a pool that can take no further step has returned everywhere.
  lemma PoolTerminates<R>(states: seq<Pool<R>>, steps: seq<Step>, outcome: seq<R>, limit: int)
    requires IsRun(states, steps, outcome, limit)
    ensures |steps| <= LoopCount(|outcome|, limit) + |outcome|
    ensures AllReturned(states[|steps|]) <==> forall step :: !Enabled(states[|steps|], step)
  {
    RunSpendsRemaining(states, steps, outcome, limit, |steps|);
    var p := states[|steps|];
    if !AllReturned(p) {
      var j :| 0 <= j < |p.loops| && !p.loops[j].Returned?;
      assert Enabled(p, if p.loops[j].NotStarted? then Start(j) else Resolve(j));
    }
  }

  // Step k of a run claims index i: some loop leaves its test holding i.
  ghost predicate Claims<R>(states: seq<Pool<R>>, steps: seq<Step>, k: nat, i: nat)
    requires k < |steps| && |states| == |steps| + 1
  {
    && steps[k].loop < |states[k + 1].loops|
    && states[k + 1].loops[steps[k].loop] == Waiting(i)
  }

  lemma ClaimIsCursor<R>(states: seq<Pool<R>>, steps: seq<Step>, outcome: seq<R>, limit: int, k: nat, i: nat)
    requires IsRun(states, steps, outcome, limit) && k < |steps|
    ensures Claims(states, steps, k, i) <==> states[k].cursor == i && states[k + 1].cursor == i + 1
    ensures states[k].cursor <= states[k + 1].cursor <= states[k].cursor + 1
  {
    RunsStayValid(states, steps, outcome, limit, k);
    ClaimOfStep(states[k], steps[k], outcome, i);
  }

  lemma ClaimOfStep<R>(p: Pool<R>, step: Step, outcome: seq<R>, i: nat)
    requires Valid(p, outcome) && Enabled(p, step)
    ensures var p' := Apply(p, step, outcome);
      && (p'.loops[step.loop] == Waiting(i) <==> p.cursor == i && p'.cursor == i + 1)
      && p.cursor <= p'.cursor <= p.cursor + 1 && |p'.loops| == |p.loops|
  {
  }

  lemma {:induction false} CursorMonotone<R>(states: seq<Pool<R>>, steps: seq<Step>, outcome: seq<R>, limit: int,
                                             a: nat, b: nat)
    requires IsRun(states, steps, outcome, limit) && a <= b < |states|
    ensures states[a].cursor <= states[b].cursor
  {
    if a < b {
      CursorMonotone(states, steps, outcome, limit, a, b - 1);
      ClaimIsCursor(states, steps, outcome, limit, b - 1, 0);
    }
  }

  // No index is handed out twice, whatever the interleaving.
  lemma ClaimedAtMostOnce<R>(states: seq<Pool<R>>, steps: seq<Step>, outcome: seq<R>, limit: int, a: nat, b: nat,
                             i: nat)
    requires IsRun(states, steps, outcome, limit) && a < |steps| && b < |steps|
    requires Claims(states, steps, a, i) && Claims(states, steps, b, i)
    ensures a == b
  {
    ClaimIsCursor(states, steps, outcome, limit, a, i);
    ClaimIsCursor(states, steps, outcome, limit, b, i);
    if a < b {
      CursorMonotone(states, steps, outcome, limit, a + 1, b);
    } else if b < a {
      CursorMonotone(states, steps, outcome, limit, b + 1, a);
    }
  }

  // Every index below the cursor was handed out by some step.
  lemma {:induction false} ClaimedAtLeastOnce<R>(states: seq<Pool<R>>, steps: seq<Step>, outcome: seq<R>, limit: int,
                                                 m: nat, i: nat)
    returns (k: nat)
    requires IsRun(states, steps, outcome, limit) && m < |states| && i < states[m].cursor
    ensures k < m && Claims(states, steps, k, i)
  {
    ClaimIsCursor(states, steps, outcome, limit, m - 1, i);
    hide IsRun, Claims;
    if i < states[m - 1].cursor {
      k := ClaimedAtLeastOnce(states, steps, outcome, limit, m - 1, i);
    } else {
      k := m - 1;
    }
  }

  // At most min(limit, n) calls are in flight: the indices in flight are
  // distinct, each held by its own loop.
  lemma InFlightBound<R>(states: seq<Pool<R>>, steps: seq<Step>, outcome: seq<R>, limit: int, m: nat, flying: set<nat>)
    requires IsRun(states, steps, outcome, limit) && m < |states|
    requires forall i :: i in flying ==> InFlight(states[m], i)
    ensures |flying| <= LoopCount(|outcome|, limit)
    ensures flying != {} ==> |flying| <= limit && |flying| <= |outcome|
  {
    RunsStayValid(states, steps, outcome, limit, m);
    HoldersCoverFlying(states[m].loops, flying);
  }

  // And the bound is reached: the loops may all start before any call resolves.
  lemma {:induction false} BoundIsReached<R>(outcome: seq<R>, limit: int, k: nat)
    returns (states: seq<Pool<R>>, steps: seq<Step>)
    requires k <= limit && k <= |outcome|
    ensures IsRun(states, steps, outcome, limit) && |steps| == k
    ensures states[k].cursor == k && |states[k].results| == |outcome|
    ensures |states[k].loops| == LoopCount(|outcome|, limit)
    ensures forall j :: k <= j < |states[k].loops| ==> states[k].loops[j].NotStarted?
    ensures forall i :: 0 <= i < k ==> InFlight(states[k], i)
  {
    if k == 0 {
      states, steps := [Initial(|outcome|, limit)], [];
    } else {
      states, steps := BoundIsReached(outcome, limit, k - 1);
      var p := states[k - 1];
      var p' := Apply(p, Start(k - 1), outcome);
      forall i | 0 <= i < k ensures InFlight(p', i) {
        if i < k - 1 {
          assert InFlight(p, i);
          var j :| 0 <= j < |p.loops| && p.loops[j] == Waiting(i);
          assert p'.loops[j] == Waiting(i);
        } else {
          assert p'.loops[k - 1] == Waiting(i);
        }
      }
      states, steps := states + [p'], steps + [Start(k - 1)];
    }
  }

  lemma {:induction false} HoldersCoverFlying(loops: seq<Loop>, flying: set<nat>)
    requires forall i :: i in flying ==> exists j :: 0 <= j < |loops| && loops[j] == Waiting(i)
    ensures |flying| <= |loops|
  {
    if loops == [] {
      assert flying == {};
    } else {
      var rest := if loops[0].Waiting? then flying - {loops[0].index} else flying;
      forall i | i in rest
        ensures exists j :: 0 <= j < |loops[1..]| && loops[1..][j] == Waiting(i)
      {
        var j :| 0 <= j < |loops| && loops[j] == Waiting(i);
        assert loops[1..][j - 1] == Waiting(i);
      }
      HoldersCoverFlying(loops[1..], rest);
      assert flying <= rest + (if loops[0].Waiting? then {loops[0].index} else {});
    }
  }

  // When the pool has finished, slot i holds the outcome of item i for every
  // i - exactly when there was a loop to run or nothing to do. A limit below
  // one starts no loop and leaves every slot a hole.
  lemma FinalResults<R>(states: seq<Pool<R>>, steps: seq<Step>, outcome: seq<R>, limit: int)
    requires IsRun(states, steps, outcome, limit) && AllReturned(states[|steps|])
    ensures states[|steps|].results == seq(|outcome|, i requires 0 <= i < |outcome| => Some(outcome[i]))
       <==> limit >= 1 || outcome == []
  {
    RunsStayValid(states, steps, outcome, limit, |steps|);
    var p := states[|steps|];
    if limit >= 1 && outcome != [] {
      assert p.loops[0].Returned?;
    } else if outcome != [] {
      if steps != [] {
        assert false;
      }
      assert p.results[0] == None;
    }
  }
}
