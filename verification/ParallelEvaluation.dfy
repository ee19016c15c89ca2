// Scoped evaluations that overlap in time. A run reads the open rows once,
// which fixes what it is going to write, and then issues one UPDATE or INSERT
// after the other; between any two of its statements other runs may issue
// theirs. Nothing locks the table.
module ParallelEvaluation {
  import opened Options
  import opened Assets
  import opened PolicyEngine
  import opened Violations
  import opened DistributedEvaluation

  datatype Write = ResolveRow(row: nat) | InsertRow(detection: Detection)

  datatype Progress = Ready | Writing(todo: seq<Write>)

  datatype Run = Run(scope: Scope, progress: Progress)

  datatype State = State(table: Table, runs: seq<Run>)

  // Run `run` issues its next statement at time `at`.
  datatype Step = Step(run: nat, at: int)

  predicate IsStale(w: World, scope: Scope, detected: set<Key>, v: Violation) {
    v.status.Open? && InScope(w, scope, v.key.asset) && v.key !in detected
  }

  function StaleRows(w: World, scope: Scope, detected: set<Key>, t: Table, n: nat): seq<Write>
    requires n <= |t|
  {
    if n == 0 then []
    else
      StaleRows(w, scope, detected, t, n - 1)
        + if IsStale(w, scope, detected, t[n - 1]) then [ResolveRow(n - 1)] else []
  }

  function MissingRows(existing: set<Key>, ds: seq<Detection>): seq<Write> {
    if ds == [] then []
    else
      var d := ds[|ds| - 1];
      MissingRows(existing, ds[..|ds| - 1]) + if d.key in existing then [] else [InsertRow(d)]
  }

  // What a run that reads the table t will write.
  function Script(w: World, scope: Scope, t: Table): seq<Write> {
    var ds := Detect(w, scope);
    StaleRows(w, scope, FreshKeys(ds), t, |t|) + MissingRows(OpenKeysInScope(w, scope, t), ds)
  }

  function Perform(t: Table, write: Write, now: int): Table {
    match write
    case ResolveRow(row) => if row < |t| then t[row := t[row].(status := Resolved, resolvedAt := Some(now))] else t
    case InsertRow(detection) => t + [NewRow(detection, now)]
  }

  predicate Enabled(s: State, step: Step) {
    step.run < |s.runs| && (s.runs[step.run].progress.Ready? || s.runs[step.run].progress.todo != [])
  }

  function Next(w: World, s: State, step: Step): State
    requires Enabled(s, step)
  {
    var r := s.runs[step.run];
    match r.progress
    case Ready => s.(runs := s.runs[step.run := r.(progress := Writing(Script(w, r.scope, s.table)))])
    case Writing(todo) =>
      State(Perform(s.table, todo[0], step.at), s.runs[step.run := r.(progress := Writing(todo[1..]))])
  }

  ghost predicate IsInterleaving(w: World, scopes: seq<Scope>, states: seq<State>, steps: seq<Step>) {
    && Follows(w, states, steps)
    && states[0].runs == seq(|scopes|, i requires 0 <= i < |scopes| => Run(scopes[i], Ready))
  }

  ghost predicate Follows(w: World, states: seq<State>, steps: seq<Step>) {
    && |states| == |steps| + 1
    && forall i :: 0 <= i < |steps| ==> Enabled(states[i], steps[i]) && states[i + 1] == Next(w, states[i], steps[i])
  }

  ghost predicate Finished(s: State) {
    forall p :: 0 <= p < |s.runs| ==> s.runs[p].progress == Writing([])
  }

  ghost predicate Apart(w: World, a: Scope, b: Scope) {
    forall asset :: !(InScope(w, a, asset) && InScope(w, b, asset))
  }

  ghost predicate PairwiseApart(w: World, scopes: seq<Scope>) {
    forall p, q :: 0 <= p < q < |scopes| ==> Apart(w, scopes[p], scopes[q])
  }

  // ---- What a script contains ----

  lemma {:induction false} StaleRowsMean(w: World, scope: Scope, detected: set<Key>, t: Table, n: nat, write: Write)
    requires n <= |t|
    ensures write in StaleRows(w, scope, detected, t, n)
       <==> && write.ResolveRow? && write.row < n && t[write.row].status.Open?
            && InScope(w, scope, t[write.row].key.asset) && t[write.row].key !in detected
  {
    hide InScope;
    if n > 0 {
      StaleRowsMean(w, scope, detected, t, n - 1, write);
    }
  }

  lemma {:induction false} MissingRowsMean(existing: set<Key>, ds: seq<Detection>, write: Write)
    ensures write in MissingRows(existing, ds)
       <==> write.InsertRow? && write.detection in ds && write.detection.key !in existing
  {
    if ds != [] {
      var front, last := ds[..|ds| - 1], ds[|ds| - 1];
      assert ds == front + [last];
      MissingRowsMean(existing, front, write);
    }
  }

  lemma ScriptMeans(w: World, scope: Scope, t: Table, write: Write)
    requires scope.None? || UniqueIds(w)
    ensures write in Script(w, scope, t)
       <==> match write
            case ResolveRow(i) =>
              i < |t| && t[i].status.Open? && InScope(w, scope, t[i].key.asset) && !Violates(w, t[i].key)
            case InsertRow(d) => d in Detect(w, scope) && InScope(w, scope, d.key.asset) && !OpenAt(t, d.key)
  {
    hide InScope, UniqueIds, Violates, Detect, OpenAt;
    var ds := Detect(w, scope);
    StaleRowsMean(w, scope, FreshKeys(ds), t, |t|, write);
    MissingRowsMean(OpenKeysInScope(w, scope, t), ds, write);
    match write
    case ResolveRow(i) =>
      if i < |t| {
        DetectedIsFresh(ds, t[i].key);
        DetectMeans(w, scope, t[i].key);
      }
    case InsertRow(d) =>
      OpenInScopeIsExisting(w, scope, t, d.key);
      DetectMeans(w, scope, d.key);
      assert d in ds ==> Detected(ds, d.key);
  }

  // ---- The invariant ----

  // The pair will be open once `todo` is written, if nobody interferes.
  ghost predicate WillBeOpen(t: Table, todo: seq<Write>, key: Key) {
    || (exists i :: 0 <= i < |t| && t[i].status.Open? && t[i].key == key && ResolveRow(i) !in todo)
    || (exists d :: InsertRow(d) in todo && d.key == key)
  }

  // A statement that helps: it resolves a pair that is not violated, or
  // inserts one that is, in the scope of its run.
  ghost predicate Sound(w: World, scope: Scope, t: Table, write: Write) {
    match write
    case ResolveRow(i) => i < |t| && InScope(w, scope, t[i].key.asset) && !Violates(w, t[i].key)
    case InsertRow(d) => InScope(w, scope, d.key.asset) && Violates(w, d.key)
  }

  // A run that has read the table is bound to settle its scope.
  ghost predicate OnCourse(w: World, t: Table, r: Run) {
    r.progress.Writing? ==>
      && (forall write :: write in r.progress.todo ==> Sound(w, r.scope, t, write))
      && (forall key: Key :: InScope(w, r.scope, key.asset) ==>
            (WillBeOpen(t, r.progress.todo, key) <==> Violates(w, key)))
  }

  lemma ReadingSetsCourse(w: World, t: Table, scope: Scope)
    requires scope.None? || UniqueIds(w)
    ensures OnCourse(w, t, Run(scope, Writing(Script(w, scope, t))))
  {
    hide InScope, UniqueIds, Violates, Detect, Script;
    var todo := Script(w, scope, t);
    forall write | write in todo ensures Sound(w, scope, t, write) {
      ScriptIsSound(w, scope, t, write);
    }
    forall key: Key | InScope(w, scope, key.asset) ensures WillBeOpen(t, todo, key) <==> Violates(w, key) {
      CourseOfPair(w, t, scope, todo, key);
    }
  }

  lemma ScriptIsSound(w: World, scope: Scope, t: Table, write: Write)
    requires (scope.None? || UniqueIds(w)) && write in Script(w, scope, t)
    ensures Sound(w, scope, t, write)
    ensures write.InsertRow? ==> !OpenAt(t, write.detection.key)
  {
    hide InScope, UniqueIds, Violates, Detect, Script, OpenAt;
    ScriptMeans(w, scope, t, write);
    if write.InsertRow? {
      assert Detected(Detect(w, scope), write.detection.key);
      DetectMeans(w, scope, write.detection.key);
    }
  }

  lemma CourseOfPair(w: World, t: Table, scope: Scope, todo: seq<Write>, key: Key)
    requires scope.None? || UniqueIds(w)
    requires InScope(w, scope, key.asset) && todo == Script(w, scope, t)
    ensures WillBeOpen(t, todo, key) <==> Violates(w, key)
  {
    hide InScope, UniqueIds, Violates, Detect, Script;
    DetectMeans(w, scope, key);
    forall i: nat | i < |t| ensures ResolveRow(i) in todo <==>
      t[i].status.Open? && InScope(w, scope, t[i].key.asset) && !Violates(w, t[i].key)
    {
      ScriptMeans(w, scope, t, ResolveRow(i));
    }
    forall d: Detection ensures InsertRow(d) in todo <==>
      d in Detect(w, scope) && InScope(w, scope, d.key.asset) && !OpenAt(t, d.key)
    {
      ScriptMeans(w, scope, t, InsertRow(d));
    }
  }

  // A statement of the run itself.
  lemma OwnWriteStaysOnCourse(w: World, t: Table, r: Run, now: int)
    requires OnCourse(w, t, r) && r.progress.Writing? && r.progress.todo != []
    ensures OnCourse(w, Perform(t, r.progress.todo[0], now), r.(progress := Writing(r.progress.todo[1..])))
  {
    hide InScope, Violates;
    var todo := r.progress.todo;
    var t', rest := Perform(t, todo[0], now), todo[1..];
    assert todo == [todo[0]] + rest;
    assert Sound(w, r.scope, t, todo[0]);
    forall write | write in rest ensures Sound(w, r.scope, t', write) {
      assert Sound(w, r.scope, t, write);
    }
    forall key: Key ensures WillBeOpen(t', rest, key) <==> WillBeOpen(t, todo, key) {
      WritingKeepsPromise(t, todo, now, key);
    }
  }

  lemma WritingKeepsPromise(t: Table, todo: seq<Write>, now: int, key: Key)
    requires todo != [] && forall write :: write in todo && write.ResolveRow? ==> write.row < |t|
    ensures WillBeOpen(Perform(t, todo[0], now), todo[1..], key) <==> WillBeOpen(t, todo, key)
  {
    var t', rest := Perform(t, todo[0], now), todo[1..];
    assert todo == [todo[0]] + rest;
    if i :| 0 <= i < |t| && t[i].status.Open? && t[i].key == key && ResolveRow(i) !in todo {
      assert t'[i] == t[i] && ResolveRow(i) !in rest;
    }
    if d :| InsertRow(d) in todo && d.key == key {
      if todo[0] == InsertRow(d) {
        assert t'[|t|] == NewRow(d, now);
        assert ResolveRow(|t|) !in rest;
      } else {
        assert InsertRow(d) in rest;
      }
    }
    if i :| 0 <= i < |t'| && t'[i].status.Open? && t'[i].key == key && ResolveRow(i) !in rest {
      if i < |t| {
        assert t[i] == t'[i] && ResolveRow(i) !in todo;
      } else {
        assert InsertRow(todo[0].detection) in todo;
      }
    }
  }

  // A statement of another run, whether its scope overlaps or not.
  lemma OtherWriteKeepsCourse(w: World, t: Table, r: Run, other: Scope, write: Write, now: int)
    ensures OnCourse(w, t, r) && Sound(w, other, t, write) ==> OnCourse(w, Perform(t, write, now), r)
  {
    hide InScope, Violates, WillBeOpen;
    if r.progress.Writing? && OnCourse(w, t, r) && Sound(w, other, t, write) {
      var todo, t' := r.progress.todo, Perform(t, write, now);
      forall x | x in todo ensures Sound(w, r.scope, t', x) {
        assert Sound(w, r.scope, t, x);
      }
      forall key: Key | InScope(w, r.scope, key.asset) ensures WillBeOpen(t', todo, key) <==> Violates(w, key) {
        OtherWriteKeepsPromise(t, todo, write, now, Violates(w, key), key);
      }
    }
  }

  lemma OtherWriteKeepsPromise(t: Table, todo: seq<Write>, write: Write, now: int, violated: bool, key: Key)
    requires WillBeOpen(t, todo, key) <==> violated
    requires forall x :: x in todo && x.ResolveRow? ==> x.row < |t|
    requires write.ResolveRow? ==> write.row < |t| && (t[write.row].key == key ==> !violated)
    requires write.InsertRow? && write.detection.key == key ==> violated
    ensures WillBeOpen(Perform(t, write, now), todo, key) <==> violated
  {
    var t' := Perform(t, write, now);
    if i :| 0 <= i < |t| && t[i].status.Open? && t[i].key == key && ResolveRow(i) !in todo {
      assert write != ResolveRow(i) ==> t'[i] == t[i];
    }
    if i :| 0 <= i < |t'| && t'[i].status.Open? && t'[i].key == key && ResolveRow(i) !in todo {
      if i < |t| {
        assert t[i] == t'[i];
      }
    }
  }

  lemma OtherKeysUntouched(t: Table, write: Write, now: int, written: Key, key: Key)
    requires write.ResolveRow? ==> write.row < |t| && written == t[write.row].key
    requires write.InsertRow? ==> written == write.detection.key
    requires written != key
    ensures var t' := Perform(t, write, now);
      && |t'| >= |t|
      && (forall i :: 0 <= i < |t'| && t'[i].key == key ==> i < |t| && t'[i] == t[i])
      && (forall i :: 0 <= i < |t| && t[i].key == key ==> t'[i] == t[i])
  {
  }

  ghost predicate AllOnCourse(w: World, s: State) {
    forall p :: 0 <= p < |s.runs| ==> OnCourse(w, s.table, s.runs[p])
  }

  lemma StepKeepsCourse(w: World, s: State, step: Step)
    requires UniqueIds(w) && AllOnCourse(w, s) && Enabled(s, step)
    ensures AllOnCourse(w, Next(w, s, step))
  {
    hide OnCourse, UniqueIds, Script, Perform;
    var s', r := Next(w, s, step), s.runs[step.run];
    forall p | 0 <= p < |s'.runs| ensures OnCourse(w, s'.table, s'.runs[p]) {
      assert OnCourse(w, s.table, s.runs[p]);
      if r.progress.Ready? {
        ReadingSetsCourse(w, s.table, r.scope);
      } else if p == step.run {
        OwnWriteStaysOnCourse(w, s.table, r, step.at);
      } else {
        HeadIsSound(w, s.table, r);
        OtherWriteKeepsCourse(w, s.table, s.runs[p], r.scope, r.progress.todo[0], step.at);
      }
    }
  }

  lemma HeadIsSound(w: World, t: Table, r: Run)
    requires OnCourse(w, t, r) && r.progress.Writing? && r.progress.todo != []
    ensures Sound(w, r.scope, t, r.progress.todo[0])
  {
    assert r.progress.todo[0] in r.progress.todo;
  }

  lemma {:induction false} InterleavingStaysOnCourse(w: World, scopes: seq<Scope>, states: seq<State>,
                                                     steps: seq<Step>, i: nat)
    requires UniqueIds(w) && IsInterleaving(w, scopes, states, steps) && i < |states|
    ensures AllOnCourse(w, states[i])
    ensures |states[i].runs| == |scopes| && forall p :: 0 <= p < |scopes| ==> states[i].runs[p].scope == scopes[p]
  {
    hide UniqueIds, Script, OnCourse;
    if i == 0 {
      forall p | 0 <= p < |scopes| ensures OnCourse(w, states[0].table, states[0].runs[p]) {
        NotReadYet(w, states[0].table, scopes[p]);
      }
    } else {
      hide AllOnCourse;
      InterleavingStaysOnCourse(w, scopes, states, steps, i - 1);
      StepKeepsCourse(w, states[i - 1], steps[i - 1]);
    }
  }

  lemma NotReadYet(w: World, t: Table, scope: Scope)
    ensures OnCourse(w, t, Run(scope, Ready))
  {
  }

  // ---- What stays outside ----

  ghost predicate InSomeScope(w: World, scopes: seq<Scope>, asset: Asset) {
    exists p :: 0 <= p < |scopes| && InScope(w, scopes[p], asset)
  }

  lemma {:induction false} OutsideIsUntouched(w: World, scopes: seq<Scope>, states: seq<State>, steps: seq<Step>,
                                              i: nat, key: Key)
    requires UniqueIds(w) && IsInterleaving(w, scopes, states, steps) && i < |states|
    requires !InSomeScope(w, scopes, key.asset)
    ensures OpenAt(states[i].table, key) <==> OpenAt(states[0].table, key)
  {
    hide UniqueIds, InScope, Script, Violates;
    if i > 0 {
      OutsideIsUntouched(w, scopes, states, steps, i - 1, key);
      InterleavingStaysOnCourse(w, scopes, states, steps, i - 1);
      var s, step := states[i - 1], steps[i - 1];
      var r := s.runs[step.run];
      assert OnCourse(w, s.table, r);
      if r.progress.Writing? {
        HeadIsSound(w, s.table, r);
        var write := r.progress.todo[0];
        assert r.scope == scopes[step.run];
        var written := if write.ResolveRow? then s.table[write.row].key else write.detection.key;
        OtherPairKeepsState(s.table, write, step.at, written, key);
      }
    }
  }

  lemma OtherPairKeepsState(t: Table, write: Write, now: int, written: Key, key: Key)
    requires write.ResolveRow? ==> write.row < |t| && written == t[write.row].key
    requires write.InsertRow? ==> written == write.detection.key
    requires written != key
    ensures OpenAt(Perform(t, write, now), key) <==> OpenAt(t, key)
  {
    OtherKeysUntouched(t, write, now, written, key);
    hide Perform;
    var t' := Perform(t, write, now);
    if i :| 0 <= i < |t| && t[i].status.Open? && t[i].key == key {
      assert t'[i] == t[i];
    }
    if i :| 0 <= i < |t'| && t'[i].status.Open? && t'[i].key == key {
      assert t[i] == t'[i];
    }
  }

  // However runs interleave, statement by statement and whatever their
  // scopes, once all have finished the pairs of their scopes are open exactly
  // if violated, and all others as they were: the result of running them one
  // after the other.
  lemma ParallelRunsSettle(w: World, scopes: seq<Scope>, states: seq<State>, steps: seq<Step>, key: Key)
    requires UniqueIds(w) && IsInterleaving(w, scopes, states, steps)
    requires Finished(states[|steps|])
    ensures OpenAt(states[|steps|].table, key)
       <==> if InSomeScope(w, scopes, key.asset) then Violates(w, key) else OpenAt(states[0].table, key)
  {
    var s := states[|steps|];
    hide UniqueIds, Violates, InScope, IsInterleaving;
    if InSomeScope(w, scopes, key.asset) {
      InterleavingStaysOnCourse(w, scopes, states, steps, |steps|);
      var p :| 0 <= p < |scopes| && InScope(w, scopes[p], key.asset);
      assert OnCourse(w, s.table, s.runs[p]);
      NothingLeftToWrite(s.table, key);
    } else {
      OutsideIsUntouched(w, scopes, states, steps, |steps|, key);
    }
  }

  lemma NothingLeftToWrite(t: Table, key: Key)
    ensures WillBeOpen(t, [], key) <==> OpenAt(t, key)
  {
    if i :| 0 <= i < |t| && t[i].status.Open? && t[i].key == key {
      assert ResolveRow(i) !in [];
    }
  }

  // ---- At most one open row per pair ----

  // No insertion still to come doubles an open row or another insertion.
  ghost predicate WillNotDouble(t: Table, todo: seq<Write>) {
    && (forall d :: InsertRow(d) in todo ==> !OpenAt(t, d.key))
    && (forall k, l :: 0 <= k < l < |todo| && todo[k].InsertRow? && todo[l].InsertRow? ==>
          todo[k].detection.key != todo[l].detection.key)
  }

  ghost predicate NothingDoubled(s: State) {
    && OneOpenRowPerKey(s.table)
    && forall p :: 0 <= p < |s.runs| && s.runs[p].progress.Writing? ==> WillNotDouble(s.table, s.runs[p].progress.todo)
  }

  lemma {:induction false} MissingRowsDistinct(existing: set<Key>, ds: seq<Detection>)
    requires DistinctKeys(ds)
    ensures forall k :: 0 <= k < |MissingRows(existing, ds)| ==>
      && MissingRows(existing, ds)[k].InsertRow?
      && exists i :: 0 <= i < |ds| && ds[i].key == MissingRows(existing, ds)[k].detection.key
    ensures forall k, l :: 0 <= k < l < |MissingRows(existing, ds)| ==>
      MissingRows(existing, ds)[k].detection.key != MissingRows(existing, ds)[l].detection.key
  {
    if ds != [] {
      var n := |ds| - 1;
      MissingRowsDistinct(existing, ds[..n]);
      var rows := MissingRows(existing, ds[..n]);
      forall k | 0 <= k < |rows| ensures rows[k].detection.key != ds[n].key {
        var i :| 0 <= i < |ds[..n]| && ds[..n][i].key == rows[k].detection.key;
        assert ds[i].key != ds[n].key;
      }
    }
  }

  lemma {:induction false} StaleRowsResolve(w: World, scope: Scope, detected: set<Key>, t: Table, n: nat)
    requires n <= |t|
    ensures forall k :: 0 <= k < |StaleRows(w, scope, detected, t, n)| ==>
      StaleRows(w, scope, detected, t, n)[k].ResolveRow?
  {
    if n > 0 {
      StaleRowsResolve(w, scope, detected, t, n - 1);
    }
  }

  lemma ReadingWillNotDouble(w: World, scope: Scope, t: Table)
    requires UniqueIds(w)
    ensures WillNotDouble(t, Script(w, scope, t))
  {
    var ds := Detect(w, scope);
    var stale := StaleRows(w, scope, FreshKeys(ds), t, |t|);
    var missing := MissingRows(OpenKeysInScope(w, scope, t), ds);
    var todo := Script(w, scope, t);
    assert todo == stale + missing;
    forall d | InsertRow(d) in todo ensures !OpenAt(t, d.key) {
      ScriptMeans(w, scope, t, InsertRow(d));
    }
    DetectDistinct(w, scope);
    MissingRowsDistinct(OpenKeysInScope(w, scope, t), ds);
    StaleRowsResolve(w, scope, FreshKeys(ds), t, |t|);
    hide Script, StaleRows, MissingRows, Detect, UniqueIds, OpenAt, InScope, Violates;
    forall k, l | 0 <= k < l < |todo| && todo[k].InsertRow? && todo[l].InsertRow?
      ensures todo[k].detection.key != todo[l].detection.key
    {
      InsertionsComeLast(stale, missing, k);
      InsertionsComeLast(stale, missing, l);
    }
  }

  lemma InsertionsComeLast(stale: seq<Write>, missing: seq<Write>, k: nat)
    requires k < |stale + missing| && (stale + missing)[k].InsertRow?
    requires forall i :: 0 <= i < |stale| ==> stale[i].ResolveRow?
    ensures k >= |stale| && (stale + missing)[k] == missing[k - |stale|]
  {
  }

  lemma WriteKeepsOneOpenRow(t: Table, write: Write, now: int)
    requires OneOpenRowPerKey(t) && (write.InsertRow? ==> !OpenAt(t, write.detection.key))
    ensures OneOpenRowPerKey(Perform(t, write, now))
    ensures forall key :: OpenAt(Perform(t, write, now), key) ==>
      OpenAt(t, key) || (write.InsertRow? && write.detection.key == key)
  {
    var t' := Perform(t, write, now);
    forall key | OpenAt(t', key) ensures OpenAt(t, key) || (write.InsertRow? && write.detection.key == key) {
      var i :| 0 <= i < |t'| && t'[i].status.Open? && t'[i].key == key;
      assert i < |t| ==> t[i] == t'[i];
    }
    forall i, j | 0 <= i < j < |t'| && t'[i].status.Open? && t'[j].status.Open? ensures t'[i].key != t'[j].key {
      assert t'[i] == t[i];
      if j == |t| {
        assert t'[j].key == write.detection.key;
      }
    }
  }

  lemma OwnWriteDoublesNothing(t: Table, todo: seq<Write>, now: int)
    requires OneOpenRowPerKey(t) && todo != [] && WillNotDouble(t, todo)
    ensures OneOpenRowPerKey(Perform(t, todo[0], now)) && WillNotDouble(Perform(t, todo[0], now), todo[1..])
  {
    hide OneOpenRowPerKey, OpenAt, Perform;
    assert todo[0].InsertRow? ==> InsertRow(todo[0].detection) in todo;
    WriteKeepsOneOpenRow(t, todo[0], now);
    forall d | InsertRow(d) in todo[1..] ensures !OpenAt(Perform(t, todo[0], now), d.key) {
      var k :| 0 <= k < |todo[1..]| && todo[1..][k] == InsertRow(d);
      assert todo[k + 1] == InsertRow(d);
    }
  }

  lemma HeadWillNotDouble(t: Table, todo: seq<Write>)
    requires WillNotDouble(t, todo) && todo != []
    ensures todo[0].InsertRow? ==> !OpenAt(t, todo[0].detection.key)
  {
    hide OpenAt;
    assert todo[0].InsertRow? ==> InsertRow(todo[0].detection) in todo;
  }

  // Two runs find the pair violated and, at the start, without an open row.
  ghost predicate Contested(w: World, scopes: seq<Scope>, t: Table, key: Key) {
    && Violates(w, key) && !OpenAt(t, key)
    && exists p, q :: 0 <= p < q < |scopes| && InScope(w, scopes[p], key.asset) && InScope(w, scopes[q], key.asset)
  }

  // Violated pairs open at the start are still open, and what is still to be
  // inserted was not.
  ghost predicate KeepsViolated(w: World, start: Table, s: State) {
    && (forall key :: Violates(w, key) && OpenAt(start, key) ==> OpenAt(s.table, key))
    && (forall p, d :: 0 <= p < |s.runs| && s.runs[p].progress.Writing? && InsertRow(d) in s.runs[p].progress.todo ==>
          !OpenAt(start, d.key))
  }

  lemma SoundWriteKeepsViolated(w: World, scope: Scope, t: Table, write: Write, now: int, key: Key)
    ensures Sound(w, scope, t, write) && Violates(w, key) && OpenAt(t, key) ==> OpenAt(Perform(t, write, now), key)
  {
    hide InScope, Violates;
    if Sound(w, scope, t, write) && Violates(w, key) && OpenAt(t, key) {
      var i :| 0 <= i < |t| && t[i].status.Open? && t[i].key == key;
      assert Perform(t, write, now)[i] == t[i];
    }
  }

  lemma StepKeepsViolated(w: World, start: Table, s: State, step: Step)
    requires UniqueIds(w) && AllOnCourse(w, s) && KeepsViolated(w, start, s) && Enabled(s, step)
    ensures KeepsViolated(w, start, Next(w, s, step))
  {
    hide OnCourse, UniqueIds, Script, Perform, OpenAt, Violates, Sound;
    var s', r := Next(w, s, step), s.runs[step.run];
    assert OnCourse(w, s.table, r);
    if r.progress.Ready? {
      forall d | InsertRow(d) in Script(w, r.scope, s.table) ensures !OpenAt(start, d.key) {
        ScriptIsSound(w, r.scope, s.table, InsertRow(d));
        SoundInsertion(w, r.scope, s.table, d);
      }
    } else {
      HeadIsSound(w, s.table, r);
      forall key | Violates(w, key) && OpenAt(start, key) ensures OpenAt(s'.table, key) {
        SoundWriteKeepsViolated(w, r.scope, s.table, r.progress.todo[0], step.at, key);
      }
    }
  }

  lemma SoundInsertion(w: World, scope: Scope, t: Table, d: Detection)
    requires Sound(w, scope, t, InsertRow(d))
    ensures InScope(w, scope, d.key.asset) && Violates(w, d.key)
  {
  }

  // An insertion by one run cannot be another's too, unless contested.
  lemma OtherWriteDoublesNothing(w: World, scopes: seq<Scope>, start: Table, t: Table, p: nat, q: nat,
                                 todo: seq<Write>, write: Write, now: int)
    requires p < |scopes| && q < |scopes| && p != q && forall key :: !Contested(w, scopes, start, key)
    requires forall d :: InsertRow(d) in todo ==> Sound(w, scopes[p], t, InsertRow(d)) && !OpenAt(start, d.key)
    requires Sound(w, scopes[q], t, write) && (write.InsertRow? ==> !OpenAt(t, write.detection.key))
    requires OneOpenRowPerKey(t) && WillNotDouble(t, todo)
    ensures WillNotDouble(Perform(t, write, now), todo)
  {
    hide OneOpenRowPerKey, OpenAt, Perform, InScope, Violates;
    WriteKeepsOneOpenRow(t, write, now);
    forall d | InsertRow(d) in todo ensures !OpenAt(Perform(t, write, now), d.key) {
      assert Sound(w, scopes[p], t, InsertRow(d));
      assert !Contested(w, scopes, start, d.key);
    }
  }

  lemma StepDoublesNothing(w: World, scopes: seq<Scope>, start: Table, s: State, step: Step)
    requires UniqueIds(w) && AllOnCourse(w, s) && KeepsViolated(w, start, s) && NothingDoubled(s) && Enabled(s, step)
    requires |s.runs| == |scopes| && forall p :: 0 <= p < |scopes| ==> s.runs[p].scope == scopes[p]
    requires forall key :: !Contested(w, scopes, start, key)
    ensures NothingDoubled(Next(w, s, step))
  {
    hide UniqueIds, Script, Perform, OneOpenRowPerKey, WillNotDouble, Contested, Sound, WillBeOpen, Violates, InScope,
        OpenAt;
    var s', r := Next(w, s, step), s.runs[step.run];
    assert OnCourse(w, s.table, r);
    if r.progress.Ready? {
      ReadingWillNotDouble(w, r.scope, s.table);
    } else {
      HeadIsSound(w, s.table, r);
      HeadWillNotDouble(s.table, r.progress.todo);
      OwnWriteDoublesNothing(s.table, r.progress.todo, step.at);
      forall p | 0 <= p < |s'.runs| && p != step.run && s'.runs[p].progress.Writing?
        ensures WillNotDouble(s'.table, s'.runs[p].progress.todo)
      {
        assert OnCourse(w, s.table, s.runs[p]);
        OtherWriteDoublesNothing(w, scopes, start, s.table, p, step.run, s.runs[p].progress.todo, r.progress.todo[0],
                                 step.at);
      }
    }
  }

  lemma {:induction false} InterleavingDoublesNothing(w: World, scopes: seq<Scope>, states: seq<State>,
                                                      steps: seq<Step>, i: nat)
    requires UniqueIds(w) && IsInterleaving(w, scopes, states, steps) && i < |states|
    requires OneOpenRowPerKey(states[0].table) && forall key :: !Contested(w, scopes, states[0].table, key)
    ensures NothingDoubled(states[i]) && KeepsViolated(w, states[0].table, states[i])
  {
    hide UniqueIds, AllOnCourse, Script, OneOpenRowPerKey, Contested, Violates, OpenAt;
    if i > 0 {
      InterleavingDoublesNothing(w, scopes, states, steps, i - 1);
      InterleavingStaysOnCourse(w, scopes, states, steps, i - 1);
      hide NothingDoubled, KeepsViolated;
      StepKeepsViolated(w, states[0].table, states[i - 1], steps[i - 1]);
      StepDoublesNothing(w, scopes, states[0].table, states[i - 1], steps[i - 1]);
    }
  }

  // At every moment of every interleaving of disjoint runs a pair has at most
  // one open row.
  lemma ParallelRunsKeepOneOpenRow(w: World, scopes: seq<Scope>, states: seq<State>, steps: seq<Step>, i: nat)
    requires UniqueIds(w) && PairwiseApart(w, scopes) && IsInterleaving(w, scopes, states, steps) && i < |states|
    requires OneOpenRowPerKey(states[0].table)
    ensures OneOpenRowPerKey(states[i].table)
  {
    forall key ensures !Contested(w, scopes, states[0].table, key) {
      NothingContested(w, scopes, states[0].table, key);
    }
    InterleavingDoublesNothing(w, scopes, states, steps, i);
  }

  lemma NothingContested(w: World, scopes: seq<Scope>, t: Table, key: Key)
    requires PairwiseApart(w, scopes)
    ensures !Contested(w, scopes, t, key)
  {
    hide InScope, Violates, OpenAt;
    forall p, q | 0 <= p < q < |scopes|
      ensures !(InScope(w, scopes[p], key.asset) && InScope(w, scopes[q], key.asset))
    {
      assert Apart(w, scopes[p], scopes[q]);
    }
  }

  // ---- A run without interruption ----

  function PerformAll(t: Table, todo: seq<Write>, now: int): Table
    decreases |todo|
  {
    if todo == [] then t else PerformAll(Perform(t, todo[0], now), todo[1..], now)
  }

  lemma {:induction false} PerformConcat(t: Table, a: seq<Write>, b: seq<Write>, now: int)
    ensures PerformAll(t, a + b, now) == PerformAll(PerformAll(t, a, now), b, now)
    decreases |a|
  {
    if a == [] {
      assert a + b == b;
    } else {
      assert (a + b)[1..] == a[1..] + b;
      PerformConcat(Perform(t, a[0], now), a[1..], b, now);
    }
  }

  lemma PerformOne(t: Table, write: Write, now: int)
    ensures PerformAll(t, [write], now) == Perform(t, write, now)
  {
    assert [write][1..] == [];
    assert PerformAll(Perform(t, write, now), [], now) == Perform(t, write, now);
  }

  lemma {:induction false} StaleRowsSettle(w: World, scope: Scope, detected: set<Key>, t: Table, n: nat, now: int)
    requires n <= |t|
    ensures PerformAll(t, StaleRows(w, scope, detected, t, n), now)
         == SettleAll(w, scope, detected, now, t[..n]) + t[n..]
  {
    hide InScope, SettleAll, PerformAll;
    if n == 0 {
      NothingSettled(w, scope, detected, t, now);
    } else {
      hide Settle, StaleRows, IsStale, Perform;
      StaleRowsSettle(w, scope, detected, t, n - 1, now);
      SettleNext(w, scope, detected, now, t, n - 1, n);
      var before := StaleRows(w, scope, detected, t, n - 1);
      var settled := SettleAll(w, scope, detected, now, t[..n - 1]) + t[n - 1..];
      RowNotYetSettled(w, scope, detected, t, n - 1, now);
      StaleRowsNext(w, scope, detected, t, n - 1, n);
      StaleIsSettled(w, scope, detected, now, t[n - 1]);
      if IsStale(w, scope, detected, t[n - 1]) {
        PerformConcat(t, before, [ResolveRow(n - 1)], now);
        PerformOne(settled, ResolveRow(n - 1), now);
        ResolvesOneRow(settled, n - 1, now);
      } else {
        assert before + [] == before && settled[n - 1 := t[n - 1]] == settled;
      }
    }
  }

  lemma ResolvesOneRow(t: Table, row: nat, now: int)
    requires row < |t|
    ensures Perform(t, ResolveRow(row), now) == t[row := t[row].(status := Resolved, resolvedAt := Some(now))]
  {
  }

  lemma NothingSettled(w: World, scope: Scope, detected: set<Key>, t: Table, now: int)
    ensures PerformAll(t, [], now) == SettleAll(w, scope, detected, now, t[..0]) + t[0..]
  {
    assert [] + t[0..] == t;
  }

  lemma RowNotYetSettled(w: World, scope: Scope, detected: set<Key>, t: Table, i: nat, now: int)
    requires i < |t|
    ensures var settled := SettleAll(w, scope, detected, now, t[..i]) + t[i..];
      |settled| == |t| && settled[i] == t[i]
  {
  }

  lemma StaleRowsNext(w: World, scope: Scope, detected: set<Key>, t: Table, i: nat, next: nat)
    requires next == i + 1 <= |t|
    ensures StaleRows(w, scope, detected, t, next)
         == StaleRows(w, scope, detected, t, i) + if IsStale(w, scope, detected, t[i]) then [ResolveRow(i)] else []
  {
    hide IsStale;
  }

  lemma StaleIsSettled(w: World, scope: Scope, detected: set<Key>, now: int, v: Violation)
    ensures Settle(w, scope, detected, now, v)
         == if IsStale(w, scope, detected, v) then v.(status := Resolved, resolvedAt := Some(now)) else v
  {
    hide InScope;
  }

  lemma {:induction false} MissingRowsInsert(existing: set<Key>, ds: seq<Detection>, t: Table, now: int)
    ensures PerformAll(t, MissingRows(existing, ds), now) == t + NewRows(existing, ds, now)
  {
    if ds == [] {
      assert t + [] == t;
    } else {
      var front, d := ds[..|ds| - 1], ds[|ds| - 1];
      MissingRowsInsert(existing, front, t, now);
      var before, rows := MissingRows(existing, front), NewRows(existing, front, now);
      assert before + [] == before && rows + [] == rows;
      if d.key !in existing {
        PerformConcat(t, before, [InsertRow(d)], now);
        PerformOne(t + rows, InsertRow(d), now);
        assert (t + rows) + [NewRow(d, now)] == t + (rows + [NewRow(d, now)]);
      }
    }
  }

  // Statement by statement and without interruption, a run does to the table
  // what the reconciliation of `Violations` says.
  lemma UninterruptedRunReconciles(w: World, scope: Scope, t: Table, now: int)
    ensures PerformAll(t, Script(w, scope, t), now) == Reconcile(w, scope, t, now)
  {
    hide Detect, InScope, StaleRows, MissingRows;
    var ds := Detect(w, scope);
    var stale, missing := StaleRows(w, scope, FreshKeys(ds), t, |t|), MissingRows(OpenKeysInScope(w, scope, t), ds);
    PerformConcat(t, stale, missing, now);
    StaleRowsSettle(w, scope, FreshKeys(ds), t, |t|, now);
    assert t[..|t|] == t && SettleAll(w, scope, FreshKeys(ds), now, t)
      + t[|t|..] == SettleAll(w, scope, FreshKeys(ds), now, t);
    MissingRowsInsert(OpenKeysInScope(w, scope, t), ds, SettleAll(w, scope, FreshKeys(ds), now, t), now);
  }

  // ---- All shards at once ----

  function AsScopes(sets: seq<set<Id>>): seq<Scope> {
    seq(|sets|, i requires 0 <= i < |sets| => Some(sets[i]))
  }

  // The scopes of the calls 0 .. k-1 of n shards.
  function ShardScopes(w: World, n: nat, k: nat): seq<set<Id>> {
    if k == 0 then [] else ShardScopes(w, n, k - 1) + ScopesOf(w, Some(k - 1), Some(n))
  }

  ghost predicate Disjoint(sets: seq<set<Id>>) {
    forall i, j :: 0 <= i < j < |sets| ==> sets[i] !! sets[j]
  }

  lemma DisjointConcat(a: seq<set<Id>>, b: seq<set<Id>>)
    requires Disjoint(a) && Disjoint(b) && forall x, y :: x in a && y in b ==> x !! y
    ensures Disjoint(a + b)
  {
    var all := a + b;
    forall i, j | 0 <= i < j < |all| ensures all[i] !! all[j] {
      if i < |a| <= j {
        assert all[i] in a && all[j] in b;
      }
    }
  }

  lemma {:induction false} SegmentScopesDisjoint(w: World, shardIndex: Option<int>, shardCount: Option<int>, n: nat)
    requires UniqueIds(w) && UniqueSegments(w) && n <= |w.segments|
    ensures Disjoint(SegmentScopes(w, shardIndex, shardCount, w.segments[..n]))
    ensures forall scope :: scope in SegmentScopes(w, shardIndex, shardCount, w.segments[..n]) ==>
      exists i :: 0 <= i < n && scope == HostIdsOf(w.hosts, w.segments[i].id)
  {
    hide IsMine, HostIdsOf, UniqueIds;
    if n > 0 {
      SegmentScopesDisjoint(w, shardIndex, shardCount, n - 1);
      assert w.segments[..n][..n - 1] == w.segments[..n - 1];
      var front, segment := SegmentScopes(w, shardIndex, shardCount, w.segments[..n - 1]), w.segments[n - 1];
      var ids := HostIdsOf(w.hosts, segment.id);
      forall scope | scope in front ensures scope !! ids {
        var i :| 0 <= i < n - 1 && scope == HostIdsOf(w.hosts, w.segments[i].id);
        SegmentsShareNoHost(w, w.segments[i].id, segment.id);
      }
      DisjointConcat(front, [ids]);
      assert front + [] == front;
    }
  }

  lemma CallScopesDisjoint(w: World, shardIndex: Option<int>, shardCount: Option<int>)
    requires UniqueIds(w) && UniqueSegments(w)
    ensures Disjoint(ScopesOf(w, shardIndex, shardCount))
  {
    hide IsMine, HostIdsOf, UniqueIds, UniqueSegments, UnassignedHosts;
    assert w.segments[..|w.segments|] == w.segments;
    SegmentScopesDisjoint(w, shardIndex, shardCount, |w.segments|);
    var segmentScopes, free := SegmentScopes(w, shardIndex, shardCount, w.segments), UnassignedHosts(w.hosts);
    forall scope | scope in segmentScopes ensures scope !! free {
      var i :| 0 <= i < |w.segments| && scope == HostIdsOf(w.hosts, w.segments[i].id);
      UnassignedAreInNoSegment(w, w.segments[i].id);
    }
    DisjointConcat(segmentScopes, [free]);
    assert segmentScopes + [] == segmentScopes;
  }

  lemma {:induction false} ShardScopesDisjoint(w: World, n: nat, k: nat)
    requires UniqueIds(w) && UniqueSegments(w) && k <= n
    ensures Disjoint(ShardScopes(w, n, k))
    ensures forall scope :: scope in ShardScopes(w, n, k) ==>
      exists i :: 0 <= i < k && scope in ScopesOf(w, Some(i), Some(n))
  {
    hide UniqueIds, UniqueSegments, ScopesOf;
    if k > 0 {
      ShardScopesDisjoint(w, n, k - 1);
      CallScopesDisjoint(w, Some(k - 1), Some(n));
      var front, last := ShardScopes(w, n, k - 1), ScopesOf(w, Some(k - 1), Some(n));
      forall x, y | x in front && y in last ensures x !! y {
        var i :| 0 <= i < k - 1 && x in ScopesOf(w, Some(i), Some(n));
        ShardsAreDisjoint(w, n, i, k - 1, x, y);
      }
      DisjointConcat(front, last);
    }
  }

  lemma DisjointScopesAreApart(w: World, sets: seq<set<Id>>)
    requires Disjoint(sets)
    ensures PairwiseApart(w, AsScopes(sets))
  {
    forall p, q | 0 <= p < q < |sets| ensures Apart(w, AsScopes(sets)[p], AsScopes(sets)[q]) {
      forall asset ensures !(InScope(w, Some(sets[p]), asset) && InScope(w, Some(sets[q]), asset)) {
        NotInBoth(w, sets[p], sets[q], asset);
      }
    }
  }

  lemma {:induction false} ShardScopesReach(w: World, n: nat, k: nat, asset: Asset)
    ensures Reaches(w, ShardScopes(w, n, k), asset)
       <==> exists i :: 0 <= i < k && Reaches(w, ScopesOf(w, Some(i), Some(n)), asset)
  {
    hide Reaches, ScopesOf;
    if k == 0 {
      NothingReached(w, asset);
    } else {
      ShardScopesReach(w, n, k - 1, asset);
      ReachesConcat(w, ShardScopes(w, n, k - 1), ScopesOf(w, Some(k - 1), Some(n)), asset);
    }
  }

  lemma NothingReached(w: World, asset: Asset)
    ensures !Reaches(w, [], asset)
  {
  }

  lemma ReachesMeansInScope(w: World, sets: seq<set<Id>>, asset: Asset)
    ensures Reaches(w, sets, asset) <==> InSomeScope(w, AsScopes(sets), asset)
  {
    hide InScope;
    if i :| 0 <= i < |sets| && InScope(w, Some(sets[i]), asset) {
      assert AsScopes(sets)[i] == Some(sets[i]);
    }
    if p :| 0 <= p < |AsScopes(sets)| && InScope(w, AsScopes(sets)[p], asset) {
      assert AsScopes(sets)[p] == Some(sets[p]);
    }
  }

  function Indices(n: nat): seq<int> {
    seq(n, i => i)
  }

  lemma AllShardsReachCovered(w: World, n: nat, asset: Asset)
    requires UniqueIds(w) && n >= 1
    ensures Reaches(w, ShardScopes(w, n, n), asset) <==> Covered(w, asset)
  {
    hide UniqueIds, Covered, Reaches, ScopesOf;
    var calls := Indices(n);
    forall i | 0 <= i < n ensures i in calls {
      assert calls[i] == i;
    }
    AllCallsReachCovered(w, n, calls, asset);
    ShardScopesReach(w, n, n, asset);
    if i :| 0 <= i < n && Reaches(w, ScopesOf(w, Some(i), Some(n)), asset) {
      assert calls[i] == i;
    }
  }

  // The evaluations of all segments and of all shards may run in parallel:
  // with references intact, every interleaving of their statements ends with
  // exactly the pairs open that one global evaluation leaves open.
  lemma ParallelShardsEqualGlobal(w: World, n: nat, states: seq<State>, steps: seq<Step>, now: int, key: Key)
    requires UniqueIds(w) && n >= 1
    requires IsInterleaving(w, AsScopes(ShardScopes(w, n, n)), states, steps) && Finished(states[|steps|])
    requires Intact(w, states[0].table)
    ensures OpenAt(states[|steps|].table, key) <==> OpenAt(Reconcile(w, None, states[0].table, now), key)
  {
    var t := states[0].table;
    var last := states[|steps|];
    hide UniqueIds, Violates, OpenAt, Covered, Reaches, Intact, Reconcile, ShardScopes, IsInterleaving, AsScopes,
        InSomeScope;
    var sets := ShardScopes(w, n, n);
    ParallelRunsSettle(w, AsScopes(sets), states, steps, key);
    ReachesMeansInScope(w, sets, key.asset);
    AllShardsReachCovered(w, n, key.asset);
    var calls := Indices(n);
    forall i | 0 <= i < n ensures i in calls {
      assert calls[i] == i;
    }
    SplitRunResult(w, n, calls, t, now, key);
    SplitEqualsGlobal(w, n, calls, t, now, key);
  }

  // And no interleaving of them ever doubles a row.
  lemma ParallelShardsKeepOneOpenRow(w: World, n: nat, states: seq<State>, steps: seq<Step>, i: nat)
    requires UniqueIds(w) && UniqueSegments(w)
    requires IsInterleaving(w, AsScopes(ShardScopes(w, n, n)), states, steps) && i < |states|
    requires OneOpenRowPerKey(states[0].table)
    ensures OneOpenRowPerKey(states[i].table)
  {
    hide IsInterleaving, ShardScopes, UniqueIds, UniqueSegments, AsScopes, OneOpenRowPerKey;
    ShardScopesDisjoint(w, n, n);
    DisjointScopesAreApart(w, ShardScopes(w, n, n));
    ParallelRunsKeepOneOpenRow(w, AsScopes(ShardScopes(w, n, n)), states, steps, i);
  }

  // ---- Runs that overlap in scope ----

  lemma {:induction false} WritesAppend(t: Table, todo: seq<Write>, now: int, n: nat)
    requires n <= |t| && forall write :: write in todo && write.ResolveRow? ==> write.row < n
    ensures var t' := PerformAll(t, todo, now);
      && |t'| >= |t| && t'[n..|t|] == t[n..]
      && forall d :: InsertRow(d) in todo ==> NewRow(d, now) in t'[|t|..]
    decreases |todo|
  {
    if todo != [] {
      var t1, rest := Perform(t, todo[0], now), todo[1..];
      assert todo == [todo[0]] + rest;
      WritesAppend(t1, rest, now, n);
      var t' := PerformAll(t1, rest, now);
      assert t1[n..][..|t| - n] == t[n..];
      assert t'[n..|t|] == t'[n..|t1|][..|t| - n];
      forall d | InsertRow(d) in todo ensures NewRow(d, now) in t'[|t|..] {
        if InsertRow(d) in rest {
          assert t'[|t1|..] == t'[|t|..][|t1| - |t|..];
        } else {
          assert t1[|t|] == NewRow(d, now);
          assert t'[n..|t1|][|t| - n] == t1[n..][|t| - n];
          assert t'[|t|..][0] == NewRow(d, now);
        }
      }
    }
  }

  // Run `p` alone, from s until it has nothing left to write.
  lemma {:induction false} Drain(w: World, s: State, p: nat, now: int, todo: seq<Write>)
    returns (states: seq<State>, steps: seq<Step>)
    requires p < |s.runs| && s.runs[p].progress == Writing(todo)
    ensures Follows(w, states, steps) && states[0] == s
    ensures states[|steps|] == State(PerformAll(s.table, todo, now), s.runs[p := s.runs[p].(progress := Writing([]))])
    decreases |todo|
  {
    hide Perform, Script;
    states, steps := [s], [];
    if todo != [] {
      var s' := Next(w, s, Step(p, now));
      var states', steps' := Drain(w, s', p, now, todo[1..]);
      JoinRuns(w, [s, s'], [Step(p, now)], states', steps');
      states, steps := [s, s'] + states'[1..], [Step(p, now)] + steps';
    }
  }

  // Runs p and q of the list both read the table before either writes, then
  // write one after the other: a pair both miss gets two open rows.
  lemma ContestDoublesRows(w: World, scopes: seq<Scope>, p: nat, q: nat, t: Table, now: int, key: Key)
    returns (states: seq<State>, steps: seq<Step>)
    requires UniqueIds(w) && p < q < |scopes|
    requires InScope(w, scopes[p], key.asset) && InScope(w, scopes[q], key.asset)
    requires Violates(w, key) && !OpenAt(t, key)
    ensures IsInterleaving(w, scopes, states, steps) && states[0].table == t
    ensures !OneOpenRowPerKey(states[|steps|].table)
    ensures |states[|steps|].runs| == |scopes|
    ensures states[|steps|].runs[p].progress == states[|steps|].runs[q].progress == Writing([])
  {
    hide UniqueIds, InScope, Violates, OpenAt, Script, PerformAll;
    var s0 := State(t, seq(|scopes|, i requires 0 <= i < |scopes| => Run(scopes[i], Ready)));
    var s1 := Next(w, s0, Step(p, now));
    var s2 := Next(w, s1, Step(q, now));
    var todoP, todoQ := Script(w, scopes[p], t), Script(w, scopes[q], t);
    var statesP, stepsP := Drain(w, s2, p, now, todoP);
    var s3 := statesP[|stepsP|];
    var statesQ, stepsQ := Drain(w, s3, q, now, todoQ);
    var s4 := statesQ[|stepsQ|];
    var bothRead := [Step(p, now), Step(q, now)];
    JoinRuns(w, [s0, s1, s2], bothRead, statesP, stepsP);
    JoinRuns(w, [s0, s1, s2] + statesP[1..], bothRead + stepsP, statesQ, stepsQ);
    states, steps := [s0, s1, s2] + statesP[1..] + statesQ[1..], bothRead + stepsP + stepsQ;
    BothInsert(w, scopes[p], t, now, key, t);
    BothInsert(w, scopes[q], t, now, key, s3.table);
    TwoOpenRows(t, s3.table, s4.table, key);
  }

  // For two runs alone, that is a finished interleaving.
  lemma OverlapDoublesRows(w: World, a: Scope, b: Scope, t: Table, now: int, key: Key)
    returns (states: seq<State>, steps: seq<Step>)
    requires UniqueIds(w) && InScope(w, a, key.asset) && InScope(w, b, key.asset)
    requires Violates(w, key) && !OpenAt(t, key)
    ensures IsInterleaving(w, [a, b], states, steps) && states[0].table == t
    ensures Finished(states[|steps|]) && !OneOpenRowPerKey(states[|steps|].table)
  {
    hide UniqueIds, InScope, Violates, OpenAt, OneOpenRowPerKey, IsInterleaving;
    states, steps := ContestDoublesRows(w, [a, b], 0, 1, t, now, key);
  }

  // Every interleaving of the runs, from a table with at most one open row
  // per pair, keeps it that way.
  ghost predicate NeverDoubles(w: World, scopes: seq<Scope>, t: Table) {
    forall states: seq<State>, steps: seq<Step>, i: nat ::
      i < |states| && IsInterleaving(w, scopes, states, steps) && states[0].table == t ==>
        OneOpenRowPerKey(states[i].table)
  }

  // That holds exactly if every violated pair in the scopes of two of the
  // runs already has its open row.
  lemma NeverDoublesIff(w: World, scopes: seq<Scope>, t: Table)
    requires UniqueIds(w) && OneOpenRowPerKey(t)
    ensures NeverDoubles(w, scopes, t) <==> forall key :: !Contested(w, scopes, t, key)
  {
    hide UniqueIds, OneOpenRowPerKey, IsInterleaving, InScope, Violates, OpenAt;
    if key :| Contested(w, scopes, t, key) {
      var p, q :| 0 <= p < q < |scopes| && InScope(w, scopes[p], key.asset) && InScope(w, scopes[q], key.asset);
      var states, steps := ContestDoublesRows(w, scopes, p, q, t, 0, key);
      HasLastState(w, scopes, states, steps);
    } else {
      forall states: seq<State>, steps: seq<Step>, i: nat
        | i < |states| && IsInterleaving(w, scopes, states, steps) && states[0].table == t
        ensures OneOpenRowPerKey(states[i].table)
      {
        InterleavingDoublesNothing(w, scopes, states, steps, i);
      }
    }
  }

  lemma HasLastState(w: World, scopes: seq<Scope>, states: seq<State>, steps: seq<Step>)
    requires IsInterleaving(w, scopes, states, steps)
    ensures |states| == |steps| + 1
  {
  }

  lemma JoinRuns(w: World, first: seq<State>, firstSteps: seq<Step>, second: seq<State>, secondSteps: seq<Step>)
    requires Follows(w, first, firstSteps) && Follows(w, second, secondSteps) && second[0] == first[|firstSteps|]
    ensures Follows(w, first + second[1..], firstSteps + secondSteps)
    ensures (first + second[1..])[|firstSteps + secondSteps|] == second[|secondSteps|]
  {
    hide Next, Enabled;
    var states, steps := first + second[1..], firstSteps + secondSteps;
    var n := |firstSteps|;
    assert forall i :: n <= i < |states| ==> states[i] == second[i - n];
    forall i | 0 <= i < |steps| ensures Enabled(states[i], steps[i]) && states[i + 1] == Next(w, states[i], steps[i]) {
      if i < n {
        assert Enabled(first[i], firstSteps[i]) && first[i + 1] == Next(w, first[i], firstSteps[i]);
      } else {
        var k := i - n;
        assert Enabled(second[k], secondSteps[k]) && second[k + 1] == Next(w, second[k], secondSteps[k]);
        assert steps[i] == secondSteps[k] && states[i] == second[k] && states[i + 1] == second[k + 1];
      }
    }
  }

  lemma BothInsert(w: World, scope: Scope, t: Table, now: int, key: Key, from: Table)
    requires UniqueIds(w) && InScope(w, scope, key.asset) && Violates(w, key) && !OpenAt(t, key) && |from| >= |t|
    ensures var t' := PerformAll(from, Script(w, scope, t), now);
      && |t'| >= |from| && t'[|t|..|from|] == from[|t|..]
      && exists i :: |from| <= i < |t'| && t'[i].status.Open? && t'[i].key == key
  {
    hide UniqueIds, InScope, Violates, OpenAt, Script, PerformAll, Detect;
    var todo := Script(w, scope, t);
    forall write | write in todo && write.ResolveRow? ensures write.row < |t| {
      ScriptMeans(w, scope, t, write);
    }
    WritesAppend(from, todo, now, |t|);
    DetectMeans(w, scope, key);
    var d :| d in Detect(w, scope) && d.key == key;
    ScriptMeans(w, scope, t, InsertRow(d));
    var t' := PerformAll(from, todo, now);
    var k :| 0 <= k < |t'[|from|..]| && t'[|from|..][k] == NewRow(d, now);
    assert t'[|from| + k] == NewRow(d, now);
  }

  lemma TwoOpenRows(t: Table, middle: Table, last: Table, key: Key)
    requires |t| <= |middle| <= |last| && last[|t|..|middle|] == middle[|t|..]
    requires exists i :: |t| <= i < |middle| && middle[i].status.Open? && middle[i].key == key
    requires exists i :: |middle| <= i < |last| && last[i].status.Open? && last[i].key == key
    ensures !OneOpenRowPerKey(last)
  {
    var i :| |t| <= i < |middle| && middle[i].status.Open? && middle[i].key == key;
    var j :| |middle| <= j < |last| && last[j].status.Open? && last[j].key == key;
    assert last[i] == last[|t|..|middle|][i - |t|] == middle[|t|..][i - |t|];
  }
}
