// The policy_violations table. A row's position is its identity.
module Violations {
  import opened Options
  import opened JsText
  import opened Assets
  import opened Inventory
  import opened PolicyEngine
  import NewestFirst

  datatype Status = Open | Acknowledged | Resolved | OtherStatus(text: JsString)

  datatype Violation = Violation(key: Key, severity: Severity, details: Value, status: Status,
                                 detectedAt: int, resolvedAt: Option<int>)

  type Table = seq<Violation>

  ghost predicate OpenAt(t: Table, key: Key) {
    exists i :: 0 <= i < |t| && t[i].status.Open? && t[i].key == key
  }

  // ---- One evaluation ----

  function FreshKeys(ds: seq<Detection>): set<Key> {
    set d | d in ds :: d.key
  }

  function OpenKeysInScope(w: World, scope: Scope, t: Table): set<Key> {
    set v | v in t && v.status.Open? && InScope(w, scope, v.key.asset) :: v.key
  }

  // An open row of the scope that is no longer detected is resolved.
  function Settle(w: World, scope: Scope, detected: set<Key>, now: int, v: Violation): Violation {
    if v.status.Open? && InScope(w, scope, v.key.asset) && v.key !in detected
    then v.(status := Resolved, resolvedAt := Some(now))
    else v
  }

  function SettleAll(w: World, scope: Scope, detected: set<Key>, now: int, t: Table): Table {
    seq(|t|, i requires 0 <= i < |t| => Settle(w, scope, detected, now, t[i]))
  }

  function NewRow(d: Detection, now: int): Violation {
    Violation(d.key, d.severity, d.details, Open, now, None)
  }

  // Detections without an open row in the scope get one.
  function NewRows(existing: set<Key>, ds: seq<Detection>, now: int): Table {
    if ds == [] then []
    else
      var d := ds[|ds| - 1];
      NewRows(existing, ds[..|ds| - 1], now) + if d.key in existing then [] else [NewRow(d, now)]
  }

  function Reconcile(w: World, scope: Scope, t: Table, now: int): Table {
    var ds := Detect(w, scope);
    SettleAll(w, scope, FreshKeys(ds), now, t) + NewRows(OpenKeysInScope(w, scope, t), ds, now)
  }

  function OpenRows(t: Table): Table {
    if t == [] then []
    else OpenRows(t[..|t| - 1]) + if t[|t| - 1].status.Open? then [t[|t| - 1]] else []
  }

  // `ON DELETE CASCADE` of a policy.
  function WithoutPolicy(t: Table, policy: Id): Table {
    if t == [] then []
    else WithoutPolicy(t[..|t| - 1], policy) + if t[|t| - 1].key.policy == policy then [] else [t[|t| - 1]]
  }

  // PATCH of a row's status; an absent status leaves it, resolving stamps the time.
  function Patched(t: Table, row: nat, status: Option<Status>, now: int): Table {
    if row >= |t| then t
    else
      var v := t[row];
      t[row := v.(status := if status.Some? then status.value else v.status,
                  resolvedAt := if status == Some(Resolved) then Some(now) else v.resolvedAt)]
  }

  lemma SettleNext(w: World, scope: Scope, detected: set<Key>, now: int, t: Table, i: nat, next: nat)
    requires next == i + 1 <= |t|
    ensures SettleAll(w, scope, detected, now, t[..next]) + t[next..]
         == (SettleAll(w, scope, detected, now, t[..i]) + t[i..])[i := Settle(w, scope, detected, now, t[i])]
  {
    hide Settle;
    assert t[i..] == [t[i]] + t[next..];
  }

  lemma NewRowsNext(existing: set<Key>, ds: seq<Detection>, now: int, i: nat, next: nat)
    requires next == i + 1 <= |ds|
    ensures NewRows(existing, ds[..next], now)
         == NewRows(existing, ds[..i], now) + if ds[i].key in existing then [] else [NewRow(ds[i], now)]
  {
    assert ds[..next][..i] == ds[..i];
  }

  lemma NoNewRows(existing: set<Key>, ds: seq<Detection>, now: int)
    ensures NewRows(existing, ds[..0], now) == []
  {
  }

  class ViolationStore {
    var violations: Table

    constructor ()
      ensures violations == []
    {
      violations := [];
    }

    // Detects, resolves what is stale and inserts what is new; returns the
    // open rows, newest first.
    method EvaluatePolicies(w: World, scope: Scope, now: int) returns (open: seq<Violation>)
      modifies this
      ensures violations == Reconcile(w, scope, old(violations), now)
      ensures open == NewestFirst.Sort(OpenRows(violations), (v: Violation) => v.detectedAt)
      ensures AreOpenRows(open, violations)
    {
      var freshDetections := DetectViolations(w, scope);
      hide Detect, InScope, NewRows, NewestFirst.Sort, OpenRows, NewRow, AreOpenRows;
      var before := violations;
      var freshKeys := FreshKeys(freshDetections);
      for i := 0 to |before|
        invariant violations == SettleAll(w, scope, freshKeys, now, before[..i]) + before[i..]
      {
        SettleNext(w, scope, freshKeys, now, before, i, i + 1);
        var v := before[i];
        if v.status.Open? && InScope(w, scope, v.key.asset) {
          if v.key !in freshKeys {
            violations := violations[i := v.(status := Resolved, resolvedAt := Some(now))];
          }
        }
      }
      assert before[..|before|] == before;
      var existingOpenKeys := OpenKeysInScope(w, scope, before);
      ghost var settled := violations;
      NoNewRows(existingOpenKeys, freshDetections, now);
      for i := 0 to |freshDetections|
        invariant violations == settled + NewRows(existingOpenKeys, freshDetections[..i], now)
      {
        hide SettleAll, Settle, OpenKeysInScope, FreshKeys;
        var detection := freshDetections[i];
        NewRowsNext(existingOpenKeys, freshDetections, now, i, i + 1);
        if detection.key !in existingOpenKeys {
          violations := violations + [NewRow(detection, now)];
        }
      }
      assert freshDetections[..|freshDetections|] == freshDetections;
      open := NewestFirst.Sort(OpenRows(violations), (v: Violation) => v.detectedAt);
      SortedOpenRows(violations);
    }

    method Patch(row: nat, status: Option<Status>, now: int) returns (found: bool)
      modifies this
      ensures found <==> row < |old(violations)|
      ensures !found ==> violations == old(violations)
      ensures |violations| == |old(violations)|
      ensures forall i :: 0 <= i < |violations| && i != row ==> violations[i] == old(violations)[i]
      ensures found ==>
        var before, after := old(violations)[row], violations[row];
        && after.key == before.key && after.severity == before.severity
        && after.details == before.details && after.detectedAt == before.detectedAt
        && (status.None? ==> after == before)
        && (status.Some? ==> after.status == status.value)
        && after.resolvedAt == if status == Some(Resolved) then Some(now) else before.resolvedAt
      ensures violations == Patched(old(violations), row, status, now)
    {
      if row >= |violations| {
        return false;
      }
      var v := violations[row];
      if status.Some? {
        v := v.(status := status.value);
      }
      if status == Some(Resolved) {
        v := v.(resolvedAt := Some(now));
      }
      violations := violations[row := v];
      found := true;
    }
  }

  lemma DetectByNext(w: World, scope: Scope, i: nat, next: nat)
    requires next == i + 1 <= |w.policies|
    ensures DetectBy(w, scope, w.policies[..next])
         == DetectBy(w, scope, w.policies[..i])
          + (var p := w.policies[i]; if p.enabled then DetectAmong(w, p, scope, Candidates(w, p.target)) else [])
  {
    hide DetectAmong, Candidates;
    assert w.policies[..next][..i] == w.policies[..i];
  }

  lemma DetectAmongNext(w: World, p: Policy, scope: Scope, cs: seq<Candidate>, i: nat, next: nat)
    requires next == i + 1 <= |cs|
    ensures DetectAmong(w, p, scope, cs[..next])
         == DetectAmong(w, p, scope, cs[..i])
          + if OwnedBy(cs[i].owner, scope) && Satisfies(w, p, cs[i])
            then [Detection(Key(p.id, cs[i].asset), p.severity, cs[i].details)] else []
  {
    hide Satisfies, OwnedBy;
    assert cs[..next][..i] == cs[..i];
  }

  lemma NoCandidates(w: World, p: Policy, scope: Scope)
    ensures DetectAmong(w, p, scope, []) == []
  {
  }

  method DetectViolations(w: World, scope: Scope) returns (ds: seq<Detection>)
    ensures ds == Detect(w, scope)
  {
    ds := [];
    hide DetectAmong, Candidates, Satisfies, OwnedBy;
    for i := 0 to |w.policies|
      invariant ds == DetectBy(w, scope, w.policies[..i])
    {
      hide DetectBy;
      DetectByNext(w, scope, i, i + 1);
      var policy := w.policies[i];
      if policy.enabled {
        var candidates := Candidates(w, policy.target);
        ghost var before := ds;
        NoCandidates(w, policy, scope);
        for j := 0 to |candidates|
          invariant ds == before + DetectAmong(w, policy, scope, candidates[..j])
        {
          DetectAmongNext(w, policy, scope, candidates, j, j + 1);
          var c := candidates[j];
          if OwnedBy(c.owner, scope) && Satisfies(w, policy, c) {
            ds := ds + [Detection(Key(policy.id, c.asset), policy.severity, c.details)];
          }
        }
        assert candidates[..|candidates|] == candidates;
      }
    }
    assert w.policies[..|w.policies|] == w.policies;
  }

  // Every open row of the table, as often as it occurs, and no other.
  lemma {:induction false} OpenRowsMean(t: Table)
    ensures forall v :: multiset(OpenRows(t))[v] == if v.status.Open? then multiset(t)[v] else 0
  {
    if t != [] {
      var front, last := t[..|t| - 1], t[|t| - 1];
      OpenRowsMean(front);
      assert t == front + [last];
    }
  }

  // What a run returns: the open rows, newest first.
  ghost predicate AreOpenRows(open: seq<Violation>, t: Table) {
    && (forall v :: multiset(open)[v] == if v.status.Open? then multiset(t)[v] else 0)
    && forall i, j :: 0 <= i < j < |open| ==> open[i].detectedAt >= open[j].detectedAt
  }

  lemma SortedOpenRows(t: Table)
    ensures AreOpenRows(NewestFirst.Sort(OpenRows(t), (v: Violation) => v.detectedAt), t)
  {
    var time := (v: Violation) => v.detectedAt;
    OpenRowsMean(t);
    NewestFirst.SortSorts(OpenRows(t), time);
    var open := NewestFirst.Sort(OpenRows(t), time);
    forall i, j | 0 <= i < j < |open| ensures open[i].detectedAt >= open[j].detectedAt {
      assert time(open[i]) >= time(open[j]);
    }
  }

  // ---- What an evaluation leaves open ----

  lemma OpenConcat(a: Table, b: Table, key: Key)
    ensures OpenAt(a + b, key) <==> OpenAt(a, key) || OpenAt(b, key)
  {
    if OpenAt(a, key) {
      var i :| 0 <= i < |a| && a[i].status.Open? && a[i].key == key;
      assert (a + b)[i] == a[i];
    }
    if OpenAt(b, key) {
      var i :| 0 <= i < |b| && b[i].status.Open? && b[i].key == key;
      assert (a + b)[|a| + i] == b[i];
    }
  }

  lemma OpenSettled(w: World, scope: Scope, detected: set<Key>, now: int, t: Table, key: Key)
    ensures OpenAt(SettleAll(w, scope, detected, now, t), key)
       <==> OpenAt(t, key) && (InScope(w, scope, key.asset) ==> key in detected)
  {
    hide InScope;
    var t' := SettleAll(w, scope, detected, now, t);
    if OpenAt(t, key) && (InScope(w, scope, key.asset) ==> key in detected) {
      var i :| 0 <= i < |t| && t[i].status.Open? && t[i].key == key;
      assert t'[i] == t[i];
    }
    if OpenAt(t', key) {
      var i :| 0 <= i < |t'| && t'[i].status.Open? && t'[i].key == key;
      assert t[i].key == key && t[i].status.Open?;
    }
  }

  lemma {:induction false} OpenNewRows(existing: set<Key>, ds: seq<Detection>, now: int, key: Key)
    ensures OpenAt(NewRows(existing, ds, now), key) <==> Detected(ds, key) && key !in existing
    ensures forall v :: v in NewRows(existing, ds, now) ==> v.status.Open? && v.key !in existing && Detected(ds, v.key)
  {
    if ds != [] {
      var front, d := ds[..|ds| - 1], ds[|ds| - 1];
      assert ds == front + [d];
      OpenNewRows(existing, front, now, key);
      var added := if d.key in existing then [] else [NewRow(d, now)];
      OpenConcat(NewRows(existing, front, now), added, key);
      assert OpenAt(added, key) <==> d.key !in existing && d.key == key by {
        if d.key !in existing && d.key == key {
          assert added[0].key == key;
        }
      }
      assert d in ds;
    }
  }

  // After a run the open pairs of its scope are exactly the violated ones;
  // outside the scope nothing changed. Without a scope: all open pairs.
  lemma OpenAfterRun(w: World, scope: Scope, t: Table, now: int, key: Key)
    requires scope.None? || UniqueIds(w)
    ensures OpenAt(Reconcile(w, scope, t, now), key)
       <==> if InScope(w, scope, key.asset) then Violates(w, key) else OpenAt(t, key)
  {
    hide InScope, UniqueIds, Violates;
    var ds := Detect(w, scope);
    var existing := OpenKeysInScope(w, scope, t);
    DetectMeans(w, scope, key);
    assert key in FreshKeys(ds) <==> Detected(ds, key);
    assert key in existing <==> OpenAt(t, key) && InScope(w, scope, key.asset) by {
      if OpenAt(t, key) && InScope(w, scope, key.asset) {
        var i :| 0 <= i < |t| && t[i].status.Open? && t[i].key == key;
        assert t[i] in t;
      }
    }
    OpenSettled(w, scope, FreshKeys(ds), now, t, key);
    OpenNewRows(existing, ds, now, key);
    OpenConcat(SettleAll(w, scope, FreshKeys(ds), now, t), NewRows(existing, ds, now), key);
  }

  lemma GlobalRunOpensViolations(w: World, t: Table, now: int, key: Key)
    ensures OpenAt(Reconcile(w, None, t, now), key) <==> Violates(w, key)
  {
    OpenAfterRun(w, None, t, now, key);
  }

  // No run changes a row that is not open or not in its scope, and of the
  // others only the status and its time stamp; added rows are open and in scope.
  lemma RunTouchesOnlyItsScope(w: World, scope: Scope, t: Table, now: int)
    requires scope.None? || UniqueIds(w)
    ensures var t' := Reconcile(w, scope, t, now);
      && |t| <= |t'|
      && (forall i :: 0 <= i < |t| ==>
            || t'[i] == t[i]
            || (&& t[i].status.Open? && InScope(w, scope, t[i].key.asset) && !Violates(w, t[i].key)
                && t'[i] == t[i].(status := Resolved, resolvedAt := Some(now))))
      && (forall i :: |t| <= i < |t'| ==>
            t'[i].status.Open? && InScope(w, scope, t'[i].key.asset) && Violates(w, t'[i].key) && !OpenAt(t, t'[i].key))
  {
    hide InScope, UniqueIds, Violates, Detect;
    var ds := Detect(w, scope);
    var t' := Reconcile(w, scope, t, now);
    forall i | 0 <= i < |t| && t'[i] != t[i] ensures !Violates(w, t[i].key) {
      DetectMeans(w, scope, t[i].key);
      DetectedIsFresh(ds, t[i].key);
    }
    forall i | |t| <= i < |t'|
      ensures t'[i].status.Open? && InScope(w, scope, t'[i].key.asset) && Violates(w, t'[i].key) && !OpenAt(t,
          t'[i].key)
    {
      OpenNewRows(OpenKeysInScope(w, scope, t), ds, now, t'[i].key);
      assert t'[i] in NewRows(OpenKeysInScope(w, scope, t), ds, now);
      DetectMeans(w, scope, t'[i].key);
      OpenInScopeIsExisting(w, scope, t, t'[i].key);
    }
  }

  lemma DetectedIsFresh(ds: seq<Detection>, key: Key)
    ensures key in FreshKeys(ds) <==> Detected(ds, key)
  {
  }

  lemma OpenInScopeIsExisting(w: World, scope: Scope, t: Table, key: Key)
    ensures key in OpenKeysInScope(w, scope, t) <==> OpenAt(t, key) && InScope(w, scope, key.asset)
  {
    hide InScope;
    if OpenAt(t, key) && InScope(w, scope, key.asset) {
      var i :| 0 <= i < |t| && t[i].status.Open? && t[i].key == key;
      assert t[i] in t;
    }
  }

  // A second run straight after the first writes nothing, whenever it happens.
  lemma SecondRunWritesNothing(w: World, scope: Scope, t: Table, now: int, later: int)
    requires scope.None? || UniqueIds(w)
    ensures Reconcile(w, scope, Reconcile(w, scope, t, now), later) == Reconcile(w, scope, t, now)
  {
    hide InScope, UniqueIds, Violates, Detect;
    var t' := Reconcile(w, scope, t, now);
    var t'' := Reconcile(w, scope, t', later);
    RunTouchesOnlyItsScope(w, scope, t', later);
    forall i | 0 <= i < |t'| ensures t''[i] == t'[i] {
      if t'[i].status.Open? && InScope(w, scope, t'[i].key.asset) {
        OpenAfterRun(w, scope, t, now, t'[i].key);
      }
    }
    if |t''| > |t'| {
      var key := t''[|t'|].key;
      OpenAfterRun(w, scope, t, now, key);
      assert false;
    }
  }

  // ---- At most one open row per pair, over whole histories ----

  ghost predicate OneOpenRowPerKey(t: Table) {
    forall i, j :: 0 <= i < j < |t| && t[i].status.Open? && t[j].status.Open? ==> t[i].key != t[j].key
  }

  lemma {:induction false} NewRowsDistinct(existing: set<Key>, ds: seq<Detection>, now: int)
    requires DistinctKeys(ds)
    ensures OneOpenRowPerKey(NewRows(existing, ds, now))
  {
    if ds != [] {
      var n := |ds| - 1;
      NewRowsDistinct(existing, ds[..n], now);
      OpenNewRows(existing, ds[..n], now, ds[n].key);
    }
  }

  lemma DetectDistinct(w: World, scope: Scope)
    requires UniqueIds(w)
    ensures DistinctKeys(Detect(w, scope))
  {
    DetectByDistinct(w, scope, w.policies);
  }

  lemma RunKeepsOneOpenRow(w: World, scope: Scope, t: Table, now: int)
    requires UniqueIds(w) && OneOpenRowPerKey(t)
    ensures OneOpenRowPerKey(Reconcile(w, scope, t, now))
  {
    hide InScope, UniqueIds, Violates;
    var t' := Reconcile(w, scope, t, now);
    RunTouchesOnlyItsScope(w, scope, t, now);
    DetectDistinct(w, scope);
    NewRowsDistinct(OpenKeysInScope(w, scope, t), Detect(w, scope), now);
    var added := NewRows(OpenKeysInScope(w, scope, t), Detect(w, scope), now);
    forall i, j | 0 <= i < j < |t'| && t'[i].status.Open? && t'[j].status.Open? ensures t'[i].key != t'[j].key {
      if i < |t| {
        assert t'[i].key == t[i].key && t[i].status.Open?;
      } else {
        assert t'[i] == added[i - |t|] && t'[j] == added[j - |t|];
      }
    }
  }

  datatype Action =
    | Evaluate(world: World, scope: Scope, at: int)
    | SetStatus(row: nat, status: Option<Status>, at: int)
    | DeletePolicy(policy: Id)

  function Apply(t: Table, a: Action): Table {
    match a
    case Evaluate(w, scope, now) => Reconcile(w, scope, t, now)
    case SetStatus(row, status, now) => Patched(t, row, status, now)
    case DeletePolicy(policy) => WithoutPolicy(t, policy)
  }

  function History(t: Table, actions: seq<Action>): Table {
    if actions == [] then t
    else Apply(History(t, actions[..|actions| - 1]), actions[|actions| - 1])
  }

  // Inventories with unique ids: what the schema guarantees of an evaluation.
  ghost predicate WellFormed(a: Action) {
    a.Evaluate? ==> UniqueIds(a.world)
  }

  // Sets a row back to open while another row of its pair is open.
  ghost predicate ReopensBesideOpen(t: Table, a: Action) {
    && a.SetStatus? && a.status == Some(Open) && a.row < |t|
    && exists j :: 0 <= j < |t| && j != a.row && t[j].key == t[a.row].key && t[j].status.Open?
  }

  lemma ActionKeepsOneOpenRowIff(t: Table, a: Action)
    requires OneOpenRowPerKey(t) && WellFormed(a)
    ensures OneOpenRowPerKey(Apply(t, a)) <==> !ReopensBesideOpen(t, a)
  {
    match a
    case Evaluate(w, scope, now) => RunKeepsOneOpenRow(w, scope, t, now);
    case DeletePolicy(policy) => DeletionKeepsOneOpenRow(t, policy);
    case SetStatus(row, status, now) =>
      if status == Some(Open) && row < |t| {
        ReopeningIsSafeIff(t, row, now);
      }
  }

  // The table after n actions.
  function TableAfter(t: Table, actions: seq<Action>, n: nat): Table
    requires n <= |actions|
  {
    History(t, actions[..n])
  }

  lemma TableAtFirst(t: Table, actions: seq<Action>)
    ensures TableAfter(t, actions, 0) == t
  {
  }

  lemma TableNext(t: Table, actions: seq<Action>, n: nat, next: nat)
    requires next == n + 1 <= |actions|
    ensures TableAfter(t, actions, next) == Apply(TableAfter(t, actions, n), actions[n])
  {
    hide Apply;
    assert actions[..next][..n] == actions[..n];
  }

  lemma {:induction false} OneOpenRowUpTo(t: Table, actions: seq<Action>, n: nat)
    requires n <= |actions| && OneOpenRowPerKey(t) && forall a :: a in actions ==> WellFormed(a)
    requires || (forall k :: 0 <= k < n ==> !ReopensBesideOpen(TableAfter(t, actions, k), actions[k]))
             || (forall k :: 0 <= k <= n ==> OneOpenRowPerKey(TableAfter(t, actions, k)))
    ensures OneOpenRowPerKey(TableAfter(t, actions, n))
    ensures forall k :: 0 <= k < n ==> !ReopensBesideOpen(TableAfter(t, actions, k), actions[k])
  {
    hide OneOpenRowPerKey, ReopensBesideOpen, Apply, WellFormed, TableAfter;
    if n == 0 {
      TableAtFirst(t, actions);
    } else {
      OneOpenRowUpTo(t, actions, n - 1);
      TableNext(t, actions, n - 1, n);
      assert actions[n - 1] in actions;
      ActionKeepsOneOpenRowIff(TableAfter(t, actions, n - 1), actions[n - 1]);
    }
  }

  // Over every history of evaluations of any inventories under any scopes,
  // status changes and policy deletions, a pair has at most one open row at
  // every moment exactly if no row is ever set back to open while another row
  // of its pair is open.
  lemma HistoryKeepsOneOpenRowIff(t: Table, actions: seq<Action>)
    requires OneOpenRowPerKey(t) && forall a :: a in actions ==> WellFormed(a)
    ensures (forall n :: 0 <= n <= |actions| ==> OneOpenRowPerKey(TableAfter(t, actions, n)))
       <==> (forall n :: 0 <= n < |actions| ==> !ReopensBesideOpen(TableAfter(t, actions, n), actions[n]))
  {
    hide OneOpenRowPerKey, ReopensBesideOpen, TableAfter, WellFormed;
    if forall n :: 0 <= n <= |actions| ==> OneOpenRowPerKey(TableAfter(t, actions, n)) {
      OneOpenRowUpTo(t, actions, |actions|);
    }
    if forall n :: 0 <= n < |actions| ==> !ReopensBesideOpen(TableAfter(t, actions, n), actions[n]) {
      forall n | 0 <= n <= |actions| ensures OneOpenRowPerKey(TableAfter(t, actions, n)) {
        OneOpenRowUpTo(t, actions, n);
      }
    }
  }

  // Any status change except setting a row back to open.
  ghost predicate NeverReopens(a: Action) {
    WellFormed(a) && (a.SetStatus? ==> a.status != Some(Open))
  }

  // So every history that never reopens a row keeps it.
  lemma HistoryKeepsOneOpenRow(t: Table, actions: seq<Action>)
    requires OneOpenRowPerKey(t) && forall a :: a in actions ==> NeverReopens(a)
    ensures OneOpenRowPerKey(History(t, actions))
  {
    hide OneOpenRowPerKey, WellFormed;
    forall n | 0 <= n < |actions| ensures !ReopensBesideOpen(TableAfter(t, actions, n), actions[n]) {
      assert actions[n] in actions;
    }
    assert actions[..|actions|] == actions;
    OneOpenRowUpTo(t, actions, |actions|);
  }

  lemma {:induction false} DeletionKeepsOneOpenRow(t: Table, policy: Id)
    requires OneOpenRowPerKey(t)
    ensures OneOpenRowPerKey(WithoutPolicy(t, policy))
    ensures forall v :: v in WithoutPolicy(t, policy) ==> v in t
  {
    if t != [] {
      var front, last := t[..|t| - 1], t[|t| - 1];
      DeletionKeepsOneOpenRow(front, policy);
      assert t == front + [last];
      var kept := WithoutPolicy(front, policy);
      forall i | 0 <= i < |kept| && kept[i].status.Open? && last.status.Open? ensures kept[i].key != last.key {
        assert kept[i] in front;
      }
    }
  }

  // Deleting a policy removes its rows, and leaves all others in their order.
  lemma {:induction false} DeletionMeans(t: Table, policy: Id)
    ensures forall v :: multiset(WithoutPolicy(t, policy))[v] == if v.key.policy == policy then 0 else multiset(t)[v]
    ensures (forall v :: v in t ==> v.key.policy != policy) ==> WithoutPolicy(t, policy) == t
  {
    if t != [] {
      var front, last := t[..|t| - 1], t[|t| - 1];
      assert t == front + [last];
      DeletionMeans(front, policy);
    }
  }

  // The route also lets a row be set back to open. That keeps the property
  // exactly when no other row of the same pair is open at that moment.
  lemma ReopeningIsSafeIff(t: Table, row: nat, now: int)
    requires OneOpenRowPerKey(t) && row < |t|
    ensures OneOpenRowPerKey(Patched(t, row, Some(Open), now))
       <==> forall j :: 0 <= j < |t| && j != row && t[j].key == t[row].key ==> !t[j].status.Open?
  {
    var t' := Patched(t, row, Some(Open), now);
    if j :| 0 <= j < |t| && j != row && t[j].key == t[row].key && t[j].status.Open? {
      assert t'[j] == t[j] && t'[row].status.Open? && t'[row].key == t'[j].key;
    }
  }

  // And evaluation itself sets the trap: a violated pair whose row was
  // acknowledged gets a second, open row; reopening the first then leaves two.
  lemma AcknowledgedThenReopened(w: World, t: Table, row: nat, now: int)
    requires row < |t| && t[row].status.Acknowledged?
    ensures Violates(w, t[row].key) ==>
      !OneOpenRowPerKey(History(t, [Evaluate(w, None, now), SetStatus(row, Some(Open), now)]))
  {
    hide Violates, InScope;
    if Violates(w, t[row].key) {
      GlobalRunOpensViolations(w, t, now, t[row].key);
      ReopenedBesideFresh(w, t, row, now, t[row].key);
    }
  }

  lemma ReopenedBesideFresh(w: World, t: Table, row: nat, now: int, key: Key)
    requires row < |t| && t[row].key == key && t[row].status.Acknowledged?
    requires OpenAt(Reconcile(w, None, t, now), key)
    ensures !OneOpenRowPerKey(History(t, [Evaluate(w, None, now), SetStatus(row, Some(Open), now)]))
  {
    hide Violates, InScope;
    var evaluated := Reconcile(w, None, t, now);
    RunTouchesOnlyItsScope(w, None, t, now);
    hide Reconcile;
    var j :| 0 <= j < |evaluated| && evaluated[j].status.Open? && evaluated[j].key == t[row].key;
    var actions := [Evaluate(w, None, now), SetStatus(row, Some(Open), now)];
    assert actions[..1] == [actions[0]] && [actions[0]][..0] == [];
    assert History(t, []) == t;
    assert History(t, [actions[0]]) == evaluated;
    var t' := Patched(evaluated, row, Some(Open), now);
    assert History(t, actions) == t';
    assert t'[j] == evaluated[j] && t'[row].key == t'[j].key;
  }

  // ---- Runs over disjoint sets of hosts ----

  // The two orders give the same rows: those already there end up identical,
  // those added are the same two groups.
  lemma DisjointRunsCommute(w: World, a: set<Id>, b: set<Id>, t: Table, now: int)
    requires UniqueIds(w) && a !! b
    ensures var ab := Reconcile(w, Some(b), Reconcile(w, Some(a), t, now), now);
      var ba := Reconcile(w, Some(a), Reconcile(w, Some(b), t, now), now);
      var addedA := Reconcile(w, Some(a), t, now)[|t|..];
      var addedB := Reconcile(w, Some(b), t, now)[|t|..];
      ab[..|t|] == ba[..|t|] && ab[|t|..] == addedA + addedB && ba[|t|..] == addedB + addedA
  {
    SecondRunSeesOriginal(w, a, b, t, now);
    SecondRunSeesOriginal(w, b, a, t, now);
    var ab := Reconcile(w, Some(b), Reconcile(w, Some(a), t, now), now);
    var ba := Reconcile(w, Some(a), Reconcile(w, Some(b), t, now), now);
    forall i | 0 <= i < |t| ensures ab[i] == ba[i] {
      NotInBoth(w, a, b, t[i].key.asset);
    }
  }

  lemma NotInBoth(w: World, a: set<Id>, b: set<Id>, asset: Asset)
    requires a !! b
    ensures !(InScope(w, Some(a), asset) && InScope(w, Some(b), asset))
  {
  }

  lemma SecondRunSeesOriginal(w: World, a: set<Id>, b: set<Id>, t: Table, now: int)
    requires UniqueIds(w) && a !! b
    ensures var first := Reconcile(w, Some(a), t, now);
      var both := Reconcile(w, Some(b), first, now);
      && |both| >= |first| >= |t|
      && both[|t|..] == first[|t|..] + Reconcile(w, Some(b), t, now)[|t|..]
      && forall i :: 0 <= i < |t| ==>
           both[i] == Settle(w, Some(b), FreshKeys(Detect(w, Some(b))), now,
                             Settle(w, Some(a), FreshKeys(Detect(w, Some(a))), now, t[i]))
  {
    hide InScope, UniqueIds, Violates, Detect;
    var first := Reconcile(w, Some(a), t, now);
    RunTouchesOnlyItsScope(w, Some(a), t, now);
    var ds, existing := Detect(w, Some(b)), OpenKeysInScope(w, Some(b), t);
    forall key ensures key in OpenKeysInScope(w, Some(b), first) <==> key in existing {
      OpenInScopeIsExisting(w, Some(b), first, key);
      OpenInScopeIsExisting(w, Some(b), t, key);
      NotInBoth(w, a, b, key.asset);
      OpenAfterRun(w, Some(a), t, now, key);
    }
    assert OpenKeysInScope(w, Some(b), first) == existing;
    var settled := SettleAll(w, Some(b), FreshKeys(ds), now, first);
    forall i | |t| <= i < |first| ensures settled[i] == first[i] {
      NotInBoth(w, a, b, first[i].key.asset);
    }
    assert settled[|t|..] == first[|t|..];
    assert Reconcile(w, Some(b), first, now) == settled + NewRows(existing, ds, now);
    assert Reconcile(w, Some(b), t, now)[|t|..] == NewRows(existing, ds, now);
  }

  // ---- What an inserted row records ----

  lemma {:induction false} DetectAmongOrigin(w: World, p: Policy, scope: Scope, candidates: seq<Candidate>,
                                             d: Detection)
    requires d in DetectAmong(w, p, scope, candidates)
    ensures exists c ::
      c in candidates && Satisfies(w, p, c) && d == Detection(Key(p.id, c.asset), p.severity, c.details)
  {
    hide Satisfies;
    var front, last := candidates[..|candidates| - 1], candidates[|candidates| - 1];
    assert candidates == front + [last];
    if d in DetectAmong(w, p, scope, front) {
      DetectAmongOrigin(w, p, scope, front, d);
    }
  }

  lemma {:induction false} DetectByOrigin(w: World, scope: Scope, policies: seq<Policy>, d: Detection)
    requires d in DetectBy(w, scope, policies)
    ensures exists p, c ::
      && p in policies && p.enabled && c in Candidates(w, p.target) && Satisfies(w, p, c)
      && d == Detection(Key(p.id, c.asset), p.severity, c.details)
  {
    hide Satisfies, Candidates;
    var front, last := policies[..|policies| - 1], policies[|policies| - 1];
    assert policies == front + [last];
    if d in DetectBy(w, scope, front) {
      DetectByOrigin(w, scope, front, d);
    } else {
      DetectAmongOrigin(w, last, scope, Candidates(w, last.target), d);
    }
  }

  lemma {:induction false} NewRowOrigin(existing: set<Key>, ds: seq<Detection>, now: int, v: Violation)
    requires v in NewRows(existing, ds, now)
    ensures exists d :: d in ds && v == NewRow(d, now)
  {
    var front, d := ds[..|ds| - 1], ds[|ds| - 1];
    assert ds == front + [d];
    if v in NewRows(existing, front, now) {
      NewRowOrigin(existing, front, now, v);
    }
  }

  // Each added row carries the severity of the policy it violates and the
  // details of the asset, is open, and is stamped with the time of the run.
  lemma AddedRowsRecordTheirPolicy(w: World, scope: Scope, t: Table, now: int, i: nat)
    requires |t| <= i < |Reconcile(w, scope, t, now)|
    ensures exists p, c ::
      && p in w.policies && p.enabled && c in Candidates(w, p.target) && Satisfies(w, p, c)
      && Reconcile(w, scope, t, now)[i] == Violation(Key(p.id, c.asset), p.severity, c.details, Open, now, None)
  {
    hide Satisfies, Candidates, Detect, InScope;
    var ds, existing := Detect(w, scope), OpenKeysInScope(w, scope, t);
    var v := Reconcile(w, scope, t, now)[i];
    assert v in NewRows(existing, ds, now);
    NewRowOrigin(existing, ds, now, v);
    var d :| d in ds && v == NewRow(d, now);
    DetectedByPolicies(w, scope, d);
  }

  lemma DetectedByPolicies(w: World, scope: Scope, d: Detection)
    requires d in Detect(w, scope)
    ensures exists p, c ::
      && p in w.policies && p.enabled && c in Candidates(w, p.target) && Satisfies(w, p, c)
      && d == Detection(Key(p.id, c.asset), p.severity, c.details)
  {
    hide Satisfies, Candidates;
    DetectByOrigin(w, scope, w.policies, d);
  }
}
