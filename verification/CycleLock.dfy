// The collection-cycle lock: any number of replicas issue SET NX PX, GET and
// DEL against one Redis key. Each command is one atomic step; between a
// replica's commands anything may happen, including the key's expiry.
module CycleLock {
  import opened Options
  import opened JsText

  type Replica = JsString

  datatype Key = Absent | Held(holder: Replica, expiresAt: int)

  // Where a replica is inside `withCollectionCycleLock`. `deadline` is the
  // moment of its SET plus the ttl it asked for.
  datatype Phase =
    | Idle
    | InFn(deadline: int)
    | Finished(deadline: int)
    | SawHolder(deadline: int, reply: Option<Replica>)

  datatype State = State(now: int, key: Key, phase: map<Replica, Phase>)

  datatype Step =
    | Advance(elapsed: nat)
    | Expire
    | SetNxPx(replica: Replica, ttl: nat)
    | FinishFn(replica: Replica)
    | GetHolder(replica: Replica)
    | Release(replica: Replica)
    | AbandonRelease(replica: Replica)

  function PhaseOf(s: State, r: Replica): Phase {
    if r in s.phase then s.phase[r] else Idle
  }

  // Redis answers for an expired key as if it were gone.
  function Visible(s: State): Key {
    if s.key.Held? && s.now <= s.key.expiresAt then s.key else Absent
  }

  predicate Enabled(s: State, step: Step) {
    match step
    case Advance(_) => true
    case Expire => s.key.Held? && s.now > s.key.expiresAt
    case SetNxPx(r, ttl) => PhaseOf(s, r).Idle? && ttl > 0
    case FinishFn(r) => PhaseOf(s, r).InFn?
    case GetHolder(r) => PhaseOf(s, r).Finished?
    case Release(r) => PhaseOf(s, r).SawHolder?
    case AbandonRelease(r) => PhaseOf(s, r).Finished? || PhaseOf(s, r).SawHolder?
  }

  // The guard in front of DEL: only a replica whose GET read its own id.
  predicate IssuesDel(s: State, step: Step) {
    step.Release? && PhaseOf(s, step.replica).SawHolder? && PhaseOf(s, step.replica).reply == Some(step.replica)
  }

  function Apply(s: State, step: Step): State
    requires Enabled(s, step)
  {
    match step
    case Advance(elapsed) => s.(now := s.now + elapsed)
    case Expire => s.(key := Absent)
    case SetNxPx(r, ttl) =>
      if Visible(s).Held? then s  // another replica is running this cycle
      else s.(key := Held(r, s.now + ttl), phase := s.phase[r := InFn(s.now + ttl)])
    case FinishFn(r) => s.(phase := s.phase[r := Finished(PhaseOf(s, r).deadline)])
    case GetHolder(r) =>
      var reply := if Visible(s).Held? then Some(Visible(s).holder) else None;
      s.(phase := s.phase[r := SawHolder(PhaseOf(s, r).deadline, reply)])
    case Release(r) =>
      s.(key := if IssuesDel(s, step) then Absent else s.key, phase := s.phase[r := Idle])
    case AbandonRelease(r) => s.(phase := s.phase[r := Idle])
  }

  // A run of the protocol from a moment when nobody is in a cycle. The key
  // may already be set, for instance by a replica that died.
  ghost predicate IsRun(states: seq<State>, steps: seq<Step>) {
    && |states| == |steps| + 1
    && (forall r :: PhaseOf(states[0], r).Idle?)
    && forall i :: 0 <= i < |steps| ==> Enabled(states[i], steps[i]) && states[i + 1] == Apply(states[i], steps[i])
  }

  // Nobody between its SET and the end of its release has outlived its ttl.
  ghost predicate Timely(s: State) {
    forall r :: !PhaseOf(s, r).Idle? ==> s.now <= PhaseOf(s, r).deadline
  }

  ghost predicate TimelyRun(states: seq<State>, steps: seq<Step>) {
    IsRun(states, steps) && forall i :: 0 <= i < |states| ==> Timely(states[i])
  }

  // Whoever is between SET and the end of its release is the key's holder.
  ghost predicate HoldersAreTrue(s: State) {
    forall r :: !PhaseOf(s, r).Idle? ==>
      && s.key == Held(r, PhaseOf(s, r).deadline)
      && (PhaseOf(s, r).SawHolder? ==> PhaseOf(s, r).reply == Some(r))
  }

  lemma StepKeepsHoldersTrue(s: State, step: Step)
    requires Enabled(s, step) && Timely(s) && HoldersAreTrue(s)
    ensures HoldersAreTrue(Apply(s, step))
  {
    var s' := Apply(s, step);
    forall r | !PhaseOf(s', r).Idle?
      ensures s'.key == Held(r, PhaseOf(s', r).deadline)
      ensures PhaseOf(s', r).SawHolder? ==> PhaseOf(s', r).reply == Some(r)
    {
      if !PhaseOf(s, r).Idle? {
        assert s.key == Held(r, PhaseOf(s, r).deadline) && Visible(s) == s.key;
      }
    }
  }

  lemma {:induction false} TimelyRunKeepsHoldersTrue(states: seq<State>, steps: seq<Step>, i: nat)
    requires TimelyRun(states, steps) && i < |states|
    ensures HoldersAreTrue(states[i])
  {
    if i > 0 {
      TimelyRunKeepsHoldersTrue(states, steps, i - 1);
      StepKeepsHoldersTrue(states[i - 1], steps[i - 1]);
    }
  }

  // ---- Mutual exclusion ----

  // At most one replica is anywhere between its SET and the end of its release.
  ghost predicate Exclusive(s: State) {
    forall a, b :: !PhaseOf(s, a).Idle? && !PhaseOf(s, b).Idle? ==> a == b
  }

  // Somebody tries a SET while another replica is past its deadline and has
  // not finished its release.
  ghost predicate TriesWhileOverrun(s: State, step: Step) {
    step.SetNxPx? && exists a :: a != step.replica && !PhaseOf(s, a).Idle? && s.now > PhaseOf(s, a).deadline
  }

  // Exclusive, and until its deadline the one inside holds the key; later the
  // key may be gone, but it is nobody else's.
  ghost predicate HolderIsAlone(s: State) {
    && Exclusive(s)
    && forall a :: !PhaseOf(s, a).Idle? ==>
         || s.key == Held(a, PhaseOf(s, a).deadline)
         || (s.key.Absent? && s.now > PhaseOf(s, a).deadline)
  }

  lemma StepKeepsHolderAlone(s: State, step: Step)
    requires Enabled(s, step) && HolderIsAlone(s) && !TriesWhileOverrun(s, step)
    ensures HolderIsAlone(Apply(s, step))
  {
    var s' := Apply(s, step);
    if step.SetNxPx? && s' != s {
      forall a | a != step.replica ensures PhaseOf(s', a).Idle? {
        assert PhaseOf(s', a) == PhaseOf(s, a);
      }
    } else {
      forall a
        ensures !PhaseOf(s', a).Idle? ==> !PhaseOf(s, a).Idle? && PhaseOf(s', a).deadline == PhaseOf(s, a).deadline
      {
      }
    }
  }

  // Such a SET finds no live key.
  lemma TryWhileOverrunSucceeds(s: State, step: Step)
    requires Enabled(s, step) && HolderIsAlone(s) && TriesWhileOverrun(s, step)
    ensures !Exclusive(Apply(s, step))
  {
    var a :| a != step.replica && !PhaseOf(s, a).Idle? && s.now > PhaseOf(s, a).deadline;
    var s' := Apply(s, step);
    assert !PhaseOf(s', a).Idle? && !PhaseOf(s', step.replica).Idle?;
  }

  // As long as no such SET has been tried, the one inside is alone; and as
  // long as runs are exclusive, none has been tried.
  lemma {:induction false} HolderIsAloneUpTo(states: seq<State>, steps: seq<Step>, i: nat)
    requires IsRun(states, steps) && i < |states|
    requires || (forall k :: 0 <= k < i ==> !TriesWhileOverrun(states[k], steps[k]))
             || (forall k :: 0 <= k <= i ==> Exclusive(states[k]))
    ensures HolderIsAlone(states[i])
    ensures forall k :: 0 <= k < i ==> !TriesWhileOverrun(states[k], steps[k])
  {
    if i > 0 {
      HolderIsAloneUpTo(states, steps, i - 1);
      if TriesWhileOverrun(states[i - 1], steps[i - 1]) {
        TryWhileOverrunSucceeds(states[i - 1], steps[i - 1]);
      } else {
        StepKeepsHolderAlone(states[i - 1], steps[i - 1]);
      }
    }
  }

  // In every interleaving, the lock excludes throughout exactly if nobody
  // tries a SET while another replica has overrun its ttl and is still inside.
  lemma ExclusionIff(states: seq<State>, steps: seq<Step>)
    requires IsRun(states, steps)
    ensures (forall i :: 0 <= i < |states| ==> Exclusive(states[i]))
       <==> (forall k :: 0 <= k < |steps| ==> !TriesWhileOverrun(states[k], steps[k]))
  {
    if forall i :: 0 <= i < |states| ==> Exclusive(states[i]) {
      HolderIsAloneUpTo(states, steps, |steps|);
    }
    if forall k :: 0 <= k < |steps| ==> !TriesWhileOverrun(states[k], steps[k]) {
      forall i | 0 <= i < |states| ensures Exclusive(states[i]) {
        HolderIsAloneUpTo(states, steps, i);
      }
    }
  }

  // In particular when every holder finishes within its ttl.
  lemma MutualExclusion(states: seq<State>, steps: seq<Step>, i: nat, a: Replica, b: Replica)
    requires TimelyRun(states, steps) && i < |states|
    requires !PhaseOf(states[i], a).Idle? && !PhaseOf(states[i], b).Idle?
    ensures a == b
  {
    forall k | 0 <= k < |steps| ensures !TriesWhileOverrun(states[k], steps[k]) {
      assert Timely(states[k]);
    }
    ExclusionIff(states, steps);
    assert Exclusive(states[i]);
  }

  // ---- The same for `fn` alone ----

  ghost predicate AloneInFn(s: State) {
    forall a, b :: PhaseOf(s, a).InFn? && PhaseOf(s, b).InFn? ==> a == b
  }

  ghost predicate HoldsLock(s: State, a: Replica) {
    !PhaseOf(s, a).Idle? && Visible(s) == Held(a, PhaseOf(s, a).deadline)
  }

  // Somebody tries a SET while another replica is in `fn` without its lock.
  ghost predicate TriesBesideUnlocked(s: State, step: Step) {
    step.SetNxPx? && exists a :: a != step.replica && PhaseOf(s, a).InFn? && !HoldsLock(s, a)
  }

  // Whoever is in `fn` is alone there, and the key is its own or nobody's.
  ghost predicate KeyIsOfFn(s: State) {
    AloneInFn(s) && forall a :: PhaseOf(s, a).InFn? && s.key.Held? ==> s.key == Held(a, PhaseOf(s, a).deadline)
  }

  lemma StepKeepsKeyOfFn(s: State, step: Step)
    requires Enabled(s, step) && KeyIsOfFn(s) && !TriesBesideUnlocked(s, step)
    ensures KeyIsOfFn(Apply(s, step))
  {
    var s' := Apply(s, step);
    forall a | PhaseOf(s', a).InFn? ensures PhaseOf(s, a) == PhaseOf(s', a) || (step.SetNxPx? && step.replica == a) {
    }
    if step.SetNxPx? && s' != s {
      forall a | a != step.replica ensures !PhaseOf(s', a).InFn? {
        assert PhaseOf(s', a) == PhaseOf(s, a);
      }
    }
  }

  lemma TryBesideUnlockedSucceeds(s: State, step: Step)
    requires Enabled(s, step) && KeyIsOfFn(s) && TriesBesideUnlocked(s, step)
    ensures !AloneInFn(Apply(s, step))
  {
    var a :| a != step.replica && PhaseOf(s, a).InFn? && !HoldsLock(s, a);
    var s' := Apply(s, step);
    assert PhaseOf(s', a).InFn? && PhaseOf(s', step.replica).InFn?;
  }

  lemma {:induction false} KeyIsOfFnUpTo(states: seq<State>, steps: seq<Step>, i: nat)
    requires IsRun(states, steps) && i < |states|
    requires || (forall k :: 0 <= k < i ==> !TriesBesideUnlocked(states[k], steps[k]))
             || (forall k :: 0 <= k <= i ==> AloneInFn(states[k]))
    ensures KeyIsOfFn(states[i])
    ensures forall k :: 0 <= k < i ==> !TriesBesideUnlocked(states[k], steps[k])
  {
    if i > 0 {
      KeyIsOfFnUpTo(states, steps, i - 1);
      if TriesBesideUnlocked(states[i - 1], steps[i - 1]) {
        TryBesideUnlockedSucceeds(states[i - 1], steps[i - 1]);
      } else {
        StepKeepsKeyOfFn(states[i - 1], steps[i - 1]);
      }
    }
  }

  // In every interleaving, one replica at a time runs a cycle exactly if
  // nobody tries a SET while another one runs without its lock.
  lemma AloneInFnIff(states: seq<State>, steps: seq<Step>)
    requires IsRun(states, steps)
    ensures (forall i :: 0 <= i < |states| ==> AloneInFn(states[i]))
       <==> (forall k :: 0 <= k < |steps| ==> !TriesBesideUnlocked(states[k], steps[k]))
  {
    if forall i :: 0 <= i < |states| ==> AloneInFn(states[i]) {
      KeyIsOfFnUpTo(states, steps, |steps|);
    }
    if forall k :: 0 <= k < |steps| ==> !TriesBesideUnlocked(states[k], steps[k]) {
      forall i | 0 <= i < |states| ensures AloneInFn(states[i]) {
        KeyIsOfFnUpTo(states, steps, i);
      }
    }
  }

  // ---- Whose lock a DEL removes ----

  ghost predicate StealsLock(s: State, step: Step) {
    IssuesDel(s, step) && Visible(s).Held? && Visible(s).holder != step.replica
  }

  // A DEL past its issuer's own deadline, while some key is live.
  ghost predicate DeletesLate(s: State, step: Step) {
    IssuesDel(s, step) && s.now > PhaseOf(s, step.replica).deadline && Visible(s).Held?
  }

  // Until its deadline whoever is inside holds the key, and no key it holds
  // outlasts that deadline.
  ghost predicate KeysKeepDeadlines(s: State) {
    forall r :: !PhaseOf(s, r).Idle? ==>
      && (s.now <= PhaseOf(s, r).deadline ==> s.key == Held(r, PhaseOf(s, r).deadline))
      && (s.key.Held? && s.key.holder == r ==> s.key.expiresAt == PhaseOf(s, r).deadline)
  }

  lemma StepKeepsDeadlines(s: State, step: Step)
    requires Enabled(s, step) && KeysKeepDeadlines(s) && !StealsLock(s, step)
    ensures KeysKeepDeadlines(Apply(s, step))
  {
    var s' := Apply(s, step);
    forall r | !PhaseOf(s', r).Idle?
      ensures s'.now <= PhaseOf(s', r).deadline ==> s'.key == Held(r, PhaseOf(s', r).deadline)
      ensures s'.key.Held? && s'.key.holder == r ==> s'.key.expiresAt == PhaseOf(s', r).deadline
    {
      assert PhaseOf(s, r).Idle? ==> step.SetNxPx? && step.replica == r;
      assert !PhaseOf(s, r).Idle? ==> PhaseOf(s', r).deadline == PhaseOf(s, r).deadline;
    }
  }

  lemma StealingIsLate(s: State, step: Step)
    requires KeysKeepDeadlines(s)
    ensures StealsLock(s, step) <==> DeletesLate(s, step)
  {
  }

  lemma {:induction false} DeadlinesKeptUpTo(states: seq<State>, steps: seq<Step>, i: nat)
    requires IsRun(states, steps) && i < |states|
    requires || (forall k :: 0 <= k < i ==> !StealsLock(states[k], steps[k]))
             || (forall k :: 0 <= k < i ==> !DeletesLate(states[k], steps[k]))
    ensures KeysKeepDeadlines(states[i])
  {
    if i > 0 {
      DeadlinesKeptUpTo(states, steps, i - 1);
      StealingIsLate(states[i - 1], steps[i - 1]);
      StepKeepsDeadlines(states[i - 1], steps[i - 1]);
    }
  }

  // Step j was the GET of the release that step k ends: r's last statement.
  ghost predicate LastGet(steps: seq<Step>, r: Replica, j: int, k: int) {
    && 0 <= j < k < |steps| && steps[j] == GetHolder(r)
    && forall m :: j < m < k ==> !IsStepOf(steps[m], r)
  }

  predicate IsStepOf(step: Step, r: Replica) {
    match step
    case Advance(_) => false
    case Expire => false
    case _ => step.replica == r
  }

  lemma {:induction false} ReplyIsFromGet(states: seq<State>, steps: seq<Step>, r: Replica, k: nat) returns (j: nat)
    requires IsRun(states, steps) && k < |steps| && PhaseOf(states[k], r).SawHolder?
    ensures j < k && steps[j] == GetHolder(r) && forall m :: j < m < k ==> !IsStepOf(steps[m], r)
    ensures PhaseOf(states[k], r).reply == if Visible(states[j]).Held? then Some(Visible(states[j]).holder) else None
  {
    assert k > 0;
    if steps[k - 1] == GetHolder(r) {
      j := k - 1;
    } else {
      assert PhaseOf(states[k - 1], r) == PhaseOf(states[k], r) && !IsStepOf(steps[k - 1], r);
      j := ReplyIsFromGet(states, steps, r, k - 1);
    }
  }

  // What a release does to the key, in every run: it removes the key if its
  // GET found the live key held by the releasing replica itself, and leaves it
  // exactly as it is if the GET found another id or nothing.
  lemma ReleaseFollowsItsGet(states: seq<State>, steps: seq<Step>, r: Replica, k: nat) returns (j: nat)
    requires IsRun(states, steps) && k < |steps| && steps[k] == Release(r)
    ensures LastGet(steps, r, j, k)
    ensures Visible(states[j]).Held? && Visible(states[j]).holder == r ==> states[k + 1].key == Absent
    ensures !(Visible(states[j]).Held? && Visible(states[j]).holder == r) ==> states[k + 1].key == states[k].key
  {
    j := ReplyIsFromGet(states, steps, r, k);
  }

  // In every interleaving, no DEL removes a lock another replica acquired
  // exactly if none is issued past its issuer's own deadline while a key is live.
  lemma StealingIff(states: seq<State>, steps: seq<Step>)
    requires IsRun(states, steps)
    ensures (forall k :: 0 <= k < |steps| ==> !StealsLock(states[k], steps[k]))
       <==> (forall k :: 0 <= k < |steps| ==> !DeletesLate(states[k], steps[k]))
  {
    if || (forall k :: 0 <= k < |steps| ==> !StealsLock(states[k], steps[k]))
       || (forall k :: 0 <= k < |steps| ==> !DeletesLate(states[k], steps[k]))
    {
      forall k | 0 <= k < |steps| ensures StealsLock(states[k], steps[k]) <==> DeletesLate(states[k], steps[k]) {
        DeadlinesKeptUpTo(states, steps, k);
        StealingIsLate(states[k], steps[k]);
      }
    }
  }

  // In particular when every holder finishes within its ttl: whenever a DEL
  // is issued the live key is the issuer's own, and afterwards the key is free.
  lemma DelRemovesOwnLock(states: seq<State>, steps: seq<Step>, i: nat)
    requires TimelyRun(states, steps) && i < |steps| && IssuesDel(states[i], steps[i])
    ensures Visible(states[i]).Held? && Visible(states[i]).holder == steps[i].replica
    ensures Visible(states[i + 1]).Absent?
  {
    forall k | 0 <= k < |steps| ensures !DeletesLate(states[k], steps[k]) {
      assert Timely(states[k]);
    }
    assert Timely(states[i]);
    StealingIff(states, steps);
    DeadlinesKeptUpTo(states, steps, i);
  }

  // And when the run excludes, overruns or not.
  lemma ExclusiveRunsStealNothing(states: seq<State>, steps: seq<Step>, i: nat)
    requires IsRun(states, steps) && forall k :: 0 <= k < |states| ==> Exclusive(states[k])
    requires i < |steps| && IssuesDel(states[i], steps[i])
    ensures !StealsLock(states[i], steps[i])
    ensures states[i].key.Held? ==> states[i].key.holder == steps[i].replica
  {
    forall k | 0 <= k < |steps| ensures !DeletesLate(states[k], steps[k]) {
      HolderIsAloneUpTo(states, steps, k);
    }
    StealingIff(states, steps);
    HolderIsAloneUpTo(states, steps, i);
  }

  // Exclusion is more than that takes: here a and b are inside at once, yet
  // nothing is stolen, and one replica at a time is in `fn`.
  lemma StealingNothingUnexclusively(a: Replica, b: Replica, ttl: nat) returns (states: seq<State>, steps: seq<Step>)
    requires a != b && ttl > 0
    ensures IsRun(states, steps) && |steps| > 0 && !Exclusive(states[|steps| - 1])
    ensures forall k :: 0 <= k < |steps| ==> !StealsLock(states[k], steps[k])
    ensures forall k :: 0 <= k < |states| ==> AloneInFn(states[k])
  {
    steps := [SetNxPx(a, ttl), FinishFn(a), Advance(ttl + 1), SetNxPx(b, ttl), AbandonRelease(a)];
    var s0 := State(0, Absent, map[]);
    var s1 := Apply(s0, steps[0]);
    var s2 := Apply(s1, steps[1]);
    var s3 := Apply(s2, steps[2]);
    var s4 := Apply(s3, steps[3]);
    states := [s0, s1, s2, s3, s4, Apply(s4, steps[4])];
    assert PhaseOf(s4, a).Finished? && PhaseOf(s4, b).InFn?;
  }

  // ---- Progress ----

  ghost predicate Acquires(s: State, step: Step, r: Replica, ttl: nat) {
    Enabled(s, step) && step == SetNxPx(r, ttl) && Visible(s).Absent?
  }

  ghost predicate SomeoneAcquires(s: State, step: Step) {
    step.SetNxPx? && Acquires(s, step, step.replica, step.ttl)
  }

  // Whatever becomes of the replica that acquired the key - it may never take
  // another step - and whatever the others do, once its ttl has passed the
  // next SET of an idle replica acquires the key.
  lemma {:induction false} KeyOutlivesNoTtl(states: seq<State>, steps: seq<Step>, k: nat, a: Replica, ttl: nat, j: nat)
    requires IsRun(states, steps) && k < j < |states| && Acquires(states[k], steps[k], a, ttl)
    requires forall m :: k < m < j ==> !SomeoneAcquires(states[m], steps[m])
    ensures states[j].key.Held? ==> states[j].key == Held(a, states[k].now + ttl)
  {
    if j > k + 1 {
      KeyOutlivesNoTtl(states, steps, k, a, ttl, j - 1);
      assert !SomeoneAcquires(states[j - 1], steps[j - 1]);
    }
  }

  lemma BlocksForItsTtlAtMost(states: seq<State>, steps: seq<Step>, k: nat, a: Replica, ttl: nat, j: nat, b: Replica,
                              other: nat)
    requires IsRun(states, steps) && k < j < |states| && Acquires(states[k], steps[k], a, ttl)
    requires forall m :: k < m < j ==> !SomeoneAcquires(states[m], steps[m])
    requires states[j].now > states[k].now + ttl && Enabled(states[j], SetNxPx(b, other))
    ensures PhaseOf(Apply(states[j], SetNxPx(b, other)), b) == InFn(states[j].now + other)
  {
    KeyOutlivesNoTtl(states, steps, k, a, ttl, j);
  }

  // In a timely run a lock therefore outlives its whole critical section:
  // from SET to release it is visible under its holder's id, so every SET
  // another replica tries in between is refused and changes nothing.
  lemma LockIsVisibleThroughout(states: seq<State>, steps: seq<Step>, i: nat, a: Replica)
    requires TimelyRun(states, steps) && i < |states| && !PhaseOf(states[i], a).Idle?
    ensures Visible(states[i]) == Held(a, PhaseOf(states[i], a).deadline)
    ensures i < |steps| && steps[i].SetNxPx? ==> states[i + 1] == states[i]
  {
    TimelyRunKeepsHoldersTrue(states, steps, i);
  }

  // What an overrun can lead to, whoever the replicas are. If `fn` outlives
  // the ttl a second replica can enter beside the first.
  lemma OverrunAdmitsSecondReplica(a: Replica, b: Replica, ttl: nat) returns (states: seq<State>, steps: seq<Step>)
    requires a != b && ttl > 0
    ensures IsRun(states, steps) && |steps| > 0
    ensures PhaseOf(states[|steps|], a).InFn? && PhaseOf(states[|steps|], b).InFn?
  {
    steps := [SetNxPx(a, ttl), Advance(ttl + 1), SetNxPx(b, ttl)];
    var s0 := State(0, Absent, map[]);
    var s1 := Apply(s0, steps[0]);
    var s2 := Apply(s1, steps[1]);
    states := [s0, s1, s2, Apply(s2, steps[2])];
  }

  // And if only the release outlives it, its DEL removes the lock of the
  // replica that came next: GET and DEL are two commands.
  lemma OverrunStealsLock(a: Replica, b: Replica, ttl: nat) returns (states: seq<State>, steps: seq<Step>)
    requires a != b && ttl > 0
    ensures IsRun(states, steps) && |steps| == 6
    ensures IssuesDel(states[5], steps[5]) && steps[5].replica == a
    ensures Visible(states[5]).Held? && Visible(states[5]).holder == b && PhaseOf(states[5], b).InFn?
    ensures Visible(states[6]).Absent?
  {
    steps := [SetNxPx(a, ttl), FinishFn(a), GetHolder(a), Advance(ttl + 1), SetNxPx(b, ttl), Release(a)];
    var s0 := State(0, Absent, map[]);
    var s1 := Apply(s0, steps[0]);
    var s2 := Apply(s1, steps[1]);
    var s3 := Apply(s2, steps[2]);
    var s4 := Apply(s3, steps[3]);
    var s5 := Apply(s4, steps[4]);
    states := [s0, s1, s2, s3, s4, s5, Apply(s5, steps[5])];
  }
}
