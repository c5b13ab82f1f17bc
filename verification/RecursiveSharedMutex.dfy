/** The recursive read/write lock (deps/common/lang/mutex.cpp): its critical sections, and all
    interleavings of any number of threads through them. */
module RecursiveSharedMutex {
  import opened Wrappers

  type Tid = nat

  // ---------------------------------------------------------------- the critical sections

  datatype Fields = Fields(shared: int, exclusive: int, owner: Option<Tid>, recursion: int)

  /** What a critical section does before it gives up `mutex_`: it went through, or it waits. */
  datatype Section = Section(fields: Fields, passed: bool)

  function LockShared(f: Fields): Section {
    if f.exclusive > 0 then Section(f, false) else Section(f.(shared := f.shared + 1), true)
  }

  function UnlockShared(f: Fields): Fields {
    f.(shared := f.shared - 1)
  }

  function Lock(f: Fields, me: Tid): Section {
    if f.shared > 0 || f.exclusive > 0 then
      if f.owner == Some(me) then Section(f.(recursion := f.recursion + 1), true) else Section(f, false)
    else
      Section(Fields(f.shared, f.exclusive + 1, Some(me), 1), true)
  }

  function Unlock(f: Fields, me: Tid): Fields {
    if f.owner == Some(me) && f.recursion > 1 then f.(recursion := f.recursion - 1)
    else Fields(f.shared, f.exclusive - 1, None, 0)
  }

  // ---------------------------------------------------------------- all interleavings

  /** The lock together with its clients: read and write holds not yet given back, and the threads
      inside a wait, asleep or notified but not yet past the re-check. */
  datatype System = System(
    f: Fields,
    readers: multiset<Tid>, writers: multiset<Tid>,
    sleepR: set<Tid>, wokenR: set<Tid>,
    sleepW: set<Tid>, wokenW: set<Tid>)

  /** One atomic step. An unlocking step carries the writer that `notify_one` picks, if any. */
  datatype Step =
    | EnterShared(t: Tid) | TryShared(t: Tid) | RecheckShared(t: Tid) | LeaveShared(t: Tid, picked: Option<Tid>)
    | EnterExclusive(t: Tid) | RecheckExclusive(t: Tid) | LeaveExclusive(t: Tid, picked: Option<Tid>)
    | SpuriousShared(t: Tid) | SpuriousExclusive(t: Tid)

  const Start := System(Fields(0, 0, None, 0), multiset{}, multiset{}, {}, {}, {}, {})

  predicate Running(s: System, t: Tid) {
    t !in s.sleepR + s.wokenR + s.sleepW + s.wokenW
  }

  /** `notify_one` wakes one of the sleeping writers, or nobody when there is none. */
  predicate Picks(s: System, picked: Option<Tid>) {
    if s.sleepW == {} then picked.None? else picked.Some? && picked.value in s.sleepW
  }

  /** A thread outside any wait may call anything, but gives back only what it holds. */
  predicate Enabled(s: System, step: Step) {
    match step
    case EnterShared(t) => Running(s, t)
    case TryShared(t) => Running(s, t)
    case RecheckShared(t) => t in s.wokenR
    case LeaveShared(t, p) =>
      && Running(s, t) && t in s.readers
      && (if UnlockShared(s.f).shared == 0 then Picks(s, p) else p.None?)
    case EnterExclusive(t) => Running(s, t)
    case RecheckExclusive(t) => t in s.wokenW
    case LeaveExclusive(t, p) =>
      && Running(s, t) && t in s.writers
      && (if Unlock(s.f, t).exclusive != s.f.exclusive && Unlock(s.f, t).exclusive == 0 then Picks(s, p) else p.None?)
    case SpuriousShared(t) => t in s.sleepR
    case SpuriousExclusive(t) => t in s.sleepW
  }

  function TakeShared(s: System, t: Tid, mayWait: bool): System {
    var r := LockShared(s.f);
    if r.passed then s.(f := r.fields, readers := s.readers + multiset{t})
    else if mayWait then s.(sleepR := s.sleepR + {t})
    else s
  }

  function TakeExclusive(s: System, t: Tid): System {
    var r := Lock(s.f, t);
    if r.passed then s.(f := r.fields, writers := s.writers + multiset{t})
    else s.(sleepW := s.sleepW + {t})
  }

  function NotifyOne(s: System, picked: Option<Tid>): System {
    if picked.None? then s else s.(sleepW := s.sleepW - {picked.value}, wokenW := s.wokenW + {picked.value})
  }

  function Apply(s: System, step: Step): System {
    match step
    case EnterShared(t) => TakeShared(s, t, true)
    case TryShared(t) => TakeShared(s, t, false)
    case RecheckShared(t) => TakeShared(s.(wokenR := s.wokenR - {t}), t, true)
    case LeaveShared(t, p) =>
      NotifyOne(s.(f := UnlockShared(s.f), readers := s.readers - multiset{t}), p)
    case EnterExclusive(t) => TakeExclusive(s, t)
    case RecheckExclusive(t) => TakeExclusive(s.(wokenW := s.wokenW - {t}), t)
    case LeaveExclusive(t, p) =>
      var f := Unlock(s.f, t);
      var r := s.(f := f, writers := s.writers - multiset{t});
      if f.exclusive != s.f.exclusive && f.exclusive == 0
      then NotifyOne(r.(sleepR := {}, wokenR := s.wokenR + s.sleepR), p)
      else r
    case SpuriousShared(t) => s.(sleepR := s.sleepR - {t}, wokenR := s.wokenR + {t})
    case SpuriousExclusive(t) => s.(sleepW := s.sleepW - {t}, wokenW := s.wokenW + {t})
  }

  /** A run: every step is enabled where it is taken. */
  predicate IsRun(s: System, steps: seq<Step>)
    decreases steps
  {
    steps == [] || (Enabled(s, steps[0]) && IsRun(Apply(s, steps[0]), steps[1..]))
  }

  function Final(s: System, steps: seq<Step>): System
    decreases steps
  {
    if steps == [] then s else Final(Apply(s, steps[0]), steps[1..])
  }

  // ---------------------------------------------------------------- safety

  /** Nobody holds a write lock, or exactly one thread does, `recursion` times over, and nobody
      reads; the counters count the outstanding holds. */
  ghost predicate Exclusion(s: System) {
    && s.f.shared == |s.readers|
    && s.f.recursion == |s.writers|
    && (if |s.writers| == 0 then s.f.exclusive == 0 && s.f.owner.None?
        else && s.f.exclusive == 1 && s.f.owner.Some? && |s.readers| == 0
             && s.writers[s.f.owner.value] == |s.writers|)
  }

  /** Nobody sleeps who should have been told: with the lock free a sleeping writer implies a notified
      one, and no reader sleeps while no writer holds the lock. */
  ghost predicate NoLostWakeup(s: System) {
    && (s.f.shared == 0 && s.f.exclusive == 0 && s.sleepW != {} ==> s.wokenW != {})
    && (s.f.exclusive == 0 ==> s.sleepR == {})
  }

  ghost predicate WaitsOnce(s: System) {
    s.sleepR !! s.wokenR !! s.sleepW !! s.wokenW
  }

  /** A thread that waits for a kind of hold has none of that kind. */
  ghost predicate WaitsForNew(s: System) {
    && (forall t | t in s.sleepR + s.wokenR :: t !in s.readers)
    && (forall t | t in s.sleepW + s.wokenW :: t !in s.writers)
  }

  ghost predicate Inv(s: System) {
    Exclusion(s) && NoLostWakeup(s) && WaitsOnce(s) && WaitsForNew(s)
  }

  lemma SoleOwner(s: System, t: Tid)
    requires Exclusion(s) && t in s.writers
    ensures s.f.owner == Some(t)
  {
    if s.f.owner != Some(t) {
      assert |s.writers - multiset{t}| == |s.writers| - 1;
      assert (s.writers - multiset{t})[s.f.owner.value] == s.writers[s.f.owner.value];
      CountBound(s.writers - multiset{t}, s.f.owner.value);
    }
  }

  lemma CountBound(m: multiset<Tid>, t: Tid)
    ensures m[t] <= |m|
  {
    var only: multiset<Tid> := multiset{}[t := m[t]];
    assert only <= m;
    assert m == only + (m - only);
  }

  lemma TakeSharedKeeps(s: System, t: Tid, mayWait: bool)
    requires Exclusion(s)
    ensures Exclusion(TakeShared(s, t, mayWait))
  {
  }

  lemma TakeExclusiveKeeps(s: System, t: Tid)
    requires Exclusion(s)
    ensures Exclusion(TakeExclusive(s, t))
  {
    var r := TakeExclusive(s, t);
    if |s.writers| == 0 { assert s.writers == multiset{}; }
    assert (s.writers + multiset{t})[t] == s.writers[t] + 1;
  }

  lemma LeaveExclusiveKeeps(s: System, t: Tid, p: Option<Tid>)
    requires Exclusion(s) && t in s.writers
    ensures Exclusion(Apply(s, LeaveExclusive(t, p)))
    ensures Apply(s, LeaveExclusive(t, p)).f.exclusive == 0 <==> s.writers[t] == 1
  {
    SoleOwner(s, t);
    assert |s.writers - multiset{t}| == |s.writers| - 1;
    assert (s.writers - multiset{t})[t] == s.writers[t] - 1;
  }

  lemma StepKeepsExclusion(s: System, step: Step)
    requires Exclusion(s) && Enabled(s, step)
    ensures Exclusion(Apply(s, step))
  {
    match step
    case EnterShared(t) => TakeSharedKeeps(s, t, true);
    case TryShared(t) => TakeSharedKeeps(s, t, false);
    case RecheckShared(t) => TakeSharedKeeps(s.(wokenR := s.wokenR - {t}), t, true);
    case LeaveShared(t, p) => assert |s.readers - multiset{t}| == |s.readers| - 1;
    case EnterExclusive(t) => TakeExclusiveKeeps(s, t);
    case RecheckExclusive(t) => TakeExclusiveKeeps(s.(wokenW := s.wokenW - {t}), t);
    case LeaveExclusive(t, p) => LeaveExclusiveKeeps(s, t, p);
    case SpuriousShared(t) =>
    case SpuriousExclusive(t) =>
  }

  lemma StepKeepsWaits(s: System, step: Step)
    requires WaitsOnce(s) && Enabled(s, step)
    ensures WaitsOnce(Apply(s, step))
  {
    hide LockShared, UnlockShared, Lock, Unlock;
  }

  lemma StepKeepsWakeups(s: System, step: Step)
    requires Inv(s) && Enabled(s, step)
    ensures NoLostWakeup(Apply(s, step))
  {
    match step
    case LeaveExclusive(t, p) => SoleOwner(s, t);
    case _ =>
  }

  /** A step changes nobody else's holds, and nobody else's place among the waiting but for wake-ups. */
  lemma OthersUntouched(s: System, step: Step, t: Tid)
    requires Enabled(s, step) && step.t != t
    ensures var r := Apply(s, step);
            && (t in r.readers <==> t in s.readers) && (t in r.writers <==> t in s.writers)
            && (t in r.sleepR + r.wokenR <==> t in s.sleepR + s.wokenR)
            && (t in r.sleepW + r.wokenW <==> t in s.sleepW + s.wokenW)
  {
  }

  lemma StepKeepsWaitsForNew(s: System, step: Step)
    requires Exclusion(s) && WaitsOnce(s) && WaitsForNew(s) && Enabled(s, step)
    ensures WaitsForNew(Apply(s, step))
  {
    MyWaitsForNew(s, step);
    var r := Apply(s, step);
    forall t | t in r.sleepR + r.wokenR ensures t !in r.readers {
      hide Exclusion, WaitsOnce, Apply, Enabled;
      if t != step.t { OthersUntouched(s, step, t); }
    }
    forall t | t in r.sleepW + r.wokenW ensures t !in r.writers {
      hide Exclusion, WaitsOnce, Apply, Enabled;
      if t != step.t { OthersUntouched(s, step, t); }
    }
  }

  lemma MyWaitsForNew(s: System, step: Step)
    requires Exclusion(s) && WaitsOnce(s) && WaitsForNew(s) && Enabled(s, step)
    ensures var r, t := Apply(s, step), step.t;
            && (t in r.sleepR + r.wokenR ==> t !in r.readers)
            && (t in r.sleepW + r.wokenW ==> t !in r.writers)
  {
    var t := step.t;
    assert |s.readers| > 0 || t !in s.readers by { CountBound(s.readers, t); }
    if t in s.writers { SoleOwner(s, t); }
  }

  /** Every step keeps the invariant. */
  lemma StepKeepsInv(s: System, step: Step)
    requires Inv(s) && Enabled(s, step)
    ensures Inv(Apply(s, step))
  {
    StepKeepsExclusion(s, step);
    StepKeepsWaits(s, step);
    StepKeepsWakeups(s, step);
    StepKeepsWaitsForNew(s, step);
  }

  /** In every reachable state of any number of threads the lock excludes and loses no wake-up. */
  lemma {:induction false} Safety(steps: seq<Step>)
    requires IsRun(Start, steps)
    ensures Inv(Final(Start, steps))
  {
    RunKeepsInv(Start, steps);
  }

  lemma {:induction false} RunKeepsInv(s: System, steps: seq<Step>)
    requires Inv(s) && IsRun(s, steps)
    ensures Inv(Final(s, steps))
    decreases steps
  {
    if steps != [] {
      StepKeepsInv(s, steps[0]);
      RunKeepsInv(Apply(s, steps[0]), steps[1..]);
    }
  }

  /** What the invariant says thread by thread: one writer thread at most, and no reader beside it. */
  lemma ExclusionByThread(s: System, t: Tid, u: Tid)
    requires Inv(s)
    ensures t in s.writers && u in s.writers ==> t == u
    ensures !(t in s.writers && u in s.readers)
  {
    if t in s.writers {
      SoleOwner(s, t);
      if u in s.writers { SoleOwner(s, u); }
      assert s.writers[t] > 0 && |s.writers| > 0 by { CountBound(s.writers, t); }
      if u in s.readers { CountBound(s.readers, u); }
    }
  }

  // ---------------------------------------------------------------- recursion

  /** How a step changes the number of write holds of a thread that owns the lock. */
  function Delta(t: Tid, step: Step): int {
    if step == EnterExclusive(t) || step == RecheckExclusive(t) then 1
    else if step.LeaveExclusive? && step.t == t then -1
    else 0
  }

  /** Locks minus unlocks of a thread over a run, starting from n. */
  function Depth(t: Tid, n: int, steps: seq<Step>): int
    decreases steps
  {
    if steps == [] then n else Depth(t, n + Delta(t, steps[0]), steps[1..])
  }

  predicate StaysPositive(t: Tid, n: int, steps: seq<Step>)
    decreases steps
  {
    n > 0 && (steps == [] || StaysPositive(t, n + Delta(t, steps[0]), steps[1..]))
  }

  /** As long as an owner has unlocked less often than it has locked, it owns the lock alone, whatever
      the other threads do; its next unlock releases the lock exactly when it matches the first lock. */
  lemma {:induction false} OwnedUntilMatched(s: System, t: Tid, steps: seq<Step>, p: Option<Tid>)
    requires Inv(s) && IsRun(s, steps) && StaysPositive(t, s.writers[t], steps)
    ensures var r := Final(s, steps);
            && r.writers[t] == Depth(t, s.writers[t], steps)
            && r.f.owner == Some(t) && r.f.exclusive == 1 && r.f.shared == 0
            && (Enabled(r, LeaveExclusive(t, p)) ==>
                  (Apply(r, LeaveExclusive(t, p)).f.exclusive == 0 <==> Depth(t, s.writers[t], steps) == 1))
    decreases steps
  {
    if steps == [] {
      OwnsAlone(s, t, p);
    } else {
      assert t in s.writers && Exclusion(s);
      hide Inv, Exclusion, Enabled, Apply, Delta;
      StepKeepsInv(s, steps[0]);
      OwnerCounts(s, t, steps[0]);
      OwnedUntilMatched(Apply(s, steps[0]), t, steps[1..], p);
    }
  }

  /** For example, locked twice and unlocked once by one thread alone: it has owned the lock from the first
      step on, and one more unlock frees it. */
  lemma LockedTwice(t: Tid)
    ensures var first, more := EnterExclusive(t), [EnterExclusive(t), LeaveExclusive(t, None)];
            var s := Apply(Start, first);
            && Enabled(Start, first) && IsRun(s, more) && s.writers[t] == 1 && StaysPositive(t, 1, more)
            && Depth(t, 1, more) == 1
            && Apply(Final(s, more), LeaveExclusive(t, None)).f == Start.f
  {
    var more := [EnterExclusive(t), LeaveExclusive(t, None)];
    var s := Apply(Start, EnterExclusive(t));
    TwoSteps(s, more[0], more[1]);
    assert more[1..] == [LeaveExclusive(t, None)] && more[1..][1..] == [];
    assert StaysPositive(t, 1, []) && StaysPositive(t, 2, more[1..]);
    assert Depth(t, 2, more[1..]) == 1;
  }

  lemma OwnsAlone(s: System, t: Tid, p: Option<Tid>)
    requires Exclusion(s) && t in s.writers
    ensures s.f.owner == Some(t) && s.f.exclusive == 1 && s.f.shared == 0
    ensures Apply(s, LeaveExclusive(t, p)).f.exclusive == 0 <==> s.writers[t] == 1
  {
    CountBound(s.writers, t);
    SoleOwner(s, t);
    LeaveExclusiveKeeps(s, t, p);
  }

  lemma OwnerCounts(s: System, t: Tid, step: Step)
    requires Exclusion(s) && Enabled(s, step) && t in s.writers
    ensures Apply(s, step).writers[t] == s.writers[t] + Delta(t, step)
  {
    if step.LeaveExclusive? {
      SoleOwner(s, step.t);
      SoleOwner(s, t);
    } else if step.EnterExclusive? || step.RecheckExclusive? {
      SoleOwner(s, t);
      assert |s.writers| > 0 by { CountBound(s.writers, t); }
    } else {
      hide Exclusion;
    }
  }

  // ---------------------------------------------------------------- waiting while holding

  /** A thread that waits for one kind of hold while it has the other. */
  predicate Trapped(s: System, t: Tid) {
    || (t in s.writers && t in s.sleepR + s.wokenR)
    || (t in s.readers && t in s.sleepW + s.wokenW)
  }

  lemma StepKeepsTrapped(s: System, step: Step, t: Tid)
    requires Inv(s) && Enabled(s, step) && Trapped(s, t)
    ensures Trapped(Apply(s, step), t)
  {
    if t in s.writers { SoleOwner(s, t); }
    if step.LeaveExclusive? { SoleOwner(s, step.t); }
    assert |s.readers| > 0 || t !in s.readers by { CountBound(s.readers, t); }
    assert |s.writers| > 0 || t !in s.writers by { CountBound(s.writers, t); }
    assert !(t in s.writers && t in s.readers) by { ExclusionByThread(s, t, t); }
  }

  /** Asking for a read lock while holding the write lock, or for the write lock while holding a read
      lock, never returns, and no other thread ever takes the write lock again. */
  lemma {:induction false} TrappedForever(s: System, t: Tid, steps: seq<Step>)
    requires Inv(s) && IsRun(s, steps) && Trapped(s, t)
    ensures var r := Final(s, steps);
            Trapped(r, t) && (r.f.shared > 0 || r.f.exclusive > 0) && (r.f.owner.Some? ==> r.f.owner == s.f.owner)
    decreases steps
  {
    if steps == [] {
      CountBound(s.readers, t);
      CountBound(s.writers, t);
    } else {
      StepKeepsInv(s, steps[0]);
      StepKeepsTrapped(s, steps[0], t);
      TrappedKeepsOwner(s, steps[0], t);
      TrappedForever(Apply(s, steps[0]), t, steps[1..]);
    }
  }

  lemma TrappedKeepsOwner(s: System, step: Step, t: Tid)
    requires Exclusion(s) && Enabled(s, step) && Trapped(s, t)
    ensures Apply(s, step).f.owner.Some? ==> Apply(s, step).f.owner == s.f.owner
  {
    CountBound(s.readers, t);
    CountBound(s.writers, t);
  }

  /** A step that asks for one kind of hold while its thread has the other. */
  predicate Upgrades(s: System, step: Step) {
    || (step.EnterShared? && step.t in s.writers)
    || (step.EnterExclusive? && step.t in s.readers)
  }

  /** Exactly such a step traps a thread, and it traps the one that takes it. */
  lemma TrappedIffUpgraded(s: System, step: Step, t: Tid)
    requires Inv(s) && Enabled(s, step)
    ensures Trapped(Apply(s, step), t) <==> Trapped(s, t) || (Upgrades(s, step) && step.t == t)
  {
    if Trapped(s, t) {
      StepKeepsTrapped(s, step, t);
    } else if step.t == t {
      MyStepTraps(s, step);
    } else {
      OthersUntouched(s, step, t);
    }
  }

  lemma MyStepTraps(s: System, step: Step)
    requires Inv(s) && Enabled(s, step) && !Trapped(s, step.t)
    ensures Trapped(Apply(s, step), step.t) <==> Upgrades(s, step)
  {
    var t := step.t;
    if t in s.writers { SoleOwner(s, t); }
    CountBound(s.readers, t);
    CountBound(s.writers, t);
  }

  predicate EverUpgrades(s: System, steps: seq<Step>)
    decreases steps
  {
    steps != [] && (Upgrades(s, steps[0]) || EverUpgrades(Apply(s, steps[0]), steps[1..]))
  }

  ghost predicate SomeoneTrapped(s: System) {
    exists t :: Trapped(s, t)
  }

  lemma StepTrapsIff(s: System, step: Step)
    requires Inv(s) && Enabled(s, step)
    ensures SomeoneTrapped(Apply(s, step)) <==> SomeoneTrapped(s) || Upgrades(s, step)
  {
    hide Inv, Enabled, Apply, Trapped, Upgrades;
    var r := Apply(s, step);
    if t :| Trapped(r, t) { TrappedIffUpgraded(s, step, t); }
    if t :| Trapped(s, t) { TrappedIffUpgraded(s, step, t); }
    TrappedIffUpgraded(s, step, step.t);
  }

  /** Somebody is trapped after a run exactly when the run contains an upgrade. */
  lemma {:induction false} RunTrapsIff(s: System, steps: seq<Step>)
    requires Inv(s) && IsRun(s, steps)
    ensures SomeoneTrapped(Final(s, steps)) <==> SomeoneTrapped(s) || EverUpgrades(s, steps)
    decreases steps
  {
    hide Inv, Enabled, Apply, SomeoneTrapped, Upgrades;
    if steps != [] {
      StepKeepsInv(s, steps[0]);
      StepTrapsIff(s, steps[0]);
      RunTrapsIff(Apply(s, steps[0]), steps[1..]);
    }
  }

  lemma TwoSteps(s: System, first: Step, second: Step)
    ensures IsRun(s, [first, second]) <==> Enabled(s, first) && Enabled(Apply(s, first), second)
    ensures Final(s, [first, second]) == Apply(Apply(s, first), second)
  {
    hide Enabled, Apply;
    var r := Apply(s, first);
    var both, last := [first, second], [second];
    assert both[1..] == last && last[1..] == [];
    assert IsRun(s, both) <==> Enabled(s, first) && IsRun(r, last);
    assert Final(s, both) == Final(r, last) == Final(Apply(r, second), []);
  }

  /** Both upgrades, each from a fresh lock. */
  lemma UpgradesAreReachable(t: Tid)
    ensures var steps := [EnterExclusive(t), EnterShared(t)];
            IsRun(Start, steps) && Trapped(Final(Start, steps), t)
    ensures var steps := [EnterShared(t), EnterExclusive(t)];
            IsRun(Start, steps) && Trapped(Final(Start, steps), t)
  {
    TwoSteps(Start, EnterExclusive(t), EnterShared(t));
    TwoSteps(Start, EnterShared(t), EnterExclusive(t));
  }

  // ---------------------------------------------------------------- the wait can end

  function Waiting(s: System): set<Tid> {
    s.sleepR + s.wokenR + s.sleepW + s.wokenW
  }

  ghost predicate Idle(s: System) {
    Waiting(s) == {} && s.readers == multiset{} && s.writers == multiset{}
  }

  ghost predicate Closer(s: System, step: Step) {
    && Enabled(s, step) && !Upgrades(s, step)
    && var r := Apply(s, step);
       || (Waiting(r) == Waiting(s) && |r.readers| + |r.writers| < |s.readers| + |s.writers|)
       || Waiting(r) < Waiting(s)
  }

  lemma GiveBackShared(s: System, t: Tid, w: Option<Tid>)
    requires Inv(s) && t in s.readers && !Trapped(s, t) && Picks(s, w)
    ensures Closer(s, LeaveShared(t, if s.f.shared == 1 then w else None))
  {
    assert |s.readers - multiset{t}| == |s.readers| - 1;
  }

  lemma GiveBackExclusive(s: System, t: Tid, w: Option<Tid>)
    requires Inv(s) && t in s.writers && !Trapped(s, t) && Picks(s, w)
    ensures Closer(s, LeaveExclusive(t, if s.f.recursion == 1 then w else None))
  {
    CountBound(s.writers, t);
    SoleOwner(s, t);
    assert |s.writers - multiset{t}| == |s.writers| - 1;
  }

  lemma TakeFree(s: System, t: Tid)
    requires Inv(s) && s.readers == multiset{} && s.writers == multiset{}
    ensures t in s.wokenR ==> Closer(s, RecheckShared(t))
    ensures t in s.wokenW ==> Closer(s, RecheckExclusive(t))
  {
    if t in s.wokenR { assert t in Waiting(s) && t !in Waiting(Apply(s, RecheckShared(t))); }
    if t in s.wokenW { assert t in Waiting(s) && t !in Waiting(Apply(s, RecheckExclusive(t))); }
  }

  lemma SomeoneOnTheWay(s: System)
    requires Inv(s) && s.readers == multiset{} && s.writers == multiset{} && Waiting(s) != {}
    ensures s.wokenR + s.wokenW != {}
  {
    var t :| t in Waiting(s);
  }

  /** Some step brings an untrapped state closer to idle: a thread gives a hold back, or, with the lock
      free, a notified thread takes it. */
  lemma NextStep(s: System) returns (step: Step)
    requires Inv(s) && !Idle(s) && forall t :: !Trapped(s, t)
    ensures Closer(s, step)
  {
    hide Inv, Closer, Trapped;
    var w := if s.sleepW == {} then None else var w :| w in s.sleepW; Some(w);
    if s.readers != multiset{} {
      var t :| t in s.readers;
      GiveBackShared(s, t, w);
      step := LeaveShared(t, if s.f.shared == 1 then w else None);
    } else if s.writers != multiset{} {
      var t :| t in s.writers;
      GiveBackExclusive(s, t, w);
      step := LeaveExclusive(t, if s.f.recursion == 1 then w else None);
    } else {
      SomeoneOnTheWay(s);
      var t :| t in s.wokenR + s.wokenW;
      TakeFree(s, t);
      step := if t in s.wokenR then RecheckShared(t) else RecheckExclusive(t);
    }
  }

  lemma StartIsIdle()
    ensures Inv(Start) && Idle(Start)
  {
  }

  lemma {:induction false} RunToIdle(s: System) returns (steps: seq<Step>)
    requires Inv(s) && forall t :: !Trapped(s, t)
    ensures IsRun(s, steps) && Idle(Final(s, steps))
    decreases |Waiting(s)|, |s.readers| + |s.writers|
  {
    if Idle(s) { return []; }
    hide Inv, Trapped, Enabled, Apply, Upgrades, Waiting;
    var step := NextStep(s);
    var r := Apply(s, step);
    StepKeepsInv(s, step);
    forall t ensures !Trapped(r, t) { TrappedIffUpgraded(s, step, t); }
    SmallerSet(Waiting(r), Waiting(s));
    var rest := RunToIdle(r);
    steps := [step] + rest;
    assert steps[1..] == rest;
  }

  lemma SmallerSet(a: set<Tid>, b: set<Tid>)
    ensures a < b ==> |a| < |b|
  {
    if a < b { assert b == a + (b - a); }
  }

  ghost predicate CanBecomeIdle(s: System) {
    exists steps :: IsRun(s, steps) && Idle(Final(s, steps))
  }

  ghost predicate WaitCanEnd(s: System) {
    exists steps :: IsRun(s, steps) && Waiting(Final(s, steps)) == {}
  }

  lemma WaitEndsIffNotTrapped(s: System)
    requires Inv(s)
    ensures WaitCanEnd(s) <==> !SomeoneTrapped(s)
    ensures CanBecomeIdle(s) <==> !SomeoneTrapped(s)
  {
    if t :| Trapped(s, t) {
      forall steps | IsRun(s, steps) ensures t in Waiting(Final(s, steps)) { TrappedForever(s, t, steps); }
      hide Inv, IsRun, Final, Waiting, Trapped;
      assert !WaitCanEnd(s);
      assert !CanBecomeIdle(s);
    } else {
      var steps := RunToIdle(s);
      assert IsRun(s, steps) && Idle(Final(s, steps)) && Waiting(Final(s, steps)) == {};
    }
  }

  /** A reachable state can go on to one in which nobody waits, and even to one in which nobody holds
      anything either, exactly when the run so far contains no upgrade. */
  lemma WaitEndsIffNoUpgrade(before: seq<Step>)
    requires IsRun(Start, before)
    ensures var s := Final(Start, before);
            && (WaitCanEnd(s) <==> !EverUpgrades(Start, before))
            && (CanBecomeIdle(s) <==> !EverUpgrades(Start, before))
  {
    StartIsIdle();
    assert !SomeoneTrapped(Start);
    hide Inv, IsRun, EverUpgrades, Final, SomeoneTrapped;
    Safety(before);
    RunTrapsIff(Start, before);
    WaitEndsIffNotTrapped(Final(Start, before));
  }

  // ---------------------------------------------------------------- the object

  lemma ExclusivePasses(s: System, t: Tid)
    requires Exclusion(s)
    ensures Lock(s.f, t).passed <==> s.readers == multiset{} && forall u :: u in s.writers ==> u == t
  {
    if s.writers != multiset{} {
      var u :| u in s.writers;
      SoleOwner(s, u);
      if u == t {
        forall v | v in s.writers ensures v == t { SoleOwner(s, v); }
      }
    }
  }

  lemma OnlyWriter(s: System, t: Tid)
    requires Exclusion(s) && t in s.writers
    ensures s.readers == multiset{} && s.f.owner == Some(t)
    ensures s.writers - multiset{t} == multiset{} <==> s.writers[t] == 1
    ensures s.f.exclusive == 1 && s.f.recursion == s.writers[t] >= 1
  {
    CountBound(s.writers, t);
    SoleOwner(s, t);
    assert |s.writers - multiset{t}| == |s.writers| - 1;
  }

  /** What a round of `lock_shared` comes to. */
  lemma SharedRound(s: System, t: Tid, step: Step)
    requires Inv(s) && Enabled(s, step) && (step == EnterShared(t) || step == RecheckShared(t))
    ensures var r, passed := Apply(s, step), LockShared(s.f).passed;
            && Inv(r) && s.f.exclusive >= 0 && (passed <==> s.writers == multiset{}) && (passed <==> Running(r, t))
            && r.readers == (if passed then s.readers + multiset{t} else s.readers) && r.writers == s.writers
  {
    StepKeepsInv(s, step);
  }

  /** What a round of `lock` comes to. */
  lemma ExclusiveRound(s: System, t: Tid, step: Step)
    requires Inv(s) && Enabled(s, step) && (step == EnterExclusive(t) || step == RecheckExclusive(t))
    ensures var r, passed := Apply(s, step), Lock(s.f, t).passed;
            && Inv(r) && (passed <==> s.readers == multiset{} && forall u :: u in s.writers ==> u == t)
            && (passed <==> Running(r, t))
            && r.writers == (if passed then s.writers + multiset{t} else s.writers) && r.readers == s.readers
  {
    StepKeepsInv(s, step);
    ExclusivePasses(s, t);
  }

  lemma LeaveSharedMeans(s: System, t: Tid, w: Option<Tid>)
    requires Inv(s) && Enabled(s, LeaveShared(t, w))
    ensures var r := Apply(s, LeaveShared(t, w));
            && Inv(r) && r.readers == s.readers - multiset{t} && r.writers == s.writers == multiset{}
            && Waiting(r) == Waiting(s)
            && (r.readers == multiset{} <==> s.f.shared == 1)
            && (if r.readers == multiset{} then r.sleepW != {} ==> r.wokenW != {} else r.sleepW == s.sleepW)
  {
    StepKeepsInv(s, LeaveShared(t, w));
    CountBound(s.readers, t);
    assert |s.readers - multiset{t}| == |s.readers| - 1;
  }

  lemma LeaveExclusiveMeans(s: System, t: Tid, w: Option<Tid>)
    requires Inv(s) && Enabled(s, LeaveExclusive(t, w))
    ensures var r := Apply(s, LeaveExclusive(t, w));
            && Inv(r) && r.writers == s.writers - multiset{t} && r.readers == s.readers == multiset{}
            && (r.writers == multiset{} <==> s.writers[t] == 1)
            && s.f.owner == Some(t) && s.f.recursion == s.writers[t] >= 1 && s.f.exclusive == 1
            && Waiting(r) == Waiting(s)
            && (if r.writers == multiset{} then r.sleepR == {} && (r.sleepW != {} ==> r.wokenW != {})
                else r.sleepR == s.sleepR && r.sleepW == s.sleepW)
  {
    StepKeepsInv(s, LeaveExclusive(t, w));
    OnlyWriter(s, t);
  }

  /** The lock object. The ghost field follows the clients; `Valid` ties it to the real fields. A
      method that would block reports `passed == false` instead and is called again once the thread
      has been woken. */
  class RecursiveSharedMutex {
    var sharedLockCount: int
    var exclusiveLockCount: int
    var recursiveOwner: Option<Tid>
    var recursiveCount: int
    ghost var sys: System

    ghost predicate Valid()
      reads this
    {
      sys.f == Fields(sharedLockCount, exclusiveLockCount, recursiveOwner, recursiveCount) && Inv(sys)
    }

    constructor ()
      ensures Valid() && sys == Start
    {
      sharedLockCount, exclusiveLockCount, recursiveOwner, recursiveCount := 0, 0, None, 0;
      sys := Start;
    }

    /** One round of `lock_shared`: gets through exactly when no write hold is outstanding. */
    method LockSharedRound(me: Tid, ghost step: Step) returns (passed: bool)
      requires Valid() && Enabled(sys, step) && (step == EnterShared(me) || step == RecheckShared(me))
      modifies this
      ensures Valid() && sys == Apply(old(sys), step)
      ensures passed <==> old(sys).writers == multiset{}
      ensures passed <==> Running(sys, me)
      ensures sys.readers == (if passed then old(sys).readers + multiset{me} else old(sys).readers)
      ensures sys.writers == old(sys).writers
    {
      hide Inv, Running;
      SharedRound(sys, me, step);
      sys := Apply(sys, step);
      if exclusiveLockCount > 0 { return false; }
      sharedLockCount := sharedLockCount + 1;
      passed := true;
    }

    method TryLockShared(me: Tid) returns (passed: bool)
      requires Valid() && Running(sys, me)
      modifies this
      ensures Valid() && sys == Apply(old(sys), TryShared(me))
      ensures passed <==> old(sys).writers == multiset{}
      ensures sys.readers == (if passed then old(sys).readers + multiset{me} else old(sys).readers)
      ensures sys.writers == old(sys).writers && Waiting(sys) == Waiting(old(sys))
    {
      hide Inv, Running;
      StepKeepsInv(sys, TryShared(me));
      SharedRound(sys, me, EnterShared(me));
      sys := Apply(sys, TryShared(me));
      if exclusiveLockCount == 0 {
        sharedLockCount := sharedLockCount + 1;
        return true;
      }
      passed := false;
    }

    /** `picked` is the writer that `notify_one` chooses. When the last reader leaves, no writer sleeps
        without one being on its way. */
    method UnlockShared(me: Tid, ghost picked: Option<Tid>) returns (notifyOne: bool)
      requires Valid() && Enabled(sys, LeaveShared(me, picked))
      modifies this
      ensures Valid() && sys == Apply(old(sys), LeaveShared(me, picked))
      ensures notifyOne <==> sys.readers == multiset{}
      ensures sys.readers == old(sys).readers - multiset{me} && sys.writers == old(sys).writers == multiset{}
      ensures Waiting(sys) == Waiting(old(sys))
      ensures if notifyOne then sys.sleepW != {} ==> sys.wokenW != {} else sys.sleepW == old(sys).sleepW
    {
      hide Inv, Waiting, Enabled;
      LeaveSharedMeans(sys, me, picked);
      sys := Apply(sys, LeaveShared(me, picked));
      sharedLockCount := sharedLockCount - 1;
      notifyOne := sharedLockCount == 0;
    }

    /** One round of `lock`: gets through exactly when every outstanding hold is a write hold of the
        caller. */
    method LockRound(me: Tid, ghost step: Step) returns (passed: bool)
      requires Valid() && Enabled(sys, step) && (step == EnterExclusive(me) || step == RecheckExclusive(me))
      modifies this
      ensures Valid() && sys == Apply(old(sys), step)
      ensures passed <==> old(sys).readers == multiset{} && forall t :: t in old(sys).writers ==> t == me
      ensures passed <==> Running(sys, me)
      ensures sys.writers == (if passed then old(sys).writers + multiset{me} else old(sys).writers)
      ensures sys.readers == old(sys).readers
    {
      hide Inv, Running;
      ExclusiveRound(sys, me, step);
      sys := Apply(sys, step);
      if sharedLockCount > 0 || exclusiveLockCount > 0 {
        if recursiveOwner == Some(me) {
          recursiveCount := recursiveCount + 1;
          return true;
        }
        return false;
      }
      recursiveOwner, recursiveCount, exclusiveLockCount := Some(me), 1, exclusiveLockCount + 1;
      passed := true;
    }

    /** The lock is free afterwards exactly when this was the caller's only write hold; then nobody
        sleeps for a read hold, and a writer is on its way if any waits. */
    method Unlock(me: Tid, ghost picked: Option<Tid>) returns (notify: bool)
      requires Valid() && Enabled(sys, LeaveExclusive(me, picked))
      modifies this
      ensures Valid() && sys == Apply(old(sys), LeaveExclusive(me, picked))
      ensures notify <==> sys.writers == multiset{}
      ensures notify <==> old(sys).writers[me] == 1
      ensures sys.writers == old(sys).writers - multiset{me} && sys.readers == old(sys).readers == multiset{}
      ensures Waiting(sys) == Waiting(old(sys))
      ensures if notify then sys.sleepR == {} && (sys.sleepW != {} ==> sys.wokenW != {})
              else sys.sleepR == old(sys).sleepR && sys.sleepW == old(sys).sleepW
    {
      hide Inv, Waiting, Enabled;
      LeaveExclusiveMeans(sys, me, picked);
      sys := Apply(sys, LeaveExclusive(me, picked));
      if recursiveOwner == Some(me) && recursiveCount > 1 {
        recursiveCount := recursiveCount - 1;
        return false;
      }
      recursiveOwner, recursiveCount, exclusiveLockCount := None, 0, exclusiveLockCount - 1;
      notify := exclusiveLockCount == 0;
    }

    /** A spurious wake-up happens outside the object. */
    ghost method Spurious(step: Step)
      requires Valid() && Enabled(sys, step) && (step.SpuriousShared? || step.SpuriousExclusive?)
      modifies this`sys
      ensures Valid() && sys == Apply(old(sys), step)
    {
      StepKeepsInv(sys, step);
      sys := Apply(sys, step);
    }
  }

  /** Any schedule, driven through the object: the fields stay those of the state machine. */
  method RunSchedule(steps: seq<Step>) returns (m: RecursiveSharedMutex)
    requires IsRun(Start, steps)
    ensures fresh(m) && m.Valid() && m.sys == Final(Start, steps)
  {
    m := new RecursiveSharedMutex();
    hide Inv, Apply, Enabled, Running, Waiting;
    var i := 0;
    while i < |steps|
      invariant 0 <= i <= |steps| && fresh(m)
      invariant m.Valid() && IsRun(m.sys, steps[i..])
      invariant Final(m.sys, steps[i..]) == Final(Start, steps)
    {
      assert steps[i..][1..] == steps[i + 1..];
      TakeStep(m, steps[i]);
      i := i + 1;
    }
  }

  method TakeStep(m: RecursiveSharedMutex, step: Step)
    requires m.Valid() && Enabled(m.sys, step)
    modifies m
    ensures m.Valid() && m.sys == Apply(old(m.sys), step)
  {
    hide Inv, Apply, Running, Waiting;
    match step
    case EnterShared(t) => var _ := m.LockSharedRound(t, step);
    case TryShared(t) => var _ := m.TryLockShared(t);
    case RecheckShared(t) => var _ := m.LockSharedRound(t, step);
    case LeaveShared(t, p) => var _ := m.UnlockShared(t, p);
    case EnterExclusive(t) => var _ := m.LockRound(t, step);
    case RecheckExclusive(t) => var _ := m.LockRound(t, step);
    case LeaveExclusive(t, p) => var _ := m.Unlock(t, p);
    case _ => m.Spurious(step);
  }
}
