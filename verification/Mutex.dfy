/** The spin-based shared recursive mutex of src/modules/util/shared_recursive_mutex.cpp as a
    step machine: any number of threads, one program counter each, and one atomic access to
    `lck`, `owner`, `count` or `shared_locks` a step. */
module Mutex {
  import opened Wrappers

  type Tid = nat

  /** Where a thread is.  The name tells the access it is about to make. */
  datatype Pc =
    | Idle
    // lock
    | LockTas       // test_and_set, spinning
    | LockWait      // wait for shared_locks to reach 0, spinning
    | LockOwner     // owner = this_id
    | LockCount     // count = 1
    | Relock        // count++ of a recursive lock or try_lock
    // try_lock
    | TryTas
    | TryCheck      // look at shared_locks
    | TryBackOff    // clear lck and give up
    // unlock
    | Reunlock      // count--
    | UnlockOwner   // owner = none
    | UnlockCount   // count = 0
    | UnlockClear   // clear lck
    // lock_shared and try_lock_shared
    | SharedTas     // test_and_set, spinning
    | TrySharedTas
    | SharedInc     // shared_locks++
    | SharedClear   // clear lck

  /** `depth` counts the returned lock calls of a thread that are not unlocked yet, `holds`
      its shared locks. */
  datatype Thread = Thread(pc: Pc, depth: nat, holds: nat)

  /** `lck` is the flag; when set it remembers by whom, which no step looks at. */
  datatype State = State(
    lck: Option<Tid>,
    owner: Option<Tid>,
    count: int,
    sharedLocks: int,
    threads: seq<Thread>
  )

  /** A thread takes its next internal step or makes a call. */
  datatype Action =
    | Internal
    | CallLock | CallTryLock | CallUnlock
    | CallLockShared | CallTryLockShared | CallUnlockShared

  function Init(n: nat): State {
    State(None, None, 0, 0, seq(n, _ => Thread(Idle, 0, 0)))
  }

  /** Callers unlock only what they locked, and the assertion in lock_shared that the thread
      is not the owner holds. */
  predicate Enabled(s: State, t: Tid, a: Action) {
    && t < |s.threads|
    && var th := s.threads[t];
       match a
       case Internal => th.pc != Idle
       case CallLock => th.pc == Idle
       case CallTryLock => th.pc == Idle
       case CallUnlock => th.pc == Idle && th.depth > 0
       case CallLockShared => th.pc == Idle && s.owner != Some(t)
       case CallTryLockShared => th.pc == Idle
       case CallUnlockShared => th.pc == Idle && th.holds > 0
  }

  function Goto(s: State, t: Tid, pc: Pc): State
    requires t < |s.threads|
  {
    s.(threads := s.threads[t := s.threads[t].(pc := pc)])
  }

  function Set(s: State, t: Tid, th: Thread): State
    requires t < |s.threads|
  {
    s.(threads := s.threads[t := th])
  }

  function Do(s: State, t: Tid, a: Action): (s': State)
    requires Enabled(s, t, a)
    ensures |s'.threads| == |s.threads|
  {
    var th := s.threads[t];
    match a
    case CallLock => Goto(s, t, if s.owner == Some(t) then Relock else LockTas)
    case CallTryLock => Goto(s, t, if s.owner == Some(t) then Relock else TryTas)
    case CallUnlock =>
      if s.count > 1 then Goto(s, t, Reunlock)
      else Set(s, t, th.(pc := UnlockOwner, depth := th.depth - 1))
    case CallLockShared => Goto(s, t, SharedTas)
    case CallTryLockShared => Goto(s, t, TrySharedTas)
    case CallUnlockShared =>
      Set(s, t, th.(holds := th.holds - 1)).(sharedLocks := s.sharedLocks - 1)
    case Internal =>
      match th.pc
      case LockTas => if s.lck.Some? then s else Goto(s, t, LockWait).(lck := Some(t))
      case LockWait => if s.sharedLocks > 0 then s else Goto(s, t, LockOwner)
      case LockOwner => Goto(s, t, LockCount).(owner := Some(t))
      case LockCount => Set(s, t, th.(pc := Idle, depth := th.depth + 1)).(count := 1)
      case Relock => Set(s, t, th.(pc := Idle, depth := th.depth + 1)).(count := s.count + 1)
      case TryTas => if s.lck.Some? then Goto(s, t, Idle) else Goto(s, t, TryCheck).(lck := Some(t))
      case TryCheck => Goto(s, t, if s.sharedLocks > 0 then TryBackOff else LockOwner)
      case TryBackOff => Goto(s, t, Idle).(lck := None)
      case Reunlock => Set(s, t, th.(pc := Idle, depth := if th.depth > 0 then th.depth - 1 else 0)).(count := s.count - 1)
      case UnlockOwner => Goto(s, t, UnlockCount).(owner := None)
      case UnlockCount => Goto(s, t, UnlockClear).(count := 0)
      case UnlockClear => Goto(s, t, Idle).(lck := None)
      case SharedTas => if s.lck.Some? then s else Goto(s, t, SharedInc).(lck := Some(t))
      case TrySharedTas => if s.lck.Some? then Goto(s, t, Idle) else Goto(s, t, SharedInc).(lck := Some(t))
      case SharedInc =>
        Set(s, t, th.(pc := SharedClear, holds := th.holds + 1)).(sharedLocks := s.sharedLocks + 1)
      case SharedClear => Goto(s, t, Idle).(lck := None)
  }

  // ---------- the invariant ----------

  /** The thread set the flag and has not cleared it. */
  predicate HoldsFlag(th: Thread) {
    th.depth > 0 ||
    th.pc in {LockWait, LockOwner, LockCount, TryCheck, TryBackOff, UnlockOwner, UnlockCount, UnlockClear, SharedInc, SharedClear}
  }

  /** `owner` names the thread. */
  predicate NamedOwner(th: Thread) {
    th.depth > 0 || th.pc in {LockCount, UnlockOwner}
  }

  /** The thread is past its check that nobody holds the mutex shared. */
  predicate Exclusive(th: Thread) {
    th.depth > 0 || th.pc in {LockOwner, LockCount, UnlockOwner, UnlockCount, UnlockClear}
  }

  predicate Consistent(th: Thread) {
    match th.pc
    case Idle => true
    case Relock => th.depth > 0
    case Reunlock => th.depth > 1
    case TrySharedTas => true
    case _ => th.depth == 0
  }

  function Holds(threads: seq<Thread>): (n: nat)
    ensures forall t :: 0 <= t < |threads| ==> threads[t].holds <= n
  {
    if threads == [] then 0 else Holds(threads[..|threads| - 1]) + threads[|threads| - 1].holds
  }

  ghost predicate InvAt(s: State, t: Tid)
    requires t < |s.threads|
  {
    var th := s.threads[t];
    && Consistent(th)
    && (HoldsFlag(th) <==> s.lck == Some(t))
    && (NamedOwner(th) <==> s.owner == Some(t))
    && (Exclusive(th) ==> s.sharedLocks == 0)
    && (th.depth > 0 ==> s.count == th.depth)
  }

  ghost predicate Inv(s: State) {
    && s.sharedLocks == Holds(s.threads)
    && (s.lck.Some? ==> s.lck.value < |s.threads|)
    && (forall t :: 0 <= t < |s.threads| ==> InvAt(s, t))
  }

  lemma {:induction false} HoldsUpdate(threads: seq<Thread>, t: Tid, th: Thread)
    requires t < |threads|
    ensures Holds(threads[t := th]) == Holds(threads) - threads[t].holds + th.holds
  {
    var n := |threads| - 1;
    if t == n {
      assert threads[t := th][..n] == threads[..n];
    } else {
      HoldsUpdate(threads[..n], t, th);
      assert threads[t := th][..n] == threads[..n][t := th];
    }
  }

  lemma {:induction false} InitHolds(n: nat)
    ensures Holds(Init(n).threads) == 0
  {
    if n > 0 {
      InitHolds(n - 1);
      assert Init(n).threads[..n - 1] == Init(n - 1).threads;
    }
  }

  lemma InitInv(n: nat)
    ensures Inv(Init(n))
  {
    InitHolds(n);
  }

  /** A step of thread t keeps what is known about t itself... */
  lemma StepSelf(s: State, t: Tid, a: Action)
    requires Enabled(s, t, a) && InvAt(s, t) && s.threads[t].holds <= s.sharedLocks
    ensures InvAt(Do(s, t, a), t)
  {
  }

  /** ... and about every other thread. */
  lemma StepOther(s: State, t: Tid, a: Action, u: Tid)
    requires Enabled(s, t, a) && InvAt(s, t) && s.threads[t].holds <= s.sharedLocks
    requires u < |s.threads| && u != t && InvAt(s, u)
    ensures InvAt(Do(s, t, a), u)
  {
  }

  lemma StepCounts(s: State, t: Tid, a: Action)
    requires Enabled(s, t, a) && InvAt(s, t)
    ensures var s' := Do(s, t, a);
            && s'.threads == s.threads[t := s'.threads[t]]
            && s'.sharedLocks - s.sharedLocks == s'.threads[t].holds - s.threads[t].holds
            && (s'.lck == s.lck || s'.lck == Some(t) || s'.lck == None)
  {
  }

  lemma StepInv(s: State, t: Tid, a: Action)
    requires Inv(s) && Enabled(s, t, a)
    ensures Inv(Do(s, t, a))
  {
    var s' := Do(s, t, a);
    assert InvAt(s, t);
    StepCounts(s, t, a);
    hide Do, InvAt;
    HoldsUpdate(s.threads, t, s'.threads[t]);
    forall u | 0 <= u < |s.threads| ensures InvAt(s', u) {
      assert InvAt(s, u);
      if u == t {
        StepSelf(s, t, a);
      } else {
        StepOther(s, t, a, u);
      }
    }
  }

  // ---------- safety over runs ----------

  datatype Step = Step(t: Tid, a: Action)

  ghost predicate Runs(s: State, steps: seq<Step>)
    decreases |steps|
  {
    steps == [] ||
    (Enabled(s, steps[0].t, steps[0].a) && Runs(Do(s, steps[0].t, steps[0].a), steps[1..]))
  }

  ghost function AfterAll(s: State, steps: seq<Step>): State
    requires Runs(s, steps)
    decreases |steps|
  {
    if steps == [] then s else AfterAll(Do(s, steps[0].t, steps[0].a), steps[1..])
  }

  lemma {:induction false} RunInv(s: State, steps: seq<Step>)
    requires Inv(s) && Runs(s, steps)
    ensures Inv(AfterAll(s, steps))
    decreases |steps|
  {
    if steps != [] {
      StepInv(s, steps[0].t, steps[0].a);
      RunInv(Do(s, steps[0].t, steps[0].a), steps[1..]);
    }
  }

  // ---------- progress ----------

  /** The thread spins. */
  predicate Waits(th: Thread) {
    th.pc in {LockTas, LockWait, SharedTas}
  }

  /** Somebody waits for a shared hold to end that cannot end: a thread waits to lock while it
      holds the mutex shared itself, or a thread that holds it shared waits to share it again
      behind one that already waits for the shared holds to end. */
  ghost predicate Doomed(s: State) {
    || (exists t :: 0 <= t < |s.threads| && UpgradeWaits(s.threads[t]))
    || ((exists u :: 0 <= u < |s.threads| && s.threads[u].pc == LockWait)
        && exists t :: 0 <= t < |s.threads| && s.threads[t].holds > 0 && s.threads[t].pc == SharedTas)
  }

  predicate UpgradeWaits(th: Thread) {
    th.holds > 0 && th.pc in {LockTas, LockWait}
  }

  /** A step that is neither a new request nor another round of a spin: it works towards
      finishing calls and giving back locks. */
  predicate Helps(s: State, step: Step) {
    && Enabled(s, step.t, step.a)
    && step.a in {Internal, CallUnlock, CallUnlockShared}
    && Do(s, step.t, step.a) != s
  }

  lemma {:induction false} SomeHolder(threads: seq<Thread>) returns (t: Tid)
    requires Holds(threads) > 0
    ensures t < |threads| && threads[t].holds > 0
  {
    t := |threads| - 1;
    if threads[t].holds == 0 {
      t := SomeHolder(threads[..t]);
    }
  }

  /** A thread that waits is never alone: as long as the state is not doomed, some thread can
      take a helpful step that does not doom it. */
  lemma Progress(s: State, w: Tid) returns (step: Step)
    requires Inv(s) && !Doomed(s)
    requires w < |s.threads| && Waits(s.threads[w])
    ensures Helps(s, step) && !Doomed(Do(s, step.t, step.a))
  {
    var t := HelpfulThread(s, w);
    var th := s.threads[t];
    step := Step(t, if th.pc != Idle then Internal else if th.depth > 0 then CallUnlock else CallUnlockShared);
    assert InvAt(s, t);
    StepCounts(s, t, step.a);
    assert Do(s, t, step.a).threads[t] != s.threads[t];
    hide InvAt, Inv;
    forall u | 0 <= u < |s.threads| && u != t ensures Do(s, t, step.a).threads[u] == s.threads[u] {}
  }

  /** While the flag is clear, a thread that holds the mutex shared and shares it again goes
      first; while it is set, the thread that set it, or one whose shared hold that one awaits. */
  lemma HelpfulThread(s: State, w: Tid) returns (t: Tid)
    requires Inv(s) && !Doomed(s)
    requires w < |s.threads| && Waits(s.threads[w])
    ensures t < |s.threads|
    ensures s.threads[t].pc == LockWait ==> s.sharedLocks == 0
    ensures s.threads[t].pc in {LockTas, SharedTas} ==> s.lck.None?
    ensures s.threads[t].pc == LockTas ==>
              forall u :: 0 <= u < |s.threads| && s.threads[u].holds > 0 ==> s.threads[u].pc != SharedTas
    ensures s.threads[t].pc == Idle ==> s.threads[t].depth > 0 || s.threads[t].holds > 0
  {
    assert InvAt(s, w);
    if h: nat :| s.lck.None? && h < |s.threads| && s.threads[h].holds > 0 && s.threads[h].pc == SharedTas {
      t := h;
    } else if s.lck.None? {
      t := w;
    } else {
      t := s.lck.value;
      assert InvAt(s, t);
      if s.threads[t].pc == LockWait && s.sharedLocks > 0 {
        t := SomeHolder(s.threads);
        assert InvAt(s, t);
      }
    }
  }

  /** The way a thread still has to go until it has no call running and holds nothing. */
  function Distance(th: Thread): nat {
    10 * th.depth + 5 * th.holds +
    match th.pc
    case Idle => 1
    case LockTas => 20
    case LockWait => 19
    case LockOwner => 17
    case LockCount => 16
    case Relock => 15
    case TryTas => 20
    case TryCheck => 18
    case TryBackOff => 2
    case Reunlock => 0
    case UnlockOwner => 4
    case UnlockCount => 3
    case UnlockClear => 2
    case SharedTas => 10
    case TrySharedTas => 10
    case SharedInc => 9
    case SharedClear => 3
  }

  function TotalDistance(threads: seq<Thread>): nat {
    if threads == [] then 0 else TotalDistance(threads[..|threads| - 1]) + Distance(threads[|threads| - 1])
  }

  lemma {:induction false} DistanceUpdate(threads: seq<Thread>, t: Tid, th: Thread)
    requires t < |threads|
    ensures TotalDistance(threads[t := th]) == TotalDistance(threads) - Distance(threads[t]) + Distance(th)
  {
    var n := |threads| - 1;
    if t == n {
      assert threads[t := th][..n] == threads[..n];
    } else {
      DistanceUpdate(threads[..n], t, th);
      assert threads[t := th][..n] == threads[..n][t := th];
    }
  }

  lemma StepDistance(s: State, t: Tid, a: Action)
    requires Enabled(s, t, a) && InvAt(s, t) && Do(s, t, a) != s
    requires a in {Internal, CallUnlock, CallUnlockShared}
    ensures Distance(Do(s, t, a).threads[t]) < Distance(s.threads[t])
    ensures |Do(s, t, a).threads| == |s.threads|
    ensures Do(s, t, a).threads == s.threads[t := Do(s, t, a).threads[t]]
  {
  }

  lemma HelpDecreases(s: State, step: Step)
    requires Inv(s) && Helps(s, step)
    ensures TotalDistance(Do(s, step.t, step.a).threads) < TotalDistance(s.threads)
  {
    var s' := Do(s, step.t, step.a);
    assert InvAt(s, step.t);
    StepDistance(s, step.t, step.a);
    hide Do, InvAt, Distance;
    DistanceUpdate(s.threads, step.t, s'.threads[step.t]);
  }

  /** From every reachable state that is not doomed, helpful steps alone, and no more of them
      than the distances add up to, bring every waiting thread through. */
  lemma {:induction false} Drains(s: State) returns (steps: seq<Step>)
    requires Inv(s) && !Doomed(s)
    ensures Runs(s, steps) && |steps| <= TotalDistance(s.threads) && NobodyWaits(AfterAll(s, steps))
    decreases TotalDistance(s.threads)
  {
    if w: nat :| w < |s.threads| && Waits(s.threads[w]) {
      var step := Progress(s, w);
      HelpDecreases(s, step);
      StepInv(s, step.t, step.a);
      var rest := Drains(Do(s, step.t, step.a));
      steps := [step] + rest;
      assert steps[1..] == rest;
    } else {
      steps := [];
    }
  }

  ghost predicate NobodyWaits(s: State) {
    forall t :: 0 <= t < |s.threads| ==> !Waits(s.threads[t])
  }

  // ---------- deadlock ----------

  /** A doomed state stays doomed, whatever any thread does. */
  lemma DoomedStays(s: State, t: Tid, a: Action)
    requires Inv(s) && Enabled(s, t, a) && Doomed(s)
    ensures Doomed(Do(s, t, a))
  {
    var s' := Do(s, t, a);
    StepCounts(s, t, a);
    assert InvAt(s, t);
    if u :| 0 <= u < |s.threads| && UpgradeWaits(s.threads[u]) {
      UpgradeStays(s, t, a, u);
    } else {
      var u :| 0 <= u < |s.threads| && s.threads[u].pc == LockWait;
      var h :| 0 <= h < |s.threads| && s.threads[h].holds > 0 && s.threads[h].pc == SharedTas;
      assert InvAt(s, u);
      assert s'.threads[u] == s.threads[u] && s'.threads[h] == s.threads[h];
    }
  }

  /** A thread that waits to lock while it holds the mutex shared goes on doing so. */
  lemma UpgradeStays(s: State, t: Tid, a: Action, u: Tid)
    requires Inv(s) && Enabled(s, t, a) && u < |s.threads| && UpgradeWaits(s.threads[u])
    ensures u < |Do(s, t, a).threads| && UpgradeWaits(Do(s, t, a).threads[u])
  {
    assert InvAt(s, t) && InvAt(s, u);
    StepCounts(s, t, a);
  }

  /** Every waiting thread can get through if and only if the state is not doomed; in a doomed
      state some thread waits in every continuation. */
  lemma WaitersGetThrough(s: State)
    requires Inv(s)
    ensures !Doomed(s) <==> exists steps :: GetsThrough(s, steps)
    ensures Doomed(s) ==> forall steps :: Runs(s, steps) ==> Doomed(AfterAll(s, steps)) && !NobodyWaits(AfterAll(s, steps))
  {
    if Doomed(s) {
      forall steps | Runs(s, steps) ensures Doomed(AfterAll(s, steps)) && !NobodyWaits(AfterAll(s, steps)) {
        DoomedRun(s, steps);
      }
    } else {
      var steps := Drains(s);
      assert GetsThrough(s, steps);
    }
  }

  ghost predicate GetsThrough(s: State, steps: seq<Step>) {
    Runs(s, steps) && NobodyWaits(AfterAll(s, steps))
  }

  lemma {:induction false} DoomedRun(s: State, steps: seq<Step>)
    requires Inv(s) && Doomed(s) && Runs(s, steps)
    ensures Doomed(AfterAll(s, steps)) && !NobodyWaits(AfterAll(s, steps))
    decreases |steps|
  {
    if steps == [] {
      var t :| 0 <= t < |s.threads| && (UpgradeWaits(s.threads[t]) || s.threads[t].pc == LockWait);
      assert Waits(s.threads[t]);
    } else {
      DoomedStays(s, steps[0].t, steps[0].a);
      StepInv(s, steps[0].t, steps[0].a);
      DoomedRun(Do(s, steps[0].t, steps[0].a), steps[1..]);
    }
  }

  /** What the comment in the header warns of: any thread that locks while it holds the mutex
      shared waits for ever, whatever it and the others do next. */
  lemma {:induction false} UpgradeDeadlocks(s: State, t: Tid, steps: seq<Step>)
    requires Inv(s) && Enabled(s, t, CallLock) && s.threads[t].holds > 0
    requires Runs(Do(s, t, CallLock), steps)
    ensures |AfterAll(Do(s, t, CallLock), steps).threads| > t
    ensures UpgradeWaits(AfterAll(Do(s, t, CallLock), steps).threads[t])
    ensures Doomed(AfterAll(Do(s, t, CallLock), steps))
  {
    assert InvAt(s, t);
    StepInv(s, t, CallLock);
    UpgradeRun(Do(s, t, CallLock), t, steps);
  }

  lemma {:induction false} UpgradeRun(s: State, t: Tid, steps: seq<Step>)
    requires Inv(s) && t < |s.threads| && UpgradeWaits(s.threads[t]) && Runs(s, steps)
    ensures t < |AfterAll(s, steps).threads| && UpgradeWaits(AfterAll(s, steps).threads[t])
    decreases |steps|
  {
    if steps != [] {
      UpgradeStays(s, steps[0].t, steps[0].a, t);
      StepInv(s, steps[0].t, steps[0].a);
      UpgradeRun(Do(s, steps[0].t, steps[0].a), t, steps[1..]);
    }
  }

  /** The discipline the header asks for is enough: no thread with a shared hold waits. */
  lemma DisciplineSuffices(s: State)
    requires forall t :: 0 <= t < |s.threads| && s.threads[t].holds > 0 ==> !Waits(s.threads[t])
    ensures !Doomed(s)
  {
  }

  lemma {:induction false} RunOn(s: State, first: seq<Step>, rest: seq<Step>)
    requires Runs(s, first) && Runs(AfterAll(s, first), rest)
    ensures Runs(s, first + rest) && AfterAll(s, first + rest) == AfterAll(AfterAll(s, first), rest)
    decreases |first|
  {
    if first == [] {
      assert first + rest == rest;
    } else {
      assert (first + rest)[0] == first[0] && (first + rest)[1..] == first[1..] + rest;
      RunOn(Do(s, first[0].t, first[0].a), first[1..], rest);
    }
  }

  lemma RunTwo(s: State, a: Step, b: Step)
    requires Enabled(s, a.t, a.a) && Enabled(Do(s, a.t, a.a), b.t, b.a)
    ensures Runs(s, [a, b]) && AfterAll(s, [a, b]) == Do(Do(s, a.t, a.a), b.t, b.a)
  {
    hide Enabled, Do;
    var s1 := Do(s, a.t, a.a);
    assert [a, b][1..] == [b] && [b][1..] == [];
    assert Runs(Do(s1, b.t, b.a), []);
    assert Runs(s1, [b]) && AfterAll(s1, [b]) == Do(s1, b.t, b.a);
  }

  /** A run of two threads that dooms: the first shares, the second waits to lock, and the first
      asks to share once more. */
  lemma SharingAgainDeadlocks() returns (steps: seq<Step>)
    ensures Runs(Init(2), steps) && Doomed(AfterAll(Init(2), steps))
  {
    var shared := State(None, None, 0, 1, [Thread(Idle, 0, 1), Thread(Idle, 0, 0)]);
    var share := SharedOnce();
    RunTwo(shared, Step(1, CallLock), Step(1, Internal));
    var waiting := State(Some(1), None, 0, 1, [Thread(Idle, 0, 1), Thread(LockWait, 0, 0)]);
    assert AfterAll(shared, [Step(1, CallLock), Step(1, Internal)]) == waiting;
    RunOn(Init(2), share, [Step(1, CallLock), Step(1, Internal)]);
    steps := share + [Step(1, CallLock), Step(1, Internal)];
    var after := Do(waiting, 0, CallLockShared);
    assert after.threads[0] == Thread(SharedTas, 0, 1) && after.threads[1] == Thread(LockWait, 0, 0);
    assert [Step(0, CallLockShared)][1..] == [];
    RunOn(Init(2), steps, [Step(0, CallLockShared)]);
    steps := steps + [Step(0, CallLockShared)];
  }

  lemma SharedOnce() returns (steps: seq<Step>)
    ensures Runs(Init(2), steps)
    ensures AfterAll(Init(2), steps) == State(None, None, 0, 1, [Thread(Idle, 0, 1), Thread(Idle, 0, 0)])
  {
    var taken := State(Some(0), None, 0, 0, [Thread(SharedInc, 0, 0), Thread(Idle, 0, 0)]);
    RunTwo(Init(2), Step(0, CallLockShared), Step(0, Internal));
    assert Do(Do(Init(2), 0, CallLockShared), 0, Internal) == taken;
    RunTwo(taken, Step(0, Internal), Step(0, Internal));
    assert Do(Do(taken, 0, Internal), 0, Internal) == State(None, None, 0, 1, [Thread(Idle, 0, 1), Thread(Idle, 0, 0)]);
    RunOn(Init(2), [Step(0, CallLockShared), Step(0, Internal)], [Step(0, Internal), Step(0, Internal)]);
    steps := [Step(0, CallLockShared), Step(0, Internal)] + [Step(0, Internal), Step(0, Internal)];
  }
}
