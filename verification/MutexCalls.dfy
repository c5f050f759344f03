/** What the calls of shared_recursive_mutex amount to: how often a thread holds the mutex follows
    from the calls it made, one thread excludes all others, and each call, left alone, does what
    its name says. */
module MutexCalls {
  import opened Wrappers
  import opened Mutex

  // ---------- counting calls ----------

  /** What a step adds to the number of times thread t has locked and not unlocked: a try_lock
      counts where it finds itself the owner, or takes the flag and finds nobody sharing. */
  function LockChange(s: State, step: Step, t: Tid): int
    requires step.t < |s.threads|
  {
    if step.t != t then 0
    else match step.a
         case CallLock => 1
         case CallUnlock => -1
         case CallTryLock => if s.owner == Some(t) then 1 else 0
         case Internal => if s.threads[t].pc == TryCheck && s.sharedLocks <= 0 then 1 else 0
         case _ => 0
  }

  /** The same for shared locks: a try_lock_shared counts where it finds the flag clear. */
  function ShareChange(s: State, step: Step, t: Tid): int
    requires step.t < |s.threads|
  {
    if step.t != t then 0
    else match step.a
         case CallLockShared => 1
         case CallUnlockShared => -1
         case Internal => if s.threads[t].pc == TrySharedTas && s.lck.None? then 1 else 0
         case _ => 0
  }

  /** The locks and successful try_locks of thread t over a run, less its unlocks. */
  ghost function Nested(s: State, steps: seq<Step>, t: Tid): int
    requires Runs(s, steps)
    decreases |steps|
  {
    if steps == [] then 0
    else LockChange(s, steps[0], t) + Nested(Do(s, steps[0].t, steps[0].a), steps[1..], t)
  }

  ghost function Shared(s: State, steps: seq<Step>, t: Tid): int
    requires Runs(s, steps)
    decreases |steps|
  {
    if steps == [] then 0
    else ShareChange(s, steps[0], t) + Shared(Do(s, steps[0].t, steps[0].a), steps[1..], t)
  }

  /** The depth a thread has once the lock or unlock it is in the middle of is over. */
  function DepthDue(th: Thread): int {
    th.depth + (if th.pc in {LockTas, LockWait, LockOwner, LockCount, Relock} then 1 else if th.pc == Reunlock then -1 else 0)
  }

  function HoldsDue(th: Thread): int {
    th.holds + if th.pc in {SharedTas, SharedInc} then 1 else 0
  }

  lemma StepDue(s: State, step: Step, t: Tid)
    requires Inv(s) && t < |s.threads| && Enabled(s, step.t, step.a)
    ensures var s' := Do(s, step.t, step.a);
            && |s'.threads| == |s.threads|
            && DepthDue(s'.threads[t]) == DepthDue(s.threads[t]) + LockChange(s, step, t)
            && HoldsDue(s'.threads[t]) == HoldsDue(s.threads[t]) + ShareChange(s, step, t)
  {
    assert InvAt(s, step.t);
    StepCounts(s, step.t, step.a);
  }

  lemma {:induction false} RunDue(s: State, steps: seq<Step>, t: Tid)
    requires Inv(s) && t < |s.threads| && Runs(s, steps)
    ensures var s' := AfterAll(s, steps);
            && |s'.threads| == |s.threads|
            && DepthDue(s'.threads[t]) == DepthDue(s.threads[t]) + Nested(s, steps, t)
            && HoldsDue(s'.threads[t]) == HoldsDue(s.threads[t]) + Shared(s, steps, t)
    decreases |steps|
  {
    hide Do, Inv, DepthDue, HoldsDue, LockChange, ShareChange;
    if steps != [] {
      StepDue(s, steps[0], t);
      StepInv(s, steps[0].t, steps[0].a);
      RunDue(Do(s, steps[0].t, steps[0].a), steps[1..], t);
    }
  }

  /** Between its calls, a thread's depth is its locks less its unlocks, and its shared holds are
      its shared locks less its shared unlocks. */
  lemma DepthIsCalls(n: nat, steps: seq<Step>, t: Tid)
    requires Runs(Init(n), steps) && t < n
    ensures var s := AfterAll(Init(n), steps);
            && |s.threads| == n
            && (s.threads[t].pc == Idle ==>
                  && s.threads[t].depth == Nested(Init(n), steps, t)
                  && s.threads[t].holds == Shared(Init(n), steps, t))
  {
    InitInv(n);
    RunDue(Init(n), steps, t);
  }

  // ---------- safety ----------

  lemma {:induction false} RunKeepsThreads(s: State, steps: seq<Step>)
    requires Runs(s, steps)
    ensures |AfterAll(s, steps).threads| == |s.threads|
    decreases |steps|
  {
    hide Do;
    if steps != [] {
      RunKeepsThreads(Do(s, steps[0].t, steps[0].a), steps[1..]);
    }
  }

  /** In every state any number of threads can reach: a thread between its calls is the owner, as
      hasUniqueLock answers, exactly when it locked more often than it unlocked. Then `count` is by how
      much, no other thread between its calls has locked, and nobody, not even that thread, holds the
      mutex shared. `shared_locks` is the number of shared holds. */
  lemma Exclusion(n: nat, steps: seq<Step>, t: Tid)
    requires Runs(Init(n), steps) && t < |AfterAll(Init(n), steps).threads|
    requires AfterAll(Init(n), steps).threads[t].pc == Idle
    ensures var s := AfterAll(Init(n), steps);
            && |s.threads| == n
            && s.sharedLocks == Holds(s.threads)
            && 0 <= Nested(Init(n), steps, t)
            && (s.owner == Some(t) <==> Nested(Init(n), steps, t) > 0)
            && (s.owner == Some(t) ==>
                 && s.lck == Some(t)
                 && s.count == Nested(Init(n), steps, t)
                 && s.sharedLocks == 0
                 && forall u :: 0 <= u < n ==> s.threads[u].holds == 0 && (u != t ==> s.threads[u].depth == 0))
            && (s.owner == Some(t) ==>
                 forall u :: 0 <= u < n && s.threads[u].pc == Idle ==>
                   Shared(Init(n), steps, u) == 0 && (u != t ==> Nested(Init(n), steps, u) == 0))
  {
    InitInv(n);
    RunInv(Init(n), steps);
    RunKeepsThreads(Init(n), steps);
    DepthIsCalls(n, steps, t);
    var s := AfterAll(Init(n), steps);
    assert InvAt(s, t);
    if s.owner == Some(t) {
      forall u | 0 <= u < n && u != t ensures s.threads[u].depth == 0 {
        assert InvAt(s, u);
      }
      hide Runs, AfterAll, Nested, Shared, Inv, InvAt;
      forall u | 0 <= u < n && s.threads[u].pc == Idle
        ensures Shared(Init(n), steps, u) == 0 && (u != t ==> Nested(Init(n), steps, u) == 0)
      {
        DepthIsCalls(n, steps, u);
      }
    }
  }

  /** A thread stops being the owner only by its own step, and only when it has unlocked as often as
      it locked. */
  lemma OnlyOutermostUnlockReleases(n: nat, steps: seq<Step>, t: Tid, step: Step)
    requires Runs(Init(n), steps) && Enabled(AfterAll(Init(n), steps), step.t, step.a) && t < n
    requires AfterAll(Init(n), steps).owner == Some(t)
    ensures var s' := Do(AfterAll(Init(n), steps), step.t, step.a);
            s'.owner != Some(t) ==> step.t == t && Nested(Init(n), steps, t) == 0 && s'.owner.None?
  {
    InitInv(n);
    RunInv(Init(n), steps);
    RunDue(Init(n), steps, t);
    var s := AfterAll(Init(n), steps);
    assert InvAt(s, t) && InvAt(s, step.t);
  }

  /** The flag is cleared only by the thread that set it, and never while some thread is the owner
      between its calls. */
  lemma FlagClearedBySetter(s: State, t: Tid, a: Action)
    requires Inv(s) && Enabled(s, t, a) && s.lck.Some? && Do(s, t, a).lck.None?
    ensures s.lck == Some(t)
    ensures forall u :: 0 <= u < |s.threads| ==> s.owner != Some(u) && s.threads[u].depth == 0
  {
    assert InvAt(s, t);
    forall u | 0 <= u < |s.threads| ensures s.owner != Some(u) && s.threads[u].depth == 0 {
      assert InvAt(s, u);
    }
  }

  // ---------- whole calls of one thread left alone ----------

  /** The state after thread t takes internal steps, at most k of them, until its call returns. */
  function Alone(s: State, t: Tid, k: nat): State
    requires t < |s.threads|
    decreases k
  {
    if k == 0 || s.threads[t].pc == Idle then s else Alone(Do(s, t, Internal), t, k - 1)
  }

  /** Such a state is one a run reaches. */
  lemma {:induction false} AloneRuns(s: State, t: Tid, k: nat) returns (steps: seq<Step>)
    requires t < |s.threads|
    ensures Runs(s, steps) && AfterAll(s, steps) == Alone(s, t, k) && |steps| <= k
    ensures forall step :: step in steps ==> step == Step(t, Internal)
    decreases k
  {
    hide Do;
    steps := [];
    if k > 0 && s.threads[t].pc != Idle {
      steps := AloneRuns(Do(s, t, Internal), t, k - 1);
      steps := [Step(t, Internal)] + steps;
    }
  }

  /** Thread t calls and, while the others pause, takes the at most four steps a call needs. */
  function Called(s: State, t: Tid, a: Action): State
    requires Enabled(s, t, a) && a != Internal
  {
    Alone(Do(s, t, a), t, 4)
  }

  /** Nobody stands in the way of thread t locking: it is the owner, or the flag is clear and
      nobody shares. */
  predicate Free(s: State, t: Tid) {
    s.owner == Some(t) || (s.lck.None? && s.sharedLocks <= 0)
  }

  /** A thread that finds the mutex free has locked it once more when lock returns; the flag and
      the owner are its own. Otherwise lock does not return. */
  lemma LockAlone(s: State, t: Tid)
    requires Inv(s) && Enabled(s, t, CallLock)
    ensures var s', th := Called(s, t, CallLock), s.threads[t];
            if Free(s, t)
            then s' == State(Some(t), Some(t), th.depth + 1, s.sharedLocks,
                             s.threads[t := Thread(Idle, th.depth + 1, th.holds)])
            else s'.threads[t].pc in {LockTas, LockWait} && s'.owner == s.owner && s'.count == s.count
  {
    assert InvAt(s, t);
    AloneIs(Do(s, t, CallLock), t);
  }

  /** try_lock locks exactly when lock would return, and changes nothing otherwise. */
  lemma TryLockAlone(s: State, t: Tid)
    requires Inv(s) && Enabled(s, t, CallTryLock)
    ensures Called(s, t, CallTryLock) == if Free(s, t) then Called(s, t, CallLock) else s
  {
    assert InvAt(s, t);
    AloneIs(Do(s, t, CallTryLock), t);
    AloneIs(Do(s, t, CallLock), t);
  }

  /** unlock takes back one lock; the last one clears the owner, the count and the flag. */
  lemma UnlockAlone(s: State, t: Tid)
    requires Inv(s) && Enabled(s, t, CallUnlock)
    ensures var s', th := Called(s, t, CallUnlock), s.threads[t];
            && s'.threads == s.threads[t := Thread(Idle, th.depth - 1, th.holds)] && s'.sharedLocks == s.sharedLocks
            && (th.depth > 1 ==> s'.lck == Some(t) && s'.owner == Some(t) && s'.count == th.depth - 1)
            && (th.depth == 1 ==> s'.lck == None && s'.owner == None && s'.count == 0)
  {
    assert InvAt(s, t);
    AloneIs(Do(s, t, CallUnlock), t);
  }

  /** lock_shared adds one shared hold when the flag is clear; otherwise it waits. */
  lemma ShareAlone(s: State, t: Tid)
    requires Inv(s) && Enabled(s, t, CallLockShared)
    ensures var s', th := Called(s, t, CallLockShared), s.threads[t];
            if s.lck.None?
            then s' == s.(sharedLocks := s.sharedLocks + 1, threads := s.threads[t := Thread(Idle, th.depth, th.holds + 1)])
            else s'.threads[t].pc == SharedTas && s'.sharedLocks == s.sharedLocks
  {
    AloneIs(Do(s, t, CallLockShared), t);
  }

  /** try_lock_shared does so too, and changes nothing when the flag is set. */
  lemma TryShareAlone(s: State, t: Tid)
    requires Inv(s) && Enabled(s, t, CallTryLockShared)
    ensures var s', th := Called(s, t, CallTryLockShared), s.threads[t];
            if s.lck.None?
            then s' == s.(sharedLocks := s.sharedLocks + 1, threads := s.threads[t := Thread(Idle, th.depth, th.holds + 1)])
            else s' == s
  {
    AloneIs(Do(s, t, CallTryLockShared), t);
  }

  /** unlock_shared takes back one shared hold. */
  lemma UnshareAlone(s: State, t: Tid)
    requires Enabled(s, t, CallUnlockShared)
    ensures var th := s.threads[t];
            Called(s, t, CallUnlockShared) ==
              s.(sharedLocks := s.sharedLocks - 1, threads := s.threads[t := Thread(Idle, th.depth, th.holds - 1)])
  {
  }

  lemma AloneIs(s: State, t: Tid)
    requires t < |s.threads|
    ensures var s1 := Once(s, t); var s2 := Once(s1, t); var s3 := Once(s2, t);
            Alone(s, t, 4) == Once(s3, t)
  {
    hide Do;
    var s1 := Once(s, t);
    var s2 := Once(s1, t);
    assert Alone(s, t, 4) == Alone(s1, t, 3);
    assert Alone(s1, t, 3) == Alone(s2, t, 2);
    assert Alone(s2, t, 2) == Alone(Once(s2, t), t, 1);
  }

  function Once(s: State, t: Tid): (s': State)
    requires t < |s.threads|
    ensures |s'.threads| == |s.threads|
  {
    if s.threads[t].pc == Idle then s else Do(s, t, Internal)
  }
}
