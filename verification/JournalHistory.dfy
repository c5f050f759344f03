/** What the steps of a run say about its unfinished entries: which additions they come from, with
    which fields, and what adding, closing and letting go of an entry does to them and to the files. */
module JournalHistory {
  import opened Wrappers
  import opened Chunks
  import opened Flattening
  import opened JournalRecords
  import opened JournalReplay
  import opened JournalMachine

  // ---------- the steps of an addition ----------

  /** At step b an idle thread t begins to add an entry that fits. It draws the next number, and r
      is the given entry under that number. */
  ghost predicate BeganAt(steps: seq<Step>, b: nat, t: nat, r: Record) {
    b < |steps| && steps[b].Begin? && steps[b].thread == t
    && var s, e := Run(steps[..b]), steps[b].entry;
       && t !in s.phases
       && e.kind != Close
       && r == Record(s.next, e.kind, e.parentNode, e.newNode, e.newParentNode, e.mode, e.offset, e.name, e.data)
       && Fits(r)
  }

  /** At step w thread t, which has a file to write to, writes. */
  ghost predicate WroteAt(steps: seq<Step>, w: nat, t: nat) {
    w < |steps| && steps[w] == Step.Write(t) && t in Run(steps[..w]).phases && Run(steps[..w]).phases[t].Ready?
  }

  /** Thread t began to add r at step b and has not written since. */
  ghost predicate PendingSince(steps: seq<Step>, b: nat, t: nat, r: Record) {
    BeganAt(steps, b, t, r) && forall k :: b < k < |steps| ==> !WroteAt(steps, k, t)
  }

  /** Thread t began to add r at step b, its next write was at step w, and no later step closes r. */
  ghost predicate AddedAt(steps: seq<Step>, b: nat, w: nat, t: nat, r: Record) {
    && b < w < |steps|
    && PendingSince(steps[..w], b, t, r)
    && WroteAt(steps, w, t)
    && forall c :: w < c < |steps| ==> steps[c] != CloseEntry(r.id)
  }

  /** r was added and is not closed. */
  ghost predicate Awaits(steps: seq<Step>, r: Record) {
    exists b, w, t :: AddedAt(steps, b, w, t, r)
  }

  // ---------- one step ----------

  /** A step starts an addition, or ends one by writing, or leaves the entries being added. */
  lemma StepPhases(s: State, step: Step, t: nat)
    requires Inv(s)
    ensures var after := Next(s, step);
            if step == Step.Write(t) && t in s.phases && s.phases[t].Ready? then
              t !in after.phases
            else if t in s.phases then
              t in after.phases && after.phases[t].entry == s.phases[t].entry
            else if step.Begin? && step.thread == t && step.entry.kind != Close && Fits(step.entry.(id := s.next)) then
              t in after.phases && after.phases[t].entry == step.entry.(id := s.next)
            else
              t !in after.phases
  {
    hide Open, Adds, Fits, FilesOk, WrappersOk, PhaseOk, Held;
    if t in s.phases { ReadyHasFile(s, t); }
  }

  lemma ReadyHasFile(s: State, t: nat)
    requires Inv(s) && t in s.phases
    ensures s.phases[t].Ready? ==> s.phases[t].file in s.files
  {
    hide Open, Adds, Fits, FilesOk, WrappersOk;
    ThreadOk(s, t);
  }

  /** The unfinished entries change when a thread writes and when an entry is closed. */
  lemma StepUnfinished(s: State, step: Step)
    requires Inv(s)
    ensures var u, after := Unfinished(s), Unfinished(Next(s, step));
            match step
            case Write(t) =>
              if t in s.phases && s.phases[t].Ready? then
                s.phases[t].entry.id !in s.wrappers && after == u[s.phases[t].entry.id := s.phases[t].entry]
              else after == u
            case CloseEntry(id) => after == u - {id}
            case _ => after == u
  {
    hide Inv, Open, Adds, Fits, Held;
    match step
    case Write(t) =>
      if t in s.phases && s.phases[t].Ready? {
        ReadyHasFile(s, t);
        FreshId(s, t);
      }
    case CloseEntry(id) => if id in s.wrappers { WrapperHasFile(s, id); }
    case _ =>
  }

  lemma FreshId(s: State, t: nat)
    requires Inv(s) && t in s.phases && s.phases[t].Ready?
    ensures s.phases[t].entry.id !in s.wrappers
  {
    hide Open, Adds, Fits, FilesOk, WrappersOk, PhasesOk;
    ThreadOk(s, t);
    NotWritten(s, s.phases[t].entry.id, t, s.phases[t].file);
  }

  lemma WrapperHasFile(s: State, id: nat)
    requires Inv(s) && id in s.wrappers
    ensures s.wrappers[id].file in s.files
  {
    hide Open, Range, FilesOk, PhasesOk;
    WrapperOkAt(s, id);
  }

  // ---------- what a run leaves unfinished ----------

  lemma RunNext(pre: seq<Step>, step: Step)
    ensures Run(pre + [step]) == Next(Run(pre), step)
  {
    hide Next;
    assert (pre + [step])[..|pre|] == pre;
  }

  /** What was so early in a run is so in any longer one. */
  lemma Longer(pre: seq<Step>, step: Step, k: nat, t: nat, r: Record)
    requires k < |pre|
    ensures BeganAt(pre + [step], k, t, r) <==> BeganAt(pre, k, t, r)
    ensures WroteAt(pre + [step], k, t) <==> WroteAt(pre, k, t)
  {
    hide Run, Fits;
    assert (pre + [step])[..k] == pre[..k];
  }

  lemma AtTheEnd(pre: seq<Step>, step: Step, t: nat, r: Record)
    ensures WroteAt(pre + [step], |pre|, t) <==>
              step == Step.Write(t) && t in Run(pre).phases && Run(pre).phases[t].Ready?
    ensures BeganAt(pre + [step], |pre|, t, r) <==>
              && step.Begin? && step.thread == t && t !in Run(pre).phases && step.entry.kind != Close
              && r == step.entry.(id := Run(pre).next) && Fits(r)
  {
    hide Run, Fits;
    assert (pre + [step])[..|pre|] == pre;
  }

  lemma PendingLonger(pre: seq<Step>, step: Step, b: nat, t: nat, r: Record)
    requires b < |pre|
    ensures PendingSince(pre + [step], b, t, r) <==> PendingSince(pre, b, t, r) && !WroteAt(pre + [step], |pre|, t)
  {
    hide BeganAt, WroteAt;
    Longer(pre, step, b, t, r);
    forall k | b < k < |pre| ensures WroteAt(pre + [step], k, t) <==> WroteAt(pre, k, t) {
      Longer(pre, step, k, t, r);
    }
  }

  /** A thread is adding r exactly when it began to and has not written since. */
  lemma {:induction false} AddingExactly(steps: seq<Step>, t: nat, r: Record)
    ensures t in Run(steps).phases && Run(steps).phases[t].entry == r <==> exists b :: PendingSince(steps, b, t, r)
    decreases |steps|
  {
    hide Run, Next, PendingSince, Inv, Fits;
    if steps == [] {
      AtStart();
    } else {
      var pre, step := steps[..|steps| - 1], steps[|steps| - 1];
      assert steps == pre + [step];
      RunNext(pre, step);
      RunKeepsInv(pre);
      StepPhases(Run(pre), step, t);
      AddingExactly(pre, t, r);
      AtTheEnd(pre, step, t, r);
      PendingAtEnd(pre, step, t, r);
      forall b: nat | b < |pre| ensures PendingSince(steps, b, t, r) <==> PendingSince(pre, b, t, r) && !WroteAt(steps, |pre|, t) {
        PendingLonger(pre, step, b, t, r);
      }
      hide BeganAt, WroteAt;
      PendingInside(pre, step, t, r);
    }
  }

  lemma AtStart()
    ensures Run([]) == START && START.phases == map[] && Unfinished(START) == map[]
    ensures forall b, t, r :: !PendingSince([], b, t, r)
  {
  }

  lemma PendingAtEnd(pre: seq<Step>, step: Step, t: nat, r: Record)
    ensures PendingSince(pre + [step], |pre|, t, r) <==> BeganAt(pre + [step], |pre|, t, r)
  {
    hide BeganAt, WroteAt;
  }

  lemma PendingInside(pre: seq<Step>, step: Step, t: nat, r: Record)
    ensures forall b: nat :: PendingSince(pre, b, t, r) ==> b < |pre|
    ensures forall b: nat :: PendingSince(pre + [step], b, t, r) ==> b <= |pre|
  {
    hide Run, Fits, WroteAt;
  }

  lemma AddedLonger(pre: seq<Step>, step: Step, b: nat, w: nat, t: nat, r: Record)
    requires w < |pre|
    ensures AddedAt(pre + [step], b, w, t, r) <==> AddedAt(pre, b, w, t, r) && step != CloseEntry(r.id)
  {
    hide PendingSince, WroteAt;
    var steps := pre + [step];
    assert steps[..w] == pre[..w];
    Longer(pre, step, w, t, r);
    assert steps[|pre|] == step;
    assert forall c :: w < c < |pre| ==> steps[c] == pre[c];
  }

  lemma AddedLast(pre: seq<Step>, step: Step, b: nat, t: nat, r: Record)
    ensures AddedAt(pre + [step], b, |pre|, t, r) <==>
              PendingSince(pre, b, t, r) && WroteAt(pre + [step], |pre|, t)
  {
    hide WroteAt, Run, Fits;
    assert (pre + [step])[..|pre|] == pre;
  }

  /** An entry is unfinished exactly when some thread began to add it, then wrote it, and no later
      step closes it. It has the fields that thread gave, name and data included. */
  lemma {:induction false} UnfinishedExactly(steps: seq<Step>, r: Record)
    ensures r.id in Unfinished(Run(steps)) && Unfinished(Run(steps))[r.id] == r <==> Awaits(steps, r)
    decreases |steps|
  {
    hide Run, Next, PendingSince, WroteAt, AddedAt, Unfinished, Inv;
    if steps == [] {
      AtStart();
      NothingAdded(r);
    } else {
      var pre, step := steps[..|steps| - 1], steps[|steps| - 1];
      assert steps == pre + [step];
      UnfinishedExactly(pre, r);
      NextUnfinished(pre, step, r);
    }
  }

  lemma NothingAdded(r: Record)
    ensures !Awaits([], r)
  {
  }

  lemma NextUnfinished(pre: seq<Step>, step: Step, r: Record)
    requires r.id in Unfinished(Run(pre)) && Unfinished(Run(pre))[r.id] == r <==> Awaits(pre, r)
    ensures var after := Unfinished(Run(pre + [step]));
            r.id in after && after[r.id] == r <==> Awaits(pre + [step], r)
  {
    hide Run, Next, PendingSince, WroteAt, AddedAt, Inv, Unfinished, Fits;
    var s, steps := Run(pre), pre + [step];
    RunNext(pre, step);
    RunKeepsInv(pre);
    StepUnfinished(s, step);
    AwaitsNext(pre, step, r);
    if step.Write? {
      var t := step.thread;
      AtTheEnd(pre, step, t, r);
      AddingExactly(pre, t, r);
      NotOpenYet(s, t);
    }
  }

  lemma NotOpenYet(s: State, t: nat)
    requires Inv(s)
    ensures t in s.phases && s.phases[t].Ready? ==> s.phases[t].entry.id !in Unfinished(s)
  {
    hide Inv;
    if t in s.phases && s.phases[t].Ready? { FreshId(s, t); }
  }

  lemma AwaitsNext(pre: seq<Step>, step: Step, r: Record)
    ensures Awaits(pre + [step], r) <==>
              || (Awaits(pre, r) && step != CloseEntry(r.id))
              || (step.Write? && WroteAt(pre + [step], |pre|, step.thread) && exists b :: PendingSince(pre, b, step.thread, r))
  {
    hide Run, PendingSince, AddedAt;
    var steps := pre + [step];
    forall b: nat, w: nat, t: nat | w < |pre|
      ensures AddedAt(steps, b, w, t, r) <==> AddedAt(pre, b, w, t, r) && step != CloseEntry(r.id)
    {
      AddedLonger(pre, step, b, w, t, r);
    }
    forall b: nat, t: nat
      ensures AddedAt(steps, b, |pre|, t, r) <==> PendingSince(pre, b, t, r) && WroteAt(steps, |pre|, t)
    {
      AddedLast(pre, step, b, t, r);
    }
    forall b: nat, w: nat, t: nat | AddedAt(steps, b, w, t, r) ensures w < |pre| || (w == |pre| && step == Step.Write(t)) {
      AddedInside(steps, b, w, t, r);
    }
    forall b: nat, w: nat, t: nat | AddedAt(pre, b, w, t, r) ensures w < |pre| {
      AddedInside(pre, b, w, t, r);
    }
  }

  lemma AddedInside(steps: seq<Step>, b: nat, w: nat, t: nat, r: Record)
    requires AddedAt(steps, b, w, t, r)
    ensures w < |steps| && steps[w] == Step.Write(t)
  {
    hide PendingSince;
  }

  // ---------- the numbers ----------

  lemma StepNumbers(s: State, step: Step)
    ensures s.next <= Next(s, step).next
    ensures step.Begin? && step.thread !in s.phases && step.entry.kind != Close && Fits(step.entry.(id := s.next)) ==>
              s.next < Next(s, step).next
  {
    hide Fits, Held;
  }

  /** Additions that begin later have greater numbers; so the replay follows the order in which
      the threads began. */
  lemma {:induction false} LaterIsGreater(steps: seq<Step>, b: nat, t: nat, r: Record, b': nat, t': nat, r': Record)
    requires BeganAt(steps, b, t, r) && BeganAt(steps, b', t', r') && b < b'
    ensures r.id < r'.id
  {
    hide Run, Next, Fits;
    NumberDrawn(steps, b, t, r);
    NumbersGrow(steps, b + 1, b');
  }

  lemma NumberDrawn(steps: seq<Step>, b: nat, t: nat, r: Record)
    requires BeganAt(steps, b, t, r)
    ensures r.id < Run(steps[..b + 1]).next
  {
    hide Run, Next, Fits;
    assert steps[..b + 1] == steps[..b] + [steps[b]];
    RunNext(steps[..b], steps[b]);
    assert steps[b].entry.(id := Run(steps[..b]).next) == r;
    StepNumbers(Run(steps[..b]), steps[b]);
  }

  lemma {:induction false} NumbersGrow(steps: seq<Step>, i: nat, j: nat)
    requires i <= j <= |steps|
    ensures Run(steps[..i]).next <= Run(steps[..j]).next
    decreases j
  {
    hide Run, Next;
    if i < j {
      NumbersGrow(steps, i, j - 1);
      assert steps[..j] == steps[..j - 1] + [steps[j - 1]];
      RunNext(steps[..j - 1], steps[j - 1]);
      StepNumbers(Run(steps[..j - 1]), steps[j - 1]);
    }
  }

  // ---------- whole calls ----------

  /** Closing an entry takes it out of the unfinished ones, and no other. */
  lemma CloseEntryEffect(steps: seq<Step>, id: nat)
    ensures Unfinished(Run(steps + [CloseEntry(id)])) == Unfinished(Run(steps)) - {id}
  {
    hide Run, Next, Inv, Unfinished;
    RunNext(steps, CloseEntry(id));
    RunKeepsInv(steps);
    StepUnfinished(Run(steps), CloseEntry(id));
  }

  /** The file thread t writes to next: the last one it made, while some thread or entry holds it
      and it has no more than 1024 records. */
  ghost predicate Reuses(s: State, t: nat) {
    t in s.current && s.current[t] in s.files && |s.files[s.current[t]]| <= 1024
    && exists id :: id in s.wrappers && s.wrappers[id].file == s.current[t]
  }

  /** A thread left alone adds its entry in at most five steps: the record goes behind those of the
      file it made last, if that one is still in use and has room, and into a new file otherwise. */
  lemma AddCompletes(steps: seq<Step>, t: nat, e: Record) returns (more: seq<Step>)
    requires var s := Run(steps); t !in s.phases && e.kind != Close && Fits(e.(id := s.next))
    ensures 4 <= |more| <= 5 && more[0] == Begin(t, e) && Added(Run(steps), t, e.(id := Run(steps).next), Run(steps + more))
  {
    hide Run, Next, Inv, Added, Fits, Reuses;
    var s := Run(steps);
    RunKeepsInv(steps);
    BeginLock(s, t, e);
    var s2, r := Next(Next(s, Begin(t, e)), Lock(t)), e.(id := s.next);
    more := [Begin(t, e), Lock(t)];
    assert steps + [] == steps && [] + more == more;
    RunTwo(steps, [], Begin(t, e), Lock(t));
    if s2.phases[t].Locked? {
      if |s2.files[s2.phases[t].file]| <= 1024 {
        AddToCurrent(s, s2, t, r);
        RunTwo(steps, more, Check(t), Step.Write(t));
        more := more + [Check(t), Step.Write(t)];
      } else {
        AddToNext(s, s2, t, r);
        RunTwo(steps, more, Check(t), MakeFile(t));
        more := more + [Check(t), MakeFile(t)];
        RunNext(steps + more, Step.Write(t));
        assert steps + (more + [Step.Write(t)]) == (steps + more) + [Step.Write(t)];
        more := more + [Step.Write(t)];
      }
    } else {
      AddToFirst(s, s2, t, r);
      RunTwo(steps, more, MakeFile(t), Step.Write(t));
      more := more + [MakeFile(t), Step.Write(t)];
    }
  }

  ghost predicate Added(s: State, t: nat, r: Record, after: State) {
    && Unfinished(after) == Unfinished(s)[r.id := r]
    && after.phases == s.phases
    && (if Reuses(s, t)
        then after.current == s.current && after.files == s.files[s.current[t] := s.files[s.current[t]] + [r]]
        else after.current == s.current[t := r.id + 1] && after.files == s.files[r.id + 1 := [r]])
  }

  lemma RunTwo(steps: seq<Step>, more: seq<Step>, a: Step, b: Step)
    ensures Run(steps + (more + [a, b])) == Next(Next(Run(steps + more), a), b)
  {
    hide Run, Next;
    assert steps + (more + [a, b]) == (steps + more + [a]) + [b];
    RunNext(steps + more, a);
    RunNext(steps + more + [a], b);
  }

  lemma BeginLock(s: State, t: nat, e: Record)
    requires Inv(s) && t !in s.phases && e.kind != Close && Fits(e.(id := s.next))
    ensures Located(s, Next(Next(s, Begin(t, e)), Lock(t)), t, e.(id := s.next))
  {
    hide Open, Adds, Fits, Range, FilesOk, CheckEntries, NewFile, WriteEntry, WriteClose, DropWrapper, RemoveFile;
    if t in s.current {
      forall o | o in s.phases ensures HeldBy(s.phases[o]) != Some(s.current[t]) {
        ThreadOk(s, o);
      }
      WrappersHaveFiles(s);
    }
  }

  lemma UnfinishedMore(s: State, r: Record)
    ensures forall after: State, f: nat | after.wrappers == s.wrappers[r.id := Wrapper(f, r, false)] ::
              Unfinished(after) == Unfinished(s)[r.id := r]
  {
  }

  /** A thread that found its last file or none finishes its call. */
  lemma AddToCurrent(s: State, s2: State, t: nat, r: Record)
    requires Located(s, s2, t, r) && s2.phases[t].Locked? && |s.files[s.current[t]]| <= 1024
    ensures Added(s, t, r, Next(Next(s2, Check(t)), Step.Write(t)))
  {
    hide Inv, Held, BeginEntry, LockCurrent, WriteClose, DropWrapper, RemoveFile, Unfinished;
    UnfinishedMore(s, r);
    assert Reuses(s, t);
  }

  lemma AddToNext(s: State, s2: State, t: nat, r: Record)
    requires Located(s, s2, t, r) && s2.phases[t].Locked? && |s.files[s.current[t]]| > 1024
    ensures Added(s, t, r, Next(Next(Next(s2, Check(t)), MakeFile(t)), Step.Write(t)))
  {
    hide Inv, Held, BeginEntry, LockCurrent, WriteClose, DropWrapper, RemoveFile, Unfinished;
    UnfinishedMore(s, r);
    assert !Reuses(s, t);
    assert [] + [r] == [r];
  }

  lemma AddToFirst(s: State, s2: State, t: nat, r: Record)
    requires Located(s, s2, t, r) && s2.phases[t].NeedFile?
    ensures Added(s, t, r, Next(Next(s2, MakeFile(t)), Step.Write(t)))
  {
    hide Inv, Held, BeginEntry, LockCurrent, WriteClose, DropWrapper, RemoveFile, Unfinished;
    UnfinishedMore(s, r);
    assert !Reuses(s, t);
    assert [] + [r] == [r];
  }

  /** State s, after an idle thread t began to add r and looked for its file. */
  ghost predicate Located(s: State, s2: State, t: nat, r: Record) {
    && t !in s.phases && r.id == s.next
    && s2 == s.(next := s.next + 1, phases := s2.phases, uses := s2.uses)
    && t in s2.phases && s2.phases == s.phases[t := s2.phases[t]]
    && (if t in s.current && s.current[t] in s.files && exists id :: id in s.wrappers && s.wrappers[id].file == s.current[t]
        then s2.phases[t] == Locked(r, s.current[t])
        else s2.phases[t] == NeedFile(r, None))
  }

  /** Only one entry lives in file f and no thread has got hold of f: once the entry is closed and
      let go of, the file goes too. */
  lemma LastCloseRemovesFile(steps: seq<Step>, id: nat, f: nat)
    requires OnlyEntry(Run(steps), id, f)
    ensures var s, after := Run(steps), Run(steps + [CloseEntry(id), Drop(id), Remove(f)]);
            && after.files == s.files - {f} && after.phases == s.phases
            && Unfinished(after) == Unfinished(s) - {id}
  {
    hide Run, Next, Inv, Unfinished;
    RunKeepsInv(steps);
    WrapperHasFile(Run(steps), id);
    assert steps + [] == steps && [] + [CloseEntry(id), Drop(id)] == [CloseEntry(id), Drop(id)];
    RunTwo(steps, [], CloseEntry(id), Drop(id));
    assert steps + [CloseEntry(id), Drop(id), Remove(f)] == steps + [CloseEntry(id), Drop(id)] + [Remove(f)];
    RunNext(steps + [CloseEntry(id), Drop(id)], Remove(f));
    CloseAndDrop(Run(steps), id, f);
  }

  ghost predicate OnlyEntry(s: State, id: nat, f: nat) {
    && id in s.wrappers && s.wrappers[id].file == f
    && (forall other :: other in s.wrappers && s.wrappers[other].file == f ==> other == id)
    && forall t :: t in s.phases ==> s.phases[t].Begun?
  }

  lemma CloseAndDrop(s: State, id: nat, f: nat)
    requires f in s.files && OnlyEntry(s, id, f)
    ensures var after := Next(Next(Next(s, CloseEntry(id)), Drop(id)), Remove(f));
            && after.files == s.files - {f} && after.phases == s.phases
            && Unfinished(after) == Unfinished(s) - {id}
  {
    hide Unfinished, Held, BeginEntry, LockCurrent, CheckEntries, NewFile, WriteEntry;
    var closed := Next(s, CloseEntry(id));
    var dropped := DropWrapper(closed, id);
    assert dropped.wrappers == s.wrappers - {id} && dropped.phases == s.phases;
    assert dropped.files - {f} == s.files - {f} && f in dropped.files;
    NotHeld(dropped, f);
    UnfinishedLess(s, id, dropped);
  }

  lemma NotHeld(s: State, f: nat)
    requires forall other :: other in s.wrappers ==> s.wrappers[other].file != f
    requires forall t :: t in s.phases ==> s.phases[t].Begun?
    ensures !Held(s, f)
  {
  }

  lemma UnfinishedLess(s: State, id: nat, after: State)
    requires after.wrappers == s.wrappers - {id}
    ensures Unfinished(after) == Unfinished(s) - {id}
    ensures forall files: map<nat, seq<Record>> :: Unfinished(after.(files := files)) == Unfinished(after)
  {
  }

  // ---------- after a crash ----------

  /** Replaying the directory after a crash at any point of any run dispatches every entry that
      was added and not closed, as it was given, once and by ascending number, and nothing else. */
  method Recover(c: Cipher, contents: seq<seq<Byte>>, ghost steps: seq<Step>, ghost order: seq<nat>)
    returns (replayed: seq<Record>)
    requires Opens(c) && Lists(Run(steps), order) && |contents| == |order|
    requires forall i :: 0 <= i < |order| ==> OnDisk(c, contents[i], Run(steps).files[order[i]])
    ensures forall r :: r in replayed <==> Awaits(steps, r)
    ensures Ascending(replayed)
    ensures Replays(Unfinished(Run(steps)), replayed)
  {
    hide Opens, OnDisk, Run, Fits, Open, Unfinished, Replays, Awaits;
    CrashLeavesUnfinished(steps, order);
    replayed := TryReplay(c, contents, Parts(Run(steps), order));
    ReplayedAwaits(steps, replayed);
  }

  lemma ReplayedAwaits(steps: seq<Step>, replayed: seq<Record>)
    requires Replays(Unfinished(Run(steps)), replayed)
    ensures forall r :: r in replayed <==> Awaits(steps, r)
    ensures Ascending(replayed)
  {
    hide Run, Unfinished, Awaits, Ascending;
    forall r ensures r in replayed <==> Awaits(steps, r) {
      UnfinishedExactly(steps, r);
    }
  }
}
