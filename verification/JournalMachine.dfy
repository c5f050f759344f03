/** Any number of threads adding and closing journal entries, step by step, and what a crash
    between any two steps leaves to replay (src/modules/filesystem/journal.cpp). */
module JournalMachine {
  import opened Wrappers
  import opened Chunks
  import opened Flattening
  import opened JournalRecords
  import opened JournalReplay

  /** What a number drawn from nextJournalEntry was used for. */
  datatype Use = FileName(owner: nat) | Adding(thread: nat) | EntryIn(file: nat)

  /** Where a thread is in journal::add. A file it has locked is kept alive by it. */
  datatype Phase =
    | Begun(entry: Record)
    | Locked(entry: Record, file: nat)
    | NeedFile(entry: Record, full: Option<nat>)
    | Ready(entry: Record, file: nat)

  /** A live journalEntryWrapper; closed from the close record on, until its file is released. */
  datatype Wrapper = Wrapper(file: nat, entry: Record, closed: bool)

  datatype State = State(
    next: nat,
    files: map<nat, seq<Record>>,
    current: map<nat, nat>,
    phases: map<nat, Phase>,
    wrappers: map<nat, Wrapper>,
    uses: map<nat, Use>
  )

  const START: State := State(0, map[], map[], map[], map[], map[])

  datatype Step =
    | Begin(thread: nat, entry: Record)
    | Lock(thread: nat)
    | Check(thread: nat)
    | MakeFile(thread: nat)
    | Write(thread: nat)
    | CloseEntry(id: nat)
    | Drop(id: nat)
    | Remove(file: nat)

  // ---------- who holds a file ----------

  function HeldBy(p: Phase): Option<nat> {
    match p
    case Begun(_) => None
    case Locked(_, file) => Some(file)
    case NeedFile(_, full) => full
    case Ready(_, file) => Some(file)
  }

  predicate Held(s: State, file: nat) {
    || (exists t :: t in s.phases && HeldBy(s.phases[t]) == Some(file))
    || (exists id :: id in s.wrappers && s.wrappers[id].file == file)
  }

  // ---------- the steps; one that is not enabled changes nothing ----------

  function BeginEntry(s: State, t: nat, entry: Record): State {
    var named := entry.(id := s.next);
    if t in s.phases || entry.kind == Close || !Fits(named) then s
    else s.(next := s.next + 1, phases := s.phases[t := Begun(named)], uses := s.uses[s.next := Adding(t)])
  }

  function LockCurrent(s: State, t: nat): State {
    if t !in s.phases || !s.phases[t].Begun? then s
    else if t in s.current && Held(s, s.current[t])
    then s.(phases := s.phases[t := Locked(s.phases[t].entry, s.current[t])])
    else s.(phases := s.phases[t := NeedFile(s.phases[t].entry, None)])
  }

  function CheckEntries(s: State, t: nat): State {
    if t !in s.phases || !s.phases[t].Locked? || s.phases[t].file !in s.files then s
    else
      var p := s.phases[t];
      var full := |s.files[p.file]| > 1024;
      s.(phases := s.phases[t := if full then NeedFile(p.entry, Some(p.file)) else Ready(p.entry, p.file)])
  }

  function NewFile(s: State, t: nat): State {
    if t !in s.phases || !s.phases[t].NeedFile? then s
    else s.(next := s.next + 1, files := s.files[s.next := []], current := s.current[t := s.next],
            phases := s.phases[t := Ready(s.phases[t].entry, s.next)], uses := s.uses[s.next := FileName(t)])
  }

  function WriteEntry(s: State, t: nat): State {
    if t !in s.phases || !s.phases[t].Ready? || s.phases[t].file !in s.files then s
    else
      var entry, file := s.phases[t].entry, s.phases[t].file;
      s.(files := s.files[file := s.files[file] + [entry]], phases := s.phases - {t},
         wrappers := s.wrappers[entry.id := Wrapper(file, entry, false)], uses := s.uses[entry.id := EntryIn(file)])
  }

  function WriteClose(s: State, id: nat): State {
    if id !in s.wrappers || s.wrappers[id].closed || s.wrappers[id].file !in s.files then s
    else
      var file := s.wrappers[id].file;
      s.(files := s.files[file := s.files[file] + [CloseOf(id)]],
         wrappers := s.wrappers[id := s.wrappers[id].(closed := true)])
  }

  function DropWrapper(s: State, id: nat): State {
    if id !in s.wrappers || !s.wrappers[id].closed then s else s.(wrappers := s.wrappers - {id})
  }

  function RemoveFile(s: State, file: nat): State {
    if file !in s.files || Held(s, file) then s else s.(files := s.files - {file})
  }

  function Next(s: State, step: Step): State {
    match step
    case Begin(t, entry) => BeginEntry(s, t, entry)
    case Lock(t) => LockCurrent(s, t)
    case Check(t) => CheckEntries(s, t)
    case MakeFile(t) => NewFile(s, t)
    case Write(t) => WriteEntry(s, t)
    case CloseEntry(id) => WriteClose(s, id)
    case Drop(id) => DropWrapper(s, id)
    case Remove(file) => RemoveFile(s, file)
  }

  function Run(steps: seq<Step>): State {
    if steps == [] then START else Next(Run(steps[..|steps| - 1]), steps[|steps| - 1])
  }

  // ---------- the invariant ----------

  function Adds(records: seq<Record>): nat {
    if records == [] then 0
    else Adds(records[..|records| - 1]) + if records[|records| - 1].kind == Close then 0 else 1
  }

  /** Everything in a file belongs to its wrappers, and is open exactly while they are not closed. */
  ghost predicate FileOk(file: nat, records: seq<Record>, wrappers: map<nat, Wrapper>, uses: map<nat, Use>) {
    && file in uses && uses[file].FileName?
    && (forall r :: r in records ==> Fits(r) && r.id in uses && uses[r.id] == EntryIn(file))
    && (forall id :: id in Open(records) ==> id in wrappers && wrappers[id] == Wrapper(file, Open(records)[id], false))
    && |records| + |Open(records)| == 2 * Adds(records) && Adds(records) <= 1025
  }

  ghost predicate WrapperOk(id: nat, w: Wrapper, files: map<nat, seq<Record>>, uses: map<nat, Use>) {
    && id in uses && uses[id] == EntryIn(w.file) && w.file in files && w.entry.id == id && id < Range(4)
    && (!w.closed ==> id in Open(files[w.file]))
  }

  ghost predicate PhaseOk(t: nat, p: Phase, files: map<nat, seq<Record>>, uses: map<nat, Use>) {
    && p.entry.kind != Close && Fits(p.entry)
    && p.entry.id in uses && uses[p.entry.id] == Adding(t)
    && (HeldBy(p).Some? ==> HeldBy(p).value in files && HeldBy(p).value in uses && uses[HeldBy(p).value] == FileName(t))
    && (p.Ready? ==> Adds(files[p.file]) <= 1024)
  }

  ghost predicate FilesOk(files: map<nat, seq<Record>>, wrappers: map<nat, Wrapper>, uses: map<nat, Use>) {
    forall f :: f in files ==> FileOk(f, files[f], wrappers, uses)
  }

  ghost predicate WrappersOk(wrappers: map<nat, Wrapper>, files: map<nat, seq<Record>>, uses: map<nat, Use>) {
    forall id :: id in wrappers ==> WrapperOk(id, wrappers[id], files, uses)
  }

  ghost predicate PhasesOk(phases: map<nat, Phase>, files: map<nat, seq<Record>>, uses: map<nat, Use>) {
    forall t :: t in phases ==> PhaseOk(t, phases[t], files, uses)
  }

  ghost predicate CurrentOk(current: map<nat, nat>, uses: map<nat, Use>) {
    forall t :: t in current ==> current[t] in uses && uses[current[t]] == FileName(t)
  }

  ghost predicate Numbered(next: nat, uses: map<nat, Use>) {
    forall n :: n in uses ==> n < next
  }

  ghost predicate Inv(s: State) {
    && Numbered(s.next, s.uses)
    && FilesOk(s.files, s.wrappers, s.uses)
    && CurrentOk(s.current, s.uses)
    && PhasesOk(s.phases, s.files, s.uses)
    && WrappersOk(s.wrappers, s.files, s.uses)
  }

  // ---------- every step keeps it ----------

  lemma AddsPush(records: seq<Record>, r: Record)
    ensures Adds(records + [r]) == Adds(records) + if r.kind == Close then 0 else 1
  {
    assert (records + [r])[..|records|] == records;
  }

  lemma {:induction false} AddsAtMost(records: seq<Record>)
    ensures Adds(records) <= |records|
  {
    if records != [] { AddsAtMost(records[..|records| - 1]); }
  }

  /** Numbers keep their use, but for the ids of entries that get written. */
  ghost predicate Grows(uses: map<nat, Use>, after: map<nat, Use>) {
    forall n :: n in uses && !uses[n].Adding? ==> n in after && after[n] == uses[n]
  }

  /** The open wrappers of these files are still there. */
  ghost predicate OpenKept(files: set<nat>, wrappers: map<nat, Wrapper>, after: map<nat, Wrapper>) {
    forall id :: id in wrappers && !wrappers[id].closed && wrappers[id].file in files ==>
      id in after && after[id] == wrappers[id]
  }

  lemma FilesFrame(files: map<nat, seq<Record>>, wrappers: map<nat, Wrapper>, uses: map<nat, Use>,
                   wrappers': map<nat, Wrapper>, uses': map<nat, Use>)
    requires FilesOk(files, wrappers, uses)
    requires Grows(uses, uses') && OpenKept(files.Keys, wrappers, wrappers')
    ensures FilesOk(files, wrappers', uses')
  {
    hide Open, Adds, Fits;
    forall f | f in files ensures FileOk(f, files[f], wrappers', uses') {
      assert FileOk(f, files[f], wrappers, uses);
    }
  }

  lemma WrappersFrame(wrappers: map<nat, Wrapper>, files: map<nat, seq<Record>>, uses: map<nat, Use>,
                      files': map<nat, seq<Record>>, uses': map<nat, Use>)
    requires WrappersOk(wrappers, files, uses)
    requires Grows(uses, uses')
    requires forall id :: id in wrappers ==> wrappers[id].file in files'
    requires forall id :: id in wrappers && !wrappers[id].closed && wrappers[id].file in files
                             && id in Open(files[wrappers[id].file]) ==>
               id in Open(files'[wrappers[id].file])
    ensures WrappersOk(wrappers, files', uses')
  {
    hide Open, Adds, Fits, Range;
    forall id | id in wrappers ensures WrapperOk(id, wrappers[id], files', uses') {
      assert WrapperOk(id, wrappers[id], files, uses);
    }
  }

  /** A thread relies on the use of its id, and on the file it holds. */
  ghost predicate PhaseKept(p: Phase, files: map<nat, seq<Record>>, uses: map<nat, Use>,
                            files': map<nat, seq<Record>>, uses': map<nat, Use>) {
    && (p.entry.id in uses ==> p.entry.id in uses' && uses'[p.entry.id] == uses[p.entry.id])
    && (HeldBy(p).Some? && HeldBy(p).value in files ==>
          HeldBy(p).value in files' && Adds(files'[HeldBy(p).value]) == Adds(files[HeldBy(p).value]))
  }

  lemma PhasesFrame(phases: map<nat, Phase>, files: map<nat, seq<Record>>, uses: map<nat, Use>,
                    files': map<nat, seq<Record>>, uses': map<nat, Use>)
    requires PhasesOk(phases, files, uses) && Grows(uses, uses')
    requires forall t :: t in phases ==> PhaseKept(phases[t], files, uses, files', uses')
    ensures PhasesOk(phases, files', uses')
  {
    hide Adds, Fits;
    forall t | t in phases ensures PhaseOk(t, phases[t], files', uses') {
      assert PhaseOk(t, phases[t], files, uses);
      assert PhaseKept(phases[t], files, uses, files', uses');
    }
  }

  lemma BeginKeepsInv(s: State, t: nat, entry: Record)
    requires Inv(s)
    ensures Inv(BeginEntry(s, t, entry))
  {
    hide Open, Adds, Fits, FilesOk, WrappersOk, PhasesOk;
    var after := BeginEntry(s, t, entry);
    if after != s {
      FilesFrame(s.files, s.wrappers, s.uses, s.wrappers, after.uses);
      WrappersHaveFiles(s);
      WrappersFrame(s.wrappers, s.files, s.uses, s.files, after.uses);
      PhasesFrame(s.phases, s.files, s.uses, s.files, after.uses);
      PhasesPush(s.phases, s.files, after.uses, t, after.phases[t]);
    }
  }

  lemma WrappersHaveFiles(s: State)
    requires WrappersOk(s.wrappers, s.files, s.uses)
    ensures forall id :: id in s.wrappers ==> s.wrappers[id].file in s.files
  {
    hide Open, Range;
    forall id | id in s.wrappers ensures s.wrappers[id].file in s.files {
      assert WrapperOk(id, s.wrappers[id], s.files, s.uses);
    }
  }

  lemma PhasesPush(phases: map<nat, Phase>, files: map<nat, seq<Record>>, uses: map<nat, Use>, t: nat, p: Phase)
    requires PhasesOk(phases, files, uses) && PhaseOk(t, p, files, uses)
    ensures PhasesOk(phases[t := p], files, uses)
  {
    hide PhaseOk;
  }

  lemma LockKeepsInv(s: State, t: nat)
    requires Inv(s)
    ensures Inv(LockCurrent(s, t))
  {
    hide Open, Adds, Fits, FilesOk, WrappersOk, Held;
    var after := LockCurrent(s, t);
    if after != s {
      assert PhaseOk(t, s.phases[t], s.files, s.uses);
      if t in s.current && Held(s, s.current[t]) { HeldExists(s, s.current[t]); }
      PhasesPush(s.phases, s.files, s.uses, t, after.phases[t]);
    }
  }

  lemma HeldExists(s: State, f: nat)
    requires Held(s, f) && PhasesOk(s.phases, s.files, s.uses) && WrappersOk(s.wrappers, s.files, s.uses)
    ensures f in s.files
  {
    hide Open, Adds, Fits, Range, WrappersOk;
    WrappersHaveFiles(s);
  }

  lemma CheckKeepsInv(s: State, t: nat)
    requires Inv(s)
    ensures Inv(CheckEntries(s, t))
  {
    hide Open, Adds, Fits, FilesOk, WrappersOk;
    var after := CheckEntries(s, t);
    if after != s {
      assert PhaseOk(t, s.phases[t], s.files, s.uses);
      AddsAtMost(s.files[s.phases[t].file]);
      PhasesPush(s.phases, s.files, s.uses, t, after.phases[t]);
    }
  }

  lemma FilesPush(files: map<nat, seq<Record>>, wrappers: map<nat, Wrapper>, uses: map<nat, Use>, f: nat, records: seq<Record>)
    requires FilesOk(files, wrappers, uses) && FileOk(f, records, wrappers, uses)
    ensures FilesOk(files[f := records], wrappers, uses)
  {
    hide FileOk;
  }

  lemma NewFileKeepsInv(s: State, t: nat)
    requires Inv(s)
    ensures Inv(NewFile(s, t))
  {
    hide Fits, FilesOk, WrappersOk, PhasesOk;
    var after := NewFile(s, t);
    if after != s {
      NotAFile(s);
      FilesFrame(s.files, s.wrappers, s.uses, s.wrappers, after.uses);
      FilesPush(s.files, s.wrappers, after.uses, s.next, []);
      WrappersHaveFiles(s);
      WrappersFrame(s.wrappers, s.files, s.uses, after.files, after.uses);
      PhasesFrame(s.phases, s.files, s.uses, after.files, after.uses);
      ThreadOk(s, t);
      PhasesPush(s.phases, after.files, after.uses, t, after.phases[t]);
    }
  }

  lemma NotAFile(s: State)
    requires Numbered(s.next, s.uses) && FilesOk(s.files, s.wrappers, s.uses)
    ensures s.next !in s.files
  {
    hide Open, Adds, Fits;
  }

  lemma ThreadOk(s: State, t: nat)
    requires PhasesOk(s.phases, s.files, s.uses) && t in s.phases
    ensures PhaseOk(t, s.phases[t], s.files, s.uses)
  {
    hide PhaseOk;
  }

  lemma FileAdd(f: nat, records: seq<Record>, r: Record, wrappers: map<nat, Wrapper>, uses: map<nat, Use>)
    requires FileOk(f, records, wrappers, uses) && Adds(records) <= 1024
    requires r.kind != Close && Fits(r) && r.id !in Open(records)
    requires r.id in uses && uses[r.id] == EntryIn(f)
    requires r.id in wrappers && wrappers[r.id] == Wrapper(f, r, false)
    ensures FileOk(f, records + [r], wrappers, uses)
  {
    hide Open, Adds, Fits;
    OpenPush(records, r);
    AddsPush(records, r);
  }

  lemma WrappersPush(wrappers: map<nat, Wrapper>, files: map<nat, seq<Record>>, uses: map<nat, Use>, id: nat, w: Wrapper)
    requires WrappersOk(wrappers - {id}, files, uses) && WrapperOk(id, w, files, uses)
    ensures WrappersOk(wrappers[id := w], files, uses)
  {
    hide WrapperOk;
    var after := wrappers[id := w];
    forall other | other in after ensures WrapperOk(other, after[other], files, uses) {
      assert other == id || other in wrappers - {id};
    }
  }

  lemma OthersKept(s: State, t: nat, after: State, f: nat)
    requires PhasesOk(s.phases, s.files, s.uses) && t in s.phases && HeldBy(s.phases[t]) == Some(f)
    requires forall n :: n in s.uses && n != s.phases[t].entry.id ==> n in after.uses && after.uses[n] == s.uses[n]
    requires f in after.files && after.files == s.files[f := after.files[f]]
    ensures forall o :: o in s.phases && o != t ==> PhaseKept(s.phases[o], s.files, s.uses, after.files, after.uses)
  {
    hide Adds, Fits;
    ThreadOk(s, t);
    forall o | o in s.phases && o != t ensures PhaseKept(s.phases[o], s.files, s.uses, after.files, after.uses) {
      ThreadOk(s, o);
    }
  }

  lemma WriteKeepsInv(s: State, t: nat)
    requires Inv(s)
    ensures Inv(WriteEntry(s, t))
  {
    hide Open, Adds, Range, FilesOk, WrappersOk, PhasesOk, FileOk;
    var after := WriteEntry(s, t);
    if after != s {
      var r, f := s.phases[t].entry, s.phases[t].file;
      ThreadOk(s, t);
      NotWritten(s, r.id, t, f);
      FilesFrame(s.files, s.wrappers, s.uses, after.wrappers, after.uses);
      FileOkAt(s.files, after.wrappers, after.uses, f);
      FileAdd(f, s.files[f], r, after.wrappers, after.uses);
      FilesPush(s.files, after.wrappers, after.uses, f, after.files[f]);
      OpenPush(s.files[f], r);
      WrappersHaveFiles(s);
      WrappersFrame(s.wrappers, s.files, s.uses, after.files, after.uses);
      assert s.wrappers - {r.id} == s.wrappers;
      WrappersPush(s.wrappers, after.files, after.uses, r.id, after.wrappers[r.id]);
      OthersKept(s, t, after, f);
      PhasesLess(s, t);
      PhasesFrame(after.phases, s.files, s.uses, after.files, after.uses);
    }
  }

  lemma PhasesLess(s: State, t: nat)
    requires PhasesOk(s.phases, s.files, s.uses)
    ensures PhasesOk(s.phases - {t}, s.files, s.uses)
  {
    hide PhaseOk;
  }

  lemma FileOkAt(files: map<nat, seq<Record>>, wrappers: map<nat, Wrapper>, uses: map<nat, Use>, f: nat)
    requires FilesOk(files, wrappers, uses) && f in files
    ensures FileOk(f, files[f], wrappers, uses)
  {
    hide FileOk;
  }

  /** An id that is still being added is in no wrapper and in no file. */
  lemma NotWritten(s: State, id: nat, t: nat, f: nat)
    requires FilesOk(s.files, s.wrappers, s.uses) && WrappersOk(s.wrappers, s.files, s.uses)
    requires f in s.files && id in s.uses && s.uses[id] == Adding(t)
    ensures id !in s.wrappers && id !in Open(s.files[f])
  {
    hide Open, Adds, Fits;
    FileOkAt(s.files, s.wrappers, s.uses, f);
    forall other | other in s.wrappers ensures other in s.uses && s.uses[other].EntryIn? {
      assert WrapperOk(other, s.wrappers[other], s.files, s.uses);
    }
  }

  lemma FileClose(f: nat, records: seq<Record>, id: nat, wrappers: map<nat, Wrapper>, uses: map<nat, Use>)
    requires FileOk(f, records, wrappers, uses) && id in Open(records)
    requires id in uses && uses[id] == EntryIn(f) && id < Range(4)
    ensures FileOk(f, records + [CloseOf(id)], wrappers[id := wrappers[id].(closed := true)], uses)
  {
    hide Open, Adds;
    Ranges();
    OpenPush(records, CloseOf(id));
    AddsPush(records, CloseOf(id));
  }

  lemma CloseKeepsInv(s: State, id: nat)
    requires Inv(s)
    ensures Inv(WriteClose(s, id))
  {
    hide Open, Adds, Range, Fits, FilesOk, WrappersOk, PhasesOk, FileOk;
    var after := WriteClose(s, id);
    if after != s {
      var w := s.wrappers[id];
      var others := s.files - {w.file};
      WrapperOkAt(s, id);
      FilesLess(s, w.file);
      FilesFrame(others, s.wrappers, s.uses, after.wrappers, s.uses);
      FileOkAt(s.files, s.wrappers, s.uses, w.file);
      FileClose(w.file, s.files[w.file], id, s.wrappers, s.uses);
      FilesPush(others, after.wrappers, s.uses, w.file, after.files[w.file]);
      assert others[w.file := after.files[w.file]] == after.files;
      OpenPush(s.files[w.file], CloseOf(id));
      WrappersHaveFiles(s);
      WrappersLess(s, id);
      WrappersFrame(s.wrappers - {id}, s.files, s.uses, after.files, s.uses);
      WrappersPush(s.wrappers, after.files, s.uses, id, after.wrappers[id]);
      AddsPush(s.files[w.file], CloseOf(id));
      PhasesFrame(s.phases, s.files, s.uses, after.files, s.uses);
    }
  }

  lemma WrapperOkAt(s: State, id: nat)
    requires WrappersOk(s.wrappers, s.files, s.uses) && id in s.wrappers
    ensures WrapperOk(id, s.wrappers[id], s.files, s.uses)
  {
    hide WrapperOk;
  }

  lemma WrappersLess(s: State, id: nat)
    requires WrappersOk(s.wrappers, s.files, s.uses)
    ensures WrappersOk(s.wrappers - {id}, s.files, s.uses)
  {
    hide WrapperOk;
  }

  lemma FilesLess(s: State, f: nat)
    requires FilesOk(s.files, s.wrappers, s.uses)
    ensures FilesOk(s.files - {f}, s.wrappers, s.uses)
  {
    hide FileOk;
  }

  lemma DropKeepsInv(s: State, id: nat)
    requires Inv(s)
    ensures Inv(DropWrapper(s, id))
  {
    hide Open, Adds, Fits, FilesOk, WrappersOk, PhasesOk;
    var after := DropWrapper(s, id);
    if after != s {
      FilesFrame(s.files, s.wrappers, s.uses, after.wrappers, s.uses);
      WrappersLess(s, id);
    }
  }

  lemma RemoveKeepsInv(s: State, f: nat)
    requires Inv(s)
    ensures Inv(RemoveFile(s, f))
  {
    hide Open, Adds, Fits, FilesOk, WrappersOk, PhasesOk;
    var after := RemoveFile(s, f);
    if after != s {
      FilesLess(s, f);
      WrappersHaveFiles(s);
      WrappersFrame(s.wrappers, s.files, s.uses, after.files, s.uses);
      PhasesFrame(s.phases, s.files, s.uses, after.files, s.uses);
    }
  }

  lemma StepKeepsInv(s: State, step: Step)
    requires Inv(s)
    ensures Inv(Next(s, step))
  {
    hide Inv, BeginEntry, LockCurrent, CheckEntries, NewFile, WriteEntry, WriteClose, DropWrapper, RemoveFile;
    match step
    case Begin(t, entry) => BeginKeepsInv(s, t, entry);
    case Lock(t) => LockKeepsInv(s, t);
    case Check(t) => CheckKeepsInv(s, t);
    case MakeFile(t) => NewFileKeepsInv(s, t);
    case Write(t) => WriteKeepsInv(s, t);
    case CloseEntry(id) => CloseKeepsInv(s, id);
    case Drop(id) => DropKeepsInv(s, id);
    case Remove(f) => RemoveKeepsInv(s, f);
  }

  lemma {:induction false} RunKeepsInv(steps: seq<Step>)
    ensures Inv(Run(steps))
  {
    hide Inv, Next;
    if steps == [] {
      StartInv();
    } else {
      RunKeepsInv(steps[..|steps| - 1]);
      StepKeepsInv(Run(steps[..|steps| - 1]), steps[|steps| - 1]);
    }
  }

  lemma StartInv()
    ensures Inv(START)
  {
  }

  // ---------- what a crash leaves ----------

  /** The entries added and not closed yet. */
  function Unfinished(s: State): map<nat, Record> {
    map id | id in s.wrappers && !s.wrappers[id].closed :: s.wrappers[id].entry
  }

  function UnfinishedIn(s: State, files: set<nat>): map<nat, Record> {
    map id | id in s.wrappers && !s.wrappers[id].closed && s.wrappers[id].file in files :: s.wrappers[id].entry
  }

  /** The directory lists every file once, in any order. */
  ghost predicate Lists(s: State, order: seq<nat>) {
    && (forall f :: f in order <==> f in s.files)
    && (forall i, j :: 0 <= i < j < |order| ==> order[i] != order[j])
  }

  function Names(order: seq<nat>): set<nat> {
    set f | f in order
  }

  function Parts(s: State, order: seq<nat>): (parts: seq<seq<Record>>)
    requires forall f :: f in order ==> f in s.files
    ensures |parts| == |order|
  {
    seq(|order|, i requires 0 <= i < |order| => s.files[order[i]])
  }

  lemma OpenInFile(s: State, f: nat)
    requires Inv(s) && f in s.files
    ensures Open(s.files[f]) == UnfinishedIn(s, {f})
  {
    hide Open, Adds, Range, Fits, PhasesOk, FilesOk, WrappersOk;
    FileOkAt(s.files, s.wrappers, s.uses, f);
    forall id | id in UnfinishedIn(s, {f}) ensures id in Open(s.files[f]) {
      WrapperOkAt(s, id);
    }
  }

  lemma RecordsInFile(s: State, f: nat)
    requires Inv(s) && f in s.files
    ensures forall id :: id in Ids(s.files[f]) ==> id in s.uses && s.uses[id] == EntryIn(f)
    ensures forall r :: r in s.files[f] ==> Fits(r)
  {
    hide Open, Adds, Fits, PhasesOk, FilesOk, WrappersOk;
    FileOkAt(s.files, s.wrappers, s.uses, f);
  }

  lemma {:induction false} OpenInFiles(s: State, order: seq<nat>)
    requires Inv(s) && forall f :: f in order ==> f in s.files
    requires forall i, j :: 0 <= i < j < |order| ==> order[i] != order[j]
    ensures var records := Flat(Parts(s, order));
            && Open(records) == UnfinishedIn(s, Names(order))
            && (forall id :: id in Ids(records) ==> id in s.uses && s.uses[id].EntryIn? && s.uses[id].file in order)
            && (forall r :: r in records ==> Fits(r))
  {
    hide Inv, Open, Fits, Ids, UnfinishedIn;
    if order == [] {
      NothingOpen(s, order);
    } else {
      var front, f := order[..|order| - 1], order[|order| - 1];
      OpenInFiles(s, front);
      OpenInFile(s, f);
      RecordsInFile(s, f);
      assert Parts(s, order)[..|order| - 1] == Parts(s, front);
      OpenConcat(Flat(Parts(s, front)), s.files[f]);
      assert Names(order) == Names(front) + {f};
      UnfinishedUnion(s, Names(front), f);
    }
  }

  lemma NothingOpen(s: State, order: seq<nat>)
    requires order == []
    ensures Flat(Parts(s, order)) == []
    ensures Open([]) == UnfinishedIn(s, Names(order)) && Ids([]) == {}
  {
  }

  lemma UnfinishedUnion(s: State, files: set<nat>, f: nat)
    ensures UnfinishedIn(s, files + {f}) == UnfinishedIn(s, files) + UnfinishedIn(s, {f})
  {
  }

  /** Stopped after any run, the files hold open exactly the entries that are not closed, in
      whatever order they are read. */
  lemma CrashLeavesUnfinished(steps: seq<Step>, order: seq<nat>)
    requires Lists(Run(steps), order)
    ensures Open(Flat(Parts(Run(steps), order))) == Unfinished(Run(steps))
    ensures forall r :: r in Flat(Parts(Run(steps), order)) ==> Fits(r)
    ensures forall id :: id in Unfinished(Run(steps)) ==> Unfinished(Run(steps))[id].id == id
  {
    hide Inv, Open, Fits, Run;
    var s := Run(steps);
    RunKeepsInv(steps);
    OpenInFiles(s, order);
    EntriesOk(s);
    assert Unfinished(s) == UnfinishedIn(s, Names(order));
  }

  lemma EntriesOk(s: State)
    requires Inv(s)
    ensures forall id :: id in s.wrappers ==> s.wrappers[id].entry.id == id && s.wrappers[id].file in s.files
  {
    hide Open, Range, FilesOk, PhasesOk;
    forall id | id in s.wrappers ensures s.wrappers[id].entry.id == id && s.wrappers[id].file in s.files {
      WrapperOkAt(s, id);
    }
  }

  ghost predicate NamedById(open: map<nat, Record>) {
    forall id :: id in open ==> open[id].id == id
  }

  /** There is only one such replay: it does not depend on the order of the files. */
  lemma {:induction false} ReplayUnique(open: map<nat, Record>, a: seq<Record>, b: seq<Record>)
    requires NamedById(open) && Replays(open, a) && Replays(open, b)
    ensures a == b
    decreases |a|
  {
    hide Replays, NamedById;
    ReplayEmpty(open, a);
    ReplayEmpty(open, b);
    if a != [] {
      var x, y := a[|a| - 1], b[|b| - 1];
      ReplayLast(open, a);
      ReplayLast(open, b);
      assert x.id == y.id;
      NamedLess(open, x.id);
      ReplayUnique(open - {x.id}, a[..|a| - 1], b[..|b| - 1]);
      assert a == a[..|a| - 1] + [x] && b == b[..|b| - 1] + [y];
    }
  }

  lemma ReplayEmpty(open: map<nat, Record>, a: seq<Record>)
    requires Replays(open, a)
    ensures a == [] <==> open == map[]
  {
    if a != [] { assert a[0] in a; }
  }

  lemma NamedLess(open: map<nat, Record>, id: nat)
    requires NamedById(open)
    ensures NamedById(open - {id})
  {
  }

  lemma InFront(a: seq<Record>, r: Record)
    requires a != [] && r in a
    ensures r == a[|a| - 1] || r in a[..|a| - 1]
  {
    var i :| 0 <= i < |a| && a[i] == r;
    assert i < |a| - 1 ==> a[..|a| - 1][i] == r;
  }

  lemma AscendingLast(a: seq<Record>)
    requires a != [] && Ascending(a)
    ensures Ascending(a[..|a| - 1])
    ensures forall r :: r in a[..|a| - 1] ==> r in a && r.id < a[|a| - 1].id
  {
  }

  /** The last entry replayed has the greatest id; the others are a replay without it. */
  lemma ReplayLast(open: map<nat, Record>, a: seq<Record>)
    requires NamedById(open) && Replays(open, a) && a != []
    ensures var last := a[|a| - 1];
            && last.id in open && open[last.id] == last
            && (forall id :: id in open ==> id <= last.id)
            && Replays(open - {last.id}, a[..|a| - 1])
  {
    hide Ascending;
    assert a[|a| - 1] in a;
    AscendingLast(a);
    forall id | id in open ensures open[id] == a[|a| - 1] || open[id] in a[..|a| - 1] {
      InFront(a, open[id]);
    }
  }

  // ---------- which files there are ----------

  /** A file is there as long as a thread or a wrapper holds it; so a close always finds the file
      of its entry. A file no entry is live in has nothing open, and each stays within 2050 records. */
  lemma FilesWhileHeld(steps: seq<Step>, f: nat)
    ensures var s := Run(steps);
            && (Held(s, f) ==> f in s.files)
            && (f in s.files ==> (Open(s.files[f]) != map[] <==> UnfinishedIn(s, {f}) != map[]))
            && (f in s.files ==> |s.files[f]| <= 2050)
  {
    hide Run, Open, Adds, Fits;
    var s := Run(steps);
    RunKeepsInv(steps);
    if Held(s, f) { HeldExists(s, f); }
    if f in s.files {
      OpenInFile(s, f);
      RecordsInFile(s, f);
      FileOkAt(s.files, s.wrappers, s.uses, f);
    }
  }

  /** Nobody is adding, closing or removing. */
  ghost predicate Quiet(s: State) {
    && s.phases == map[]
    && (forall id :: id in s.wrappers ==> !s.wrappers[id].closed)
    && (forall f :: f in s.files ==> Held(s, f))
  }

  /** Then the files are exactly those of the live entries. */
  lemma FilesOfLiveEntries(steps: seq<Step>, f: nat)
    requires Quiet(Run(steps))
    ensures f in Run(steps).files <==> exists id :: id in Unfinished(Run(steps)) && Run(steps).wrappers[id].file == f
  {
    hide Run, Inv;
    RunKeepsInv(steps);
    EntriesOk(Run(steps));
    var s := Run(steps);
    if f in s.files {
      assert Held(s, f);
      var id :| id in s.wrappers && s.wrappers[id].file == f;
      assert id in Unfinished(s);
    }
  }
}
