/** The save protocol under concurrency and crashes (harness/state.py): any number of
    savers, loaders and resets of one artifact, interleaved step by step. Files are
    inodes behind two names; a reader or writer keeps the inode it opened. */
module StoreProtocol {
  import opened Wrappers
  import opened History
  import opened FrontMatter

  type Pid = nat
  type Inode = nat

  datatype Proc =
    | Waiting(content: string)                          // save: asking for the lock
    | Locked(content: string)                           // lock held, nothing opened
    | Writing(content: string, file: Inode, done: nat)  // tmp open, `done` characters out
    | Written(content: string, file: Inode)             // tmp closed
    | CleaningUp                                        // OSError: about to unlink tmp
    | Releasing
    | Opening                                           // load: the file existed
    | Reading(file: Inode, got: string)
    | Loaded(text: string)
    | LoadedNothing
    | Resetting                                         // reset: the file existed
    | NotFound                                          // it was gone on second look

  datatype Action =
    | StartSave(p: Pid, content: string)
    | Acquire(p: Pid)
    | OpenTmp(p: Pid)
    | WriteSome(p: Pid, upTo: nat)
    | CloseTmp(p: Pid)
    | Replace(p: Pid)
    | FailWithOSError(p: Pid)
    | UnlinkTmp(p: Pid)
    | Release(p: Pid)
    | StartLoad(p: Pid)
    | OpenFile(p: Pid)
    | ReadSome(p: Pid, upTo: nat)
    | FinishRead(p: Pid)
    | StartReset(p: Pid)
    | Unlink(p: Pid)
    | Crash(p: Pid)

  /** `latest` is the content handed to the last save whose rename happened, `None` after
      a reset; `renamed` remembers, per inode, the content of the save that renamed it.
      Neither is read by any step. */
  datatype State = State(
    inodes: seq<string>,
    fileName: Option<Inode>,
    tmpName: Option<Inode>,
    lock: Option<Pid>,
    procs: map<Pid, Proc>,
    latest: Option<string>,
    renamed: map<Inode, string>)

  const INIT: State := State([], None, None, None, map[], None, map[])

  /** Writing at an offset, as a file descriptor does. */
  function WriteAt(text: string, offset: nat, chunk: string): string {
    if offset > |text| then text + seq(offset - |text|, _ => '\0') + chunk
    else text[..offset] + chunk
         + (if offset + |chunk| < |text| then text[offset + |chunk|..] else [])
  }

  function With(s: State, p: Pid, proc: Proc): State {
    s.(procs := s.procs[p := proc])
  }

  /** One step; an action that is not enabled changes nothing. */
  function Apply(s: State, a: Action): State {
    match a
    case StartSave(p, content) => if p !in s.procs then With(s, p, Waiting(content)) else s
    case StartLoad(p) =>
      if p in s.procs then s
      else if s.fileName.None? then With(s, p, LoadedNothing) else With(s, p, Opening)
    case StartReset(p) =>
      if p !in s.procs && s.fileName.Some? then With(s, p, Resetting) else s
    case Crash(p) =>
      if p !in s.procs then s
      else s.(procs := s.procs - {p}, lock := if s.lock == Some(p) then None else s.lock)
    case _ => if a.p in s.procs then Advance(s, a, s.procs[a.p]) else s
  }

  function Advance(s: State, a: Action, proc: Proc): State {
    match (a, proc)
    case (Acquire(p), Waiting(content)) =>
      if s.lock.None? then With(s.(lock := Some(p)), p, Locked(content)) else s
    case (OpenTmp(p), Locked(content)) =>
      if s.tmpName.Some? && s.tmpName.value < |s.inodes| then
        With(s.(inodes := s.inodes[s.tmpName.value := ""]), p, Writing(content, s.tmpName.value, 0))
      else
        With(s.(inodes := s.inodes + [""], tmpName := Some(|s.inodes|)), p,
             Writing(content, |s.inodes|, 0))
    case (WriteSome(p, upTo), Writing(content, file, done)) =>
      if done <= upTo <= |content| && file < |s.inodes| then
        With(s.(inodes := s.inodes[file := WriteAt(s.inodes[file], done, content[done..upTo])]), p,
             Writing(content, file, upTo))
      else s
    case (CloseTmp(p), Writing(content, file, done)) =>
      if done == |content| then With(s, p, Written(content, file)) else s
    case (Replace(p), Written(content, file)) =>
      if s.tmpName.Some? then
        With(s.(fileName := s.tmpName, tmpName := None, latest := Some(content),
                renamed := s.renamed[s.tmpName.value := content]), p, Releasing)
      else s
    case (FailWithOSError(p), Locked(_)) => With(s, p, CleaningUp)
    case (FailWithOSError(p), Writing(_, _, _)) => With(s, p, CleaningUp)
    case (FailWithOSError(p), Written(_, _)) => With(s, p, CleaningUp)
    case (UnlinkTmp(p), CleaningUp) => With(s.(tmpName := None), p, Releasing)
    case (Release(p), Releasing) => s.(procs := s.procs - {p}, lock := None)
    case (OpenFile(p), Opening) =>
      if s.fileName.Some? then With(s, p, Reading(s.fileName.value, "")) else With(s, p, NotFound)
    case (ReadSome(p, upTo), Reading(file, got)) =>
      if file < |s.inodes| && |got| <= upTo <= |s.inodes[file]| then
        With(s, p, Reading(file, got + s.inodes[file][|got|..upTo]))
      else s
    case (FinishRead(p), Reading(file, got)) =>
      if file < |s.inodes| && |got| == |s.inodes[file]| then With(s, p, Loaded(got)) else s
    case (Unlink(p), Resetting) =>
      if s.fileName.Some? then
        s.(fileName := None, latest := None, procs := s.procs - {p})
      else With(s, p, NotFound)
    case _ => s
  }

  function Run(actions: seq<Action>): State {
    if actions == [] then INIT
    else Apply(Run(actions[..|actions| - 1]), actions[|actions| - 1])
  }

  // ---- The invariant -----------------------------------------------------

  predicate HoldsLock(proc: Proc) {
    || proc.Locked? || proc.Writing? || proc.Written? || proc.CleaningUp? || proc.Releasing?
  }

  ghost predicate ProcInv(s: State, p: Pid, proc: Proc) {
    && (HoldsLock(proc) ==> s.lock == Some(p))
    && match proc
       case Writing(content, file, done) =>
         && s.tmpName == Some(file) && file < |s.inodes|
         && done <= |content| && s.inodes[file] == content[..done]
       case Written(content, file) =>
         s.tmpName == Some(file) && file < |s.inodes| && s.inodes[file] == content
       case Reading(file, got) =>
         && file in s.renamed && |got| <= |s.renamed[file]| && got == s.renamed[file][..|got|]
       case Loaded(text) => exists i :: i in s.renamed && s.renamed[i] == text
       case _ => true
  }

  ghost predicate FilesInv(s: State) {
    && (forall i | i in s.renamed :: i < |s.inodes| && s.inodes[i] == s.renamed[i])
    && (s.tmpName.Some? ==> s.tmpName.value < |s.inodes| && s.tmpName.value !in s.renamed)
    && match s.fileName
       case None => s.latest == None
       case Some(i) => i in s.renamed && s.latest == Some(s.renamed[i])
  }

  ghost predicate Inv(s: State) {
    FilesInv(s) && forall p | p in s.procs :: ProcInv(s, p, s.procs[p])
  }

  /** A step of `p` that keeps the renamed inodes and, unless `p` holds the lock, the
      temporary file and the lock, keeps what is known of everybody else. */
  lemma OthersKeep(s: State, t: State, p: Pid, q: Pid)
    requires Inv(s) && q in s.procs && q != p
    requires t.lock == s.lock || s.lock == None || s.lock == Some(p)
    requires forall i | i in s.renamed :: i in t.renamed && t.renamed[i] == s.renamed[i]
    requires s.lock != Some(p) ==> t.tmpName == s.tmpName && t.inodes == s.inodes
    ensures ProcInv(t, q, s.procs[q])
  {
    assert ProcInv(s, q, s.procs[q]);
    match s.procs[q] {
      case Loaded(text) =>
        var i :| i in s.renamed && s.renamed[i] == text;
        assert i in t.renamed && t.renamed[i] == text;
      case _ =>
    }
  }

  lemma SaverStep(s: State, a: Action)
    requires Inv(s) && a.p in s.procs && HoldsLock(s.procs[a.p])
    ensures Inv(Advance(s, a, s.procs[a.p]))
  {
    var t := Advance(s, a, s.procs[a.p]);
    assert ProcInv(s, a.p, s.procs[a.p]);
    assert FilesInv(t) by { SaverFiles(s, a); }
    SaverOwn(s, a);
    forall q | q in t.procs ensures ProcInv(t, q, t.procs[q]) {
      if q != a.p {
        SaverFrame(s, a);
        OthersKeep(s, t, a.p, q);
      }
    }
  }

  lemma SaverFrame(s: State, a: Action)
    requires Inv(s) && a.p in s.procs && HoldsLock(s.procs[a.p])
    ensures var t := Advance(s, a, s.procs[a.p]);
      && (forall q | q in t.procs && q != a.p :: q in s.procs && t.procs[q] == s.procs[q])
      && (forall i | i in s.renamed :: i in t.renamed && t.renamed[i] == s.renamed[i])
  {
    assert ProcInv(s, a.p, s.procs[a.p]);
    hide WriteAt, ProcInv;
  }

  /** Under the lock, writing at the descriptor's offset is appending. */
  lemma SaverFiles(s: State, a: Action)
    requires Inv(s) && a.p in s.procs && HoldsLock(s.procs[a.p])
    ensures FilesInv(Advance(s, a, s.procs[a.p]))
  {
    assert ProcInv(s, a.p, s.procs[a.p]);
    hide WriteAt;
  }

  lemma SaverOwn(s: State, a: Action)
    requires Inv(s) && a.p in s.procs && HoldsLock(s.procs[a.p])
    ensures var t := Advance(s, a, s.procs[a.p]);
            a.p in t.procs ==> ProcInv(t, a.p, t.procs[a.p])
  {
    assert ProcInv(s, a.p, s.procs[a.p]);
    match (a, s.procs[a.p]) {
      case (WriteSome(p, upTo), Writing(content, file, done)) =>
        if done <= upTo <= |content| {
          assert WriteAt(content[..done], done, content[done..upTo]) == content[..upTo];
        }
      case (CloseTmp(p), Writing(content, file, done)) =>
        assert content[..|content|] == content;
      case _ =>
    }
  }

  /** Steps of loaders and resets, and a saver's wait for the lock, touch no inode. */
  lemma OtherStep(s: State, a: Action)
    requires Inv(s) && a.p in s.procs && !HoldsLock(s.procs[a.p])
    ensures Inv(Advance(s, a, s.procs[a.p]))
  {
    var t := Advance(s, a, s.procs[a.p]);
    assert ProcInv(s, a.p, s.procs[a.p]);
    assert t.inodes == s.inodes && t.renamed == s.renamed && t.tmpName == s.tmpName;
    assert FilesInv(t);
    OtherOwn(s, a);
    forall q | q in t.procs ensures ProcInv(t, q, t.procs[q]) {
      if q != a.p {
        OthersKeep(s, t, a.p, q);
      }
    }
  }

  lemma OtherOwn(s: State, a: Action)
    requires Inv(s) && a.p in s.procs && !HoldsLock(s.procs[a.p])
    ensures var t := Advance(s, a, s.procs[a.p]);
            a.p in t.procs ==> ProcInv(t, a.p, t.procs[a.p])
  {
    assert ProcInv(s, a.p, s.procs[a.p]);
    match (a, s.procs[a.p]) {
      case (ReadSome(p, upTo), Reading(file, got)) =>
        if |got| <= upTo <= |s.inodes[file]| {
          assert got + s.inodes[file][|got|..upTo] == s.inodes[file][..upTo];
        }
      case (FinishRead(p), Reading(file, got)) =>
        assert s.renamed[file][..|s.renamed[file]|] == s.renamed[file];
      case _ =>
    }
  }

  /** A process that comes or crashes touches no file. */
  lemma EntryStep(s: State, a: Action)
    requires Inv(s) && (a.StartSave? || a.StartLoad? || a.StartReset? || a.Crash?)
    ensures Inv(Apply(s, a))
  {
    var t := Apply(s, a);
    assert t.inodes == s.inodes && t.renamed == s.renamed && t.tmpName == s.tmpName && t.fileName == s.fileName;
    assert FilesInv(t);
    forall q | q in t.procs ensures ProcInv(t, q, t.procs[q]) {
      if q in s.procs {
        assert ProcInv(s, q, s.procs[q]);
        if q != a.p { OthersKeep(s, t, a.p, q); }
      }
    }
  }

  lemma StepKeepsInv(s: State, a: Action)
    requires Inv(s)
    ensures Inv(Apply(s, a))
  {
    hide Inv, Advance;
    if a.StartSave? || a.StartLoad? || a.StartReset? || a.Crash? {
      EntryStep(s, a);
    } else if a.p in s.procs {
      if HoldsLock(s.procs[a.p]) {
        SaverStep(s, a);
      } else {
        OtherStep(s, a);
      }
    }
  }

  lemma {:induction false} RunKeepsInv(actions: seq<Action>)
    ensures Inv(Run(actions))
  {
    if actions != [] {
      RunKeepsInv(actions[..|actions| - 1]);
      StepKeepsInv(Run(actions[..|actions| - 1]), actions[|actions| - 1]);
    }
  }

  // ---- What every run guarantees -----------------------------------------

  /** What a process that looks right now finds under the state file's name. */
  function FileText(s: State): Option<string> {
    match s.fileName
    case None => None
    case Some(i) => if i < |s.inodes| then Some(s.inodes[i]) else None
  }

  function TmpText(s: State): Option<string> {
    match s.tmpName
    case None => None
    case Some(i) => if i < |s.inodes| then Some(s.inodes[i]) else None
  }

  /** After any interleaving, with any errors and crashes, the state file is absent or is
      exactly the full content of the latest completed rename. */
  lemma FileIsLatest(actions: seq<Action>)
    ensures FileText(Run(actions)) == Run(actions).latest
  {
    RunKeepsInv(actions);
  }

  /** No load ever sees partial content: what it returns was renamed into place whole. */
  lemma LoadsAreWhole(actions: seq<Action>, p: Pid)
    requires p in Run(actions).procs && Run(actions).procs[p].Loaded?
    ensures exists i :: i in Run(actions).renamed && Run(actions).renamed[i] == Run(actions).procs[p].text
  {
    RunKeepsInv(actions);
    assert ProcInv(Run(actions), p, Run(actions).procs[p]);
  }

  lemma StepTouchesTmp(s: State, a: Action)
    requires Inv(s)
    ensures TmpText(Apply(s, a)) != TmpText(s) ==> s.lock == Some(a.p)
  {
    if a.p in s.procs { assert ProcInv(s, a.p, s.procs[a.p]); }
    hide WriteAt, ProcInv;
  }

  /** Only the lock holder changes the temporary file. */
  lemma OnlyHolderTouchesTmp(actions: seq<Action>, a: Action)
    ensures TmpText(Apply(Run(actions), a)) != TmpText(Run(actions)) ==> Run(actions).lock == Some(a.p)
  {
    RunKeepsInv(actions);
    hide *;
    StepTouchesTmp(Run(actions), a);
  }

  // ---- Recovery ----------------------------------------------------------

  lemma OneMoreStep(actions: seq<Action>, a: Action)
    ensures Run(actions + [a]) == Apply(Run(actions), a)
  {
    hide Apply;
    assert (actions + [a])[..|actions|] == actions;
  }

  function SaveUpToRename(p: Pid, content: string): seq<Action> {
    [StartSave(p, content), Acquire(p), OpenTmp(p), WriteSome(p, |content|), CloseTmp(p)]
  }

  /** A save from start to finish, with nothing in between. */
  function WholeSave(p: Pid, content: string): seq<Action> {
    SaveUpToRename(p, content) + [Replace(p)] + [Release(p)]
  }

  /** Opening truncates a temporary file that a crashed save left behind. */
  lemma SaveOpens(s: State, p: Pid, content: string) returns (file: Inode)
    requires s.lock.None? && p !in s.procs && (s.tmpName.Some? ==> s.tmpName.value < |s.inodes|)
    ensures var t := Apply(Apply(Apply(s, StartSave(p, content)), Acquire(p)), OpenTmp(p));
      && t.procs == s.procs[p := Writing(content, file, 0)] && t.tmpName == Some(file)
      && file < |t.inodes| && t.inodes[file] == ""
  {
    var s1 := Apply(s, StartSave(p, content));
    assert s1 == With(s, p, Waiting(content));
    var s2 := Apply(s1, Acquire(p));
    assert s2.procs == s.procs[p := Locked(content)] && s2.tmpName == s.tmpName;
    file := if s.tmpName.Some? then s.tmpName.value else |s.inodes|;
  }

  lemma SaveWrites(s: State, p: Pid, content: string, file: Inode)
    requires p in s.procs && s.procs[p] == Writing(content, file, 0)
    requires file < |s.inodes|
    ensures var t := Apply(Apply(s, WriteSome(p, |content|)), CloseTmp(p));
      t.procs == s.procs[p := Written(content, file)] && t.tmpName == s.tmpName
  {
    hide WriteAt;
    var s1 := Apply(s, WriteSome(p, |content|));
    assert s1.procs == s.procs[p := Writing(content, file, |content|)];
  }

  /** Up to the rename a save is not held up by anything that is there before it. */
  lemma {:induction false} SaveIsWritten(actions: seq<Action>, p: Pid, content: string) returns (file: Inode)
    requires Run(actions).lock.None? && p !in Run(actions).procs
    ensures var s, t := Run(actions), Run(actions + SaveUpToRename(p, content));
      t.procs == s.procs[p := Written(content, file)] && t.tmpName == Some(file)
  {
    var s := Run(actions);
    RunKeepsInv(actions);
    hide Run, Apply;
    file := SaveOpens(s, p, content);
    var a1 := actions + [StartSave(p, content)];
    var a2 := a1 + [Acquire(p)];
    var a3 := a2 + [OpenTmp(p)];
    var a4 := a3 + [WriteSome(p, |content|)];
    OneMoreStep(actions, StartSave(p, content));
    OneMoreStep(a1, Acquire(p));
    OneMoreStep(a2, OpenTmp(p));
    OneMoreStep(a3, WriteSome(p, |content|));
    OneMoreStep(a4, CloseTmp(p));
    SaveWrites(Run(a3), p, content, file);
    assert actions + SaveUpToRename(p, content) == a4 + [CloseTmp(p)];
  }

  lemma SaveReplaces(s: State, p: Pid, content: string, file: Inode)
    requires p in s.procs && s.procs[p] == Written(content, file) && s.tmpName.Some?
    ensures var t := Apply(Apply(s, Replace(p)), Release(p));
      t.procs == s.procs - {p} && t.lock.None? && t.tmpName.None? && t.latest == Some(content)
  {
  }

  /** From every reachable state whose lock is free, whatever errors, crashes and leftovers
      there were, one undisturbed save ends with its content in the state file, no temporary
      file, the lock free, and everybody else where they were. */
  lemma {:induction false} SaveRecovers(actions: seq<Action>, p: Pid, content: string)
    requires Run(actions).lock.None? && p !in Run(actions).procs
    ensures var s, t := Run(actions), Run(actions + WholeSave(p, content));
      && FileText(t) == Some(content)
      && t.lock.None? && t.tmpName.None? && t.procs == s.procs
  {
    hide Run, Apply, SaveUpToRename, FileText;
    var written := actions + SaveUpToRename(p, content);
    var all := actions + WholeSave(p, content);
    var file := SaveIsWritten(actions, p, content);
    OneMoreStep(written, Replace(p));
    OneMoreStep(written + [Replace(p)], Release(p));
    SaveReplaces(Run(written), p, content, file);
    assert all == written + [Replace(p)] + [Release(p)];
    FileIsLatest(all);
  }

  /** Whoever has the lock is a saver that is still there. */
  predicate LockInv(s: State) {
    s.lock.Some? ==> s.lock.value in s.procs && HoldsLock(s.procs[s.lock.value])
  }

  lemma StepKeepsLock(s: State, a: Action)
    requires Inv(s) && LockInv(s)
    ensures LockInv(Apply(s, a))
  {
    assert a.p in s.procs && HoldsLock(s.procs[a.p]) ==> s.lock == Some(a.p) by {
      if a.p in s.procs { assert ProcInv(s, a.p, s.procs[a.p]); }
    }
    hide WriteAt, Inv;
  }

  lemma {:induction false} RunKeepsLock(actions: seq<Action>)
    ensures LockInv(Run(actions))
  {
    if actions != [] {
      var init, a := actions[..|actions| - 1], actions[|actions| - 1];
      RunKeepsInv(init);
      RunKeepsLock(init);
      hide Inv, Apply, LockInv;
      StepKeepsLock(Run(init), a);
    }
  }

  /** When the process that has the lock dies, the lock is free and the state file is as it
      was; so a new save can recover from every reachable state. */
  lemma CrashFreesLock(actions: seq<Action>, p: Pid)
    requires Run(actions).lock == Some(p)
    ensures var s, t := Run(actions), Run(actions + [Crash(p)]);
      t.lock.None? && t.procs == s.procs - {p} && p in s.procs && FileText(t) == FileText(s)
  {
    RunKeepsLock(actions);
    OneMoreStep(actions, Crash(p));
    hide Run;
  }

  lemma ErrorCleans(s: State, p: Pid)
    requires p in s.procs && (s.procs[p].Locked? || s.procs[p].Writing? || s.procs[p].Written?)
    ensures var t := Apply(Apply(Apply(s, FailWithOSError(p)), UnlinkTmp(p)), Release(p));
      && t.procs == s.procs - {p} && t.lock.None? && t.tmpName.None?
      && t.fileName == s.fileName && t.inodes == s.inodes
  {
    var s1 := Apply(s, FailWithOSError(p));
    assert s1.procs == s.procs[p := CleaningUp];
    var s2 := Apply(s1, UnlinkTmp(p));
    assert s2.procs == s.procs[p := Releasing];
  }

  /** A save that meets an error before its rename, wherever it is and however far it has
      written, leaves the state file as it was, no temporary file, and the lock free. */
  lemma FailedSaveLeavesNothing(actions: seq<Action>, p: Pid)
    requires p in Run(actions).procs
    requires var proc := Run(actions).procs[p]; proc.Locked? || proc.Writing? || proc.Written?
    ensures var s, t := Run(actions), Run(actions + [FailWithOSError(p)] + [UnlinkTmp(p)] + [Release(p)]);
      FileText(t) == FileText(s) && t.tmpName.None? && t.lock.None? && t.procs == s.procs - {p}
  {
    hide Run, Apply;
    var a1 := actions + [FailWithOSError(p)];
    OneMoreStep(actions, FailWithOSError(p));
    OneMoreStep(a1, UnlinkTmp(p));
    OneMoreStep(a1 + [UnlinkTmp(p)], Release(p));
    ErrorCleans(Run(actions), p);
  }

  lemma LoadOpens(s: State, p: Pid)
    requires p !in s.procs && s.fileName.Some?
    ensures Apply(Apply(s, StartLoad(p)), OpenFile(p)) == s.(procs := s.procs[p := Reading(s.fileName.value, "")])
  {
    assert Apply(s, StartLoad(p)) == With(s, p, Opening);
  }

  lemma LoadReads(s: State, p: Pid, file: Inode)
    requires p in s.procs && s.procs[p] == Reading(file, "") && file < |s.inodes|
    ensures Apply(Apply(s, ReadSome(p, |s.inodes[file]|)), FinishRead(p))
         == s.(procs := s.procs[p := Loaded(s.inodes[file])])
  {
    var text := s.inodes[file];
    assert "" + text[0..|text|] == text;
    assert Apply(s, ReadSome(p, |text|)) == With(s, p, Reading(file, text));
  }

  /** An undisturbed load reads the text of the state file, and nothing if there is none. */
  lemma LoadReadsTheFile(actions: seq<Action>, p: Pid, n: nat)
    requires p !in Run(actions).procs
    ensures var s := Run(actions);
      FileText(s).None? ==>
        var t := Run(actions + [StartLoad(p)]); p in t.procs && t.procs[p] == LoadedNothing
    ensures var s := Run(actions);
      FileText(s).Some? && n == |FileText(s).value| ==>
        var t := Run(actions + [StartLoad(p)] + [OpenFile(p)] + [ReadSome(p, n)] + [FinishRead(p)]);
        t == s.(procs := s.procs[p := Loaded(FileText(s).value)])
  {
    var s := Run(actions);
    RunKeepsInv(actions);
    assert s.fileName.Some? ==> s.fileName.value < |s.inodes|;
    hide Run;
    var a1 := actions + [StartLoad(p)];
    var a2 := a1 + [OpenFile(p)];
    var a3 := a2 + [ReadSome(p, n)];
    OneMoreStep(actions, StartLoad(p));
    OneMoreStep(a1, OpenFile(p));
    OneMoreStep(a2, ReadSome(p, n));
    OneMoreStep(a3, FinishRead(p));
    if s.fileName.Some? {
      hide Apply;
      LoadOpens(s, p);
      LoadReads(Run(a2), p, s.fileName.value);
    }
  }

  /** An undisturbed reset removes the state file and touches nothing else. */
  lemma ResetRemovesTheFile(actions: seq<Action>, p: Pid)
    requires p !in Run(actions).procs && Run(actions).fileName.Some?
    ensures var s, t := Run(actions), Run(actions + [StartReset(p)] + [Unlink(p)]);
      t == s.(fileName := None, latest := None)
  {
    var s := Run(actions);
    OneMoreStep(actions, StartReset(p));
    OneMoreStep(actions + [StartReset(p)], Unlink(p));
    hide Run;
    assert Apply(s, StartReset(p)) == With(s, p, Resetting);
    assert s.procs[p := Resetting] - {p} == s.procs;
  }

  // ---- Saves of states ---------------------------------------------------

  /** Some saver was started with this content. */
  ghost predicate Submitted(actions: seq<Action>, content: string) {
    exists i | 0 <= i < |actions| :: actions[i].StartSave? && actions[i].content == content
  }

  predicate Carries(proc: Proc) {
    proc.Waiting? || proc.Locked? || proc.Writing? || proc.Written?
  }

  ghost predicate OnlySubmitted(actions: seq<Action>, s: State) {
    && (forall p | p in s.procs && Carries(s.procs[p]) :: Submitted(actions, s.procs[p].content))
    && (forall i | i in s.renamed :: Submitted(actions, s.renamed[i]))
  }

  lemma StepKeepsSubmitted(actions: seq<Action>, s: State, a: Action)
    requires OnlySubmitted(actions, s)
    requires a.StartSave? ==> Submitted(actions, a.content)
    ensures OnlySubmitted(actions, Apply(s, a))
  {
    hide Submitted, WriteAt;
  }

  lemma {:induction false} RunKeepsSubmitted(actions: seq<Action>)
    ensures OnlySubmitted(actions, Run(actions))
  {
    if actions != [] {
      var n := |actions| - 1;
      var before := Run(actions[..n]);
      RunKeepsSubmitted(actions[..n]);
      assert forall c | Submitted(actions[..n], c) :: Submitted(actions, c) by {
        forall c | Submitted(actions[..n], c) ensures Submitted(actions, c) {
          var i :| 0 <= i < n && actions[..n][i].StartSave? && actions[..n][i].content == c;
          assert actions[i].content == c;
        }
      }
      hide Submitted;
      assert OnlySubmitted(actions, before);
      StepKeepsSubmittedLast(actions, before);
    }
  }

  lemma StepKeepsSubmittedLast(actions: seq<Action>, s: State)
    requires actions != [] && OnlySubmitted(actions, s)
    ensures OnlySubmitted(actions, Apply(s, actions[|actions| - 1]))
  {
    var a := actions[|actions| - 1];
    assert a.StartSave? ==> Submitted(actions, a.content);
    hide Submitted, Apply;
    StepKeepsSubmitted(actions, s, a);
  }

  /** What a load returns was submitted to some save, as one whole text. */
  lemma LoadsWereSubmitted(actions: seq<Action>, p: Pid)
    requires p in Run(actions).procs && Run(actions).procs[p].Loaded?
    ensures Submitted(actions, Run(actions).procs[p].text)
  {
    hide Run, Submitted, Inv;
    LoadsAreWhole(actions, p);
    RunKeepsSubmitted(actions);
  }

  /** The content stores this state, with some summary. */
  ghost predicate Stores(codec: Codec, content: string, state: ReviewState) {
    Faithful(codec, state) && exists summary :: content == Encode(codec, state, summary)
  }

  /** When every saver saves a state, every load that returns a text decodes to a state
      some saver was given: concurrency and crashes never make the state file corrupt. */
  lemma LoadsDecodeToSavedStates(codec: Codec, actions: seq<Action>, p: Pid) returns (i: nat, state: ReviewState)
    requires forall i | 0 <= i < |actions| && actions[i].StartSave? ::
      exists state :: Stores(codec, actions[i].content, state)
    requires p in Run(actions).procs && Run(actions).procs[p].Loaded?
    ensures i < |actions| && actions[i].StartSave? && Stores(codec, actions[i].content, state)
    ensures Decode(codec, Run(actions).procs[p].text) == Ok(state)
  {
    hide Run, Faithful, Decode, Encode;
    LoadsWereSubmitted(actions, p);
    var text := Run(actions).procs[p].text;
    var k :| 0 <= k < |actions| && actions[k].StartSave? && actions[k].content == text;
    i := k;
    state :| Stores(codec, actions[i].content, state);
    var summary :| text == Encode(codec, state, summary);
    DecodeEncode(codec, state, summary);
  }
}
