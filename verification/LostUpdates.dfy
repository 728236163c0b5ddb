/** What reviews of one artifact that run at the same time do to each other's records. Each
    loads the state file, appends a record, and saves; the lock is held for the save alone
    (harness/state.py). A ledger is kept beside a run of the protocol. */
module LostUpdates {
  import opened Wrappers
  import opened History
  import opened FrontMatter
  import opened StoreProtocol

  /** A completed save: what it stored, and how many saves had completed when the review it
      belongs to opened the file. */
  datatype Rename = Rename(content: string, base: nat)

  /** The completed saves; for every loader, how many had completed when it opened the file;
      and for every saver, that number for the loader of the same review. */
  datatype Ledger = Ledger(renames: seq<Rename>, seen: map<Pid, nat>, base: map<Pid, nat>)

  function Note(l: Ledger, s: State, a: Action, loaderOf: Pid -> Pid): Ledger {
    match a
    case StartLoad(p) =>
      if p !in s.procs && s.fileName.None? then l.(seen := l.seen[p := |l.renames|]) else l
    case OpenFile(p) =>
      if p in s.procs && s.procs[p].Opening? && s.fileName.Some? then l.(seen := l.seen[p := |l.renames|]) else l
    case StartSave(p, _) =>
      if p !in s.procs && loaderOf(p) in l.seen then l.(base := l.base[p := l.seen[loaderOf(p)]]) else l
    case Replace(p) =>
      if p in s.procs && s.procs[p].Written? && s.tmpName.Some? && p in l.base then
        l.(renames := l.renames + [Rename(s.procs[p].content, l.base[p])])
      else l
    case _ => l
  }

  function LedgerOf(actions: seq<Action>, loaderOf: Pid -> Pid): Ledger {
    if actions == [] then Ledger([], map[], map[])
    else
      var n := |actions| - 1;
      Note(LedgerOf(actions[..n], loaderOf), Run(actions[..n]), actions[n], loaderOf)
  }

  // ---- Reviews -----------------------------------------------------------

  /** The history a file holds; none without a file. */
  function HistoryIn(codec: Codec, text: Option<string>): seq<CycleRecord> {
    if text.None? then []
    else
      var state := Decode(codec, text.value);
      if state.Ok? then state.value.history else []
  }

  /** The content stores the history that was read, and one record more. */
  ghost predicate Extends(codec: Codec, content: string, read: Option<string>) {
    exists record :: HistoryIn(codec, Some(content)) == HistoryIn(codec, read) + [record]
  }

  /** What a finished load found. */
  function Found(proc: Proc): Option<string> {
    if proc.Loaded? then Some(proc.text) else None
  }

  /** A save is started only by a review that has finished its load, to store the history it
      found and one record; and nobody resets. */
  ghost predicate StepIsReview(codec: Codec, s: State, a: Action, loaderOf: Pid -> Pid) {
    && !a.StartReset?
    && (a.StartSave? && a.p !in s.procs ==>
          && loaderOf(a.p) in s.procs
          && var proc := s.procs[loaderOf(a.p)];
             (proc.Loaded? || proc.LoadedNothing?) && Extends(codec, a.content, Found(proc)))
  }

  ghost predicate OnlyReviews(codec: Codec, actions: seq<Action>, loaderOf: Pid -> Pid) {
    forall i | 0 <= i < |actions| :: StepIsReview(codec, Run(actions[..i]), actions[i], loaderOf)
  }

  // ---- Every save extends what its review opened -------------------------

  /** The file after the first `k` saves. */
  function Version(l: Ledger, k: nat): Option<string>
    requires k <= |l.renames|
  {
    if k == 0 then None else Some(l.renames[k - 1].content)
  }

  ghost predicate SaverNoted(codec: Codec, l: Ledger, p: Pid, content: string) {
    p in l.base && l.base[p] <= |l.renames| && Extends(codec, content, Version(l, l.base[p]))
  }

  predicate LoaderNoted(l: Ledger, p: Pid, text: string) {
    p in l.seen && 0 < l.seen[p] <= |l.renames| && Version(l, l.seen[p]) == Some(text)
  }

  ghost predicate ProcNoted(codec: Codec, s: State, l: Ledger, p: Pid, proc: Proc) {
    match proc
    case Waiting(content) => SaverNoted(codec, l, p, content)
    case Locked(content) => SaverNoted(codec, l, p, content)
    case Writing(content, _, _) => SaverNoted(codec, l, p, content)
    case Written(content, _) => SaverNoted(codec, l, p, content)
    case Reading(file, _) => file in s.renamed && LoaderNoted(l, p, s.renamed[file])
    case Loaded(text) => LoaderNoted(l, p, text)
    case LoadedNothing => p in l.seen && l.seen[p] == 0
    case Resetting => false
    case _ => true
  }

  ghost predicate RenamesNoted(codec: Codec, l: Ledger) {
    forall k | 0 <= k < |l.renames| ::
      l.renames[k].base <= k && Extends(codec, l.renames[k].content, Version(l, l.renames[k].base))
  }

  ghost predicate Noted(codec: Codec, s: State, l: Ledger) {
    && s.latest == Version(l, |l.renames|)
    && RenamesNoted(codec, l)
    && forall p | p in s.procs :: ProcNoted(codec, s, l, p, s.procs[p])
  }

  /** What is noted of a process stays so while the ledger grows and renamed files stand. */
  lemma NotedStays(codec: Codec, s: State, t: State, l: Ledger, m: Ledger, p: Pid, proc: Proc)
    requires ProcNoted(codec, s, l, p, proc)
    requires forall i | i in s.renamed :: i in t.renamed && t.renamed[i] == s.renamed[i]
    requires l.renames <= m.renames
    requires p in l.seen ==> p in m.seen && m.seen[p] == l.seen[p]
    requires p in l.base ==> p in m.base && m.base[p] == l.base[p]
    ensures ProcNoted(codec, t, m, p, proc)
  {
    hide Extends;
    assert forall k | 0 <= k <= |l.renames| :: Version(m, k) == Version(l, k);
  }

  /** A step leaves other processes and renamed files alone, */
  lemma StepFrame(s: State, a: Action)
    requires Inv(s)
    ensures var t := Apply(s, a);
      && (forall q | q in t.procs && q != a.p :: q in s.procs && t.procs[q] == s.procs[q])
      && (forall i | i in s.renamed :: i in t.renamed && t.renamed[i] == s.renamed[i])
  {
    hide WriteAt, ProcInv;
  }

  /** and what was noted of them. */
  lemma NoteFrame(s: State, a: Action, l: Ledger, loaderOf: Pid -> Pid)
    ensures var m := Note(l, s, a, loaderOf);
      && l.renames <= m.renames
      && (forall q | q != a.p :: (q in l.seen ==> q in m.seen && m.seen[q] == l.seen[q])
                                 && (q in l.base ==> q in m.base && m.base[q] == l.base[q]))
  {
  }

  lemma SaveIsNoted(codec: Codec, s: State, l: Ledger, p: Pid)
    requires Inv(s) && Noted(codec, s, l) && p in s.procs && s.procs[p].Written? && s.tmpName.Some?
    ensures var m := l.(renames := l.renames + [Rename(s.procs[p].content, l.base[p])]);
      p in l.base && RenamesNoted(codec, m) && Version(m, |m.renames|) == Some(s.procs[p].content)
  {
    hide Extends, Inv;
    assert ProcNoted(codec, s, l, p, s.procs[p]);
    var m := l.(renames := l.renames + [Rename(s.procs[p].content, l.base[p])]);
    assert forall k | 0 <= k <= |l.renames| :: Version(m, k) == Version(l, k);
  }

  /** Only a replace changes the file, and the ledger notes it. */
  lemma OnlyReplaceSaves(s: State, a: Action, l: Ledger, loaderOf: Pid -> Pid)
    requires a.p in s.procs ==> !s.procs[a.p].Resetting? && (s.procs[a.p].Written? ==> a.p in l.base)
    ensures var t, m := Apply(s, a), Note(l, s, a, loaderOf);
      if a.Replace? && a.p in s.procs && s.procs[a.p].Written? && s.tmpName.Some? then
        var content := s.procs[a.p].content;
        t.latest == Some(content) && m == l.(renames := l.renames + [Rename(content, l.base[a.p])])
      else t.latest == s.latest && m.renames == l.renames
  {
    hide WriteAt;
  }

  lemma RenamesStay(codec: Codec, l: Ledger, m: Ledger)
    requires RenamesNoted(codec, l) && m.renames == l.renames
    ensures RenamesNoted(codec, m)
  {
    hide Extends;
    assert forall k | 0 <= k <= |l.renames| :: Version(m, k) == Version(l, k);
  }

  /** The latest file and the completed saves after a step. */
  lemma NotedParts(codec: Codec, s: State, l: Ledger, p: Pid)
    requires Noted(codec, s, l)
    ensures s.latest == Version(l, |l.renames|) && RenamesNoted(codec, l)
    ensures p in s.procs ==> !s.procs[p].Resetting? && (s.procs[p].Written? ==> p in l.base)
  {
    assert p in s.procs ==> ProcNoted(codec, s, l, p, s.procs[p]);
    hide RenamesNoted, Extends, LoaderNoted;
  }

  lemma StepNotesSaves(codec: Codec, s: State, a: Action, l: Ledger, loaderOf: Pid -> Pid)
    requires Inv(s) && Noted(codec, s, l)
    ensures var t, m := Apply(s, a), Note(l, s, a, loaderOf);
      t.latest == Version(m, |m.renames|) && RenamesNoted(codec, m)
  {
    hide *;
    var m := Note(l, s, a, loaderOf);
    NotedParts(codec, s, l, a.p);
    OnlyReplaceSaves(s, a, l, loaderOf);
    if a.Replace? && a.p in s.procs && s.procs[a.p].Written? && s.tmpName.Some? {
      SaveIsNoted(codec, s, l, a.p);
    } else {
      RenamesStay(codec, l, m);
      SameVersions(l, m);
    }
  }

  /** What a step can make of the process that takes it. */
  predicate Successor(s: State, proc: Proc, next: Proc) {
    || next == proc
    || match proc
       case Waiting(content) => next == Locked(content)
       case Locked(content) => next.CleaningUp? || (next.Writing? && next.content == content)
       case Writing(content, _, _) =>
         next.CleaningUp? || ((next.Writing? || next.Written?) && next.content == content)
       case Written(_, _) => next.CleaningUp? || next.Releasing?
       case CleaningUp => next.Releasing?
       case Opening => next.NotFound? || (next.Reading? && s.fileName == Some(next.file))
       case Reading(file, got) =>
         || (next.Reading? && next.file == file)
         || (next == Loaded(got) && file < |s.inodes| && |got| == |s.inodes[file]|)
       case Resetting => next.NotFound?
       case _ => false
  }

  lemma OwnSuccessor(s: State, a: Action)
    requires a.p in s.procs
    ensures var t := Apply(s, a);
      a.p in t.procs ==> Successor(s, s.procs[a.p], t.procs[a.p])
  {
    hide WriteAt;
  }

  /** What a step of a process that is there changes in the notes of that process. */
  lemma NoteOfOwn(s: State, a: Action, l: Ledger, loaderOf: Pid -> Pid)
    requires a.p in s.procs
    ensures var t, m := Apply(s, a), Note(l, s, a, loaderOf);
      && l.renames <= m.renames && m.base == l.base
      && (s.procs[a.p].Opening? && a.p in t.procs && t.procs[a.p].Reading? ==>
            m.renames == l.renames && a.p in m.seen && m.seen[a.p] == |l.renames|)
      && (!s.procs[a.p].Opening? ==> m.seen == l.seen)
  {
    hide WriteAt;
  }

  lemma SaverNotedOn(codec: Codec, l: Ledger, m: Ledger, p: Pid, content: string)
    requires SaverNoted(codec, l, p, content) && l.renames <= m.renames && m.base == l.base
    ensures SaverNoted(codec, m, p, content)
  {
    hide Extends;
    assert Version(m, l.base[p]) == Version(l, l.base[p]);
  }

  lemma LoaderNotedOn(l: Ledger, m: Ledger, p: Pid, text: string)
    requires LoaderNoted(l, p, text) && l.renames <= m.renames && m.seen == l.seen
    ensures LoaderNoted(m, p, text)
  {
    assert Version(m, l.seen[p]) == Version(l, l.seen[p]);
  }

  lemma SaverNotesOwn(codec: Codec, s: State, t: State, l: Ledger, m: Ledger, p: Pid, proc: Proc, next: Proc)
    requires Carries(proc) && ProcNoted(codec, s, l, p, proc) && Successor(s, proc, next)
    requires l.renames <= m.renames && m.base == l.base
    ensures ProcNoted(codec, t, m, p, next)
  {
    hide SaverNoted, LoaderNoted;
    SaverNotedOn(codec, l, m, p, proc.content);
  }

  /** A reader notes the latest version, and in the end has the whole of it. */
  lemma LoaderNotesOwn(codec: Codec, s: State, t: State, l: Ledger, m: Ledger, p: Pid, proc: Proc, next: Proc)
    requires Inv(s) && Noted(codec, s, l) && p in s.procs && proc == s.procs[p] && !Carries(proc)
    requires Successor(s, proc, next) && l.renames <= m.renames
    requires forall i | i in s.renamed :: i in t.renamed && t.renamed[i] == s.renamed[i]
    requires proc.Opening? && next.Reading? ==> m.renames == l.renames && p in m.seen && m.seen[p] == |l.renames|
    requires !proc.Opening? ==> m.seen == l.seen
    ensures ProcNoted(codec, t, m, p, next)
  {
    assert ProcNoted(codec, s, l, p, proc) && ProcInv(s, p, proc) && FilesInv(s);
    assert s.latest == Version(l, |l.renames|);
    hide Inv, Noted, SaverNoted;
    if proc.Reading? {
      LoaderNotedOn(l, m, p, s.renamed[proc.file]);
      assert s.renamed[proc.file][..|s.renamed[proc.file]|] == s.renamed[proc.file];
      hide LoaderNoted, Version;
    } else if proc.Loaded? {
      LoaderNotedOn(l, m, p, proc.text);
    } else if proc.Opening? && next.Reading? {
      assert Version(m, |m.renames|) == Version(l, |l.renames|);
    }
  }

  lemma NewcomerSteps(s: State, a: Action, l: Ledger, loaderOf: Pid -> Pid)
    requires a.p !in s.procs && a.p in Apply(s, a).procs
    ensures var t, m := Apply(s, a), Note(l, s, a, loaderOf);
      && m.renames == l.renames
      && match t.procs[a.p]
         case Waiting(content) =>
           a == StartSave(a.p, content) && (loaderOf(a.p) in l.seen ==> m.base == l.base[a.p := l.seen[loaderOf(a.p)]])
         case LoadedNothing => s.fileName.None? && m.seen == l.seen[a.p := |l.renames|]
         case Opening => true
         case Resetting => a.StartReset?
         case _ => false
  {
  }

  /** A new saver has, by its loader, a version to extend. */
  lemma NewSaverIsNoted(codec: Codec, s: State, a: Action, l: Ledger, loaderOf: Pid -> Pid)
    requires Noted(codec, s, l) && StepIsReview(codec, s, a, loaderOf) && a.p !in s.procs && a.StartSave?
    ensures loaderOf(a.p) in l.seen && l.seen[loaderOf(a.p)] <= |l.renames|
    ensures Extends(codec, a.content, Version(l, l.seen[loaderOf(a.p)]))
  {
    assert ProcNoted(codec, s, l, loaderOf(a.p), s.procs[loaderOf(a.p)]);
    hide Extends, Noted;
  }

  /** A process that is not there yet. */
  lemma NewcomerIsNoted(codec: Codec, s: State, a: Action, l: Ledger, loaderOf: Pid -> Pid)
    requires Inv(s) && Noted(codec, s, l) && StepIsReview(codec, s, a, loaderOf) && a.p !in s.procs
    ensures var t, m := Apply(s, a), Note(l, s, a, loaderOf);
      a.p in t.procs ==> ProcNoted(codec, t, m, a.p, t.procs[a.p])
  {
    assert !a.StartReset?;
    assert s.fileName.None? ==> Version(l, |l.renames|) == None;
    hide Extends, Inv, Noted, Apply, Note, StepIsReview;
    if a.p in Apply(s, a).procs {
      NewcomerSteps(s, a, l, loaderOf);
      if a.StartSave? {
        NewSaverIsNoted(codec, s, a, l, loaderOf);
        SameVersions(l, Note(l, s, a, loaderOf));
      }
    }
  }

  lemma SameVersions(l: Ledger, m: Ledger)
    requires m.renames == l.renames
    ensures forall k | 0 <= k <= |l.renames| :: Version(m, k) == Version(l, k)
  {
  }

  /** The process that takes the step. */
  lemma StepNotesOwn(codec: Codec, s: State, a: Action, l: Ledger, loaderOf: Pid -> Pid)
    requires Inv(s) && Noted(codec, s, l) && StepIsReview(codec, s, a, loaderOf)
    ensures var t, m := Apply(s, a), Note(l, s, a, loaderOf);
      a.p in t.procs ==> ProcNoted(codec, t, m, a.p, t.procs[a.p])
  {
    var t, m := Apply(s, a), Note(l, s, a, loaderOf);
    assert a.p in s.procs ==> ProcNoted(codec, s, l, a.p, s.procs[a.p]);
    hide *;
    if a.p !in s.procs {
      NewcomerIsNoted(codec, s, a, l, loaderOf);
    } else if a.p in t.procs {
      OwnSuccessor(s, a);
      NoteOfOwn(s, a, l, loaderOf);
      if Carries(s.procs[a.p]) {
        SaverNotesOwn(codec, s, t, l, m, a.p, s.procs[a.p], t.procs[a.p]);
      } else {
        StepFrame(s, a);
        LoaderNotesOwn(codec, s, t, l, m, a.p, s.procs[a.p], t.procs[a.p]);
      }
    }
  }

  lemma StepNotes(codec: Codec, s: State, a: Action, l: Ledger, loaderOf: Pid -> Pid)
    requires Inv(s) && Noted(codec, s, l) && StepIsReview(codec, s, a, loaderOf)
    ensures Noted(codec, Apply(s, a), Note(l, s, a, loaderOf))
  {
    var t, m := Apply(s, a), Note(l, s, a, loaderOf);
    StepFrame(s, a);
    NoteFrame(s, a, l, loaderOf);
    StepNotesSaves(codec, s, a, l, loaderOf);
    StepNotesOwn(codec, s, a, l, loaderOf);
    hide Inv, Apply, Note, ProcNoted, RenamesNoted, StepIsReview;
    forall q | q in t.procs ensures ProcNoted(codec, t, m, q, t.procs[q]) {
      if q != a.p {
        NotedStays(codec, s, t, l, m, q, s.procs[q]);
      }
    }
  }

  lemma {:induction false} RunIsNoted(codec: Codec, actions: seq<Action>, loaderOf: Pid -> Pid)
    requires OnlyReviews(codec, actions, loaderOf)
    ensures Noted(codec, Run(actions), LedgerOf(actions, loaderOf))
  {
    if actions != [] {
      var n := |actions| - 1;
      var init := actions[..n];
      assert OnlyReviews(codec, init, loaderOf) by {
        assert forall i | 0 <= i < n :: init[i] == actions[i] && init[..i] == actions[..i];
      }
      assert StepIsReview(codec, Run(init), actions[n], loaderOf);
      RunIsNoted(codec, init, loaderOf);
      RunKeepsInv(init);
      hide Inv, Noted, Apply, Note, StepIsReview;
      StepNotes(codec, Run(init), actions[n], LedgerOf(init, loaderOf), loaderOf);
    }
  }

  // ---- Whose records survive ---------------------------------------------

  /** No other save completed between a review's opening of the file and its own save. */
  predicate NoneBetween(l: Ledger) {
    forall k | 0 <= k < |l.renames| :: l.renames[k].base == k
  }

  /** The record that the `k`-th completed save added. */
  function Added(codec: Codec, l: Ledger, k: nat): Option<CycleRecord>
    requires k < |l.renames|
  {
    var history := HistoryIn(codec, Version(l, k + 1));
    if history == [] then None else Some(history[|history| - 1])
  }

  /** The history has one entry for every completed save: the record it added. */
  ghost predicate AllSurvive(codec: Codec, l: Ledger, history: seq<CycleRecord>) {
    && |history| == |l.renames|
    && forall k | 0 <= k < |history| :: Added(codec, l, k) == Some(history[k])
  }

  lemma VersionExtends(codec: Codec, l: Ledger, k: nat)
    requires RenamesNoted(codec, l) && k < |l.renames|
    ensures l.renames[k].base <= k
    ensures var h := HistoryIn(codec, Version(l, k + 1));
      && h != [] && h[..|h| - 1] == HistoryIn(codec, Version(l, l.renames[k].base))
  {
    hide HistoryIn;
    assert Extends(codec, l.renames[k].content, Version(l, l.renames[k].base));
  }

  /** A version has at most as many records as saves have completed, and strictly fewer as
      soon as one of them came between a review's opening of the file and its save. */
  lemma {:induction false} VersionsFallBehind(codec: Codec, l: Ledger, k: nat)
    requires RenamesNoted(codec, l) && k <= |l.renames|
    ensures |HistoryIn(codec, Version(l, k))| <= k
    ensures |HistoryIn(codec, Version(l, k))| == k <==> forall j | 0 <= j < k :: l.renames[j].base == j
    decreases k
  {
    hide HistoryIn, RenamesNoted;
    if k == 0 {
      assert HistoryIn(codec, None) == [] by { NoFileNoHistory(codec); }
    } else {
      VersionExtends(codec, l, k - 1);
      VersionsFallBehind(codec, l, l.renames[k - 1].base);
      VersionsFallBehind(codec, l, k - 1);
    }
  }

  lemma NoFileNoHistory(codec: Codec)
    ensures HistoryIn(codec, None) == []
  {
  }

  /** With no save in between, every record stands where its save put it. */
  lemma {:induction false} RecordsStand(codec: Codec, l: Ledger, k: nat)
    requires RenamesNoted(codec, l) && NoneBetween(l) && k <= |l.renames|
    ensures var h := HistoryIn(codec, Version(l, k));
      |h| == k && forall j | 0 <= j < k :: Added(codec, l, j) == Some(h[j])
  {
    hide HistoryIn, RenamesNoted, Version;
    VersionsFallBehind(codec, l, k);
    if k > 0 {
      var h, before := HistoryIn(codec, Version(l, k)), HistoryIn(codec, Version(l, k - 1));
      RecordsStand(codec, l, k - 1);
      VersionExtends(codec, l, k - 1);
      assert |h| == k && h[..k - 1] == before;
      forall j | 0 <= j < k ensures Added(codec, l, j) == Some(h[j]) {
        assert j < k - 1 ==> h[j] == before[j];
      }
    }
  }

  /** Reviews of one artifact at the same time, interleaved step by step with write errors
      and crashes: the state file keeps the record of every completed save iff no other save
      completed between a review's opening of the file and its own save. */
  lemma NothingIsLostIff(codec: Codec, actions: seq<Action>, loaderOf: Pid -> Pid)
    requires OnlyReviews(codec, actions, loaderOf)
    ensures var l := LedgerOf(actions, loaderOf);
      AllSurvive(codec, l, HistoryIn(codec, FileText(Run(actions)))) <==> NoneBetween(l)
  {
    var l := LedgerOf(actions, loaderOf);
    RunIsNoted(codec, actions, loaderOf);
    FileIsLatest(actions);
    assert FileText(Run(actions)) == Version(l, |l.renames|);
    hide Run, LedgerOf, HistoryIn, RenamesNoted, FileText, OnlyReviews;
    VersionsFallBehind(codec, l, |l.renames|);
    if NoneBetween(l) {
      RecordsStand(codec, l, |l.renames|);
    }
  }

  // ---- A record is lost --------------------------------------------------

  lemma OneMoreAction(actions: seq<Action>, a: Action, loaderOf: Pid -> Pid)
    ensures Run(actions + [a]) == Apply(Run(actions), a)
    ensures LedgerOf(actions + [a], loaderOf) == Note(LedgerOf(actions, loaderOf), Run(actions), a, loaderOf)
  {
    hide Apply, Note;
    assert (actions + [a])[..|actions|] == actions;
  }

  /** Steps of a save that the ledger does not note. */
  predicate GoesUnnoted(a: Action) {
    a.Acquire? || a.OpenTmp? || a.WriteSome? || a.CloseTmp? || a.Release?
  }

  lemma {:induction false} LedgerStays(actions: seq<Action>, steps: seq<Action>, loaderOf: Pid -> Pid)
    requires forall i | 0 <= i < |steps| :: GoesUnnoted(steps[i])
    ensures LedgerOf(actions + steps, loaderOf) == LedgerOf(actions, loaderOf)
    decreases |steps|
  {
    hide Run, LedgerOf, Apply;
    if steps == [] {
      assert actions + steps == actions;
    } else {
      OneMoreAction(actions, steps[0], loaderOf);
      LedgerStays(actions + [steps[0]], steps[1..], loaderOf);
      assert actions + steps == actions + [steps[0]] + steps[1..];
    }
  }

  lemma RenameIsNoted(s: State, l: Ledger, p: Pid, loaderOf: Pid -> Pid)
    requires p in s.procs && s.procs[p].Written? && s.tmpName.Some? && p in l.base
    ensures Note(l, s, Replace(p), loaderOf) == l.(renames := l.renames + [Rename(s.procs[p].content, l.base[p])])
  {
  }

  lemma SaveIsBegun(s: State, l: Ledger, p: Pid, content: string, loaderOf: Pid -> Pid)
    requires p !in s.procs && loaderOf(p) in l.seen
    ensures Note(l, s, StartSave(p, content), loaderOf) == l.(base := l.base[p := l.seen[loaderOf(p)]])
  {
  }

  /** What the ledger has when the temporary file is closed, */
  lemma {:induction false} LedgerBeforeRename(actions: seq<Action>, p: Pid, content: string, loaderOf: Pid -> Pid)
    requires var s, l := Run(actions), LedgerOf(actions, loaderOf);
      p !in s.procs && loaderOf(p) in l.seen
    ensures var l := LedgerOf(actions, loaderOf);
      LedgerOf(actions + SaveUpToRename(p, content), loaderOf) == l.(base := l.base[p := l.seen[loaderOf(p)]])
  {
    hide Run, LedgerOf, Apply, Note;
    var a1 := actions + [StartSave(p, content)];
    var rest := [Acquire(p), OpenTmp(p), WriteSome(p, |content|), CloseTmp(p)];
    OneMoreAction(actions, StartSave(p, content), loaderOf);
    SaveIsBegun(Run(actions), LedgerOf(actions, loaderOf), p, content, loaderOf);
    LedgerStays(a1, rest, loaderOf);
    assert a1 + rest == actions + SaveUpToRename(p, content);
  }

  /** and after the whole save. */
  lemma {:induction false} WholeSaveRuns(actions: seq<Action>, p: Pid, content: string, loaderOf: Pid -> Pid)
    requires var s, l := Run(actions), LedgerOf(actions, loaderOf);
      s.lock.None? && p !in s.procs && loaderOf(p) in l.seen
    ensures var l, m := LedgerOf(actions, loaderOf), LedgerOf(actions + WholeSave(p, content), loaderOf);
      m.seen == l.seen && m.renames == l.renames + [Rename(content, l.seen[loaderOf(p)])]
  {
    hide Run, LedgerOf, Apply, Note, SaveUpToRename;
    var written := actions + SaveUpToRename(p, content);
    var file := SaveIsWritten(actions, p, content);
    LedgerBeforeRename(actions, p, content, loaderOf);
    OneMoreAction(written, Replace(p), loaderOf);
    RenameIsNoted(Run(written), LedgerOf(written, loaderOf), p, loaderOf);
    LedgerStays(written + [Replace(p)], [Release(p)], loaderOf);
    assert actions + WholeSave(p, content) == written + [Replace(p)] + [Release(p)];
  }

  lemma OneMoreReview(codec: Codec, actions: seq<Action>, a: Action, loaderOf: Pid -> Pid)
    requires OnlyReviews(codec, actions, loaderOf) && StepIsReview(codec, Run(actions), a, loaderOf)
    ensures OnlyReviews(codec, actions + [a], loaderOf)
  {
    var all := actions + [a];
    hide StepIsReview, Run;
    forall i | 0 <= i < |all| ensures StepIsReview(codec, Run(all[..i]), all[i], loaderOf) {
      assert all[..i] == actions[..i];
      if i < |actions| { assert StepIsReview(codec, Run(actions[..i]), actions[i], loaderOf); }
    }
  }

  /** Steps that neither start a save nor reset are steps of reviews. */
  lemma {:induction false} ReviewsGoOn(codec: Codec, actions: seq<Action>, steps: seq<Action>, loaderOf: Pid -> Pid)
    requires OnlyReviews(codec, actions, loaderOf)
    requires forall i | 0 <= i < |steps| :: !steps[i].StartReset? && !steps[i].StartSave?
    ensures OnlyReviews(codec, actions + steps, loaderOf)
    decreases |steps|
  {
    hide *;
    if steps == [] {
      assert actions + steps == actions;
    } else {
      PassiveStep(codec, Run(actions), steps[0], loaderOf);
      OneMoreReview(codec, actions, steps[0], loaderOf);
      ReviewsGoOn(codec, actions + [steps[0]], steps[1..], loaderOf);
      assert actions + steps == actions + [steps[0]] + steps[1..];
    }
  }

  lemma PassiveStep(codec: Codec, s: State, a: Action, loaderOf: Pid -> Pid)
    requires !a.StartReset? && !a.StartSave?
    ensures StepIsReview(codec, s, a, loaderOf)
  {
  }

  lemma {:induction false} WholeSaveIsReview(codec: Codec, actions: seq<Action>, p: Pid, content: string,
                                             loaderOf: Pid -> Pid)
    requires OnlyReviews(codec, actions, loaderOf)
    requires StepIsReview(codec, Run(actions), StartSave(p, content), loaderOf)
    ensures OnlyReviews(codec, actions + WholeSave(p, content), loaderOf)
  {
    hide OnlyReviews, StepIsReview, Run;
    var rest := [Acquire(p), OpenTmp(p), WriteSome(p, |content|), CloseTmp(p), Replace(p), Release(p)];
    OneMoreReview(codec, actions, StartSave(p, content), loaderOf);
    ReviewsGoOn(codec, actions + [StartSave(p, content)], rest, loaderOf);
    assert actions + WholeSave(p, content) == actions + [StartSave(p, content)] + rest;
  }

  /** Two reviews that both load before either saves. */
  const LOADS: seq<Action> := [StartLoad(1), StartLoad(2)]

  function TwoReviews(first: string, second: string): seq<Action> {
    LOADS + WholeSave(3, first) + WholeSave(4, second)
  }

  function LoaderOf(p: Pid): Pid {
    if p == 3 then 1 else 2
  }

  lemma BothLoad(codec: Codec)
    ensures Run(LOADS).lock.None? && Run(LOADS).procs == map[1 := LoadedNothing, 2 := LoadedNothing]
    ensures LedgerOf(LOADS, LoaderOf) == Ledger([], map[1 := 0, 2 := 0], map[])
    ensures OnlyReviews(codec, LOADS, LoaderOf)
  {
    assert Run([]) == INIT && LedgerOf([], LoaderOf) == Ledger([], map[], map[]);
    assert OnlyReviews(codec, [], LoaderOf);
    OneMoreAction([], StartLoad(1), LoaderOf);
    OneMoreAction([StartLoad(1)], StartLoad(2), LoaderOf);
    assert [] + [StartLoad(1)] == [StartLoad(1)] && [StartLoad(1)] + [StartLoad(2)] == LOADS;
    assert [] + LOADS == LOADS;
    hide OnlyReviews, Run, LedgerOf;
    ReviewsGoOn(codec, [], LOADS, LoaderOf);
  }

  lemma NothingLoadedYet(codec: Codec, s: State, p: Pid, content: string)
    requires s.procs == map[1 := LoadedNothing, 2 := LoadedNothing] && Extends(codec, content, None)
    ensures StepIsReview(codec, s, StartSave(p, content), LoaderOf)
  {
    hide Extends;
  }

  /** A review that has loaded saves, undisturbed. */
  lemma {:induction false} ReviewSaves(codec: Codec, actions: seq<Action>, p: Pid, content: string)
    requires OnlyReviews(codec, actions, LoaderOf) && Extends(codec, content, None)
    requires Run(actions).lock.None? && Run(actions).procs == map[1 := LoadedNothing, 2 := LoadedNothing]
    requires p !in {1, 2} && LoaderOf(p) in LedgerOf(actions, LoaderOf).seen
    ensures var all, l := actions + WholeSave(p, content), LedgerOf(actions, LoaderOf);
      && OnlyReviews(codec, all, LoaderOf)
      && Run(all).lock.None? && Run(all).procs == Run(actions).procs && FileText(Run(all)) == Some(content)
      && LedgerOf(all, LoaderOf).seen == l.seen
      && LedgerOf(all, LoaderOf).renames == l.renames + [Rename(content, l.seen[LoaderOf(p)])]
  {
    hide *;
    NothingLoadedYet(codec, Run(actions), p, content);
    WholeSaveIsReview(codec, actions, p, content, LoaderOf);
    WholeSaveRuns(actions, p, content, LoaderOf);
    SaveRecovers(actions, p, content);
  }

  /** Then both saves complete, */
  lemma {:induction false} BothSave(codec: Codec, first: string, second: string)
    requires Extends(codec, first, None) && Extends(codec, second, None)
    ensures OnlyReviews(codec, TwoReviews(first, second), LoaderOf)
    ensures FileText(Run(TwoReviews(first, second))) == Some(second)
    ensures LedgerOf(TwoReviews(first, second), LoaderOf).renames == [Rename(first, 0), Rename(second, 0)]
  {
    assert LoaderOf(3) == 1 && LoaderOf(4) == 2;
    hide *;
    BothLoad(codec);
    ReviewSaves(codec, LOADS, 3, first);
    ReviewSaves(codec, LOADS + WholeSave(3, first), 4, second);
    TwoReviewsAre(first, second);
  }

  lemma TwoReviewsAre(first: string, second: string)
    ensures TwoReviews(first, second) == LOADS + WholeSave(3, first) + WholeSave(4, second)
  {
    hide WholeSave;
  }

  /** and the record of the first is gone: a run of reviews in which one is lost. */
  lemma {:induction false} SecondReviewLosesFirst(codec: Codec, first: string, second: string)
    requires Extends(codec, first, None) && Extends(codec, second, None)
    ensures var actions := TwoReviews(first, second);
      var l := LedgerOf(actions, LoaderOf);
      && OnlyReviews(codec, actions, LoaderOf)
      && |l.renames| == 2 && !NoneBetween(l)
      && FileText(Run(actions)) == Some(second) && |HistoryIn(codec, FileText(Run(actions)))| == 1
      && !AllSurvive(codec, l, HistoryIn(codec, FileText(Run(actions))))
  {
    assert |HistoryIn(codec, Some(second))| == 1;
    hide Run, LedgerOf, TwoReviews, FileText, OnlyReviews, Extends, HistoryIn;
    BothSave(codec, first, second);
    assert LedgerOf(TwoReviews(first, second), LoaderOf).renames[1].base == 0;
  }
}
