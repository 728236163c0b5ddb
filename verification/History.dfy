/** Durable review state and cycle escalation (models/state.py, harness/state.py). */
module History {
  import opened Wrappers
  import opened Findings
  import opened Oracle
  import opened SeverityPolicy
  import opened Selections

  datatype Disposition = Open | Addressed | Disputed | Waived

  datatype HistoricalFinding = HistoricalFinding(
    key: FindingKey, severity: Severity, disposition: Disposition, summary: string)

  datatype CycleRecord = CycleRecord(
    cycle: int,
    completedAt: int,
    mode: ReviewMode,
    artifactClass: string,
    contentSha256: string,
    findings: seq<HistoricalFinding>)

  datatype ReviewState = ReviewState(artifactId: string, cycle: nat, history: seq<CycleRecord>)

  datatype EscalationEvent = EscalationEvent(key: FindingKey, cycles: seq<int>)

  // ---- The index of open Majors ------------------------------------------

  predicate IsOpenMajor(f: HistoricalFinding) {
    f.severity >= MAJOR && f.disposition.Open?
  }

  /** One entry of `cycle` for every open Major-or-above finding under that key. */
  function Listing(findings: seq<HistoricalFinding>, cycle: int, rendered: string): seq<int> {
    if findings == [] then []
    else
      var f := findings[|findings| - 1];
      Listing(findings[..|findings| - 1], cycle, rendered)
      + (if IsOpenMajor(f) && f.key.Render() == rendered then [cycle] else [])
  }

  /** The cycles of all occurrences of a key, in history order, with multiplicity. */
  function Occurrences(history: seq<CycleRecord>, rendered: string): seq<int> {
    if history == [] then []
    else
      var r := history[|history| - 1];
      Occurrences(history[..|history| - 1], rendered) + Listing(r.findings, r.cycle, rendered)
  }

  function Get(m: map<string, seq<int>>, k: string): seq<int> {
    if k in m then m[k] else []
  }

  predicate NoEmptyEntry(m: map<string, seq<int>>) {
    forall k | k in m :: m[k] != []
  }

  /** The index maps exactly the keys that occur, each to its listing. */
  ghost predicate IsIndex(m: map<string, seq<int>>, history: seq<CycleRecord>) {
    NoEmptyEntry(m) && forall k :: Get(m, k) == Occurrences(history, k)
  }

  lemma OccurrencesStep(history: seq<CycleRecord>, record: CycleRecord, k: string)
    ensures Occurrences(history + [record], k)
         == Occurrences(history, k) + Listing(record.findings, record.cycle, k)
  {
    assert (history + [record])[..|history|] == history;
  }

  lemma ListingStep(findings: seq<HistoricalFinding>, j: nat, cycle: int, k: string)
    requires j < |findings|
    ensures Listing(findings[..j + 1], cycle, k)
         == Listing(findings[..j], cycle, k)
            + (if IsOpenMajor(findings[j]) && findings[j].key.Render() == k then [cycle] else [])
  {
    assert findings[..j + 1][..j] == findings[..j];
  }

  /** The inner loop: one record's findings. */
  method IndexRecord(record: CycleRecord, occurrences0: map<string, seq<int>>, ghost history: seq<CycleRecord>)
    returns (occurrences: map<string, seq<int>>)
    requires IsIndex(occurrences0, history)
    ensures IsIndex(occurrences, history + [record])
  {
    hide FindingKey.Render, Occurrences, Listing;
    occurrences := occurrences0;
    assert forall k :: Listing(record.findings[..0], record.cycle, k) == [] by { EmptyListing(record); }
    for j := 0 to |record.findings|
      invariant NoEmptyEntry(occurrences)
      invariant forall k ::
        Get(occurrences, k) == Occurrences(history, k) + Listing(record.findings[..j], record.cycle, k)
    {
      var finding := record.findings[j];
      forall k { ListingStep(record.findings, j, record.cycle, k); }
      if IsOpenMajor(finding) {
        var key := finding.key.Render();
        var cycles := if key in occurrences then occurrences[key] else [];
        occurrences := occurrences[key := cycles + [record.cycle]];
      }
    }
    assert record.findings[..|record.findings|] == record.findings;
    forall k { OccurrencesStep(history, record, k); }
  }

  lemma EmptyListing(record: CycleRecord)
    ensures forall k :: Listing(record.findings[..0], record.cycle, k) == []
  {
  }

  /** `ReviewState.open_major_keys`. */
  method OpenMajorKeys(state: ReviewState) returns (occurrences: map<string, seq<int>>)
    ensures IsIndex(occurrences, state.history)
  {
    occurrences := map[];
    for i := 0 to |state.history|
      invariant IsIndex(occurrences, state.history[..i])
    {
      occurrences := IndexRecord(state.history[i], occurrences, state.history[..i]);
      assert state.history[..i + 1] == state.history[..i] + [state.history[i]];
    }
    assert state.history[..|state.history|] == state.history;
  }

  // ---- Reference: the marks of a key -------------------------------------

  /** Finding `j` of record `i` is still open, Major or graver, and has this key. */
  predicate Marks(history: seq<CycleRecord>, i: nat, j: nat, rendered: string) {
    && i < |history| && j < |history[i].findings|
    && var f := history[i].findings[j];
       f.severity >= MAJOR && f.disposition == Open && f.key.Render() == rendered
  }

  function MarksOf(history: seq<CycleRecord>, rendered: string): set<(nat, nat)> {
    set i: nat, j: nat | i < |history| && j < |history[i].findings| && Marks(history, i, j, rendered) :: (i, j)
  }

  predicate Earlier(p: (nat, nat), q: (nat, nat)) {
    p.0 < q.0 || (p.0 == q.0 && p.1 < q.1)
  }

  /** `ps` lists the marks, in the order of records and of findings in a record. */
  ghost predicate AreMarks(ps: seq<(nat, nat)>, history: seq<CycleRecord>, rendered: string) {
    && (forall p :: p in ps <==> p in MarksOf(history, rendered))
    && (forall s, t | 0 <= s < t < |ps| :: Earlier(ps[s], ps[t]))
  }

  lemma {:induction false} ListingMarks(findings: seq<HistoricalFinding>, cycle: int, rendered: string)
    returns (js: seq<nat>)
    ensures |js| == |Listing(findings, cycle, rendered)|
    ensures forall t | 0 <= t < |js| :: Listing(findings, cycle, rendered)[t] == cycle
    ensures forall j: nat :: j in js <==>
      && j < |findings| && findings[j].severity >= MAJOR && findings[j].disposition == Open
      && findings[j].key.Render() == rendered
    ensures forall s, t | 0 <= s < t < |js| :: js[s] < js[t]
  {
    hide FindingKey.Render;
    if findings == [] {
      js := [];
    } else {
      var n := |findings| - 1;
      js := ListingMarks(findings[..n], cycle, rendered);
      assert forall j | 0 <= j < n :: findings[..n][j] == findings[j];
      assert forall t | 0 <= t < |js| :: js[t] in js;
      if findings[n].severity >= MAJOR && findings[n].disposition == Open
         && findings[n].key.Render() == rendered {
        js := js + [n];
      }
    }
  }

  lemma MarksStep(history: seq<CycleRecord>, i: nat, j: nat, rendered: string)
    requires history != []
    ensures var n := |history| - 1;
      (i, j) in MarksOf(history, rendered)
      <==> || (i, j) in MarksOf(history[..n], rendered)
           || (i == n && j < |history[n].findings| && Marks(history, n, j, rendered))
  {
    hide FindingKey.Render;
  }

  lemma AppendMarks(history: seq<CycleRecord>, rendered: string, ps: seq<(nat, nat)>, js: seq<nat>)
    returns (all: seq<(nat, nat)>)
    requires history != [] && AreMarks(ps, history[..|history| - 1], rendered)
    requires forall j: nat :: j in js <==> Marks(history, |history| - 1, j, rendered)
    requires forall s, t | 0 <= s < t < |js| :: js[s] < js[t]
    ensures AreMarks(all, history, rendered) && |all| == |ps| + |js|
    ensures forall t | 0 <= t < |all| :: all[t] == if t < |ps| then ps[t] else (|history| - 1, js[t - |ps|])
  {
    var n := |history| - 1;
    var more := seq(|js|, t requires 0 <= t < |js| => (n, js[t]));
    all := ps + more;
    hide Marks, MarksOf;
    forall p: (nat, nat) ensures p in all <==> p in MarksOf(history, rendered) {
      MarksStep(history, p.0, p.1, rendered);
      assert p == (p.0, p.1);
      MarksInside(history, rendered, p);
      if p in more {
        var t :| 0 <= t < |more| && more[t] == p;
        assert js[t] in js;
      }
      if p.0 == n && p.1 in js {
        var t :| 0 <= t < |js| && js[t] == p.1;
        assert more[t] == p;
      }
    }
    forall s, t | 0 <= s < t < |all| ensures Earlier(all[s], all[t]) {
      if s < |ps| <= t {
        assert ps[s] in ps;
        MarksInside(history[..n], rendered, ps[s]);
      }
    }
  }

  lemma MarksInside(history: seq<CycleRecord>, rendered: string, p: (nat, nat))
    ensures p in MarksOf(history, rendered) <==> Marks(history, p.0, p.1, rendered)
    ensures p in MarksOf(history, rendered) ==> p.0 < |history|
  {
    hide FindingKey.Render;
    if Marks(history, p.0, p.1, rendered) {
      assert p == (p.0, p.1);
    }
  }

  /** The occurrences of a key are its marks, each with the cycle of its record. */
  lemma NoMarks(rendered: string)
    ensures AreMarks([], [], rendered) && Occurrences([], rendered) == []
  {
    assert MarksOf([], rendered) == {};
  }

  lemma OccurrencesOfLast(history: seq<CycleRecord>, rendered: string)
    requires history != []
    ensures var n := |history| - 1;
      Occurrences(history, rendered)
      == Occurrences(history[..n], rendered) + Listing(history[n].findings, history[n].cycle, rendered)
  {
    hide Listing;
  }

  lemma LastMarks(history: seq<CycleRecord>, j: nat, rendered: string)
    requires history != []
    ensures var n := |history| - 1;
      Marks(history, n, j, rendered) <==>
        && j < |history[n].findings| && history[n].findings[j].severity >= MAJOR
        && history[n].findings[j].disposition == Open && history[n].findings[j].key.Render() == rendered
  {
    hide FindingKey.Render;
  }

  lemma {:induction false} OccurrencesAreMarks(history: seq<CycleRecord>, rendered: string)
    returns (ps: seq<(nat, nat)>)
    ensures AreMarks(ps, history, rendered) && |ps| == |Occurrences(history, rendered)|
    ensures forall t | 0 <= t < |ps| ::
      ps[t].0 < |history| && Occurrences(history, rendered)[t] == history[ps[t].0].cycle
  {
    hide *;
    if history == [] {
      ps := [];
      NoMarks(rendered);
    } else {
      var n := |history| - 1;
      var before := OccurrencesAreMarks(history[..n], rendered);
      var js := ListingMarks(history[n].findings, history[n].cycle, rendered);
      OccurrencesOfLast(history, rendered);
      forall j: nat ensures j in js <==> Marks(history, n, j, rendered) { LastMarks(history, j, rendered); }
      ps := AppendMarks(history, rendered, before, js);
    }
  }

  lemma {:induction false} DistinctSize<T>(s: seq<T>, all: set<T>)
    requires forall x :: x in s <==> x in all
    requires forall i, j | 0 <= i < j < |s| :: s[i] != s[j]
    ensures |s| == |all|
  {
    if s != [] {
      var n := |s| - 1;
      assert s == s[..n] + [s[n]];
      assert forall x :: x in s[..n] <==> x in all - {s[n]};
      DistinctSize(s[..n], all - {s[n]});
    } else {
      assert all == {};
    }
  }

  lemma OccurrencesCountMarks(history: seq<CycleRecord>, rendered: string)
    ensures |Occurrences(history, rendered)| == |MarksOf(history, rendered)|
  {
    hide Occurrences, MarksOf;
    var ps := OccurrencesAreMarks(history, rendered);
    DistinctSize(ps, MarksOf(history, rendered));
  }

  // ---- The escalator -----------------------------------------------------

  /** Major or above, and with this run at least `threshold` occurrences. */
  predicate Recurs(history: seq<CycleRecord>, f: Finding, threshold: int) {
    f.severity >= MAJOR && |Occurrences(history, f.key.Render())| + 1 >= threshold
  }

  function FirstRecurring(state: ReviewState, findings: seq<Finding>, threshold: int): Option<EscalationEvent> {
    if findings == [] then None
    else if Recurs(state.history, findings[0], threshold) then
      Some(EscalationEvent(findings[0].key,
                           Occurrences(state.history, findings[0].key.Render()) + [state.cycle + 1]))
    else FirstRecurring(state, findings[1..], threshold)
  }

  function Escalation(state: ReviewState, findings: seq<Finding>, threshold: int): Option<EscalationEvent> {
    if state.cycle + 1 < threshold then None else FirstRecurring(state, findings, threshold)
  }

  /** `CycleEscalator.check`. */
  method CheckEscalation(state: ReviewState, findings: seq<Finding>, threshold: int)
    returns (event: Option<EscalationEvent>)
    ensures event == Escalation(state, findings, threshold)
  {
    hide Occurrences, FindingKey.Render;
    var currentCycle := state.cycle + 1;
    if currentCycle < threshold {
      return None;
    }
    var prior := OpenMajorKeys(state);
    for i := 0 to |findings|
      invariant FirstRecurring(state, findings, threshold) == FirstRecurring(state, findings[i..], threshold)
    {
      var finding := findings[i];
      if finding.severity < MAJOR {
        continue;
      }
      var rendered := finding.key.Render();
      var priorCycles := if rendered in prior then prior[rendered] else [];
      assert priorCycles == Get(prior, rendered) == Occurrences(state.history, rendered);
      if |priorCycles| + 1 >= threshold {
        return Some(EscalationEvent(finding.key, priorCycles + [currentCycle]));
      }
    }
    return None;
  }

  lemma {:induction false} FirstRecurringIff(state: ReviewState, findings: seq<Finding>, threshold: int)
    ensures FirstRecurring(state, findings, threshold).Some?
       <==> exists f :: f in findings && Recurs(state.history, f, threshold)
    ensures FirstRecurring(state, findings, threshold).Some? ==>
      var e := FirstRecurring(state, findings, threshold).value;
      && |e.cycles| >= threshold
      && (exists f :: f in findings && f.key == e.key && Recurs(state.history, f, threshold))
      && e.cycles == Occurrences(state.history, e.key.Render()) + [state.cycle + 1]
  {
    if findings != [] {
      assert findings == [findings[0]] + findings[1..];
      if !Recurs(state.history, findings[0], threshold) {
        FirstRecurringIff(state, findings[1..], threshold);
        assert forall f :: f in findings <==> f == findings[0] || f in findings[1..];
      }
    }
  }

  /** On every history: it fires iff the cycle has come and the key of some finding that is
      Major or graver has, with this finding, as many marks as the threshold. */
  lemma EscalationIff(state: ReviewState, findings: seq<Finding>, threshold: int)
    ensures Escalation(state, findings, threshold).Some?
       <==> && state.cycle + 1 >= threshold
            && exists i | 0 <= i < |findings| ::
                 && findings[i].severity >= MAJOR
                 && |MarksOf(state.history, findings[i].key.Render())| + 1 >= threshold
    ensures Escalation(state, findings, threshold).Some? && threshold >= 2 ==>
      |Escalation(state, findings, threshold).value.cycles| >= 2
  {
    hide FirstRecurring, MarksOf, Occurrences, FindingKey.Render;
    FirstRecurringIff(state, findings, threshold);
    forall rendered ensures |Occurrences(state.history, rendered)| == |MarksOf(state.history, rendered)| {
      OccurrencesCountMarks(state.history, rendered);
    }
    if f :| f in findings && Recurs(state.history, f, threshold) {
      var i :| 0 <= i < |findings| && findings[i] == f;
    }
    if i :| 0 <= i < |findings| && findings[i].severity >= MAJOR
            && |MarksOf(state.history, findings[i].key.Render())| + 1 >= threshold {
      assert findings[i] in findings && Recurs(state.history, findings[i], threshold);
    }
  }

  /** The event names the first such finding, and the cycles of its marks and this one. */
  lemma EventIsFirst(state: ReviewState, findings: seq<Finding>, threshold: int) returns (i: nat, ps: seq<(nat, nat)>)
    requires Escalation(state, findings, threshold).Some?
    ensures var e := Escalation(state, findings, threshold).value;
      && i < |findings| && findings[i].severity >= MAJOR && e.key == findings[i].key
      && AreMarks(ps, state.history, e.key.Render()) && |ps| + 1 == |e.cycles| >= threshold
      && (forall t | 0 <= t < |ps| :: ps[t].0 < |state.history| && e.cycles[t] == state.history[ps[t].0].cycle)
      && e.cycles[|ps|] == state.cycle + 1
    ensures forall k | 0 <= k < i :: findings[k].severity >= MAJOR ==>
      |MarksOf(state.history, findings[k].key.Render())| + 1 < threshold
  {
    hide MarksOf, AreMarks, Occurrences, FindingKey.Render, FirstRecurring;
    i := FirstRecurringAt(state, findings, threshold);
    ps := OccurrencesAreMarks(state.history, findings[i].key.Render());
    forall k | 0 <= k < i && findings[k].severity >= MAJOR
      ensures |MarksOf(state.history, findings[k].key.Render())| + 1 < threshold
    {
      OccurrencesCountMarks(state.history, findings[k].key.Render());
      assert !Recurs(state.history, findings[k], threshold);
    }
  }

  lemma {:induction false} FirstRecurringAt(state: ReviewState, findings: seq<Finding>, threshold: int)
    returns (i: nat)
    requires FirstRecurring(state, findings, threshold).Some?
    ensures i < |findings| && Recurs(state.history, findings[i], threshold)
    ensures forall k | 0 <= k < i :: !Recurs(state.history, findings[k], threshold)
    ensures FirstRecurring(state, findings, threshold).value == EscalationEvent(findings[i].key,
      Occurrences(state.history, findings[i].key.Render()) + [state.cycle + 1])
  {
    hide Recurs, Occurrences, FindingKey.Render;
    if Recurs(state.history, findings[0], threshold) {
      i := 0;
    } else {
      var j := FirstRecurringAt(state, findings[1..], threshold);
      i := j + 1;
      forall k | 0 <= k < i ensures !Recurs(state.history, findings[k], threshold) {
        if k > 0 { assert findings[k] == findings[1..][k - 1]; }
      }
    }
  }

  /** The history without the findings that are addressed, disputed or waived. */
  ghost predicate IsOpenPart(part: seq<CycleRecord>, history: seq<CycleRecord>) {
    && |part| == |history|
    && forall i | 0 <= i < |history| ::
         && part[i].cycle == history[i].cycle
         && IsSelection(part[i].findings, history[i].findings, (f: HistoricalFinding) => f.disposition == Open)
  }

  lemma {:induction false} ListingOfSelection(part: seq<HistoricalFinding>, findings: seq<HistoricalFinding>,
                                              cycle: int, rendered: string)
    requires IsSelection(part, findings, (f: HistoricalFinding) => f.disposition == Open)
    ensures Listing(part, cycle, rendered) == Listing(findings, cycle, rendered)
  {
    hide FindingKey.Render;
    var open := (f: HistoricalFinding) => f.disposition == Open;
    if findings == [] {
      SelectionOfNothing(part, open);
    } else {
      var n := |findings| - 1;
      SelectionStep(part, findings, open);
      if findings[n].disposition == Open {
        ListingOfSelection(part[..|part| - 1], findings[..n], cycle, rendered);
      } else {
        ListingOfSelection(part, findings[..n], cycle, rendered);
      }
    }
  }

  lemma {:induction false} OccurrencesOfOpenPart(part: seq<CycleRecord>, history: seq<CycleRecord>, rendered: string)
    requires IsOpenPart(part, history)
    ensures Occurrences(part, rendered) == Occurrences(history, rendered)
  {
    hide Listing, IsSelection;
    if history != [] {
      var n := |history| - 1;
      OccurrencesOfOpenPart(part[..n], history[..n], rendered);
      ListingOfSelection(part[n].findings, history[n].findings, history[n].cycle, rendered);
    }
  }

  /** What is no longer open plays no part in any decision of the escalator. */
  lemma {:induction false} OnlyOpenCounts(state: ReviewState, part: seq<CycleRecord>, findings: seq<Finding>,
                                          threshold: int)
    requires IsOpenPart(part, state.history)
    ensures Escalation(state.(history := part), findings, threshold) == Escalation(state, findings, threshold)
  {
    hide IsOpenPart, Occurrences;
    forall rendered ensures Occurrences(part, rendered) == Occurrences(state.history, rendered) {
      OccurrencesOfOpenPart(part, state.history, rendered);
    }
    SameOccurrencesSameEvent(state, part, findings, threshold);
  }

  lemma {:induction false} SameOccurrencesSameEvent(state: ReviewState, part: seq<CycleRecord>,
                                                    findings: seq<Finding>, threshold: int)
    requires forall rendered :: Occurrences(part, rendered) == Occurrences(state.history, rendered)
    ensures FirstRecurring(state.(history := part), findings, threshold) == FirstRecurring(state, findings, threshold)
  {
    hide Occurrences, FindingKey.Render;
    if findings != [] {
      SameOccurrencesSameEvent(state, part, findings[1..], threshold);
    }
  }

  // ---- Whole runs --------------------------------------------------------

  /** What a published run records about its findings. */
  function Recorded(findings: seq<Finding>): (r: seq<HistoricalFinding>)
    ensures |r| == |findings|
    ensures forall i | 0 <= i < |r| ::
      r[i] == HistoricalFinding(findings[i].key, findings[i].severity, Open, findings[i].summary)
  {
    seq(|findings|, i requires 0 <= i < |findings| =>
      HistoricalFinding(findings[i].key, findings[i].severity, Open, findings[i].summary))
  }

  /** The state after a sequence of published runs from scratch, dispositions untouched. */
  ghost predicate IsStateAfter(state: ReviewState, runs: seq<seq<Finding>>) {
    && state.cycle == |runs| == |state.history|
    && forall i | 0 <= i < |runs| ::
         state.history[i].cycle == i + 1 && state.history[i].findings == Recorded(runs[i])
  }

  ghost predicate HasMajor(findings: seq<Finding>, key: FindingKey) {
    exists i | 0 <= i < |findings| :: findings[i].key == key && findings[i].severity >= MAJOR
  }

  /** In how many of the runs the key was found at Major or above. */
  ghost function MajorRuns(runs: seq<seq<Finding>>, key: FindingKey): nat {
    if runs == [] then 0
    else MajorRuns(runs[..|runs| - 1], key) + (if HasMajor(runs[|runs| - 1], key) then 1 else 0)
  }

  ghost predicate DistinctKeys(findings: seq<Finding>) {
    forall i, j | 0 <= i < j < |findings| :: findings[i].key != findings[j].key
  }

  ghost predicate ValidKeys(findings: seq<Finding>) {
    forall i | 0 <= i < |findings| :: findings[i].key.Valid()
  }

  ghost predicate ProperRuns(runs: seq<seq<Finding>>) {
    forall i | 0 <= i < |runs| :: DistinctKeys(runs[i]) && ValidKeys(runs[i])
  }

  lemma HasMajorStep(findings: seq<Finding>, key: FindingKey)
    requires findings != []
    ensures var init, f := findings[..|findings| - 1], findings[|findings| - 1];
      && (HasMajor(findings, key) <==> HasMajor(init, key) || (f.key == key && f.severity >= MAJOR))
      && (DistinctKeys(findings) && HasMajor(init, key) ==> f.key != key)
  {
    var init := findings[..|findings| - 1];
    assert forall i | 0 <= i < |init| :: init[i] == findings[i];
  }

  /** Listing a record by rendered key is listing it by key. */
  lemma {:induction false} ListingOfRun(findings: seq<Finding>, cycle: int, key: FindingKey)
    requires ValidKeys(findings) && key.Valid() && DistinctKeys(findings)
    ensures Listing(Recorded(findings), cycle, key.Render()) == if HasMajor(findings, key) then [cycle] else []
  {
    if findings != [] {
      var n := |findings| - 1;
      var init, f := findings[..n], findings[n];
      assert Recorded(findings)[..n] == Recorded(init);
      assert DistinctKeys(init);
      HasMajorStep(findings, key);
      hide FindingKey.Render, FindingKey.Valid, DistinctKeys, HasMajor;
      ListingOfRun(init, cycle, key);
      RenderIsInjective(f.key, key);
    }
  }

  /** `cycles` are the runs with that key at Major or above, ascending. */
  ghost predicate AreMajorCycles(cycles: seq<int>, runs: seq<seq<Finding>>, key: FindingKey) {
    && |cycles| == MajorRuns(runs, key) <= |runs|
    && (forall i | 0 <= i < |cycles| :: 1 <= cycles[i] <= |runs| && HasMajor(runs[cycles[i] - 1], key))
    && (forall i, j | 0 <= i < j < |cycles| :: cycles[i] < cycles[j])
  }

  lemma MajorCyclesStep(cycles: seq<int>, runs: seq<seq<Finding>>, findings: seq<Finding>, key: FindingKey)
    requires AreMajorCycles(cycles, runs, key)
    ensures AreMajorCycles(cycles + (if HasMajor(findings, key) then [|runs| + 1] else []),
                           runs + [findings], key)
  {
    hide HasMajor;
    assert (runs + [findings])[..|runs|] == runs;
  }

  lemma LastRecord(state: ReviewState, runs: seq<seq<Finding>>) returns (record: CycleRecord)
    requires IsStateAfter(state, runs) && runs != []
    ensures var n := |runs| - 1;
      && |state.history| == n + 1 && state.history == state.history[..n] + [record]
      && IsStateAfter(ReviewState(state.artifactId, n, state.history[..n]), runs[..n])
      && record.cycle == n + 1 && record.findings == Recorded(runs[n])
  {
    hide Recorded;
    record := state.history[|runs| - 1];
  }

  lemma {:induction false} OccurrencesOfRuns(state: ReviewState, runs: seq<seq<Finding>>, key: FindingKey)
    requires IsStateAfter(state, runs) && ProperRuns(runs) && key.Valid()
    ensures AreMajorCycles(Occurrences(state.history, key.Render()), runs, key)
    decreases |runs|
  {
    if runs != [] {
      var n := |runs| - 1;
      var init := runs[..n];
      var record := LastRecord(state, runs);
      var before := ReviewState(state.artifactId, n, state.history[..n]);
      assert runs == init + [runs[n]];
      assert ProperRuns(init) && DistinctKeys(runs[n]) && ValidKeys(runs[n]);
      hide *;
      OccurrencesOfRuns(before, init, key);
      OccurrencesStep(before.history, record, key.Render());
      ListingOfRun(runs[n], n + 1, key);
      MajorCyclesStep(Occurrences(before.history, key.Render()), init, runs[n], key);
    } else {
      assert state.history == [];
    }
  }

  /** A key recurs for the escalator iff it is a Major for at least the threshold's time. */
  lemma RecursOverRuns(state: ReviewState, runs: seq<seq<Finding>>, findings: seq<Finding>, threshold: int)
    requires IsStateAfter(state, runs) && ProperRuns(runs) && ValidKeys(findings)
    ensures (exists f :: f in findings && Recurs(state.history, f, threshold))
       <==> exists key :: HasMajor(findings, key) && MajorRuns(runs, key) + 1 >= threshold
  {
    hide FindingKey.Render, FindingKey.Valid, Occurrences, IsStateAfter, ProperRuns, MajorRuns;
    if f :| f in findings && Recurs(state.history, f, threshold) {
      var i :| 0 <= i < |findings| && findings[i] == f;
      assert HasMajor(findings, f.key);
      OccurrencesOfRuns(state, runs, f.key);
    }
    if key :| HasMajor(findings, key) && MajorRuns(runs, key) + 1 >= threshold {
      var i :| 0 <= i < |findings| && findings[i].key == key && findings[i].severity >= MAJOR;
      OccurrencesOfRuns(state, runs, key);
      assert findings[i] in findings && Recurs(state.history, findings[i], threshold);
    }
  }

  /** Escalation over whole runs from scratch. The run after `runs` is stopped iff some
      key is now at Major or above for at least the `threshold`-th time; so never before
      any key's `threshold`-th such run, and at that run and at every later recurrence.
      The cycle guard of the escalator adds nothing to this. */
  lemma EscalationOverRuns(state: ReviewState, runs: seq<seq<Finding>>, findings: seq<Finding>, threshold: int)
    requires IsStateAfter(state, runs) && ProperRuns(runs) && ValidKeys(findings)
    ensures Escalation(state, findings, threshold).Some?
       <==> exists key :: HasMajor(findings, key) && MajorRuns(runs, key) + 1 >= threshold
  {
    hide FirstRecurring, Recurs, FindingKey.Valid, FindingKey.Render;
    FirstRecurringIff(state, findings, threshold);
    RecursOverRuns(state, runs, findings, threshold);
    if key :| HasMajor(findings, key) && MajorRuns(runs, key) + 1 >= threshold {
      var i :| 0 <= i < |findings| && findings[i].key == key;
      OccurrencesOfRuns(state, runs, key);
    }
  }

  lemma AppendCurrent(prior: seq<int>, runs: seq<seq<Finding>>, key: FindingKey)
    requires AreMajorCycles(prior, runs, key)
    ensures var cycles := prior + [|runs| + 1];
      && |cycles| == MajorRuns(runs, key) + 1
      && cycles[|cycles| - 1] == |runs| + 1
      && (forall i, j | 0 <= i < j < |cycles| :: cycles[i] < cycles[j])
      && (forall i | 0 <= i < |cycles| - 1 ::
            1 <= cycles[i] <= |runs| && HasMajor(runs[cycles[i] - 1], key))
  {
    hide HasMajor, MajorRuns;
  }

  lemma EventOf(state: ReviewState, findings: seq<Finding>, threshold: int) returns (e: EscalationEvent)
    requires Escalation(state, findings, threshold).Some? && ValidKeys(findings)
    ensures e == Escalation(state, findings, threshold).value
    ensures HasMajor(findings, e.key) && e.key.Valid() && |e.cycles| >= threshold
    ensures e.cycles == Occurrences(state.history, e.key.Render()) + [state.cycle + 1]
  {
    hide FirstRecurring, Occurrences, FindingKey.Valid, FindingKey.Render;
    FirstRecurringIff(state, findings, threshold);
    e := Escalation(state, findings, threshold).value;
    var f :| f in findings && f.key == e.key && Recurs(state.history, f, threshold);
    var i :| 0 <= i < |findings| && findings[i] == f;
    assert findings[i].key == e.key;
  }

  lemma CyclesAreRuns(state: ReviewState, runs: seq<seq<Finding>>)
    requires IsStateAfter(state, runs)
    ensures state.cycle == |runs|
  {
  }

  /** The reported cycles are the runs that carried the key at Major or above: strictly
      increasing, at least `threshold` of them, ending in the current one. */
  lemma ReportedCycles(state: ReviewState, runs: seq<seq<Finding>>, findings: seq<Finding>, threshold: int)
    requires IsStateAfter(state, runs) && ProperRuns(runs) && ValidKeys(findings)
    requires Escalation(state, findings, threshold).Some?
    ensures var e := Escalation(state, findings, threshold).value;
      && HasMajor(findings, e.key)
      && |e.cycles| == MajorRuns(runs, e.key) + 1 >= threshold
      && e.cycles[|e.cycles| - 1] == |runs| + 1
      && (forall i, j | 0 <= i < j < |e.cycles| :: e.cycles[i] < e.cycles[j])
      && (forall i | 0 <= i < |e.cycles| - 1 ::
            1 <= e.cycles[i] <= |runs| && HasMajor(runs[e.cycles[i] - 1], e.key))
  {
    hide *;
    CyclesAreRuns(state, runs);
    var e := EventOf(state, findings, threshold);
    OccurrencesOfRuns(state, runs, e.key);
    AppendCurrent(Occurrences(state.history, e.key.Render()), runs, e.key);
  }

  const GAP: FindingKey := FindingKey("D1", "gap")
  const GAP_FINDING: Finding := Finding("F1", Llm, MAJOR, MAJOR, "x", [], [], [], "", GAP, [])
  const TWICE: seq<Finding> := [GAP_FINDING, GAP_FINDING]
  const TWO_RUNS: seq<seq<Finding>> := [TWICE, []]

  function AfterTwoRuns(): ReviewState {
    ReviewState("a", 2, [CycleRecord(1, 0, Conformance, "", "", Recorded(TWICE)),
                         CycleRecord(2, 0, Conformance, "", "", Recorded([]))])
  }

  lemma GapIsListedTwice()
    ensures Occurrences(AfterTwoRuns().history, GAP.Render()) == [1, 1]
  {
    var h := HistoricalFinding(GAP, MAJOR, Open, "x");
    var history, k := AfterTwoRuns().history, GAP.Render();
    assert Recorded(TWICE) == [h, h];
    hide FindingKey.Render;
    assert [h, h][..1] == [h] && [h][..0] == [];
    assert Listing([h], 1, k) == [1];
    assert Listing([h, h], 1, k) == [1, 1];
    hide Listing;
    assert history[..1] == [history[0]] && [history[0]][..0] == [];
    assert Occurrences([history[0]], k) == [1, 1];
    assert Listing(Recorded([]), 2, k) == [] by { NothingListed(2, k); }
  }

  lemma NothingListed(cycle: int, rendered: string)
    ensures Listing(Recorded([]), cycle, rendered) == []
  {
  }

  lemma GapStopsTheThird()
    ensures Escalation(AfterTwoRuns(), [GAP_FINDING], 3) == Some(EscalationEvent(GAP, [1, 1, 3]))
  {
    GapIsListedTwice();
    hide Occurrences, FindingKey.Render;
    assert [1, 1] + [2 + 1] == [1, 1, 3];
    assert Recurs(AfterTwoRuns().history, GAP_FINDING, 3);
  }

  lemma GapIsInTwoRuns()
    ensures HasMajor([GAP_FINDING], GAP) && MajorRuns(TWO_RUNS + [[GAP_FINDING]], GAP) == 2
  {
    assert HasMajor([GAP_FINDING], GAP) by { assert [GAP_FINDING][0].key == GAP; }
    assert HasMajor(TWICE, GAP) by { assert TWICE[0].key == GAP; }
    assert !HasMajor([], GAP);
    hide HasMajor;
    assert (TWO_RUNS + [[GAP_FINDING]])[..2] == TWO_RUNS && TWO_RUNS[..1] == [TWICE] && [TWICE][..0] == [];
    assert MajorRuns([TWICE], GAP) == 1;
    assert MajorRuns(TWO_RUNS, GAP) == 1;
  }

  lemma TwoRunsAreValid()
    ensures IsStateAfter(AfterTwoRuns(), TWO_RUNS) && ValidRuns(TWO_RUNS) && ValidKeys([GAP_FINDING])
  {
  }

  /** Repeated keys inside one cycle count twice: with threshold 3 a key seen in two runs
      only, twice in the first, already stops the third. */
  lemma RepeatedKeysStopEarly()
    ensures exists state: ReviewState, runs: seq<seq<Finding>>, findings: seq<Finding>, key: FindingKey ::
      && IsStateAfter(state, runs) && ValidRuns(runs) && ValidKeys(findings) && HasMajor(findings, key)
      && MajorRuns(runs + [findings], key) == 2
      && Escalation(state, findings, 3) == Some(EscalationEvent(key, [1, 1, 3]))
  {
    hide *;
    TwoRunsAreValid();
    GapIsInTwoRuns();
    GapStopsTheThird();
  }

  // ---- Runs that repeat a key --------------------------------------------

  /** How many of the findings carry the key at Major or above. */
  ghost function MajorCount(findings: seq<Finding>, key: FindingKey): nat {
    if findings == [] then 0
    else
      var f := findings[|findings| - 1];
      MajorCount(findings[..|findings| - 1], key) + (if f.key == key && f.severity >= MAJOR then 1 else 0)
  }

  ghost function MajorFindings(runs: seq<seq<Finding>>, key: FindingKey): nat {
    if runs == [] then 0
    else MajorFindings(runs[..|runs| - 1], key) + MajorCount(runs[|runs| - 1], key)
  }

  ghost predicate ValidRuns(runs: seq<seq<Finding>>) {
    forall i | 0 <= i < |runs| :: ValidKeys(runs[i])
  }

  lemma {:induction false} ListingCounts(findings: seq<Finding>, cycle: int, key: FindingKey)
    requires ValidKeys(findings) && key.Valid()
    ensures |Listing(Recorded(findings), cycle, key.Render())| == MajorCount(findings, key)
  {
    if findings != [] {
      var n := |findings| - 1;
      ListingCounts(findings[..n], cycle, key);
      assert Recorded(findings)[..n] == Recorded(findings[..n]);
      RenderIsInjective(findings[n].key, key);
      hide FindingKey.Render, FindingKey.Valid;
    }
  }

  lemma {:induction false} OccurrencesCount(state: ReviewState, runs: seq<seq<Finding>>, key: FindingKey)
    requires IsStateAfter(state, runs) && ValidRuns(runs) && key.Valid()
    ensures |Occurrences(state.history, key.Render())| == MajorFindings(runs, key)
    decreases |runs|
  {
    if runs != [] {
      var n := |runs| - 1;
      var record := LastRecord(state, runs);
      var before := ReviewState(state.artifactId, n, state.history[..n]);
      hide FindingKey.Render, FindingKey.Valid, Listing, Recorded, MajorCount, IsStateAfter, ValidKeys;
      OccurrencesCount(before, runs[..n], key);
      OccurrencesStep(before.history, record, key.Render());
      ListingCounts(runs[n], n + 1, key);
    } else {
      assert state.history == [];
    }
  }

  /** What the escalator does after any runs from scratch: it counts findings, not runs,
      but never lets more than one count for each run. */
  lemma EscalationCounts(state: ReviewState, runs: seq<seq<Finding>>, findings: seq<Finding>, threshold: int)
    requires IsStateAfter(state, runs) && ValidRuns(runs) && ValidKeys(findings)
    ensures Escalation(state, findings, threshold).Some?
       <==> exists key :: HasMajor(findings, key) && MajorFindings(runs, key) + 1 >= threshold
                          && |runs| + 1 >= threshold
  {
    hide FindingKey.Render, FindingKey.Valid, Occurrences, ValidRuns, MajorFindings, FirstRecurring;
    FirstRecurringIff(state, findings, threshold);
    if f :| f in findings && Recurs(state.history, f, threshold) {
      var i :| 0 <= i < |findings| && findings[i] == f;
      assert HasMajor(findings, f.key);
      OccurrencesCount(state, runs, f.key);
    }
    if key :| HasMajor(findings, key) && MajorFindings(runs, key) + 1 >= threshold && |runs| + 1 >= threshold {
      var i :| 0 <= i < |findings| && findings[i].key == key && findings[i].severity >= MAJOR;
      OccurrencesCount(state, runs, key);
      assert findings[i] in findings && Recurs(state.history, findings[i], threshold);
    }
  }

  lemma {:induction false} HasMajorIffCounted(findings: seq<Finding>, key: FindingKey)
    ensures HasMajor(findings, key) <==> MajorCount(findings, key) >= 1
  {
    if findings != [] {
      var n := |findings| - 1;
      HasMajorIffCounted(findings[..n], key);
      assert forall i | 0 <= i < n :: findings[..n][i] == findings[i];
    }
  }

  /** No run repeats the key at Major or above, or no run is without it. */
  ghost predicate RepeatsAreHarmless(runs: seq<seq<Finding>>, key: FindingKey) {
    || (forall i | 0 <= i < |runs| :: MajorCount(runs[i], key) <= 1)
    || (forall i | 0 <= i < |runs| :: MajorCount(runs[i], key) >= 1)
  }

  lemma {:induction false} CountsCompared(runs: seq<seq<Finding>>, key: FindingKey)
    ensures MajorRuns(runs, key) <= |runs| && MajorRuns(runs, key) <= MajorFindings(runs, key)
    ensures MajorRuns(runs, key) == |runs|
       <==> forall i | 0 <= i < |runs| :: MajorCount(runs[i], key) >= 1
    ensures MajorRuns(runs, key) == MajorFindings(runs, key)
       <==> forall i | 0 <= i < |runs| :: MajorCount(runs[i], key) <= 1
  {
    hide MajorCount, HasMajor;
    if runs != [] {
      var n := |runs| - 1;
      CountsCompared(runs[..n], key);
      HasMajorIffCounted(runs[n], key);
      assert forall i | 0 <= i < n :: runs[..n][i] == runs[i];
    }
  }

  /** After these runs, whatever comes next and whatever the threshold, a stop means that
      some key is at Major or above in that many runs. */
  ghost predicate StopsByRuns(state: ReviewState, runs: seq<seq<Finding>>) {
    forall findings: seq<Finding>, threshold: int | ValidKeys(findings) ::
      Escalation(state, findings, threshold).Some?
      <==> exists key :: HasMajor(findings, key) && MajorRuns(runs, key) + 1 >= threshold
  }

  /** The escalator counts runs exactly when no key is repeated inside one run while
      absent from another. */
  lemma StopsByRunsIff(state: ReviewState, runs: seq<seq<Finding>>)
    requires IsStateAfter(state, runs) && ValidRuns(runs)
    ensures StopsByRuns(state, runs) <==> forall key: FindingKey | key.Valid() :: RepeatsAreHarmless(runs, key)
  {
    hide Escalation, MajorFindings, MajorRuns, MajorCount, FindingKey.Valid, IsStateAfter, ValidRuns;
    if forall key: FindingKey | key.Valid() :: RepeatsAreHarmless(runs, key) {
      forall findings: seq<Finding>, threshold: int | ValidKeys(findings)
        ensures Escalation(state, findings, threshold).Some?
           <==> exists key :: HasMajor(findings, key) && MajorRuns(runs, key) + 1 >= threshold
      {
        HarmlessStops(state, runs, findings, threshold);
      }
    }
    if StopsByRuns(state, runs) {
      forall key: FindingKey | key.Valid() ensures RepeatsAreHarmless(runs, key) {
        StopsTellRepeats(state, runs, key);
      }
    }
  }

  lemma HarmlessStops(state: ReviewState, runs: seq<seq<Finding>>, findings: seq<Finding>, threshold: int)
    requires IsStateAfter(state, runs) && ValidRuns(runs) && ValidKeys(findings)
    requires forall key: FindingKey | key.Valid() :: RepeatsAreHarmless(runs, key)
    ensures Escalation(state, findings, threshold).Some?
       <==> exists key :: HasMajor(findings, key) && MajorRuns(runs, key) + 1 >= threshold
  {
    hide Escalation, MajorFindings, MajorRuns, MajorCount, FindingKey.Valid, IsStateAfter, ValidRuns;
    EscalationCounts(state, runs, findings, threshold);
    forall key | HasMajor(findings, key)
      ensures MajorRuns(runs, key) + 1 >= threshold
         <==> MajorFindings(runs, key) + 1 >= threshold && |runs| + 1 >= threshold
    {
      var i :| 0 <= i < |findings| && findings[i].key == key;
      CountsCompared(runs, key);
    }
  }

  lemma StopsTellRepeats(state: ReviewState, runs: seq<seq<Finding>>, key: FindingKey)
    requires IsStateAfter(state, runs) && ValidRuns(runs) && StopsByRuns(state, runs) && key.Valid()
    ensures RepeatsAreHarmless(runs, key)
  {
    var f := Finding("F1", Llm, MAJOR, MAJOR, "x", [], [], [], "", key, []);
    var counted := MajorFindings(runs, key);
    var threshold := (if counted < |runs| then counted else |runs|) + 1;
    assert [f][0] == f;
    assert ValidKeys([f]) && HasMajor([f], key);
    hide Escalation, MajorFindings, MajorRuns, MajorCount, FindingKey.Valid, IsStateAfter, ValidRuns;
    EscalationCounts(state, runs, [f], threshold);
    CountsCompared(runs, key);
  }

  /** An advisory run with a cap below Major never contributes to any key. */
  lemma AdvisoryNeverContributes(table: OracleTable, findings: seq<Finding>, key: FindingKey)
    requires table.advisorySeverityCap < MAJOR
    ensures !HasMajor(CappedAll(table, findings, Advisory), key)
  {
  }
}
