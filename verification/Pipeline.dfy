/** The review run (harness/pipeline.py, ReviewPipeline._run): classify, sweep, then
    synthesize, verify and repair until the log is clean or the budget is spent. The
    model is an arbitrary tape of replies, one for each backend call the run makes. Every
    part ends exactly where module Replay says, and keeps what its contract adds. */
module Pipeline {
  import opened Wrappers
  import opened Text
  import opened Findings
  import opened Oracle
  import opened SeverityPolicy
  import opened Sweeps
  import opened Transcript
  import opened Verification
  import opened Repair
  import opened History
  import opened FrontMatter
  import opened Assembly
  import opened Replay
  import Consistency

  // ---- The backend and the working set -----------------------------------

  /** The row's disposition is an accepted answer to a row call, perhaps relabelled. */
  ghost predicate RowAnswered(tape: nat -> Reply, n: nat, d: RowDisposition, id: string) {
    exists a :: WasAnswered(tape, n, ROW, RowPayload(a)) && (d == a || d == a.(rowId := id))
  }

  /** Everything in the working set is an accepted answer among the first `n` calls. */
  ghost predicate FromTape(tape: nat -> Reply, n: nat, snap: Snapshot) {
    && (forall id | id in snap.rows :: RowAnswered(tape, n, snap.rows[id], id))
    && (snap.sourceQuality.Some? ==>
          WasAnswered(tape, n, SOURCE_QUALITY, SourceQualityPayload(snap.sourceQuality.value)))
    && (snap.judgement.Some? ==> WasAnswered(tape, n, JUDGEMENT, JudgementPayload(snap.judgement.value)))
    && (snap.synthesis.Some? ==> WasAnswered(tape, n, SYNTHESIS, SynthesisPayload(snap.synthesis.value)))
  }

  lemma WasAnsweredGrows(tape: nat -> Reply, n: nat, m: nat, kind: CallKind, payload: Payload)
    requires WasAnswered(tape, n, kind, payload) && n <= m
    ensures WasAnswered(tape, m, kind, payload)
  {
  }

  lemma RowAnsweredGrows(tape: nat -> Reply, n: nat, m: nat, d: RowDisposition, id: string)
    requires RowAnswered(tape, n, d, id) && n <= m
    ensures RowAnswered(tape, m, d, id)
  {
    var a :| WasAnswered(tape, n, ROW, RowPayload(a)) && (d == a || d == a.(rowId := id));
    WasAnsweredGrows(tape, n, m, ROW, RowPayload(a));
  }

  lemma FromTapeGrows(tape: nat -> Reply, n: nat, m: nat, snap: Snapshot)
    requires FromTape(tape, n, snap) && n <= m
    ensures FromTape(tape, m, snap)
  {
    hide RowAnswered, Accepted;
    forall id | id in snap.rows { RowAnsweredGrows(tape, n, m, snap.rows[id], id); }
  }

  /** At most so many backend calls for that many typed calls. */
  function Budget(typed: nat, attempts: nat): nat {
    typed * attempts
  }

  lemma OneMore(typed: nat, attempts: nat)
    ensures Budget(typed + 1, attempts) == Budget(typed, attempts) + attempts
  {
  }

  /** `_SweepState`, with the backend it draws on. */
  class SweepState {
    const tape: nat -> Reply
    var asked: nat          // backend calls made so far
    ghost var typed: nat    // typed calls made so far
    var rows: map<string, RowDisposition>
    var synthesis: Option<SynthesisResult>
    var sourceQuality: Option<SourceQualityResult>
    var judgement: Option<JudgementSweepResult>
    var evidence: seq<ToolEvidence>
    var calls: seq<CallLog>

    constructor (tape: nat -> Reply)
      ensures this.tape == tape && asked == typed == 0
      ensures rows == map[] && synthesis.None? && sourceQuality.None? && judgement.None?
      ensures evidence == [] && calls == []
    {
      this.tape := tape;
      asked, typed, rows := 0, 0, map[];
      synthesis, sourceQuality, judgement := None, None, None;
      evidence, calls := [], [];
    }

    function Snap(): Snapshot
      reads this
    {
      Snapshot(rows, sourceQuality, judgement, synthesis)
    }

    /** The evidence list is that of all calls so far, the working set holds their answers,
        and the budget holds so far. */
    ghost predicate Traced(attempts: nat)
      reads this
    {
      && evidence == EvidenceUpTo(tape, asked)
      && FromTape(tape, asked, Snap())
      && asked <= Budget(typed, attempts)
    }
  }

  function Logged(kind: CallKind, ref: string, n: nat): (r: seq<CallLog>)
    ensures |r| == n
  {
    seq(n, _ => CallLog(kind, ref))
  }

  /** How many of the calls from `lo` up to `hi` returned a payload, accepted or not. */
  function Returned(tape: nat -> Reply, lo: nat, hi: nat): nat
    requires lo <= hi
    decreases hi
  {
    if lo == hi then 0
    else
      var reply := tape(hi - 1);
      Returned(tape, lo, hi - 1) + (if reply.Stream? && AnswerOf(reply.messages).Ok? then 1 else 0)
  }

  lemma ReturnedStep(tape: nat -> Reply, lo: nat, hi: nat)
    requires lo <= hi
    ensures Returned(tape, lo, hi + 1)
         == Returned(tape, lo, hi) + (if tape(hi).Stream? && AnswerOf(tape(hi).messages).Ok? then 1 else 0)
    ensures Returned(tape, lo, lo) == 0
  {
    hide AnswerOf;
  }

  lemma AskStep(tape: nat -> Reply, at: nat, kind: CallKind, attempts: nat)
    requires attempts > 0
    ensures var reply := tape(at);
      Ask(tape, at, kind, attempts)
      == if reply.TransportFails? then (Err(LlmTransport), at + 1)
         else if AnswerOf(reply.messages).Err? then (Err(LlmOutput), at + 1)
         else if Parses(kind, AnswerOf(reply.messages).value) then (Ok(AnswerOf(reply.messages).value), at + 1)
         else Ask(tape, at + 1, kind, attempts - 1)
    ensures EvidenceUpTo(tape, at + 1) == EvidenceUpTo(tape, at) + EvidenceIn(tape(at))
  {
    hide AnswerOf, EvidenceIn, Parses;
  }

  lemma NoAttemptsLeft(tape: nat -> Reply, at: nat, kind: CallKind)
    ensures Ask(tape, at, kind, 0) == (Err(LlmOutput), at)
  {
  }

  /** `_call`: one typed call, asked again while the answer does not fit its schema. */
  method Call(deps: Deps, sweep: SweepState, kind: CallKind, ref: string) returns (r: Result<Payload, RunError>)
    requires sweep.Traced(Attempts(deps))
    modifies sweep`asked, sweep`typed, sweep`evidence, sweep`calls
    ensures sweep.Traced(Attempts(deps))
    ensures sweep.typed == old(sweep.typed) + 1
    ensures old(sweep.asked) <= sweep.asked
    ensures (r, sweep.asked) == Ask(sweep.tape, old(sweep.asked), kind, Attempts(deps))
    ensures r.Ok? ==> Parses(kind, r.value) && Attempts(deps) > 0
    ensures r.Ok? ==> WasAnswered(sweep.tape, sweep.asked, kind, r.value)
    ensures sweep.calls
         == old(sweep.calls) + Logged(kind, ref, Returned(sweep.tape, old(sweep.asked), sweep.asked))
    ensures r.Ok? ==> Returned(sweep.tape, old(sweep.asked), sweep.asked) == sweep.asked - old(sweep.asked)
    ensures r.Err? ==> r.error.LlmOutput? || r.error.LlmTransport?
  {
    hide Budget, AnswerOf, EvidenceOf, Blocks, FromTape, WasAnswered, Payload.Valid, Ask, EvidenceUpTo, Returned;
    var attempts := Attempts(deps);
    OneMore(sweep.typed, attempts);
    AskWasAnswered(sweep.tape, sweep.asked, kind, attempts);
    FromTapeGrows(sweep.tape, sweep.asked, Ask(sweep.tape, sweep.asked, kind, attempts).1, sweep.Snap());
    ReturnedStep(sweep.tape, sweep.asked, sweep.asked);
    sweep.typed := sweep.typed + 1;
    for attempt := 0 to attempts
      invariant sweep.typed == old(sweep.typed) + 1
      invariant sweep.evidence == EvidenceUpTo(sweep.tape, sweep.asked)
      invariant sweep.asked == old(sweep.asked) + attempt
      invariant sweep.calls == old(sweep.calls) + Logged(kind, ref, attempt)
      invariant Returned(sweep.tape, old(sweep.asked), sweep.asked) == attempt
      invariant Ask(sweep.tape, old(sweep.asked), kind, attempts)
             == Ask(sweep.tape, sweep.asked, kind, attempts - attempt)
    {
      AskStep(sweep.tape, sweep.asked, kind, attempts - attempt);
      ReturnedStep(sweep.tape, old(sweep.asked), sweep.asked);
      var reply := sweep.tape(sweep.asked);
      sweep.asked := sweep.asked + 1;
      if reply.TransportFails? {
        return Err(LlmTransport);
      }
      var raw := RunAdapter(reply.messages);
      if raw.Err? {
        return Err(LlmOutput);
      }
      sweep.evidence := sweep.evidence + raw.value.evidence;
      sweep.calls := sweep.calls + [CallLog(kind, ref)];
      if Parses(kind, raw.value.payload) {
        return Ok(raw.value.payload);
      }
    }
    NoAttemptsLeft(sweep.tape, sweep.asked, kind);
    return Err(LlmOutput);
  }

  // ---- Classify ----------------------------------------------------------

  method CallClassify(deps: Deps, sweep: SweepState) returns (r: Result<ClassifyResult, RunError>)
    requires sweep.Traced(Attempts(deps))
    modifies sweep`asked, sweep`typed, sweep`evidence, sweep`calls
    ensures sweep.Traced(Attempts(deps)) && sweep.typed == old(sweep.typed) + 1
    ensures r.Ok? ==> Attempts(deps) > 0
    ensures r.Ok? ==> WasAnswered(sweep.tape, sweep.asked, CLASSIFY, ClassifyPayload(r.value))
    ensures r.Ok? ==> Asked(deps, sweep.tape, old(sweep.asked), CLASSIFY) == Go(ClassifyPayload(r.value), sweep.asked)
    ensures r.Err? ==> Asked(deps, sweep.tape, old(sweep.asked), CLASSIFY) == Halt(r.error, sweep.asked)
    ensures r.Err? ==> r.error.LlmOutput? || r.error.LlmTransport?
  {
    hide WasAnswered, FromTape, EvidenceUpTo, Budget, Ask;
    var payload :- Call(deps, sweep, CLASSIFY, "");
    return Ok(payload.classify);
  }

  /** Step 3: the class, asked again once if unknown, and the fail-closed mode, with one
      re-probe if markers appear without a quote. The re-probe's class is not checked here. */
  method ClassifyArtifact(deps: Deps, request: Request, sweep: SweepState)
    returns (r: Result<ClassifyResult, RunError>, mode: ReviewMode, uncertain: bool)
    requires sweep.Traced(Attempts(deps))
    modifies sweep`asked, sweep`typed, sweep`evidence, sweep`calls
    ensures sweep.Traced(Attempts(deps)) && sweep.typed <= old(sweep.typed) + 3
    ensures request.mode.Fixed? ==> sweep.typed <= old(sweep.typed) + 2
    ensures r.Ok? ==> WasAnswered(sweep.tape, sweep.asked, CLASSIFY, ClassifyPayload(r.value))
    ensures r.Ok? ==> (mode, uncertain) == ResolveMode(deps, request, r.value) && Attempts(deps) > 0
    ensures StepOf(r, sweep.asked) == Classified(deps, request, sweep.tape, old(sweep.asked))
    ensures r.Err? ==> !r.error.ReviewFailed?
  {
    hide ResolveMode, WasAnswered, FromTape, EvidenceUpTo, Budget, Asked, Attempts;
    mode, uncertain := Advisory, false;
    r := CallClassify(deps, sweep);
    if r.Err? {
      return;
    }
    if FindClass(deps.oracle.artifactClasses, r.value.artifactClass).None? {
      r := CallClassify(deps, sweep);
      if r.Err? {
        return;
      }
      if FindClass(deps.oracle.artifactClasses, r.value.artifactClass).None? {
        r := Err(LlmOutput);
        return;
      }
    }
    var resolved := ResolveMode(deps, request, r.value);
    mode, uncertain := resolved.0, resolved.1;
    if mode.Advisory? && uncertain && request.mode.Auto? {
      r := CallClassify(deps, sweep);
      if r.Err? {
        return;
      }
      var again := ResolveMode(deps, request, r.value);
      mode := again.0;
      uncertain := mode.Advisory? && again.1;
      OnlyAdvisoryIsUncertain(deps, request, r.value);
    }
  }

  lemma OnlyAdvisoryIsUncertain(deps: Deps, request: Request, classify: ClassifyResult)
    ensures ResolveMode(deps, request, classify).1 ==> ResolveMode(deps, request, classify).0.Advisory?
  {
    hide Contains, MarkersPresent;
  }

  // ---- Row sweep ---------------------------------------------------------

  /** Where the `i`-th of a series of row calls starts on the tape. */
  function RowCallAt(tape: nat -> Reply, at: nat, i: nat, attempts: nat): nat {
    if i == 0 then at else Ask(tape, RowCallAt(tape, at, i - 1, attempts), ROW, attempts).1
  }

  /** The answer to that call. */
  function RowAnswer(tape: nat -> Reply, at: nat, i: nat, attempts: nat): Result<Payload, RunError> {
    Ask(tape, RowCallAt(tape, at, i, attempts), ROW, attempts).0
  }

  /** A new answer keeps the working set answered. */
  lemma FileRow(tape: nat -> Reply, n: nat, snap: Snapshot, id: string, a: RowDisposition, d: RowDisposition)
    requires FromTape(tape, n, snap) && WasAnswered(tape, n, ROW, RowPayload(a))
    requires d == a || d == a.(rowId := id)
    ensures FromTape(tape, n, snap.(rows := snap.rows[id := d]))
  {
    hide WasAnswered;
    assert RowAnswered(tape, n, d, id);
    hide RowAnswered;
  }

  lemma SweptRowsStep(deps: Deps, tape: nat -> Reply, at: nat, rows: map<string, RowDisposition>, i: nat)
    requires i < |deps.oracle.rows|
    ensures var (answer, n) := Ask(tape, at, ROW, Attempts(deps));
      var id := deps.oracle.rows[i].id;
      SweptRows(deps, tape, at, rows, i)
      == if answer.Err? then Halt(answer.error, n)
         else SweptRows(deps, tape, n, rows[id := answer.value.row.(rowId := id)], i + 1)
  {
    hide Ask, Attempts;
  }

  lemma SweptRowsEnd(deps: Deps, tape: nat -> Reply, at: nat, rows: map<string, RowDisposition>)
    ensures SweptRows(deps, tape, at, rows, |deps.oracle.rows|) == Go(rows, at)
  {
  }

  /** Step 6: one call per row, in order; a row answered under another id is filed under
      its own. */
  method SweepRows(deps: Deps, sweep: SweepState) returns (r: Result<(), RunError>)
    requires deps.oracle.Valid()
    requires sweep.Traced(Attempts(deps)) && sweep.rows == map[]
    modifies sweep`asked, sweep`typed, sweep`evidence, sweep`calls, sweep`rows
    ensures sweep.Traced(Attempts(deps)) && sweep.typed <= old(sweep.typed) + |deps.oracle.rows|
    ensures old(sweep.asked) <= sweep.asked
    ensures r.Ok? ==> sweep.rows.Keys == deps.oracle.RowIds()
    ensures r.Ok? ==> forall id | id in sweep.rows :: sweep.rows[id].rowId == id
    ensures r.Ok? ==> forall i | 0 <= i < |deps.oracle.rows| ::
      var answer := RowAnswer(sweep.tape, old(sweep.asked), i, Attempts(deps));
      && answer.Ok? && answer.value.RowPayload? && deps.oracle.rows[i].id in sweep.rows
      && sweep.rows[deps.oracle.rows[i].id] == answer.value.row.(rowId := deps.oracle.rows[i].id)
    ensures SweptRows(deps, sweep.tape, old(sweep.asked), map[], 0)
         == if r.Ok? then Go(sweep.rows, sweep.asked) else Halt(r.error, sweep.asked)
    ensures r.Err? ==> !r.error.ReviewFailed?
  {
    hide EvidenceUpTo, Budget, Payload.Valid, FromTape, WasAnswered, Ask, Attempts, IsRowId, SweptRows, Returned,
      Logged;
    var rows := deps.oracle.rows;
    for i := 0 to |rows|
      invariant sweep.Traced(Attempts(deps)) && sweep.typed == old(sweep.typed) + i
      invariant old(sweep.asked) <= sweep.asked == RowCallAt(sweep.tape, old(sweep.asked), i, Attempts(deps))
      invariant SweptRows(deps, sweep.tape, old(sweep.asked), map[], 0)
             == SweptRows(deps, sweep.tape, sweep.asked, sweep.rows, i)
      invariant sweep.rows.Keys == set k | 0 <= k < i :: rows[k].id
      invariant forall id | id in sweep.rows :: sweep.rows[id].rowId == id
      invariant forall k | 0 <= k < i ::
        var answer := RowAnswer(sweep.tape, old(sweep.asked), k, Attempts(deps));
        && answer.Ok? && answer.value.RowPayload? && rows[k].id in sweep.rows
        && sweep.rows[rows[k].id] == answer.value.row.(rowId := rows[k].id)
    {
      SweptRowsStep(deps, sweep.tape, sweep.asked, sweep.rows, i);
      var payload :- Call(deps, sweep, ROW, rows[i].id);
      var disposition := payload.row;
      if disposition.rowId != rows[i].id {
        disposition := disposition.(rowId := rows[i].id);
      }
      FileRow(sweep.tape, sweep.asked, sweep.Snap(), rows[i].id, payload.row, disposition);
      assert disposition == payload.row.(rowId := rows[i].id);
      sweep.rows := sweep.rows[rows[i].id := disposition];
    }
    SweptRowsEnd(deps, sweep.tape, sweep.asked, sweep.rows);
    return Ok(());
  }

  /** Steps 6 to 8, for a class that sweeps rows; the claims feed the gates. */
  method SweepModel(deps: Deps, sweep: SweepState) returns (r: Result<seq<MeasurementClaim>, RunError>)
    requires deps.oracle.Valid()
    requires sweep.Traced(Attempts(deps)) && sweep.rows == map[]
    modifies sweep`asked, sweep`typed, sweep`evidence, sweep`calls, sweep`rows, sweep`judgement
    ensures sweep.Traced(Attempts(deps)) && sweep.typed <= old(sweep.typed) + |deps.oracle.rows| + 2
    ensures old(sweep.asked) <= sweep.asked
    ensures r.Ok? ==> sweep.rows.Keys == deps.oracle.RowIds() && sweep.judgement.Some?
    ensures r.Ok? ==> WasAnswered(sweep.tape, sweep.asked, CLAIMS, ClaimsPayload(ClaimsResult(r.value)))
    ensures Swept(deps, sweep.tape, old(sweep.asked))
         == if r.Ok? then Go((sweep.rows, r.value, sweep.judgement.value), sweep.asked)
            else Halt(r.error, sweep.asked)
    ensures r.Err? ==> !r.error.ReviewFailed?
  {
    hide WasAnswered, Ask, EvidenceUpTo, Budget, Payload.Valid, RowAnswered, RowAnswer, Attempts, OracleTable.Valid,
      OracleTable.RowIds;
    var _ :- SweepRows(deps, sweep);
    var claims :- Call(deps, sweep, CLAIMS, "");
    ghost var before := sweep.asked;
    var judged :- Call(deps, sweep, JUDGEMENT, "");
    WasAnsweredGrows(sweep.tape, before, sweep.asked, CLAIMS, claims);
    sweep.judgement := Some(judged.judgement);
    return Ok(claims.claims.claims);
  }

  // ---- Assembly ----------------------------------------------------------

  lemma NoRowsNoTags(rows: map<string, RowDisposition>)
    ensures TagRows(rows, []) == []
  {
  }

  lemma TagRowsStep(rows: map<string, RowDisposition>, ids: seq<string>, i: nat)
    requires i < |ids| && forall k | 0 <= k < |ids| :: ids[k] in rows
    ensures TagRows(rows, ids[..i + 1])
         == TagRows(rows, ids[..i]) + TagAll(rows[ids[i]].findings, Some(ids[i]), Llm)
  {
    hide TagAll;
    assert ids[..i + 1][..i] == ids[..i];
  }

  /** The row part of `_assemble_findings`. */
  method CollectRows(rows: map<string, RowDisposition>) returns (tags: seq<Tagged>)
    ensures tags == TagRows(rows, Sorted(rows.Keys))
  {
    hide TagRows, TagAll;
    tags := [];
    var ids := Sorted(rows.Keys);
    assert forall i | 0 <= i < |ids| :: ids[i] in rows by {
      forall i | 0 <= i < |ids| ensures ids[i] in rows { assert ids[i] in ids; }
    }
    hide Sorted;
    assert TagRows(rows, ids[..0]) == [] by { NoRowsNoTags(rows); }
    for i := 0 to |ids|
      invariant tags == TagRows(rows, ids[..i])
    {
      TagRowsStep(rows, ids, i);
      tags := tags + TagAll(rows[ids[i]].findings, Some(ids[i]), Llm);
    }
    assert ids[..|ids|] == ids;
  }

  method CollectOptions(os: seq<Option<CandidateFinding>>) returns (tags: seq<Tagged>)
    ensures tags == TagOptions(os)
  {
    tags := [];
    for i := 0 to |os|
      invariant tags == TagOptions(os[..i])
    {
      assert os[..i + 1][..i] == os[..i];
      if os[i].Some? {
        tags := tags + [Tagged(os[i].value, None, Llm)];
      }
    }
    assert os[..|os|] == os;
  }

  method CollectTags(snap: Snapshot, deterministic: seq<CandidateFinding>) returns (tags: seq<Tagged>)
    ensures tags == Tags(snap, deterministic)
  {
    hide TagRows, TagOptions;
    var rowTags := CollectRows(snap.rows);
    var rest: seq<Tagged> := rowTags;
    if snap.sourceQuality.Some? {
      rest := rest + TagAll(snap.sourceQuality.value.loadBearingViolations
                            + snap.sourceQuality.value.regimeBreakFindings, None, Llm);
    }
    ghost var soFar := rest;
    if snap.judgement.Some? {
      var baselines := CollectOptions(snap.judgement.value.baselines);
      var falsifiability := CollectOptions(snap.judgement.value.falsifiability);
      rest := rest + (baselines + falsifiability);
    }
    assert snap.sourceQuality.None? ==> rowTags + [] == rowTags;
    assert snap.judgement.None? ==> soFar + [] == soFar;
    assert rest == TagModel(snap);
    tags := TagAll(deterministic, None, Deterministic) + rest;
  }

  /** `_assemble_findings`: number, launder and cap; a summary laundered to nothing is
      refused by the Finding model. */
  method AssembleFindings(deps: Deps, snap: Snapshot, deterministic: seq<CandidateFinding>, mode: ReviewMode)
    returns (r: Result<seq<Finding>, RunError>)
    ensures r.Ok? <==> Presentable(deps, Tags(snap, deterministic))
    ensures r.Ok? ==> r.value == Assembled(deps, snap, deterministic, mode)
    ensures r.Err? ==> r.error == Unexpected
  {
    hide ToFinding, Tags, Capped;
    var tags := CollectTags(snap, deterministic);
    var findings: seq<Finding> := [];
    for i := 0 to |tags|
      invariant |findings| == i
      invariant forall k | 0 <= k < i :: findings[k] == Capped(deps.oracle, ToFinding(deps, tags[k], k + 1), mode)
      invariant forall k | 0 <= k < i :: deps.launder(tags[k].candidate.summary) != []
    {
      if deps.launder(tags[i].candidate.summary) == [] {
        return Err(Unexpected);
      }
      var capped := Cap(deps.oracle, ToFinding(deps, tags[i], i + 1), mode);
      findings := findings + [capped];
    }
    assert findings == Assembled(deps, snap, deterministic, mode);
    return Ok(findings);
  }

  method CollectRowEntries(rows: map<string, RowDisposition>) returns (entries: seq<VerificationEntry>)
    ensures entries == RowEntries(rows, Sorted(rows.Keys))
  {
    entries := [];
    var ids := Sorted(rows.Keys);
    hide Sorted;
    for i := 0 to |ids|
      invariant entries == RowEntries(rows, ids[..i])
    {
      assert ids[..i + 1][..i] == ids[..i];
      assert ids[i] in ids;
      entries := entries + rows[ids[i]].verificationEntries;
    }
    assert ids[..|ids|] == ids;
  }

  /** `_all_entries`. */
  method CollectEntries(snap: Snapshot) returns (entries: seq<VerificationEntry>)
    ensures entries == AllEntries(snap)
  {
    hide RowEntries, Sorted;
    entries := CollectRowEntries(snap.rows);
    var quality := if snap.sourceQuality.Some? then snap.sourceQuality.value.verificationEntries else [];
    var judged := if snap.judgement.Some? then snap.judgement.value.verificationEntries else [];
    entries := entries + quality + judged;
  }

  // ---- Verify and repair -------------------------------------------------

  /** Every doctrine ref of a finding is a row id, so with all rows swept a completeness
      defect always names a row that can be repaired. */
  lemma CompletenessIsRepairable(deps: Deps, snap: Snapshot, deterministic: seq<CandidateFinding>,
                                 mode: ReviewMode, defects: seq<string>)
    requires deps.oracle.Valid() && snap.rows.Keys == deps.oracle.RowIds()
    requires forall d ::
      d in CompletenessDefects(Assembled(deps, snap, deterministic, mode), EntryRows(AllEntries(snap))) ==> d in defects
    requires DefectiveRows(defects, snap.rows.Keys) == []
    ensures CompletenessDefects(Assembled(deps, snap, deterministic, mode), EntryRows(AllEntries(snap))) == []
  {
    var findings := Assembled(deps, snap, deterministic, mode);
    var logged := EntryRows(AllEntries(snap));
    hide Assembled, AllEntries, EntryRows, CompletenessDefect, CompletenessDefects, DefectiveRows, Defective,
      OracleTable.Valid, OracleTable.RowIds, FindingKey.Valid;
    var incomplete := CompletenessDefects(findings, logged);
    if incomplete != [] {
      var d := incomplete[0];
      assert d in incomplete;
      DefectsAreUnlogged(findings, logged, d);
      var i: nat, r :| Unlogged(findings, logged, i, r) && d == CompletenessDefect(findings[i].findingId, r);
      AssembledWellKeyed(deps, snap, deterministic, mode);
      assert r in deps.oracle.RowIds();
      NothingToRepair(defects, snap.rows.Keys);
    }
  }

  lemma SubsetSize<T>(a: set<T>, b: set<T>)
    requires a <= b
    ensures |a| <= |b|
  {
    if a != {} {
      var x :| x in a;
      SubsetSize(a - {x}, b - {x});
    }
  }

  lemma {:induction false} IdsAtMostRows(rows: seq<OracleRow>)
    ensures |set i | 0 <= i < |rows| :: rows[i].id| <= |rows|
  {
    if rows != [] {
      var n := |rows| - 1;
      var init := set i | 0 <= i < n :: rows[..n][i].id;
      IdsAtMostRows(rows[..n]);
      assert (set i | 0 <= i < |rows| :: rows[i].id) == init + {rows[n].id};
    }
  }

  lemma FewTargets(deps: Deps, defects: seq<string>, rowIds: set<string>)
    requires rowIds <= deps.oracle.RowIds()
    ensures |DefectiveRows(defects, rowIds)| <= |deps.oracle.rows|
    ensures forall t | t in DefectiveRows(defects, rowIds) :: t in rowIds
    ensures forall i, j | 0 <= i < j < |DefectiveRows(defects, rowIds)| ::
      DefectiveRows(defects, rowIds)[i] != DefectiveRows(defects, rowIds)[j]
  {
    hide Defective;
    var hit := set r | r in rowIds && Defective(defects, r);
    SubsetSize(hit, deps.oracle.RowIds());
    IdsAtMostRows(deps.oracle.rows);
  }

  lemma RowCallStep(tape: nat -> Reply, at: nat, i: nat, attempts: nat)
    ensures RowCallAt(tape, at, i + 1, attempts) == Ask(tape, RowCallAt(tape, at, i, attempts), ROW, attempts).1
    ensures RowAnswer(tape, at, i, attempts) == Ask(tape, RowCallAt(tape, at, i, attempts), ROW, attempts).0
    ensures RowCallAt(tape, at, 0, attempts) == at
  {
  }

  /** The first `n` targets hold the answers to the row calls from `at` on, in order. */
  ghost predicate FilledFrom(tape: nat -> Reply, at: nat, attempts: nat, rows: map<string, RowDisposition>,
                             targets: seq<string>, n: nat) {
    forall i | 0 <= i < n && i < |targets| ::
      var answer := RowAnswer(tape, at, i, attempts);
      && answer.Ok? && answer.value.RowPayload? && targets[i] in rows
      && rows[targets[i]] == answer.value.row
  }

  lemma FillOne(tape: nat -> Reply, at: nat, attempts: nat, rows: map<string, RowDisposition>,
                targets: seq<string>, i: nat, d: RowDisposition)
    requires forall k, l | 0 <= k < l < |targets| :: targets[k] != targets[l]
    requires i < |targets| && FilledFrom(tape, at, attempts, rows, targets, i)
    requires RowAnswer(tape, at, i, attempts) == Ok(RowPayload(d))
    ensures FilledFrom(tape, at, attempts, rows[targets[i] := d], targets, i + 1)
  {
    hide RowAnswer;
  }

  lemma NothingFilled(tape: nat -> Reply, at: nat, attempts: nat, rows: map<string, RowDisposition>,
                      targets: seq<string>)
    ensures FilledFrom(tape, at, attempts, rows, targets, 0)
    ensures RowCallAt(tape, at, 0, attempts) == at
  {
  }

  lemma KnownRowIsFound(oracle: OracleTable, id: string)
    requires id in oracle.RowIds()
    ensures oracle.Row(id).Some?
  {
  }

  /** Asks the model again for each defective row; all other rows stay as they are. The
      new answer is filed under the row without looking at the id it carries. */
  method RepairRows(deps: Deps, sweep: SweepState, targets: seq<string>) returns (r: Result<(), RunError>)
    requires sweep.Traced(Attempts(deps))
    requires sweep.rows.Keys <= deps.oracle.RowIds() && forall t | t in targets :: t in sweep.rows
    requires forall i, j | 0 <= i < j < |targets| :: targets[i] != targets[j]
    modifies sweep`asked, sweep`typed, sweep`evidence, sweep`calls, sweep`rows
    ensures sweep.Traced(Attempts(deps)) && sweep.typed <= old(sweep.typed) + |targets|
    ensures old(sweep.asked) <= sweep.asked
    ensures sweep.rows.Keys == old(sweep.rows.Keys)
    ensures forall k | k in sweep.rows && k !in targets :: sweep.rows[k] == old(sweep.rows[k])
    ensures r.Ok? ==>
      FilledFrom(sweep.tape, old(sweep.asked), Attempts(deps), sweep.rows, targets, |targets|)
    ensures RepairedRows(deps, sweep.tape, old(sweep.asked), old(sweep.rows), targets, 0)
         == if r.Ok? then Go(sweep.rows, sweep.asked) else Halt(r.error, sweep.asked)
    ensures r.Err? ==> !r.error.ReviewFailed?
  {
    hide EvidenceUpTo, Budget, Payload.Valid, Attempts, FromTape, WasAnswered, Ask, RowAnswer, RowCallAt, FilledFrom,
      OracleTable.RowIds;
    NothingFilled(sweep.tape, sweep.asked, Attempts(deps), sweep.rows, targets);
    for i := 0 to |targets|
      invariant sweep.Traced(Attempts(deps)) && sweep.typed == old(sweep.typed) + i
      invariant sweep.rows.Keys == old(sweep.rows.Keys)
      invariant forall k | k in sweep.rows && k !in targets :: sweep.rows[k] == old(sweep.rows[k])
      invariant old(sweep.asked) <= sweep.asked == RowCallAt(sweep.tape, old(sweep.asked), i, Attempts(deps))
      invariant FilledFrom(sweep.tape, old(sweep.asked), Attempts(deps), sweep.rows, targets, i)
      invariant RepairedRows(deps, sweep.tape, old(sweep.asked), old(sweep.rows), targets, 0)
             == RepairedRows(deps, sweep.tape, sweep.asked, sweep.rows, targets, i)
    {
      var rowId := targets[i];
      assert rowId in targets && deps.oracle.Row(rowId).Some? by { KnownRowIsFound(deps.oracle, rowId); }
      var payload :- Call(deps, sweep, ROW, rowId);
      FileRow(sweep.tape, sweep.asked, sweep.Snap(), rowId, payload.row, payload.row);
      RowCallStep(sweep.tape, old(sweep.asked), i, Attempts(deps));
      FillOne(sweep.tape, old(sweep.asked), Attempts(deps), sweep.rows, targets, i, payload.row);
      sweep.rows := sweep.rows[rowId := payload.row];
    }
    return Ok(());
  }

  /** Typed calls of `n` full verification rounds: one synthesis and every row each. */
  function Rounds(n: nat, rows: nat): nat {
    if n == 0 then 0 else Rounds(n - 1, rows) + 1 + rows
  }

  lemma {:induction false} RoundsGrow(m: nat, n: nat, rows: nat)
    requires m <= n
    ensures Rounds(m, rows) <= Rounds(n, rows)
  {
    if m < n {
      RoundsGrow(m, n - 1, rows);
    }
  }

  /** The state of a finished attempt the verifier had nothing against. */
  ghost predicate Clean(deps: Deps, snap: Snapshot, deterministic: seq<CandidateFinding>, mode: ReviewMode,
                        findings: seq<Finding>, evidence: seq<ToolEvidence>) {
    && findings == Assembled(deps, snap, deterministic, mode)
    && DefectsOf(deps, snap, findings, evidence) == []
  }

  /** Why a review may be refused: the verifier found defects in this working set, and all
      attempts are used or no defect names a swept row. */
  ghost predicate Justified(deps: Deps, reason: FailReason, snap: Snapshot, findings: seq<Finding>,
                            evidence: seq<ToolEvidence>) {
    && reason.defects == DefectsOf(deps, snap, findings, evidence) != []
    && match reason
       case BudgetExhausted(attempts, _) => attempts == Attempts(deps)
       case NoRepairableCall(defects, sweptRows) =>
         sweptRows == snap.rows.Keys && DefectiveRows(defects, sweptRows) == []
  }

  lemma SynthesisAddsNoFinding(deps: Deps, a: Snapshot, b: Snapshot, deterministic: seq<CandidateFinding>,
                               mode: ReviewMode)
    requires b == a.(synthesis := b.synthesis)
    ensures Assembled(deps, a, deterministic, mode) == Assembled(deps, b, deterministic, mode)
  {
    assert Tags(a, deterministic) == Tags(b, deterministic);
    hide *;
    AssembledFromTags(deps, a, deterministic, mode);
    AssembledFromTags(deps, b, deterministic, mode);
  }

  lemma AssembledFromTags(deps: Deps, snap: Snapshot, deterministic: seq<CandidateFinding>, mode: ReviewMode)
    ensures Assembled(deps, snap, deterministic, mode)
         == CappedAll(deps.oracle, ToFindings(deps, Tags(snap, deterministic)), mode)
  {
  }

  /** One attempt up to the verifier's answer: assemble, synthesize, verify. */
  method Attempt(deps: Deps, sweep: SweepState, deterministic: seq<CandidateFinding>, mode: ReviewMode)
    returns (r: Result<seq<Finding>, RunError>, defects: seq<string>)
    requires sweep.Traced(Attempts(deps))
    modifies sweep`asked, sweep`typed, sweep`evidence, sweep`calls, sweep`synthesis
    ensures sweep.Traced(Attempts(deps)) && sweep.typed <= old(sweep.typed) + 1
    ensures old(sweep.asked) <= sweep.asked
    ensures r.Ok? ==> sweep.synthesis.Some?
    ensures r.Ok? ==> r.value == Assembled(deps, sweep.Snap(), deterministic, mode)
    ensures r.Ok? ==> defects == DefectsOf(deps, sweep.Snap(), r.value, sweep.evidence)
    ensures Attempted(deps, sweep.tape, old(sweep.asked), old(sweep.Snap()), deterministic, mode)
         == if r.Ok? then Go((sweep.Snap(), r.value, defects), sweep.asked) else Halt(r.error, sweep.asked)
    ensures r.Err? ==> !r.error.ReviewFailed?
  {
    hide EvidenceUpTo, Budget, Payload.Valid, Assembled, Presentable, AllEntries, ProseBlocks, Defects, Attempts,
      RowAnswered, WasAnswered, Ask;
    defects := [];
    r := AssembleFindings(deps, sweep.Snap(), deterministic, mode);
    if r.Err? {
      return;
    }
    var findings := r.value;
    var payload := Call(deps, sweep, SYNTHESIS, "");
    if payload.Err? {
      r := Err(payload.error);
      return;
    }
    sweep.synthesis := Some(payload.value.synthesis);
    SynthesisAddsNoFinding(deps, old(sweep.Snap()), sweep.Snap(), deterministic, mode);
    var entries := CollectEntries(sweep.Snap());
    defects := Check(deps.checker, findings, entries, sweep.evidence, ProseBlocks(sweep.Snap(), findings));
  }

  lemma SettledStep(deps: Deps, tape: nat -> Reply, at: nat, snap: Snapshot, deterministic: seq<CandidateFinding>,
                    mode: ReviewMode, repairs: nat)
    ensures var attempted, settled :=
        Attempted(deps, tape, at, snap, deterministic, mode),
        Settled(deps, tape, at, snap, deterministic, mode, repairs);
      if attempted.Halt? then settled == Halt(attempted.error, attempted.next)
      else
        var (done, findings, defects) := attempted.value;
        var verdict := Judged(deps, done, findings, defects, repairs);
        if verdict.Some? then settled == Go(verdict.value, attempted.next)
        else
          && repairs > 0
          && var repaired :=
               RepairedRows(deps, tape, attempted.next, done.rows, DefectiveRows(defects, done.rows.Keys), 0);
             settled == if repaired.Halt? then Halt(repaired.error, repaired.next)
                        else Settled(deps, tape, repaired.next, done.(rows := repaired.value), deterministic, mode,
                                     repairs - 1)
  {
    hide Attempted, RepairedRows, DefectiveRows;
  }

  /** The verification loop: at most `max_regeneration_attempts` repairs, then refuse. */
  method VerifyAndRepair(deps: Deps, sweep: SweepState, deterministic: seq<CandidateFinding>, mode: ReviewMode)
    returns (r: Result<seq<Finding>, RunError>, failed: Option<FailReason>)
    requires deps.oracle.Valid() && Attempts(deps) > 0
    requires sweep.Traced(Attempts(deps)) && sweep.rows.Keys <= deps.oracle.RowIds()
    modifies sweep`asked, sweep`typed, sweep`evidence, sweep`calls, sweep`synthesis, sweep`rows
    ensures sweep.Traced(Attempts(deps))
    ensures sweep.typed <= old(sweep.typed) + Rounds(Attempts(deps) - 1, |deps.oracle.rows|) + 1
    ensures old(sweep.asked) <= sweep.asked
    ensures sweep.rows.Keys == old(sweep.rows.Keys)
    ensures r.Ok? ==> sweep.synthesis.Some?
    ensures r.Ok? && failed.None? ==> Clean(deps, sweep.Snap(), deterministic, mode, r.value, sweep.evidence)
    ensures r.Ok? && failed.Some? ==>
      && r.value == Assembled(deps, sweep.Snap(), deterministic, mode)
      && Justified(deps, failed.value, sweep.Snap(), r.value, sweep.evidence)
    ensures Settled(deps, sweep.tape, old(sweep.asked), old(sweep.Snap()), deterministic, mode, Repairs(deps))
         == if r.Ok? then Go(Verdict(sweep.Snap(), r.value, failed), sweep.asked) else Halt(r.error, sweep.asked)
    ensures r.Err? ==> !r.error.ReviewFailed?
  {
    hide EvidenceUpTo, Budget, Assembled, DefectsOf, DefectiveRows, Defective, OracleTable.Valid, OracleTable.RowIds,
      CompletenessDefects, EntryRows, AllEntries, FromTape, RowAnswer, Settled, Attempted, RepairedRows;
    var repairs := Attempts(deps) - 1;
    failed := None;
    ghost var start := sweep.typed;
    var attempt := 0;
    while true
      invariant 0 <= attempt <= repairs && failed.None?
      invariant sweep.Traced(Attempts(deps)) && sweep.rows.Keys == old(sweep.rows.Keys)
      invariant Settled(deps, sweep.tape, old(sweep.asked), old(sweep.Snap()), deterministic, mode, repairs)
             == Settled(deps, sweep.tape, sweep.asked, sweep.Snap(), deterministic, mode, repairs - attempt)
      invariant sweep.typed <= start + Rounds(attempt, |deps.oracle.rows|) && old(sweep.asked) <= sweep.asked
      decreases repairs - attempt
    {
      RoundsGrow(attempt, repairs, |deps.oracle.rows|);
      SettledStep(deps, sweep.tape, sweep.asked, sweep.Snap(), deterministic, mode, repairs - attempt);
      var defects;
      r, defects := Attempt(deps, sweep, deterministic, mode);
      if r.Err? || defects == [] {
        return;
      }
      if attempt >= repairs {
        failed := Some(BudgetExhausted(attempt + 1, defects));
        return;
      }
      var targets := DefectiveRows(defects, sweep.rows.Keys);
      if targets == [] {
        failed := Some(NoRepairableCall(defects, sweep.rows.Keys));
        return;
      }
      FewTargets(deps, defects, sweep.rows.Keys);
      RoundsGrow(attempt + 1, repairs, |deps.oracle.rows|);
      var repaired := RepairRows(deps, sweep, targets);
      if repaired.Err? {
        r := Err(repaired.error);
        return;
      }
      attempt := attempt + 1;
    }
  }

  /** The unrepairable exit is taken with defects none of which mentions a swept row, and
      when every row was swept, with a complete log. */
  lemma RefusalIsJustified(deps: Deps, snap: Snapshot, deterministic: seq<CandidateFinding>, mode: ReviewMode,
                           findings: seq<Finding>, evidence: seq<ToolEvidence>, defects: seq<string>,
                           swept: set<string>)
    requires deps.oracle.Valid() && findings == Assembled(deps, snap, deterministic, mode)
    requires Justified(deps, NoRepairableCall(defects, swept), snap, findings, evidence)
    ensures swept == snap.rows.Keys && defects == DefectsOf(deps, snap, findings, evidence) != []
    ensures forall r | r in swept :: !Defective(defects, r)
    ensures swept == deps.oracle.RowIds() ==> CompletenessDefects(findings, EntryRows(AllEntries(snap))) == []
  {
    assert defects == CompletenessDefects(findings, EntryRows(AllEntries(snap)))
      + HonestyDefects(deps.checker, AllEntries(snap), evidence)
      + deps.checker.attribution(ProseBlocks(snap, findings));
    hide Assembled, DefectsOf, DefectiveRows, Defective, OracleTable.Valid, OracleTable.RowIds,
      CompletenessDefects, EntryRows, AllEntries, HonestyDefects;
    NothingToRepair(defects, swept);
    if swept == deps.oracle.RowIds() {
      CompletenessIsRepairable(deps, snap, deterministic, mode, defects);
    }
  }

  // ---- The run -----------------------------------------------------------

  ghost predicate SweptFor(deps: Deps, rule: ArtifactClassRule, snap: Snapshot) {
    && snap.sourceQuality.Some?
    && if rule.sourceQualityOnly then snap.rows == map[] && snap.judgement.None?
       else snap.rows.Keys == deps.oracle.RowIds() && snap.judgement.Some?
  }

  /** Where a publication comes from: accepted answers of this run, in a working set in
      which the verifier found nothing wrong with exactly what is published. */
  ghost predicate PublishedFrom(deps: Deps, request: Request, world: World, state: ReviewState,
                                tape: nat -> Reply, calls: nat, classify: ClassifyResult, rule: ArtifactClassRule,
                                claims: seq<MeasurementClaim>, snap: Snapshot, pub: Publication) {
    && WasAnswered(tape, calls, CLASSIFY, ClassifyPayload(classify))
    && (!rule.sourceQualityOnly ==> WasAnswered(tape, calls, CLAIMS, ClaimsPayload(ClaimsResult(claims))))
    && FromTape(tape, calls, snap)
    && FindClass(deps.oracle.artifactClasses, classify.artifactClass) == Some(rule)
    && (pub.mode, pub.modeUncertain) == ResolveMode(deps, request, classify)
    && pub.artifactClass == classify.artifactClass
    && SweptFor(deps, rule, snap)
    && Clean(deps, snap, DeterministicCandidates(deps, request, rule, claims), pub.mode, pub.findings,
             EvidenceUpTo(tape, calls))
    && pub.verificationLog == AllEntries(snap)
    && pub.rowDispositions == Dispositions(deps.oracle.rows, snap.rows)
    && snap.synthesis.Some? && pub.headline == deps.launder(snap.synthesis.value.headline) != []
    && pub.escalation == Escalation(state, pub.findings, deps.oracle.escalationCycle)
    && pub.cycle == state.cycle + 1
    && pub.newState == state.(cycle := state.cycle + 1,
                              history := state.history + [NewRecord(request, world, pub)])
  }

  ghost predicate Publishes(deps: Deps, request: Request, world: World, state: ReviewState,
                            tape: nat -> Reply, calls: nat, pub: Publication) {
    exists classify, rule, claims, snap ::
      PublishedFrom(deps, request, world, state, tape, calls, classify, rule, claims, snap, pub)
  }

  /** Where a refusal comes from: accepted answers of this run, in a working set in whose
      own findings and log the verifier found the defects. */
  ghost predicate RefusedFrom(deps: Deps, request: Request, tape: nat -> Reply, calls: nat,
                              classify: ClassifyResult, rule: ArtifactClassRule, claims: seq<MeasurementClaim>,
                              snap: Snapshot, findings: seq<Finding>, reason: FailReason) {
    && WasAnswered(tape, calls, CLASSIFY, ClassifyPayload(classify))
    && (!rule.sourceQualityOnly ==> WasAnswered(tape, calls, CLAIMS, ClaimsPayload(ClaimsResult(claims))))
    && FromTape(tape, calls, snap)
    && FindClass(deps.oracle.artifactClasses, classify.artifactClass) == Some(rule)
    && SweptFor(deps, rule, snap)
    && findings == Assembled(deps, snap, DeterministicCandidates(deps, request, rule, claims),
                             ResolveMode(deps, request, classify).0)
    && Justified(deps, reason, snap, findings, EvidenceUpTo(tape, calls))
  }

  ghost predicate HasGrounds(deps: Deps, request: Request, tape: nat -> Reply, calls: nat, classify: ClassifyResult,
                             rule: ArtifactClassRule, claims: seq<MeasurementClaim>, snap: Snapshot,
                             reason: FailReason) {
    exists findings :: RefusedFrom(deps, request, tape, calls, classify, rule, claims, snap, findings, reason)
  }

  ghost predicate Refuses(deps: Deps, request: Request, tape: nat -> Reply, calls: nat, reason: FailReason) {
    exists classify, rule, claims, snap ::
      HasGrounds(deps, request, tape, calls, classify, rule, claims, snap, reason)
  }

  lemma {:induction false} FindClassName(classes: seq<ArtifactClassRule>, name: string)
    ensures FindClass(classes, name).Some? ==> FindClass(classes, name).value.name == name
  {
    if classes != [] && classes[0].name != name {
      FindClassName(classes[1..], name);
    }
  }

  lemma FileSourceQuality(tape: nat -> Reply, n: nat, snap: Snapshot, q: SourceQualityResult)
    requires FromTape(tape, n, snap) && WasAnswered(tape, n, SOURCE_QUALITY, SourceQualityPayload(q))
    ensures FromTape(tape, n, snap.(sourceQuality := Some(q)))
  {
    hide RowAnswered, WasAnswered;
  }

  /** Everything up to the verification loop. */
  method Prepare(deps: Deps, request: Request, sweep: SweepState)
    returns (r: Result<ClassifyResult, RunError>, rule: ArtifactClassRule, mode: ReviewMode, uncertain: bool,
             deterministic: seq<CandidateFinding>, ghost claims: seq<MeasurementClaim>)
    requires deps.oracle.Valid()
    requires sweep.Traced(Attempts(deps)) && sweep.rows == map[] && sweep.judgement.None?
    modifies sweep
    ensures sweep.Traced(Attempts(deps))
    ensures sweep.typed <= old(sweep.typed) + |deps.oracle.rows| + 6
    ensures r.Ok? ==> FindClass(deps.oracle.artifactClasses, r.value.artifactClass) == Some(rule)
    ensures r.Ok? ==> (mode, uncertain) == ResolveMode(deps, request, r.value) && Attempts(deps) > 0
    ensures r.Ok? ==> SweptFor(deps, rule, sweep.Snap())
    ensures r.Ok? ==> WasAnswered(sweep.tape, sweep.asked, CLASSIFY, ClassifyPayload(r.value))
    ensures r.Ok? && !rule.sourceQualityOnly ==>
      WasAnswered(sweep.tape, sweep.asked, CLAIMS, ClaimsPayload(ClaimsResult(claims)))
    ensures r.Ok? ==> deterministic == DeterministicCandidates(deps, request, rule, claims)
    ensures r.Err? ==> !r.error.ReviewFailed?
    ensures old(sweep.synthesis).None? ==>
      PreparedFor(deps, request, sweep.tape, old(sweep.asked))
      == if r.Ok? then Go(Prepared(r.value, rule, deterministic, sweep.Snap()), sweep.asked)
         else Halt(r.error, sweep.asked)
  {
    hide EvidenceUpTo, Budget, Payload.Valid, ResolveMode, OracleTable.RowIds, Consistency.Contradictions,
      MissingSections, Attempts, WasAnswered, FromTape, Ask, OracleTable.Valid;
    claims, deterministic := [], [];
    rule := ArtifactClassRule("", [], INFO, GateFailure, false);
    r, mode, uncertain := ClassifyArtifact(deps, request, sweep);
    if r.Err? {
      return;
    }
    var found := FindClass(deps.oracle.artifactClasses, r.value.artifactClass);
    if found.None? {
      r := Err(Unexpected);
      return;
    }
    rule := found.value;
    FindClassName(deps.oracle.artifactClasses, r.value.artifactClass);
    ghost var classified, claimed := sweep.asked, sweep.asked;
    var contradictions := Consistency.CheckConsistency(deps.consistency, request.text);
    deterministic := contradictions + deps.sourceQuality(request.text) + request.decisionFindings
                     + deps.labels(request.text);
    if !rule.sourceQualityOnly {
      var swept := SweepModel(deps, sweep);
      if swept.Err? {
        r := Err(swept.error);
        return;
      }
      claims, claimed := swept.value, sweep.asked;
      deterministic := deterministic + (deps.gates(swept.value, r.value.artifactClass)
        + MissingSections(deps, request.text, rule, rule.requiresSections));
    } else {
      assert deterministic + [] == deterministic;
    }
    var quality := Call(deps, sweep, SOURCE_QUALITY, "");
    if quality.Err? {
      r := Err(quality.error);
      return;
    }
    WasAnsweredGrows(sweep.tape, classified, sweep.asked, CLASSIFY, ClassifyPayload(r.value));
    if !rule.sourceQualityOnly {
      WasAnsweredGrows(sweep.tape, claimed, sweep.asked, CLAIMS, ClaimsPayload(ClaimsResult(claims)));
    }
    FileSourceQuality(sweep.tape, sweep.asked, sweep.Snap(), quality.value.sourceQuality);
    sweep.sourceQuality := Some(quality.value.sourceQuality);
  }

  // ---- Call budget -------------------------------------------------------

  /** (M+1)(R(M+1)+M+7) for M regeneration attempts and R rows; none if M is negative. */
  function CallLimit(deps: Deps): nat {
    Attempts(deps) * (|deps.oracle.rows| * Attempts(deps) + Attempts(deps) + 6)
  }

  /** The limit by the settings' own numbers. */
  lemma LimitFormula(deps: Deps)
    ensures var m, r := deps.maxRegenerationAttempts, |deps.oracle.rows|;
      CallLimit(deps) == if m < 0 then 0 else (m + 1) * (r * (m + 1) + m + 7)
  {
    var m, r := deps.maxRegenerationAttempts, |deps.oracle.rows|;
    if m < 0 {
      assert Attempts(deps) == 0;
    } else {
      assert Attempts(deps) == m + 1;
      assert r * (m + 1) + (m + 1) + 6 == r * (m + 1) + m + 7;
    }
  }

  lemma {:induction false} RoundsAre(n: nat, rows: nat)
    ensures Rounds(n, rows) == n * (1 + rows)
  {
    if n > 0 {
      RoundsAre(n - 1, rows);
      assert n * (1 + rows) == (n - 1) * (1 + rows) + (1 + rows);
    }
  }

  lemma BudgetGrows(a: nat, b: nat, attempts: nat)
    requires a <= b
    ensures Budget(a, attempts) <= Budget(b, attempts)
  {
    assert b * attempts == a * attempts + (b - a) * attempts;
  }

  /** The limit is what all typed calls of a review may use, full repairs included. */
  lemma LimitIs(deps: Deps)
    requires Attempts(deps) > 0
    ensures Budget(|deps.oracle.rows| + 7 + Rounds(Attempts(deps) - 1, |deps.oracle.rows|), Attempts(deps))
         == CallLimit(deps)
  {
    var a, rows := Attempts(deps), |deps.oracle.rows|;
    hide Attempts, Budget, Rounds;
    RoundsAre(a - 1, rows);
    assert (a - 1) * (1 + rows) + rows + 7 == rows * a + a + 6 by {
      assert (a - 1) * (1 + rows) == a * (1 + rows) - (1 + rows);
      assert a * (1 + rows) == a + rows * a;
    }
    BudgetIs(rows * a + a + 6, a);
  }

  lemma WithinLimit(deps: Deps, typed: nat)
    requires typed <= |deps.oracle.rows| + 7
                      + (if Attempts(deps) == 0 then 0 else Rounds(Attempts(deps) - 1, |deps.oracle.rows|))
    ensures Budget(typed, Attempts(deps)) <= CallLimit(deps)
  {
    hide Attempts, Budget, Rounds, CallLimit;
    if Attempts(deps) == 0 {
      NoBudget(typed);
    } else {
      LimitIs(deps);
      BudgetGrows(typed, |deps.oracle.rows| + 7 + Rounds(Attempts(deps) - 1, |deps.oracle.rows|), Attempts(deps));
    }
  }

  lemma NoBudget(typed: nat)
    ensures Budget(typed, 0) == 0
  {
  }

  lemma BudgetIs(typed: nat, attempts: nat)
    ensures Budget(typed, attempts) == attempts * typed
  {
  }

  // ---- _run --------------------------------------------------------------

  lemma ConcludedStep(deps: Deps, request: Request, world: World, state: ReviewState, tape: nat -> Reply,
                      prepared: Prepared, at: nat, mode: ReviewMode)
    requires mode == ResolveMode(deps, request, prepared.classify).0
    ensures var settled := Settled(deps, tape, at, prepared.snap, prepared.deterministic, mode, Repairs(deps));
      Concluded(deps, request, world, state, tape, prepared, at)
      == if settled.Halt? then Halt(settled.error, settled.next)
         else
           var headline := HeadlineOf(deps, settled.value.snap);
           if headline == [] then Halt(Unexpected, settled.next)
           else if settled.value.failed.Some? then Halt(ReviewFailed(settled.value.failed.value), settled.next)
           else Go(PublicationOf(deps, request, world, state, prepared, settled.value, headline), settled.next)
  {
    hide ResolveMode, PublicationOf;
  }

  /** A settled working set without defects yields the publication it should. */
  lemma PublicationIsFrom(deps: Deps, request: Request, world: World, state: ReviewState, tape: nat -> Reply,
                          calls: nat, prepared: Prepared, claims: seq<MeasurementClaim>, verdict: Verdict,
                          headline: string)
    requires var pub := PublicationOf(deps, request, world, state, prepared, verdict, headline);
      && WasAnswered(tape, calls, CLASSIFY, ClassifyPayload(prepared.classify))
      && (!prepared.rule.sourceQualityOnly ==>
            WasAnswered(tape, calls, CLAIMS, ClaimsPayload(ClaimsResult(claims))))
      && FromTape(tape, calls, verdict.snap)
      && FindClass(deps.oracle.artifactClasses, prepared.classify.artifactClass) == Some(prepared.rule)
      && SweptFor(deps, prepared.rule, verdict.snap)
      && prepared.deterministic == DeterministicCandidates(deps, request, prepared.rule, claims)
      && Clean(deps, verdict.snap, prepared.deterministic, pub.mode, verdict.findings, EvidenceUpTo(tape, calls))
      && verdict.snap.synthesis.Some? && headline == deps.launder(verdict.snap.synthesis.value.headline) != []
    ensures PublishedFrom(deps, request, world, state, tape, calls, prepared.classify, prepared.rule, claims,
                          verdict.snap, PublicationOf(deps, request, world, state, prepared, verdict, headline))
  {
    hide ResolveMode, WasAnswered, FromTape, FindClass, SweptFor, DeterministicCandidates, Clean, EvidenceUpTo,
      Escalation, AllEntries, Dispositions, Recorded;
  }

  /** Verify, decide, publish: what follows preparation, up to the save. */
  method Conclude(deps: Deps, request: Request, world: World, state: ReviewState, sweep: SweepState,
                  classify: ClassifyResult, rule: ArtifactClassRule, mode: ReviewMode, uncertain: bool,
                  deterministic: seq<CandidateFinding>, ghost claims: seq<MeasurementClaim>)
    returns (r: Result<Publication, RunError>)
    requires deps.oracle.Valid() && Attempts(deps) > 0
    requires sweep.Traced(Attempts(deps))
    requires FindClass(deps.oracle.artifactClasses, classify.artifactClass) == Some(rule)
    requires (mode, uncertain) == ResolveMode(deps, request, classify)
    requires SweptFor(deps, rule, sweep.Snap())
    requires deterministic == DeterministicCandidates(deps, request, rule, claims)
    requires WasAnswered(sweep.tape, sweep.asked, CLASSIFY, ClassifyPayload(classify))
    requires !rule.sourceQualityOnly ==>
      WasAnswered(sweep.tape, sweep.asked, CLAIMS, ClaimsPayload(ClaimsResult(claims)))
    modifies sweep
    ensures sweep.Traced(Attempts(deps))
    ensures sweep.typed <= old(sweep.typed) + Rounds(Attempts(deps) - 1, |deps.oracle.rows|) + 1
    ensures r.Ok? ==> PublishedFrom(deps, request, world, state, sweep.tape, sweep.asked, classify, rule, claims,
                                    sweep.Snap(), r.value)
    ensures StepOf(r, sweep.asked)
         == Concluded(deps, request, world, state, sweep.tape,
                      Prepared(classify, rule, deterministic, old(sweep.Snap())), old(sweep.asked))
    ensures SweptFor(deps, rule, sweep.Snap())
    ensures r.Err? && r.error.ReviewFailed? ==>
      HasGrounds(deps, request, sweep.tape, sweep.asked, classify, rule, claims, sweep.Snap(), r.error.reason)
  {
    hide EvidenceUpTo, Budget, ResolveMode, OracleTable.RowIds, OracleTable.Valid, Attempts, Rounds, Clean, Justified,
      FindClass, DeterministicCandidates, Escalation, AllEntries, Dispositions, Recorded, WasAnswered, FromTape,
      Settled, Concluded, PublishedFrom;
    ghost var prepared := Prepared(classify, rule, deterministic, sweep.Snap());
    ConcludedStep(deps, request, world, state, sweep.tape, prepared, sweep.asked, mode);
    assert sweep.rows.Keys <= deps.oracle.RowIds();
    var verified, failed := VerifyAndRepair(deps, sweep, deterministic, mode);
    assert SweptFor(deps, rule, sweep.Snap()) by {
      assert rule.sourceQualityOnly ==> sweep.rows.Keys == {};
    }
    hide SweptFor;
    if verified.Err? {
      return Err(verified.error);
    }
    WasAnsweredGrows(sweep.tape, old(sweep.asked), sweep.asked, CLASSIFY, ClassifyPayload(classify));
    if !rule.sourceQualityOnly {
      WasAnsweredGrows(sweep.tape, old(sweep.asked), sweep.asked, CLAIMS, ClaimsPayload(ClaimsResult(claims)));
    }
    var findings := verified.value;
    var escalation := CheckEscalation(state, findings, deps.oracle.escalationCycle);
    var headline := deps.launder(sweep.synthesis.value.headline);
    if headline == [] {
      return Err(Unexpected);
    }
    var log := CollectEntries(sweep.Snap());
    if failed.Some? {
      assert RefusedFrom(deps, request, sweep.tape, sweep.asked, classify, rule, claims, sweep.Snap(), findings,
                         failed.value);
      return Err(ReviewFailed(failed.value));
    }
    var draft := Publication(state.cycle + 1, mode, uncertain, classify.artifactClass, headline, findings,
                             Dispositions(deps.oracle.rows, sweep.rows), log, escalation, state);
    var record := NewRecord(request, world, draft);
    var pub := draft.(newState := state.(cycle := state.cycle + 1, history := state.history + [record]));
    ghost var verdict := Verdict(sweep.Snap(), findings, failed);
    assert pub == PublicationOf(deps, request, world, state, prepared, verdict, headline);
    hide PublicationOf;
    PublicationIsFrom(deps, request, world, state, sweep.tape, sweep.asked, prepared, claims, verdict, headline);
    return Ok(pub);
  }

  /** What becomes of a finished review when it is saved and its audit bundle written. */
  function SavedOutcome(codec: Codec, world: World, pub: Publication): Outcome {
    if world.written < |Encode(codec, pub.newState, world.render(pub))| || !world.renames then Failed(SaveFailed)
    else if world.audits then Published(pub)
    else AuditFailed(pub)
  }

  /** One review, as a relation between the files before and after it. Whatever the model
      answers, on every path:
      - it asks as often, and comes to the same end, as the reference says;
      - the number of backend calls is bounded;
      - a run that fails, for whatever reason, changes no state file;
      - nothing is saved unless the verifier found no defect in exactly the findings and
        the log that are published, and then one record is appended to the loaded state,
        in the file of that state's artifact and no other;
      - a refusal rests on the defects of the run's own working set. */
  ghost predicate ReviewStep(deps: Deps, codec: Codec, request: Request, world: World, tape: nat -> Reply,
                             before: map<string, string>, after: map<string, string>, outcome: Outcome, calls: nat) {
    var stored := StoredIn(codec, before, request.artifactId);
    && calls <= CallLimit(deps)
    && (stored.Err? ==> outcome == Failed(StateCorrupt) && calls == 0)
    && (stored.Ok? ==>
          var step := Reviewed(deps, request, world, stored.value, tape);
          && calls == step.next
          && outcome == if step.Halt? then Failed(step.error) else SavedOutcome(codec, world, step.value))
    && (outcome.Failed? ==> after == before)
    && (!outcome.Failed? ==>
          && stored.Ok?
          && var state, pub := stored.value, outcome.publication;
             && Publishes(deps, request, world, state, tape, calls, pub)
             && after == before[state.artifactId := Encode(codec, pub.newState, world.render(pub))]
             && (Faithful(codec, pub.newState) ==> StoredIn(codec, after, state.artifactId) == Ok(pub.newState)))
    && (outcome.Failed? && outcome.error.ReviewFailed? ==>
          Refuses(deps, request, tape, calls, outcome.error.reason))
  }

  lemma CorruptStep(deps: Deps, codec: Codec, request: Request, world: World, tape: nat -> Reply,
                    files: map<string, string>)
    requires StoredIn(codec, files, request.artifactId).Err?
    ensures ReviewStep(deps, codec, request, world, tape, files, files, Failed(StateCorrupt), 0)
  {
    hide StoredIn;
  }

  lemma FailedStep(deps: Deps, codec: Codec, request: Request, world: World, tape: nat -> Reply,
                   files: map<string, string>, state: ReviewState, error: RunError, calls: nat)
    requires StoredIn(codec, files, request.artifactId) == Ok(state) && calls <= CallLimit(deps)
    requires Reviewed(deps, request, world, state, tape) == Halt(error, calls)
    requires error.ReviewFailed? ==> Refuses(deps, request, tape, calls, error.reason)
    ensures ReviewStep(deps, codec, request, world, tape, files, files, Failed(error), calls)
  {
    hide StoredIn, CallLimit, Reviewed, Refuses;
  }

  lemma UnsavedStep(deps: Deps, codec: Codec, request: Request, world: World, tape: nat -> Reply,
                    files: map<string, string>, state: ReviewState, pub: Publication, calls: nat)
    requires StoredIn(codec, files, request.artifactId) == Ok(state) && calls <= CallLimit(deps)
    requires Reviewed(deps, request, world, state, tape) == Go(pub, calls)
    requires world.written < |Encode(codec, pub.newState, world.render(pub))| || !world.renames
    ensures ReviewStep(deps, codec, request, world, tape, files, files, Failed(SaveFailed), calls)
  {
    hide StoredIn, CallLimit, Reviewed, Encode;
  }

  lemma SavedStep(deps: Deps, codec: Codec, request: Request, world: World, tape: nat -> Reply,
                  before: map<string, string>, after: map<string, string>, state: ReviewState, pub: Publication,
                  calls: nat)
    requires StoredIn(codec, before, request.artifactId) == Ok(state) && calls <= CallLimit(deps)
    requires Reviewed(deps, request, world, state, tape) == Go(pub, calls)
    requires Publishes(deps, request, world, state, tape, calls, pub)
    requires world.written >= |Encode(codec, pub.newState, world.render(pub))| && world.renames
    requires after == before[state.artifactId := Encode(codec, pub.newState, world.render(pub))]
    requires Faithful(codec, pub.newState) ==> StoredIn(codec, after, state.artifactId) == Ok(pub.newState)
    ensures ReviewStep(deps, codec, request, world, tape, before, after, SavedOutcome(codec, world, pub), calls)
  {
    hide StoredIn, CallLimit, Reviewed, Encode, Publishes, Faithful;
  }

  method RunReview(deps: Deps, request: Request, world: World, store: FileStateStore, tape: nat -> Reply)
    returns (outcome: Outcome, calls: nat)
    requires deps.oracle.Valid()
    modifies store
    ensures ReviewStep(deps, store.codec, request, world, tape, old(store.files), store.files, outcome, calls)
  {
    hide EvidenceUpTo, Budget, ResolveMode, OracleTable.RowIds, OracleTable.Valid, Attempts, Rounds, Clean, Justified,
      FindClass, DeterministicCandidates, CallLimit, SweptFor, Decode, Encode, PublishedFrom, Faithful, ReviewStep,
      PreparedFor, Concluded, StoredIn;
    ghost var files := store.files;
    var loaded := store.Load(request.artifactId);
    if loaded.Err? {
      CorruptStep(deps, store.codec, request, world, tape, files);
      return Failed(StateCorrupt), 0;
    }
    var state := loaded.value;
    var sweep := new SweepState(tape);
    assert sweep.Traced(Attempts(deps)) by { NothingYet(tape, Attempts(deps)); }
    var classify, rule, mode, uncertain, deterministic, claims := Prepare(deps, request, sweep);
    if classify.Err? {
      WithinLimit(deps, sweep.typed);
      FailedStep(deps, store.codec, request, world, tape, files, state, classify.error, sweep.asked);
      return Failed(classify.error), sweep.asked;
    }
    var concluded := Conclude(deps, request, world, state, sweep, classify.value, rule, mode, uncertain,
                              deterministic, claims);
    WithinLimit(deps, sweep.typed);
    calls := sweep.asked;
    if concluded.Err? {
      FailedStep(deps, store.codec, request, world, tape, files, state, concluded.error, calls);
      return Failed(concluded.error), calls;
    }
    var pub := concluded.value;
    assert Publishes(deps, request, world, state, tape, calls, pub);
    SavedUnderItsId(deps, request, world, state, tape, calls, classify.value, rule, claims, sweep.Snap(), pub);
    var saved := store.Save(pub.newState, world.render(pub), world.written, world.renames);
    if saved.Err? {
      UnsavedStep(deps, store.codec, request, world, tape, files, state, pub, calls);
      return Failed(SaveFailed), calls;
    }
    SavedStep(deps, store.codec, request, world, tape, files, store.files, state, pub, calls);
    outcome := if world.audits then Published(pub) else AuditFailed(pub);
  }

  lemma NothingYet(tape: nat -> Reply, attempts: nat)
    ensures EvidenceUpTo(tape, 0) == [] && Budget(0, attempts) == 0
  {
  }

  lemma SavedUnderItsId(deps: Deps, request: Request, world: World, state: ReviewState,
                        tape: nat -> Reply, calls: nat, classify: ClassifyResult, rule: ArtifactClassRule,
                        claims: seq<MeasurementClaim>, snap: Snapshot, pub: Publication)
    requires PublishedFrom(deps, request, world, state, tape, calls, classify, rule, claims, snap, pub)
    ensures pub.newState.artifactId == state.artifactId
  {
  }
}
