/** The reference for one review: what it comes to, as a function of the tape of replies.
    No state, no loops; the program that gets there is in module Pipeline. */
module Replay {
  import opened Wrappers
  import opened Findings
  import opened Oracle
  import opened SeverityPolicy
  import opened Sweeps
  import opened Transcript
  import opened Repair
  import opened History
  import opened Assembly

  // ---- The backend -------------------------------------------------------

  /** What a backend call meets: a message stream, or a transport failure. */
  datatype Reply = Stream(messages: seq<Message>) | TransportFails

  ghost function EvidenceIn(reply: Reply): seq<ToolEvidence> {
    if reply.Stream? && AnswerOf(reply.messages).Ok? then EvidenceOf(Blocks(reply.messages)) else []
  }

  /** The evidence of the first `n` calls, those with rejected answers included. */
  ghost function EvidenceUpTo(tape: nat -> Reply, n: nat): seq<ToolEvidence> {
    if n == 0 then [] else EvidenceUpTo(tape, n - 1) + EvidenceIn(tape(n - 1))
  }

  datatype FailReason =
    | BudgetExhausted(attempts: nat, defects: seq<string>)
    | NoRepairableCall(defects: seq<string>, sweptRows: set<string>)

  datatype RunError =
    | ReviewFailed(reason: FailReason)
    | LlmOutput
    | LlmTransport
    | StateCorrupt
    | Unexpected   // a ValidationError or StopIteration nobody catches
    | SaveFailed

  datatype CallLog = CallLog(kind: CallKind, ref: string)

  /** `max_regeneration_attempts + 1`, as a number of rounds of a `range` loop. */
  function Attempts(deps: Deps): nat {
    if deps.maxRegenerationAttempts + 1 > 0 then deps.maxRegenerationAttempts + 1 else 0
  }

  /** The reply to call `k` is accepted as this answer. */
  predicate Accepted(tape: nat -> Reply, k: nat, kind: CallKind, payload: Payload) {
    && tape(k).Stream?
    && AnswerOf(tape(k).messages) == Ok(payload)
    && Parses(kind, payload)
  }

  /** A typed call as a function of the tape: its outcome and the next call's position. */
  function Ask(tape: nat -> Reply, at: nat, kind: CallKind, attempts: nat): (r: (Result<Payload, RunError>, nat))
    ensures r.0.Ok? ==> Parses(kind, r.0.value)
    decreases attempts
  {
    if attempts == 0 then (Err(LlmOutput), at)
    else if tape(at).TransportFails? then (Err(LlmTransport), at + 1)
    else
      var answer := AnswerOf(tape(at).messages);
      if answer.Err? then (Err(LlmOutput), at + 1)
      else if Parses(kind, answer.value) then (Ok(answer.value), at + 1)
      else Ask(tape, at + 1, kind, attempts - 1)
  }

  ghost predicate WasAnswered(tape: nat -> Reply, n: nat, kind: CallKind, payload: Payload) {
    exists k: nat :: k < n && Accepted(tape, k, kind, payload)
  }

  /** A call uses at most its attempts, and its answer is held by a reply of its own. */
  lemma {:induction false} AskAccepts(tape: nat -> Reply, at: nat, kind: CallKind, attempts: nat)
    ensures at <= Ask(tape, at, kind, attempts).1 <= at + attempts
    ensures var r := Ask(tape, at, kind, attempts);
      r.0.Ok? ==> exists k: nat :: at <= k < r.1 && Accepted(tape, k, kind, r.0.value)
    decreases attempts
  {
    hide AnswerOf, Parses;
    if attempts > 0 && Ask(tape, at, kind, attempts).0.Ok? && Ask(tape, at, kind, attempts).1 == at + 1 {
      if Accepted(tape, at, kind, Ask(tape, at, kind, attempts).0.value) {
      } else {
        AskAccepts(tape, at + 1, kind, attempts - 1);
      }
    } else if attempts > 0 {
      AskAccepts(tape, at + 1, kind, attempts - 1);
    }
  }

  lemma AskWasAnswered(tape: nat -> Reply, at: nat, kind: CallKind, attempts: nat)
    ensures at <= Ask(tape, at, kind, attempts).1
    ensures var r := Ask(tape, at, kind, attempts); r.0.Ok? ==> WasAnswered(tape, r.1, kind, r.0.value)
  {
    hide Ask, Accepted;
    AskAccepts(tape, at, kind, attempts);
  }

  // ---- Parts of a publication --------------------------------------------

  function FindClass(classes: seq<ArtifactClassRule>, name: string): Option<ArtifactClassRule> {
    if classes == [] then None
    else if classes[0].name == name then Some(classes[0])
    else FindClass(classes[1..], name)
  }

  /** What a saved run publishes, and the state it saves. */
  datatype Publication = Publication(
    cycle: int,
    mode: ReviewMode,
    modeUncertain: bool,
    artifactClass: string,
    headline: string,
    findings: seq<Finding>,
    rowDispositions: seq<RowDisposition>,
    verificationLog: seq<VerificationEntry>,
    escalation: Option<EscalationEvent>,
    newState: ReviewState)

  /** `AuditFailed`: the state was saved, then writing the audit bundle raised. */
  datatype Outcome =
    | Published(publication: Publication)
    | AuditFailed(publication: Publication)
    | Failed(error: RunError)

  /** The clock, the hash, the renderer, and whether the file system cooperates. */
  datatype World = World(
    now: int, sha: string -> string, render: Publication -> string, written: nat, renames: bool, audits: bool)

  /** The deterministic candidates of a run: the base, and for a class that sweeps rows the
      gates over the model's claims and the missing sections. */
  ghost function DeterministicCandidates(deps: Deps, request: Request, rule: ArtifactClassRule,
                                         claims: seq<MeasurementClaim>): seq<CandidateFinding> {
    BaseCandidates(deps, request)
    + (if rule.sourceQualityOnly then []
       else deps.gates(claims, rule.name) + MissingSections(deps, request.text, rule, rule.requiresSections))
  }

  function Dispositions(rows: seq<OracleRow>, swept: map<string, RowDisposition>): seq<RowDisposition> {
    if rows == [] then []
    else (if rows[0].id in swept then [swept[rows[0].id]] else []) + Dispositions(rows[1..], swept)
  }

  function NewRecord(request: Request, world: World, pub: Publication): CycleRecord {
    CycleRecord(pub.cycle, world.now, pub.mode, pub.artifactClass, world.sha(request.text), Recorded(pub.findings))
  }

  // ---- Steps -------------------------------------------------------------

  /** Where a part of a review ends: with a result, or with the error that stops the
      review; and the next backend call in either case. */
  datatype Step<+T> = Go(value: T, next: nat) | Halt(error: RunError, next: nat) {
    predicate IsFailure() {
      Halt?
    }

    function PropagateFailure<U>(): Step<U>
      requires Halt?
    {
      Halt(error, next)
    }

    function Extract(): (T, nat)
      requires Go?
    {
      (value, next)
    }
  }

  function StepOf<T>(r: Result<T, RunError>, next: nat): Step<T> {
    if r.Ok? then Go(r.value, next) else Halt(r.error, next)
  }

  /** A typed call from position `at` on. */
  function Asked(deps: Deps, tape: nat -> Reply, at: nat, kind: CallKind): (s: Step<Payload>)
    ensures s.Go? ==> Parses(kind, s.value)
  {
    var r := Ask(tape, at, kind, Attempts(deps));
    StepOf(r.0, r.1)
  }

  // ---- Preparation -------------------------------------------------------

  predicate IsDeclared(deps: Deps, classify: ClassifyResult) {
    FindClass(deps.oracle.artifactClasses, classify.artifactClass).Some?
  }

  function Reclassified(deps: Deps, tape: nat -> Reply, at: nat): Step<ClassifyResult> {
    var (second, n) :- Asked(deps, tape, at, CLASSIFY);
    if IsDeclared(deps, second.classify) then Go(second.classify, n) else Halt(LlmOutput, n)
  }

  function Classified(deps: Deps, request: Request, tape: nat -> Reply, at: nat): Step<ClassifyResult> {
    var (first, n) :- Asked(deps, tape, at, CLASSIFY);
    var (known, m) :-
      if IsDeclared(deps, first.classify) then Go(first.classify, n) else Reclassified(deps, tape, n);
    if request.mode.Auto? && ResolveMode(deps, request, known) == (Advisory, true) then
      var (again, k) :- Asked(deps, tape, m, CLASSIFY);
      Go(again.classify, k)
    else Go(known, m)
  }

  /** The rows from the `i`-th on, swept into `rows`. */
  function SweptRows(deps: Deps, tape: nat -> Reply, at: nat, rows: map<string, RowDisposition>, i: nat)
    : Step<map<string, RowDisposition>>
    requires i <= |deps.oracle.rows|
    decreases |deps.oracle.rows| - i
  {
    if i == |deps.oracle.rows| then Go(rows, at)
    else
      var id := deps.oracle.rows[i].id;
      var (answer, n) :- Asked(deps, tape, at, ROW);
      SweptRows(deps, tape, n, rows[id := answer.row.(rowId := id)], i + 1)
  }

  /** What the verification loop starts from. */
  datatype Prepared = Prepared(
    classify: ClassifyResult,
    rule: ArtifactClassRule,
    deterministic: seq<CandidateFinding>,
    snap: Snapshot)

  ghost function Qualified(deps: Deps, request: Request, tape: nat -> Reply, at: nat, classify: ClassifyResult,
                           rule: ArtifactClassRule, claims: seq<MeasurementClaim>,
                           rows: map<string, RowDisposition>, judgement: Option<JudgementSweepResult>): Step<Prepared> {
    var (quality, n) :- Asked(deps, tape, at, SOURCE_QUALITY);
    Go(Prepared(classify, rule, DeterministicCandidates(deps, request, rule, claims),
                Snapshot(rows, Some(quality.sourceQuality), judgement, None)), n)
  }

  /** The three model calls of a class that sweeps rows. */
  function Swept(deps: Deps, tape: nat -> Reply, at: nat)
    : Step<(map<string, RowDisposition>, seq<MeasurementClaim>, JudgementSweepResult)>
  {
    var (rows, n) :- SweptRows(deps, tape, at, map[], 0);
    var (claims, m) :- Asked(deps, tape, n, CLAIMS);
    var (judged, k) :- Asked(deps, tape, m, JUDGEMENT);
    Go((rows, claims.claims.claims, judged.judgement), k)
  }

  ghost function PreparedFor(deps: Deps, request: Request, tape: nat -> Reply, at: nat): Step<Prepared> {
    var (classify, n) :- Classified(deps, request, tape, at);
    var rule := FindClass(deps.oracle.artifactClasses, classify.artifactClass);
    if rule.None? then Halt(Unexpected, n)
    else if rule.value.sourceQualityOnly then
      Qualified(deps, request, tape, n, classify, rule.value, [], map[], None)
    else
      var (swept, m) :- Swept(deps, tape, n);
      Qualified(deps, request, tape, m, classify, rule.value, swept.1, swept.0, Some(swept.2))
  }

  // ---- Verification ------------------------------------------------------

  /** The targets from the `i`-th on, asked again and filed in `rows`. */
  function RepairedRows(deps: Deps, tape: nat -> Reply, at: nat, rows: map<string, RowDisposition>,
                        targets: seq<string>, i: nat): Step<map<string, RowDisposition>>
    requires i <= |targets|
    decreases |targets| - i
  {
    if i == |targets| then Go(rows, at)
    else
      var (answer, n) :- Asked(deps, tape, at, ROW);
      RepairedRows(deps, tape, n, rows[targets[i] := answer.row], targets, i + 1)
  }

  /** What the verification loop ends with, if no error stops it. */
  datatype Verdict = Verdict(snap: Snapshot, findings: seq<Finding>, failed: Option<FailReason>)

  /** What an attempt ends with when this was its working set and `repairs` are left: a
      verdict, or the rows to ask for again. */
  ghost function Judged(deps: Deps, snap: Snapshot, findings: seq<Finding>, defects: seq<string>, repairs: nat)
    : Option<Verdict>
  {
    if defects == [] then Some(Verdict(snap, findings, None))
    else if repairs == 0 then Some(Verdict(snap, findings, Some(BudgetExhausted(Attempts(deps), defects))))
    else if DefectiveRows(defects, snap.rows.Keys) == [] then
      Some(Verdict(snap, findings, Some(NoRepairableCall(defects, snap.rows.Keys))))
    else None
  }

  /** The working set, its findings, and the verifier's answer after `n` calls. */
  ghost function Examined(deps: Deps, tape: nat -> Reply, n: nat, snap: Snapshot,
                          deterministic: seq<CandidateFinding>, mode: ReviewMode)
    : (Snapshot, seq<Finding>, seq<string>)
  {
    var findings := Assembled(deps, snap, deterministic, mode);
    (snap, findings, DefectsOf(deps, snap, findings, EvidenceUpTo(tape, n)))
  }

  /** One attempt up to the verifier's answer. */
  ghost function Attempted(deps: Deps, tape: nat -> Reply, at: nat, snap: Snapshot,
                           deterministic: seq<CandidateFinding>, mode: ReviewMode)
    : Step<(Snapshot, seq<Finding>, seq<string>)>
  {
    if !Presentable(deps, Tags(snap, deterministic)) then Halt(Unexpected, at)
    else
      var (answer, n) :- Asked(deps, tape, at, SYNTHESIS);
      Go(Examined(deps, tape, n, Synthesized(snap, answer.synthesis), deterministic, mode), n)
  }

  function Synthesized(snap: Snapshot, synthesis: SynthesisResult): Snapshot {
    snap.(synthesis := Some(synthesis))
  }

  ghost function Settled(deps: Deps, tape: nat -> Reply, at: nat, snap: Snapshot,
                         deterministic: seq<CandidateFinding>, mode: ReviewMode, repairs: nat): Step<Verdict>
    decreases repairs
  {
    var (done, n) :- Attempted(deps, tape, at, snap, deterministic, mode);
    var verdict := Judged(deps, done.0, done.1, done.2, repairs);
    if verdict.Some? then Go(verdict.value, n)
    else
      var (rows, m) :- RepairedRows(deps, tape, n, done.0.rows, DefectiveRows(done.2, done.0.rows.Keys), 0);
      Settled(deps, tape, m, done.0.(rows := rows), deterministic, mode, repairs - 1)
  }

  // ---- The review --------------------------------------------------------

  /** `max_regeneration_attempts`, where it matters. */
  function Repairs(deps: Deps): nat {
    if Attempts(deps) == 0 then 0 else Attempts(deps) - 1
  }

  function PublicationOf(deps: Deps, request: Request, world: World, state: ReviewState, prepared: Prepared,
                         verdict: Verdict, headline: string): Publication
  {
    var (mode, uncertain) := ResolveMode(deps, request, prepared.classify);
    var draft := Publication(
      state.cycle + 1, mode, uncertain, prepared.classify.artifactClass, headline, verdict.findings,
      Dispositions(deps.oracle.rows, verdict.snap.rows), AllEntries(verdict.snap),
      Escalation(state, verdict.findings, deps.oracle.escalationCycle), state);
    draft.(newState := state.(cycle := state.cycle + 1,
                              history := state.history + [NewRecord(request, world, draft)]))
  }

  /** The laundered headline; a settled working set always has its synthesis. */
  function HeadlineOf(deps: Deps, snap: Snapshot): string {
    if snap.synthesis.Some? then deps.launder(snap.synthesis.value.headline) else ""
  }

  /** From the verification loop to the report: an empty headline is refused by its model,
      and a refusal comes after that. */
  ghost function Concluded(deps: Deps, request: Request, world: World, state: ReviewState, tape: nat -> Reply,
                           prepared: Prepared, at: nat): Step<Publication> {
    var mode := ResolveMode(deps, request, prepared.classify).0;
    var (verdict, n) :- Settled(deps, tape, at, prepared.snap, prepared.deterministic, mode, Repairs(deps));
    var headline := HeadlineOf(deps, verdict.snap);
    if headline == [] then Halt(Unexpected, n)
    else if verdict.failed.Some? then Halt(ReviewFailed(verdict.failed.value), n)
    else Go(PublicationOf(deps, request, world, state, prepared, verdict, headline), n)
  }

  /** What one review of an artifact in this state comes to, before it is saved. */
  ghost function Reviewed(deps: Deps, request: Request, world: World, state: ReviewState, tape: nat -> Reply)
    : Step<Publication>
  {
    var (prepared, n) :- PreparedFor(deps, request, tape, 0);
    Concluded(deps, request, world, state, tape, prepared, n)
  }

  // ---- How a review can end ----------------------------------------------

  /** The errors of the model's side and of the review itself; not those of the store. */
  predicate IsReviewError(e: RunError) {
    e.LlmOutput? || e.LlmTransport? || e.Unexpected? || e.ReviewFailed?
  }

  predicate EndsWell<T>(s: Step<T>) {
    s.Halt? ==> IsReviewError(s.error)
  }

  lemma {:induction false} AskEnds(tape: nat -> Reply, at: nat, kind: CallKind, attempts: nat)
    ensures Ask(tape, at, kind, attempts).0.Err? ==> IsReviewError(Ask(tape, at, kind, attempts).0.error)
    decreases attempts
  {
    hide AnswerOf, Parses;
    if attempts > 0 { AskEnds(tape, at + 1, kind, attempts - 1); }
  }

  lemma AskedEnds(deps: Deps, tape: nat -> Reply, at: nat, kind: CallKind)
    ensures EndsWell(Asked(deps, tape, at, kind))
  {
    hide Ask;
    AskEnds(tape, at, kind, Attempts(deps));
  }

  lemma {:induction false} SweptRowsEnds(deps: Deps, tape: nat -> Reply, at: nat, rows: map<string, RowDisposition>,
                                         i: nat)
    requires i <= |deps.oracle.rows|
    ensures EndsWell(SweptRows(deps, tape, at, rows, i))
    decreases |deps.oracle.rows| - i
  {
    hide Asked;
    if i < |deps.oracle.rows| {
      AskedEnds(deps, tape, at, ROW);
      var s := Asked(deps, tape, at, ROW);
      if s.Go? {
        var id := deps.oracle.rows[i].id;
        SweptRowsEnds(deps, tape, s.next, rows[id := s.value.row.(rowId := id)], i + 1);
      }
    }
  }

  lemma {:induction false} RepairedRowsEnds(deps: Deps, tape: nat -> Reply, at: nat, rows: map<string, RowDisposition>,
                                            targets: seq<string>, i: nat)
    requires i <= |targets|
    ensures EndsWell(RepairedRows(deps, tape, at, rows, targets, i))
    decreases |targets| - i
  {
    hide Asked;
    if i < |targets| {
      AskedEnds(deps, tape, at, ROW);
      var s := Asked(deps, tape, at, ROW);
      if s.Go? {
        RepairedRowsEnds(deps, tape, s.next, rows[targets[i] := s.value.row], targets, i + 1);
      }
    }
  }

  lemma PreparedEnds(deps: Deps, request: Request, tape: nat -> Reply, at: nat)
    ensures EndsWell(PreparedFor(deps, request, tape, at))
  {
    hide Asked, FindClass, ResolveMode, SweptRows, DeterministicCandidates;
    forall n, kind ensures EndsWell(Asked(deps, tape, n, kind)) { AskedEnds(deps, tape, n, kind); }
    forall n ensures EndsWell(SweptRows(deps, tape, n, map[], 0)) { SweptRowsEnds(deps, tape, n, map[], 0); }
  }

  lemma {:induction false} SettledEnds(deps: Deps, tape: nat -> Reply, at: nat, snap: Snapshot,
                                       deterministic: seq<CandidateFinding>, mode: ReviewMode, repairs: nat)
    ensures EndsWell(Settled(deps, tape, at, snap, deterministic, mode, repairs))
    decreases repairs
  {
    hide Asked, RepairedRows, DefectiveRows, Presentable, Tags, Examined;
    AskedEnds(deps, tape, at, SYNTHESIS);
    var attempted := Attempted(deps, tape, at, snap, deterministic, mode);
    assert EndsWell(attempted);
    hide Attempted;
    if attempted.Go? {
      var (done, findings, defects) := attempted.value;
      if Judged(deps, done, findings, defects, repairs).None? && repairs > 0 {
        var targets := DefectiveRows(defects, done.rows.Keys);
        RepairedRowsEnds(deps, tape, attempted.next, done.rows, targets, 0);
        var repaired := RepairedRows(deps, tape, attempted.next, done.rows, targets, 0);
        if repaired.Go? {
          SettledEnds(deps, tape, repaired.next, done.(rows := repaired.value), deterministic, mode, repairs - 1);
        }
      }
    }
  }

  /** A review proper never ends with an error of the store. */
  lemma ReviewedEnds(deps: Deps, request: Request, world: World, state: ReviewState, tape: nat -> Reply)
    ensures EndsWell(Reviewed(deps, request, world, state, tape))
  {
    hide PreparedFor, Settled, ResolveMode, PublicationOf, HeadlineOf;
    PreparedEnds(deps, request, tape, 0);
    var prepared := PreparedFor(deps, request, tape, 0);
    if prepared.Go? {
      var p := prepared.value;
      SettledEnds(deps, tape, prepared.next, p.snap, p.deterministic, ResolveMode(deps, request, p.classify).0,
                  Repairs(deps));
    }
  }
}
