/** The call budget is met exactly: whatever the oracle and the settings, a model that answers
    each call on the last attempt only and logs nothing makes a review use every call. */
module CallBudget {
  import opened Wrappers
  import opened Text
  import opened Findings
  import opened Oracle
  import opened SeverityPolicy
  import opened Sweeps
  import opened Transcript
  import opened Verification
  import opened Repair
  import opened History
  import opened Assembly
  import opened Replay
  import opened Pipeline

  // ---- The model's answers -----------------------------------------------

  const CANDIDATE: CandidateFinding := CandidateFinding(INFO, "x", "x", [], [], [], "")
  const ROW_ANSWER: RowDisposition := RowDisposition("x", Hit, None, [CANDIDATE], [])
  const JUDGED: JudgementSweepResult := JudgementSweepResult([], [], [])
  const QUALITY: SourceQualityResult := SourceQualityResult([], [], [])
  const SYNTHESIZED: SynthesisResult := SynthesisResult("x", [], [])

  function Answer(payload: Payload): Reply {
    Stream([Message(Some([]), Some(ResultInfo(false, Some(payload), NoText)))])
  }

  /** Each answer is given on the last attempt for it. */
  function TapeOf(answers: seq<Payload>, attempts: nat): nat -> Reply
    requires attempts > 0
  {
    (k: nat) =>
      if k % attempts == attempts - 1 && k / attempts < |answers| then Answer(answers[k / attempts])
      else Answer(OtherPayload)
  }

  lemma AnswerIs(payload: Payload)
    ensures Answer(payload).Stream? && AnswerOf(Answer(payload).messages) == Ok(payload)
  {
  }

  lemma Position(c: nat, attempts: nat, i: nat)
    requires i < attempts
    ensures (Budget(c, attempts) + i) / attempts == c && (Budget(c, attempts) + i) % attempts == i
  {
    var x := Budget(c, attempts) + i;
    var q, r := x / attempts, x % attempts;
    assert x == Budget(q, attempts) + r;
    hide Budget;
    if q < c {
      OneMore(q, attempts);
      BudgetGrows(q + 1, c, attempts);
    } else if c < q {
      OneMore(c, attempts);
      BudgetGrows(c + 1, q, attempts);
    }
  }

  lemma TapeAt(answers: seq<Payload>, attempts: nat, c: nat, i: nat)
    requires i < attempts && c < |answers|
    ensures TapeOf(answers, attempts)(Budget(c, attempts) + i)
         == Answer(if i == attempts - 1 then answers[c] else OtherPayload)
  {
    hide Answer, Budget;
    Position(c, attempts, i);
  }

  lemma {:induction false} AskIsAnswered(answers: seq<Payload>, attempts: nat, c: nat, i: nat, kind: CallKind)
    requires i < attempts && c < |answers| && Parses(kind, answers[c])
    ensures Ask(TapeOf(answers, attempts), Budget(c, attempts) + i, kind, attempts - i)
         == (Ok(answers[c]), Budget(c + 1, attempts))
    decreases attempts - i
  {
    hide AnswerOf, Answer, TapeOf, Budget, Ask;
    TapeAt(answers, attempts, c, i);
    AnswerIs(OtherPayload);
    AnswerIs(answers[c]);
    AskStep(TapeOf(answers, attempts), Budget(c, attempts) + i, kind, attempts - i);
    if i < attempts - 1 {
      AskIsAnswered(answers, attempts, c, i + 1, kind);
    } else {
      OneMore(c, attempts);
    }
  }

  /** The `c`-th typed call from its position on. */
  lemma AskedAt(deps: Deps, answers: seq<Payload>, c: nat, kind: CallKind)
    requires Attempts(deps) > 0 && c < |answers| && Parses(kind, answers[c])
    ensures Asked(deps, TapeOf(answers, Attempts(deps)), Budget(c, Attempts(deps)), kind)
         == Go(answers[c], Budget(c + 1, Attempts(deps)))
  {
    hide Ask, Attempts, TapeOf, Budget, Parses;
    AskIsAnswered(answers, Attempts(deps), c, 0, kind);
  }

  // ---- Preparation -------------------------------------------------------

  /** A name longer than all declared ones. */
  function Undeclared(classes: seq<ArtifactClassRule>): (name: string)
    ensures forall i | 0 <= i < |classes| :: |classes[i].name| < |name|
  {
    if classes == [] then "x" else classes[0].name + Undeclared(classes[1..])
  }

  lemma {:induction false} NoSuchClass(classes: seq<ArtifactClassRule>, name: string)
    requires forall i | 0 <= i < |classes| :: classes[i].name != name
    ensures FindClass(classes, name).None?
  {
    if classes != [] {
      NoSuchClass(classes[1..], name);
    }
  }

  lemma {:induction false} ClassIsFound(classes: seq<ArtifactClassRule>, k: nat)
    requires k < |classes|
    requires forall i, j | 0 <= i < j < |classes| :: classes[i].name != classes[j].name
    ensures FindClass(classes, classes[k].name) == Some(classes[k])
  {
    if k > 0 {
      ClassIsFound(classes[1..], k - 1);
    }
  }

  function RowAnswers(n: nat): seq<Payload> {
    seq(n, _ => RowPayload(ROW_ANSWER))
  }

  /** A synthesis for each attempt, and all rows again for each repair. */
  function LoopAnswers(repairs: nat, rows: nat): seq<Payload> {
    if repairs == 0 then [SynthesisPayload(SYNTHESIZED)]
    else [SynthesisPayload(SYNTHESIZED)] + RowAnswers(rows) + LoopAnswers(repairs - 1, rows)
  }

  lemma {:induction false} LoopLength(repairs: nat, rows: nat)
    ensures |LoopAnswers(repairs, rows)| == Rounds(repairs, rows) + 1
  {
    if repairs > 0 {
      LoopLength(repairs - 1, rows);
    }
  }

  function Classifying(name: string): ClassifyResult {
    ClassifyResult(name, Advisory, None, [])
  }

  /** An undeclared class, the class, the class again because the mode is uncertain; then
      every row, the claims, the judgement and the source quality. */
  function FirstAnswers(oracle: OracleTable, rule: ArtifactClassRule): seq<Payload> {
    [ClassifyPayload(Classifying(Undeclared(oracle.artifactClasses))),
     ClassifyPayload(Classifying(rule.name)), ClassifyPayload(Classifying(rule.name))]
    + RowAnswers(|oracle.rows|)
    + [ClaimsPayload(ClaimsResult([])), JudgementPayload(JUDGED), SourceQualityPayload(QUALITY)]
  }

  function AllAnswers(deps: Deps, rule: ArtifactClassRule): seq<Payload> {
    FirstAnswers(deps.oracle, rule) + LoopAnswers(Repairs(deps), |deps.oracle.rows|)
  }

  lemma FirstAnswersAre(deps: Deps, rule: ArtifactClassRule)
    ensures var answers, n := AllAnswers(deps, rule), |deps.oracle.rows|;
      && |answers| == n + 6 + |LoopAnswers(Repairs(deps), n)|
      && answers[0] == ClassifyPayload(Classifying(Undeclared(deps.oracle.artifactClasses)))
      && answers[1] == answers[2] == ClassifyPayload(Classifying(rule.name))
      && (forall j | 3 <= j < 3 + n :: answers[j] == RowPayload(ROW_ANSWER))
      && answers[n + 3] == ClaimsPayload(ClaimsResult([])) && answers[n + 4] == JudgementPayload(JUDGED)
      && answers[n + 5] == SourceQualityPayload(QUALITY)
      && answers[n + 6..] == LoopAnswers(Repairs(deps), n)
  {
    hide LoopAnswers, Undeclared;
  }

  lemma AnswersParse()
    ensures Parses(ROW, RowPayload(ROW_ANSWER)) && Parses(CLAIMS, ClaimsPayload(ClaimsResult([])))
    ensures Parses(JUDGEMENT, JudgementPayload(JUDGED)) && Parses(SOURCE_QUALITY, SourceQualityPayload(QUALITY))
    ensures Parses(SYNTHESIS, SynthesisPayload(SYNTHESIZED))
    ensures forall name: string | name != [] :: Parses(CLASSIFY, ClassifyPayload(Classifying(name)))
  {
  }

  /** An undeclared class is asked for again, and so is the class of an uncertain mode. */
  lemma ClassifiedThrice(deps: Deps, request: Request, tape: nat -> Reply, n: nat, m: nat, k: nat,
                         first: ClassifyResult, second: ClassifyResult, third: ClassifyResult)
    requires Asked(deps, tape, 0, CLASSIFY) == Go(ClassifyPayload(first), n) && !IsDeclared(deps, first)
    requires Asked(deps, tape, n, CLASSIFY) == Go(ClassifyPayload(second), m) && IsDeclared(deps, second)
    requires request.mode.Auto? && ResolveMode(deps, request, second) == (Advisory, true)
    requires Asked(deps, tape, m, CLASSIFY) == Go(ClassifyPayload(third), k)
    ensures Classified(deps, request, tape, 0) == Go(third, k)
  {
    hide Asked, ResolveMode, IsDeclared;
  }

  lemma ClassNames(deps: Deps, rule: ArtifactClassRule)
    requires deps.oracle.Valid() && rule in deps.oracle.artifactClasses
    ensures rule.name != [] && FindClass(deps.oracle.artifactClasses, rule.name) == Some(rule)
    ensures FindClass(deps.oracle.artifactClasses, Undeclared(deps.oracle.artifactClasses)) == None
    ensures Undeclared(deps.oracle.artifactClasses) != []
  {
    var classes := deps.oracle.artifactClasses;
    var k :| 0 <= k < |classes| && classes[k] == rule;
    hide FindClass, Undeclared;
    NoSuchClass(classes, Undeclared(classes));
    ClassIsFound(classes, k);
  }

  lemma ThreeClassifyCalls(deps: Deps, request: Request, rule: ArtifactClassRule)
    requires deps.oracle.Valid() && Attempts(deps) > 0 && rule in deps.oracle.artifactClasses
    requires request.mode.Auto? && MarkersPresent(deps.oracle.markers, request.text)
    ensures Classified(deps, request, TapeOf(AllAnswers(deps, rule), Attempts(deps)), 0)
         == Go(Classifying(rule.name), Budget(3, Attempts(deps)))
    ensures FindClass(deps.oracle.artifactClasses, rule.name) == Some(rule)
  {
    var answers, a := AllAnswers(deps, rule), Attempts(deps);
    var unknown := Classifying(Undeclared(deps.oracle.artifactClasses));
    assert ResolveMode(deps, request, Classifying(rule.name)) == (Advisory, true);
    ClassNames(deps, rule);
    assert !IsDeclared(deps, unknown) && IsDeclared(deps, Classifying(rule.name));
    assert Budget(0, a) == 0;
    hide *;
    AnswersParse();
    FirstAnswersAre(deps, rule);
    AskedAt(deps, answers, 0, CLASSIFY);
    AskedAt(deps, answers, 1, CLASSIFY);
    AskedAt(deps, answers, 2, CLASSIFY);
    ClassifiedThrice(deps, request, TapeOf(answers, a), Budget(1, a), Budget(2, a), Budget(3, a), unknown,
                     Classifying(rule.name), Classifying(rule.name));
  }

  /** Every row holds the same finding, and no entry for the log. */
  predicate Bare(rows: map<string, RowDisposition>) {
    forall id | id in rows :: rows[id].findings == [CANDIDATE] && rows[id].verificationEntries == []
  }

  function IdsFrom(rows: seq<OracleRow>, i: nat): set<string> {
    set j | i <= j < |rows| :: rows[j].id
  }

  lemma {:induction false} RowsAreSwept(deps: Deps, answers: seq<Payload>, c: nat,
                                        rows: map<string, RowDisposition>, i: nat)
    requires Attempts(deps) > 0 && i <= |deps.oracle.rows| && Bare(rows)
    requires c + |deps.oracle.rows| - i <= |answers|
    requires forall j | c <= j < c + |deps.oracle.rows| - i :: answers[j] == RowPayload(ROW_ANSWER)
    ensures var s := SweptRows(deps, TapeOf(answers, Attempts(deps)), Budget(c, Attempts(deps)), rows, i);
      && s.Go? && s.next == Budget(c + |deps.oracle.rows| - i, Attempts(deps))
      && Bare(s.value) && s.value.Keys == rows.Keys + IdsFrom(deps.oracle.rows, i)
    decreases |deps.oracle.rows| - i
  {
    hide Budget, TapeOf, Attempts, Asked, Parses;
    if i < |deps.oracle.rows| {
      var id := deps.oracle.rows[i].id;
      AnswersParse();
      AskedAt(deps, answers, c, ROW);
      RowsAreSwept(deps, answers, c + 1, rows[id := ROW_ANSWER.(rowId := id)], i + 1);
      assert IdsFrom(deps.oracle.rows, i) == {id} + IdsFrom(deps.oracle.rows, i + 1);
    }
  }

  /** A working set in which every row holds a finding and nothing is logged. */
  predicate Unlogging(deps: Deps, snap: Snapshot) {
    && snap.rows.Keys == deps.oracle.RowIds() && Bare(snap.rows)
    && snap.sourceQuality == Some(QUALITY) && snap.judgement == Some(JUDGED)
  }

  lemma SweptIs(deps: Deps, tape: nat -> Reply, at: nat, n: nat, m: nat, k: nat,
                rows: map<string, RowDisposition>)
    requires SweptRows(deps, tape, at, map[], 0) == Go(rows, n)
    requires Asked(deps, tape, n, CLAIMS) == Go(ClaimsPayload(ClaimsResult([])), m)
    requires Asked(deps, tape, m, JUDGEMENT) == Go(JudgementPayload(JUDGED), k)
    ensures Swept(deps, tape, at) == Go((rows, [], JUDGED), k)
  {
    hide Asked, SweptRows;
  }

  lemma SweptCalls(deps: Deps, rule: ArtifactClassRule) returns (rows: map<string, RowDisposition>)
    requires Attempts(deps) > 0
    ensures Swept(deps, TapeOf(AllAnswers(deps, rule), Attempts(deps)), Budget(3, Attempts(deps)))
         == Go((rows, [], JUDGED), Budget(|deps.oracle.rows| + 5, Attempts(deps)))
    ensures Bare(rows) && rows.Keys == deps.oracle.RowIds()
  {
    var answers, n, a := AllAnswers(deps, rule), |deps.oracle.rows|, Attempts(deps);
    var none: map<string, RowDisposition> := map[];
    assert none.Keys + IdsFrom(deps.oracle.rows, 0) == deps.oracle.RowIds();
    assert Bare(none);
    hide *;
    FirstAnswersAre(deps, rule);
    AnswersParse();
    RowsAreSwept(deps, answers, 3, none, 0);
    rows := SweptRows(deps, TapeOf(answers, a), Budget(3, a), none, 0).value;
    AskedAt(deps, answers, n + 3, CLAIMS);
    AskedAt(deps, answers, n + 4, JUDGEMENT);
    SweptIs(deps, TapeOf(answers, a), Budget(3, a), Budget(n + 3, a), Budget(n + 4, a), Budget(n + 5, a), rows);
  }

  lemma PreparedIs(deps: Deps, request: Request, tape: nat -> Reply, n: nat, m: nat, k: nat,
                   classify: ClassifyResult, rule: ArtifactClassRule, rows: map<string, RowDisposition>)
    requires Classified(deps, request, tape, 0) == Go(classify, n)
    requires FindClass(deps.oracle.artifactClasses, classify.artifactClass) == Some(rule) && !rule.sourceQualityOnly
    requires Swept(deps, tape, n) == Go((rows, [], JUDGED), m)
    requires Asked(deps, tape, m, SOURCE_QUALITY) == Go(SourceQualityPayload(QUALITY), k)
    ensures PreparedFor(deps, request, tape, 0)
         == Go(Prepared(classify, rule, DeterministicCandidates(deps, request, rule, []),
                        Snapshot(rows, Some(QUALITY), Some(JUDGED), None)), k)
  {
    hide Classified, FindClass, Swept, Asked, DeterministicCandidates;
  }

  lemma PreparedCalls(deps: Deps, request: Request, rule: ArtifactClassRule)
    requires deps.oracle.Valid() && Attempts(deps) > 0 && rule in deps.oracle.artifactClasses
    requires request.mode.Auto? && MarkersPresent(deps.oracle.markers, request.text) && !rule.sourceQualityOnly
    ensures var s := PreparedFor(deps, request, TapeOf(AllAnswers(deps, rule), Attempts(deps)), 0);
      && s.Go? && s.next == Budget(|deps.oracle.rows| + 6, Attempts(deps))
      && s.value.classify == Classifying(rule.name) && Unlogging(deps, s.value.snap)
      && s.value.deterministic == DeterministicCandidates(deps, request, rule, [])
  {
    var answers, n, a := AllAnswers(deps, rule), |deps.oracle.rows|, Attempts(deps);
    hide TapeOf, AllAnswers, Attempts, Asked, Parses, FindClass, DeterministicCandidates, OracleTable.Valid, Classified,
      LoopAnswers, MarkersPresent, Swept, OracleTable.RowIds, PreparedFor, Budget, Bare;
    ThreeClassifyCalls(deps, request, rule);
    var rows := SweptCalls(deps, rule);
    FirstAnswersAre(deps, rule);
    AnswersParse();
    AskedAt(deps, answers, n + 5, SOURCE_QUALITY);
    PreparedIs(deps, request, TapeOf(answers, a), Budget(3, a), Budget(n + 5, a), Budget(n + 6, a),
               Classifying(rule.name), rule, rows);
  }

  // ---- Verification ------------------------------------------------------

  lemma {:induction false} EveryRowIsTagged(rows: map<string, RowDisposition>, ids: seq<string>)
    requires Bare(rows) && forall i | 0 <= i < |ids| :: ids[i] in rows
    ensures |TagRows(rows, ids)| == |ids|
    ensures forall i | 0 <= i < |ids| :: TagRows(rows, ids)[i] == Tagged(CANDIDATE, Some(ids[i]), Llm)
  {
    if ids != [] {
      EveryRowIsTagged(rows, ids[..|ids| - 1]);
    }
  }

  lemma {:induction false} NoRowIsLogged(rows: map<string, RowDisposition>, ids: seq<string>)
    requires Bare(rows) && forall i | 0 <= i < |ids| :: ids[i] in rows
    ensures RowEntries(rows, ids) == []
  {
    if ids != [] {
      NoRowIsLogged(rows, ids[..|ids| - 1]);
    }
  }

  lemma NothingIsLogged(deps: Deps, snap: Snapshot)
    requires Unlogging(deps, snap)
    ensures AllEntries(snap) == [] && EntryRows(AllEntries(snap)) == {}
  {
    hide Sorted, OracleTable.RowIds;
    NoRowIsLogged(snap.rows, Sorted(snap.rows.Keys));
  }

  /** What is tagged: the deterministic candidates, and one finding for every row. */
  lemma TagsOfUnlogging(deps: Deps, snap: Snapshot, deterministic: seq<CandidateFinding>)
    requires Unlogging(deps, snap)
    ensures var ids := Sorted(snap.rows.Keys);
      Tags(snap, deterministic)
      == TagAll(deterministic, None, Deterministic) + seq(|ids|, i requires 0 <= i < |ids| =>
           Tagged(CANDIDATE, Some(ids[i]), Llm))
  {
    var ids := Sorted(snap.rows.Keys);
    hide Sorted, OracleTable.RowIds, TagRows;
    EveryRowIsTagged(snap.rows, ids);
  }

  lemma RowIsCited(deps: Deps, id: string, index: nat, mode: ReviewMode)
    requires id != []
    ensures var f := Capped(deps.oracle, ToFinding(deps, Tagged(CANDIDATE, Some(id), Llm), index), mode);
      f.origin.Llm? && f.doctrineRefs == [id]
  {
    assert KnownRefs(deps.oracle, []) == [];
    CappedKeepsIdentity(deps.oracle, ToFinding(deps, Tagged(CANDIDATE, Some(id), Llm), index), mode);
    hide Capped, SlugOf, Decimal, KnownRefs;
  }

  /** So the verifier misses an entry for every row. */
  lemma EveryRowIsDefective(deps: Deps, snap: Snapshot, deterministic: seq<CandidateFinding>, mode: ReviewMode,
                            evidence: seq<ToolEvidence>, id: string)
    requires deps.oracle.Valid() && Unlogging(deps, snap) && id in snap.rows
    ensures Defective(DefectsOf(deps, snap, Assembled(deps, snap, deterministic, mode), evidence), id)
  {
    hide *;
    var findings := Assembled(deps, snap, deterministic, mode);
    var i := RowIsTagged(deps, snap, deterministic, id);
    RowIsUnlogged(deps, snap, deterministic, mode, i, id);
    DefectIsReported(deps, snap, findings, evidence, i, id);
  }

  lemma RowIsTagged(deps: Deps, snap: Snapshot, deterministic: seq<CandidateFinding>, id: string) returns (i: nat)
    requires Unlogging(deps, snap) && id in snap.rows
    ensures i < |Tags(snap, deterministic)| && Tags(snap, deterministic)[i] == Tagged(CANDIDATE, Some(id), Llm)
  {
    var ids := Sorted(snap.rows.Keys);
    assert id in ids;
    hide Sorted, Tags, Unlogging;
    var k :| 0 <= k < |ids| && ids[k] == id;
    TagsOfUnlogging(deps, snap, deterministic);
    i := |deterministic| + k;
  }

  lemma RowIsUnlogged(deps: Deps, snap: Snapshot, deterministic: seq<CandidateFinding>, mode: ReviewMode,
                      i: nat, id: string)
    requires deps.oracle.Valid() && Unlogging(deps, snap) && id in snap.rows
    requires i < |Tags(snap, deterministic)| && Tags(snap, deterministic)[i] == Tagged(CANDIDATE, Some(id), Llm)
    ensures Unlogged(Assembled(deps, snap, deterministic, mode), EntryRows(AllEntries(snap)), i, id)
  {
    assert id != [];
    assert snap.rows.Keys <= deps.oracle.RowIds();
    hide Tags, OracleTable.Valid, OracleTable.RowIds, DefaultsKnown, ToFinding, Capped, AllEntries, EntryRows,
      Unlogging;
    TagsKnown(deps.oracle, snap, deterministic);
    assert i < |Assembled(deps, snap, deterministic, mode)|;
    hide Assembled;
    AssembledAt(deps, snap, deterministic, mode, i);
    RowIsCited(deps, id, i + 1, mode);
    NothingIsLogged(deps, snap);
  }

  lemma DefectIsReported(deps: Deps, snap: Snapshot, findings: seq<Finding>, evidence: seq<ToolEvidence>, i: nat,
                         id: string)
    requires Unlogged(findings, EntryRows(AllEntries(snap)), i, id)
    ensures Defective(DefectsOf(deps, snap, findings, evidence), id)
  {
    hide CompletenessDefects, CompletenessDefect, AllEntries, EntryRows, HonestyDefects, ProseBlocks, MentionsRow;
    var d := CompletenessDefect(findings[i].findingId, id);
    DefectsAreUnlogged(findings, EntryRows(AllEntries(snap)), d);
    SelectsOwnRow(findings[i].findingId, id);
    var j :| 0 <= j < |CompletenessDefects(findings, EntryRows(AllEntries(snap)))|
      && CompletenessDefects(findings, EntryRows(AllEntries(snap)))[j] == d;
    assert DefectsOf(deps, snap, findings, evidence)[j] == d;
  }

  lemma {:induction false} IdsAreRows(rows: seq<OracleRow>)
    requires forall i, j | 0 <= i < j < |rows| :: rows[i].id != rows[j].id
    ensures |set i | 0 <= i < |rows| :: rows[i].id| == |rows|
  {
    if rows != [] {
      var n := |rows| - 1;
      var init := set i | 0 <= i < n :: rows[..n][i].id;
      IdsAreRows(rows[..n]);
      assert (set i | 0 <= i < |rows| :: rows[i].id) == init + {rows[n].id};
      assert rows[n].id !in init;
    }
  }

  /** and all rows are asked for again. */
  lemma AllRowsAreTargets(deps: Deps, snap: Snapshot, deterministic: seq<CandidateFinding>, mode: ReviewMode,
                          evidence: seq<ToolEvidence>)
    requires deps.oracle.Valid() && Unlogging(deps, snap)
    ensures var defects := DefectsOf(deps, snap, Assembled(deps, snap, deterministic, mode), evidence);
      defects != [] && AreAllRows(deps, DefectiveRows(defects, snap.rows.Keys), snap.rows)
  {
    var defects := DefectsOf(deps, snap, Assembled(deps, snap, deterministic, mode), evidence);
    assert snap.rows.Keys == deps.oracle.RowIds();
    hide DefectsOf, Assembled, MentionsRow, Bare;
    forall id | id in snap.rows ensures Defective(defects, id) {
      EveryRowIsDefective(deps, snap, deterministic, mode, evidence, id);
    }
    TargetsOfAll(deps, defects, snap.rows);
  }

  predicate AreAllRows(deps: Deps, targets: seq<string>, rows: map<string, RowDisposition>) {
    |targets| == |deps.oracle.rows| > 0 && forall t | t in targets :: t in rows
  }

  lemma TargetsOfAll(deps: Deps, defects: seq<string>, rows: map<string, RowDisposition>)
    requires deps.oracle.Valid() && rows.Keys == deps.oracle.RowIds()
    requires forall id | id in rows :: Defective(defects, id)
    ensures defects != [] && AreAllRows(deps, DefectiveRows(defects, rows.Keys), rows)
  {
    IdsAreRows(deps.oracle.rows);
    assert Defective(defects, deps.oracle.rows[0].id);
    hide OracleTable.Valid, MentionsRow, OracleTable.RowIds;
    assert defects != [];
    assert (set r | r in rows.Keys && Defective(defects, r)) == rows.Keys;
  }

  lemma {:induction false} RowsAreRepaired(deps: Deps, answers: seq<Payload>, c: nat,
                                           rows: map<string, RowDisposition>, targets: seq<string>, i: nat)
    requires Attempts(deps) > 0 && i <= |targets| && Bare(rows) && forall t | t in targets :: t in rows
    requires c + |targets| - i <= |answers|
    requires forall j | c <= j < c + |targets| - i :: answers[j] == RowPayload(ROW_ANSWER)
    ensures var s := RepairedRows(deps, TapeOf(answers, Attempts(deps)), Budget(c, Attempts(deps)), rows, targets, i);
      && s.Go? && s.next == Budget(c + |targets| - i, Attempts(deps))
      && Bare(s.value) && s.value.Keys == rows.Keys
    decreases |targets| - i
  {
    hide Budget, TapeOf, Attempts, Asked, Parses;
    if i < |targets| {
      AnswersParse();
      AskedAt(deps, answers, c, ROW);
      assert targets[i] in targets;
      RowsAreRepaired(deps, answers, c + 1, rows[targets[i] := ROW_ANSWER], targets, i + 1);
    }
  }

  /** The summaries of a run that its own collaborators produce survive laundering, and so
      does that of a plain finding. */
  predicate KeepsSummaries(deps: Deps, deterministic: seq<CandidateFinding>) {
    && deps.launder("x") != []
    && forall i | 0 <= i < |deterministic| :: deps.launder(deterministic[i].summary) != []
  }

  lemma UnloggingIsPresentable(deps: Deps, snap: Snapshot, deterministic: seq<CandidateFinding>)
    requires Unlogging(deps, snap) && KeepsSummaries(deps, deterministic)
    ensures Presentable(deps, Tags(snap, deterministic))
  {
    hide Tags, Sorted, Unlogging;
    TagsOfUnlogging(deps, snap, deterministic);
  }

  /** One attempt: a synthesis, and a defect for every row. */
  lemma AttemptCalls(deps: Deps, answers: seq<Payload>, c: nat, snap: Snapshot, deterministic: seq<CandidateFinding>,
                     mode: ReviewMode) returns (findings: seq<Finding>, defects: seq<string>)
    requires deps.oracle.Valid() && Attempts(deps) > 0 && Unlogging(deps, snap) && KeepsSummaries(deps, deterministic)
    requires c < |answers| && answers[c] == SynthesisPayload(SYNTHESIZED)
    ensures Attempted(deps, TapeOf(answers, Attempts(deps)), Budget(c, Attempts(deps)), snap, deterministic, mode)
         == Go((Synthesized(snap, SYNTHESIZED), findings, defects), Budget(c + 1, Attempts(deps)))
    ensures defects != [] && AreAllRows(deps, DefectiveRows(defects, snap.rows.Keys), snap.rows)
  {
    var tape, done := TapeOf(answers, Attempts(deps)), Synthesized(snap, SYNTHESIZED);
    findings := Assembled(deps, done, deterministic, mode);
    defects := DefectsOf(deps, done, findings, EvidenceUpTo(tape, Budget(c + 1, Attempts(deps))));
    hide Budget, TapeOf, Attempts, Asked, Parses, Presentable, Tags, Assembled, DefectsOf, OracleTable.Valid,
      EvidenceUpTo, DefectiveRows, OracleTable.RowIds, Bare, AreAllRows, KeepsSummaries;
    AnswersParse();
    UnloggingIsPresentable(deps, snap, deterministic);
    AskedAt(deps, answers, c, SYNTHESIS);
    AllRowsAreTargets(deps, done, deterministic, mode, EvidenceUpTo(tape, Budget(c + 1, Attempts(deps))));
  }

  lemma LoopStarts(answers: seq<Payload>, c: nat, repairs: nat, rows: nat)
    requires c <= |answers| && answers[c..] == LoopAnswers(repairs, rows)
    ensures c < |answers| && answers[c] == SynthesisPayload(SYNTHESIZED)
    ensures repairs == 0 ==> c + 1 == |answers|
    ensures repairs > 0 ==>
      && c + 1 + rows <= |answers| && answers[c + 1 + rows..] == LoopAnswers(repairs - 1, rows)
      && forall j | c + 1 <= j < c + 1 + rows :: answers[j] == RowPayload(ROW_ANSWER)
  {
    var loop := answers[c..];
    assert answers[c] == loop[0];
    if repairs > 0 {
      var rest := LoopAnswers(repairs - 1, rows);
      assert loop == [SynthesisPayload(SYNTHESIZED)] + RowAnswers(rows) + rest;
      assert answers[c + 1 + rows..] == loop[1 + rows..] == rest;
      hide LoopAnswers;
      forall j | c + 1 <= j < c + 1 + rows ensures answers[j] == RowPayload(ROW_ANSWER) {
        assert answers[j] == loop[j - c] == RowAnswers(rows)[j - c - 1];
      }
    }
  }

  /** The loop ends with its attempts used up, and with a synthesis. */
  predicate IsRefusal(s: Step<Verdict>) {
    && s.Go? && s.value.snap.synthesis == Some(SYNTHESIZED)
    && s.value.failed.Some? && s.value.failed.value.BudgetExhausted?
  }

  lemma LastAttemptRefuses(deps: Deps, tape: nat -> Reply, at: nat, snap: Snapshot,
                           deterministic: seq<CandidateFinding>, mode: ReviewMode, findings: seq<Finding>,
                           defects: seq<string>, n: nat)
    requires Attempted(deps, tape, at, snap, deterministic, mode)
          == Go((Synthesized(snap, SYNTHESIZED), findings, defects), n)
    requires defects != []
    ensures var s := Settled(deps, tape, at, snap, deterministic, mode, 0);
      s.next == n && IsRefusal(s)
  {
    hide Attempted, Settled, DefectiveRows;
    SettledStep(deps, tape, at, snap, deterministic, mode, 0);
  }

  lemma RepairGoesOn(deps: Deps, tape: nat -> Reply, at: nat, snap: Snapshot, deterministic: seq<CandidateFinding>,
                     mode: ReviewMode, repairs: nat, findings: seq<Finding>, defects: seq<string>, n: nat,
                     rows: map<string, RowDisposition>, next: nat)
    requires repairs > 0 && defects != []
    requires Attempted(deps, tape, at, snap, deterministic, mode)
          == Go((Synthesized(snap, SYNTHESIZED), findings, defects), n)
    requires AreAllRows(deps, DefectiveRows(defects, snap.rows.Keys), snap.rows)
    requires RepairedRows(deps, tape, n, snap.rows, DefectiveRows(defects, snap.rows.Keys), 0) == Go(rows, next)
    ensures Settled(deps, tape, at, snap, deterministic, mode, repairs)
         == Settled(deps, tape, next, Synthesized(snap, SYNTHESIZED).(rows := rows), deterministic, mode, repairs - 1)
  {
    hide Attempted, Settled, DefectiveRows, RepairedRows;
    SettledStep(deps, tape, at, snap, deterministic, mode, repairs);
  }

  lemma RepairCalls(deps: Deps, answers: seq<Payload>, c: nat, snap: Snapshot, targets: seq<string>)
    returns (rows: map<string, RowDisposition>)
    requires Attempts(deps) > 0 && Unlogging(deps, snap) && AreAllRows(deps, targets, snap.rows)
    requires c + |deps.oracle.rows| <= |answers|
    requires forall j | c <= j < c + |deps.oracle.rows| :: answers[j] == RowPayload(ROW_ANSWER)
    ensures RepairedRows(deps, TapeOf(answers, Attempts(deps)), Budget(c, Attempts(deps)), snap.rows, targets, 0)
         == Go(rows, Budget(c + |deps.oracle.rows|, Attempts(deps)))
    ensures Unlogging(deps, Synthesized(snap, SYNTHESIZED).(rows := rows))
  {
    hide RepairedRows, TapeOf, Budget, Attempts, Bare, OracleTable.RowIds;
    RowsAreRepaired(deps, answers, c, snap.rows, targets, 0);
    rows := RepairedRows(deps, TapeOf(answers, Attempts(deps)), Budget(c, Attempts(deps)), snap.rows, targets, 0).value;
  }

  /** A full round: a synthesis, then every row again. */
  lemma RoundCalls(deps: Deps, answers: seq<Payload>, c: nat, snap: Snapshot, deterministic: seq<CandidateFinding>,
                   mode: ReviewMode, repairs: nat) returns (next: Snapshot)
    requires deps.oracle.Valid() && Attempts(deps) > 0 && Unlogging(deps, snap) && KeepsSummaries(deps, deterministic)
    requires repairs > 0 && c + 1 + |deps.oracle.rows| <= |answers| && answers[c] == SynthesisPayload(SYNTHESIZED)
    requires forall j | c + 1 <= j < c + 1 + |deps.oracle.rows| :: answers[j] == RowPayload(ROW_ANSWER)
    ensures Unlogging(deps, next)
    ensures var tape := TapeOf(answers, Attempts(deps));
      Settled(deps, tape, Budget(c, Attempts(deps)), snap, deterministic, mode, repairs)
      == Settled(deps, tape, Budget(c + 1 + |deps.oracle.rows|, Attempts(deps)), next, deterministic, mode, repairs - 1)
  {
    hide *;
    var tape, at, n := TapeOf(answers, Attempts(deps)), Budget(c, Attempts(deps)), |deps.oracle.rows|;
    var findings, defects := AttemptCalls(deps, answers, c, snap, deterministic, mode);
    var rows := RepairCalls(deps, answers, c + 1, snap, DefectiveRows(defects, snap.rows.Keys));
    next := Synthesized(snap, SYNTHESIZED).(rows := rows);
    RepairGoesOn(deps, tape, at, snap, deterministic, mode, repairs, findings, defects, Budget(c + 1, Attempts(deps)),
                 rows, Budget(c + 1 + n, Attempts(deps)));
  }

  lemma {:induction false} LoopCalls(deps: Deps, answers: seq<Payload>, c: nat, snap: Snapshot,
                                     deterministic: seq<CandidateFinding>, mode: ReviewMode, repairs: nat)
    requires deps.oracle.Valid() && Attempts(deps) > 0 && Unlogging(deps, snap) && KeepsSummaries(deps, deterministic)
    requires c <= |answers| && answers[c..] == LoopAnswers(repairs, |deps.oracle.rows|)
    ensures var tape, at := TapeOf(answers, Attempts(deps)), Budget(c, Attempts(deps));
      var s := Settled(deps, tape, at, snap, deterministic, mode, repairs);
      s.next == Budget(|answers|, Attempts(deps)) && IsRefusal(s)
    decreases repairs
  {
    hide *;
    LoopStarts(answers, c, repairs, |deps.oracle.rows|);
    if repairs == 0 {
      var tape, at := TapeOf(answers, Attempts(deps)), Budget(c, Attempts(deps));
      var findings, defects := AttemptCalls(deps, answers, c, snap, deterministic, mode);
      LastAttemptRefuses(deps, tape, at, snap, deterministic, mode, findings, defects, Budget(c + 1, Attempts(deps)));
    } else {
      var next := RoundCalls(deps, answers, c, snap, deterministic, mode, repairs);
      LoopCalls(deps, answers, c + 1 + |deps.oracle.rows|, next, deterministic, mode, repairs - 1);
    }
  }

  // ---- The whole review --------------------------------------------------

  lemma AnswersFillTheLimit(deps: Deps, rule: ArtifactClassRule)
    requires Attempts(deps) > 0
    ensures Budget(|AllAnswers(deps, rule)|, Attempts(deps)) == CallLimit(deps)
  {
    assert Repairs(deps) == Attempts(deps) - 1;
    hide Attempts, AllAnswers, LoopAnswers, Rounds, Budget, CallLimit, Repairs;
    FirstAnswersAre(deps, rule);
    LoopLength(Repairs(deps), |deps.oracle.rows|);
    LimitIs(deps);
  }

  /** Whatever the oracle, the settings and the collaborators: if a class sweeps rows and the
      artifact of an automatic review names a marker, some model makes the review use every
      call of the limit, and it ends refused with its attempts used up. */
  lemma CallLimitIsAttained(deps: Deps, request: Request, world: World, state: ReviewState, rule: ArtifactClassRule)
    returns (tape: nat -> Reply)
    requires deps.oracle.Valid() && deps.maxRegenerationAttempts >= 0
    requires rule in deps.oracle.artifactClasses && !rule.sourceQualityOnly
    requires request.mode.Auto? && MarkersPresent(deps.oracle.markers, request.text)
    requires KeepsSummaries(deps, DeterministicCandidates(deps, request, rule, []))
    ensures var s := Reviewed(deps, request, world, state, tape);
      && s.next == CallLimit(deps)
      && s.Halt? && s.error.ReviewFailed? && s.error.reason.BudgetExhausted?
  {
    var answers, n := AllAnswers(deps, rule), |deps.oracle.rows|;
    assert Attempts(deps) > 0;
    tape := TapeOf(answers, Attempts(deps));
    assert deps.launder("x") != [];
    hide *;
    PreparedCalls(deps, request, rule);
    FirstAnswersAre(deps, rule);
    AnswersFillTheLimit(deps, rule);
    var prepared := PreparedFor(deps, request, tape, 0);
    var p, mode := prepared.value, ResolveMode(deps, request, prepared.value.classify).0;
    LoopCalls(deps, answers, n + 6, p.snap, p.deterministic, mode, Repairs(deps));
    RefusalIsReported(deps, request, world, state, tape, p, prepared.next, mode);
    ReviewedIs(deps, request, world, state, tape);
  }

  lemma RefusalIsReported(deps: Deps, request: Request, world: World, state: ReviewState, tape: nat -> Reply,
                          p: Prepared, at: nat, mode: ReviewMode)
    requires mode == ResolveMode(deps, request, p.classify).0 && deps.launder("x") != []
    requires IsRefusal(Settled(deps, tape, at, p.snap, p.deterministic, mode, Repairs(deps)))
    ensures var s := Concluded(deps, request, world, state, tape, p, at);
      && s.next == Settled(deps, tape, at, p.snap, p.deterministic, mode, Repairs(deps)).next
      && s.Halt? && s.error.ReviewFailed? && s.error.reason.BudgetExhausted?
  {
    hide Settled, ResolveMode, PublicationOf, Concluded;
    ConcludedStep(deps, request, world, state, tape, p, at, mode);
  }

  lemma ReviewedIs(deps: Deps, request: Request, world: World, state: ReviewState, tape: nat -> Reply)
    requires PreparedFor(deps, request, tape, 0).Go?
    ensures var prepared := PreparedFor(deps, request, tape, 0);
      Reviewed(deps, request, world, state, tape)
      == Concluded(deps, request, world, state, tape, prepared.value, prepared.next)
  {
    hide PreparedFor, Concluded;
  }
}
