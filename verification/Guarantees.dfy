/** What holds of every review run, for every model: consequences that span the adapter,
    the pipeline, the verifier, the severity policy and the escalator. */
module Guarantees {
  import opened Wrappers
  import opened Text
  import opened Squashing
  import opened Findings
  import opened Oracle
  import opened SeverityPolicy
  import opened Sweeps
  import opened Transcript
  import opened Verification
  import opened Repair
  import opened History
  import opened Assembly
  import opened Replay
  import opened Pipeline

  // ---- Tool honesty, end to end ------------------------------------------

  /** In some call of the run, a fetch-class tool was used on a target that matches the
      entry, and later, with no other use of that use's id between, a result with the id was
      no error. (Results that are errors may stand between: they count for nothing.) */
  ghost predicate FetchedInTranscript(deps: Deps, tape: nat -> Reply, calls: nat, entry: VerificationEntry) {
    exists k: nat, u: nat, r: nat :: k < calls && FetchedAt(deps, tape(k), u, r, entry)
  }

  ghost predicate FetchedAt(deps: Deps, reply: Reply, u: nat, r: nat, entry: VerificationEntry) {
    && reply.Stream?
    && var blocks := Blocks(reply.messages);
       && r < |blocks| && blocks[r].ToolResult? && !blocks[r].isError
       && LastUseBefore(blocks, u, r, blocks[r].toolUseId)
       && blocks[u].name in deps.checker.fetchTools
       && exists target :: IsTarget(blocks[u].input, target) && Matches(entry, target)
  }

  lemma {:induction false} EvidenceHasOrigin(tape: nat -> Reply, n: nat, e: ToolEvidence) returns (k: nat)
    requires e in EvidenceUpTo(tape, n)
    ensures k < n && e in EvidenceIn(tape(k))
  {
    hide EvidenceIn;
    if e in EvidenceIn(tape(n - 1)) {
      k := n - 1;
    } else {
      k := EvidenceHasOrigin(tape, n - 1, e);
    }
  }

  lemma CountedEvidenceWasFetched(deps: Deps, tape: nat -> Reply, calls: nat, entry: VerificationEntry, e: ToolEvidence)
    requires e in EvidenceUpTo(tape, calls) && Counts(deps.checker, e) && Matches(entry, e.target)
    ensures FetchedInTranscript(deps, tape, calls, entry)
  {
    hide EvidenceUpTo, Matches, Blocks, IsTarget, EvidenceOf, AnswerOf;
    var k := EvidenceHasOrigin(tape, calls, e);
    var blocks := Blocks(tape(k).messages);
    EvidenceIsAnswered(blocks, e);
    var u: nat, r: nat :| Answers(blocks, u, r, e);
    assert FetchedAt(deps, tape(k), u, r, entry);
  }

  /** A list of defects is empty iff each check found nothing. */
  lemma NoDefects(deps: Deps, snap: Snapshot, findings: seq<Finding>, evidence: seq<ToolEvidence>)
    requires DefectsOf(deps, snap, findings, evidence) == []
    ensures CompletenessDefects(findings, EntryRows(AllEntries(snap))) == []
    ensures HonestyDefects(deps.checker, AllEntries(snap), evidence) == []
    ensures deps.checker.attribution(ProseBlocks(snap, findings)) == []
  {
    hide CompletenessDefects, HonestyDefects, EntryRows, AllEntries, ProseBlocks;
  }

  /** Every `fetched=True` entry of a published log is backed by a tool result of the run. */
  lemma PublishedLogIsHonest(deps: Deps, request: Request, world: World, state: ReviewState,
                             tape: nat -> Reply, calls: nat, pub: Publication, i: nat)
    requires Publishes(deps, request, world, state, tape, calls, pub)
    requires i < |pub.verificationLog| && pub.verificationLog[i].fetched
    ensures FetchedInTranscript(deps, tape, calls, pub.verificationLog[i])
  {
    hide EvidenceUpTo, DefectsOf, AllEntries, HonestyDefects, FetchedInTranscript, Matches, Counts,
      ResolveMode, Assembled, DeterministicCandidates, SweptFor, FindClass, Dispositions, Escalation, FromTape,
      WasAnswered;
    var classify, rule, claims, snap :|
      PublishedFrom(deps, request, world, state, tape, calls, classify, rule, claims, snap, pub);
    NoDefects(deps, snap, pub.findings, EvidenceUpTo(tape, calls));
    HonestIff(deps.checker, pub.verificationLog, EvidenceUpTo(tape, calls));
    var entry := pub.verificationLog[i];
    assert Backed(deps.checker, entry, EvidenceUpTo(tape, calls));
    var e :| e in EvidenceUpTo(tape, calls) && Counts(deps.checker, e) && Matches(entry, e.target);
    CountedEvidenceWasFetched(deps, tape, calls, entry, e);
  }

  /** The same, read as works: unless the target is a DOI that strips to nothing or what is
      left of one, it is the entry's URL or names the same work as its URL or id. */
  lemma HonestEntryNamesTheFetchedWork(deps: Deps, reply: Reply, u: nat, r: nat, entry: VerificationEntry,
                                       target: string)
    requires FetchedAt(deps, reply, u, r, entry) && IsTarget(Blocks(reply.messages)[u].input, target)
    requires !StripsAway(Some(target)) && !IsRemains(target)
    ensures SameWork(entry, target)
  {
    hide Matches, SameWork, StripsAway, IsRemains, IsTarget, TargetFromInput, Blocks;
    var input := Blocks(reply.messages)[u].input;
    var recorded :| IsTarget(input, recorded) && Matches(entry, recorded);
    TargetIs(input, recorded);
    TargetIs(input, target);
    UnambiguousMatch(entry, target);
  }

  // ---- Completeness and severity -----------------------------------------

  /** Every row an LLM finding of a published review cites has an entry in its log. */
  lemma PublishedLogIsComplete(deps: Deps, request: Request, world: World, state: ReviewState,
                               tape: nat -> Reply, calls: nat, pub: Publication)
    requires Publishes(deps, request, world, state, tape, calls, pub)
    ensures forall i, r | 0 <= i < |pub.findings| && pub.findings[i].origin.Llm? && r in pub.findings[i].doctrineRefs ::
      exists k | 0 <= k < |pub.verificationLog| :: pub.verificationLog[k].rowId == Some(r)
  {
    hide EvidenceUpTo, DefectsOf, AllEntries, EntryRows, CompletenessDefects,
      ResolveMode, Assembled, DeterministicCandidates, SweptFor, FindClass, Dispositions, Escalation, FromTape,
      WasAnswered;
    var classify, rule, claims, snap :|
      PublishedFrom(deps, request, world, state, tape, calls, classify, rule, claims, snap, pub);
    NoDefects(deps, snap, pub.findings, EvidenceUpTo(tape, calls));
    CompleteIff(pub.findings, pub.verificationLog);
    forall r | r in EntryRows(pub.verificationLog)
      ensures exists k | 0 <= k < |pub.verificationLog| :: pub.verificationLog[k].rowId == Some(r)
    {
      EntryOfRow(pub.verificationLog, r);
    }
  }

  lemma EntryOfRow(log: seq<VerificationEntry>, r: string)
    ensures r in EntryRows(log) <==> r != "" && exists k | 0 <= k < |log| :: log[k].rowId == Some(r)
  {
    if k :| 0 <= k < |log| && log[k].rowId == Some(r) && r != "" {
      assert Truthy(log[k].rowId);
    }
  }

  /** No published finding is above its original severity or, in an advisory review, above
      the advisory cap; and every published Blocker has a basis among its supports. */
  lemma PublishedSeveritiesAreCapped(deps: Deps, request: Request, world: World, state: ReviewState,
                                     tape: nat -> Reply, calls: nat, pub: Publication, i: nat)
    requires Publishes(deps, request, world, state, tape, calls, pub) && i < |pub.findings|
    ensures var f := pub.findings[i];
      && f.severity <= f.originalSeverity
      && (f.capReasons != [] <==> f.severity < f.originalSeverity)
      && (pub.mode.Advisory? ==> f.severity <= deps.oracle.advisorySeverityCap)
      && (f.severity == BLOCKER ==> HasBlockerBasis(deps.oracle, f.supports))
  {
    hide EvidenceUpTo, DefectsOf, AllEntries, Tags, ToFinding, Capped,
      ResolveMode, DeterministicCandidates, SweptFor, FindClass, Dispositions, Escalation;
    var classify, rule, claims, snap :|
      PublishedFrom(deps, request, world, state, tape, calls, classify, rule, claims, snap, pub);
    var tags := Tags(snap, DeterministicCandidates(deps, request, rule, claims));
    assert pub.findings[i] == Capped(deps.oracle, ToFinding(deps, tags[i], i + 1), pub.mode);
    CappedIsBounded(deps.oracle, ToFinding(deps, tags[i], i + 1), pub.mode);
  }

  lemma CappedIsBounded(table: OracleTable, f: Finding, mode: ReviewMode)
    ensures var c := Capped(table, f, mode);
      && c.severity <= c.originalSeverity
      && (c.capReasons != [] <==> c.severity < c.originalSeverity)
      && (mode.Advisory? ==> c.severity <= table.advisorySeverityCap)
      && (c.severity == BLOCKER ==> HasBlockerBasis(table, c.supports))
  {
    CapAccountsForEveryDrop(table, f, mode);
    hide HasBlockerBasis, StaleLevel, TierLevel;
  }

  // ---- Mode --------------------------------------------------------------

  /** The model recommended conformance for this class with evidence that is not blank and
      reads, up to whitespace and case, like some span of the artifact. */
  ghost predicate ClaimedByQuote(request: Request, tape: nat -> Reply, calls: nat, artifactClass: string,
                                 classify: ClassifyResult) {
    && WasAnswered(tape, calls, CLASSIFY, ClassifyPayload(classify))
    && classify.artifactClass == artifactClass
    && classify.modeRecommendation.Conformance?
    && classify.conformanceEvidence.Some?
    && !All(classify.conformanceEvidence.value, IsSpace)
    && HasSpanReading(request.text, classify.conformanceEvidence.value)
  }

  /** In auto mode a review is published as a conformance review only on the strength of an
      accepted classify answer of this run that recommends it and quotes the artifact. */
  lemma ConformanceIsQuoted(deps: Deps, request: Request, world: World, state: ReviewState,
                            tape: nat -> Reply, calls: nat, pub: Publication) returns (classify: ClassifyResult)
    requires Publishes(deps, request, world, state, tape, calls, pub)
    requires request.mode.Auto? && pub.mode.Conformance?
    ensures ClaimedByQuote(request, tape, calls, pub.artifactClass, classify)
  {
    hide EvidenceUpTo, Clean, ResolveMode, DeterministicCandidates, SweptFor, FindClass, Dispositions, Escalation,
      HasSpanReading, WasAnswered, FromTape, AllEntries, All;
    var classify', rule, claims, snap :|
      PublishedFrom(deps, request, world, state, tape, calls, classify', rule, claims, snap, pub);
    classify := classify';
    AutoConformanceIff(deps, request, classify);
  }

  /** A published review has the mode it was asked for, or is uncertain exactly when it is
      advisory although a marker occurs in the artifact. */
  lemma PublishedModeIsCertainUnless(deps: Deps, request: Request, world: World, state: ReviewState,
                                     tape: nat -> Reply, calls: nat, pub: Publication)
    requires Publishes(deps, request, world, state, tape, calls, pub)
    ensures request.mode.Fixed? ==> pub.mode == request.mode.mode && !pub.modeUncertain
    ensures request.mode.Auto? ==>
      (pub.modeUncertain <==> pub.mode.Advisory? && MarkerOccurs(deps.oracle.markers, request.text))
  {
    hide EvidenceUpTo, Clean, ResolveMode, DeterministicCandidates, SweptFor, FindClass, Dispositions, Escalation,
      WasAnswered, FromTape, AllEntries, MarkerOccurs;
    var classify, rule, claims, snap :|
      PublishedFrom(deps, request, world, state, tape, calls, classify, rule, claims, snap, pub);
    ModeIsCertainUnless(deps, request, classify);
  }

  // ---- Non-interference --------------------------------------------------

  /** The findings of the deterministic base, numbered and capped. */
  ghost function FixedFindings(deps: Deps, request: Request, mode: ReviewMode): seq<Finding> {
    CappedAll(deps.oracle, ToFindings(deps, TagAll(BaseCandidates(deps, request), None, Deterministic)), mode)
  }

  lemma PublishesFixedFindings(deps: Deps, request: Request, world: World, state: ReviewState,
                               tape: nat -> Reply, calls: nat, pub: Publication)
    requires Publishes(deps, request, world, state, tape, calls, pub)
    ensures FixedFindings(deps, request, pub.mode) <= pub.findings
  {
    hide EvidenceUpTo, DefectsOf, ResolveMode, BaseCandidates, SweptFor, FindClass, Dispositions, Escalation,
      Assembled, CappedAll, ToFindings, MissingSections;
    var classify, rule, claims, snap :|
      PublishedFrom(deps, request, world, state, tape, calls, classify, rule, claims, snap, pub);
    var base := BaseCandidates(deps, request);
    var more := if rule.sourceQualityOnly then []
                else deps.gates(claims, rule.name) + MissingSections(deps, request.text, rule, rule.requiresSections);
    PrefixIsFixed(deps, snap, base, more, pub.mode);
    SameLength(deps, base, pub.mode);
  }

  lemma SameLength(deps: Deps, base: seq<CandidateFinding>, mode: ReviewMode)
    ensures |CappedAll(deps.oracle, ToFindings(deps, TagAll(base, None, Deterministic)), mode)| == |base|
  {
    hide ToFinding, Capped;
  }

  /** Two published reviews of the same inputs in the same mode, whatever the two models
      answered and however often they were asked to repair, start with the same
      consistency, source-quality, decision and label findings: ids, severities, reasons
      and all. */
  lemma NonInterference(deps: Deps, request: Request,
                        w1: World, s1: ReviewState, tape1: nat -> Reply, n1: nat, pub1: Publication,
                        w2: World, s2: ReviewState, tape2: nat -> Reply, n2: nat, pub2: Publication)
    requires Publishes(deps, request, w1, s1, tape1, n1, pub1)
    requires Publishes(deps, request, w2, s2, tape2, n2, pub2)
    requires pub1.mode == pub2.mode
    ensures var n := |BaseCandidates(deps, request)|;
      && n <= |pub1.findings| && n <= |pub2.findings|
      && pub1.findings[..n] == pub2.findings[..n]
  {
    hide Publishes, CappedAll, ToFindings, BaseCandidates;
    PublishesFixedFindings(deps, request, w1, s1, tape1, n1, pub1);
    PublishesFixedFindings(deps, request, w2, s2, tape2, n2, pub2);
    SameLength(deps, BaseCandidates(deps, request), pub1.mode);
  }

  /** From `offset` on stand the findings of these candidates; only their ids depend on it. */
  ghost predicate StandAt(deps: Deps, findings: seq<Finding>, offset: nat, cs: seq<CandidateFinding>,
                          mode: ReviewMode) {
    && offset + |cs| <= |findings|
    && forall t | 0 <= t < |cs| :: findings[offset + t] == DeterministicFinding(deps, cs[t], offset + t + 1, mode)
  }

  ghost function DeterministicFinding(deps: Deps, c: CandidateFinding, index: nat, mode: ReviewMode): Finding {
    Capped(deps.oracle, ToFinding(deps, Tagged(c, None, Deterministic), 0), mode).(findingId := "F" + Decimal(index))
  }

  lemma IdIsAllThatMoves(deps: Deps, t: Tagged, i: nat, mode: ReviewMode)
    ensures Capped(deps.oracle, ToFinding(deps, t, i), mode)
         == Capped(deps.oracle, ToFinding(deps, t, 0), mode).(findingId := "F" + Decimal(i))
    ensures Capped(deps.oracle, ToFinding(deps, t, i), mode).origin == t.origin
  {
    hide Decimal, RefsOf, KnownSupports, SlugOf, StaleLevel, TierLevel, TierCapFor, HasBlockerBasis;
  }

  /** All the findings of a review: base, gates and missing sections, then the model's. */
  ghost predicate LaidOut(deps: Deps, findings: seq<Finding>, base: seq<CandidateFinding>,
                          gates: seq<CandidateFinding>, missing: seq<CandidateFinding>, mode: ReviewMode) {
    && StandAt(deps, findings, 0, base, mode)
    && StandAt(deps, findings, |base|, gates, mode)
    && StandAt(deps, findings, |base| + |gates|, missing, mode)
    && forall i | |base| + |gates| + |missing| <= i < |findings| :: findings[i].origin.Llm?
  }

  /** The missing-section findings of a published review are those of the headings and the
      class, in their place behind base and gates, and every finding behind them is marked
      as the model's: no answer of the model adds, removes or re-grades one. */
  lemma MissingSectionsStand(deps: Deps, request: Request, world: World, state: ReviewState,
                             tape: nat -> Reply, calls: nat, pub: Publication)
    returns (rule: ArtifactClassRule, claims: seq<MeasurementClaim>)
    requires Publishes(deps, request, world, state, tape, calls, pub)
    ensures FindClass(deps.oracle.artifactClasses, pub.artifactClass) == Some(rule)
    ensures !rule.sourceQualityOnly ==> WasAnswered(tape, calls, CLAIMS, ClaimsPayload(ClaimsResult(claims)))
    ensures rule.sourceQualityOnly ==> LaidOut(deps, pub.findings, BaseCandidates(deps, request), [], [], pub.mode)
    ensures !rule.sourceQualityOnly ==>
      LaidOut(deps, pub.findings, BaseCandidates(deps, request), deps.gates(claims, rule.name),
              MissingSections(deps, request.text, rule, rule.requiresSections), pub.mode)
  {
    hide EvidenceUpTo, DefectsOf, ResolveMode, BaseCandidates, SweptFor, FindClass, Dispositions, Escalation,
      Assembled, MissingSections, LaidOut, WasAnswered, FromTape, AllEntries;
    var classify, rule', claims', snap :|
      PublishedFrom(deps, request, world, state, tape, calls, classify, rule', claims', snap, pub);
    rule, claims := rule', claims';
    var base := BaseCandidates(deps, request);
    if rule.sourceQualityOnly {
      assert base + [] + [] == base + [];
      AssembledIsLaidOut(deps, snap, base, [], [], pub.mode);
    } else {
      var gates := deps.gates(claims, rule.name);
      var missing := MissingSections(deps, request.text, rule, rule.requiresSections);
      assert base + (gates + missing) == base + gates + missing;
      AssembledIsLaidOut(deps, snap, base, gates, missing, pub.mode);
    }
  }

  lemma AssembledIsLaidOut(deps: Deps, snap: Snapshot, base: seq<CandidateFinding>, gates: seq<CandidateFinding>,
                           missing: seq<CandidateFinding>, mode: ReviewMode)
    ensures LaidOut(deps, Assembled(deps, snap, base + gates + missing, mode), base, gates, missing, mode)
  {
    hide DeterministicFinding, TagModel, Capped, ToFinding;
    var all := base + gates + missing;
    var findings := Assembled(deps, snap, all, mode);
    var tags := Tags(snap, all);
    assert |findings| == |tags| == |all| + |TagModel(snap)|;
    forall i | 0 <= i < |all| ensures findings[i] == DeterministicFinding(deps, all[i], i + 1, mode) {
      assert tags[i] == Tagged(all[i], None, Deterministic);
      StandsAsDeterministic(deps, all[i], i + 1, mode);
    }
    ModelTagsAreLlm(snap);
    forall i | |all| <= i < |findings| ensures findings[i].origin.Llm? {
      assert tags[i] == TagModel(snap)[i - |all|];
      IdIsAllThatMoves(deps, tags[i], i + 1, mode);
    }
    assert forall t | 0 <= t < |base| :: base[t] == all[t];
    assert forall t | 0 <= t < |gates| :: gates[t] == all[|base| + t];
    assert forall t | 0 <= t < |missing| :: missing[t] == all[|base| + |gates| + t];
  }

  lemma StandsAsDeterministic(deps: Deps, c: CandidateFinding, index: nat, mode: ReviewMode)
    ensures Capped(deps.oracle, ToFinding(deps, Tagged(c, None, Deterministic), index), mode)
         == DeterministicFinding(deps, c, index, mode)
  {
    hide Capped, ToFinding, Decimal;
    IdIsAllThatMoves(deps, Tagged(c, None, Deterministic), index, mode);
  }

  lemma {:induction false} RowTagsAreLlm(rows: map<string, RowDisposition>, ids: seq<string>)
    requires forall i | 0 <= i < |ids| :: ids[i] in rows
    ensures forall t | t in TagRows(rows, ids) :: t.origin.Llm?
  {
    if ids != [] {
      RowTagsAreLlm(rows, ids[..|ids| - 1]);
    }
  }

  lemma {:induction false} OptionTagsAreLlm(os: seq<Option<CandidateFinding>>)
    ensures forall t | t in TagOptions(os) :: t.origin.Llm?
  {
    if os != [] {
      OptionTagsAreLlm(os[..|os| - 1]);
    }
  }

  lemma ModelTagsAreLlm(snap: Snapshot)
    ensures forall i | 0 <= i < |TagModel(snap)| :: TagModel(snap)[i].origin.Llm?
  {
    var ids := Sorted(snap.rows.Keys);
    assert forall i | 0 <= i < |ids| :: ids[i] in ids;
    hide Sorted, TagRows, TagOptions;
    RowTagsAreLlm(snap.rows, ids);
    if snap.judgement.Some? {
      OptionTagsAreLlm(snap.judgement.value.baselines);
      OptionTagsAreLlm(snap.judgement.value.falsifiability);
    }
    assert forall t | t in TagModel(snap) :: t.origin.Llm?;
  }

  // ---- Refusals ----------------------------------------------------------

  /** No defect says that a known row lacks its entry. */
  ghost predicate NoneIncomplete(deps: Deps, defects: seq<string>) {
    forall findingId, r | r in deps.oracle.RowIds() :: CompletenessDefect(findingId, r) !in defects
  }

  /** A review given up because no call could be repaired has, in the working set the
      defects were found in, a complete log, unless its class sweeps no rows at all; and
      none of the defects mentions a swept row or a missing entry. */
  lemma UnrepairableMeansComplete(deps: Deps, request: Request, tape: nat -> Reply, calls: nat, defects: seq<string>,
                                  swept: set<string>) returns (snap: Snapshot, findings: seq<Finding>)
    requires deps.oracle.Valid() && Refuses(deps, request, tape, calls, NoRepairableCall(defects, swept))
    ensures FromTape(tape, calls, snap) && swept == snap.rows.Keys
    ensures defects == DefectsOf(deps, snap, findings, EvidenceUpTo(tape, calls)) != []
    ensures forall r | r in swept :: !Defective(defects, r)
    ensures swept == {} ||
      (&& swept == deps.oracle.RowIds() && NoneIncomplete(deps, defects)
       && CompletenessDefects(findings, EntryRows(AllEntries(snap))) == [])
  {
    hide EvidenceUpTo, CompletenessDefect, CompletenessDefects, HonestyDefects, Defective, OracleTable.RowIds,
      EntryRows, AllEntries, WasAnswered, FromTape, DeterministicCandidates, ResolveMode, Assembled, ProseBlocks,
      OracleTable.Valid, DefectiveRows, FindClass;
    var classify, rule, claims, snap' :|
      HasGrounds(deps, request, tape, calls, classify, rule, claims, snap', NoRepairableCall(defects, swept));
    snap := snap';
    findings :| RefusedFrom(deps, request, tape, calls, classify, rule, claims, snap, findings,
                            NoRepairableCall(defects, swept));
    RefusalIsJustified(deps, snap, DeterministicCandidates(deps, request, rule, claims),
                       ResolveMode(deps, request, classify).0, findings, EvidenceUpTo(tape, calls), defects, swept);
    if rule.sourceQualityOnly {
      assert snap.rows.Keys == {};
    } else {
      forall findingId, r | r in deps.oracle.RowIds() ensures CompletenessDefect(findingId, r) !in defects {
        NotSelected(defects, findingId, r);
      }
    }
  }

  lemma NotSelected(defects: seq<string>, findingId: string, r: string)
    requires !Defective(defects, r)
    ensures CompletenessDefect(findingId, r) !in defects
  {
    SelectsOwnRow(findingId, r);
    hide CompletenessDefect, MentionsRow;
  }

  // ---- Many reviews ------------------------------------------------------

  lemma PublishedKeysAreValid(deps: Deps, request: Request, world: World, state: ReviewState,
                              tape: nat -> Reply, calls: nat, pub: Publication)
    requires deps.oracle.Valid() && Publishes(deps, request, world, state, tape, calls, pub)
    ensures ValidKeys(pub.findings)
  {
    hide EvidenceUpTo, DefectsOf, ResolveMode, DeterministicCandidates, FindClass, Dispositions, Escalation,
      Assembled, OracleTable.Valid, OracleTable.RowIds, FindingKey.Valid, FromTape, WasAnswered;
    var classify, rule, claims, snap :|
      PublishedFrom(deps, request, world, state, tape, calls, classify, rule, claims, snap, pub);
    assert rule.sourceQualityOnly ==> snap.rows.Keys == {};
    AssembledWellKeyed(deps, snap, DeterministicCandidates(deps, request, rule, claims), pub.mode);
  }

  lemma PublishedRecord(deps: Deps, request: Request, world: World, state: ReviewState,
                        tape: nat -> Reply, calls: nat, pub: Publication) returns (record: CycleRecord)
    requires Publishes(deps, request, world, state, tape, calls, pub)
    ensures record == CycleRecord(pub.cycle, world.now, pub.mode, pub.artifactClass, world.sha(request.text),
                                  record.findings)
    ensures record == NewRecord(request, world, pub)
    ensures record.cycle == state.cycle + 1 && record.findings == Recorded(pub.findings)
    ensures pub.newState == state.(cycle := state.cycle + 1, history := state.history + [record])
  {
    hide EvidenceUpTo, Clean, ResolveMode, DeterministicCandidates, FindClass, Dispositions, Escalation,
      FromTape, WasAnswered, SweptFor, Recorded;
    record := NewRecord(request, world, pub);
  }

  lemma OneMoreRun(state: ReviewState, next: ReviewState, runs: seq<seq<Finding>>, findings: seq<Finding>,
                   record: CycleRecord)
    requires IsStateAfter(state, runs)
    requires record.cycle == state.cycle + 1 && record.findings == Recorded(findings)
    requires next == state.(cycle := state.cycle + 1, history := state.history + [record])
    ensures IsStateAfter(next, runs + [findings])
    ensures next.history == state.history + [next.history[|runs|]]
    ensures next.cycle == |next.history| == |runs| + 1
  {
    hide Recorded;
  }

  /** Publishing after `runs` from scratch leaves the state after one more run. */
  lemma PublishingExtendsTheRuns(deps: Deps, request: Request, world: World, state: ReviewState,
                                 tape: nat -> Reply, calls: nat, pub: Publication, runs: seq<seq<Finding>>)
    requires deps.oracle.Valid()
    requires Publishes(deps, request, world, state, tape, calls, pub) && IsStateAfter(state, runs)
    ensures IsStateAfter(pub.newState, runs + [pub.findings])
    ensures pub.newState.history == state.history + [pub.newState.history[|runs|]]
    ensures pub.newState.cycle == |pub.newState.history| == |runs| + 1
    ensures ValidKeys(pub.findings)
  {
    hide Publishes, IsStateAfter, ValidKeys, OracleTable.Valid;
    PublishedKeysAreValid(deps, request, world, state, tape, calls, pub);
    var record := PublishedRecord(deps, request, world, state, tape, calls, pub);
    OneMoreRun(state, pub.newState, runs, pub.findings, record);
  }

  /** Reviews of one artifact from scratch, distinct keys in each earlier one: the new one is a
      charter-review STOP iff some key is at Major or above for at least the escalation
      cycle's number of times, this review included. */
  lemma StopsExactlyOnRecurrence(deps: Deps, request: Request, world: World, state: ReviewState,
                                 tape: nat -> Reply, calls: nat, pub: Publication, runs: seq<seq<Finding>>)
    requires deps.oracle.Valid()
    requires Publishes(deps, request, world, state, tape, calls, pub) && IsStateAfter(state, runs)
    requires ProperRuns(runs)
    ensures pub.escalation.Some? <==> exists key ::
      HasMajor(pub.findings, key) && MajorRuns(runs, key) + 1 >= deps.oracle.escalationCycle
  {
    hide *;
    PublishingExtendsTheRuns(deps, request, world, state, tape, calls, pub, runs);
    EscalationOfPublication(deps, request, world, state, tape, calls, pub);
    EscalationOverRuns(state, runs, pub.findings, deps.oracle.escalationCycle);
  }

  lemma EscalationOfPublication(deps: Deps, request: Request, world: World, state: ReviewState,
                                tape: nat -> Reply, calls: nat, pub: Publication)
    requires Publishes(deps, request, world, state, tape, calls, pub)
    ensures pub.escalation == Escalation(state, pub.findings, deps.oracle.escalationCycle)
  {
    hide EvidenceUpTo, Clean, ResolveMode, SweptFor, FindClass, Dispositions, Escalation, DeterministicCandidates;
  }

  /** An advisory review under a cap below Major adds nothing to any key's count. */
  lemma AdvisoryReviewsNeverCount(deps: Deps, request: Request, world: World, state: ReviewState,
                                  tape: nat -> Reply, calls: nat, pub: Publication,
                                  runs: seq<seq<Finding>>, key: FindingKey)
    requires Publishes(deps, request, world, state, tape, calls, pub)
    requires pub.mode.Advisory? && deps.oracle.advisorySeverityCap < MAJOR
    ensures MajorRuns(runs + [pub.findings], key) == MajorRuns(runs, key)
    ensures pub.escalation.None?
  {
    hide Publishes, HasBlockerBasis, Escalation;
    forall i | 0 <= i < |pub.findings| ensures pub.findings[i].severity < MAJOR {
      PublishedSeveritiesAreCapped(deps, request, world, state, tape, calls, pub, i);
    }
    assert (runs + [pub.findings])[..|runs|] == runs;
    EscalationOfPublication(deps, request, world, state, tape, calls, pub);
    EscalationIff(state, pub.findings, deps.oracle.escalationCycle);
  }
}
