/** What a published review contains, field by field, in terms of the answers it was given and
    the artifact, without the program's own steps. */
module Publications {
  import opened Wrappers
  import opened Text
  import opened Findings
  import opened Oracle
  import opened SeverityPolicy
  import opened Selections
  import opened Sweeps
  import opened History
  import opened Assembly
  import opened Replay
  import opened Pipeline
  import opened Provenance
  import Guarantees
  import Consistency

  // ---- The harness's own candidates --------------------------------------

  /** Some heading of the artifact, stripped, holds the section's name up to case. */
  ghost predicate HasHeading(deps: Deps, text: string, section: string) {
    exists i | 0 <= i < |deps.headings(text)| :: HoldsName(Strip(deps.headings(text)[i], IsSpace), section)
  }

  ghost predicate HoldsName(heading: string, section: string) {
    exists j, k | 0 <= j <= k <= |heading| :: Lower(heading[j..k]) == Lower(section)
  }

  predicate IsMissingSection(c: CandidateFinding, rule: ArtifactClassRule, section: string) {
    && c.severity == rule.missingSectionSeverity
    && c.anchor == "missing-" + section + "-section"
    && c.doctrineRefs == [] && c.gateRefs == []
    && c.supports == [SupportRef(rule.missingSectionSupport, section)]
  }

  /** One candidate for every required section without a heading, in the order required. */
  ghost predicate AreMissingSections(deps: Deps, text: string, rule: ArtifactClassRule, cs: seq<CandidateFinding>) {
    exists sections :: AreMissingFor(deps, text, rule, cs, sections)
  }

  ghost predicate AreMissingFor(deps: Deps, text: string, rule: ArtifactClassRule, cs: seq<CandidateFinding>,
                                sections: seq<string>) {
    && IsSelection(sections, rule.requiresSections, (section: string) => !HasHeading(deps, text, section))
    && |cs| == |sections|
    && forall i | 0 <= i < |cs| :: IsMissingSection(cs[i], rule, sections[i])
  }

  /** The contradictions, source-quality, decision and label candidates; and for a class that
      sweeps rows those of the gates over the claims and of the missing sections. */
  ghost predicate AreOwnCandidates(deps: Deps, request: Request, rule: ArtifactClassRule,
                                   claims: seq<MeasurementClaim>, cs: seq<CandidateFinding>) {
    var base := Consistency.Contradictions(deps.consistency, request.text) + deps.sourceQuality(request.text)
                + request.decisionFindings + deps.labels(request.text);
    if rule.sourceQualityOnly then cs == base
    else exists missing ::
      && AreMissingSections(deps, request.text, rule, missing)
      && cs == base + (deps.gates(claims, rule.name) + missing)
  }

  lemma SectionPresentIff(deps: Deps, text: string, section: string)
    ensures SectionPresent(deps, text, section) <==> HasHeading(deps, text, section)
  {
    forall heading: string ensures Contains(Lower(heading), Lower(section)) <==> HoldsName(heading, section) {
      ContainsIff(heading, section);
    }
    hide Contains, HoldsName, Strip;
  }

  lemma ContainsIff(heading: string, section: string)
    ensures Contains(Lower(heading), Lower(section)) <==> HoldsName(heading, section)
  {
    assert forall j, k | 0 <= j <= k <= |heading| :: Lower(heading)[j..k] == Lower(heading[j..k]);
    if Contains(Lower(heading), Lower(section)) {
      var j :| 0 <= j <= |heading| && OccursAt(Lower(section), Lower(heading), j);
      assert Lower(heading)[j..j + |section|] == Lower(heading[j..j + |section|]);
    }
    if j, k :| 0 <= j <= k <= |heading| && Lower(heading[j..k]) == Lower(section) {
      assert |heading[j..k]| == |section|;
      assert OccursAt(Lower(section), Lower(heading), j);
    }
  }

  lemma MissingSectionIs(rule: ArtifactClassRule, section: string)
    ensures IsMissingSection(MissingSection(rule, section), rule, section)
  {
  }

  lemma {:induction false} MissingSectionsAre(deps: Deps, text: string, rule: ArtifactClassRule,
                                              required: seq<string>) returns (sections: seq<string>)
    ensures IsSelection(sections, required, (section: string) => !HasHeading(deps, text, section))
    ensures var cs := MissingSections(deps, text, rule, required);
      |cs| == |sections| && forall i | 0 <= i < |cs| :: IsMissingSection(cs[i], rule, sections[i])
    decreases |required|
  {
    hide HasHeading, SectionPresent, IsMissingSection, MissingSection, IsSelection;
    var p := (section: string) => !HasHeading(deps, text, section);
    if required == [] {
      sections := [];
      SelectionOfNothing([], p);
    } else {
      var rest := MissingSectionsAre(deps, text, rule, required[1..]);
      SectionPresentIff(deps, text, required[0]);
      MissingSectionIs(rule, required[0]);
      SelectionPrepend(rest, required[1..], required[0], p);
      assert required == [required[0]] + required[1..];
      sections := (if p(required[0]) then [required[0]] else []) + rest;
    }
  }

  lemma OwnCandidatesAre(deps: Deps, request: Request, rule: ArtifactClassRule, claims: seq<MeasurementClaim>)
    ensures AreOwnCandidates(deps, request, rule, claims, DeterministicCandidates(deps, request, rule, claims))
  {
    var missing := MissingSections(deps, request.text, rule, rule.requiresSections);
    var sections := MissingSectionsAre(deps, request.text, rule, rule.requiresSections);
    hide Consistency.Contradictions, IsSelection, MissingSections, HasHeading;
    assert AreMissingFor(deps, request.text, rule, missing, sections);
    var base := BaseCandidates(deps, request);
    assert base + [] == base;
  }

  // ---- The published review ----------------------------------------------

  /** The class of a review is the declared one of that name. */
  predicate IsClass(deps: Deps, rule: ArtifactClassRule, name: string) {
    rule in deps.oracle.artifactClasses && rule.name == name
  }

  lemma {:induction false} FoundClassIs(classes: seq<ArtifactClassRule>, name: string)
    ensures FindClass(classes, name).Some? ==>
      FindClass(classes, name).value in classes && FindClass(classes, name).value.name == name
  {
    if classes != [] && classes[0].name != name {
      FoundClassIs(classes[1..], name);
    }
  }

  lemma {:induction false} DispositionsAre(rows: seq<OracleRow>, swept: map<string, RowDisposition>)
    requires forall i | 0 <= i < |rows| :: rows[i].id in swept
    ensures |Dispositions(rows, swept)| == |rows|
    ensures forall i | 0 <= i < |rows| :: Dispositions(rows, swept)[i] == swept[rows[i].id]
  {
    if rows != [] {
      DispositionsAre(rows[1..], swept);
    }
  }

  lemma {:induction false} NoDispositions(rows: seq<OracleRow>)
    ensures Dispositions(rows, map[]) == []
  {
    if rows != [] {
      NoDispositions(rows[1..]);
    }
  }

  /** The working set of a published review: accepted answers of its own calls, one for every
      row of the oracle if its class sweeps rows and none otherwise. */
  ghost predicate IsWorkingSet(deps: Deps, tape: nat -> Reply, calls: nat, rule: ArtifactClassRule, snap: Snapshot) {
    && FromTape(tape, calls, snap) && snap.sourceQuality.Some? && snap.synthesis.Some?
    && if rule.sourceQualityOnly then snap.rows == map[] && snap.judgement.None?
       else (forall id :: id in snap.rows <==> IsRow(deps.oracle, id)) && snap.judgement.Some?
  }

  /** Everything a published review shows, in terms of its working set. */
  ghost predicate Shows(deps: Deps, snap: Snapshot, own: seq<CandidateFinding>, pub: Publication,
                        slots: seq<Slot>, logSlots: seq<Slot>) {
    && AreFindingsOf(deps, pub.findings, snap, own, slots)
    && IsLogOf(pub.verificationLog, snap, logSlots)
    && snap.synthesis.Some? && pub.headline == deps.launder(snap.synthesis.value.headline) != ""
  }

  /** The row answers shown: those of all rows, in the oracle's order, or none. */
  predicate ShowsRows(deps: Deps, rule: ArtifactClassRule, snap: Snapshot, pub: Publication) {
    if rule.sourceQualityOnly then pub.rowDispositions == []
    else
      && |pub.rowDispositions| == |deps.oracle.rows|
      && forall i | 0 <= i < |deps.oracle.rows| ::
           deps.oracle.rows[i].id in snap.rows && pub.rowDispositions[i] == snap.rows[deps.oracle.rows[i].id]
  }

  /** Every candidate of the harness and of the accepted answers has exactly one published
      finding, which is it field by field, in the order of their places; every log entry of
      those answers is published once; and nothing else is published. */
  lemma PublicationIsTheAnswers(deps: Deps, request: Request, world: World, state: ReviewState,
                                tape: nat -> Reply, calls: nat, pub: Publication)
    returns (rule: ArtifactClassRule, claims: seq<MeasurementClaim>, snap: Snapshot, own: seq<CandidateFinding>,
             slots: seq<Slot>, logSlots: seq<Slot>)
    requires Publishes(deps, request, world, state, tape, calls, pub)
    ensures IsClass(deps, rule, pub.artifactClass)
    ensures !rule.sourceQualityOnly ==> WasAnswered(tape, calls, CLAIMS, ClaimsPayload(ClaimsResult(claims)))
    ensures AreOwnCandidates(deps, request, rule, claims, own)
    ensures IsWorkingSet(deps, tape, calls, rule, snap)
    ensures Shows(deps, snap, own, pub, slots, logSlots) && ShowsRows(deps, rule, snap, pub)
  {
    hide EvidenceUpTo, DefectsOf, ResolveMode, DeterministicCandidates, FindClass, Dispositions, Escalation,
      Assembled, WasAnswered, FromTape, AllEntries, AreOwnCandidates, AreFindingsOf, IsLogOf, OracleTable.RowIds,
      IsWorkingSet, ShowsRows;
    var classify, rule', claims', snap' :|
      PublishedFrom(deps, request, world, state, tape, calls, classify, rule', claims', snap', pub);
    rule, claims, snap := rule', claims', snap';
    own := DeterministicCandidates(deps, request, rule, claims);
    FoundClassIs(deps.oracle.artifactClasses, classify.artifactClass);
    OwnCandidatesAre(deps, request, rule, claims);
    slots := AssembledFromPlaces(deps, snap, own, pub.mode);
    logSlots := LogIsOfPlaces(snap);
    SweptIsWorkingSet(deps, tape, calls, rule, snap);
    SweptIsShown(deps, rule, snap, pub);
  }

  lemma SweptIsWorkingSet(deps: Deps, tape: nat -> Reply, calls: nat, rule: ArtifactClassRule, snap: Snapshot)
    requires FromTape(tape, calls, snap) && SweptFor(deps, rule, snap) && snap.synthesis.Some?
    ensures IsWorkingSet(deps, tape, calls, rule, snap)
  {
    hide FromTape;
    forall id ensures id in deps.oracle.RowIds() <==> IsRow(deps.oracle, id) {}
    assert forall id :: id in snap.rows <==> id in snap.rows.Keys;
  }

  lemma SweptIsShown(deps: Deps, rule: ArtifactClassRule, snap: Snapshot, pub: Publication)
    requires SweptFor(deps, rule, snap) && pub.rowDispositions == Dispositions(deps.oracle.rows, snap.rows)
    ensures ShowsRows(deps, rule, snap, pub)
  {
    hide Dispositions;
    if rule.sourceQualityOnly {
      NoDispositions(deps.oracle.rows);
    } else {
      forall i | 0 <= i < |deps.oracle.rows| ensures deps.oracle.rows[i].id in snap.rows {
        assert deps.oracle.rows[i].id in deps.oracle.RowIds();
      }
      DispositionsAre(deps.oracle.rows, snap.rows);
    }
  }

  /** Every published severity is the largest that the candidate's own severity, the mode, the
      oracle's caps and the blocker rule allow. */
  lemma PublishedSeverityIsLargestAllowed(deps: Deps, request: Request, world: World, state: ReviewState,
                                          tape: nat -> Reply, calls: nat, pub: Publication, i: nat)
    requires deps.oracle.Valid() && i < |pub.findings|
    requires Publishes(deps, request, world, state, tape, calls, pub)
    ensures Allowed(deps.oracle, pub.findings[i], pub.mode, pub.findings[i].severity)
    ensures forall x: Severity | Allowed(deps.oracle, pub.findings[i], pub.mode, x) :: x <= pub.findings[i].severity
  {
    hide EvidenceUpTo, DefectsOf, AllEntries, Tags, ToFinding, Capped, Allowed, EffectiveSeverity,
      ResolveMode, DeterministicCandidates, SweptFor, FindClass, Dispositions, Escalation, OracleTable.Valid,
      WasAnswered, FromTape;
    var classify, rule, claims, snap :|
      PublishedFrom(deps, request, world, state, tape, calls, classify, rule, claims, snap, pub);
    var tags := Tags(snap, DeterministicCandidates(deps, request, rule, claims));
    var f := ToFinding(deps, tags[i], i + 1);
    assert pub.findings[i] == Capped(deps.oracle, f, pub.mode);
    CappedSeverityIs(deps.oracle, f, pub.mode);
    SeverityIsLargestAllowed(deps.oracle, Capped(deps.oracle, f, pub.mode), pub.mode);
  }

  lemma CappedSeverityIs(table: OracleTable, f: Finding, mode: ReviewMode)
    ensures Capped(table, f, mode).severity == EffectiveSeverity(table, Capped(table, f, mode), mode)
  {
    hide TierLevel, StaleLevel, HasBlockerBasis;
  }

  // ---- What the answers were accepted for --------------------------------

  /** What an entry must say of itself: an assertion; a source and a fetch if it is verified;
      a guess if its status is guessing. */
  predicate IsSoundEntry(e: VerificationEntry) {
    && e.assertion != ""
    && (e.status == Verified ==> e.fetched && ((e.sourceUrl.Some? && e.sourceUrl.value != "")
                                               || (e.canonicalId.Some? && e.canonicalId.value != "")))
    && (e.status == StatusGuessing ==> e.confidence == Guessing)
  }

  predicate IsSoundCandidate(c: CandidateFinding) {
    c.summary != "" && c.anchor != ""
  }

  predicate AreSound(entries: seq<VerificationEntry>) {
    forall i | 0 <= i < |entries| :: IsSoundEntry(entries[i])
  }

  predicate AreSoundOptions(os: seq<Option<CandidateFinding>>) {
    forall i | 0 <= i < |os| && os[i].Some? :: IsSoundCandidate(os[i].value)
  }

  /** Which payloads each kind of call accepts. */
  predicate IsAcceptable(kind: CallKind, payload: Payload) {
    match payload
    case ClassifyPayload(c) => kind == CLASSIFY && c.artifactClass != ""
    case RowPayload(r) =>
      && kind == ROW && r.rowId != ""
      && (r.verdict == NotApplicable ==> r.naReason.Some? && !All(r.naReason.value, IsSpace))
      && (forall i | 0 <= i < |r.findings| :: IsSoundCandidate(r.findings[i]))
      && AreSound(r.verificationEntries)
    case ClaimsPayload(_) => kind == CLAIMS
    case SourceQualityPayload(q) =>
      && kind == SOURCE_QUALITY
      && (forall i | 0 <= i < |q.loadBearingViolations| :: IsSoundCandidate(q.loadBearingViolations[i]))
      && (forall i | 0 <= i < |q.regimeBreakFindings| :: IsSoundCandidate(q.regimeBreakFindings[i]))
      && AreSound(q.verificationEntries)
    case JudgementPayload(j) =>
      && kind == JUDGEMENT && AreSoundOptions(j.baselines) && AreSoundOptions(j.falsifiability)
      && AreSound(j.verificationEntries)
    case SynthesisPayload(s) => kind == SYNTHESIS && s.headline != ""
    case OtherPayload => false
  }

  lemma SoundEntriesIff(entries: seq<VerificationEntry>)
    ensures ValidEntries(entries) <==> AreSound(entries)
  {
    forall i | 0 <= i < |entries| { SoundIff(entries[i]); }
    hide IsSoundEntry, VerificationEntry.Valid;
  }

  lemma RowParsesIff(r: RowDisposition)
    ensures RowPayload(r).Valid() <==> IsAcceptable(ROW, RowPayload(r))
  {
    SoundEntriesIff(r.verificationEntries);
    if r.naReason.Some? { BlankIff(r.naReason.value); }
    hide ValidEntries, AreSound, Strip, All;
  }

  lemma ParsesIff(kind: CallKind, payload: Payload)
    ensures Parses(kind, payload) <==> IsAcceptable(kind, payload)
  {
    hide ValidEntries, AreSound, Strip, All;
    match payload {
      case RowPayload(r) => RowParsesIff(r);
      case SourceQualityPayload(q) => SoundEntriesIff(q.verificationEntries);
      case JudgementPayload(j) => SoundEntriesIff(j.verificationEntries);
      case _ =>
    }
  }

  lemma SoundIff(e: VerificationEntry)
    ensures IsSoundEntry(e) <==> e.Valid()
  {
  }

  lemma AcceptedIsValid(tape: nat -> Reply, n: nat, kind: CallKind, payload: Payload)
    requires WasAnswered(tape, n, kind, payload)
    ensures payload.Valid()
  {
    hide Payload.Valid;
  }

  lemma RowAnswerIsValid(tape: nat -> Reply, n: nat, d: RowDisposition, id: string)
    requires RowAnswered(tape, n, d, id)
    ensures ValidEntries(d.verificationEntries)
    ensures d.verdict == NotApplicable ==> d.naReason.Some? && !All(d.naReason.value, IsSpace)
  {
    var a :| WasAnswered(tape, n, ROW, RowPayload(a)) && (d == a || d == a.(rowId := id));
    AcceptedIsValid(tape, n, ROW, RowPayload(a));
    hide WasAnswered, VerificationEntry.Valid;
    if a.naReason.Some? { BlankIff(a.naReason.value); }
  }

  lemma EntryAtIsSound(tape: nat -> Reply, n: nat, snap: Snapshot, slot: Slot)
    requires FromTape(tape, n, snap) && EntryAt(snap, slot).Some?
    ensures IsSoundEntry(EntryAt(snap, slot).value)
  {
    SoundIff(EntryAt(snap, slot).value);
    hide WasAnswered, RowAnswered, VerificationEntry.Valid;
    if slot.group == 1 {
      RowAnswerIsValid(tape, n, snap.rows[slot.row], slot.row);
    } else if slot.group == 2 {
      AcceptedIsValid(tape, n, SOURCE_QUALITY, SourceQualityPayload(snap.sourceQuality.value));
    } else {
      AcceptedIsValid(tape, n, JUDGEMENT, JudgementPayload(snap.judgement.value));
    }
  }

  /** Every published log entry is sound, and every published row that does not apply says why. */
  lemma PublishedAnswersAreSound(deps: Deps, request: Request, world: World, state: ReviewState,
                                 tape: nat -> Reply, calls: nat, pub: Publication)
    requires Publishes(deps, request, world, state, tape, calls, pub)
    ensures forall i | 0 <= i < |pub.verificationLog| :: IsSoundEntry(pub.verificationLog[i])
    ensures forall i | 0 <= i < |pub.rowDispositions| && pub.rowDispositions[i].verdict == NotApplicable ::
      pub.rowDispositions[i].naReason.Some? && !All(pub.rowDispositions[i].naReason.value, IsSpace)
  {
    hide Publishes, AreOwnCandidates, AreFindingsOf, IsSoundEntry, FromTape, All, InOrder, EntryAt;
    var rule, claims, snap, own, slots, logSlots :=
      PublicationIsTheAnswers(deps, request, world, state, tape, calls, pub);
    forall i | 0 <= i < |pub.verificationLog| ensures IsSoundEntry(pub.verificationLog[i]) {
      EntryAtIsSound(tape, calls, snap, logSlots[i]);
    }
    forall i | 0 <= i < |pub.rowDispositions| && pub.rowDispositions[i].verdict == NotApplicable
      ensures pub.rowDispositions[i].naReason.Some? && !All(pub.rowDispositions[i].naReason.value, IsSpace)
    {
      RowOfTape(tape, calls, snap, deps.oracle.rows[i].id);
    }
  }

  lemma RowOfTape(tape: nat -> Reply, n: nat, snap: Snapshot, id: string)
    requires FromTape(tape, n, snap) && id in snap.rows
    ensures snap.rows[id].verdict == NotApplicable ==>
      snap.rows[id].naReason.Some? && !All(snap.rows[id].naReason.value, IsSpace)
  {
    hide WasAnswered, RowAnswered;
    RowAnswerIsValid(tape, n, snap.rows[id], id);
  }

  /** The attribution sweep found nothing in what is published as prose: the summaries, and the
      headline, strengths and risks that the model was last asked for. */
  lemma PublishedProseIsClean(deps: Deps, request: Request, world: World, state: ReviewState,
                              tape: nat -> Reply, calls: nat, pub: Publication)
    returns (s: SynthesisResult, summaries: seq<string>)
    requires Publishes(deps, request, world, state, tape, calls, pub)
    ensures WasAnswered(tape, calls, SYNTHESIS, SynthesisPayload(s)) && pub.headline == deps.launder(s.headline)
    ensures |summaries| == |pub.findings|
    ensures forall i | 0 <= i < |summaries| :: summaries[i] == pub.findings[i].summary
    ensures deps.checker.attribution(summaries + [s.headline] + s.whatSurvives + s.residualRisks) == []
  {
    hide EvidenceUpTo, DefectsOf, AllEntries, DeterministicCandidates, ResolveMode, Assembled, SweptFor, FindClass,
      Dispositions, Escalation, WasAnswered, ProseBlocks, RowAnswered;
    var classify, rule, claims, snap :|
      PublishedFrom(deps, request, world, state, tape, calls, classify, rule, claims, snap, pub);
    s := snap.synthesis.value;
    Guarantees.NoDefects(deps, snap, pub.findings, EvidenceUpTo(tape, calls));
    summaries := ProseIs(snap, pub.findings);
  }

  lemma ProseIs(snap: Snapshot, findings: seq<Finding>) returns (summaries: seq<string>)
    requires snap.synthesis.Some?
    ensures |summaries| == |findings| && forall i | 0 <= i < |summaries| :: summaries[i] == findings[i].summary
    ensures var s := snap.synthesis.value;
      ProseBlocks(snap, findings) == summaries + [s.headline] + s.whatSurvives + s.residualRisks
  {
    var s := snap.synthesis.value;
    summaries := Summaries(findings);
    assert summaries + ([s.headline] + s.whatSurvives + s.residualRisks)
        == summaries + [s.headline] + s.whatSurvives + s.residualRisks;
  }
}
