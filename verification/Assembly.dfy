/** How sweep results become the findings and the verification log (harness/pipeline.py,
    the deterministic helpers of ReviewPipeline). */
module Assembly {
  import opened Wrappers
  import opened Text
  import opened Squashing
  import opened Findings
  import opened Oracle
  import opened SeverityPolicy
  import opened Sweeps
  import opened Transcript
  import opened Verification
  import Consistency

  // ---- Inputs ------------------------------------------------------------

  datatype ModeSelection = Auto | Fixed(mode: ReviewMode)

  /** One review: the artifact's text, and what the decision gate finds in its repository. */
  datatype Request = Request(
    artifactId: string, mode: ModeSelection, text: string, decisionFindings: seq<CandidateFinding>)

  /** The oracle, the settings, and the parts that are functions of their inputs. `labels`
      answers nothing when the oracle has no label specification. */
  datatype Deps = Deps(
    oracle: OracleTable,
    maxRegenerationAttempts: int,
    checker: Checker,
    consistency: Consistency.Config,
    sourceQuality: string -> seq<CandidateFinding>,
    labels: string -> seq<CandidateFinding>,
    gates: (seq<MeasurementClaim>, string) -> seq<CandidateFinding>,
    headings: string -> seq<string>,
    launder: string -> string)

  // ---- Mode --------------------------------------------------------------

  predicate MarkersPresent(markers: seq<string>, text: string) {
    exists i | 0 <= i < |markers| :: Contains(Lower(text), Lower(markers[i]))
  }

  function Quote(classify: ClassifyResult): string {
    if classify.conformanceEvidence.Some? then Strip(classify.conformanceEvidence.value, IsSpace) else ""
  }

  /** `_resolve_mode`: the mode, and whether it is uncertain. */
  function ResolveMode(deps: Deps, request: Request, classify: ClassifyResult): (ReviewMode, bool) {
    if request.mode.Fixed? then (request.mode.mode, false)
    else
      var found := Quote(classify) != [] && Contains(Squash(request.text), Squash(Quote(classify)));
      if classify.modeRecommendation.Conformance? && found then (Conformance, false)
      else (Advisory, MarkersPresent(deps.oracle.markers, request.text))
  }

  /** In auto mode the review is a conformance review iff the model recommends it and gives
      evidence that is not blank and reads, up to whitespace and case, like some span of the
      artifact. */
  lemma AutoConformanceIff(deps: Deps, request: Request, classify: ClassifyResult)
    requires request.mode.Auto?
    ensures ResolveMode(deps, request, classify).0.Conformance?
       <==> && classify.modeRecommendation.Conformance? && classify.conformanceEvidence.Some?
            && !All(classify.conformanceEvidence.value, IsSpace)
            && HasSpanReading(request.text, classify.conformanceEvidence.value)
  {
    hide Squash, Contains, HasSpanReading;
    if classify.conformanceEvidence.Some? {
      var e := classify.conformanceEvidence.value;
      BlankIff(e);
      StripIsReadAlike(request.text, e);
      if Quote(classify) != [] {
        assert !All(Quote(classify), IsSpace) by { assert !IsSpace(Quote(classify)[0]); }
        QuoteFoundIff(request.text, Quote(classify));
      }
    }
  }

  lemma BlankIff(s: string)
    ensures Strip(s, IsSpace) == [] <==> All(s, IsSpace)
  {
    var t := LStrip(s, IsSpace);
    hide IsSpace;
  }

  /** Some marker stands in the text, up to case. */
  predicate MarkerOccurs(markers: seq<string>, text: string) {
    exists i, j, k | 0 <= i < |markers| && 0 <= j <= k <= |text| :: Lower(text[j..k]) == Lower(markers[i])
  }

  lemma MarkersPresentIff(markers: seq<string>, text: string)
    ensures MarkersPresent(markers, text) <==> MarkerOccurs(markers, text)
  {
    assert forall j, k | 0 <= j <= k <= |text| :: Lower(text)[j..k] == Lower(text[j..k]);
    if i :| 0 <= i < |markers| && Contains(Lower(text), Lower(markers[i])) {
      var j :| 0 <= j <= |text| && OccursAt(Lower(markers[i]), Lower(text), j);
      assert Lower(text)[j..j + |markers[i]|] == Lower(text[j..j + |markers[i]|]);
    }
    if i, j, k :| 0 <= i < |markers| && 0 <= j <= k <= |text| && Lower(text[j..k]) == Lower(markers[i]) {
      assert |text[j..k]| == |markers[i]|;
      assert OccursAt(Lower(markers[i]), Lower(text), j);
    }
  }

  /** A mode that the request fixes stands and is certain; an automatic one is uncertain iff
      it is advisory although a marker occurs in the artifact. */
  lemma ModeIsCertainUnless(deps: Deps, request: Request, classify: ClassifyResult)
    ensures request.mode.Fixed? ==> ResolveMode(deps, request, classify) == (request.mode.mode, false)
    ensures request.mode.Auto? ==>
      (ResolveMode(deps, request, classify).1
       <==> ResolveMode(deps, request, classify).0.Advisory? && MarkerOccurs(deps.oracle.markers, request.text))
  {
    hide MarkersPresent, MarkerOccurs, Squash, Contains;
    MarkersPresentIff(deps.oracle.markers, request.text);
  }

  // ---- Deterministic candidates ------------------------------------------

  /** Steps 4 and 5: functions of the artifact and the oracle alone. */
  ghost function BaseCandidates(deps: Deps, request: Request): seq<CandidateFinding> {
    Consistency.Contradictions(deps.consistency, request.text)
    + deps.sourceQuality(request.text)
    + request.decisionFindings
    + deps.labels(request.text)
  }

  /** `_sections_present`: declared sections named in one of the artifact's own headings. */
  predicate SectionPresent(deps: Deps, text: string, section: string) {
    exists i | 0 <= i < |deps.headings(text)| ::
      Contains(Lower(Strip(deps.headings(text)[i], IsSpace)), Lower(section))
  }

  function MissingSection(rule: ArtifactClassRule, section: string): CandidateFinding {
    CandidateFinding(
      rule.missingSectionSeverity,
      "A " + rule.name + " must carry a " + section + " section; none found.",
      "missing-" + section + "-section",
      [], [],
      [SupportRef(rule.missingSectionSupport, section)],
      "Add the required " + section + " section.")
  }

  /** The class obligations: one candidate per required section the headings lack. */
  function MissingSections(deps: Deps, text: string, rule: ArtifactClassRule, sections: seq<string>)
    : seq<CandidateFinding>
    decreases |sections|
  {
    if sections == [] then []
    else (if SectionPresent(deps, text, sections[0]) then [] else [MissingSection(rule, sections[0])])
         + MissingSections(deps, text, rule, sections[1..])
  }

  // ---- Working set -------------------------------------------------------

  /** The sweep results a verification attempt works on. */
  datatype Snapshot = Snapshot(
    rows: map<string, RowDisposition>,
    sourceQuality: Option<SourceQualityResult>,
    judgement: Option<JudgementSweepResult>,
    synthesis: Option<SynthesisResult>)

  /** A candidate with the row it falls back to and its origin. */
  datatype Tagged = Tagged(candidate: CandidateFinding, defaultRow: Option<string>, origin: Origin)

  function TagAll(cs: seq<CandidateFinding>, defaultRow: Option<string>, origin: Origin): (r: seq<Tagged>)
    ensures |r| == |cs|
    ensures forall i | 0 <= i < |r| :: r[i] == Tagged(cs[i], defaultRow, origin)
  {
    seq(|cs|, i requires 0 <= i < |cs| => Tagged(cs[i], defaultRow, origin))
  }

  function TagRows(rows: map<string, RowDisposition>, ids: seq<string>): seq<Tagged>
    requires forall i | 0 <= i < |ids| :: ids[i] in rows
  {
    if ids == [] then []
    else
      var id := ids[|ids| - 1];
      TagRows(rows, ids[..|ids| - 1]) + TagAll(rows[id].findings, Some(id), Llm)
  }

  function TagOptions(os: seq<Option<CandidateFinding>>): seq<Tagged> {
    if os == [] then []
    else
      var o := os[|os| - 1];
      TagOptions(os[..|os| - 1]) + (if o.Some? then [Tagged(o.value, None, Llm)] else [])
  }

  /** What the model's calls contribute, after the deterministic candidates. */
  function TagModel(snap: Snapshot): seq<Tagged> {
    TagRows(snap.rows, Sorted(snap.rows.Keys))
    + (if snap.sourceQuality.Some? then
         TagAll(snap.sourceQuality.value.loadBearingViolations
                + snap.sourceQuality.value.regimeBreakFindings, None, Llm)
       else [])
    + (if snap.judgement.Some? then
         TagOptions(snap.judgement.value.baselines) + TagOptions(snap.judgement.value.falsifiability)
       else [])
  }

  function Tags(snap: Snapshot, deterministic: seq<CandidateFinding>): seq<Tagged> {
    TagAll(deterministic, None, Deterministic) + TagModel(snap)
  }

  // ---- Findings ----------------------------------------------------------

  function KnownRefs(oracle: OracleTable, refs: seq<string>): (r: seq<string>)
    ensures forall x :: x in r <==> x in refs && x in oracle.RowIds()
  {
    if refs == [] then []
    else (if refs[0] in oracle.RowIds() then [refs[0]] else []) + KnownRefs(oracle, refs[1..])
  }

  function KnownSupports(oracle: OracleTable, supports: seq<SupportRef>): seq<SupportRef> {
    if supports == [] then []
    else (if !supports[0].kind.DoctrineRow? || supports[0].ref in oracle.RowIds() then [supports[0]] else [])
         + KnownSupports(oracle, supports[1..])
  }

  /** Dropping references to unknown rows leaves the evidence, and so the capping, alone. */
  lemma {:induction false} DroppedSupportsCarryNothing(oracle: OracleTable, supports: seq<SupportRef>)
    ensures Evidence(oracle, KnownSupports(oracle, supports)) == Evidence(oracle, supports)
  {
    if supports != [] {
      var s, rest := supports[0], supports[1..];
      DroppedSupportsCarryNothing(oracle, rest);
      assert supports == [s] + rest;
      KnownIffFound(oracle, s.ref);
      EvidenceOfConcat(oracle, [s], rest);
      EvidenceOfConcat(oracle, [s], KnownSupports(oracle, rest));
      assert s.kind.DoctrineRow? && s.ref !in oracle.RowIds() ==> Evidence(oracle, [s]) == {};
    }
  }

  lemma EvidenceOfConcat(oracle: OracleTable, a: seq<SupportRef>, b: seq<SupportRef>)
    ensures Evidence(oracle, a + b) == Evidence(oracle, a) + Evidence(oracle, b)
  {
  }

  lemma KnownIffFound(oracle: OracleTable, id: string)
    ensures id in oracle.RowIds() <==> oracle.Row(id).Some?
  {
  }

  function RefsOf(oracle: OracleTable, t: Tagged): seq<string> {
    var known := KnownRefs(oracle, t.candidate.doctrineRefs);
    if known == [] && Truthy(t.defaultRow) then [t.defaultRow.value] else known
  }

  function SlugOf(anchor: string): string {
    var slug := NormalizeSlug(anchor);
    if slug != [] then slug else "finding"
  }

  /** `_candidate_to_finding`, before the model's field constraints are checked. */
  function ToFinding(deps: Deps, t: Tagged, index: nat): Finding {
    var refs := RefsOf(deps.oracle, t);
    var c := t.candidate;
    Finding(
      "F" + Decimal(index),
      t.origin,
      c.severity,
      c.severity,
      deps.launder(c.summary),
      refs,
      c.gateRefs,
      KnownSupports(deps.oracle, c.supports),
      if c.dispositionRequired != [] then deps.launder(c.dispositionRequired) else "",
      FindingKey(if refs != [] then refs[0] else deps.oracle.placeholderRowId, SlugOf(c.anchor)),
      [])
  }

  function ToFindings(deps: Deps, tags: seq<Tagged>): (r: seq<Finding>)
    ensures |r| == |tags|
  {
    seq(|tags|, i requires 0 <= i < |tags| => ToFinding(deps, tags[i], i + 1))
  }

  /** Every summary survives laundering; an empty one is refused by the Finding model. */
  predicate Presentable(deps: Deps, tags: seq<Tagged>) {
    forall i | 0 <= i < |tags| :: deps.launder(tags[i].candidate.summary) != []
  }

  /** The findings of one verification attempt. */
  function Assembled(deps: Deps, snap: Snapshot, deterministic: seq<CandidateFinding>, mode: ReviewMode): seq<Finding> {
    CappedAll(deps.oracle, ToFindings(deps, Tags(snap, deterministic)), mode)
  }

  /** The key of an assembled finding always passes the key's own validation. */
  lemma AssembledKeysAreValid(deps: Deps, t: Tagged, index: nat)
    requires deps.oracle.Valid()
    requires t.defaultRow.Some? ==> t.defaultRow.value in deps.oracle.RowIds()
    ensures ToFinding(deps, t, index).key.Valid()
    ensures NormalizeSlug(ToFinding(deps, t, index).key.slug) == ToFinding(deps, t, index).key.slug
    ensures forall r | r in ToFinding(deps, t, index).doctrineRefs :: r in deps.oracle.RowIds()
  {
    var refs := RefsOf(deps.oracle, t);
    assert forall r | r in refs :: r in deps.oracle.RowIds() && r != [];
    if refs != [] { assert refs[0] in refs; }
    hide NormalizeSlug, IsSlug, RefsOf, OracleTable.Valid;
    SlugsAreFixedPoints(t.candidate.anchor);
    assert IsSlug("finding") by { FindingIsSlug(); }
    SlugsAreFixedPoints("finding");
  }

  lemma FindingIsSlug()
    ensures IsSlug("finding")
  {
    var s := "finding";
    assert forall i | 0 <= i < |s| :: IsSlugChar(s[i]);
  }

  predicate DefaultsKnown(oracle: OracleTable, tags: seq<Tagged>) {
    forall i | 0 <= i < |tags| && tags[i].defaultRow.Some? :: tags[i].defaultRow.value in oracle.RowIds()
  }

  lemma {:induction false} RowTagsKnown(oracle: OracleTable, rows: map<string, RowDisposition>, ids: seq<string>)
    requires forall i | 0 <= i < |ids| :: ids[i] in rows
    requires rows.Keys <= oracle.RowIds()
    ensures DefaultsKnown(oracle, TagRows(rows, ids))
  {
    if ids != [] {
      RowTagsKnown(oracle, rows, ids[..|ids| - 1]);
    }
  }

  lemma {:induction false} OptionTagsKnown(oracle: OracleTable, os: seq<Option<CandidateFinding>>)
    ensures DefaultsKnown(oracle, TagOptions(os))
  {
    if os != [] {
      OptionTagsKnown(oracle, os[..|os| - 1]);
    }
  }

  lemma KnownConcat(oracle: OracleTable, a: seq<Tagged>, b: seq<Tagged>)
    requires DefaultsKnown(oracle, a) && DefaultsKnown(oracle, b)
    ensures DefaultsKnown(oracle, a + b)
  {
  }

  /** Only rows of the oracle are fallen back to. */
  lemma TagsKnown(oracle: OracleTable, snap: Snapshot, deterministic: seq<CandidateFinding>)
    requires snap.rows.Keys <= oracle.RowIds()
    ensures DefaultsKnown(oracle, Tags(snap, deterministic))
  {
    var rows := TagRows(snap.rows, Sorted(snap.rows.Keys));
    var quality := if snap.sourceQuality.Some? then
      TagAll(snap.sourceQuality.value.loadBearingViolations
             + snap.sourceQuality.value.regimeBreakFindings, None, Llm) else [];
    var judged := if snap.judgement.Some? then
      TagOptions(snap.judgement.value.baselines) + TagOptions(snap.judgement.value.falsifiability) else [];
    var fixed := TagAll(deterministic, None, Deterministic);
    assert Tags(snap, deterministic) == fixed + (rows + quality + judged);
    assert DefaultsKnown(oracle, quality) && DefaultsKnown(oracle, fixed);
    RowTagsKnown(oracle, snap.rows, Sorted(snap.rows.Keys));
    hide DefaultsKnown, TagRows, TagOptions, TagAll, Tags;
    if snap.judgement.Some? {
      OptionTagsKnown(oracle, snap.judgement.value.baselines);
      OptionTagsKnown(oracle, snap.judgement.value.falsifiability);
      KnownConcat(oracle, TagOptions(snap.judgement.value.baselines), TagOptions(snap.judgement.value.falsifiability));
    } else {
      assert DefaultsKnown(oracle, judged) by { OptionTagsKnown(oracle, []); NoOptionsNoTags(); }
    }
    KnownConcat(oracle, rows, quality);
    KnownConcat(oracle, rows + quality, judged);
    KnownConcat(oracle, fixed, rows + quality + judged);
  }

  lemma NoOptionsNoTags()
    ensures TagOptions([]) == []
  {
  }

  ghost predicate WellKeyed(oracle: OracleTable, findings: seq<Finding>) {
    forall i | 0 <= i < |findings| ::
      && findings[i].key.Valid()
      && forall r | r in findings[i].doctrineRefs :: r in oracle.RowIds()
  }

  lemma CappedWellKeyed(deps: Deps, t: Tagged, index: nat, mode: ReviewMode)
    requires deps.oracle.Valid()
    requires t.defaultRow.Some? ==> t.defaultRow.value in deps.oracle.RowIds()
    ensures var f := Capped(deps.oracle, ToFinding(deps, t, index), mode);
      && f.key.Valid()
      && forall r | r in f.doctrineRefs :: r in deps.oracle.RowIds()
  {
    hide ToFinding, Capped, FindingKey.Valid, OracleTable.Valid, OracleTable.RowIds;
    AssembledKeysAreValid(deps, t, index);
    CappedKeepsIdentity(deps.oracle, ToFinding(deps, t, index), mode);
  }

  lemma AssembledAt(deps: Deps, snap: Snapshot, deterministic: seq<CandidateFinding>, mode: ReviewMode, i: nat)
    requires i < |Assembled(deps, snap, deterministic, mode)|
    requires DefaultsKnown(deps.oracle, Tags(snap, deterministic))
    ensures i < |Tags(snap, deterministic)|
    ensures var t := Tags(snap, deterministic)[i];
      && Assembled(deps, snap, deterministic, mode)[i] == Capped(deps.oracle, ToFinding(deps, t, i + 1), mode)
      && (t.defaultRow.Some? ==> t.defaultRow.value in deps.oracle.RowIds())
  {
    hide Tags, ToFinding, Capped, OracleTable.RowIds;
  }

  lemma AssembledWellKeyed(deps: Deps, snap: Snapshot, deterministic: seq<CandidateFinding>, mode: ReviewMode)
    requires deps.oracle.Valid() && snap.rows.Keys <= deps.oracle.RowIds()
    ensures WellKeyed(deps.oracle, Assembled(deps, snap, deterministic, mode))
  {
    hide Assembled, Tags, DefaultsKnown, ToFinding, Capped, FindingKey.Valid, OracleTable.Valid,
      OracleTable.RowIds;
    TagsKnown(deps.oracle, snap, deterministic);
    forall i | 0 <= i < |Assembled(deps, snap, deterministic, mode)|
      ensures Assembled(deps, snap, deterministic, mode)[i].key.Valid()
      ensures forall r | r in Assembled(deps, snap, deterministic, mode)[i].doctrineRefs ::
        r in deps.oracle.RowIds()
    {
      AssembledAt(deps, snap, deterministic, mode, i);
      CappedWellKeyed(deps, Tags(snap, deterministic)[i], i + 1, mode);
    }
  }

  /** Whatever the model answered, on whichever attempt: the deterministic candidates come
      first, and their findings depend on nothing else but the mode. */
  lemma DeterministicFindingsAreFixed(deps: Deps, s1: Snapshot, s2: Snapshot, base: seq<CandidateFinding>,
                                      more1: seq<CandidateFinding>, more2: seq<CandidateFinding>, mode: ReviewMode)
    ensures |Assembled(deps, s1, base + more1, mode)| >= |base|
    ensures |Assembled(deps, s2, base + more2, mode)| >= |base|
    ensures Assembled(deps, s1, base + more1, mode)[..|base|]
         == Assembled(deps, s2, base + more2, mode)[..|base|]
         == CappedAll(deps.oracle, ToFindings(deps, TagAll(base, None, Deterministic)), mode)
  {
    PrefixIsFixed(deps, s1, base, more1, mode);
    PrefixIsFixed(deps, s2, base, more2, mode);
  }

  lemma PrefixIsFixed(deps: Deps, snap: Snapshot, base: seq<CandidateFinding>, more: seq<CandidateFinding>,
                      mode: ReviewMode)
    ensures |Assembled(deps, snap, base + more, mode)| >= |base|
    ensures Assembled(deps, snap, base + more, mode)[..|base|]
         == CappedAll(deps.oracle, ToFindings(deps, TagAll(base, None, Deterministic)), mode)
  {
    var tags := Tags(snap, base + more);
    hide ToFinding, Capped, TagModel;
    assert forall i | 0 <= i < |base| :: tags[i] == Tagged(base[i], None, Deterministic);
    var all := Assembled(deps, snap, base + more, mode);
    var fixed := CappedAll(deps.oracle, ToFindings(deps, TagAll(base, None, Deterministic)), mode);
    assert |all| == |tags| && |fixed| == |base|;
    forall i | 0 <= i < |base| ensures all[i] == fixed[i] {
      assert all[i] == Capped(deps.oracle, ToFinding(deps, tags[i], i + 1), mode);
    }
  }

  // ---- Log and prose -----------------------------------------------------

  function RowEntries(rows: map<string, RowDisposition>, ids: seq<string>): seq<VerificationEntry>
    requires forall i | 0 <= i < |ids| :: ids[i] in rows
  {
    if ids == [] then []
    else RowEntries(rows, ids[..|ids| - 1]) + rows[ids[|ids| - 1]].verificationEntries
  }

  /** The verification log: every entry of every sweep result. */
  function AllEntries(snap: Snapshot): seq<VerificationEntry> {
    RowEntries(snap.rows, Sorted(snap.rows.Keys))
    + (if snap.sourceQuality.Some? then snap.sourceQuality.value.verificationEntries else [])
    + (if snap.judgement.Some? then snap.judgement.value.verificationEntries else [])
  }

  function Summaries(findings: seq<Finding>): seq<string> {
    seq(|findings|, i requires 0 <= i < |findings| => findings[i].summary)
  }

  function ProseBlocks(snap: Snapshot, findings: seq<Finding>): seq<string> {
    Summaries(findings)
    + (if snap.synthesis.Some? then
         [snap.synthesis.value.headline] + snap.synthesis.value.whatSurvives + snap.synthesis.value.residualRisks
       else [])
  }

  /** What the verifier has to say about one attempt. */
  ghost function DefectsOf(deps: Deps, snap: Snapshot, findings: seq<Finding>, evidence: seq<ToolEvidence>)
    : seq<string>
  {
    Defects(deps.checker, findings, AllEntries(snap), evidence, ProseBlocks(snap, findings))
  }
}
