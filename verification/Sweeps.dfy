/** What the model may answer to each typed call (models/sweeps.py, models/verification.py). */
module Sweeps {
  import opened Wrappers
  import opened Text
  import opened Findings
  import opened SeverityPolicy

  datatype Confidence = Certain | Likely | Guessing

  datatype Status = Verified | StatusGuessing | UnverifiedFlagged

  datatype VerificationEntry = VerificationEntry(
    assertion: string,
    rowId: Option<string>,
    sourceUrl: Option<string>,
    canonicalId: Option<string>,
    confidence: Confidence,
    fetched: bool,
    status: Status)
  {
    predicate Valid() {
      && assertion != []
      && (status.Verified? ==> fetched && (Truthy(sourceUrl) || Truthy(canonicalId)))
      && (status.StatusGuessing? ==> confidence.Guessing?)
    }
  }

  /** Python truth of an optional string. */
  predicate Truthy(s: Option<string>) {
    s.Some? && s.value != []
  }

  datatype RowVerdict = Hit | Miss | NotApplicable

  datatype RowDisposition = RowDisposition(
    rowId: string,
    verdict: RowVerdict,
    naReason: Option<string>,
    findings: seq<CandidateFinding>,
    verificationEntries: seq<VerificationEntry>)

  datatype ClassifyResult = ClassifyResult(
    artifactClass: string,
    modeRecommendation: ReviewMode,
    conformanceEvidence: Option<string>,
    sectionsPresent: seq<string>)

  datatype MeasurementClaim = MeasurementClaim(claim: string)

  datatype ClaimsResult = ClaimsResult(claims: seq<MeasurementClaim>)

  /** Baseline and falsifiability checks, reduced to the finding each may carry. */
  datatype JudgementSweepResult = JudgementSweepResult(
    baselines: seq<Option<CandidateFinding>>,
    falsifiability: seq<Option<CandidateFinding>>,
    verificationEntries: seq<VerificationEntry>)

  datatype SourceQualityResult = SourceQualityResult(
    loadBearingViolations: seq<CandidateFinding>,
    regimeBreakFindings: seq<CandidateFinding>,
    verificationEntries: seq<VerificationEntry>)

  datatype SynthesisResult = SynthesisResult(
    headline: string,
    whatSurvives: seq<string>,
    residualRisks: seq<string>)

  predicate ValidCandidates(cs: seq<CandidateFinding>) {
    forall i | 0 <= i < |cs| :: cs[i].summary != [] && cs[i].anchor != []
  }

  predicate ValidEntries(es: seq<VerificationEntry>) {
    forall i | 0 <= i < |es| :: es[i].Valid()
  }

  predicate ValidOptions(os: seq<Option<CandidateFinding>>) {
    forall i | 0 <= i < |os| :: os[i].Some? ==> os[i].value.summary != [] && os[i].value.anchor != []
  }

  /** The payload of one call. Which shape it has is up to the model. */
  datatype Payload =
    | ClassifyPayload(classify: ClassifyResult)
    | RowPayload(row: RowDisposition)
    | ClaimsPayload(claims: ClaimsResult)
    | JudgementPayload(judgement: JudgementSweepResult)
    | SourceQualityPayload(sourceQuality: SourceQualityResult)
    | SynthesisPayload(synthesis: SynthesisResult)
    | OtherPayload
  {
    /** The field constraints and validators of the payload's own model. */
    predicate Valid() {
      match this
      case ClassifyPayload(c) => c.artifactClass != []
      case RowPayload(r) =>
        && r.rowId != []
        && (r.verdict.NotApplicable? ==> r.naReason.Some? && Strip(r.naReason.value, IsSpace) != [])
        && ValidCandidates(r.findings) && ValidEntries(r.verificationEntries)
      case ClaimsPayload(_) => true
      case JudgementPayload(j) =>
        ValidOptions(j.baselines) && ValidOptions(j.falsifiability) && ValidEntries(j.verificationEntries)
      case SourceQualityPayload(q) =>
        && ValidCandidates(q.loadBearingViolations) && ValidCandidates(q.regimeBreakFindings)
        && ValidEntries(q.verificationEntries)
      case SynthesisPayload(s) => s.headline != []
      case OtherPayload => false
    }
  }

  datatype CallKind = CLASSIFY | ROW | CLAIMS | SOURCE_QUALITY | JUDGEMENT | SYNTHESIS

  /** `parse_payload`: accepted iff it is a valid answer of the requested kind. */
  predicate Parses(kind: CallKind, payload: Payload) {
    && payload.Valid()
    && match kind
       case CLASSIFY => payload.ClassifyPayload?
       case ROW => payload.RowPayload?
       case CLAIMS => payload.ClaimsPayload?
       case SOURCE_QUALITY => payload.SourceQualityPayload?
       case JUDGEMENT => payload.JudgementPayload?
       case SYNTHESIS => payload.SynthesisPayload?
  }
}
