/** Findings, severities and the recurrence key (models/findings.py). */
module Findings {
  import opened Text

  // ---- Severity ----------------------------------------------------------

  /** An ordered severity: the source's IntEnum. */
  type Severity = s: int | 0 <= s <= 3

  const INFO: Severity := 0
  const MINOR: Severity := 1
  const MAJOR: Severity := 2
  const BLOCKER: Severity := 3

  function Min(a: Severity, b: Severity): Severity {
    if a <= b then a else b
  }

  /** There are four, in this order. */
  lemma SeveritiesAre(s: Severity)
    ensures INFO < MINOR < MAJOR < BLOCKER
    ensures s == INFO || s == MINOR || s == MAJOR || s == BLOCKER
  {
  }

  // ---- Supports ----------------------------------------------------------

  datatype SupportKind = DoctrineRow | GateFailure | SafetyFailure | InternalContradiction

  datatype SupportRef = SupportRef(kind: SupportKind, ref: string)

  // ---- Slugs -------------------------------------------------------------

  predicate IsSlugChar(c: char) {
    'a' <= c <= 'z' || IsDigit(c)
  }

  lemma SlugCharIs(c: char)
    ensures IsSlugChar(c) <==> c in LOWER || c in DIGITS
  {
    LowerAlphabet(c);
    DigitsAre(c);
  }

  predicate IsSlugBreak(c: char) {
    !IsSlugChar(c)
  }

  /** `normalize_slug`: lower-case, every other run becomes one hyphen, ends stripped. */
  function NormalizeSlug(text: string): string {
    Tidy(Lower(text), IsSlugBreak, '-')
  }

  /** Hyphen-separated non-empty runs of [a-z0-9], or nothing at all. */
  ghost predicate IsSlug(s: string) {
    IsTidy(s, IsSlugBreak, '-')
  }

  lemma SlugCharsAreLower(s: string)
    requires IsSlug(s)
    ensures Lower(s) == s
  {
    forall i | 0 <= i < |s| ensures LowerChar(s[i]) == s[i] {
      assert IsSlugBreak(s[i]) ==> s[i] == '-';
    }
  }

  /** The slugs are exactly the fixed points of `normalize_slug`, and every text has one. */
  lemma SlugsAreFixedPoints(text: string)
    ensures IsSlug(NormalizeSlug(text))
    ensures NormalizeSlug(NormalizeSlug(text)) == NormalizeSlug(text)
    ensures IsSlug(text) <==> NormalizeSlug(text) == text
  {
    hide Tidy, IsTidy;
    TidyIsTidy(Lower(text), IsSlugBreak, '-');
    var s := NormalizeSlug(text);
    SlugCharsAreLower(s);
    TidyFixed(s, IsSlugBreak, '-');
    if IsSlug(text) {
      SlugCharsAreLower(text);
      TidyFixed(text, IsSlugBreak, '-');
    }
  }

  /** Two anchors get the same slug iff they have the same runs of letters and digits,
      ignoring case: this is when a finding counts as the same defect again. */
  lemma SameSlugIff(a: string, b: string)
    ensures NormalizeSlug(a) == NormalizeSlug(b)
       <==> Pieces(Lower(a), IsSlugBreak) == Pieces(Lower(b), IsSlugBreak)
    ensures NormalizeSlug(a) == Join(Pieces(Lower(a), IsSlugBreak), '-')
  {
    hide Tidy, Pieces;
    TidyEqualIff(Lower(a), Lower(b), IsSlugBreak, '-');
    TidyIsJoin(Lower(a), IsSlugBreak, '-');
  }

  // ---- Keys --------------------------------------------------------------

  datatype FindingKey = FindingKey(rowId: string, slug: string) {
    /** What the model's field constraints and validator accept. */
    ghost predicate Valid() {
      rowId != [] && slug != [] && IsSlug(slug)
    }

    function Render(): string {
      rowId + "+" + slug
    }
  }

  /** A slug holds no `+`, so the last `+` of a rendered key is the separator. */
  lemma RenderIsInjective(k1: FindingKey, k2: FindingKey)
    requires k1.Valid() && k2.Valid()
    ensures k1.Render() == k2.Render() ==> k1 == k2
  {
    if k1.Render() == k2.Render() {
      if |k1.slug| < |k2.slug| {
        PlusInside(k1, k2);
      } else if |k2.slug| < |k1.slug| {
        PlusInside(k2, k1);
      } else {
        assert k1.Render()[..|k1.rowId|] == k1.rowId && k2.Render()[..|k2.rowId|] == k2.rowId;
        assert k1.Render()[|k1.rowId| + 1..] == k1.slug && k2.Render()[|k2.rowId| + 1..] == k2.slug;
      }
    }
  }

  lemma PlusInside(k1: FindingKey, k2: FindingKey)
    requires k2.Valid() && |k1.slug| < |k2.slug|
    ensures k1.Render() != k2.Render()
  {
    var n := |k1.rowId|;
    assert k1.Render()[n] == '+';
    if |k1.Render()| == |k2.Render()| {
      var i := n - |k2.rowId| - 1;
      assert k2.Render()[n] == k2.slug[i];
      assert IsSlugBreak('+');
    }
  }

  // ---- Findings ----------------------------------------------------------

  datatype Origin = Llm | Deterministic

  /** Why a severity was lowered (one phrase of `cap_reason`). */
  datatype CapReason = AdvisoryMode | StaleRows | SoloTier(reason: string) | NoBlockerBasis

  /** A finding before assembly and capping. */
  datatype CandidateFinding = CandidateFinding(
    severity: Severity,
    summary: string,
    anchor: string,
    doctrineRefs: seq<string>,
    gateRefs: seq<string>,
    supports: seq<SupportRef>,
    dispositionRequired: string)

  /** A finding after assembly; `capReasons` is `cap_reason` before its parts are joined. */
  datatype Finding = Finding(
    findingId: string,
    origin: Origin,
    severity: Severity,
    originalSeverity: Severity,
    summary: string,
    doctrineRefs: seq<string>,
    gateRefs: seq<string>,
    supports: seq<SupportRef>,
    dispositionRequired: string,
    key: FindingKey,
    capReasons: seq<CapReason>)
}
