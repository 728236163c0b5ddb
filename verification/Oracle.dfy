/** The oracle table: doctrine rows, freshness bookkeeping and severity policy
    (models/oracle.py), reduced to the fields the enforcement core reads. */
module Oracle {
  import opened Text
  import opened Wrappers
  import opened Findings

  datatype Tier = PR | AP | T | E | NONE

  /** A calendar day, as a day number. */
  type Day = int

  datatype SourceRef = SourceRef(
    citation: string,
    authors: seq<string>,
    arxivId: Option<string>,
    tier: Tier,
    verified: bool,
    lastVerified: Option<Day>)

  datatype FreshnessMeta = FreshnessMeta(
    lastRebaselined: Day,
    rebaselineCount: nat,
    maxRebaselinesWithoutVerification: int)

  datatype OracleRow = OracleRow(
    id: string,
    sources: seq<SourceRef>,
    tier: Tier,
    disclosedGap: bool)
  {
    predicate HasVerifiedSource() {
      exists i | 0 <= i < |sources| :: sources[i].verified
    }

    /** `is_stale`: no source verified and the re-baseline budget used up. */
    predicate IsStale(freshness: FreshnessMeta) {
      if disclosedGap then false
      else if HasVerifiedSource() then false
      else freshness.rebaselineCount >= freshness.maxRebaselinesWithoutVerification
    }
  }

  datatype TierCap = TierCap(tiers: set<Tier>, maxSolo: Severity, reason: string)

  /** What may carry a Blocker: a doctrine row of a blocker tier, or a support kind. */
  datatype BlockerBasis = TierRow | BySupport(kind: SupportKind)

  datatype SeverityPolicyConfig = SeverityPolicyConfig(
    tierCaps: seq<TierCap>,
    unverifiedRowCap: Severity,
    blockerRequiresAnyOf: set<BlockerBasis>,
    blockerTiers: set<Tier>)

  datatype ArtifactClassRule = ArtifactClassRule(
    name: string,
    requiresSections: seq<string>,
    missingSectionSeverity: Severity,
    missingSectionSupport: SupportKind,
    sourceQualityOnly: bool)

  datatype OracleTable = OracleTable(
    rows: seq<OracleRow>,
    freshness: FreshnessMeta,
    severityPolicy: SeverityPolicyConfig,
    markers: seq<string>,
    advisorySeverityCap: Severity,
    artifactClasses: seq<ArtifactClassRule>,
    escalationCycle: int,
    placeholderRowId: string)
  {
    /** `row`: the first row with that id; a KeyError is `None`. */
    function Row(rowId: string): (r: Option<OracleRow>)
      ensures r.Some? ==> r.value in rows && r.value.id == rowId
      ensures r.None? ==> forall i | 0 <= i < |rows| :: rows[i].id != rowId
    {
      FindRow(rows, rowId)
    }

    function RowIds(): set<string> {
      set i | 0 <= i < |rows| :: rows[i].id
    }

    /** What the field constraints and the cross-reference validator enforce. */
    predicate Valid() {
      && rows != [] && markers != []
      && (forall i | 0 <= i < |rows| :: rows[i].disclosedGap || rows[i].sources != [])
      && (forall i | 0 <= i < |rows| :: IsRowId(rows[i].id))
      && (forall i, j | 0 <= i < j < |rows| :: rows[i].id != rows[j].id)
      && artifactClasses != []
      && (forall i | 0 <= i < |artifactClasses| :: artifactClasses[i].name != [])
      && (forall i, j | 0 <= i < j < |artifactClasses| ::
            artifactClasses[i].name != artifactClasses[j].name)
      && placeholderRowId != [] && !IsRowId(placeholderRowId)
      && escalationCycle >= 2 && severityPolicy.blockerRequiresAnyOf != {}
      && (forall i | 0 <= i < |severityPolicy.tierCaps| :: severityPolicy.tierCaps[i].tiers != {})
    }
  }

  function FindRow(rows: seq<OracleRow>, rowId: string): (r: Option<OracleRow>)
    ensures r.Some? ==> r.value in rows && r.value.id == rowId
    ensures r.None? ==> forall i | 0 <= i < |rows| :: rows[i].id != rowId
  {
    if rows == [] then None
    else if rows[0].id == rowId then Some(rows[0])
    else FindRow(rows[1..], rowId)
  }

  /** With distinct ids the lookup does not depend on the order of the rows. */
  lemma {:induction false} FindRowAt(rows: seq<OracleRow>, i: nat)
    requires i < |rows|
    requires forall a, b | 0 <= a < b < |rows| :: rows[a].id != rows[b].id
    ensures FindRow(rows, rows[i].id) == Some(rows[i])
  {
    if i > 0 {
      FindRowAt(rows[1..], i - 1);
    }
  }

  /** `^[A-Z]\d+[a-z]?$`; Python's `$` also matches in front of a final newline. */
  predicate IsRowId(s: string) {
    IsPlainRowId(s) || (s != [] && s[|s| - 1] == '\n' && IsPlainRowId(s[..|s| - 1]))
  }

  /** A capital letter, digits up to `n`, perhaps a small letter, perhaps a final newline. */
  predicate IsRowIdUpTo(s: string, n: nat) {
    && 2 <= n <= |s| <= n + 2 && 'A' <= s[0] <= 'Z'
    && (forall k | 0 < k < n :: '0' <= s[k] <= '9')
    && (|s| == n || s[n..] == "\n" || 'a' <= s[n] <= 'z')
    && (|s| == n + 2 ==> s[n + 1] == '\n')
  }

  lemma RowIdIff(s: string)
    ensures IsRowId(s) <==> exists n: nat :: IsRowIdUpTo(s, n)
  {
    PlainRowIdIff(s);
    if s != [] {
      var t := s[..|s| - 1];
      PlainRowIdIff(t);
      if n: nat :| PlainUpTo(t, n) && s[|s| - 1] == '\n' {
        assert |t| == n ==> s[n..] == "\n";
        assert IsRowIdUpTo(s, n);
      }
      if n: nat :| PlainUpTo(s, n) { assert IsRowIdUpTo(s, n); }
      if n: nat :| IsRowIdUpTo(s, n) {
        assert |s| == n + 1 && s[n..] == "\n" ==> s[n] == '\n';
        if s[|s| - 1] == '\n' { assert PlainUpTo(t, n); } else { assert PlainUpTo(s, n); }
      }
    }
  }

  predicate PlainUpTo(s: string, n: nat) {
    && 2 <= n <= |s| <= n + 1 && 'A' <= s[0] <= 'Z'
    && (forall k | 0 < k < n :: '0' <= s[k] <= '9')
    && (|s| == n + 1 ==> 'a' <= s[n] <= 'z')
  }

  lemma PlainRowIdIff(s: string)
    ensures IsPlainRowId(s) <==> exists n: nat :: PlainUpTo(s, n)
  {
    if s != [] {
      var t := s[1..];
      assert forall k | 0 <= k < |t| :: t[k] == s[k + 1];
      if n: nat :| PlainUpTo(s, n) {
        SpanIs(t, IsDigit, n - 1);
      }
      if IsPlainRowId(s) {
        var n := Span(t, IsDigit);
        assert forall k | 0 < k < n + 1 :: IsDigit(s[k]) by {
          forall k | 0 < k < n + 1 ensures IsDigit(s[k]) { assert IsDigit(t[k - 1]); }
        }
        assert PlainUpTo(s, n + 1);
      }
    }
  }

  predicate IsPlainRowId(s: string) {
    && s != [] && 'A' <= s[0] <= 'Z'
    && var n := Span(s[1..], IsDigit);
       n > 0 && (n + 1 == |s| || (n + 2 == |s| && 'a' <= s[n + 1] <= 'z'))
  }

  lemma PlainRowIdIsWord(s: string)
    requires IsPlainRowId(s)
    ensures IsWord(s) && 'A' <= s[0] <= 'Z'
  {
    var n := Span(s[1..], IsDigit);
    forall i | 0 <= i < |s| ensures IsAlnum(s[i]) {
      if 1 <= i <= n { assert IsDigit(s[1..][i - 1]); }
    }
  }

  /** A row id without the final newline that it may have. */
  function Plain(id: string): string {
    if id != [] && id[|id| - 1] == '\n' then id[..|id| - 1] else id
  }

  lemma PlainOfRowId(id: string)
    requires IsRowId(id)
    ensures IsPlainRowId(Plain(id)) && IsWord(Plain(id)) && 'A' <= Plain(id)[0] <= 'Z'
    ensures id == Plain(id) || id == Plain(id) + "\n"
  {
    if IsPlainRowId(id) {
      PlainRowIdIsWord(id);
      assert IsAlnum(id[|id| - 1]);
    } else {
      PlainRowIdIsWord(id[..|id| - 1]);
    }
  }

  /** A key under the placeholder never renders like a key under a doctrine row. */
  lemma PlaceholderNeverCollides(table: OracleTable, rowId: string, slug1: string, slug2: string)
    requires table.Valid() && rowId in table.RowIds()
    requires FindingKey(table.placeholderRowId, slug1).Valid() && FindingKey(rowId, slug2).Valid()
    ensures FindingKey(table.placeholderRowId, slug1).Render() != FindingKey(rowId, slug2).Render()
  {
    hide FindingKey.Valid, FindingKey.Render;
    RenderIsInjective(FindingKey(table.placeholderRowId, slug1), FindingKey(rowId, slug2));
  }
}
