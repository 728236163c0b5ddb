/** SeverityPolicy (harness/severity.py): three caps and the blocker rule. */
module SeverityPolicy {
  import opened Wrappers
  import opened Text
  import opened Findings
  import opened Oracle

  datatype ReviewMode = Conformance | Advisory

  // ---- What a finding's supports say -------------------------------------

  /** The doctrine row a support resolves to, if it names a known one. */
  function SupportingRow(table: OracleTable, s: SupportRef): Option<OracleRow> {
    if s.kind.DoctrineRow? then table.Row(s.ref) else None
  }

  /** The supports that carry evidence: everything but references to unknown rows. */
  function Evidence(table: OracleTable, supports: seq<SupportRef>): set<SupportRef> {
    set s | s in supports && (s.kind.DoctrineRow? ==> SupportingRow(table, s).Some?)
  }

  /** The supports that resolve to a doctrine row. */
  function Resolved(table: OracleTable, supports: seq<SupportRef>): set<SupportRef> {
    set s | s in supports && SupportingRow(table, s).Some?
  }

  function Tiers(table: OracleTable, supports: seq<SupportRef>): set<Tier> {
    set s | s in Resolved(table, supports) :: SupportingRow(table, s).value.tier
  }

  /** Some known row supports the finding and every such row is stale. */
  predicate RestsOnStaleRows(table: OracleTable, supports: seq<SupportRef>) {
    && Resolved(table, supports) != {}
    && forall s | s in Resolved(table, supports) ::
         SupportingRow(table, s).value.IsStale(table.freshness)
  }

  predicate OnlyDoctrine(supports: seq<SupportRef>) {
    forall s | s in supports :: s.kind.DoctrineRow?
  }

  /** A support that may carry a Blocker: a row of a blocker tier, or an allowed kind. */
  predicate CarriesBlocker(table: OracleTable, s: SupportRef) {
    if s.kind.DoctrineRow? then
      && TierRow in table.severityPolicy.blockerRequiresAnyOf
      && table.Row(s.ref).Some?
      && table.Row(s.ref).value.tier in table.severityPolicy.blockerTiers
    else
      BySupport(s.kind) in table.severityPolicy.blockerRequiresAnyOf
  }

  /** `_has_blocker_basis`. */
  predicate HasBlockerBasis(table: OracleTable, supports: seq<SupportRef>) {
    exists s | s in supports :: CarriesBlocker(table, s)
  }

  // ---- The caps ----------------------------------------------------------

  /** The first cap whose tiers contain all the given ones: order decides, not size. */
  function FirstTierCap(caps: seq<TierCap>, tiers: set<Tier>): Option<TierCap> {
    if caps == [] then None
    else if tiers != {} && tiers <= caps[0].tiers then Some(caps[0])
    else FirstTierCap(caps[1..], tiers)
  }

  /** `_tier_cap`: binds only when doctrine rows are the only supports. */
  function TierCapFor(table: OracleTable, supports: seq<SupportRef>): Option<TierCap> {
    if OnlyDoctrine(supports) then
      FirstTierCap(table.severityPolicy.tierCaps, Tiers(table, supports))
    else None
  }

  /** A list of the resolved rows is stale throughout iff the supports rest on stale rows. */
  lemma StaleRowsOf(table: OracleTable, supports: seq<SupportRef>, rows: seq<OracleRow>)
    requires forall r :: r in rows <==>
      exists k | 0 <= k < |supports| :: SupportingRow(table, supports[k]) == Some(r)
    ensures RestsOnStaleRows(table, supports)
       <==> rows != [] && forall k | 0 <= k < |rows| :: rows[k].IsStale(table.freshness)
  {
    if RestsOnStaleRows(table, supports) {
      var s :| s in Resolved(table, supports);
      assert SupportingRow(table, s).value in rows;
      forall i | 0 <= i < |rows| ensures rows[i].IsStale(table.freshness) {
        assert rows[i] in rows;
        var k :| 0 <= k < |supports| && SupportingRow(table, supports[k]) == Some(rows[i]);
        assert supports[k] in Resolved(table, supports);
      }
    } else if rows != [] {
      assert rows[0] in rows;
      var k :| 0 <= k < |supports| && SupportingRow(table, supports[k]) == Some(rows[0]);
      assert supports[k] in Resolved(table, supports);
      var s :| s in Resolved(table, supports)
               && !SupportingRow(table, s).value.IsStale(table.freshness);
      assert SupportingRow(table, s).value in rows;
    }
  }

  /** `_staleness_cap`: collects the rows that resolve, then asks whether all are stale. */
  method StalenessCap(table: OracleTable, finding: Finding) returns (cap: Option<Severity>)
    ensures cap == if RestsOnStaleRows(table, finding.supports)
                   then Some(table.severityPolicy.unverifiedRowCap) else None
  {
    var rows: seq<OracleRow> := [];
    for i := 0 to |finding.supports|
      invariant forall r :: r in rows <==>
        exists k | 0 <= k < i :: SupportingRow(table, finding.supports[k]) == Some(r)
    {
      var found := SupportingRow(table, finding.supports[i]);
      if found.Some? {
        rows := rows + [found.value];
      }
    }
    var allStale := rows != [];
    for i := 0 to |rows|
      invariant allStale <==> rows != [] && forall k | 0 <= k < i :: rows[k].IsStale(table.freshness)
    {
      if !rows[i].IsStale(table.freshness) {
        allStale := false;
      }
    }
    StaleRowsOf(table, finding.supports, rows);
    return if allStale then Some(table.severityPolicy.unverifiedRowCap) else None;
  }

  // ---- The closed form ---------------------------------------------------

  function AdvisoryLevel(table: OracleTable, mode: ReviewMode): Severity {
    if mode.Advisory? then table.advisorySeverityCap else BLOCKER
  }

  function StaleLevel(table: OracleTable, supports: seq<SupportRef>): Severity {
    if RestsOnStaleRows(table, supports) then table.severityPolicy.unverifiedRowCap else BLOCKER
  }

  function TierLevel(table: OracleTable, supports: seq<SupportRef>): Severity {
    var cap := TierCapFor(table, supports);
    if cap.Some? then cap.value.maxSolo else BLOCKER
  }

  /** The lowest of the original severity and the caps that apply. */
  function Floor(table: OracleTable, f: Finding, mode: ReviewMode): Severity {
    Min(Min(f.originalSeverity, AdvisoryLevel(table, mode)),
        Min(StaleLevel(table, f.supports), TierLevel(table, f.supports)))
  }

  /** That minimum, except that a Blocker without a basis becomes a Major. */
  function EffectiveSeverity(table: OracleTable, f: Finding, mode: ReviewMode): Severity {
    var low := Floor(table, f, mode);
    if low == BLOCKER && !HasBlockerBasis(table, f.supports) then MAJOR else low
  }

  /** A cap is named exactly when it is strictly below everything named before it. */
  function Reasons(table: OracleTable, f: Finding, mode: ReviewMode): seq<CapReason> {
    var adv, stale, tier :=
      AdvisoryLevel(table, mode), StaleLevel(table, f.supports), TierLevel(table, f.supports);
    var original := f.originalSeverity;
    (if adv < original then [AdvisoryMode] else [])
    + (if stale < Min(original, adv) then [StaleRows] else [])
    + (if tier < Min(Min(original, adv), stale)
       then [SoloTier(TierCapFor(table, f.supports).value.reason)] else [])
    + (if Floor(table, f, mode) == BLOCKER && !HasBlockerBasis(table, f.supports)
       then [NoBlockerBasis] else [])
  }

  function Capped(table: OracleTable, f: Finding, mode: ReviewMode): Finding {
    f.(severity := EffectiveSeverity(table, f, mode), capReasons := Reasons(table, f, mode))
  }

  /** `cap`: lowers a local severity step by step, and arrives at the closed form. */
  method Cap(table: OracleTable, finding: Finding, mode: ReviewMode) returns (capped: Finding)
    ensures capped == Capped(table, finding, mode)
  {
    hide HasBlockerBasis, TierCapFor, RestsOnStaleRows;
    var severity := finding.originalSeverity;
    var reasons: seq<CapReason> := [];
    if mode.Advisory? {
      if severity > table.advisorySeverityCap {
        severity := table.advisorySeverityCap;
        reasons := reasons + [AdvisoryMode];
      }
    }
    var stale := StalenessCap(table, finding);
    if stale.Some? && severity > stale.value {
      severity := stale.value;
      reasons := reasons + [StaleRows];
    }
    var tier := TierCapFor(table, finding.supports);
    if tier.Some? && severity > tier.value.maxSolo {
      severity := tier.value.maxSolo;
      reasons := reasons + [SoloTier(tier.value.reason)];
    }
    if severity == BLOCKER && !HasBlockerBasis(table, finding.supports) {
      severity := MAJOR;
      reasons := reasons + [NoBlockerBasis];
    }
    capped := finding.(severity := severity, capReasons := reasons);
  }

  /** `cap_all`. */
  function CappedAll(table: OracleTable, findings: seq<Finding>, mode: ReviewMode): (r: seq<Finding>)
    ensures |r| == |findings|
    ensures forall i | 0 <= i < |r| :: r[i] == Capped(table, findings[i], mode)
  {
    seq(|findings|, i requires 0 <= i < |findings| => Capped(table, findings[i], mode))
  }

  // ---- Laws of capping ---------------------------------------------------

  /** Never raised; a reason is given iff the severity strictly dropped; at most three
      are given; and the blocker rule is only ever the sole reason. */
  lemma CapAccountsForEveryDrop(table: OracleTable, f: Finding, mode: ReviewMode)
    ensures var c := Capped(table, f, mode);
      && c.severity <= f.originalSeverity
      && (c.capReasons != [] <==> c.severity < f.originalSeverity)
      && |c.capReasons| <= 3
      && (NoBlockerBasis in c.capReasons ==> c.capReasons == [NoBlockerBasis])
      && (c.severity == BLOCKER ==> HasBlockerBasis(table, f.supports))
  {
  }

  /** A stricter original never ends up less severe. */
  lemma CapMonotone(table: OracleTable, f: Finding, g: Finding, mode: ReviewMode)
    requires f.supports == g.supports && f.originalSeverity <= g.originalSeverity
    ensures Capped(table, f, mode).severity <= Capped(table, g, mode).severity
  {
  }

  /** Capping again, in any mode, forgets the first capping. */
  lemma CapAgain(table: OracleTable, f: Finding, m1: ReviewMode, m2: ReviewMode)
    ensures Capped(table, Capped(table, f, m1), m2) == Capped(table, f, m2)
  {
  }

  /** A Blocker stays a Blocker iff it was one, no cap that applies lies below Blocker, and
      one of its supports may carry it. */
  lemma BlockerSurvivesIff(table: OracleTable, f: Finding, mode: ReviewMode)
    ensures Capped(table, f, mode).severity == BLOCKER
       <==> && f.originalSeverity == BLOCKER
            && (mode.Advisory? ==> table.advisorySeverityCap == BLOCKER)
            && (RestsOnStaleRows(table, f.supports) ==> table.severityPolicy.unverifiedRowCap == BLOCKER)
            && (TierCapFor(table, f.supports).Some? ==> TierCapFor(table, f.supports).value.maxSolo == BLOCKER)
            && (exists s | s in f.supports :: CarriesBlocker(table, s))
  {
    hide CarriesBlocker, RestsOnStaleRows, TierCapFor;
  }

  /** Doctrine rows outside the blocker tiers never carry a Blocker alone, however many. */
  lemma WeakRowsNeverBlockAlone(table: OracleTable, f: Finding, mode: ReviewMode)
    requires OnlyDoctrine(f.supports) && Tiers(table, f.supports) !! table.severityPolicy.blockerTiers
    ensures Capped(table, f, mode).severity <= MAJOR
  {
    BlockerSurvivesIff(table, f, mode);
    forall s | s in f.supports ensures !CarriesBlocker(table, s) {
      if SupportingRow(table, s).Some? {
        assert s in Resolved(table, f.supports);
        assert SupportingRow(table, s).value.tier in Tiers(table, f.supports);
      }
    }
  }

  /** Capping changes nothing but the severity and its reasons. */
  lemma CappedKeepsIdentity(table: OracleTable, f: Finding, mode: ReviewMode)
    ensures Capped(table, f, mode)
         == f.(severity := Capped(table, f, mode).severity, capReasons := Capped(table, f, mode).capReasons)
  {
  }

  // ---- Supports are a set of evidence ------------------------------------

  lemma ResolvedFromEvidence(table: OracleTable, supports: seq<SupportRef>)
    ensures Resolved(table, supports)
         == set s | s in Evidence(table, supports) && s.kind.DoctrineRow?
  {
  }

  /** Only the set of evidence matters: order, repetition and references to unknown
      rows leave severity and reasons unchanged. */
  lemma OnlyEvidenceMatters(table: OracleTable, f: Finding, supports: seq<SupportRef>, mode: ReviewMode)
    requires Evidence(table, f.supports) == Evidence(table, supports)
    ensures var g := f.(supports := supports);
      && EffectiveSeverity(table, g, mode) == EffectiveSeverity(table, f, mode)
      && Reasons(table, g, mode) == Reasons(table, f, mode)
  {
    ResolvedFromEvidence(table, f.supports);
    ResolvedFromEvidence(table, supports);
    BasisFromEvidence(table, f.supports);
    BasisFromEvidence(table, supports);
    TierCapFromEvidence(table, f.supports);
    TierCapFromEvidence(table, supports);
    hide HasBlockerBasis, TierCapFor, Evidence;
  }

  predicate BasisIn(table: OracleTable, evidence: set<SupportRef>) {
    exists s | s in evidence :: CarriesBlocker(table, s)
  }

  lemma BasisFromEvidence(table: OracleTable, supports: seq<SupportRef>)
    ensures HasBlockerBasis(table, supports) <==> BasisIn(table, Evidence(table, supports))
  {
    if HasBlockerBasis(table, supports) {
      var s :| s in supports && CarriesBlocker(table, s);
      assert s in Evidence(table, supports);
    }
    if BasisIn(table, Evidence(table, supports)) {
      var s :| s in Evidence(table, supports) && CarriesBlocker(table, s);
    }
  }

  lemma TierCapFromEvidence(table: OracleTable, supports: seq<SupportRef>)
    ensures TierCapFor(table, supports)
         == if forall s | s in Evidence(table, supports) :: s.kind.DoctrineRow?
            then FirstTierCap(table.severityPolicy.tierCaps, Tiers(table, supports)) else None
  {
    if !OnlyDoctrine(supports) {
      var s :| s in supports && !s.kind.DoctrineRow?;
      assert s in Evidence(table, supports);
    }
  }

  // ---- Reference: the largest severity allowed ---------------------------

  predicate NamesRow(table: OracleTable, s: SupportRef, r: OracleRow) {
    s.kind == DoctrineRow && r in table.rows && r.id == s.ref
  }

  /** The row backs the finding. */
  ghost predicate Backs(table: OracleTable, supports: seq<SupportRef>, r: OracleRow) {
    exists s :: s in supports && NamesRow(table, s, r)
  }

  /** Never verified, with the re-baseline budget used up; a disclosed gap is exempt. */
  predicate IsUnverified(table: OracleTable, r: OracleRow) {
    && !r.disclosedGap && (forall k | 0 <= k < |r.sources| :: !r.sources[k].verified)
    && table.freshness.rebaselineCount >= table.freshness.maxRebaselinesWithoutVerification
  }

  ghost predicate OnlyUnverified(table: OracleTable, supports: seq<SupportRef>) {
    && (exists r :: Backs(table, supports, r))
    && forall r :: Backs(table, supports, r) ==> IsUnverified(table, r)
  }

  /** Nothing but rows backs the finding, and those of them that are known lie in the tiers. */
  ghost predicate AloneIn(table: OracleTable, supports: seq<SupportRef>, tiers: set<Tier>) {
    && (forall s | s in supports :: s.kind == DoctrineRow)
    && (exists r :: Backs(table, supports, r))
    && forall r :: Backs(table, supports, r) ==> r.tier in tiers
  }

  /** The cap is the first of the list that the finding's tiers meet. */
  ghost predicate MeetsCap(table: OracleTable, supports: seq<SupportRef>, i: nat) {
    var caps := table.severityPolicy.tierCaps;
    && i < |caps| && AloneIn(table, supports, caps[i].tiers)
    && forall k | 0 <= k < i :: !AloneIn(table, supports, caps[k].tiers)
  }

  /** Some support may carry a Blocker. */
  ghost predicate MayBlock(table: OracleTable, supports: seq<SupportRef>) {
    var policy := table.severityPolicy;
    || (exists s :: s in supports && s.kind != DoctrineRow && BySupport(s.kind) in policy.blockerRequiresAnyOf)
    || (TierRow in policy.blockerRequiresAnyOf
        && exists r :: Backs(table, supports, r) && r.tier in policy.blockerTiers)
  }

  ghost predicate UnderCaps(table: OracleTable, supports: seq<SupportRef>, x: Severity) {
    forall i: nat :: MeetsCap(table, supports, i) ==> x <= table.severityPolicy.tierCaps[i].maxSolo
  }

  ghost predicate Allowed(table: OracleTable, f: Finding, mode: ReviewMode, x: Severity) {
    && x <= f.originalSeverity
    && (mode == Advisory ==> x <= table.advisorySeverityCap)
    && (OnlyUnverified(table, f.supports) ==> x <= table.severityPolicy.unverifiedRowCap)
    && UnderCaps(table, f.supports, x)
    && (x == BLOCKER ==> MayBlock(table, f.supports))
  }

  lemma RowIsNamed(table: OracleTable, s: SupportRef, r: OracleRow)
    requires table.Valid()
    ensures SupportingRow(table, s) == Some(r) <==> NamesRow(table, s, r)
  {
    if NamesRow(table, s, r) {
      var i :| 0 <= i < |table.rows| && table.rows[i] == r;
      FindRowAt(table.rows, i);
    }
  }

  lemma BacksIff(table: OracleTable, supports: seq<SupportRef>, r: OracleRow)
    requires table.Valid()
    ensures Backs(table, supports, r)
       <==> exists s :: s in Resolved(table, supports) && SupportingRow(table, s) == Some(r)
  {
    hide OracleTable.Valid, SupportingRow, NamesRow;
    forall s ensures SupportingRow(table, s) == Some(r) <==> NamesRow(table, s, r) { RowIsNamed(table, s, r); }
    if s :| s in supports && NamesRow(table, s, r) {
      assert s in Resolved(table, supports);
    }
  }

  lemma SomeBacksIff(table: OracleTable, supports: seq<SupportRef>)
    requires table.Valid()
    ensures (exists r :: Backs(table, supports, r)) <==> Resolved(table, supports) != {}
  {
    hide OracleTable.Valid, SupportingRow, Backs;
    if r :| Backs(table, supports, r) { BacksIff(table, supports, r); }
    if s :| s in Resolved(table, supports) { BacksIff(table, supports, SupportingRow(table, s).value); }
  }

  lemma StaleIff(table: OracleTable, supports: seq<SupportRef>)
    requires table.Valid()
    ensures OnlyUnverified(table, supports) <==> RestsOnStaleRows(table, supports)
  {
    forall r: OracleRow ensures r.IsStale(table.freshness) <==> IsUnverified(table, r) {}
    SomeBacksIff(table, supports);
    hide OracleTable.Valid, SupportingRow, Backs, IsUnverified, OracleRow.IsStale;
    if RestsOnStaleRows(table, supports) {
      forall r | Backs(table, supports, r) ensures IsUnverified(table, r) {
        BacksIff(table, supports, r);
        var s :| s in Resolved(table, supports) && SupportingRow(table, s) == Some(r);
      }
    }
    if OnlyUnverified(table, supports) {
      forall s | s in Resolved(table, supports) ensures SupportingRow(table, s).value.IsStale(table.freshness) {
        BacksIff(table, supports, SupportingRow(table, s).value);
      }
    }
  }

  lemma AloneIff(table: OracleTable, supports: seq<SupportRef>, tiers: set<Tier>)
    requires table.Valid()
    ensures AloneIn(table, supports, tiers)
       <==> OnlyDoctrine(supports) && Tiers(table, supports) != {} && Tiers(table, supports) <= tiers
  {
    SomeBacksIff(table, supports);
    hide OracleTable.Valid, SupportingRow, Backs, Resolved;
    assert Tiers(table, supports) != {} <==> Resolved(table, supports) != {} by {
      if s :| s in Resolved(table, supports) {
        assert SupportingRow(table, s).value.tier in Tiers(table, supports);
      }
    }
    if OnlyDoctrine(supports) && Tiers(table, supports) != {} && Tiers(table, supports) <= tiers {
      forall r | Backs(table, supports, r) ensures r.tier in tiers {
        BacksIff(table, supports, r);
        var s :| s in Resolved(table, supports) && SupportingRow(table, s) == Some(r);
        assert r.tier in Tiers(table, supports);
      }
    }
    if AloneIn(table, supports, tiers) {
      forall t | t in Tiers(table, supports) ensures t in tiers {
        var s :| s in Resolved(table, supports) && SupportingRow(table, s).value.tier == t;
        BacksIff(table, supports, SupportingRow(table, s).value);
      }
    }
  }

  lemma CapIsMet(table: OracleTable, supports: seq<SupportRef>, i: nat)
    requires table.Valid()
    ensures MeetsCap(table, supports, i)
       ==> TierCapFor(table, supports) == Some(table.severityPolicy.tierCaps[i])
  {
    var caps, tiers := table.severityPolicy.tierCaps, Tiers(table, supports);
    forall k | 0 <= k < |caps| { AloneIff(table, supports, caps[k].tiers); }
    hide OracleTable.Valid, AloneIn, Tiers, OnlyDoctrine, FirstTierCap;
    if MeetsCap(table, supports, i) {
      var j := FirstCapIndex(caps, tiers);
    }
  }

  lemma MetCapExists(table: OracleTable, supports: seq<SupportRef>) returns (i: nat)
    requires table.Valid()
    ensures TierCapFor(table, supports).Some? ==> MeetsCap(table, supports, i)
  {
    var caps, tiers := table.severityPolicy.tierCaps, Tiers(table, supports);
    forall k | 0 <= k < |caps| { AloneIff(table, supports, caps[k].tiers); }
    hide OracleTable.Valid, AloneIn, Tiers, OnlyDoctrine;
    i := 0;
    if TierCapFor(table, supports).Some? {
      NoTiersNoCap(caps, tiers);
      hide FirstTierCap;
      i := FirstCapIndex(caps, tiers);
    }
  }

  lemma {:induction false} NoTiersNoCap(caps: seq<TierCap>, tiers: set<Tier>)
    ensures FirstTierCap(caps, tiers).Some? ==> tiers != {}
  {
    if caps != [] {
      NoTiersNoCap(caps[1..], tiers);
    }
  }

  lemma BlockIff(table: OracleTable, supports: seq<SupportRef>)
    requires table.Valid()
    ensures MayBlock(table, supports) <==> HasBlockerBasis(table, supports)
  {
    forall s, r ensures SupportingRow(table, s) == Some(r) <==> NamesRow(table, s, r) { RowIsNamed(table, s, r); }
    hide OracleTable.Valid, OracleTable.Row, NamesRow;
    if HasBlockerBasis(table, supports) {
      var s :| s in supports && CarriesBlocker(table, s);
      if s.kind.DoctrineRow? {
        assert Backs(table, supports, SupportingRow(table, s).value);
      }
    }
    if r :| Backs(table, supports, r) && r.tier in table.severityPolicy.blockerTiers {
      var s :| s in supports && NamesRow(table, s, r);
      assert SupportingRow(table, s) == Some(r);
      assert TierRow in table.severityPolicy.blockerRequiresAnyOf ==> CarriesBlocker(table, s) by {
        NamedRowIs(table, s, r);
      }
    }
    if s :| s in supports && s.kind != DoctrineRow && BySupport(s.kind) in table.severityPolicy.blockerRequiresAnyOf {
      assert CarriesBlocker(table, s);
    }
  }

  lemma NamedRowIs(table: OracleTable, s: SupportRef, r: OracleRow)
    requires SupportingRow(table, s) == Some(r)
    ensures s.kind.DoctrineRow? && table.Row(s.ref) == Some(r)
  {
  }

  lemma TierLevelIs(table: OracleTable, supports: seq<SupportRef>, x: Severity)
    requires table.Valid()
    ensures x <= TierLevel(table, supports) <==> UnderCaps(table, supports, x)
  {
    var j := MetCapExists(table, supports);
    forall i: nat
      ensures MeetsCap(table, supports, i) ==> TierCapFor(table, supports) == Some(table.severityPolicy.tierCaps[i])
    {
      CapIsMet(table, supports, i);
    }
    hide OracleTable.Valid, MeetsCap, TierCapFor;
  }

  /** The effective severity is the largest that the original, the mode, the staleness rule,
      the first tier cap met and the blocker rule allow. */
  lemma SeverityIsLargestAllowed(table: OracleTable, f: Finding, mode: ReviewMode)
    requires table.Valid()
    ensures Allowed(table, f, mode, EffectiveSeverity(table, f, mode))
    ensures forall x: Severity | Allowed(table, f, mode, x) :: x <= EffectiveSeverity(table, f, mode)
  {
    StaleIff(table, f.supports);
    BlockIff(table, f.supports);
    forall x: Severity ensures x <= TierLevel(table, f.supports) <==> UnderCaps(table, f.supports, x) {
      TierLevelIs(table, f.supports, x);
    }
    hide OracleTable.Valid, UnderCaps, TierLevel, RestsOnStaleRows, OnlyUnverified, HasBlockerBasis, MayBlock;
  }

  // ---- When does more support never hurt? --------------------------------

  function CapLevel(caps: seq<TierCap>, tiers: set<Tier>): Severity {
    var cap := FirstTierCap(caps, tiers);
    if cap.Some? then cap.value.maxSolo else BLOCKER
  }

  /** Widening a set of tiers never meets a lower cap. */
  ghost predicate WideningNeverLowers(caps: seq<TierCap>) {
    forall a: set<Tier>, b: set<Tier> | a != {} && a <= b :: CapLevel(caps, a) <= CapLevel(caps, b)
  }

  /** Cap `i` can be the first match of some tiers, and cap `j` of some wider ones. */
  predicate Follows(caps: seq<TierCap>, i: nat, j: nat)
    requires i < j < |caps|
  {
    var both := caps[i].tiers * caps[j].tiers;
    && both != {}
    && (forall k | 0 <= k < i :: !(both <= caps[k].tiers))
    && (forall k | 0 <= k < j :: !(caps[j].tiers <= caps[k].tiers))
  }

  /** Among such pairs the list never steps down. Checkable on the oracle's own data. */
  predicate CapsAscend(caps: seq<TierCap>) {
    forall i, j | 0 <= i < j < |caps| :: Follows(caps, i, j) ==> caps[i].maxSolo <= caps[j].maxSolo
  }

  /** The index of the first cap covering `tiers`, or the length of the list. */
  lemma {:induction false} FirstCapIndex(caps: seq<TierCap>, tiers: set<Tier>) returns (i: nat)
    requires tiers != {}
    ensures i <= |caps|
    ensures forall k | 0 <= k < i :: !(tiers <= caps[k].tiers)
    ensures i < |caps| ==> tiers <= caps[i].tiers && FirstTierCap(caps, tiers) == Some(caps[i])
    ensures i == |caps| ==> FirstTierCap(caps, tiers) == None
  {
    if caps == [] || tiers <= caps[0].tiers {
      i := 0;
    } else {
      var j := FirstCapIndex(caps[1..], tiers);
      i := j + 1;
      forall k | 0 <= k < i ensures !(tiers <= caps[k].tiers) {
        if k > 0 { assert caps[k] == caps[1..][k - 1]; }
      }
    }
  }

  /** Exactly the ascending lists have the property. */
  lemma WideningNeverLowersIff(caps: seq<TierCap>)
    ensures WideningNeverLowers(caps) <==> CapsAscend(caps)
  {
    if CapsAscend(caps) {
      forall a: set<Tier>, b: set<Tier> | a != {} && a <= b
        ensures CapLevel(caps, a) <= CapLevel(caps, b)
      {
        var i := FirstCapIndex(caps, a);
        var j := FirstCapIndex(caps, b);
        if j < |caps| && i < j {
          assert Follows(caps, i, j);
        }
      }
    }
    if WideningNeverLowers(caps) {
      forall i, j | 0 <= i < j < |caps| && Follows(caps, i, j)
        ensures caps[i].maxSolo <= caps[j].maxSolo
      {
        var both := caps[i].tiers * caps[j].tiers;
        var i' := FirstCapIndex(caps, both);
        var j' := FirstCapIndex(caps, caps[j].tiers);
        assert both <= caps[i].tiers;
        assert CapLevel(caps, both) <= CapLevel(caps, caps[j].tiers);
      }
    }
  }

  /** With ascending tier caps, further evidence never lowers a finding that already
      rests on a known row. */
  lemma MoreEvidenceNeverLowers(table: OracleTable, f: Finding, supports: seq<SupportRef>, mode: ReviewMode)
    requires CapsAscend(table.severityPolicy.tierCaps)
    requires Resolved(table, f.supports) != {}
    requires Evidence(table, f.supports) <= Evidence(table, supports)
    ensures EffectiveSeverity(table, f, mode)
         <= EffectiveSeverity(table, f.(supports := supports), mode)
  {
    ResolvedFromEvidence(table, f.supports);
    ResolvedFromEvidence(table, supports);
    BasisFromEvidence(table, f.supports);
    BasisFromEvidence(table, supports);
    TierCapFromEvidence(table, f.supports);
    TierCapFromEvidence(table, supports);
    WideningNeverLowersIff(table.severityPolicy.tierCaps);
    assert Tiers(table, f.supports) != {} by {
      var s :| s in Resolved(table, f.supports);
      assert SupportingRow(table, s).value.tier in Tiers(table, f.supports);
    }
    assert Tiers(table, f.supports) <= Tiers(table, supports);
    assert CapLevel(table.severityPolicy.tierCaps, Tiers(table, f.supports))
        <= CapLevel(table.severityPolicy.tierCaps, Tiers(table, supports));
    hide HasBlockerBasis, TierCapFor, Evidence, Resolved, Tiers, CapsAscend, WideningNeverLowers;
  }

  /** Under every valid oracle with these caps, a finding that already rests on a known row
      keeps at least its severity when supports are added. */
  ghost predicate MoreEvidenceIsSafe(caps: seq<TierCap>) {
    forall table: OracleTable, f: Finding, supports: seq<SupportRef>, mode: ReviewMode
      | && table.Valid() && table.severityPolicy.tierCaps == caps
        && Resolved(table, f.supports) != {}
        && Evidence(table, f.supports) <= Evidence(table, supports) ::
      EffectiveSeverity(table, f, mode) <= EffectiveSeverity(table, f.(supports := supports), mode)
  }

  /** Exactly the ascending lists of caps never punish further evidence. */
  lemma MoreEvidenceNeverLowersIff(caps: seq<TierCap>)
    requires forall i | 0 <= i < |caps| :: caps[i].tiers != {}
    ensures MoreEvidenceIsSafe(caps) <==> CapsAscend(caps)
  {
    hide OracleTable.Valid, EffectiveSeverity, Evidence, Resolved, CapsAscend;
    if CapsAscend(caps) {
      forall table: OracleTable, f: Finding, supports: seq<SupportRef>, mode: ReviewMode
        | && table.Valid() && table.severityPolicy.tierCaps == caps
          && Resolved(table, f.supports) != {}
          && Evidence(table, f.supports) <= Evidence(table, supports)
        ensures EffectiveSeverity(table, f, mode) <= EffectiveSeverity(table, f.(supports := supports), mode)
      {
        MoreEvidenceNeverLowers(table, f, supports, mode);
      }
    }
    if MoreEvidenceIsSafe(caps) {
      forall a: set<Tier>, b: set<Tier> | a != {} && a <= b ensures CapLevel(caps, a) <= CapLevel(caps, b) {
        SafeOnSampler(caps, a, b);
      }
      WideningNeverLowersIff(caps);
    }
  }

  // An oracle with one gap row for each tier, any of which may carry a Blocker.

  const ALL_TIERS: set<Tier> := {PR, AP, T, E, NONE}

  function IdOf(t: Tier): string {
    [match t case PR => 'A' case AP => 'B' case T => 'C' case E => 'D' case NONE => 'E', '1']
  }

  function RowAt(t: Tier): OracleRow {
    OracleRow(IdOf(t), [], t, true)
  }

  function Sampler(caps: seq<TierCap>): OracleTable {
    OracleTable(
      [RowAt(PR), RowAt(AP), RowAt(T), RowAt(E), RowAt(NONE)], FreshnessMeta(0, 0, 2),
      SeverityPolicyConfig(caps, INFO, {TierRow}, ALL_TIERS), ["marker"], INFO,
      [ArtifactClassRule("note", [], INFO, SafetyFailure, false)], 2, "-")
  }

  function Ref(t: Tier): SupportRef {
    SupportRef(DoctrineRow, IdOf(t))
  }

  function RefTo(tiers: set<Tier>, t: Tier): seq<SupportRef> {
    if t in tiers then [Ref(t)] else []
  }

  function RefsTo(tiers: set<Tier>): seq<SupportRef> {
    RefTo(tiers, PR) + RefTo(tiers, AP) + RefTo(tiers, T) + RefTo(tiers, E) + RefTo(tiers, NONE)
  }

  function Sample(tiers: set<Tier>): Finding {
    Finding("F1", Llm, BLOCKER, BLOCKER, "x", [], [], RefsTo(tiers), "", FindingKey("A1", "x"), [])
  }

  lemma IdsAreRowIds(t: Tier)
    ensures IsRowId(IdOf(t))
  {
    assert IdOf(t)[1..] == ['1'];
    SpanIs(IdOf(t)[1..], IsDigit, 1);
  }

  lemma IdsDiffer(t: Tier, u: Tier)
    ensures IdOf(t) == IdOf(u) ==> t == u
  {
    assert IdOf(t) == IdOf(u) ==> IdOf(t)[0] == IdOf(u)[0];
  }

  lemma SamplerIsValid(caps: seq<TierCap>)
    requires forall i | 0 <= i < |caps| :: caps[i].tiers != {}
    ensures Sampler(caps).Valid()
  {
    forall t: Tier ensures IsRowId(IdOf(t)) { IdsAreRowIds(t); }
    assert "-"[..0] == "";
    assert !IsRowId("-");
    hide IsRowId, IdOf;
    SamplerRowsDiffer(caps);
  }

  lemma SamplerRowsDiffer(caps: seq<TierCap>)
    ensures var rows := Sampler(caps).rows;
      forall i, j | 0 <= i < j < |rows| :: rows[i].id != rows[j].id
  {
    forall t: Tier, u: Tier | t != u ensures IdOf(t) != IdOf(u) { IdsDiffer(t, u); }
    hide IdOf;
  }

  lemma SamplerFinds(caps: seq<TierCap>, t: Tier)
    ensures Sampler(caps).Row(IdOf(t)) == Some(RowAt(t))
  {
    hide IdOf, FindRow;
    SamplerRowsDiffer(caps);
    FindRowAt(Sampler(caps).rows, match t case PR => 0 case AP => 1 case T => 2 case E => 3 case NONE => 4);
  }

  lemma RefsAre(tiers: set<Tier>, s: SupportRef)
    ensures s in RefsTo(tiers) <==> exists t :: t in tiers && s == Ref(t)
  {
    hide IdOf;
    if t :| t in tiers && s == Ref(t) {
      assert s in RefTo(tiers, t);
      match t case PR => case AP => case T => case E => case NONE =>
    }
  }

  /** The supports that refer to those tiers resolve, each to the row of its tier. */
  lemma RefsResolve(caps: seq<TierCap>, tiers: set<Tier>)
    ensures forall t | t in tiers ::
      Ref(t) in RefsTo(tiers) && SupportingRow(Sampler(caps), Ref(t)) == Some(RowAt(t))
    ensures forall s | s in RefsTo(tiers) :: exists t :: t in tiers && s == Ref(t)
  {
    forall t | t in tiers
      ensures Ref(t) in RefsTo(tiers) && SupportingRow(Sampler(caps), Ref(t)) == Some(RowAt(t))
    {
      RefsAre(tiers, Ref(t));
      SamplerFinds(caps, t);
    }
    forall s | s in RefsTo(tiers) ensures exists t :: t in tiers && s == Ref(t) {
      RefsAre(tiers, s);
    }
  }

  lemma SampleTiers(caps: seq<TierCap>, tiers: set<Tier>)
    ensures OnlyDoctrine(RefsTo(tiers)) && Tiers(Sampler(caps), RefsTo(tiers)) == tiers
  {
    var table, refs := Sampler(caps), RefsTo(tiers);
    RefsResolve(caps, tiers);
    hide RefsTo, IdOf, OracleTable.Row, SupportingRow;
    forall t | t in tiers ensures t in Tiers(table, refs) {
      assert Ref(t) in Resolved(table, refs) && SupportingRow(table, Ref(t)).value.tier == t;
    }
  }

  lemma SampleEvidenceGrows(caps: seq<TierCap>, a: set<Tier>, b: set<Tier>)
    requires a <= b
    ensures Evidence(Sampler(caps), RefsTo(a)) <= Evidence(Sampler(caps), RefsTo(b))
  {
    RefsResolve(caps, a);
    RefsResolve(caps, b);
    hide RefsTo, IdOf, OracleTable.Row, SupportingRow;
  }

  lemma SampleIsFresh(caps: seq<TierCap>, tiers: set<Tier>)
    requires tiers != {}
    ensures !RestsOnStaleRows(Sampler(caps), RefsTo(tiers))
  {
    RefsResolve(caps, tiers);
    var some :| some in tiers;
    hide RefsTo, IdOf, SupportingRow;
    assert Ref(some) in Resolved(Sampler(caps), RefsTo(tiers));
  }

  lemma SampleHasBasis(caps: seq<TierCap>, tiers: set<Tier>)
    requires tiers != {}
    ensures HasBlockerBasis(Sampler(caps), RefsTo(tiers))
  {
    RefsResolve(caps, tiers);
    var some :| some in tiers;
    hide RefsTo, IdOf, OracleTable.Row;
    assert some in ALL_TIERS;
    assert CarriesBlocker(Sampler(caps), Ref(some));
  }

  /** A finding that rests on one row of each given tier meets just the cap for them. */
  lemma SampleMeetsItsCap(caps: seq<TierCap>, tiers: set<Tier>)
    requires tiers != {}
    ensures EffectiveSeverity(Sampler(caps), Sample(tiers), Conformance) == CapLevel(caps, tiers)
  {
    SampleTiers(caps, tiers);
    SampleIsFresh(caps, tiers);
    SampleHasBasis(caps, tiers);
    hide RefsTo, IdOf, FirstTierCap, Tiers, OnlyDoctrine, RestsOnStaleRows, HasBlockerBasis;
  }

  lemma SampleSupports(caps: seq<TierCap>, a: set<Tier>, b: set<Tier>)
    requires a != {}
    ensures Sample(a).supports == RefsTo(a) && Sample(a).(supports := RefsTo(b)) == Sample(b)
    ensures Resolved(Sampler(caps), RefsTo(a)) != {}
  {
    RefsResolve(caps, a);
    var some :| some in a;
    hide RefsTo, IdOf, SupportingRow;
    assert Ref(some) in Resolved(Sampler(caps), RefsTo(a));
  }

  lemma SafeOnSampler(caps: seq<TierCap>, a: set<Tier>, b: set<Tier>)
    requires forall i | 0 <= i < |caps| :: caps[i].tiers != {}
    requires MoreEvidenceIsSafe(caps) && a != {} && a <= b
    ensures CapLevel(caps, a) <= CapLevel(caps, b)
  {
    SamplerIsValid(caps);
    SampleMeetsItsCap(caps, a);
    SampleMeetsItsCap(caps, b);
    SampleSupports(caps, a, b);
    SampleEvidenceGrows(caps, a, b);
    var table := Sampler(caps);
    hide CapLevel, EffectiveSeverity, Evidence, Resolved, OracleTable.Valid, RefsTo, IdOf;
    assert EffectiveSeverity(table, Sample(a), Conformance)
        <= EffectiveSeverity(table, Sample(a).(supports := RefsTo(b)), Conformance);
  }

  lemma RefFindsItsRow(caps: seq<TierCap>, t: Tier)
    ensures SupportingRow(Sampler(caps), Ref(t)) == Some(RowAt(t))
  {
    SamplerFinds(caps, t);
    hide IdOf, OracleTable.Row;
  }

  const DESCENDING: seq<TierCap> := [TierCap({T}, MAJOR, "talk"), TierCap({T, E}, MINOR, "talk or essay")]

  lemma DescendingLevels()
    ensures CapLevel(DESCENDING, {T}) == MAJOR && CapLevel(DESCENDING, {T, E}) == MINOR
  {
    assert E in {T, E};
    assert DESCENDING[1..][0] == DESCENDING[1];
    assert FirstTierCap(DESCENDING, {T, E}) == FirstTierCap(DESCENDING[1..], {T, E});
  }

  lemma OneMoreRef()
    ensures RefsTo({T, E}) == RefsTo({T}) + [Ref(E)]
  {
    hide IdOf;
    assert T in {T, E} && E in {T, E};
  }

  lemma DescendingIsValid()
    ensures Sampler(DESCENDING).Valid()
  {
    assert DESCENDING[0].tiers != {} && DESCENDING[1].tiers != {};
    hide *;
    SamplerIsValid(DESCENDING);
  }

  lemma SecondRowLowers()
    ensures var table, f := Sampler(DESCENDING), Sample({T});
      && table.Valid() && Resolved(table, f.supports) != {} && SupportingRow(table, Ref(E)).Some?
      && EffectiveSeverity(table, f, Conformance) == MAJOR
      && EffectiveSeverity(table, f.(supports := f.supports + [Ref(E)]), Conformance) == MINOR
  {
    hide *;
    DescendingIsValid();
    DescendingLevels();
    OneMoreRef();
    SampleSupports(DESCENDING, {T}, {T, E});
    RefFindsItsRow(DESCENDING, E);
    SampleMeetsItsCap(DESCENDING, {T});
    SampleMeetsItsCap(DESCENDING, {T, E});
  }

  /** With two caps in the wrong order a second supporting row lowers the severity, under a
      valid oracle: first match wins, so {T} meets Major while {T, E} falls through to Minor. */
  lemma MoreEvidenceCanLower()
    ensures exists table: OracleTable, f: Finding, s: SupportRef ::
      && table.Valid() && Resolved(table, f.supports) != {} && SupportingRow(table, s).Some?
      && EffectiveSeverity(table, f, Conformance) == MAJOR
      && EffectiveSeverity(table, f.(supports := f.supports + [s]), Conformance) == MINOR
  {
    hide *;
    SecondRowLowers();
  }
}
