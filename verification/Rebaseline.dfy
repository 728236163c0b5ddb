/** OracleRebaseliner (harness/citations.py): a run over every source of every row, with
    arbitrary resolution outcomes, and what sequences of runs do to severities. */
module Rebaseline {
  import opened Wrappers
  import opened Findings
  import opened Oracle
  import opened SeverityPolicy

  datatype Resolution = IsResolved | IsMismatch | IsUnreachable | IsSkipped

  /** One run: the day, and the outcome for source `j` of row `i`. */
  datatype RunInput = RunInput(today: Day, outcome: (nat, nat) -> Resolution)

  datatype ReportLine = ReportLine(rowId: string, citation: string, resolution: Resolution)

  function UpdatedSource(s: SourceRef, r: Resolution, today: Day): SourceRef {
    match r
    case IsResolved => s.(verified := true, lastVerified := Some(today))
    case IsMismatch => s.(verified := false, lastVerified := None)
    case _ => s
  }

  function UpdatedSources(sources: seq<SourceRef>, i: nat, run: RunInput): (r: seq<SourceRef>)
    ensures |r| == |sources|
    ensures forall j | 0 <= j < |r| :: r[j] == UpdatedSource(sources[j], run.outcome(i, j), run.today)
  {
    seq(|sources|, j requires 0 <= j < |sources| =>
      UpdatedSource(sources[j], run.outcome(i, j), run.today))
  }

  function UpdatedRows(rows: seq<OracleRow>, run: RunInput): (r: seq<OracleRow>)
    ensures |r| == |rows|
    ensures forall i | 0 <= i < |r| :: r[i] == rows[i].(sources := UpdatedSources(rows[i].sources, i, run))
  {
    seq(|rows|, i requires 0 <= i < |rows| =>
      rows[i].(sources := UpdatedSources(rows[i].sources, i, run)))
  }

  function Rebaselined(table: OracleTable, run: RunInput): OracleTable {
    table.(rows := UpdatedRows(table.rows, run),
           freshness := FreshnessMeta(run.today, table.freshness.rebaselineCount + 1,
                                      table.freshness.maxRebaselinesWithoutVerification))
  }

  /** One report line per source of the row, in order. */
  function RowReport(row: OracleRow, i: nat, run: RunInput): (r: seq<ReportLine>)
    ensures |r| == |row.sources|
  {
    seq(|row.sources|, j requires 0 <= j < |row.sources| =>
      ReportLine(row.id, row.sources[j].citation, run.outcome(i, j)))
  }

  function Report(rows: seq<OracleRow>, run: RunInput): seq<ReportLine> {
    if rows == [] then []
    else
      var n := |rows| - 1;
      Report(rows[..n], run) + RowReport(rows[n], n, run)
  }

  /** The inner loop: one row's sources, resolved in order. */
  method RebaselineRow(row: OracleRow, i: nat, run: RunInput)
    returns (sources: seq<SourceRef>, report: seq<ReportLine>)
    ensures sources == UpdatedSources(row.sources, i, run)
    ensures report == RowReport(row, i, run)
  {
    sources, report := [], [];
    for j := 0 to |row.sources|
      invariant |sources| == |report| == j
      invariant forall k | 0 <= k < j ::
        sources[k] == UpdatedSource(row.sources[k], run.outcome(i, k), run.today)
      invariant forall k | 0 <= k < j ::
        report[k] == ReportLine(row.id, row.sources[k].citation, run.outcome(i, k))
    {
      var source := row.sources[j];
      var result := run.outcome(i, j);
      if result.IsResolved? {
        sources := sources + [source.(verified := true, lastVerified := Some(run.today))];
      } else if result.IsMismatch? {
        sources := sources + [source.(verified := false, lastVerified := None)];
      } else {
        sources := sources + [source];
      }
      report := report + [ReportLine(row.id, source.citation, result)];
    }
  }

  /** `rebaseline`. */
  method RunRebaseline(table: OracleTable, run: RunInput)
    returns (updated: OracleTable, report: seq<ReportLine>)
    ensures updated == Rebaselined(table, run)
    ensures report == Report(table.rows, run)
  {
    report := [];
    var rows: seq<OracleRow> := [];
    for i := 0 to |table.rows|
      invariant |rows| == i && report == Report(table.rows[..i], run)
      invariant forall k | 0 <= k < i ::
        rows[k] == table.rows[k].(sources := UpdatedSources(table.rows[k].sources, k, run))
    {
      var row := table.rows[i];
      var sources, lines := RebaselineRow(row, i, run);
      assert table.rows[..i + 1][..i] == table.rows[..i];
      report := report + lines;
      rows := rows + [row.(sources := sources)];
    }
    assert table.rows[..|table.rows|] == table.rows;
    updated := table.(rows := rows,
                      freshness := FreshnessMeta(run.today, table.freshness.rebaselineCount + 1,
                                                 table.freshness.maxRebaselinesWithoutVerification));
  }

  // ---- Sequences of runs -------------------------------------------------

  function AfterRuns(table: OracleTable, runs: seq<RunInput>): OracleTable {
    if runs == [] then table
    else Rebaselined(AfterRuns(table, runs[..|runs| - 1]), runs[|runs| - 1])
  }

  /** Everything about a table that re-baselining must leave alone. */
  ghost predicate SameDoctrine(a: OracleTable, b: OracleTable) {
    && b == a.(rows := b.rows, freshness := b.freshness)
    && |a.rows| == |b.rows|
    && forall i | 0 <= i < |a.rows| ::
         && b.rows[i] == a.rows[i].(sources := b.rows[i].sources)
         && |b.rows[i].sources| == |a.rows[i].sources|
         && forall j | 0 <= j < |a.rows[i].sources| ::
              b.rows[i].sources[j] == a.rows[i].sources[j].(
                verified := b.rows[i].sources[j].verified,
                lastVerified := b.rows[i].sources[j].lastVerified)
  }

  /** An unverified source carries no verification date. */
  ghost predicate DatesAreHonest(table: OracleTable) {
    forall i, j | 0 <= i < |table.rows| && 0 <= j < |table.rows[i].sources| ::
      !table.rows[i].sources[j].verified ==> table.rows[i].sources[j].lastVerified == None
  }

  /** The latest outcome for a source that says anything about it, and its day. */
  function LastConclusive(runs: seq<RunInput>, i: nat, j: nat): Option<(Resolution, Day)> {
    if runs == [] then None
    else
      var run := runs[|runs| - 1];
      var r := run.outcome(i, j);
      if r.IsResolved? || r.IsMismatch? then Some((r, run.today))
      else LastConclusive(runs[..|runs| - 1], i, j)
  }

  lemma DoctrineStep(table: OracleTable, t: OracleTable, run: RunInput)
    requires SameDoctrine(table, t)
    ensures SameDoctrine(table, Rebaselined(t, run))
  {
    var u := Rebaselined(t, run);
    forall i | 0 <= i < |t.rows|
      ensures u.rows[i] == table.rows[i].(sources := u.rows[i].sources)
      ensures |u.rows[i].sources| == |table.rows[i].sources|
    {
      assert u.rows[i] == t.rows[i].(sources := UpdatedSources(t.rows[i].sources, i, run));
    }
  }

  lemma DatesStep(t: OracleTable, run: RunInput)
    requires DatesAreHonest(t)
    ensures DatesAreHonest(Rebaselined(t, run))
  {
  }

  /** Over any runs: ids, tiers, order and policy stay, the count rises by one per run,
      and honest dates stay honest. */
  lemma {:induction false} RunsKeepDoctrine(table: OracleTable, runs: seq<RunInput>)
    ensures var t := AfterRuns(table, runs);
      && SameDoctrine(table, t)
      && t.freshness.rebaselineCount == table.freshness.rebaselineCount + |runs|
      && t.freshness.maxRebaselinesWithoutVerification == table.freshness.maxRebaselinesWithoutVerification
      && (DatesAreHonest(table) ==> DatesAreHonest(t))
    decreases |runs|
  {
    if runs != [] {
      var n := |runs| - 1;
      RunsKeepDoctrine(table, runs[..n]);
      hide SameDoctrine, DatesAreHonest, UpdatedRows;
      DoctrineStep(table, AfterRuns(table, runs[..n]), runs[n]);
      if DatesAreHonest(AfterRuns(table, runs[..n])) {
        DatesStep(AfterRuns(table, runs[..n]), runs[n]);
      }
    }
  }

  /** Over any runs: a source is verified iff its latest conclusive outcome resolved it,
      on the day of that outcome; with none, it is as it was at the start. */
  lemma {:induction false} LatestOutcomeDecides(table: OracleTable, runs: seq<RunInput>, i: nat, j: nat)
    requires i < |table.rows| && j < |table.rows[i].sources|
    ensures var t := AfterRuns(table, runs);
      && |t.rows| == |table.rows| && |t.rows[i].sources| == |table.rows[i].sources|
      && var s := t.rows[i].sources[j];
         match LastConclusive(runs, i, j)
         case None => s == table.rows[i].sources[j]
         case Some((r, day)) =>
           && s.verified == r.IsResolved?
           && s.lastVerified == if r.IsResolved? then Some(day) else None
    decreases |runs|
  {
    if runs != [] {
      LatestOutcomeDecides(table, runs[..|runs| - 1], i, j);
    }
  }

  // ---- Staleness against severity ----------------------------------------

  /** Same rows and policy, and at least the same rows stale. */
  ghost predicate AtLeastAsStale(a: OracleTable, b: OracleTable) {
    && SameDoctrine(a, b)
    && forall i | 0 <= i < |a.rows| :: a.rows[i].IsStale(a.freshness) ==> b.rows[i].IsStale(b.freshness)
  }

  lemma {:induction false} RowsCorrespond(a: seq<OracleRow>, b: seq<OracleRow>, id: string) returns (i: nat)
    requires |a| == |b| && forall k | 0 <= k < |a| :: a[k].id == b[k].id
    ensures FindRow(a, id).None? ==> FindRow(b, id).None?
    ensures FindRow(a, id).Some? ==>
      i < |a| && FindRow(a, id) == Some(a[i]) && FindRow(b, id) == Some(b[i])
  {
    i := 0;
    if a != [] && a[0].id != id {
      i := RowsCorrespond(a[1..], b[1..], id);
      i := i + 1;
    }
  }

  /** The supports resolve alike, and stale supporting rows stay stale. */
  lemma SupportsCorrespond(a: OracleTable, b: OracleTable, s: SupportRef)
    requires AtLeastAsStale(a, b)
    ensures SupportingRow(a, s).Some? == SupportingRow(b, s).Some?
    ensures SupportingRow(a, s).Some? ==>
      && SupportingRow(a, s).value.tier == SupportingRow(b, s).value.tier
      && (SupportingRow(a, s).value.IsStale(a.freshness) ==> SupportingRow(b, s).value.IsStale(b.freshness))
    ensures CarriesBlocker(a, s) == CarriesBlocker(b, s)
  {
    hide OracleRow.IsStale;
    var i := RowsCorrespond(a.rows, b.rows, s.ref);
  }

  lemma MoreStaleNeverRaises(a: OracleTable, b: OracleTable, f: Finding, mode: ReviewMode)
    requires AtLeastAsStale(a, b)
    ensures EffectiveSeverity(b, f, mode) <= EffectiveSeverity(a, f, mode)
  {
    var supports := f.supports;
    assert b.severityPolicy == a.severityPolicy && b.advisorySeverityCap == a.advisorySeverityCap;
    forall s { SupportsCorrespond(a, b, s); }
    hide SupportingRow, CarriesBlocker, AtLeastAsStale, OracleRow.IsStale;
    assert Resolved(a, supports) == Resolved(b, supports);
    assert Tiers(a, supports) == Tiers(b, supports);
    assert HasBlockerBasis(a, supports) == HasBlockerBasis(b, supports);
    assert RestsOnStaleRows(a, supports) ==> RestsOnStaleRows(b, supports);
    hide HasBlockerBasis, Resolved, Tiers, RestsOnStaleRows;
  }

  /** A run that resolves no source never raises any finding's capped severity. */
  lemma NothingResolvedNeverRaises(table: OracleTable, run: RunInput, f: Finding, mode: ReviewMode)
    requires forall i, j | 0 <= i < |table.rows| && 0 <= j < |table.rows[i].sources| ::
      run.outcome(i, j) != IsResolved
    ensures EffectiveSeverity(Rebaselined(table, run), f, mode) <= EffectiveSeverity(table, f, mode)
  {
    var t := Rebaselined(table, run);
    forall i | 0 <= i < |table.rows| && table.rows[i].IsStale(table.freshness)
      ensures t.rows[i].IsStale(t.freshness)
    {
      assert forall j | 0 <= j < |t.rows[i].sources| :: !t.rows[i].sources[j].verified by {
        forall j | 0 <= j < |t.rows[i].sources| ensures !t.rows[i].sources[j].verified {
          assert !table.rows[i].sources[j].verified;
        }
      }
    }
    MoreStaleNeverRaises(table, t, f, mode);
  }

  /** At the same freshness, verifying further sources never lowers one. */
  lemma VerifyingNeverLowers(before: OracleTable, after: OracleTable, f: Finding, mode: ReviewMode)
    requires SameDoctrine(before, after) && before.freshness == after.freshness
    requires forall i, j | 0 <= i < |before.rows| && 0 <= j < |before.rows[i].sources| ::
      before.rows[i].sources[j].verified ==> after.rows[i].sources[j].verified
    ensures EffectiveSeverity(before, f, mode) <= EffectiveSeverity(after, f, mode)
  {
    assert SameDoctrine(after, before);
    forall i | 0 <= i < |after.rows| && after.rows[i].IsStale(after.freshness)
      ensures before.rows[i].IsStale(before.freshness)
    {
      assert forall j | 0 <= j < |before.rows[i].sources| :: !before.rows[i].sources[j].verified by {
        forall j | 0 <= j < |before.rows[i].sources| ensures !before.rows[i].sources[j].verified {
          assert !after.rows[i].sources[j].verified;
        }
      }
    }
    MoreStaleNeverRaises(after, before, f, mode);
  }

  /** A row that no run resolves and that starts unverified. */
  ghost predicate NeverVerified(table: OracleTable, runs: seq<RunInput>, i: nat)
    requires i < |table.rows|
  {
    && !table.rows[i].disclosedGap
    && forall j | 0 <= j < |table.rows[i].sources| ::
         && !table.rows[i].sources[j].verified
         && (LastConclusive(runs, i, j).Some? ==> LastConclusive(runs, i, j).value.0.IsMismatch?)
  }

  lemma StaysUnverified(table: OracleTable, runs: seq<RunInput>, i: nat)
    requires i < |table.rows| && NeverVerified(table, runs, i)
    requires table.freshness.rebaselineCount + |runs| >= table.freshness.maxRebaselinesWithoutVerification
    ensures var t := AfterRuns(table, runs);
      i < |t.rows| && t.rows[i].IsStale(t.freshness)
  {
    var t := AfterRuns(table, runs);
    RunsKeepDoctrine(table, runs);
    forall j | 0 <= j < |t.rows[i].sources| ensures !t.rows[i].sources[j].verified {
      LatestOutcomeDecides(table, runs, i, j);
    }
  }

  /** What a source is after the runs, by its latest conclusive outcome or else its start. */
  predicate EndsUnverified(table: OracleTable, runs: seq<RunInput>, i: nat, j: nat)
    requires i < |table.rows| && j < |table.rows[i].sources|
  {
    match LastConclusive(runs, i, j)
    case Some((r, _)) => r.IsMismatch?
    case None => !table.rows[i].sources[j].verified
  }

  /** After any runs a row is stale iff it is no disclosed gap, no source of it ends verified,
      and the runs so far have used up the budget. */
  lemma StaleAfterRunsIff(table: OracleTable, runs: seq<RunInput>, i: nat)
    requires i < |table.rows|
    ensures var t := AfterRuns(table, runs);
      && |t.rows| == |table.rows|
      && (t.rows[i].IsStale(t.freshness)
          <==> && !table.rows[i].disclosedGap
               && (forall j | 0 <= j < |table.rows[i].sources| :: EndsUnverified(table, runs, i, j))
               && table.freshness.rebaselineCount + |runs| >= table.freshness.maxRebaselinesWithoutVerification)
  {
    var t := AfterRuns(table, runs);
    RunsKeepDoctrine(table, runs);
    forall j | 0 <= j < |table.rows[i].sources|
      ensures t.rows[i].sources[j].verified <==> !EndsUnverified(table, runs, i, j)
    {
      LatestOutcomeDecides(table, runs, i, j);
      LastIsConclusive(runs, i, j);
    }
    hide AfterRuns, LastConclusive, EndsUnverified;
  }

  lemma {:induction false} LastIsConclusive(runs: seq<RunInput>, i: nat, j: nat)
    ensures LastConclusive(runs, i, j).Some? ==>
      LastConclusive(runs, i, j).value.0.IsResolved? || LastConclusive(runs, i, j).value.0.IsMismatch?
  {
    if runs != [] {
      LastIsConclusive(runs[..|runs| - 1], i, j);
    }
  }

  /** Every known row the supports name is one of those. */
  ghost predicate RestsOnUnverified(table: OracleTable, runs: seq<RunInput>, supports: seq<SupportRef>) {
    forall i | 0 <= i < |table.rows| && (exists s :: s in supports && SupportingRow(table, s) == Some(table.rows[i])) ::
      NeverVerified(table, runs, i)
  }

  lemma SupportWentStale(table: OracleTable, runs: seq<RunInput>, supports: seq<SupportRef>, s: SupportRef)
    requires RestsOnUnverified(table, runs, supports) && s in supports
    requires table.freshness.rebaselineCount + |runs| >= table.freshness.maxRebaselinesWithoutVerification
    ensures var t := AfterRuns(table, runs);
      && SupportingRow(t, s).Some? == SupportingRow(table, s).Some?
      && (SupportingRow(t, s).Some? ==> SupportingRow(t, s).value.IsStale(t.freshness))
  {
    var t := AfterRuns(table, runs);
    RunsKeepDoctrine(table, runs);
    var i := RowsCorrespond(table.rows, t.rows, s.ref);
    hide AfterRuns, OracleRow.IsStale;
    if SupportingRow(table, s).Some? {
      assert NeverVerified(table, runs, i);
      StaysUnverified(table, runs, i);
    }
  }

  lemma StaleMeansCapped(table: OracleTable, f: Finding, mode: ReviewMode)
    requires RestsOnStaleRows(table, f.supports)
    ensures EffectiveSeverity(table, f, mode) <= table.severityPolicy.unverifiedRowCap
  {
    hide RestsOnStaleRows, TierLevel, HasBlockerBasis;
  }

  /** Once enough runs have passed, a finding whose known supporting rows are all non-gap
      rows left unverified by them is at most the unverified cap, in any mode. */
  lemma BudgetSpentCaps(table: OracleTable, runs: seq<RunInput>, f: Finding, mode: ReviewMode)
    requires Resolved(table, f.supports) != {}
    requires RestsOnUnverified(table, runs, f.supports)
    requires table.freshness.rebaselineCount + |runs| >= table.freshness.maxRebaselinesWithoutVerification
    ensures EffectiveSeverity(AfterRuns(table, runs), f, mode) <= table.severityPolicy.unverifiedRowCap
  {
    var t := AfterRuns(table, runs);
    assert t.severityPolicy == table.severityPolicy by { RunsKeepDoctrine(table, runs); }
    forall s | s in f.supports { SupportWentStale(table, runs, f.supports, s); }
    hide AfterRuns, RestsOnUnverified, SupportingRow, OracleRow.IsStale, SameDoctrine, EffectiveSeverity;
    var s :| s in Resolved(table, f.supports);
    assert s in Resolved(t, f.supports);
    assert RestsOnStaleRows(t, f.supports);
    StaleMeansCapped(t, f, mode);
  }
}
