/** VerificationLogChecker (harness/verification.py): completeness and tool honesty.
    The attribution sweep and `repr` are taken as functions of their inputs. */
module Verification {
  import opened Wrappers
  import opened Text
  import opened Findings
  import opened Selections
  import opened Sweeps
  import opened Transcript
  import opened Canonical

  datatype Checker = Checker(
    fetchTools: set<string>,
    repr: Option<string> -> string,
    attribution: seq<string> -> seq<string>)

  // ---- Completeness ------------------------------------------------------

  function EntryRows(entries: seq<VerificationEntry>): set<string> {
    set i | 0 <= i < |entries| && Truthy(entries[i].rowId) :: entries[i].rowId.value
  }

  /** The words of the defect line, separated by single spaces. */
  function CompletenessDefect(findingId: string, rowId: string): string {
    Join(["finding", findingId, "cites", rowId, "but", "the", "verification", "log", "has", "no",
          "entry", "for", rowId], ' ')
  }

  /** The defects of one finding's row references, in order. */
  function MissingRows(findingId: string, refs: seq<string>, logged: set<string>): seq<string> {
    if refs == [] then []
    else MissingRows(findingId, refs[..|refs| - 1], logged)
         + (var r := refs[|refs| - 1]; if r in logged then [] else [CompletenessDefect(findingId, r)])
  }

  function CompletenessDefects(findings: seq<Finding>, logged: set<string>): seq<string> {
    if findings == [] then []
    else
      var f := findings[|findings| - 1];
      CompletenessDefects(findings[..|findings| - 1], logged)
      + (if f.origin.Deterministic? then [] else MissingRows(f.findingId, f.doctrineRefs, logged))
  }

  /** `check_completeness`. */
  method CheckCompleteness(findings: seq<Finding>, entries: seq<VerificationEntry>)
    returns (defects: seq<string>)
    ensures defects == CompletenessDefects(findings, EntryRows(entries))
  {
    defects := [];
    var logged: set<string> := {};
    for i := 0 to |entries|
      invariant logged == set k | 0 <= k < i && Truthy(entries[k].rowId) :: entries[k].rowId.value
    {
      if Truthy(entries[i].rowId) {
        logged := logged + {entries[i].rowId.value};
      }
    }
    for i := 0 to |findings|
      invariant defects == CompletenessDefects(findings[..i], logged)
    {
      var finding := findings[i];
      assert findings[..i + 1][..i] == findings[..i];
      if finding.origin.Deterministic? {
        continue;
      }
      ghost var before := defects;
      for j := 0 to |finding.doctrineRefs|
        invariant defects == before + MissingRows(finding.findingId, finding.doctrineRefs[..j], logged)
      {
        var rowId := finding.doctrineRefs[j];
        assert finding.doctrineRefs[..j + 1][..j] == finding.doctrineRefs[..j];
        if rowId !in logged {
          defects := defects + [CompletenessDefect(finding.findingId, rowId)];
        }
      }
      assert finding.doctrineRefs[..|finding.doctrineRefs|] == finding.doctrineRefs;
    }
    assert findings[..|findings|] == findings;
  }

  /** A missing entry: an LLM finding cites a row that the log does not mention. */
  ghost predicate Unlogged(findings: seq<Finding>, logged: set<string>, i: nat, r: string) {
    && i < |findings| && findings[i].origin.Llm?
    && r in findings[i].doctrineRefs && r !in logged
  }

  lemma {:induction false} MissingRowsAre(findingId: string, refs: seq<string>, logged: set<string>, d: string)
    ensures d in MissingRows(findingId, refs, logged)
       <==> exists r :: r in refs && r !in logged && d == CompletenessDefect(findingId, r)
  {
    hide CompletenessDefect;
    if refs != [] {
      var init, last := refs[..|refs| - 1], refs[|refs| - 1];
      MissingRowsAre(findingId, init, logged, d);
      assert refs == init + [last];
      assert forall r :: r in refs <==> r in init || r == last;
    }
  }

  /** The defect list names every missing entry and nothing else. */
  lemma {:induction false} DefectsAreUnlogged(findings: seq<Finding>, logged: set<string>, d: string)
    ensures d in CompletenessDefects(findings, logged)
       <==> exists i: nat, r :: Unlogged(findings, logged, i, r)
                             && d == CompletenessDefect(findings[i].findingId, r)
  {
    hide CompletenessDefect, MissingRows;
    if findings != [] {
      var init, f := findings[..|findings| - 1], findings[|findings| - 1];
      DefectsAreUnlogged(init, logged, d);
      MissingRowsAre(f.findingId, f.doctrineRefs, logged, d);
      assert findings == init + [f];
      if f.origin.Llm? && d in MissingRows(f.findingId, f.doctrineRefs, logged) {
        var r :| r in f.doctrineRefs && r !in logged && d == CompletenessDefect(f.findingId, r);
        assert Unlogged(findings, logged, |init|, r);
      }
      if d in CompletenessDefects(init, logged) {
        var i: nat, r :| Unlogged(init, logged, i, r) && d == CompletenessDefect(init[i].findingId, r);
        assert Unlogged(findings, logged, i, r);
      }
      if i: nat, r :| Unlogged(findings, logged, i, r) && d == CompletenessDefect(findings[i].findingId, r) {
        assert i < |init| ==> Unlogged(init, logged, i, r) && init[i] == findings[i];
      }
    }
  }

  /** No defect iff every row cited by an LLM finding has an entry. */
  lemma CompleteIff(findings: seq<Finding>, entries: seq<VerificationEntry>)
    ensures CompletenessDefects(findings, EntryRows(entries)) == []
       <==> forall i, r | 0 <= i < |findings| && findings[i].origin.Llm? && r in findings[i].doctrineRefs ::
              r in EntryRows(entries)
  {
    hide CompletenessDefect, CompletenessDefects, EntryRows;
    var logged := EntryRows(entries);
    var defects := CompletenessDefects(findings, logged);
    if defects != [] {
      DefectsAreUnlogged(findings, logged, defects[0]);
      assert defects[0] in defects;
      var i: nat, r :| Unlogged(findings, logged, i, r);
      assert r !in logged;
    }
    forall i, r | 0 <= i < |findings| && findings[i].origin.Llm? && r in findings[i].doctrineRefs
                  && r !in logged
      ensures defects != []
    {
      assert Unlogged(findings, logged, i, r);
      DefectsAreUnlogged(findings, logged, CompletenessDefect(findings[i].findingId, r));
    }
  }

  // ---- Tool honesty ------------------------------------------------------

  predicate Counts(checker: Checker, e: ToolEvidence) {
    e.ok && e.toolName in checker.fetchTools
  }

  function Identifiers(target: string): set<string> {
    var c := Canonicalize(Some(target));
    {target} + (if c.Some? then {c.value} else {})
  }

  /** `_evidence_identifiers`. */
  method EvidenceIdentifiers(checker: Checker, evidence: seq<ToolEvidence>) returns (ids: set<string>)
    ensures forall x :: x in ids <==>
      exists i | 0 <= i < |evidence| :: Counts(checker, evidence[i]) && x in Identifiers(evidence[i].target)
  {
    hide Canonicalize;
    ids := {};
    for i := 0 to |evidence|
      invariant forall x :: x in ids <==>
        exists k | 0 <= k < i :: Counts(checker, evidence[k]) && x in Identifiers(evidence[k].target)
    {
      ghost var before := ids;
      var item := evidence[i];
      if item.ok && item.toolName in checker.fetchTools {
        var canonical := Canonicalize(Some(item.target));
        if canonical.Some? {
          ids := ids + {canonical.value};
        }
        ids := ids + {item.target};
        assert ids == before + Identifiers(item.target);
      }
      assert forall x :: x in ids <==> x in before || (Counts(checker, item) && x in Identifiers(item.target));
    }
  }

  function NonEmpty(s: Option<string>): set<string> {
    if Truthy(s) then {s.value} else {}
  }

  function Claimed(entry: VerificationEntry): set<string> {
    NonEmpty(Canonicalize(entry.canonicalId)) + NonEmpty(Canonicalize(entry.sourceUrl))
    + NonEmpty(entry.sourceUrl)
  }

  /** The entry shares an identifier with a fetch of this target. */
  predicate Matches(entry: VerificationEntry, target: string) {
    Claimed(entry) * Identifiers(target) != {}
  }

  /** Some counted result in the evidence matches the entry. */
  ghost predicate Backed(checker: Checker, entry: VerificationEntry, evidence: seq<ToolEvidence>) {
    exists e :: e in evidence && Counts(checker, e) && Matches(entry, e.target)
  }

  function HonestyDefect(checker: Checker, index: nat, entry: VerificationEntry): string {
    "verification entry " + Decimal(index) + " claims fetched=True for "
    + checker.repr(if Truthy(entry.sourceUrl) then entry.sourceUrl else entry.canonicalId)
    + " but no successful fetch-class tool result matches it"
  }

  ghost function HonestyDefects(checker: Checker, entries: seq<VerificationEntry>,
                                evidence: seq<ToolEvidence>): seq<string> {
    if entries == [] then []
    else
      var n := |entries| - 1;
      HonestyDefects(checker, entries[..n], evidence)
      + (if entries[n].fetched && !Backed(checker, entries[n], evidence)
         then [HonestyDefect(checker, n, entries[n])] else [])
  }

  /** `check_tool_honesty`. */
  method CheckToolHonesty(checker: Checker, entries: seq<VerificationEntry>, evidence: seq<ToolEvidence>)
    returns (defects: seq<string>)
    ensures defects == HonestyDefects(checker, entries, evidence)
  {
    hide Canonicalize, HonestyDefect, Identifiers, Claimed, Counts;
    var observed := EvidenceIdentifiers(checker, evidence);
    defects := [];
    for i := 0 to |entries|
      invariant defects == HonestyDefects(checker, entries[..i], evidence)
    {
      var entry := entries[i];
      assert entries[..i + 1][..i] == entries[..i];
      ObservedIff(checker, entry, evidence, observed);
      if entry.fetched && Claimed(entry) * observed == {} {
        defects := defects + [HonestyDefect(checker, i, entry)];
      }
    }
    assert entries[..|entries|] == entries;
  }

  lemma ObservedIff(checker: Checker, entry: VerificationEntry, evidence: seq<ToolEvidence>, observed: set<string>)
    requires forall x :: x in observed <==>
      exists i | 0 <= i < |evidence| :: Counts(checker, evidence[i]) && x in Identifiers(evidence[i].target)
    ensures Claimed(entry) * observed != {} <==> Backed(checker, entry, evidence)
  {
    hide Claimed, Identifiers, Counts;
    if Claimed(entry) * observed != {} {
      var x :| x in Claimed(entry) * observed;
      var i :| 0 <= i < |evidence| && Counts(checker, evidence[i]) && x in Identifiers(evidence[i].target);
      assert x in Claimed(entry) * Identifiers(evidence[i].target);
      assert evidence[i] in evidence;
    }
    if Backed(checker, entry, evidence) {
      var e :| e in evidence && Counts(checker, e) && Matches(entry, e.target);
      var x :| x in Claimed(entry) * Identifiers(e.target);
      var i :| 0 <= i < |evidence| && evidence[i] == e;
      assert x in Claimed(entry) * observed;
    }
  }

  /** No defect iff every entry that claims a fetch is backed by one. */
  lemma {:induction false} HonestIff(checker: Checker, entries: seq<VerificationEntry>, evidence: seq<ToolEvidence>)
    ensures HonestyDefects(checker, entries, evidence) == []
       <==> forall i | 0 <= i < |entries| && entries[i].fetched :: Backed(checker, entries[i], evidence)
  {
    hide Backed, HonestyDefect;
    if entries != [] {
      var n := |entries| - 1;
      HonestIff(checker, entries[..n], evidence);
      assert forall i | 0 <= i < n :: entries[..n][i] == entries[i];
    }
  }

  /** The line says which entry it is about. */
  predicate NumbersEntry(line: string, index: nat) {
    ("verification entry " + Decimal(index) + " ") <= line
  }

  lemma DefectNumbersEntry(checker: Checker, index: nat, entry: VerificationEntry)
    ensures NumbersEntry(HonestyDefect(checker, index, entry), index)
  {
    var shown := checker.repr(if Truthy(entry.sourceUrl) then entry.sourceUrl else entry.canonicalId);
    var rest := "claims fetched=True for " + shown + " but no successful fetch-class tool result matches it";
    assert " claims fetched=True for " == " " + "claims fetched=True for ";
    assert HonestyDefect(checker, index, entry) == ("verification entry " + Decimal(index) + " ") + rest;
  }

  /** There is one line for each entry that claims a fetch without backing, in their order,
      with the entry's number. */
  lemma {:induction false} HonestyLinesAre(checker: Checker, entries: seq<VerificationEntry>,
                                           evidence: seq<ToolEvidence>) returns (ix: seq<nat>)
    ensures Ascending(ix) && |ix| == |HonestyDefects(checker, entries, evidence)|
    ensures forall i: nat :: i in ix <==>
      i < |entries| && entries[i].fetched && !Backed(checker, entries[i], evidence)
    ensures forall k | 0 <= k < |ix| :: NumbersEntry(HonestyDefects(checker, entries, evidence)[k], ix[k])
  {
    hide Backed, HonestyDefect, NumbersEntry;
    if entries == [] {
      ix := [];
    } else {
      var n := |entries| - 1;
      ix := HonestyLinesAre(checker, entries[..n], evidence);
      assert forall i | 0 <= i < n :: entries[..n][i] == entries[i];
      assert forall k | 0 <= k < |ix| :: ix[k] in ix;
      if entries[n].fetched && !Backed(checker, entries[n], evidence) {
        DefectNumbersEntry(checker, n, entries[n]);
        forall i: nat ensures i in ix + [n] <==> i in ix || i == n { InAppend(ix, n, i); }
        ix := ix + [n];
      }
    }
  }

  // ---- What a match means ------------------------------------------------

  /** The fetched target is the entry's URL, or names the same work as its URL or id. */
  predicate SameWork(entry: VerificationEntry, target: string) {
    var c := Canonicalize(Some(target));
    || (target != [] && entry.sourceUrl == Some(target))
    || (c.Some? && (c == Canonicalize(entry.sourceUrl) || c == Canonicalize(entry.canonicalId)))
  }

  predicate StripsAway(text: Option<string>) {
    text.Some? && StripsToNothing(Strip(text.value, IsSpace))
  }

  lemma CanonicalNotEmpty(text: Option<string>)
    ensures Canonicalize(text) != Some("")
  {
    if text.Some? && text.value != [] {
      var c := CanonicalizeStripped(Strip(text.value, IsSpace));
      assert c.Some? ==> |c.value| > 0;
    }
  }

  lemma CanonicalTwice(text: Option<string>)
    requires !StripsAway(text)
    ensures Canonicalize(Canonicalize(text)) == Canonicalize(text)
  {
    if text.Some? {
      CanonicalizeIdempotentIff(text.value);
    }
  }

  lemma IdentifiersMeetIff(c: Option<string>, u: Option<string>, k: Option<string>,
                           url: Option<string>, target: string)
    requires c != Some("") && u != Some("") && k != Some("")
    requires u == Some(target) ==> c == u
    requires k == Some(target) ==> c == k
    requires c.Some? && c == url ==> u == c
    ensures (NonEmpty(k) + NonEmpty(u) + NonEmpty(url))
            * ({target} + (if c.Some? then {c.value} else {})) != {}
       <==> (target != [] && url == Some(target)) || (c.Some? && (c == u || c == k))
  {
    var claimed := NonEmpty(k) + NonEmpty(u) + NonEmpty(url);
    var ids := {target} + (if c.Some? then {c.value} else {});
    if claimed * ids != {} {
      var x :| x in claimed * ids;
    }
    if target != [] && url == Some(target) {
      assert target in claimed * ids;
    }
    if c.Some? && (c == u || c == k) {
      assert c.value in claimed * ids;
    }
  }

  /** What canonicalizing leaves of a DOI that strips to nothing. */
  predicate IsRemains(target: string) {
    && |target| > 4 && target[..4] == "doi:"
    && RegistrantLen(target[4..]) == |target| - 4
  }

  lemma OnlyTheRegistrantIsLeft(doi: string)
    requires IsDoi(doi) && OnlyPunctuation(doi)
    ensures RegistrantLen(CleanDoi(doi)) == |CleanDoi(doi)| > 0
  {
    CleanDoiShape(doi);
    var r := RegistrantLen(doi);
    hide CleanDoi, OnlyPunctuation, DoiLen, RegistrantLen;
    RegistrantPrefix(doi, r);
    RegistrantLower(doi[..r]);
  }

  lemma RemainsOf(b: string)
    requires RegistrantLen(b) == |b| > 0
    ensures IsRemains("doi:" + b)
  {
    assert ("doi:" + b)[4..] == b && ("doi:" + b)[..4] == "doi:";
    hide RegistrantLen;
  }

  lemma StrippedLeavesRemains(text: string)
    requires StripsAway(Some(text))
    ensures Canonicalize(Some(text)).Some? && IsRemains(Canonicalize(Some(text)).value)
  {
    var s := Strip(text, IsSpace);
    hide Canonicalize, RegistrantLen, IsDoi, RawArxiv, RawDoi, OnlyPunctuation, CleanDoi, IsRemains, Strip;
    var doi := RawDoi(s).value;
    StrippedIdentifier(text);
    OnlyTheRegistrantIsLeft(doi);
    RemainsOf(CleanDoi(doi));
  }

  /** Every such text is what is left of some DOI, and is itself no identifier. */
  lemma {:induction false} RemainsAreLeft(target: string) returns (doi: string)
    requires IsRemains(target)
    ensures Canonicalize(Some(doi)) == Some(target) && Canonicalize(Some(target)) == None
  {
    var b := target[4..];
    doi := b + ".";
    assert target == "doi:" + b && RegistrantLen(b) == |b| > 0;
    hide *;
    PunctuatedRegistrant(b);
    BareDoiIdentity(doi);
    BareRegistrantIsNothing(doi, b);
  }

  /** A fetched target matches the entries for the same work, and no others, iff it is
      neither a DOI that strips to nothing nor what stripping leaves of one. */
  lemma TargetIsUnambiguousIff(target: string)
    ensures (forall entry: VerificationEntry | entry.Valid() :: Matches(entry, target) <==> SameWork(entry, target))
       <==> !StripsAway(Some(target)) && !IsRemains(target)
  {
    hide Canonicalize, StripsAway, IsRemains;
    if StripsAway(Some(target)) {
      var entry := StrippedMatchesItsRemains(target);
    } else if IsRemains(target) {
      var entry := RemainsMatchTheStripped(target);
    } else {
      forall entry: VerificationEntry | entry.Valid() ensures Matches(entry, target) <==> SameWork(entry, target) {
        UnambiguousMatch(entry, target);
      }
    }
  }

  lemma UnambiguousMatch(entry: VerificationEntry, target: string)
    requires !StripsAway(Some(target)) && !IsRemains(target)
    ensures Matches(entry, target) <==> SameWork(entry, target)
  {
    hide Canonicalize, StripsAway, IsRemains;
    var c, u, k := Canonicalize(Some(target)), Canonicalize(entry.sourceUrl), Canonicalize(entry.canonicalId);
    CanonicalNotEmpty(Some(target));
    CanonicalNotEmpty(entry.sourceUrl);
    CanonicalNotEmpty(entry.canonicalId);
    CanonicalTwice(Some(target));
    NotLeft(entry.sourceUrl, target);
    NotLeft(entry.canonicalId, target);
    IdentifiersMeetIff(c, u, k, entry.sourceUrl, target);
  }

  /** A text that canonicalizes to an identifier which is no remains keeps it. */
  lemma NotLeft(text: Option<string>, target: string)
    requires !IsRemains(target)
    ensures Canonicalize(text) == Some(target) ==> Canonicalize(Some(target)) == Canonicalize(text)
  {
    if text.Some? && StripsAway(text) {
      hide Canonicalize, IsRemains, StripsToNothing;
      StrippedLeavesRemains(text.value);
    } else {
      hide Canonicalize, IsRemains, StripsToNothing;
      CanonicalTwice(text);
    }
  }

  function EntryFor(sourceUrl: Option<string>, canonicalId: Option<string>): VerificationEntry {
    VerificationEntry("x", None, sourceUrl, canonicalId, Certain, true, Verified)
  }

  lemma NotItsOwnRemains(target: string)
    requires Canonicalize(Some(target)).Some?
    ensures !IsRemains(target)
  {
    hide Canonicalize, IsRemains;
    if IsRemains(target) {
      var doi := RemainsAreLeft(target);
    }
  }

  /** Fetching `10.1234/.` backs an entry whose URL is the text `doi:10.1234/`. */
  lemma StrippedMatchesItsRemains(target: string) returns (entry: VerificationEntry)
    requires StripsAway(Some(target))
    ensures entry.Valid() && Matches(entry, target) && !SameWork(entry, target)
  {
    hide Canonicalize, StripsAway, IsRemains;
    StrippedLeavesRemains(target);
    var c := Canonicalize(Some(target));
    var doi := RemainsAreLeft(c.value);
    entry := EntryFor(c, None);
    NothingFromNothing();
    NotItsOwnRemains(target);
    CanonicalNotEmpty(Some(target));
    assert c.value in Claimed(entry) * Identifiers(target);
  }

  /** Fetching the text `doi:10.1234/` backs an entry with the id `10.1234/.`. */
  lemma RemainsMatchTheStripped(target: string) returns (entry: VerificationEntry)
    requires IsRemains(target)
    ensures entry.Valid() && Matches(entry, target) && !SameWork(entry, target)
  {
    var doi := RemainsAreLeft(target);
    entry := EntryFor(None, Some(doi));
    NothingFromNothing();
    hide Canonicalize;
    assert target in Claimed(entry) * Identifiers(target);
  }

  /** Such targets exist, and entries that they back by mistake. */
  lemma StrippedDoiMatchesItsRemains()
    ensures exists entry: VerificationEntry ::
      entry.Valid() && Matches(entry, "doi:10.1234/") && !SameWork(entry, "doi:10.1234/")
  {
    var b := "10.1234/";
    SpanIs(b[3..], IsDigit, 4);
    assert b[..3] == "10." && RegistrantLen(b) == 8;
    hide RegistrantLen, Matches, SameWork, IsRemains;
    RemainsOf(b);
    assert "doi:" + b == "doi:10.1234/";
    var entry := RemainsMatchTheStripped("doi:10.1234/");
  }

  lemma NothingFromNothing()
    ensures Canonicalize(None) == None
  {
  }

  // ---- All checks --------------------------------------------------------

  /** The defect list of `check`, as a function of what it is given. */
  ghost function Defects(checker: Checker, findings: seq<Finding>, entries: seq<VerificationEntry>,
                         evidence: seq<ToolEvidence>, prose: seq<string>): seq<string> {
    CompletenessDefects(findings, EntryRows(entries))
    + HonestyDefects(checker, entries, evidence)
    + checker.attribution(prose)
  }

  /** `check`. */
  method Check(checker: Checker, findings: seq<Finding>, entries: seq<VerificationEntry>,
               evidence: seq<ToolEvidence>, prose: seq<string>) returns (defects: seq<string>)
    ensures defects == Defects(checker, findings, entries, evidence, prose)
  {
    var incomplete := CheckCompleteness(findings, entries);
    var dishonest := CheckToolHonesty(checker, entries, evidence);
    defects := incomplete + dishonest + checker.attribution(prose);
  }
}
