/** The guarantees are about something: a review that ends in a publication, with a finding
    of the model that cites a doctrine row and a log entry that claims a fetch; and citations
    in running text. */
module Witness {
  import opened Wrappers
  import opened Text
  import opened Findings
  import opened Oracle
  import opened SeverityPolicy
  import opened Sweeps
  import opened Transcript
  import opened Canonical
  import opened CanonicalForms
  import opened Verification
  import opened History
  import opened Assembly
  import opened Replay
  import opened Pipeline
  import Consistency

  const ROW: OracleRow := OracleRow("D1", [], PR, true)
  const RULE: ArtifactClassRule := ArtifactClassRule("note", [], MINOR, GateFailure, true)
  const ORACLE: OracleTable :=
    OracleTable([ROW], FreshnessMeta(0, 0, 2), SeverityPolicyConfig([], MINOR, {TierRow}, {PR}), ["marker"], INFO,
                [RULE], 2, "-")

  const DEPS: Deps := Deps(
    ORACLE, 0, Checker({"WebFetch"}, _ => "", _ => []), Consistency.Config([], {}),
    _ => [], _ => [], (_, _) => [], _ => [], text => text)

  const REQUEST: Request := Request("a", Fixed(Conformance), "", [])
  const CLASSIFY_ANSWER: ClassifyResult := ClassifyResult("note", Conformance, None, [])
  const CLAIM: CandidateFinding :=
    CandidateFinding(MAJOR, "gap", "gap", ["D1"], [], [SupportRef(DoctrineRow, "D1")], "")
  const ENTRY: VerificationEntry := VerificationEntry("read", Some("D1"), Some("u"), None, Certain, true, Verified)
  const QUALITY: SourceQualityResult := SourceQualityResult([CLAIM], [], [ENTRY])
  const SYNTHESIS_ANSWER: SynthesisResult := SynthesisResult("one gap", [], [])
  const BLOCKS: seq<Block> := [ToolUse("t", "WebFetch", Scalar("u")), ToolResult("t", false)]
  const SNAP: Snapshot := Snapshot(map[], Some(QUALITY), None, Some(SYNTHESIS_ANSWER))

  function Answering(blocks: seq<Block>, payload: Payload): Reply {
    Stream([Message(Some(blocks), Some(ResultInfo(false, Some(payload), NoText)))])
  }

  function Tape(k: nat): Reply {
    if k == 0 then Answering([], ClassifyPayload(CLASSIFY_ANSWER))
    else if k == 1 then Answering(BLOCKS, SourceQualityPayload(QUALITY))
    else Answering([], SynthesisPayload(SYNTHESIS_ANSWER))
  }

  lemma OracleIsValid()
    ensures ORACLE.Valid() && ORACLE.RowIds() == {"D1"}
  {
    SpanIs("D1"[1..], IsDigit, 1);
    assert IsRowId("D1");
    assert "-"[..0] == "";
    assert !IsRowId("-");
    assert ORACLE.rows[0].id == "D1";
  }

  lemma AnswersAreAccepted()
    ensures Accepted(Tape, 0, CLASSIFY, ClassifyPayload(CLASSIFY_ANSWER))
    ensures Accepted(Tape, 1, SOURCE_QUALITY, SourceQualityPayload(QUALITY))
    ensures Accepted(Tape, 2, SYNTHESIS, SynthesisPayload(SYNTHESIS_ANSWER))
  {
  }

  lemma FetchIsEvidence()
    ensures ToolEvidence("WebFetch", "u", true) in EvidenceUpTo(Tape, 3)
  {
    var messages := Tape(1).messages;
    assert messages[..0] == [];
    assert Blocks(messages) == BLOCKS;
    assert LastUseBefore(BLOCKS, 0, 1, "t");
    var e := ToolEvidence("WebFetch", "u", true);
    assert Answers(BLOCKS, 0, 1, e);
    EvidenceIsAnswered(BLOCKS, e);
    assert e in EvidenceIn(Tape(1));
    hide *;
    EvidenceStays(e, 2);
    EvidenceStays(e, 3);
  }

  lemma EvidenceStays(e: ToolEvidence, n: nat)
    requires n > 0 && (e in EvidenceUpTo(Tape, n - 1) || e in EvidenceIn(Tape(n - 1)))
    ensures e in EvidenceUpTo(Tape, n)
  {
  }

  lemma NothingSorted()
    ensures Sorted({}) == []
  {
    var none: set<string> := {};
    assert |Sorted(none)| == |none|;
  }

  lemma NoDeterministicCandidates()
    ensures DeterministicCandidates(DEPS, REQUEST, RULE, []) == []
  {
    var lines := Consistency.SplitLines("");
    var symbols := Consistency.DefinedSymbols(DEPS.consistency, lines);
    assert lines == [] && Consistency.AreDefinedSymbols(DEPS.consistency, lines, symbols);
    assert symbols == {};
    NothingSorted();
  }

  lemma LogIsTheEntry()
    ensures AllEntries(SNAP) == [ENTRY]
  {
    NothingSorted();
    assert SNAP.rows.Keys == {};
    hide Sorted;
  }

  function Found(): seq<Finding> {
    Assembled(DEPS, SNAP, [], Conformance)
  }

  lemma FindingCitesTheRow()
    ensures |Found()| == 1 && Found()[0].origin.Llm? && Found()[0].doctrineRefs == ["D1"]
  {
    NothingSorted();
    assert SNAP.rows.Keys == {};
    hide Sorted, Capped, ToFinding;
    var tags := Tags(SNAP, []);
    assert tags == [Tagged(CLAIM, None, Llm)];
    var finding := ToFinding(DEPS, tags[0], 1);
    assert Found()[0] == Capped(ORACLE, finding, Conformance);
    CappedKeepsIdentity(ORACLE, finding, Conformance);
    RefsOfClaim(tags[0]);
  }

  lemma RefsOfClaim(t: Tagged)
    requires t == Tagged(CLAIM, None, Llm)
    ensures ToFinding(DEPS, t, 1).origin.Llm? && ToFinding(DEPS, t, 1).doctrineRefs == ["D1"]
  {
    OracleIsValid();
    hide Decimal, KnownSupports, SlugOf, OracleTable.RowIds, OracleTable.Valid;
    assert CLAIM.doctrineRefs[1..] == [];
    assert KnownRefs(ORACLE, []) == [];
  }

  lemma EntryIsBacked(evidence: seq<ToolEvidence>)
    requires ToolEvidence("WebFetch", "u", true) in evidence
    ensures HonestyDefects(DEPS.checker, [ENTRY], evidence) == []
  {
    hide Canonical.Canonicalize;
    assert "u" in Claimed(ENTRY) * Identifiers("u");
    assert Backed(DEPS.checker, ENTRY, evidence);
    hide Backed, HonestyDefects;
    HonestIff(DEPS.checker, [ENTRY], evidence);
  }

  lemma {:induction false} RowIsLogged(findings: seq<Finding>)
    requires |findings| == 1 && findings[0].doctrineRefs == ["D1"]
    ensures CompletenessDefects(findings, EntryRows([ENTRY])) == []
  {
    assert [ENTRY][0].rowId == Some("D1");
    assert "D1" in EntryRows([ENTRY]);
    hide EntryRows, CompletenessDefects;
    CompleteIff(findings, [ENTRY]);
  }

  lemma NoDefectIsFound()
    ensures DefectsOf(DEPS, SNAP, Found(), EvidenceUpTo(Tape, 3)) == []
  {
    hide EvidenceUpTo, Found, AllEntries, CompletenessDefects, HonestyDefects, EntryRows, ProseBlocks;
    LogIsTheEntry();
    FindingCitesTheRow();
    FetchIsEvidence();
    RowIsLogged(Found());
    EntryIsBacked(EvidenceUpTo(Tape, 3));
  }

  lemma SnapIsAnswered()
    ensures FromTape(Tape, 3, SNAP) && WasAnswered(Tape, 3, CLASSIFY, ClassifyPayload(CLASSIFY_ANSWER))
  {
    AnswersAreAccepted();
    hide Accepted;
  }

  const STATE: ReviewState := ReviewState("a", 0, [])
  const PREPARED: Prepared := Prepared(CLASSIFY_ANSWER, RULE, [], SNAP.(synthesis := None))

  function Ended(): Verdict {
    Verdict(SNAP, Found(), None)
  }

  lemma EachAnswerIsRead()
    ensures Asked(DEPS, Tape, 0, CLASSIFY) == Go(ClassifyPayload(CLASSIFY_ANSWER), 1)
    ensures Asked(DEPS, Tape, 1, SOURCE_QUALITY) == Go(SourceQualityPayload(QUALITY), 2)
    ensures Asked(DEPS, Tape, 2, SYNTHESIS) == Go(SynthesisPayload(SYNTHESIS_ANSWER), 3)
  {
    AnswersAreAccepted();
    assert Attempts(DEPS) == 1;
    hide AnswerOf, Parses;
    AskStep(Tape, 0, CLASSIFY, 1);
    AskStep(Tape, 1, SOURCE_QUALITY, 1);
    AskStep(Tape, 2, SYNTHESIS, 1);
  }

  lemma ItIsPrepared()
    ensures PreparedFor(DEPS, REQUEST, Tape, 0) == Go(PREPARED, 2)
  {
    assert FindClass(ORACLE.artifactClasses, "note") == Some(RULE);
    EachAnswerIsRead();
    NoDeterministicCandidates();
    hide Asked, FindClass, ResolveMode, DeterministicCandidates, SweptRows;
  }

  lemma ItIsAttempted()
    ensures Attempted(DEPS, Tape, 2, PREPARED.snap, [], Conformance) == Go((SNAP, Found(), []), 3)
  {
    assert TagModel(PREPARED.snap) == [Tagged(CLAIM, None, Llm)] by {
      NothingSorted();
      assert PREPARED.snap.rows.Keys == {};
      hide Sorted;
    }
    assert Tags(PREPARED.snap, []) == [Tagged(CLAIM, None, Llm)];
    assert Presentable(DEPS, Tags(PREPARED.snap, []));
    EachAnswerIsRead();
    NoDefectIsFound();
    hide Asked, Tags, Presentable, Assembled, DefectsOf, EvidenceUpTo;
    assert Synthesized(PREPARED.snap, SYNTHESIS_ANSWER) == SNAP;
  }

  lemma ItIsSettled()
    ensures Settled(DEPS, Tape, 2, PREPARED.snap, [], Conformance, Repairs(DEPS)) == Go(Ended(), 3)
  {
    ItIsAttempted();
    hide Attempted, Settled, Found;
    SettledStep(DEPS, Tape, 2, PREPARED.snap, [], Conformance, Repairs(DEPS));
  }

  lemma ItEnds(world: World)
    ensures Reviewed(DEPS, REQUEST, world, STATE, Tape)
         == Go(PublicationOf(DEPS, REQUEST, world, STATE, PREPARED, Ended(), "one gap"), 3)
  {
    ItIsPrepared();
    ItIsSettled();
    assert HeadlineOf(DEPS, SNAP) == "one gap";
    hide PreparedFor, Settled, PublicationOf, Found, Concluded, HeadlineOf;
    ConcludedStep(DEPS, REQUEST, world, STATE, Tape, PREPARED, 2, Conformance);
  }

  /** Some review of a fresh artifact ends, after three calls, in the publication of a finding
      of the model about a doctrine row and of a log entry that claims a fetch. */
  lemma PublicationsExist(world: World) returns (pub: Publication)
    ensures DEPS.oracle.Valid()
    ensures Reviewed(DEPS, REQUEST, world, STATE, Tape) == Go(pub, 3)
    ensures Publishes(DEPS, REQUEST, world, STATE, Tape, 3, pub)
    ensures |pub.findings| == 1 && pub.findings[0].origin.Llm? && pub.findings[0].doctrineRefs == ["D1"]
    ensures |pub.verificationLog| == 1 && pub.verificationLog[0].fetched
  {
    OracleIsValid();
    NoDefectIsFound();
    NoDeterministicCandidates();
    LogIsTheEntry();
    FindingCitesTheRow();
    SnapIsAnswered();
    ItEnds(world);
    pub := PublicationOf(DEPS, REQUEST, world, STATE, PREPARED, Ended(), "one gap");
    hide Assembled, DefectsOf, EvidenceUpTo, AllEntries, DeterministicCandidates, FromTape, WasAnswered,
      OracleTable.Valid, OracleTable.RowIds, Escalation, Reviewed;
    PublicationIsFrom(DEPS, REQUEST, world, STATE, Tape, 3, PREPARED, [], Ended(), "one gap");
  }

  // ---- Citations in running text -----------------------------------------

  lemma PlainWordsCiteNothing(text: string)
    requires All(text, NotA)
    ensures ArxivSearch(text).None?
  {
    EmptySearch();
    hide ArxivSearch, NotA;
    ArxivSearchSkips(text, "");
    assert text + "" == text;
  }

  /** Every paper's URL is read in prose and under another scheme. */
  lemma ArxivInProse(id: string)
    requires IsArxivId(id)
    ensures Canonicalize(Some("see " + ("arxiv.org/abs/" + id) + " for details")) == Some("arxiv:" + Lower(id))
    ensures Canonicalize(Some("http://" + ("arxiv.org/abs/" + (id + "v2")) + "")) == Some("arxiv:" + Lower(id))
  {
    var see := Cited("see ", "arxiv", '.', "", "org/abs/", " for details");
    var http := Cited("http://", "arxiv", '.', "", "org/abs/", "");
    assert Lower("arxiv") == "arxiv" && Lower("org/abs/") == "org/abs/";
    assert IsPrefix("arxiv", '.', "", "org/abs/");
    SpanIs("2", IsDigit, 1);
    assert IsVersion("v2") by { assert "v2"[1..] == "2"; }
    assert IsVersion("");
    hide Lower, IsPrefix, IsArxivId, IsVersion, Canonicalize, ArxivSearch;
    PlainWordsCiteNothing("see ");
    PlainWordsCiteNothing("http://");
    assert SpellArxiv(see, id, "") == "see " + ("arxiv.org/abs/" + id) + " for details" by { UrlText(id); }
    assert SpellArxiv(http, id, "v2") == "http://" + ("arxiv.org/abs/" + (id + "v2")) + "" by { UrlText(id + "v2"); }
    ArxivSpellingsCollapse(see, id, "");
    ArxivSpellingsCollapse(http, id, "v2");
  }

  lemma UrlText(w: string)
    ensures "arxiv" + ['.'] + "" + ("org/abs/" + w) == "arxiv.org/abs/" + w
    ensures w + "" == w
  {
    assert "arxiv" + ['.'] + "" + "org/abs/" == "arxiv.org/abs/";
  }

  /** Every DOI is read in prose with its full stop, also one that names a paper. */
  lemma DoiInProse(doi: string)
    requires IsDoi(doi)
    ensures Canonicalize(Some("see " + ("doi" + ":" + (doi + ".")) + "")) == Some(DoiIdentity(doi))
  {
    hide *;
    DoiColonIsPrefix();
    SeeIsPlain();
    FullStop();
    assert "." + "" == ".";
    SearchIgnoresBlank(doi, ".");
    DoiNamesItself("see ", doi, ".");
    CitedDoiSpelling("see ", "doi", ":", doi, ".", "");
  }

  lemma DoiNamesItself(before: string, doi: string, tail: string)
    requires ArxivSearch(before).None? && ArxivSearch(doi + tail) == ArxivSearch(doi)
    ensures NoOtherPaper(before, doi, tail)
  {
    hide ArxivSearch;
  }

  /** The DOI of an arXiv paper is read in prose that goes on to cite another paper. */
  lemma PaperDoiInProse(id: string)
    requires IsArxivId(id)
    ensures var doi := "10.48550/arXiv." + id;
      Canonicalize(Some("as in " + ("doi" + ":" + (doi + ".")) + " It cites arXiv:2208.11173"))
      == Some("arxiv:" + Lower(id))
  {
    hide *;
    AsInIsPlain();
    FullStop();
    NextSentence();
    ArxivDoiNamesItsPaper(id);
    PaperDoiIsRead("as in ", "10.48550/arXiv." + id, " It cites arXiv:2208.11173", id);
  }

  lemma FullStop()
    ensures All(".", IsDoiTrailing) && All(".", NotInId)
  {
  }

  lemma NextSentence()
    ensures !IsDoiChar(" It cites arXiv:2208.11173"[0])
  {
  }

  lemma PaperDoiIsRead(before: string, doi: string, after: string, id: string)
    requires IsDoi(doi) && ArxivSearch(doi) == Some(id)
    requires ArxivSearch(before).None? && DoiSearch(before + "d").None? && DoiLen(LStrip(before, IsSpace) + "d") == 0
    requires (after == [] || !IsDoiChar(after[0])) && All(".", IsDoiTrailing)
    ensures Canonicalize(Some(before + ("doi" + ":" + (doi + ".")) + after)) == Some("arxiv:" + Lower(id))
  {
    hide *;
    DoiColonIsPrefix();
    PaperNamesItself(before, doi, "." + after, id);
    CitedDoiSpelling(before, "doi", ":", doi, ".", after);
  }

  lemma PaperNamesItself(before: string, doi: string, tail: string, id: string)
    requires ArxivSearch(before).None? && ArxivSearch(doi) == Some(id)
    ensures NoOtherPaper(before, doi, tail) && DoiIdentity(doi) == "arxiv:" + Lower(id)
  {
    hide ArxivSearch;
  }

  /** A paper that is cited behind a DOI is what the text is read as. */
  lemma OtherPaperWins(id: string)
    requires IsArxivId(id)
    ensures IsDoi("10.48550/x") && DoiIdentity("10.48550/x") == "doi:10.48550/x"
    ensures Canonicalize(Some("doi:10.48550/x; " + ("arXiv:" + id) + "")) == Some("arxiv:" + Lower(id))
  {
    hide *;
    var before := "doi:10.48550/x; ";
    PlainDoi();
    ArxivColon();
    ArxivColonText(before, id);
    PlainWordsCiteNothing(before);
    PlainWordsCiteNothing("10.48550/x");
    DoiIdentityOf("10.48550/x");
    CitedSpelling(before, "arXiv", ':', "", "", id, "", "");
  }

  lemma ArxivColon()
    ensures IsPrefix("arXiv", ':', "", "") && IsVersion("")
  {
    assert Lower("arXiv") == "arxiv";
  }

  lemma ArxivColonText(before: string, id: string)
    ensures before + ("arXiv" + [':'] + "" + ("" + (id + ""))) + "" == before + ("arXiv:" + id) + ""
  {
    assert "arXiv" + [':'] == "arXiv:";
    assert "" + (id + "") == id;
  }

  lemma PlainDoi()
    ensures IsDoi("10.48550/x") && CleanDoi("10.48550/x") == "10.48550/x"
    ensures All("doi:10.48550/x; ", NotA) && All("10.48550/x", NotA)
  {
    hide *;
    PlainSuffix();
    SuffixMakesDoi("x");
    DoiIsClean();
    NoLetterA();
  }

  lemma PlainSuffix()
    ensures "10.48550/" + "x" == "10.48550/x" && All("x", IsDoiChar)
  {
  }

  lemma DoiIsClean()
    ensures CleanDoi("10.48550/x") == "10.48550/x"
  {
    assert Lower("10.48550/x") == "10.48550/x";
    hide Lower, CleanDoi;
    CleanIsClean("10.48550/x");
  }

  lemma NoLetterA()
    ensures All("doi:10.48550/x; ", NotA) && All("10.48550/x", NotA)
  {
  }

  lemma FiveDigits()
    ensures IsModernId("2208.11173")
  {
  }

  lemma DigitsAreLower(id: string)
    requires IsModernId(id)
    ensures Lower(id) == id && IsPaperId(id)
  {
  }

  /** A modern id keeps all its digits. */
  lemma ModernIdIsRead(id: string)
    requires IsModernId(id)
    ensures Canonicalize(Some("arXiv:" + id)) == Some("arxiv:" + id)
  {
    hide *;
    DigitsAreLower(id);
    PaperIdIff(id);
    EmptySearch();
    ArxivColon();
    ArxivColonText("", id);
    assert "" + ("arXiv:" + id) + "" == "arXiv:" + id;
    CitedSpelling("", "arXiv", ':', "", "", id, "", "");
  }

  lemma FiveDigitId()
    ensures Canonicalize(Some("arXiv:" + "2208.11173")) == Some("arxiv:" + "2208.11173")
  {
    hide *;
    FiveDigits();
    ModernIdIsRead("2208.11173");
  }

  /** Words without the letter `d` neither hold a DOI nor run into the word `doi`. */
  lemma PlainWordsHoldNoDoi(s: string)
    requires s != [] && !IsSpace(s[0]) && s[0] != '1' && All(s, NotD)
    ensures DoiSearch(s + "d").None? && DoiLen(LStrip(s, IsSpace) + "d") == 0
  {
    LStripIs(s, IsSpace, 0);
    assert s[0..] == s && (s + "d")[0] == s[0];
    hide *;
    NotDoiByHead(s + "d");
    NoDoiInD();
    DoiSearchSkips(s, "d");
  }

  /** An `a` that does not start the word `arxiv`. */
  lemma PlainAfterA(s: string)
    requires |s| > 1 && LowerChar(s[1]) != 'r' && All(s[1..], NotA)
    ensures ArxivSearch(s).None?
  {
    StartsWithChar(s, "arxiv", 1);
    assert ArxivMatch(s).None?;
    hide ArxivMatch;
    PlainWordsCiteNothing(s[1..]);
  }

  lemma AsInIsPlain()
    ensures ArxivSearch("as in ").None?
    ensures DoiSearch("as in " + "d").None? && DoiLen(LStrip("as in ", IsSpace) + "d") == 0
  {
    AsInLetters();
    hide *;
    PlainAfterA("as in ");
    PlainWordsHoldNoDoi("as in ");
  }

  lemma AsInLetters()
    ensures "as in "[0] == 'a' && !IsSpace("as in "[0]) && LowerChar("as in "[1]) != 'r'
    ensures All("as in ", NotD) && All("as in "[1..], NotA)
  {
  }

  lemma SeeIsPlain()
    ensures ArxivSearch("see ").None?
    ensures DoiSearch("see " + "d").None? && DoiLen(LStrip("see ", IsSpace) + "d") == 0
  {
    assert "see "[0] == 's' && All("see ", NotD) && All("see ", NotA);
    hide *;
    PlainWordsCiteNothing("see ");
    PlainWordsHoldNoDoi("see ");
  }
}
