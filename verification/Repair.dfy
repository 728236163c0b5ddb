/** Which rows a defect list sends back to the model (harness/pipeline.py). */
module Repair {
  import opened Text
  import opened Findings
  import opened Oracle
  import opened Verification

  predicate FreeBefore(s: string, i: int)
    requires 0 <= i <= |s|
  {
    i == 0 || !IsAlnum(s[i - 1])
  }

  predicate FreeAfter(s: string, i: int)
    requires 0 <= i <= |s|
  {
    i == |s| || !IsAlnum(s[i])
  }

  /** The row id stands at `i` with no letter or digit on either side. */
  predicate StandsAt(rowId: string, defect: string, i: int) {
    OccursAt(rowId, defect, i) && FreeBefore(defect, i) && FreeAfter(defect, i + |rowId|)
  }

  /** `_mentions_row`: the escaped row id between two non-alphanumeric look-arounds. */
  predicate MentionsRow(defect: string, rowId: string) {
    exists i | 0 <= i <= |defect| :: StandsAt(rowId, defect, i)
  }

  // ---- A mention is a whole token ----------------------------------------

  lemma {:induction false} TokenStands(d: string, t: string) returns (i: nat)
    requires t in Tokens(d)
    ensures i <= |d| && StandsAt(t, d, i)
    decreases |d|
  {
    TokensAreWords(d);
    var n := Span(d, IsAlnum);
    if n > 0 && t == d[..n] {
      i := 0;
    } else {
      var m := if n == 0 then 1 else n;
      var j := TokenStands(d[m..], t);
      i := j + m;
      StandsShift(t, d, m, j);
    }
  }

  lemma StandsShift(t: string, d: string, m: nat, j: nat)
    requires m <= |d| && IsWord(t) && StandsAt(t, d[m..], j)
    requires m > 0 ==> m < |d| ==> !IsAlnum(d[m - 1]) || !IsAlnum(d[m])
    ensures StandsAt(t, d, m + j)
  {
    assert d[m..][j..j + |t|] == d[m + j..m + j + |t|];
    assert IsAlnum(t[0]) && d[m..][j] == t[0];
    assert j > 0 ==> d[m..][j - 1] == d[m + j - 1];
    assert j + |t| < |d[m..]| ==> d[m..][j + |t|] == d[m + j + |t|];
  }

  /** A word that stands free is a token: the text falls apart around it. */
  lemma StandingIsToken(d: string, t: string, i: nat)
    requires IsWord(t) && StandsAt(t, d, i)
    ensures t in Tokens(d)
  {
    var tail := d[i + |t|..];
    assert d[i..] == t + tail;
    TokensConcat(t, tail);
    TokensOfWord(t);
    if i == 0 {
      assert d[0..] == d;
    } else {
      var pre := d[..i - 1];
      assert d == pre + ([d[i - 1]] + d[i..]);
      TokensConcat(pre, [d[i - 1]] + d[i..]);
      TokensSkip([d[i - 1]] + d[i..]);
      assert ([d[i - 1]] + d[i..])[1..] == d[i..];
    }
  }

  /** A row is mentioned iff its id is one of the maximal alphanumeric runs of the defect. */
  lemma MentionsIffToken(d: string, id: string)
    requires IsWord(id)
    ensures MentionsRow(d, id) <==> id in Tokens(d)
  {
    if MentionsRow(d, id) {
      var i :| 0 <= i <= |d| && StandsAt(id, d, i);
      StandingIsToken(d, id, i);
    }
    if id in Tokens(d) {
      var i := TokenStands(d, id);
    }
  }

  // ---- What a completeness defect selects --------------------------------

  lemma {:induction false} TokensOfJoin(ws: seq<string>, ts: seq<string>)
    requires |ws| == |ts| && forall i | 0 <= i < |ws| :: Tokens(ws[i]) == [ts[i]]
    ensures Tokens(Join(ws, ' ')) == ts
  {
    hide Tokens;
    if ws == [] {
      assert Tokens([]) == [] by { NoTokens(); }
    } else {
      if |ws| > 1 {
        TokensOfJoin(ws[1..], ts[1..]);
        TokensCons(ws[0], Join(ws[1..], ' '));
      }
      assert ts == [ts[0]] + ts[1..];
    }
  }

  lemma NoTokens()
    ensures Tokens([]) == []
  {
  }

  lemma {:induction false} JoinEnds(ws: seq<string>)
    requires |ws| > 1
    ensures exists pre :: Join(ws, ' ') == pre + " " + ws[|ws| - 1]
  {
    if |ws| == 2 {
      assert Join(ws[1..], ' ') == ws[1];
      assert Join(ws, ' ') == ws[0] + " " + ws[1];
    } else {
      JoinEnds(ws[1..]);
      var pre :| Join(ws[1..], ' ') == pre + " " + ws[|ws| - 1];
      assert Join(ws, ' ') == (ws[0] + " " + pre) + " " + ws[|ws| - 1];
    }
  }

  /** A completeness defect always selects the row it is about, whatever its id. */
  lemma SelectsOwnRow(findingId: string, rowId: string)
    ensures MentionsRow(CompletenessDefect(findingId, rowId), rowId)
  {
    var ws := ["finding", findingId, "cites", rowId, "but", "the", "verification", "log", "has", "no",
               "entry", "for", rowId];
    var d := CompletenessDefect(findingId, rowId);
    JoinEnds(ws);
    var pre :| d == pre + " " + rowId;
    assert d[|pre| + 1..|pre| + 1 + |rowId|] == rowId;
    assert d[|pre|] == ' ';
    assert StandsAt(rowId, d, |pre| + 1);
  }

  predicate LowerStart(w: string) {
    w != [] && 'a' <= w[0] <= 'z'
  }

  lemma FixedWords()
    ensures IsWord("finding") && IsWord("cites") && IsWord("but") && IsWord("the") && IsWord("verification")
    ensures IsWord("log") && IsWord("has") && IsWord("no") && IsWord("entry") && IsWord("for")
    ensures LowerStart("finding") && LowerStart("cites") && LowerStart("but") && LowerStart("the")
    ensures LowerStart("verification") && LowerStart("log") && LowerStart("has") && LowerStart("no")
    ensures LowerStart("entry") && LowerStart("for")
  {
  }

  function DefectWords(findingId: string, rowId: string): seq<string> {
    ["finding", findingId, "cites", rowId, "but", "the", "verification", "log", "has", "no", "entry", "for", rowId]
  }

  lemma DefectTokens(findingId: string, rowId: string)
    requires IsWord(findingId) && IsRowId(rowId)
    ensures Tokens(CompletenessDefect(findingId, rowId)) == DefectWords(findingId, Plain(rowId))
  {
    var ws, ts := DefectWords(findingId, rowId), DefectWords(findingId, Plain(rowId));
    PlainOfRowId(rowId);
    FixedWords();
    hide IsWord, IsRowId, IsPlainRowId, Plain, LowerStart;
    forall i | 0 <= i < |ws| ensures Tokens(ws[i]) == [ts[i]] {
      TokensOfWord(ts[i]);
      if ws[i] != ts[i] { TokensOfLine(ts[i]); }
    }
    TokensOfJoin(ws, ts);
  }

  /** A plain id is mentioned iff it is that of the row, but for a newline, or the finding's. */
  lemma SelectsPlain(findingId: string, rowId: string, k: string)
    requires IsWord(findingId) && IsRowId(rowId) && IsPlainRowId(k)
    ensures MentionsRow(CompletenessDefect(findingId, rowId), k) <==> k == Plain(rowId) || k == findingId
  {
    PlainRowIdIsWord(k);
    assert !LowerStart(k);
    FixedWords();
    hide IsPlainRowId, IsRowId, IsWord;
    DefectTokens(findingId, rowId);
    MentionsIffToken(CompletenessDefect(findingId, rowId), k);
    var ts := DefectWords(findingId, Plain(rowId));
    assert ts[1] == findingId && ts[3] == Plain(rowId);
  }

  /** `w` ends at `p`, with no letter or digit before it. */
  predicate EndsAt(w: string, d: string, p: int) {
    |w| <= p <= |d| && d[p - |w|..p] == w && FreeBefore(d, p - |w|)
  }

  lemma NotInside(v: string, w: string, d: string, p: int)
    requires IsWord(v) && EndsAt(v, d, p) && EndsAt(w, d, p)
    ensures |v| <= |w|
  {
    forall t | p - |v| <= t < p ensures IsAlnum(d[t]) {
      assert d[p - |v|..p][t - (p - |v|)] == d[t];
    }
  }

  lemma EndsAtOnce(v: string, w: string, d: string, p: int)
    requires IsWord(v) && IsWord(w) && EndsAt(v, d, p) && EndsAt(w, d, p)
    ensures v == w
  {
    NotInside(v, w, d, p);
    NotInside(w, v, d, p);
  }

  lemma SliceShift(pre: string, d: string, i: int, j: int)
    requires 0 <= i <= j <= |d|
    ensures (pre + d)[|pre| + i..|pre| + j] == d[i..j]
  {
  }

  lemma EndsAtShift(w: string, pre: string, d: string, p: int)
    requires EndsAt(w, d, p) && pre != [] && !IsAlnum(pre[|pre| - 1])
    ensures EndsAt(w, pre + d, |pre| + p)
  {
    hide IsAlnum;
    var i := p - |w|;
    SliceShift(pre, d, i, p);
    assert (pre + d)[|pre| + i - 1] == if i == 0 then pre[|pre| - 1] else d[i - 1];
  }

  lemma EndsAtStart(w: string, d: string)
    requires |w| <= |d| && d[0..|w|] == w
    ensures EndsAt(w, d, |w|)
  {
  }

  lemma SpaceIsNoAlnum()
    ensures !IsAlnum(' ')
  {
  }

  /** Among words and one line, every line end is that of the line. */
  lemma {:induction false} LineEndsAt(ws: seq<string>, w: string, p: nat)
    requires IsWord(w) && forall i | 0 <= i < |ws| :: IsWord(ws[i]) || ws[i] == w + "\n"
    requires p < |Join(ws, ' ')| && Join(ws, ' ')[p] == '\n'
    ensures EndsAt(w, Join(ws, ' '), p)
  {
    var d, first := Join(ws, ' '), ws[0];
    assert d[..|first|] == first;
    hide EndsAt;
    if p < |first| {
      assert first[p] == '\n' && !IsAlnum('\n');
      assert first == w + "\n" && p == |w|;
      assert EndsAt(w, d, p) by { assert d[0..p] == w; EndsAtStart(w, d); }
    } else {
      var pre, rest := first + " ", Join(ws[1..], ' ');
      assert d == pre + rest;
      hide Join, IsAlnum;
      assert !IsAlnum(' ') by { SpaceIsNoAlnum(); }
      LineEndsAt(ws[1..], w, p - |pre|);
      EndsAtShift(w, pre, rest, p - |pre|);
    }
  }

  lemma StandsToLineEnd(w: string, d: string, i: int)
    requires StandsAt(w + "\n", d, i)
    ensures EndsAt(w, d, i + |w|) && i + |w| < |d| && d[i + |w|] == '\n'
  {
    var s := d[i..i + |w| + 1];
    assert s == w + "\n";
    assert s[|w|] == '\n' && s[..|w|] == w;
    assert d[i..i + |w|] == s[..|w|];
  }

  lemma {:induction false} OnlyOneLine(ws: seq<string>, w: string, k: string, i: nat)
    requires IsWord(w) && IsWord(k) && forall j | 0 <= j < |ws| :: IsWord(ws[j]) || ws[j] == w + "\n"
    requires StandsAt(k + "\n", Join(ws, ' '), i)
    ensures k == w && exists j :: 0 <= j < |ws| && !IsWord(ws[j])
  {
    hide IsWord, Join;
    var d := Join(ws, ' ');
    StandsToLineEnd(k, d, i);
    LineEndsAt(ws, w, i + |k|);
    EndsAtOnce(k, w, d, i + |k|);
    LineIsThere(ws, i + |k|);
  }

  /** An id with a newline is mentioned only by the defect about it. */
  lemma {:induction false} SelectsLine(findingId: string, rowId: string, k: string)
    requires IsWord(findingId) && IsRowId(rowId) && IsPlainRowId(k)
    ensures MentionsRow(CompletenessDefect(findingId, rowId), k + "\n") <==> rowId == k + "\n"
  {
    var d, w, ws := CompletenessDefect(findingId, rowId), Plain(rowId), DefectWords(findingId, rowId);
    PlainRowIdIsWord(k);
    PlainOfRowId(rowId);
    FixedWords();
    assert d == Join(ws, ' ');
    hide IsPlainRowId, IsRowId, IsWord, LowerStart, Plain, CompletenessDefect, Join, StandsAt;
    assert forall j | 0 <= j < |ws| :: IsWord(ws[j]) || ws[j] == w + "\n";
    assert forall j | 0 <= j < |ws| :: IsWord(ws[j]) || (ws[j] == rowId && rowId == w + "\n");
    SelectsOwnRow(findingId, rowId);
    if MentionsRow(d, k + "\n") {
      var i :| 0 <= i <= |d| && StandsAt(k + "\n", d, i);
      OnlyOneLine(ws, w, k, i);
    }
  }

  lemma {:induction false} LineIsThere(ws: seq<string>, p: nat)
    requires p < |Join(ws, ' ')| && Join(ws, ' ')[p] == '\n'
    ensures exists i :: 0 <= i < |ws| && !IsWord(ws[i])
  {
    var d, first := Join(ws, ' '), ws[0];
    assert d[..|first|] == first;
    if p < |first| {
      assert first[p] == '\n' && !IsAlnum('\n');
    } else {
      assert d == first + " " + Join(ws[1..], ' ');
      LineIsThere(ws[1..], p - |first| - 1);
      var i :| 0 <= i < |ws[1..]| && !IsWord(ws[1..][i]);
      assert ws[i + 1] == ws[1..][i];
    }
  }

  /** Among the row ids, a completeness defect selects its own row and, by accident of
      spelling, the row whose id equals the finding's and the row whose id is that of its
      own row without a final newline; no other. */
  lemma SelectsExactly(findingId: string, rowId: string, k: string)
    requires IsWord(findingId) && IsRowId(rowId) && IsRowId(k)
    ensures MentionsRow(CompletenessDefect(findingId, rowId), k)
       <==> k == rowId || k == findingId || rowId == k + "\n"
  {
    PlainOfRowId(rowId);
    PlainOfRowId(k);
    assert IsWord(findingId) ==> findingId[|findingId| - 1] != '\n';
    if k == Plain(k) {
      assert k[|k| - 1] != '\n';
      hide IsRowId, IsPlainRowId, MentionsRow, CompletenessDefect, IsWord;
      SelectsPlain(findingId, rowId, k);
    } else {
      assert (Plain(k) + "\n")[|k| - 1] == '\n';
      hide IsRowId, IsPlainRowId, MentionsRow, CompletenessDefect, IsWord;
      SelectsLine(findingId, rowId, Plain(k));
    }
  }

  // ---- The rows to repair ------------------------------------------------

  predicate Defective(defects: seq<string>, rowId: string) {
    exists i | 0 <= i < |defects| :: MentionsRow(defects[i], rowId)
  }

  /** `defects_by_row` and the sorted list of rows with a non-empty entry. */
  function DefectiveRows(defects: seq<string>, rowIds: set<string>): seq<string> {
    Sorted(set r | r in rowIds && Defective(defects, r))
  }

  /** The list is empty, and the run is given up as unrepairable, only if no defect names
      any row; so never while a completeness defect about a swept row is pending. */
  lemma NothingToRepair(defects: seq<string>, rowIds: set<string>)
    ensures DefectiveRows(defects, rowIds) == [] <==> forall r | r in rowIds :: !Defective(defects, r)
    ensures DefectiveRows(defects, rowIds) == [] ==>
      forall findingId, r | r in rowIds :: CompletenessDefect(findingId, r) !in defects
  {
    var hit := set r | r in rowIds && Defective(defects, r);
    assert |Sorted(hit)| == |hit|;
    if DefectiveRows(defects, rowIds) == [] {
      forall r | r in rowIds ensures !Defective(defects, r) {
        assert r in hit <==> r in Sorted(hit);
      }
      forall findingId, r | r in rowIds ensures CompletenessDefect(findingId, r) !in defects {
        SelectsOwnRow(findingId, r);
        hide CompletenessDefect, MentionsRow;
        assert !Defective(defects, r);
      }
    }
  }

  /** What a list of completeness defects sends back to the model: the rows that lack an
      entry, any row that happens to be called like the finding that cites it, and any row
      whose id with a newline is that of a row that lacks an entry. With no row id of these
      two kinds they are exactly the rows that lack an entry. */
  lemma TargetsOfIncomplete(findings: seq<Finding>, logged: set<string>, rowIds: set<string>, k: string)
    requires forall r | r in rowIds :: IsRowId(r)
    requires forall i, r | 0 <= i < |findings| && r in findings[i].doctrineRefs :: IsRowId(r)
    requires forall i | 0 <= i < |findings| :: IsWord(findings[i].findingId)
    ensures k in DefectiveRows(CompletenessDefects(findings, logged), rowIds)
       <==> k in rowIds && exists i: nat, r ::
              Unlogged(findings, logged, i, r) && (k == r || k == findings[i].findingId || r == k + "\n")
  {
    hide CompletenessDefect, CompletenessDefects, MentionsRow, IsRowId, IsWord;
    var defects := CompletenessDefects(findings, logged);
    if k in rowIds && Defective(defects, k) {
      var j :| 0 <= j < |defects| && MentionsRow(defects[j], k);
      DefectsAreUnlogged(findings, logged, defects[j]);
      var i: nat, r :| Unlogged(findings, logged, i, r) && defects[j] == CompletenessDefect(findings[i].findingId, r);
      SelectsExactly(findings[i].findingId, r, k);
    }
    if k in rowIds {
      if i: nat, r :|
        Unlogged(findings, logged, i, r) && (k == r || k == findings[i].findingId || r == k + "\n")
      {
        DefectsAreUnlogged(findings, logged, CompletenessDefect(findings[i].findingId, r));
        SelectsExactly(findings[i].findingId, r, k);
        var j :| 0 <= j < |defects| && defects[j] == CompletenessDefect(findings[i].findingId, r);
        assert MentionsRow(defects[j], k);
      }
    }
  }

  /** The finding ids the pipeline gives out are words. */
  lemma FindingIdIsWord(index: nat)
    ensures IsWord("F" + Decimal(index))
  {
    var id := "F" + Decimal(index);
    forall i | 0 <= i < |id| ensures IsAlnum(id[i]) {
      if i > 0 { assert IsDigit(Decimal(index)[i - 1]); }
    }
  }
}
