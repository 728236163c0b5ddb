/** Canonical scholarly identifiers (harness/canonical.py). Each pattern is a function on
    the text that starts where the pattern is tried; none of them can succeed later by
    giving characters back, so the longest choice stands for the backtracking search. */
module Canonical {
  import opened Text
  import opened Wrappers

  // ---- The patterns ------------------------------------------------------

  predicate IsArchiveChar(c: char) {
    IsAlpha(c) || c == '-'
  }

  /** `\d{4}\.\d{4,5}` at the start of `s`: the length matched, 0 for no match. */
  function ModernLen(s: string): (n: nat)
    ensures n <= |s|
  {
    if Span(s, IsDigit) == 4 && |s| > 5 && s[4] == '.' then
      var k := Span(s[5..], IsDigit);
      if k < 4 then 0 else if k == 4 then 9 else 10
    else 0
  }

  /** The length of `(?:\.[A-Za-z]{2})?`. */
  function ClassLen(s: string): (n: nat)
    ensures n <= |s|
  {
    if |s| >= 3 && s[0] == '.' && IsAlpha(s[1]) && IsAlpha(s[2]) then 3 else 0
  }

  /** `[a-z-]+(?:\.[A-Za-z]{2})?/\d{7}`, ignoring case. */
  function OldLen(s: string): (n: nat)
    ensures n <= |s|
  {
    var a := Span(s, IsArchiveChar);
    var b := a + ClassLen(s[a..]);
    if a > 0 && b < |s| && s[b] == '/' && Span(s[b + 1..], IsDigit) >= 7 then b + 8 else 0
  }

  function ArxivIdLen(s: string): (n: nat)
    ensures n <= |s|
  {
    if ModernLen(s) > 0 then ModernLen(s) else OldLen(s)
  }

  predicate IsArxivId(s: string) {
    s != [] && ArxivIdLen(s) == |s|
  }

  /** `v\d+` at the start of `s`. */
  function VersionLen(s: string): (n: nat)
    ensures n <= |s|
  {
    if |s| >= 2 && LowerChar(s[0]) == 'v' && IsDigit(s[1]) then 1 + Span(s[1..], IsDigit) else 0
  }

  /** The text of `(?:v\d+)?`. */
  predicate IsVersion(s: string) {
    VersionLen(s) == |s|
  }

  predicate StartsWith(s: string, literal: string) {
    |s| >= |literal| && Lower(s[..|literal|]) == literal
  }

  lemma StartsWithChar(s: string, literal: string, i: nat)
    requires i < |literal| && i < |s|
    ensures StartsWith(s, literal) ==> LowerChar(s[i]) == literal[i]
  {
    if StartsWith(s, literal) {
      assert Lower(s[..|literal|])[i] == LowerChar(s[i]);
    }
  }

  predicate StartsWithPath(s: string) {
    StartsWith(s, "org/abs/") || StartsWith(s, "org/pdf/")
  }

  /** `_ARXIV` tried at the start of `s`: the id group. The second alternative of the
      pattern is an instance of the first, with no space after `arxiv.`. */
  function ArxivMatch(s: string): Option<string> {
    if StartsWith(s, "arxiv") && |s| > 5 && (s[5] == '.' || s[5] == ':') then
      ArxivAfterPrefix(s[6..][Span(s[6..], IsSpace)..])
    else None
  }

  function ArxivAfterPrefix(w: string): Option<string> {
    if StartsWithPath(w) && ArxivIdLen(w[8..]) > 0 then Some(w[8..][..ArxivIdLen(w[8..])])
    else if ArxivIdLen(w) > 0 then Some(w[..ArxivIdLen(w)])
    else None
  }

  /** `_ARXIV.search`: the leftmost match. */
  function ArxivSearch(s: string): Option<string> {
    if ArxivMatch(s).Some? then ArxivMatch(s)
    else if s == [] then None
    else ArxivSearch(s[1..])
  }

  /** `_ARXIV_BARE.match`. */
  function ArxivBare(s: string): Option<string> {
    var n := ArxivIdLen(s);
    if n > 0 && IsVersion(s[n..]) then Some(s[..n]) else None
  }

  predicate IsDoiChar(c: char) {
    !IsSpace(c) && c != '"' && c != '\'' && c != '<' && c != '>'
  }

  predicate IsColonOrSpace(c: char) {
    c == ':' || IsSpace(c)
  }

  predicate IsDoiTrailing(c: char) {
    c == '.' || c == ',' || c == ';' || c == ':'
  }

  /** `10\.\d{4,9}/` at the start of `s`. */
  function RegistrantLen(s: string): (n: nat)
    ensures n <= |s|
    ensures n > 0 ==> n >= 8
  {
    if |s| > 3 && s[..3] == "10." then
      var d := Span(s[3..], IsDigit);
      if 4 <= d <= 9 && 3 + d < |s| && s[3 + d] == '/' then 4 + d else 0
    else 0
  }

  /** `_DOI_BODY` at the start of `s`. */
  function DoiLen(s: string): (n: nat)
    ensures n <= |s|
    ensures n > 0 ==> RegistrantLen(s) > 0 && n > RegistrantLen(s)
  {
    var r := RegistrantLen(s);
    if r == 0 then 0
    else
      var k := Span(s[r..], IsDoiChar);
      if k == 0 then 0 else r + k
  }

  predicate IsDoi(s: string) {
    s != [] && DoiLen(s) == |s|
  }

  /** `_DOI` tried at the start of `s`. */
  function DoiMatch(s: string): Option<string> {
    if StartsWith(s, "doi.org/") && DoiLen(s[8..]) > 0 then Some(s[8..][..DoiLen(s[8..])])
    else if StartsWith(s, "doi") && Span(s[3..], IsColonOrSpace) > 0 then
      var w := s[3..][Span(s[3..], IsColonOrSpace)..];
      if DoiLen(w) > 0 then Some(w[..DoiLen(w)]) else None
    else None
  }

  function DoiSearch(s: string): Option<string> {
    if DoiMatch(s).Some? then DoiMatch(s)
    else if s == [] then None
    else DoiSearch(s[1..])
  }

  function CleanDoi(raw: string): string {
    Lower(RStrip(raw, IsDoiTrailing))
  }

  function OrElse(a: Option<string>, b: Option<string>): Option<string> {
    if a.Some? then a else b
  }

  /** The id group found in a stripped text by the arXiv patterns. */
  function RawArxiv(candidate: string): Option<string> {
    OrElse(ArxivBare(candidate), ArxivSearch(candidate))
  }

  /** The id group found in a stripped text by the DOI patterns. */
  function RawDoi(candidate: string): Option<string> {
    OrElse(if IsDoi(candidate) then Some(candidate) else None, DoiSearch(candidate))
  }

  function CanonicalizeStripped(candidate: string): Option<string> {
    if RawArxiv(candidate).Some? then Some("arxiv:" + Lower(RawArxiv(candidate).value))
    else if RawDoi(candidate).Some? then Some("doi:" + CleanDoi(RawDoi(candidate).value))
    else None
  }

  /** `canonicalize`. */
  function Canonicalize(text: Option<string>): Option<string> {
    if text.None? || text.value == [] then None
    else CanonicalizeStripped(Strip(text.value, IsSpace))
  }

  // ---- Case folding and context do not matter ----------------------------

  /** A character class that does not distinguish case. */
  ghost predicate Caseless(p: char -> bool) {
    forall c :: p(LowerChar(c)) == p(c)
  }

  lemma {:induction false} SpanLower(s: string, p: char -> bool)
    requires Caseless(p)
    ensures Span(Lower(s), p) == Span(s, p)
  {
    if s != [] {
      SpanLower(s[1..], p);
      assert Lower(s)[1..] == Lower(s[1..]);
    }
  }

  lemma LowerDrop(s: string, n: nat)
    requires n <= |s|
    ensures Lower(s)[n..] == Lower(s[n..]) && Lower(s)[..n] == Lower(s[..n])
  {
  }

  lemma ModernLower(s: string)
    ensures ModernLen(Lower(s)) == ModernLen(s)
  {
    hide Span;
    SpanLower(s, IsDigit);
    if |s| > 5 {
      LowerDrop(s, 5);
      SpanLower(s[5..], IsDigit);
    }
  }

  lemma ClassLower(s: string)
    ensures ClassLen(Lower(s)) == ClassLen(s)
  {
  }

  /** Two texts whose parts are recognized alike are recognized alike. */
  lemma OldAlike(s: string, t: string, a: nat, b: nat)
    requires |s| == |t| && a <= b && Span(s, IsArchiveChar) == Span(t, IsArchiveChar) == a <= |s|
    requires b - a == ClassLen(s[a..]) == ClassLen(t[a..])
    requires b < |s| ==> (s[b] == '/' <==> t[b] == '/') && Span(s[b + 1..], IsDigit) == Span(t[b + 1..], IsDigit)
    ensures OldLen(s) == OldLen(t)
  {
    hide Span, ClassLen;
  }

  lemma OldLower(s: string)
    ensures OldLen(Lower(s)) == OldLen(s)
  {
    hide Span, ClassLen, OldLen, Lower;
    var t := Lower(s);
    var a := Span(s, IsArchiveChar);
    var b := a + ClassLen(s[a..]);
    SpanLower(s, IsArchiveChar);
    LowerDrop(s, a);
    ClassLower(s[a..]);
    if b < |s| {
      assert t[b] == LowerChar(s[b]);
      LowerDrop(s, b + 1);
      SpanLower(s[b + 1..], IsDigit);
    }
    OldAlike(t, s, a, b);
  }

  lemma ArxivIdLenLower(s: string)
    ensures ArxivIdLen(Lower(s)) == ArxivIdLen(s)
  {
    hide ModernLen, OldLen;
    ModernLower(s);
    OldLower(s);
  }

  lemma StartsWithLower(s: string, literal: string)
    ensures StartsWith(Lower(s), literal) == StartsWith(s, literal)
  {
    if |s| >= |literal| {
      LowerDrop(s, |literal|);
      LowerIdempotent(s[..|literal|]);
    }
  }

  lemma AfterPrefixLower(w: string)
    ensures ArxivAfterPrefix(Lower(w)).Some? == ArxivAfterPrefix(w).Some?
  {
    assert (StartsWithPath(w) ==> |w| >= 8) && (StartsWithPath(Lower(w)) ==> |w| >= 8);
    hide ArxivIdLen, StartsWith;
    StartsWithLower(w, "org/abs/");
    StartsWithLower(w, "org/pdf/");
    ArxivIdLenLower(w);
    if |w| >= 8 {
      LowerDrop(w, 8);
      ArxivIdLenLower(w[8..]);
    }
  }

  lemma ArxivMatchLower(s: string)
    ensures ArxivMatch(Lower(s)).Some? == ArxivMatch(s).Some?
  {
    hide StartsWith, ArxivAfterPrefix;
    StartsWithLower(s, "arxiv");
    if |s| > 5 {
      LowerDrop(s, 6);
      SpanLower(s[6..], IsSpace);
      LowerDrop(s[6..], Span(s[6..], IsSpace));
      AfterPrefixLower(s[6..][Span(s[6..], IsSpace)..]);
    }
  }

  /** A longer text has at least as long a span, and the same one if it ended inside. */
  lemma {:induction false} SpanGrows(s: string, q: string, p: char -> bool)
    ensures Span(s + q, p) >= Span(s, p)
    ensures Span(s, p) < |s| ==> Span(s + q, p) == Span(s, p)
    ensures q == [] || !p(q[0]) ==> Span(s + q, p) == Span(s, p)
  {
    if s == [] {
      assert s + q == q;
    } else if p(s[0]) {
      assert (s + q)[1..] == s[1..] + q;
      SpanGrows(s[1..], q, p);
    }
  }

  lemma DropConcat(s: string, q: string, n: nat)
    requires n <= |s|
    ensures (s + q)[n..] == s[n..] + q
    ensures (s + q)[..n] == s[..n]
  {
  }

  lemma ModernExtends(s: string, q: string)
    ensures ModernLen(s) > 0 ==> ModernLen(s + q) > 0
    ensures ModernLen(s) > 0 && (q == [] || !IsDigit(q[0])) ==> ModernLen(s + q) == ModernLen(s)
  {
    if ModernLen(s) > 0 {
      SpanGrows(s, q, IsDigit);
      DropConcat(s, q, 5);
      SpanGrows(s[5..], q, IsDigit);
    }
  }

  lemma OldExtends(s: string, q: string)
    ensures OldLen(s) > 0 ==> OldLen(s + q) == OldLen(s)
  {
    if OldLen(s) > 0 {
      var a := Span(s, IsArchiveChar);
      var b := a + ClassLen(s[a..]);
      SpanGrows(s, q, IsArchiveChar);
      DropConcat(s, q, a);
      assert ClassLen(s[a..] + q) == ClassLen(s[a..]) by {
        assert s[b] == s[a..][b - a];
      }
      DropConcat(s, q, b + 1);
      SpanGrows(s[b + 1..], q, IsDigit);
    }
  }

  lemma ModernOrOld(s: string)
    ensures ModernLen(s) == 0 || OldLen(s) == 0
    ensures ModernLen(s) > 0 ==> IsDigit(s[0])
    ensures OldLen(s) > 0 ==> IsArchiveChar(s[0])
  {
    if s != [] {
      assert IsDigit(s[0]) ==> !IsArchiveChar(s[0]);
    }
  }

  lemma ArxivIdExtends(s: string, q: string)
    ensures ArxivIdLen(s) > 0 ==> ArxivIdLen(s + q) > 0
    ensures ArxivIdLen(s) > 0 && (q == [] || !IsDigit(q[0])) ==> ArxivIdLen(s + q) == ArxivIdLen(s)
  {
    hide ModernLen, OldLen;
    ModernExtends(s, q);
    OldExtends(s, q);
    ModernOrOld(s);
    ModernOrOld(s + q);
    assert s != [] ==> (s + q)[0] == s[0];
  }

  lemma ModernCut(s: string)
    requires ModernLen(s) > 0
    ensures ModernLen(s[..ModernLen(s)]) == ModernLen(s)
  {
    var n := ModernLen(s);
    var t := s[..n];
    SpanIs(t, IsDigit, 4);
    assert forall i | 0 <= i < n - 5 :: t[5..][i] == s[5..][i];
    SpanIs(t[5..], IsDigit, n - 5);
  }

  lemma OldCut(s: string)
    requires OldLen(s) > 0
    ensures OldLen(s[..OldLen(s)]) == OldLen(s)
  {
    var n := OldLen(s);
    var t := s[..n];
    var a := Span(s, IsArchiveChar);
    var b := a + ClassLen(s[a..]);
    assert n == b + 8;
    SpanIs(t, IsArchiveChar, a);
    var u, v := t[a..], s[a..];
    assert forall i | 0 <= i < |u| :: u[i] == v[i];
    assert ClassLen(u) == b - a;
    hide ClassLen;
    var x, y := t[b + 1..], s[b + 1..];
    assert forall i | 0 <= i < 7 :: x[i] == y[i];
    SpanIs(x, IsDigit, 7);
  }

  /** The text an id pattern matched is an id by itself. */
  lemma ArxivIdCut(s: string)
    requires ArxivIdLen(s) > 0
    ensures IsArxivId(s[..ArxivIdLen(s)])
  {
    hide ModernLen, OldLen;
    if ModernLen(s) > 0 {
      ModernCut(s);
    } else {
      OldCut(s);
      ModernOrOld(s[..OldLen(s)]);
    }
  }

  lemma StartsWithExtends(s: string, q: string, literal: string)
    ensures StartsWith(s, literal) ==> StartsWith(s + q, literal)
  {
    if StartsWith(s, literal) {
      DropConcat(s, q, |literal|);
    }
  }

  lemma AfterPrefixExtends(w: string, q: string)
    ensures ArxivAfterPrefix(w).Some? ==> ArxivAfterPrefix(w + q).Some?
  {
    assert StartsWithPath(w) ==> |w| >= 8;
    hide ArxivIdLen, StartsWith;
    StartsWithExtends(w, q, "org/abs/");
    StartsWithExtends(w, q, "org/pdf/");
    ArxivIdExtends(w, q);
    if StartsWithPath(w) {
      DropConcat(w, q, 8);
      ArxivIdExtends(w[8..], q);
    }
  }

  lemma NoIdInEmpty()
    ensures ArxivAfterPrefix([]) == None
  {
  }

  /** A match in a text is still a match, of some id, when the text goes on. */
  lemma ArxivMatchExtends(s: string, q: string)
    ensures ArxivMatch(s).Some? ==> ArxivMatch(s + q).Some?
  {
    if ArxivMatch(s).Some? {
      hide StartsWith, ArxivAfterPrefix, Span;
      StartsWithExtends(s, q, "arxiv");
      DropConcat(s, q, 6);
      assert (s + q)[5] == s[5];
      var n := Span(s[6..], IsSpace);
      NoIdInEmpty();
      assert s[6..][n..] != [];
      SpanGrows(s[6..], q, IsSpace);
      DropConcat(s[6..], q, n);
      AfterPrefixExtends(s[6..][n..], q);
    }
  }

  // ---- Searching ---------------------------------------------------------

  ghost predicate NoArxiv(s: string) {
    forall i | 0 <= i <= |s| :: ArxivMatch(s[i..]).None?
  }

  lemma {:induction false} ArxivSearchNone(s: string)
    ensures ArxivSearch(s).None? <==> NoArxiv(s)
  {
    hide ArxivMatch;
    assert s[0..] == s;
    if s != [] {
      ArxivSearchNone(s[1..]);
      assert forall i | 0 <= i <= |s[1..]| :: s[1..][i..] == s[i + 1..];
      if NoArxiv(s) {
        forall i | 0 <= i <= |s[1..]| ensures ArxivMatch(s[1..][i..]).None? {
          assert ArxivMatch(s[i + 1..]).None?;
        }
      }
      if ArxivMatch(s).None? && NoArxiv(s[1..]) {
        forall i | 0 <= i <= |s| ensures ArxivMatch(s[i..]).None? {
          if i > 0 { assert ArxivMatch(s[1..][i - 1..]).None?; }
        }
      }
    }
  }

  lemma NoArxivInPart(s: string, part: string, o: nat)
    requires ArxivSearch(s).None? && o <= |s| && part <= s[o..]
    ensures ArxivSearch(part).None?
  {
    hide ArxivSearch, ArxivMatch;
    ArxivSearchNone(s);
    ArxivSearchNone(part);
    forall i | 0 <= i <= |part| ensures ArxivMatch(part[i..]).None? {
      ArxivMatchExtends(part[i..], s[o + |part|..]);
      assert part[i..] + s[o + |part|..] == s[o + i..];
      assert ArxivMatch(s[o + i..]).None?;
    }
  }

  /** A text without arXiv matches has none in any lower-cased part of it either. */
  lemma PartHasNoArxiv(s: string, part: string, o: nat)
    requires ArxivSearch(s).None? && o <= |s| && part <= s[o..]
    ensures ArxivSearch(Lower(part)).None?
  {
    hide ArxivSearch, ArxivMatch;
    NoArxivInPart(s, part, o);
    ArxivSearchNone(part);
    ArxivSearchNone(Lower(part));
    forall i | 0 <= i <= |part| ensures ArxivMatch(Lower(part)[i..]).None? {
      LowerDrop(part, i);
      ArxivMatchLower(part[i..]);
      assert ArxivMatch(part[i..]).None?;
    }
  }

  predicate NotA(c: char) {
    LowerChar(c) != 'a'
  }

  predicate NotD(c: char) {
    LowerChar(c) != 'd'
  }

  lemma ArxivStartsWithA(s: string)
    requires ArxivMatch(s).Some?
    ensures s != [] && LowerChar(s[0]) == 'a'
  {
    assert Lower(s[..5])[0] == "arxiv"[0];
  }

  lemma DoiStartsWithD(s: string)
    requires DoiMatch(s).Some?
    ensures s != [] && LowerChar(s[0]) == 'd'
  {
    if StartsWith(s, "doi.org/") {
      assert Lower(s[..8])[0] == "doi.org/"[0];
    } else {
      assert Lower(s[..3])[0] == "doi"[0];
    }
  }

  /** The search skips a stretch in which the pattern cannot start. */
  lemma {:induction false} ArxivSearchSkips(pre: string, s: string)
    requires All(pre, NotA)
    ensures ArxivSearch(pre + s) == ArxivSearch(s)
  {
    if pre == [] {
      assert pre + s == s;
    } else {
      assert NotA(pre[0]) && (pre + s)[0] == pre[0];
      if ArxivMatch(pre + s).Some? { ArxivStartsWithA(pre + s); }
      assert (pre + s)[1..] == pre[1..] + s;
      ArxivSearchSkips(pre[1..], s);
    }
  }

  lemma {:induction false} DoiSearchSkips(pre: string, s: string)
    requires All(pre, NotD)
    ensures DoiSearch(pre + s) == DoiSearch(s)
  {
    if pre == [] {
      assert pre + s == s;
    } else {
      assert NotD(pre[0]) && (pre + s)[0] == pre[0];
      if DoiMatch(pre + s).Some? { DoiStartsWithD(pre + s); }
      assert (pre + s)[1..] == pre[1..] + s;
      DoiSearchSkips(pre[1..], s);
    }
  }

  /** Nothing that starts with a word and a colon or space is a bare arXiv id. */
  lemma SchemeIsNotBare(word: string, sep: char, rest: string)
    requires All(word, IsArchiveChar) && word != [] && IsColonOrSpace(sep)
    ensures ArxivBare(word + [sep] + rest) == None
  {
    var s := word + [sep] + rest;
    assert s[|word|] == sep;
    assert forall i | 0 <= i < |word| :: s[i] == word[i];
    SpanIs(s, IsArchiveChar, |word|);
    assert s[|word|..][0] == sep;
    assert IsArchiveChar(s[0]) && !IsDigit(s[0]);
  }

  // ---- Words around a citation -------------------------------------------

  /** A text that opens with a word of letters which no arXiv id can run into or through:
      what follows the word and an optional subject class is not a slash. */
  predicate OpensWithWord(t: string) {
    var k := Span(t, IsArchiveChar);
    && k >= 3 && IsAlpha(t[0]) && IsAlpha(t[1]) && IsAlpha(t[2])
    && var b := k + ClassLen(t[k..]);
       b < |t| ==> t[b] != '/'
  }

  lemma ModernStaysInside(v: string, t: string)
    requires t != [] && IsAlpha(t[0])
    ensures ModernLen(v + t) > 0 ==> ModernLen(v) > 0
  {
    var s := v + t;
    if ModernLen(s) > 0 {
      SpanGrows(v, t, IsDigit);
      assert forall i | 0 <= i < 5 :: IsDigit(s[i]) || s[i] == '.';
      assert s[|v|] == t[0];
      DropConcat(v, t, 5);
      SpanGrows(v[5..], t, IsDigit);
      hide Span;
    }
  }

  /** An archive that runs through the word is followed by no slash. */
  lemma ArchiveRunsThrough(v: string, t: string)
    requires OpensWithWord(t) && Span(v, IsArchiveChar) == |v|
    ensures OldLen(v + t) == 0
  {
    var s, k := v + t, Span(t, IsArchiveChar);
    assert forall i | 0 <= i < |v| :: s[i] == v[i];
    assert forall i | 0 <= i < k :: s[|v| + i] == t[i];
    assert |v| + k < |s| ==> s[|v| + k] == t[k];
    SpanIs(s, IsArchiveChar, |v| + k);
    assert s[|v| + k..] == t[k..];
    var b := k + ClassLen(t[k..]);
    assert b < |t| ==> s[|v| + b] == t[b];
  }

  lemma ArchiveEndsInside(v: string, t: string)
    requires OpensWithWord(t) && OldLen(v + t) > 0
    ensures Span(v, IsArchiveChar) == Span(v + t, IsArchiveChar) < |v|
  {
    SpanGrows(v, t, IsArchiveChar);
    hide OldLen, OpensWithWord;
    if Span(v, IsArchiveChar) == |v| {
      ArchiveRunsThrough(v, t);
    }
  }

  lemma OldStaysInside(v: string, t: string)
    requires OpensWithWord(t)
    ensures OldLen(v + t) > 0 ==> OldLen(v) > 0
  {
    var s := v + t;
    if OldLen(s) > 0 {
      ArchiveEndsInside(v, t);
      var a := Span(v, IsArchiveChar);
      var b := a + ClassLen(s[a..]);
      DropConcat(v, t, a);
      assert IsAlpha(t[0]) && IsAlpha(t[1]) && IsAlpha(t[2]);
      hide Span, OpensWithWord;
      SlashIsInside(v, t, a, b);
      DropConcat(v, t, b + 1);
      SpanGrows(v[b + 1..], t, IsDigit);
    }
  }

  lemma SlashIsInside(v: string, t: string, a: nat, b: nat)
    requires a < |v| && |t| >= 3 && IsAlpha(t[0]) && IsAlpha(t[1]) && IsAlpha(t[2])
    requires b == a + ClassLen((v + t)[a..]) < |v + t| && (v + t)[b] == '/'
    ensures b < |v| && b == a + ClassLen(v[a..]) && v[b] == '/'
  {
    var s := v + t;
    assert s[a..] == v[a..] + t;
    assert s[|v|] == t[0] && s[|v| + 1] == t[1] && s[|v| + 2] == t[2];
    assert forall i | 0 <= i < |v| - a :: s[a..][i] == v[a..][i];
  }

  /** No id reaches from `v` into the word behind it. */
  lemma IdStaysInside(v: string, t: string)
    requires OpensWithWord(t)
    ensures ArxivIdLen(v + t) == ArxivIdLen(v)
  {
    ModernStaysInside(v, t);
    OldStaysInside(v, t);
    assert !IsDigit(t[0]);
    hide ModernLen, OldLen, OpensWithWord;
    if ArxivIdLen(v) > 0 {
      ArxivIdExtends(v, t);
    }
  }

  lemma VersionHasNoWord(version: string, k: nat)
    requires k + 1 < |version| && IsAlpha(version[k]) && IsAlpha(version[k + 1])
    ensures !IsVersion(version)
  {
    assert version[1..][k] == version[k + 1];
  }

  lemma BareStaysOutside(v: string, t: string)
    requires OpensWithWord(t)
    ensures ArxivBare(v + t).None?
  {
    IdStaysInside(v, t);
    var n := ArxivIdLen(v);
    assert |t| >= 3 && IsAlpha(t[0]) && IsAlpha(t[1]);
    hide ArxivIdLen, OpensWithWord, IsVersion;
    var version := (v + t)[n..];
    assert version[|v| - n] == t[0] && version[|v| - n + 1] == t[1];
    VersionHasNoWord(version, |v| - n);
  }

  // ---- arXiv identifiers -------------------------------------------------

  lemma ArxivIdShape(id: string)
    requires IsArxivId(id)
    ensures IsAlnum(id[0]) || id[0] == '-'
    ensures forall i | 0 <= i < |id| :: !IsSpace(id[i])
    ensures forall q: string | q == [] || !IsDigit(q[0]) :: !StartsWithPath(id + q)
  {
    if ModernLen(id) > 0 {
      var k := Span(id[5..], IsDigit);
      forall i | 0 <= i < |id| ensures !IsSpace(id[i]) {
        if i > 4 { assert id[i] == id[5..][i - 5]; }
      }
      forall q: string ensures !StartsWithPath(id + q) {
        assert (id + q)[..8][0] == id[0];
      }
    } else {
      OldIdShape(id);
    }
  }

  lemma PathShape(w: string)
    requires StartsWithPath(w)
    ensures |w| >= 8 && IsAlpha(w[0]) && IsAlpha(w[1]) && IsAlpha(w[2]) && w[3] == '/' && !IsDigit(w[4])
    ensures LowerChar(w[4]) == 'p' || (LowerChar(w[4]) == 'a' && LowerChar(w[5]) == 'b')
    ensures forall i | 0 <= i < 8 && i != 4 :: LowerChar(w[i]) != 'a'
  {
    var low := Lower(w[..8]);
    assert forall i | 0 <= i < 8 :: low[i] == LowerChar(w[i]);
    assert low == "org/abs/" || low == "org/pdf/";
    assert low[0] == 'o' && low[1] == 'r' && low[2] == 'g' && low[3] == '/' && IsAlpha(low[4]);
    assert low[4] == 'p' || (low[4] == 'a' && low[5] == 'b');
    assert low[5] == 'b' || low[5] == 'd';
    assert low[6] == 's' || low[6] == 'f';
    assert low[7] == '/';
  }

  lemma OldIdShape(id: string)
    requires IsArxivId(id) && ModernLen(id) == 0
    ensures IsArchiveChar(id[0])
    ensures forall i | 0 <= i < |id| :: !IsSpace(id[i])
    ensures forall q: string :: !StartsWithPath(id + q)
  {
    var a := Span(id, IsArchiveChar);
    var b := a + ClassLen(id[a..]);
    assert forall i | 0 <= i < b - a :: id[a..][i] == id[a + i];
    assert forall i | 0 <= i < b :: id[i] != '/' && !IsSpace(id[i]);
    assert forall i | b < i < |id| :: id[i] == id[b + 1..][i - b - 1];
    assert id[b] == '/' && IsDigit(id[b + 1]);
    hide StartsWithPath, ArxivIdLen, Span;
    forall q: string ensures !StartsWithPath(id + q) {
      assert forall i | 0 <= i < |id| :: (id + q)[i] == id[i];
      if StartsWithPath(id + q) { PathShape(id + q); }
    }
  }

  /** An id stands at the start of whatever follows it, as long as no digit does. */
  lemma IdIsFound(id: string, rest: string)
    requires IsArxivId(id) && (rest == [] || !IsDigit(rest[0]))
    ensures ArxivAfterPrefix(id + rest) == Some(id)
    ensures IsVersion(rest) ==> ArxivBare(id + rest) == Some(id)
    ensures ArxivIdLen(id + rest) == |id|
    ensures !IsSpace((id + rest)[0])
  {
    ArxivIdShape(id);
    ArxivIdExtends(id, rest);
    DropConcat(id, rest, |id|);
    assert id[..|id|] == id && id[|id|..] + rest == rest;
    assert (id + rest)[0] == id[0];
    hide ArxivIdLen, StartsWithPath;
  }

  /** A prefixed id is found, whatever spacing and version suffix it carries. */
  lemma PrefixedIsFound(word: string, sep: char, spaces: string, w: string)
    requires Lower(word) == "arxiv" && (sep == ':' || sep == '.') && All(spaces, IsSpace)
    requires w != [] && !IsSpace(w[0])
    ensures ArxivMatch(word + [sep] + spaces + w) == ArxivAfterPrefix(w)
  {
    hide ArxivAfterPrefix;
    var s := word + [sep] + spaces + w;
    assert |word| == 5 && s[..5] == word && s[5] == sep && s[6..] == spaces + w;
    SpanIs(spaces + w, IsSpace, |spaces|);
    assert (spaces + w)[|spaces|..] == w;
  }

  predicate IsPath(path: string) {
    Lower(path) == "org/abs/" || Lower(path) == "org/pdf/"
  }

  lemma PathIsFound(path: string, w: string)
    requires IsPath(path) && ArxivIdLen(w) > 0
    ensures ArxivAfterPrefix(path + w) == Some(w[..ArxivIdLen(w)])
    ensures StartsWithPath(path + w) && !IsSpace((path + w)[0])
  {
    hide ArxivIdLen;
    assert |path| == 8 && (path + w)[..8] == path && (path + w)[8..] == w;
    PathShape(path + w);
  }

  lemma VersionShape(version: string)
    requires IsVersion(version)
    ensures forall i | 0 <= i < |version| :: !IsSpace(version[i])
  {
    forall i | 0 <= i < |version| ensures !IsSpace(version[i]) {
      if i > 0 { assert version[i] == version[1..][i - 1]; }
    }
  }

  /** How an arXiv paper is cited: inside a text, as a URL (`arxiv.org/abs/`, `arxiv.org/pdf/`
      behind any scheme or none) or with a prefix (`arXiv:`); or as a bare id. */
  datatype ArxivForm =
    | Cited(before: string, word: string, sep: char, spaces: string, path: string, after: string)
    | Bare(before: string, after: string)

  /** The text before holds no arXiv citation of its own, and no digit follows; around a bare
      id there is nothing but space. */
  predicate IsArxivForm(form: ArxivForm) {
    match form
    case Cited(before, word, sep, spaces, path, after) =>
      && ArxivSearch(before).None?
      && IsPrefix(word, sep, spaces, path)
      && (after == [] || !IsDigit(after[0]))
    case Bare(before, after) => All(before, IsSpace) && All(after, IsSpace)
  }

  predicate IsPrefix(word: string, sep: char, spaces: string, path: string) {
    && Lower(word) == "arxiv" && All(spaces, IsSpace)
    && ((sep == ':' && path == []) || ((sep == '.' || sep == ':') && IsPath(path)))
  }

  function SpellArxiv(form: ArxivForm, id: string, version: string): string {
    match form
    case Cited(before, word, sep, spaces, path, after) =>
      before + (word + [sep] + spaces + (path + (id + version))) + after
    case Bare(before, after) => before + (id + version) + after
  }

  /** Stripping a text around a piece that starts and ends in ink. */
  lemma StripAround(a: string, core: string, b: string)
    requires core != [] && !IsSpace(core[0]) && !IsSpace(core[|core| - 1])
    ensures Canonicalize(Some(a + core + b))
         == CanonicalizeStripped(LStrip(a, IsSpace) + core + RStrip(b, IsSpace))
  {
    hide CanonicalizeStripped, IsSpace, LStrip, RStrip;
    var u := LStrip(a, IsSpace);
    assert a + core + b == a + (core + b) && u + (core + b) == (u + core) + b;
    LStripAround(a, core + b);
    RStripAround(u + core, b);
  }

  lemma EmptyIsSpace()
    ensures All([], IsSpace)
  {
  }

  lemma {:induction false} InkStaysPut(s: string)
    requires s != [] && !IsSpace(s[0]) && !IsSpace(s[|s| - 1])
    ensures Canonicalize(Some(s)) == CanonicalizeStripped(s)
  {
    hide *;
    assert All([], IsSpace) by { EmptyIsSpace(); }
    SpaceStripsAway([]);
    StripAround([], s, []);
    assert [] + s + [] == s;
  }

  lemma RawArxivHit(s: string)
    requires ArxivBare(s).None?
    ensures RawArxiv(s) == ArxivSearch(s)
    ensures ArxivMatch(s).Some? ==> ArxivSearch(s) == ArxivMatch(s)
  {
    hide ArxivBare, ArxivMatch;
  }

  /** `t` starts with `arxiv` and a separator, and no id can begin before it and end in it. */
  predicate IsHead(t: string) {
    && |t| > 6 && Lower(t[..5]) == "arxiv" && (t[5] == ':' || t[5] == '.')
    && (t[5] == '.' ==> IsSpace(t[6]) || StartsWithPath(t[6..]))
  }

  lemma HeadShape(t: string)
    requires IsHead(t)
    ensures forall i | 0 <= i < 5 :: LowerChar(t[i]) == "arxiv"[i]
    ensures OpensWithWord(t)
  {
    assert forall i | 0 <= i < 5 :: Lower(t[..5])[i] == LowerChar(t[i]);
    SpanIs(t, IsArchiveChar, 5);
    if t[5] == '.' && !IsSpace(t[6]) {
      PathShape(t[6..]);
      assert t[8] == t[6..][2];
    }
  }

  /** `t` opens with the word of a citation, `arxiv` or `doi`, and no id can begin before it
      and end in it. */
  predicate OpensCitation(t: string) {
    && OpensWithWord(t)
    && (LowerChar(t[0]) == 'a' ==> LowerChar(t[1]) == 'r')
    && (LowerChar(t[0]) == 'd' ==> LowerChar(t[1]) == 'o')
    && (LowerChar(t[0]) == 'a' || LowerChar(t[0]) == 'd')
  }

  lemma HeadOpensCitation(t: string)
    requires IsHead(t)
    ensures OpensCitation(t)
  {
    HeadShape(t);
    hide IsHead, OpensWithWord;
  }

  lemma PathEndsBefore(x: string, t: string)
    requires OpensCitation(t) && StartsWithPath(x + t)
    ensures |x| >= 8
  {
    var low := Lower((x + t)[..8]);
    assert forall i | 0 <= i < 8 :: low[i] == LowerChar((x + t)[i]);
    PathShape(x + t);
    assert low == "org/abs/" || low == "org/pdf/";
    assert low[5] == 'd' ==> low[6] == 'f';
    hide OpensWithWord;
    assert (x + t)[|x|] == t[0] && (x + t)[|x| + 1] == t[1];
  }

  /** The path of a citation does not reach into the next one. */
  lemma AfterPrefixStaysInside(x: string, t: string)
    requires OpensCitation(t)
    ensures ArxivAfterPrefix(x + t) == ArxivAfterPrefix(x)
  {
    assert OpensWithWord(t);
    if StartsWithPath(x + t) { PathEndsBefore(x, t); }
    IdStaysInside(x, t);
    hide ArxivIdLen, OpensCitation, OpensWithWord, StartsWithPath;
    if |x| >= 8 {
      IdStaysInside(x[8..], t);
    }
    AfterPrefixAlike(x, t);
  }

  lemma AfterPrefixAlike(x: string, t: string)
    requires StartsWithPath(x + t) ==> |x| >= 8
    requires ArxivIdLen(x + t) == ArxivIdLen(x)
    requires |x| >= 8 ==> ArxivIdLen(x[8..] + t) == ArxivIdLen(x[8..])
    ensures ArxivAfterPrefix(x + t) == ArxivAfterPrefix(x)
  {
    if StartsWithPath(x) { PathShape(x); }
    SamePath(x, t);
    hide ArxivIdLen, StartsWithPath;
    if |x| >= 8 {
      DropConcat(x, t, 8);
      DropConcat(x[8..], t, ArxivIdLen(x[8..]));
    }
    DropConcat(x, t, ArxivIdLen(x));
  }

  lemma SamePath(x: string, t: string)
    ensures |x| >= 8 ==> StartsWithPath(x + t) == StartsWithPath(x)
  {
    if |x| >= 8 { assert (x + t)[..8] == x[..8]; }
  }

  lemma ArxivEndsBefore(u: string, t: string)
    requires u != [] && t != [] && (LowerChar(t[0]) == 'a' || LowerChar(t[0]) == 'd') && ArxivMatch(u + t).Some?
    ensures |u| >= 6
  {
    var s := u + t;
    var low := Lower(s[..5]);
    assert forall i | 0 <= i < 5 :: low[i] == LowerChar(s[i]);
    assert low[1] == 'r' && low[2] == 'x' && low[3] == 'i' && low[4] == 'v';
    assert s[|u|] == t[0];
  }

  lemma MatchStaysInside(u: string, t: string)
    requires u != [] && OpensCitation(t)
    ensures ArxivMatch(u + t) == ArxivMatch(u)
  {
    assert t != [] && !IsSpace(t[0]) && (LowerChar(t[0]) == 'a' || LowerChar(t[0]) == 'd');
    var s := u + t;
    assert ArxivMatch(u).Some? ==> |u| >= 6;
    if ArxivMatch(s).Some? {
      ArxivEndsBefore(u, t);
    }
    if |u| >= 6 {
      hide OpensCitation, Lower, ArxivAfterPrefix, Span;
      assert s[..5] == u[..5] && s[5] == u[5];
      DropConcat(u, t, 6);
      SpanGrows(u[6..], t, IsSpace);
      var n := Span(u[6..], IsSpace);
      DropConcat(u[6..], t, n);
      AfterPrefixStaysInside(u[6..][n..], t);
    }
  }

  /** A citation is found unless the text before it cites another. */
  lemma {:induction false} SearchReaches(v: string, t: string)
    requires OpensCitation(t)
    ensures ArxivSearch(v + t) == OrElse(ArxivSearch(v), ArxivSearch(t))
  {
    hide ArxivMatch, OpensCitation;
    if v == [] {
      assert v + t == t;
      EmptySearch();
    } else {
      MatchStaysInside(v, t);
      assert (v + t)[1..] == v[1..] + t;
      SearchReaches(v[1..], t);
    }
  }

  lemma {:induction false} SuffixHasNoArxiv(s: string, n: nat)
    requires ArxivSearch(s).None? && n <= |s|
    ensures ArxivSearch(s[n..]).None?
  {
    hide ArxivMatch;
    if n == 0 {
      assert s[0..] == s;
    } else {
      SuffixHasNoArxiv(s[1..], n - 1);
      assert s[1..][n - 1..] == s[n..];
    }
  }

  /** What a citation with its prefix is read as, when no digit follows. */
  lemma PathAndIdAreFound(path: string, id: string, rest: string)
    requires path == [] || IsPath(path)
    requires IsArxivId(id) && (rest == [] || !IsDigit(rest[0]))
    ensures var w := path + (id + rest);
      && w != [] && !IsSpace(w[0]) && ArxivAfterPrefix(w) == Some(id)
      && (path != [] ==> StartsWithPath(w))
  {
    IdIsFound(id, rest);
    hide ArxivAfterPrefix, ArxivIdLen, StartsWithPath;
    assert (id + rest)[..|id|] == id;
    if path == [] {
      assert path + (id + rest) == id + rest;
    } else {
      PathIsFound(path, id + rest);
    }
  }

  lemma PrefixMatches(word: string, sep: char, spaces: string, path: string, id: string, rest: string)
    requires IsPrefix(word, sep, spaces, path) && IsArxivId(id) && (rest == [] || !IsDigit(rest[0]))
    ensures var t := word + [sep] + spaces + (path + (id + rest)); IsHead(t) && ArxivMatch(t) == Some(id)
  {
    var w := path + (id + rest);
    var t := word + [sep] + spaces + w;
    assert IsPath(path) ==> |path| == 8;
    hide IsArxivId, IsPath, StartsWithPath, ArxivAfterPrefix, ArxivMatch;
    PathAndIdAreFound(path, id, rest);
    PrefixedIsFound(word, sep, spaces, w);
    assert |word| == 5 && (sep == ':' || (sep == '.' && path != []));
    hide Lower;
    assert t[..5] == word && t[5] == sep && |t| > 6;
    assert spaces == [] ==> t[6..] == w;
    assert spaces != [] ==> t[6] == spaces[0];
  }

  lemma IdAndVersionAreInk(id: string, version: string)
    requires IsArxivId(id) && IsVersion(version)
    ensures id + version != [] && !IsSpace((id + version)[0]) && !IsSpace((id + version)[|id + version| - 1])
    ensures version == [] || !IsDigit(version[0])
  {
    ArxivIdShape(id);
    VersionShape(version);
    hide ArxivIdLen, StartsWithPath;
  }

  /** A citation with its prefix is read, unless the text before it cites another. */
  lemma HeadIsRead(v: string, t: string, id: string)
    requires ArxivSearch(v).None? && IsHead(t) && ArxivMatch(t) == Some(id)
    ensures RawArxiv(v + t) == Some(id)
  {
    hide *;
    HeadShape(t);
    HeadOpensCitation(t);
    SearchReaches(v, t);
    SearchIsMatch(t);
    OrElseIs(ArxivSearch(v), ArxivSearch(t));
    BareStaysOutside(v, t);
    RawArxivHit(v + t);
  }

  lemma OrElseIs(a: Option<string>, b: Option<string>)
    ensures OrElse(a, b) == if a.Some? then a else b
  {
  }

  lemma SearchIsMatch(s: string)
    ensures ArxivMatch(s).Some? ==> ArxivSearch(s) == ArxivMatch(s)
  {
    hide ArxivMatch;
  }

  lemma CitedIsFound(v: string, word: string, sep: char, spaces: string, path: string, id: string, version: string,
                     after: string)
    requires ArxivSearch(v).None? && IsPrefix(word, sep, spaces, path) && IsArxivId(id) && IsVersion(version)
    requires after == [] || !IsDigit(after[0])
    ensures RawArxiv(v + (word + [sep] + spaces + (path + (id + version))) + after) == Some(id)
  {
    hide *;
    var t := word + [sep] + spaces + (path + (id + (version + after)));
    IdAndVersionAreInk(id, version);
    PrefixMatches(word, sep, spaces, path, id, version + after);
    HeadIsRead(v, t, id);
    assert v + (word + [sep] + spaces + (path + (id + version))) + after == v + t;
  }

  lemma CitedIsInk(word: string, sep: char, spaces: string, path: string, w: string)
    requires IsPrefix(word, sep, spaces, path) && w != [] && !IsSpace(w[|w| - 1])
    ensures var core := word + [sep] + spaces + (path + w);
      core != [] && !IsSpace(core[0]) && !IsSpace(core[|core| - 1])
  {
    var core := word + [sep] + spaces + (path + w);
    assert LowerChar(word[0]) == "arxiv"[0];
    assert core[0] == word[0] && core[|core| - 1] == w[|w| - 1];
  }

  lemma RStripFirst(b: string)
    ensures RStrip(b, IsSpace) == [] || RStrip(b, IsSpace)[0] == b[0]
  {
  }

  lemma BareIsRead(w: string, id: string)
    requires ArxivBare(w) == Some(id)
    ensures RawArxiv(w) == Some(id)
  {
    hide ArxivBare, ArxivSearch;
  }

  lemma {:induction false} BareSpelling(before: string, id: string, version: string, after: string)
    requires IsArxivId(id) && IsVersion(version) && All(before, IsSpace) && All(after, IsSpace)
    ensures Canonicalize(Some(before + (id + version) + after)) == Some("arxiv:" + Lower(id))
  {
    hide *;
    var w := id + version;
    IdAndVersionAreInk(id, version);
    IdIsFound(id, version);
    BareIsRead(w, id);
    SpaceStripsAway(before);
    SpaceStripsAway(after);
    assert [] + w + [] == w;
    ReadInText(before, w, after, id);
  }

  lemma ArxivIsRead(s: string, id: string)
    requires RawArxiv(s) == Some(id)
    ensures CanonicalizeStripped(s) == Some("arxiv:" + Lower(id))
  {
    hide RawArxiv;
  }

  lemma ReadInText(before: string, core: string, after: string, id: string)
    requires core != [] && !IsSpace(core[0]) && !IsSpace(core[|core| - 1])
    requires RawArxiv(LStrip(before, IsSpace) + core + RStrip(after, IsSpace)) == Some(id)
    ensures Canonicalize(Some(before + core + after)) == Some("arxiv:" + Lower(id))
  {
    hide *;
    StripAround(before, core, after);
    ArxivIsRead(LStrip(before, IsSpace) + core + RStrip(after, IsSpace), id);
  }

  lemma LStripHasNoArxiv(before: string)
    requires ArxivSearch(before).None?
    ensures ArxivSearch(LStrip(before, IsSpace)).None?
  {
    var u := LStrip(before, IsSpace);
    hide *;
    SuffixHasNoArxiv(before, |before| - |u|);
  }

  lemma {:induction false} CitedSpelling(before: string, word: string, sep: char, spaces: string, path: string,
                                         id: string, version: string, after: string)
    requires ArxivSearch(before).None? && IsPrefix(word, sep, spaces, path) && IsArxivId(id) && IsVersion(version)
    requires after == [] || !IsDigit(after[0])
    ensures Canonicalize(Some(before + (word + [sep] + spaces + (path + (id + version))) + after))
         == Some("arxiv:" + Lower(id))
  {
    hide *;
    RStripFirst(after);
    IdAndVersionAreInk(id, version);
    LStripHasNoArxiv(before);
    CitedIsInk(word, sep, spaces, path, id + version);
    CitedIsFound(LStrip(before, IsSpace), word, sep, spaces, path, id, version, RStrip(after, IsSpace));
    ReadInText(before, word + [sep] + spaces + (path + (id + version)), after, id);
  }

  /** Every spelling of every arXiv id, with any version suffix, in any text that does not
      cite another paper before it, is one identifier. */
  lemma ArxivSpellingsCollapse(form: ArxivForm, id: string, version: string)
    requires IsArxivId(id) && IsVersion(version) && IsArxivForm(form)
    ensures Canonicalize(Some(SpellArxiv(form, id, version))) == Some("arxiv:" + Lower(id))
  {
    hide IsArxivId, IsVersion, IsPrefix, ArxivSearch, Canonicalize;
    match form {
      case Cited(before, word, sep, spaces, path, after) =>
        CitedSpelling(before, word, sep, spaces, path, id, version, after);
      case Bare(before, after) =>
        BareSpelling(before, id, version, after);
    }
  }

  // ---- Text behind a citation --------------------------------------------

  predicate NotInId(c: char) {
    !IsAlnum(c) && c != '-' && c != '/'
  }

  /** A tail into which no arXiv id can reach. */
  predicate EndsId(q: string) {
    q != [] ==> NotInId(q[0]) && (q[0] == '.' && |q| > 1 ==> !IsAlnum(q[1]))
  }

  lemma ModernEndsBefore(s: string, q: string)
    requires EndsId(q)
    ensures ModernLen(s + q) > 0 ==> ModernLen(s) > 0
  {
    SpanGrows(s, q, IsDigit);
    if |s| >= 5 {
      DropConcat(s, q, 5);
      SpanGrows(s[5..], q, IsDigit);
    } else if |s| == 4 && |q| > 1 {
      assert (s + q)[5..] == q[1..];
      assert (s + q)[4] == q[0];
      assert q[1..][0] == q[1];
    }
  }

  lemma ClassEndsBefore(s: string, q: string)
    requires EndsId(q)
    ensures ClassLen(s + q) == ClassLen(s)
  {
    if |s| < 3 && |s + q| >= 3 {
      assert (s + q)[|s|] == q[0];
      assert |s| == 0 ==> (s + q)[1] == q[1];
    }
  }

  lemma OldParts(s: string, a: nat, b: nat)
    requires a == Span(s, IsArchiveChar) && b == a + ClassLen(s[a..])
    ensures OldLen(s) > 0 <==> a > 0 && b < |s| && s[b] == '/' && Span(s[b + 1..], IsDigit) >= 7
  {
    hide Span, ClassLen;
  }

  lemma OldEndsBefore(s: string, q: string)
    requires EndsId(q)
    ensures OldLen(s + q) > 0 ==> OldLen(s) > 0
  {
    var t := s + q;
    TailIsNoPart(q);
    hide *;
    var a := Span(s, IsArchiveChar);
    var b := a + ClassLen(s[a..]);
    ArchiveEndsBefore(s, q);
    OldParts(s, a, b);
    OldParts(t, a, b);
    if b < |s| {
      DigitsEndBefore(s, q, b);
    } else if b < |t| {
      assert t[b] == q[0];
    }
  }

  lemma ArchiveEndsBefore(s: string, q: string)
    requires EndsId(q)
    ensures var a := Span(s, IsArchiveChar);
      Span(s + q, IsArchiveChar) == a && ClassLen((s + q)[a..]) == ClassLen(s[a..])
  {
    TailIsNoPart(q);
    hide *;
    var a := Span(s, IsArchiveChar);
    SpanGrows(s, q, IsArchiveChar);
    DropConcat(s, q, a);
    ClassEndsBefore(s[a..], q);
  }

  lemma DigitsEndBefore(s: string, q: string, b: nat)
    requires b < |s| && (q == [] || !IsDigit(q[0]))
    ensures Span((s + q)[b + 1..], IsDigit) == Span(s[b + 1..], IsDigit) && (s + q)[b] == s[b]
  {
    hide *;
    DropConcat(s, q, b + 1);
    SpanGrows(s[b + 1..], q, IsDigit);
  }

  lemma TailIsNoPart(q: string)
    requires EndsId(q)
    ensures q != [] ==> !IsArchiveChar(q[0]) && !IsDigit(q[0]) && q[0] != '/'
  {
  }

  lemma IdEndsBefore(s: string, q: string)
    requires EndsId(q)
    ensures ArxivIdLen(s + q) == ArxivIdLen(s)
  {
    ModernEndsBefore(s, q);
    OldEndsBefore(s, q);
    assert q == [] || !IsDigit(q[0]);
    hide ModernLen, OldLen, EndsId;
    if ArxivIdLen(s) > 0 {
      ArxivIdExtends(s, q);
    }
  }

  lemma PathInside(x: string, q: string)
    requires EndsId(q)
    ensures StartsWithPath(x + q) ==> |x| >= 8
  {
    if |x| < 8 && q != [] {
      assert (x + q)[|x|] == q[0];
      StartsWithChar(x + q, "org/abs/", |x|);
      StartsWithChar(x + q, "org/pdf/", |x|);
      assert forall i | 0 <= i < 8 :: !NotInId("org/abs/"[i]) && !NotInId("org/pdf/"[i]);
      assert NotInId(LowerChar(q[0]));
      hide StartsWith;
    }
  }

  lemma AfterPrefixEndsBefore(x: string, q: string)
    requires EndsId(q)
    ensures ArxivAfterPrefix(x + q) == ArxivAfterPrefix(x)
  {
    PathInside(x, q);
    IdEndsBefore(x, q);
    hide ArxivIdLen, EndsId, StartsWithPath;
    if |x| >= 8 {
      IdEndsBefore(x[8..], q);
    }
    AfterPrefixAlike(x, q);
  }

  lemma MatchEndsBefore(u: string, q: string)
    requires |u| > 6 && EndsId(q) && Span(u[6..], IsSpace) < |u| - 6
    ensures ArxivMatch(u + q) == ArxivMatch(u)
  {
    hide EndsId, Lower, ArxivAfterPrefix, Span;
    var s := u + q;
    assert s[..5] == u[..5] && s[5] == u[5];
    DropConcat(u, q, 6);
    SpanGrows(u[6..], q, IsSpace);
    var n := Span(u[6..], IsSpace);
    DropConcat(u[6..], q, n);
    AfterPrefixEndsBefore(u[6..][n..], q);
  }

  predicate IsInk(c: char) {
    !IsSpace(c)
  }

  /** What a text without space names, it names in front of such a tail as well. */
  lemma {:induction false} SearchEndsBefore(s: string, q: string)
    requires ArxivSearch(s).Some? && All(s, IsInk) && EndsId(q)
    ensures ArxivSearch(s + q) == ArxivSearch(s)
  {
    LongEnough(s);
    assert Span(s[6..], IsSpace) == 0 by { assert IsInk(s[6..][0]); }
    hide ArxivMatch, EndsId;
    MatchEndsBefore(s, q);
    if ArxivMatch(s).None? {
      assert (s + q)[1..] == s[1..] + q;
      SearchEndsBefore(s[1..], q);
    }
  }

  lemma {:induction false} LongEnough(s: string)
    requires ArxivSearch(s).Some?
    ensures |s| > 6
  {
    if ArxivMatch(s).None? {
      LongEnough(s[1..]);
    } else {
      NoIdInEmpty();
    }
  }

  lemma NoIdInBlank(q: string)
    requires All(q, NotInId)
    ensures ArxivAfterPrefix(q) == None
  {
    if StartsWithPath(q) { PathShape(q); }
    assert q != [] ==> NotInId(q[0]);
  }

  lemma BlankMatches(q: string, n: nat)
    requires n <= |q| && All(q, NotInId)
    ensures ArxivAfterPrefix(q[n..]) == None
  {
    NoIdInBlank(q[n..]);
  }

  lemma NothingInBlank(u: string, q: string)
    requires All(q, NotInId) && |u| < 6
    ensures ArxivMatch(u + q).None? && ArxivMatch(u).None?
  {
    var s := u + q;
    if StartsWith(s, "arxiv") && |s| > 5 {
      assert |u| < 5 ==> Lower(s[..5])[|u|] == "arxiv"[|u|] && s[|u|] == q[0] && NotInId(q[0]);
      assert |u| == 5;
      assert s[6..] == q[1..];
      BlankMatches(q, 1 + Span(q[1..], IsSpace));
      assert q[1..][Span(q[1..], IsSpace)..] == q[1 + Span(q[1..], IsSpace)..];
    }
  }

  /** The end of a text that holds neither letters nor digits cannot name anything. */
  lemma MatchIgnoresBlank(u: string, q: string)
    requires All(q, NotInId)
    ensures ArxivMatch(u + q) == ArxivMatch(u)
  {
    assert EndsId(q);
    hide EndsId;
    if |u| < 6 {
      NothingInBlank(u, q);
    } else if Span(u[6..], IsSpace) < |u| - 6 {
      MatchEndsBefore(u, q);
    } else {
      SpacesThenBlank(u, q);
    }
  }

  lemma SpacesThenBlank(u: string, q: string)
    requires All(q, NotInId) && |u| >= 6 && Span(u[6..], IsSpace) == |u| - 6
    ensures ArxivMatch(u + q) == ArxivMatch(u) == None
  {
    hide *;
    SpacesThenNothing(u);
    DropConcat(u, q, 6);
    SpacesRunOn(u[6..], q);
    var n := Span(u[6..] + q, IsSpace);
    BlankMatches(q, n - (|u| - 6));
    NoMatchWithoutId(u + q);
  }

  lemma SpacesThenNothing(u: string)
    requires |u| >= 6 && Span(u[6..], IsSpace) == |u| - 6
    ensures ArxivMatch(u) == None
  {
    hide *;
    NoIdInEmpty();
    assert u[6..][|u| - 6..] == [];
    NoMatchWithoutId(u);
  }

  lemma SpacesRunOn(x: string, q: string)
    requires Span(x, IsSpace) == |x|
    ensures var n := Span(x + q, IsSpace); |x| <= n && (x + q)[n..] == q[n - |x|..]
  {
    hide IsSpace;
    SpanGrows(x, q, IsSpace);
    hide Span;
  }

  lemma NoMatchWithoutId(s: string)
    requires |s| >= 6 && ArxivAfterPrefix(s[6..][Span(s[6..], IsSpace)..]) == None
    ensures ArxivMatch(s) == None
  {
  }

  lemma {:induction false} SearchIgnoresBlank(s: string, q: string)
    requires All(q, NotInId)
    ensures ArxivSearch(s + q) == ArxivSearch(s)
  {
    EmptySearch();
    hide ArxivMatch;
    MatchIgnoresBlank(s, q);
    if s == [] {
      assert s + q == q && q + [] == q;
      assert All(q, NotA);
      ArxivSearchSkips(q, []);
    } else {
      assert (s + q)[1..] == s[1..] + q;
      SearchIgnoresBlank(s[1..], q);
    }
  }

  // ---- DOIs --------------------------------------------------------------

  predicate IsDoiPrefix(word: string, sep: string) {
    Lower(word) == "doi" && ((sep != [] && All(sep, IsColonOrSpace)) || Lower(sep) == ".org/")
  }

  /** How a DOI is cited: inside a text, as a URL (`doi.org/` behind any scheme or host part)
      or with a prefix (`doi:`); or bare. Sentence punctuation may follow it directly. */
  datatype DoiForm =
    | DoiCited(before: string, word: string, sep: string, punctuation: string, after: string)
    | DoiBare(before: string, punctuation: string, after: string)

  /** The text before holds no DOI of its own, whole or running into the word, and what
      follows cannot be part of one; around a bare DOI there is nothing but space. */
  predicate IsDoiForm(form: DoiForm) {
    && All(form.punctuation, IsDoiTrailing)
    && match form
       case DoiCited(before, word, sep, _, after) =>
         && DoiSearch(before + "d").None? && DoiLen(LStrip(before, IsSpace) + "d") == 0
         && IsDoiPrefix(word, sep)
         && (after == [] || !IsDoiChar(after[0]))
       case DoiBare(before, _, after) => All(before, IsSpace) && All(after, IsSpace)
  }

  function SpellDoi(form: DoiForm, doi: string): string {
    match form
    case DoiCited(before, word, sep, punctuation, after) =>
      before + (word + sep + (doi + punctuation)) + after
    case DoiBare(before, punctuation, after) => before + (doi + punctuation) + after
  }

  predicate SamePaper(a: Option<string>, b: Option<string>) {
    match (a, b)
    case (Some(x), Some(y)) => Lower(x) == Lower(y)
    case (None, None) => true
    case _ => false
  }

  /** Nothing but the DOI names a paper: what stands before it names none, or the same one;
      and if the DOI names none, what follows does not make it name one. */
  predicate NoOtherPaper(before: string, doi: string, tail: string) {
    if ArxivSearch(before).Some? then SamePaper(ArxivSearch(before), ArxivSearch(doi))
    else ArxivSearch(doi).Some? || ArxivSearch(doi + tail).None?
  }

  predicate OnlyDoiNamesPaper(form: DoiForm, doi: string) {
    match form
    case DoiCited(before, _, _, punctuation, after) => NoOtherPaper(before, doi, punctuation + after)
    case DoiBare(_, _, _) => true
  }

  /** The one identifier of a DOI: its own, or that of the arXiv paper it names. */
  function DoiIdentity(doi: string): string {
    var paper := ArxivSearch(doi);
    if paper.Some? then "arxiv:" + Lower(paper.value) else "doi:" + CleanDoi(doi)
  }

  lemma DoiShape(doi: string)
    requires IsDoi(doi)
    ensures |doi| > 8 && doi[0] == '1' && ArxivIdLen(doi) == 0
    ensures forall i | 0 <= i < |doi| :: !IsSpace(doi[i])
  {
    var r := RegistrantLen(doi);
    assert doi[..3][0] == '1' && doi[..3][1] == '0' && doi[..3][2] == '.';
    var d := Span(doi[3..], IsDigit);
    forall i | 0 <= i < |doi| ensures !IsSpace(doi[i]) {
      if 3 <= i < 3 + d { assert IsDigit(doi[3..][i - 3]); }
      if r <= i { assert IsDoiChar(doi[r..][i - r]); }
    }
    SpanIs(doi, IsDigit, 2);
  }

  lemma NotDoiByHead(s: string)
    requires s == [] || s[0] != '1'
    ensures DoiLen(s) == 0 && !IsDoi(s)
  {
    if |s| > 3 { assert s[..3][0] == s[0]; }
  }

  lemma DoiMatchPrefixed(s: string)
    requires |s| > 3 && Lower(s[..3]) == "doi" && IsColonOrSpace(s[3])
    ensures var w := s[3..][Span(s[3..], IsColonOrSpace)..];
            DoiMatch(s) == if DoiLen(w) > 0 then Some(w[..DoiLen(w)]) else None
  {
    hide DoiLen, Lower;
    StartsWithChar(s, "doi.org/", 3);
    assert "doi.org/"[3] == '.';
    assert !StartsWith(s, "doi.org/") && StartsWith(s, "doi");
    assert s[3..][0] == s[3];
    assert Span(s[3..], IsColonOrSpace) > 0;
    hide StartsWith, Span, IsColonOrSpace;
  }

  lemma DoiPrefixMatches(word: string, sep: string, w: string)
    requires IsDoiPrefix(word, sep) && DoiLen(w) > 0 && !IsColonOrSpace(w[0])
    ensures DoiMatch(word + sep + w) == Some(w[..DoiLen(w)])
  {
    var s := word + sep + w;
    assert |word| == 3 by { hide DoiLen, All; }
    hide DoiLen, IsColonOrSpace, Span;
    if Lower(sep) == ".org/" {
      assert |sep| == 5 && s[8..] == w;
      assert s[..8] == word + sep && Lower(word + sep) == "doi.org/" by { LowerConcat(word, sep); }
    } else {
      hide Lower, DoiMatch;
      assert s[..3] == word && s[3..] == sep + w && s[3] == sep[0];
      assert (sep + w)[|sep|..] == w;
      assert forall i | 0 <= i < |sep| :: IsColonOrSpace((sep + w)[i]);
      hide All;
      SpanIs(sep + w, IsColonOrSpace, |sep|);
      DoiMatchPrefixed(s);
    }
  }

  lemma SeparatorShape(sep: string)
    requires (sep != [] && All(sep, IsColonOrSpace)) || Lower(sep) == ".org/"
    ensures sep != [] && !IsArchiveChar(sep[0]) && All(sep, NotA)
    ensures sep[0] == '.' ==> |sep| == 5 && IsAlpha(sep[1]) && IsAlpha(sep[2]) && IsAlpha(sep[3])
    ensures sep[0] != '/'
  {
    if Lower(sep) == ".org/" {
      assert |sep| == 5 && forall i | 0 <= i < 5 :: LowerChar(sep[i]) == ".org/"[i];
      assert ".org/"[0] == '.' && ".org/"[1] == 'o' && ".org/"[2] == 'r' && ".org/"[3] == 'g' && ".org/"[4] == '/';
      assert sep[0] == '.' && IsAlpha(sep[1]) && IsAlpha(sep[2]) && IsAlpha(sep[3]);
    } else {
      assert IsColonOrSpace(sep[0]);
    }
  }

  lemma DoiWord(word: string)
    requires Lower(word) == "doi"
    ensures |word| == 3 && LowerChar(word[0]) == 'd' && All(word, NotA) && All(word, IsAlpha)
  {
    assert forall i | 0 <= i < 3 :: LowerChar(word[i]) == "doi"[i];
    assert "doi"[0] == 'd' && "doi"[1] == 'o' && "doi"[2] == 'i';
  }

  /** The word `doi` with its separator, as the start of a text. */
  lemma DoiHead(word: string, sep: string, w: string)
    requires IsDoiPrefix(word, sep)
    ensures var t := word + sep + w;
      && OpensWithWord(t) && LowerChar(t[0]) == 'd' && !IsSpace(t[0]) && t[0] != '1'
      && All(word + sep, NotA)
  {
    var t := word + sep + w;
    DoiWord(word);
    SeparatorShape(sep);
    hide Lower, IsColonOrSpace, NotA;
    assert forall i | 0 <= i < 3 :: t[i] == word[i];
    assert t[3..] == sep + w && t[3] == sep[0];
    SpanIs(t, IsArchiveChar, 3);
    hide Span;
    assert sep[0] == '.' ==> t[6] == sep[3];
  }

  // What stands before the word `doi` cannot reach into it.

  lemma RegistrantInside(w: string, t: string)
    requires t != [] && LowerChar(t[0]) == 'd'
    ensures RegistrantLen(w + t) == RegistrantLen(w)
  {
    var s := w + t;
    assert s[|w|] == t[0];
    if |w| < 3 {
      assert |s| >= 3 ==> s[..3][|w|] == t[0];
      assert "10."[0] == '1' && "10."[1] == '0' && "10."[2] == '.';
    } else {
      assert s[..3] == w[..3] && s[3..] == w[3..] + t;
      SpanGrows(w[3..], t, IsDigit);
      assert forall i | 0 <= i < |w| :: s[i] == w[i];
      hide Span;
    }
  }

  lemma DoiReaches(w: string, t: string)
    requires t != [] && LowerChar(t[0]) == 'd'
    ensures DoiLen(w + t) > 0 ==> DoiLen(w + "d") > 0
  {
    RegistrantInside(w, t);
    RegistrantInside(w, "d");
    var r := RegistrantLen(w);
    if r > 0 {
      hide RegistrantLen;
      assert (w + t)[r..] == w[r..] + t && (w + "d")[r..] == w[r..] + "d";
      assert (w[r..] + t)[0] == if r < |w| then w[r] else t[0];
      assert (w[r..] + "d")[0] == if r < |w| then w[r] else 'd';
    }
  }

  lemma DoiEndsBefore(u: string, t: string)
    requires u != [] && t != [] && LowerChar(t[0]) == 'd'
    ensures StartsWith(u + t, "doi.org/") ==> |u| >= 8
    ensures StartsWith(u + t, "doi") ==> |u| >= 3
  {
    var s := u + t;
    assert s[|u|] == t[0];
    if |u| < 8 { StartsWithChar(s, "doi.org/", |u|); }
    if |u| < 3 { StartsWithChar(s, "doi", |u|); }
    assert forall i | 1 <= i < 8 :: "doi.org/"[i] != 'd';
    assert forall i | 1 <= i < 3 :: "doi"[i] != 'd';
    hide StartsWith;
  }

  lemma StartsWithTake(u: string, t: string, literal: string)
    requires |u| >= |literal|
    ensures StartsWith(u + t, literal) == StartsWith(u, literal)
  {
    assert (u + t)[..|literal|] == u[..|literal|];
  }

  lemma UrlReaches(u: string, t: string)
    requires u != [] && t != [] && LowerChar(t[0]) == 'd'
    requires StartsWith(u + t, "doi.org/") && DoiLen((u + t)[8..]) > 0
    ensures DoiMatch(u + "d").Some?
  {
    DoiEndsBefore(u, t);
    StartsWithTake(u, t, "doi.org/");
    StartsWithTake(u, "d", "doi.org/");
    hide StartsWith, Span, DoiLen;
    DropConcat(u, t, 8);
    DropConcat(u, "d", 8);
    DoiReaches(u[8..], t);
  }

  lemma SeparatorInside(u: string, t: string)
    requires u != [] && t != [] && LowerChar(t[0]) == 'd'
    requires StartsWith(u + t, "doi") && Span((u + t)[3..], IsColonOrSpace) > 0
    ensures |u| > 3 && Lower(u[..3]) == "doi" && IsColonOrSpace(u[3])
    ensures Span((u + t)[3..], IsColonOrSpace) == Span(u[3..], IsColonOrSpace)
  {
    var s := u + t;
    DoiEndsBefore(u, t);
    assert s[|u|] == t[0] && !IsColonOrSpace(t[0]);
    assert IsColonOrSpace(s[3..][0]) && s[3..][0] == s[3];
    assert s[..3] == u[..3] && s[3..] == u[3..] + t;
    hide Span, IsColonOrSpace;
    SpanGrows(u[3..], t, IsColonOrSpace);
  }

  lemma PrefixReaches(u: string, t: string)
    requires u != [] && t != [] && LowerChar(t[0]) == 'd'
    requires StartsWith(u + t, "doi")
    requires var n := Span((u + t)[3..], IsColonOrSpace); n > 0 && DoiLen((u + t)[3..][n..]) > 0
    ensures DoiMatch(u + "d").Some?
  {
    var x := u + "d";
    SeparatorInside(u, t);
    assert !IsColonOrSpace('d');
    hide StartsWith, Span, DoiLen, DoiMatch, IsColonOrSpace, Lower;
    assert x[..3] == u[..3] && x[3] == u[3];
    DropConcat(u, t, 3);
    DropConcat(u, "d", 3);
    SpanGrows(u[3..], "d", IsColonOrSpace);
    var n := Span(u[3..], IsColonOrSpace);
    DropConcat(u[3..], t, n);
    DropConcat(u[3..], "d", n);
    DoiReaches(u[3..][n..], t);
    DoiMatchPrefixed(x);
  }

  lemma DoiMatchReaches(u: string, t: string)
    requires u != [] && t != [] && LowerChar(t[0]) == 'd'
    ensures DoiMatch(u + t).Some? ==> DoiMatch(u + "d").Some?
  {
    var s := u + t;
    if DoiMatch(s).Some? {
      hide StartsWith, Span, DoiLen;
      if StartsWith(s, "doi.org/") && DoiLen(s[8..]) > 0 {
        UrlReaches(u, t);
      } else {
        PrefixReaches(u, t);
      }
    }
  }

  lemma {:induction false} DoiSearchReaches(v: string, t: string)
    requires DoiSearch(v + "d").None? && DoiMatch(t).Some? && t != [] && LowerChar(t[0]) == 'd'
    ensures DoiSearch(v + t) == DoiMatch(t)
  {
    hide DoiMatch;
    if v == [] {
      assert v + t == t;
    } else {
      DoiMatchReaches(v, t);
      assert (v + t)[1..] == v[1..] + t && (v + "d")[1..] == v[1..] + "d";
      DoiSearchReaches(v[1..], t);
    }
  }

  lemma {:induction false} SuffixHasNoDoi(s: string, n: nat)
    requires DoiSearch(s).None? && n <= |s|
    ensures DoiSearch(s[n..]).None?
  {
    hide DoiMatch;
    if n == 0 {
      assert s[0..] == s;
    } else {
      SuffixHasNoDoi(s[1..], n - 1);
      assert s[1..][n - 1..] == s[n..];
    }
  }

  lemma SpanOfParts(a: string, b: string, c: string, p: char -> bool)
    requires All(a, p) && All(b, p) && (c == [] || !p(c[0]))
    ensures Span(a + b + c, p) == |a| + |b|
  {
    var s := a + b + c;
    assert forall i | 0 <= i < |a| + |b| :: s[i] == if i < |a| then a[i] else b[i - |a|];
    assert c != [] ==> s[|a| + |b|] == c[0];
    SpanIs(s, p, |a| + |b|);
  }

  lemma DoiSuffix(doi: string)
    requires IsDoi(doi)
    ensures 0 < RegistrantLen(doi) < |doi| && All(doi[RegistrantLen(doi)..], IsDoiChar)
  {
  }

  lemma DoiLenIs(s: string, k: nat)
    requires RegistrantLen(s) > 0 && Span(s[RegistrantLen(s)..], IsDoiChar) == k > 0
    ensures DoiLen(s) == RegistrantLen(s) + k
  {
    hide RegistrantLen, Span;
  }

  lemma DoiLenOfParts(doi: string, punctuation: string, after: string)
    requires IsDoi(doi) && All(punctuation, IsDoiTrailing) && (after == [] || !IsDoiChar(after[0]))
    ensures DoiLen(doi + punctuation + after) == |doi + punctuation|
  {
    var r, s := RegistrantLen(doi), doi + punctuation + after;
    DoiSuffix(doi);
    RegistrantAsPrefix(doi, punctuation + after);
    assert s == doi + (punctuation + after);
    assert s[r..] == doi[r..] + punctuation + after;
    assert All(punctuation, IsDoiChar);
    hide RegistrantLen, DoiLen, IsDoi, IsDoiChar;
    SpanOfParts(doi[r..], punctuation, after, IsDoiChar);
    DoiLenIs(s, |doi| - r + |punctuation|);
  }

  /** A DOI, its punctuation and whatever cannot be part of it. */
  lemma DoiAndPunctuation(doi: string, punctuation: string, after: string)
    requires IsDoi(doi) && All(punctuation, IsDoiTrailing) && (after == [] || !IsDoiChar(after[0]))
    ensures DoiLen(doi + punctuation + after) == |doi + punctuation| && IsDoi(doi + punctuation)
    ensures CleanDoi(doi + punctuation) == CleanDoi(doi)
  {
    hide DoiLen, CleanDoi;
    assert doi + punctuation + [] == doi + punctuation;
    DoiLenOfParts(doi, punctuation, after);
    DoiLenOfParts(doi, punctuation, []);
    CleanDropsPunctuation(doi, punctuation);
  }

  lemma RegistrantAsPrefix(doi: string, q: string)
    requires RegistrantLen(doi) > 0
    ensures RegistrantLen(doi + q) == RegistrantLen(doi)
  {
    assert (doi + q)[..3] == doi[..3] && (doi + q)[3..] == doi[3..] + q;
    SpanGrows(doi[3..], q, IsDigit);
    hide Span;
  }

  lemma CleanDropsPunctuation(doi: string, punctuation: string)
    requires All(punctuation, IsDoiTrailing)
    ensures CleanDoi(doi + punctuation) == CleanDoi(doi)
  {
    var t := RStrip(doi, IsDoiTrailing);
    var p := doi + punctuation;
    assert forall i | |t| <= i < |p| :: p[i] == if i < |doi| then doi[i] else punctuation[i - |doi|];
    assert t != [] ==> p[|t| - 1] == t[|t| - 1];
    hide RStrip;
    RStripIs(p, IsDoiTrailing, |t|);
    assert p[..|t|] == t;
  }

  /** The DOI patterns find the DOI with its punctuation. */
  lemma {:induction false} CitedDoiIsFound(v: string, word: string, sep: string, doi: string, punctuation: string,
                                           w: string)
    requires DoiSearch(v + "d").None? && DoiLen(v + "d") == 0 && IsDoiPrefix(word, sep)
    requires IsDoi(doi) && All(punctuation, IsDoiTrailing) && (w == [] || !IsDoiChar(w[0]))
    ensures RawDoi(v + (word + sep + (doi + punctuation)) + w) == Some(doi + punctuation)
  {
    var p := doi + punctuation;
    var t := word + sep + (p + w);
    assert v + (word + sep + p) + w == v + t;
    DoiAndPunctuation(doi, punctuation, w);
    DoiShape(doi);
    assert (p + w)[0] == doi[0] && (p + w)[..|p|] == p;
    assert !IsColonOrSpace('1');
    DoiHead(word, sep, p + w);
    assert t != [];
    hide *;
    DoiPrefixMatches(word, sep, p + w);
    DoiSearchReaches(v, t);
    DoiReaches(v, t);
    RawDoiIsSearch(v + t);
  }

  lemma RawDoiIsSearch(s: string)
    ensures DoiLen(s) == 0 ==> RawDoi(s) == DoiSearch(s)
  {
    hide DoiSearch, DoiLen;
  }

  lemma DoiIsInkAll(doi: string)
    requires IsDoi(doi)
    ensures All(doi, IsInk)
  {
    DoiShape(doi);
    hide IsDoi, IsSpace;
  }

  lemma TailEndsId(punctuation: string, w: string)
    requires All(punctuation, IsDoiTrailing) && (w == [] || !IsDoiChar(w[0]))
    ensures EndsId(punctuation + w)
  {
    var q := punctuation + w;
    assert punctuation == [] ==> q == w;
    assert punctuation != [] ==> q[0] == punctuation[0];
    assert |punctuation| > 1 ==> q[1] == punctuation[1];
    assert |punctuation| == 1 && w != [] ==> q[1] == w[0];
  }

  lemma StripKeepsPaper(before: string, after: string, doi: string)
    ensures ArxivSearch(LStrip(before, IsSpace)) == ArxivSearch(before)
    ensures ArxivSearch(doi + RStrip(after, IsSpace)) == ArxivSearch(doi + after)
  {
    hide *;
    var front, v := SpaceInFront(before);
    var w, back := SpaceBehind(after);
    SpaceNamesNothing(front);
    SpaceNamesNothing(back);
    ArxivSearchSkips(front, v);
    SeqAssociative(doi, w, back);
    SearchIgnoresBlank(doi + w, back);
  }

  lemma SpaceInFront(s: string) returns (front: string, v: string)
    ensures v == LStrip(s, IsSpace) && s == front + v && All(front, IsSpace)
  {
    v := LStrip(s, IsSpace);
    front := s[..|s| - |v|];
    hide IsSpace, LStrip;
  }

  lemma SpaceBehind(s: string) returns (w: string, back: string)
    ensures w == RStrip(s, IsSpace) && s == w + back && All(back, IsSpace)
  {
    w := RStrip(s, IsSpace);
    back := s[|w|..];
    hide IsSpace, RStrip;
  }

  lemma SpaceNamesNothing(s: string)
    requires All(s, IsSpace)
    ensures All(s, NotA) && All(s, NotInId)
  {
  }

  /** What the arXiv patterns find in a text that cites a DOI: what stands before it, else
      what the DOI names, else what the DOI and the text behind it do. */
  lemma {:induction false} PaperInText(v: string, word: string, sep: string, doi: string, tail: string)
    requires IsDoiPrefix(word, sep) && IsDoi(doi) && EndsId(tail)
    ensures RawArxiv(v + (word + sep + (doi + tail)))
         == OrElse(ArxivSearch(v), OrElse(ArxivSearch(doi), ArxivSearch(doi + tail)))
  {
    var t := word + sep + (doi + tail);
    hide *;
    DoiOpensCitation(word, sep, doi + tail);
    BareStaysOutside(v, t);
    RawArxivHit(v + t);
    SearchReaches(v, t);
    ArxivSearchSkips(word + sep, doi + tail);
    DoiIsInkAll(doi);
    if ArxivSearch(doi).Some? {
      SearchEndsBefore(doi, tail);
    }
    OrElseIs(ArxivSearch(v), ArxivSearch(t));
    OrElseIs(ArxivSearch(doi), ArxivSearch(doi + tail));
  }

  lemma DoiOpensCitation(word: string, sep: string, w: string)
    requires IsDoiPrefix(word, sep)
    ensures OpensCitation(word + sep + w) && OpensWithWord(word + sep + w) && All(word + sep, NotA)
  {
    var t := word + sep + w;
    DoiHead(word, sep, w);
    DoiWord(word);
    assert LowerChar(word[1]) == "doi"[1];
    assert t[0] == word[0] && t[1] == word[1];
    hide OpensWithWord;
  }

  lemma CitedDoiNames(before: string, word: string, sep: string, doi: string, punctuation: string, after: string)
    requires IsDoiPrefix(word, sep) && IsDoi(doi) && All(punctuation, IsDoiTrailing)
    requires after == [] || !IsDoiChar(after[0])
    ensures var core := word + sep + (doi + punctuation);
      RawArxiv(LStrip(before, IsSpace) + core + RStrip(after, IsSpace))
      == OrElse(ArxivSearch(before), OrElse(ArxivSearch(doi), ArxivSearch(doi + (punctuation + after))))
  {
    hide *;
    var v, w := LStrip(before, IsSpace), RStrip(after, IsSpace);
    RStripFirst(after);
    TailEndsId(punctuation, w);
    PaperInText(v, word, sep, doi, punctuation + w);
    StripKeepsPaper(before, after, doi + punctuation);
    Regroup(v, word + sep, doi, punctuation, w);
    SeqAssociative(doi, punctuation, w);
    SeqAssociative(doi, punctuation, after);
  }

  lemma Regroup(a: string, b: string, c: string, d: string, e: string)
    ensures a + (b + (c + d)) + e == a + (b + (c + (d + e)))
  {
  }

  lemma DoiIsReadIff(s: string, doi: string, punctuation: string)
    requires RawDoi(s) == Some(doi + punctuation) && CleanDoi(doi + punctuation) == CleanDoi(doi)
    ensures CanonicalizeStripped(s) == Some(DoiIdentity(doi)) <==> SamePaper(RawArxiv(s), ArxivSearch(doi))
  {
    hide RawArxiv, RawDoi, ArxivSearch, CleanDoi, Lower;
    assert forall a: string, b: string :: "arxiv:" + a == "arxiv:" + b ==> a == b by {
      forall a: string, b: string | "arxiv:" + a == "arxiv:" + b ensures a == b {
        assert ("arxiv:" + a)[6..] == a && ("arxiv:" + b)[6..] == b;
      }
    }
    assert forall a: string, b: string :: "arxiv:" + a != "doi:" + b by {
      forall a: string, b: string ensures "arxiv:" + a != "doi:" + b {
        assert ("arxiv:" + a)[0] == 'a' && ("doi:" + b)[0] == 'd';
      }
    }
  }

  lemma DoiIsInk(word: string, sep: string, doi: string, punctuation: string)
    requires IsDoiPrefix(word, sep) && IsDoi(doi) && All(punctuation, IsDoiTrailing)
    ensures var core := word + sep + (doi + punctuation);
      core != [] && !IsSpace(core[0]) && !IsSpace(core[|core| - 1])
    ensures var core := doi + punctuation;
      core != [] && !IsSpace(core[0]) && !IsSpace(core[|core| - 1])
  {
    DoiShape(doi);
    DoiHead(word, sep, doi + punctuation);
    hide IsDoi, IsDoiPrefix, OpensWithWord;
    var core := doi + punctuation;
    assert core[|core| - 1] == if punctuation == [] then doi[|doi| - 1] else punctuation[|punctuation| - 1];
    assert (word + sep + core)[|word + sep + core| - 1] == core[|core| - 1];
  }

  lemma {:induction false} CitedDoiSpelling(before: string, word: string, sep: string, doi: string,
                                            punctuation: string, after: string)
    requires IsDoiPrefix(word, sep) && IsDoi(doi) && All(punctuation, IsDoiTrailing)
    requires DoiSearch(before + "d").None? && DoiLen(LStrip(before, IsSpace) + "d") == 0
    requires after == [] || !IsDoiChar(after[0])
    ensures Canonicalize(Some(before + (word + sep + (doi + punctuation)) + after)) == Some(DoiIdentity(doi))
       <==> NoOtherPaper(before, doi, punctuation + after)
  {
    hide *;
    var v, w := LStrip(before, IsSpace), RStrip(after, IsSpace);
    var core := word + sep + (doi + punctuation);
    RStripFirst(after);
    DoiAndPunctuation(doi, punctuation, after);
    assert v + "d" == (before + "d")[|before| - |v|..];
    SuffixHasNoDoi(before + "d", |before| - |v|);
    DoiIsInk(word, sep, doi, punctuation);
    CitedDoiIsFound(v, word, sep, doi, punctuation, w);
    CitedDoiNames(before, word, sep, doi, punctuation, after);
    StripAround(before, core, after);
    DoiIsReadIff(v + core + w, doi, punctuation);
    NoOtherPaperIff(before, doi, punctuation + after);
  }

  lemma NoOtherPaperIff(before: string, doi: string, tail: string)
    ensures NoOtherPaper(before, doi, tail)
       <==> SamePaper(OrElse(ArxivSearch(before), OrElse(ArxivSearch(doi), ArxivSearch(doi + tail))),
                      ArxivSearch(doi))
  {
    hide ArxivSearch, Lower;
  }

  lemma BareDoiIsFound(p: string)
    requires IsDoi(p)
    ensures RawDoi(p) == Some(p) && ArxivBare(p).None? && RawArxiv(p) == ArxivSearch(p)
  {
    DoiShape(p);
    hide ArxivSearch, DoiSearch;
  }

  lemma BareDoiIsInk(doi: string, punctuation: string)
    requires IsDoi(doi) && All(punctuation, IsDoiTrailing)
    ensures var core := doi + punctuation;
      core != [] && !IsSpace(core[0]) && !IsSpace(core[|core| - 1])
  {
    assert Lower("doi") == "doi" && IsColonOrSpace(':') && IsDoiPrefix("doi", ":");
    hide *;
    DoiIsInk("doi", ":", doi, punctuation);
  }

  lemma {:induction false} BareDoiSpelling(before: string, doi: string, punctuation: string, after: string)
    requires IsDoi(doi) && All(punctuation, IsDoiTrailing) && All(before, IsSpace) && All(after, IsSpace)
    ensures Canonicalize(Some(before + (doi + punctuation) + after)) == Some(DoiIdentity(doi))
  {
    hide *;
    var p := doi + punctuation;
    PunctuationNamesNothing(punctuation);
    DoiAndPunctuation(doi, punctuation, []);
    BareDoiIsInk(doi, punctuation);
    BareDoiIsFound(p);
    SearchIgnoresBlank(doi, punctuation);
    SpaceStripsAway(before);
    SpaceStripsAway(after);
    assert [] + p + [] == p;
    StripAround(before, p, after);
    SamePaperAsItself(ArxivSearch(doi));
    DoiIsReadIff(p, doi, punctuation);
  }

  lemma PunctuationNamesNothing(s: string)
    requires All(s, IsDoiTrailing)
    ensures All(s, NotInId)
  {
  }

  lemma SamePaperAsItself(a: Option<string>)
    ensures SamePaper(a, a)
  {
  }

  /** Every spelling of a DOI is its one identifier exactly when nothing else in the text
      names a paper; bare, with or without punctuation, it always is. */
  lemma DoiSpellingsCollapse(form: DoiForm, doi: string)
    requires IsDoi(doi) && IsDoiForm(form)
    ensures Canonicalize(Some(SpellDoi(form, doi))) == Some(DoiIdentity(doi)) <==> OnlyDoiNamesPaper(form, doi)
  {
    hide DoiSearch, DoiLen, IsDoiPrefix, ArxivSearch, All, Canonicalize, IsDoi, LStrip, DoiIdentity, NoOtherPaper;
    match form {
      case DoiCited(before, word, sep, punctuation, after) =>
        CitedDoiSpelling(before, word, sep, doi, punctuation, after);
      case DoiBare(before, punctuation, after) =>
        BareDoiSpelling(before, doi, punctuation, after);
    }
  }

  predicate IsSuffixChar(c: char) {
    IsAlnum(c) || c == '-' || c == '.' || c == '/'
  }

  lemma ModernCharacters(id: string)
    requires IsArxivId(id) && ModernLen(id) > 0
    ensures All(id, IsSuffixChar)
  {
    assert |id| == ModernLen(id) && id[4] == '.';
    forall i | 0 <= i < |id| ensures IsSuffixChar(id[i]) {
      if i > 4 { assert id[i] == id[5..][i - 5]; }
    }
  }

  lemma ClassCharacters(s: string)
    ensures forall i | 0 <= i < ClassLen(s) :: IsSuffixChar(s[i])
  {
  }

  lemma ArchiveIsSuffix(c: char)
    ensures IsArchiveChar(c) || IsDigit(c) || c == '/' ==> IsSuffixChar(c)
  {
  }

  lemma OldCharacters(id: string, a: nat, b: nat)
    requires a == Span(id, IsArchiveChar) && b == a + ClassLen(id[a..]) < |id| && id[b] == '/'
    requires Span(id[b + 1..], IsDigit) >= |id| - b - 1
    ensures All(id, IsSuffixChar)
  {
    ClassCharacters(id[a..]);
    hide ClassLen, IsSuffixChar, IsArchiveChar, IsDigit, Span;
    forall i | 0 <= i < |id| ensures IsSuffixChar(id[i]) {
      ArchiveIsSuffix(id[i]);
      if a <= i < b { assert id[i] == id[a..][i - a]; }
      if b < i { assert id[i] == id[b + 1..][i - b - 1]; }
    }
  }

  lemma IdCharacters(id: string)
    requires IsArxivId(id)
    ensures All(id, IsSuffixChar)
  {
    hide Span, ClassLen, All;
    if ModernLen(id) > 0 {
      ModernCharacters(id);
    } else {
      var a := Span(id, IsArchiveChar);
      OldParts(id, a, a + ClassLen(id[a..]));
      OldCharacters(id, a, a + ClassLen(id[a..]));
    }
  }

  lemma SuffixMakesDoi(suffix: string)
    requires suffix != [] && All(suffix, IsDoiChar)
    ensures IsDoi("10.48550/" + suffix)
  {
    var s := "10.48550/" + suffix;
    assert s[..3] == "10.";
    SpanIs(s[3..], IsDigit, 5);
    assert RegistrantLen(s) == 9 && s[9..] == suffix;
    hide RegistrantLen;
    SpanIs(suffix, IsDoiChar, |suffix|);
  }

  lemma ArxivDoiIsDoi(id: string)
    requires IsArxivId(id)
    ensures IsDoi("10.48550/arXiv." + id) && "10.48550/arXiv." + id == "10.48550/" + ("arXiv" + ['.'] + "" + id)
  {
    IdCharacters(id);
    var suffix := "arXiv." + id;
    assert "10.48550/" + suffix == "10.48550/arXiv." + id && "arXiv" + ['.'] + "" + id == suffix;
    assert All(suffix, IsDoiChar) by {
      forall i | 0 <= i < |suffix| ensures IsDoiChar(suffix[i]) {
        if i >= 6 { assert suffix[i] == id[i - 6]; }
      }
    }
    hide IsArxivId, IsDoi;
    SuffixMakesDoi(suffix);
  }

  /** The DOI an arXiv paper has names that paper: both have one identifier. */
  lemma ArxivDoiNamesItsPaper(id: string)
    requires IsArxivId(id)
    ensures IsDoi("10.48550/arXiv." + id) && ArxivSearch("10.48550/arXiv." + id) == Some(id)
    ensures DoiIdentity("10.48550/arXiv." + id) == "arxiv:" + Lower(id)
  {
    assert Lower("arXiv") == "arxiv" && All("", IsSpace) && All("10.48550/", NotA) && id + [] == id;
    hide IsArxivId, IsDoi, ArxivMatch, ArxivSearch, ArxivAfterPrefix, Lower, All;
    ArxivDoiIsDoi(id);
    var t := "arXiv" + ['.'] + "" + id;
    IdIsFound(id, []);
    PrefixedIsFound("arXiv", '.', "", id);
    SearchIsMatch(t);
    ArxivSearchSkips("10.48550/", t);
  }

  // ---- Idempotence -------------------------------------------------------

  lemma {:induction false} ArxivSearchIsId(s: string)
    requires ArxivSearch(s).Some?
    ensures IsArxivId(ArxivSearch(s).value)
  {
    if ArxivMatch(s).Some? {
      var w := s[6..][Span(s[6..], IsSpace)..];
      if ArxivIdLen(w) > 0 { ArxivIdCut(w); }
      if |w| >= 8 && ArxivIdLen(w[8..]) > 0 { ArxivIdCut(w[8..]); }
    } else {
      ArxivSearchIsId(s[1..]);
    }
  }

  lemma RawArxivIsId(s: string)
    requires RawArxiv(s).Some?
    ensures IsArxivId(RawArxiv(s).value)
  {
    hide ArxivSearch, IsArxivId;
    if ArxivBare(s).Some? {
      ArxivIdCut(s);
    } else {
      ArxivSearchIsId(s);
    }
  }

  lemma DoiCut(s: string)
    requires DoiLen(s) > 0
    ensures IsDoi(s[..DoiLen(s)])
  {
    var n, r := DoiLen(s), RegistrantLen(s);
    RegistrantPrefix(s, n);
    assert s[r..][..n - r] == s[..n][r..] by { SliceOfTake(s, n, r, n); }
    SpanCut(s[r..], IsDoiChar, n - r);
    hide Span, RegistrantLen;
  }

  lemma DoiMatchIsDoi(s: string) returns (o: nat)
    requires DoiMatch(s).Some?
    ensures IsDoi(DoiMatch(s).value)
    ensures o <= |s| && DoiMatch(s).value <= s[o..]
  {
    if StartsWith(s, "doi.org/") && DoiLen(s[8..]) > 0 {
      DoiCut(s[8..]);
      o := 8;
    } else {
      var k := Span(s[3..], IsColonOrSpace);
      DoiCut(s[3..][k..]);
      o := 3 + k;
      assert s[3..][k..] == s[o..];
    }
  }

  /** The text found by the DOI patterns is a DOI, and stands in the searched text. */
  lemma {:induction false} DoiSearchIsDoi(s: string) returns (o: nat)
    requires DoiSearch(s).Some?
    ensures IsDoi(DoiSearch(s).value)
    ensures o <= |s| && DoiSearch(s).value <= s[o..]
  {
    hide DoiMatch, IsDoi;
    if DoiMatch(s).Some? {
      o := DoiMatchIsDoi(s);
    } else {
      o := DoiSearchIsDoi(s[1..]);
      assert s[1..][o..] == s[o + 1..];
      o := o + 1;
    }
  }

  lemma RawDoiIsDoi(s: string) returns (o: nat)
    requires RawDoi(s).Some?
    ensures IsDoi(RawDoi(s).value)
    ensures o <= |s| && RawDoi(s).value <= s[o..]
  {
    hide DoiSearch;
    if IsDoi(s) {
      o := 0;
    } else {
      o := DoiSearchIsDoi(s);
    }
  }

  /** The suffix of a DOI consists of nothing but the punctuation that is stripped. */
  predicate OnlyPunctuation(doi: string)
    requires IsDoi(doi)
  {
    All(doi[RegistrantLen(doi)..], IsDoiTrailing)
  }

  lemma RegistrantLower(s: string)
    ensures RegistrantLen(Lower(s)) == RegistrantLen(s)
  {
    if |s| > 3 {
      LowerDrop(s, 3);
      SpanLower(s[3..], IsDigit);
      assert Lower(s)[..3] == "10." <==> s[..3] == "10." by {
        assert forall i | 0 <= i < 3 :: Lower(s)[..3][i] == LowerChar(s[..3][i]);
        assert "10."[0] == '1' && "10."[1] == '0' && "10."[2] == '.';
      }
    }
  }

  lemma DoiLower(s: string)
    ensures RegistrantLen(Lower(s)) == RegistrantLen(s) && DoiLen(Lower(s)) == DoiLen(s)
  {
    hide RegistrantLen, Span;
    RegistrantLower(s);
    var r := RegistrantLen(s);
    LowerDrop(s, r);
    SpanLower(s[r..], IsDoiChar);
  }

  lemma RegistrantSlash(doi: string)
    requires RegistrantLen(doi) > 0
    ensures doi[RegistrantLen(doi) - 1] == '/'
  {
    assert doi[3 + Span(doi[3..], IsDigit)] == '/';
  }

  /** Cleaning keeps the registrant; it keeps a whole DOI unless only punctuation follows. */
  lemma CleanDoiShape(doi: string)
    requires IsDoi(doi)
    ensures var r := RegistrantLen(doi);
      && CleanDoi(doi) == Lower(doi[..|CleanDoi(doi)|])
      && r <= |CleanDoi(doi)| <= |doi|
      && (|CleanDoi(doi)| == r <==> OnlyPunctuation(doi))
      && CleanDoi(CleanDoi(doi)) == CleanDoi(doi)
  {
    var r := RegistrantLen(doi);
    var t := RStrip(doi, IsDoiTrailing);
    RegistrantSlash(doi);
    assert 0 < r <= |doi|;
    hide RegistrantLen, DoiLen;
    assert !IsDoiTrailing(doi[r - 1]);
    if |t| == r {
      assert forall i | 0 <= i < |doi| - r :: doi[r..][i] == doi[r + i];
    } else {
      assert doi[r..][|t| - 1 - r] == t[|t| - 1];
    }
    CleanIsClean(t);
  }

  lemma CleanIsClean(t: string)
    requires t != [] && !IsDoiTrailing(t[|t| - 1])
    ensures CleanDoi(Lower(t)) == Lower(t)
  {
    LowerIdempotent(t);
    assert Lower(t)[|t| - 1] == LowerChar(t[|t| - 1]);
    RStripIs(Lower(t), IsDoiTrailing, |t|);
  }

  /** Cutting a text at or after the end of a span, or inside it. */
  lemma SpanCut(s: string, p: char -> bool, n: nat)
    requires n <= |s|
    ensures Span(s[..n], p) == if Span(s, p) <= n then Span(s, p) else n
  {
    SpanIs(s[..n], p, if Span(s, p) <= n then Span(s, p) else n);
  }

  lemma RegistrantPrefix(doi: string, n: nat)
    requires 0 < RegistrantLen(doi) <= n <= |doi|
    ensures RegistrantLen(doi[..n]) == RegistrantLen(doi)
  {
    var t := doi[..n];
    SliceOfTake(doi, n, 0, 3);
    SliceOfTake(doi, n, 3, n);
    assert t[0..3] == doi[..3] && doi[3..][..n - 3] == t[3..];
    SpanCut(doi[3..], IsDigit, n - 3);
    hide Span;
  }

  /** A DOI cut anywhere inside its suffix is a DOI. */
  lemma DoiPrefix(doi: string, n: nat)
    requires IsDoi(doi) && RegistrantLen(doi) < n <= |doi|
    ensures IsDoi(doi[..n])
  {
    var r, t := RegistrantLen(doi), doi[..n];
    RegistrantPrefix(doi, n);
    assert doi[r..][..n - r] == t[r..] by { SliceOfTake(doi, n, r, n); }
    SpanCut(doi[r..], IsDoiChar, n - r);
    hide Span, RegistrantLen;
  }

  lemma CleanDoiIsDoi(doi: string)
    requires IsDoi(doi) && !OnlyPunctuation(doi)
    ensures IsDoi(CleanDoi(doi))
  {
    CleanDoiShape(doi);
    var n := |CleanDoi(doi)|;
    var t := doi[..n];
    hide CleanDoi, OnlyPunctuation, RegistrantLen, Span;
    DoiPrefix(doi, n);
    DoiLower(t);
  }

  /** The DOI pattern's find whose suffix is stripped to nothing. */
  predicate StripsToNothing(candidate: string) {
    && RawArxiv(candidate).None?
    && RawDoi(candidate).Some?
    && IsDoi(RawDoi(candidate).value)
    && OnlyPunctuation(RawDoi(candidate).value)
  }

  lemma ColonForm(id: string)
    ensures "" + ("arxiv" + [':'] + "" + ("" + (id + ""))) + "" == "arxiv:" + id
  {
    assert "" + (id + "") == id;
    assert "arxiv" + [':'] == "arxiv:";
  }

  lemma CanonicalArxivIsFixed(id: string)
    requires IsArxivId(id)
    ensures Canonicalize(Some("arxiv:" + Lower(id))) == Some("arxiv:" + Lower(id))
  {
    var form, low := Cited("", "arxiv", ':', "", "", ""), Lower(id);
    ArxivIdLenLower(id);
    LowerIdempotent(id);
    assert IsArxivId(low) && IsVersion("");
    assert Lower("arxiv") == "arxiv";
    EmptySearch();
    assert IsArxivForm(form) by { hide ArxivSearch, Lower; }
    assert SpellArxiv(form, low, "") == "arxiv:" + low by { ColonForm(low); }
    hide *;
    ArxivSpellingsCollapse(form, low, "");
  }

  lemma DoiIdentityOf(doi: string)
    requires CleanDoi(doi) == doi && ArxivSearch(doi).None?
    ensures DoiIdentity(doi) == "doi:" + doi
  {
    hide CleanDoi, ArxivSearch;
  }

  lemma NoDoiInD()
    ensures DoiSearch("d").None? && DoiLen("d") == 0 && LStrip("", IsSpace) == ""
  {
    NotDoiByHead("d");
    assert DoiMatch("d") == None;
    EmptySearch();
    DoiSearchStep("d");
  }

  lemma DoiColonText(doi: string)
    ensures "" + ("doi" + ":" + (doi + "")) + "" == "doi:" + doi
  {
    assert "doi" + ":" == "doi:";
    assert "doi:" + (doi + "") == "doi:" + doi;
  }

  lemma DoiColonIsPrefix()
    ensures IsDoiPrefix("doi", ":")
  {
    assert Lower("doi") == "doi" && IsColonOrSpace(':');
  }

  lemma EmptyText()
    ensures All("", IsDoiTrailing)
    ensures "" + "d" == "d"
  {
  }

  lemma NothingAround(doi: string)
    ensures NoOtherPaper("", doi, "" + "")
  {
    EmptySearch();
    hide ArxivSearch;
    assert doi + ("" + "") == doi;
  }

  lemma CanonicalDoiIsFixed(doi: string)
    requires CleanDoi(doi) == doi && ArxivSearch(doi).None? && IsDoi(doi)
    ensures Canonicalize(Some("doi:" + doi)) == Some("doi:" + doi)
  {
    hide *;
    NoDoiInD();
    EmptyText();
    DoiColonIsPrefix();
    DoiColonText(doi);
    DoiIdentityOf(doi);
    NothingAround(doi);
    CitedDoiSpelling("", "doi", ":", doi, "", "");
  }

  lemma BareRegistrantHasNoArxiv(doi: string, b: string)
    requires IsDoi(doi) && b == Lower(doi[..RegistrantLen(doi)])
    ensures RawArxiv("doi:" + b) == None
  {
    DoiShape(doi);
    RegistrantShape(doi);
    var s := "doi:" + b;
    assert All(s, NotA) by {
      hide IsDoi, RegistrantLen;
      forall i | 0 <= i < |s| ensures NotA(s[i]) {
        if i >= 4 { assert s[i] == LowerChar(doi[i - 4]); }
      }
    }
    assert All("doi", IsArchiveChar) && IsColonOrSpace(':');
    assert s == "doi" + [':'] + b;
    hide All, ArxivBare, ArxivSearch, Lower, IsDoi;
    SchemeIsNotBare("doi", ':', b);
    ArxivSearchSkips(s, "");
    assert s + "" == s;
    EmptySearch();
  }

  /** `doi:10.NNNN/` with nothing after the slash is not an identifier. */
  lemma BareRegistrantIsNothing(doi: string, b: string)
    requires IsDoi(doi) && b == Lower(doi[..RegistrantLen(doi)])
    ensures Canonicalize(Some("doi:" + b)) == None
  {
    DoiShape(doi);
    RegistrantShape(doi);
    var r, s := RegistrantLen(doi), "doi:" + b;
    assert b[0] == LowerChar(doi[0]) && b[r - 1] == LowerChar(doi[r - 1]);
    assert s[|s| - 1] == '/';
    BareRegistrantHasNoArxiv(doi, b);
    BareRegistrantHasNoDoi(doi, b);
    NotDoiByHead(s);
    assert CanonicalizeStripped(s) == None by {
      hide IsDoi, ArxivBare, ArxivSearch, DoiSearch;
    }
    hide *;
    InkStaysPut(s);
  }

  lemma EmptySearch()
    ensures ArxivSearch("") == None && DoiSearch("") == None
  {
  }

  lemma RegistrantShape(doi: string)
    requires RegistrantLen(doi) > 0
    ensures doi[RegistrantLen(doi) - 1] == '/'
    ensures forall i | 0 <= i < RegistrantLen(doi) ::
      IsDigit(doi[i]) || doi[i] == '.' || doi[i] == '/'
  {
    var d := Span(doi[3..], IsDigit);
    assert doi[..3][0] == '1' && doi[..3][1] == '0' && doi[..3][2] == '.';
    forall i | 0 <= i < RegistrantLen(doi) ensures IsDigit(doi[i]) || doi[i] == '.' || doi[i] == '/' {
      if 3 <= i < 3 + d { assert IsDigit(doi[3..][i - 3]); }
    }
  }

  lemma RegistrantAlone(doi: string, b: string)
    requires IsDoi(doi) && b == Lower(doi[..RegistrantLen(doi)])
    ensures DoiLen(b) == 0
  {
    var r := RegistrantLen(doi);
    var t := doi[..r];
    var d := Span(doi[3..], IsDigit);
    assert t[..3] == doi[..3];
    assert forall i | 0 <= i < r - 3 :: t[3..][i] == doi[3..][i];
    SpanIs(t[3..], IsDigit, d);
    assert t[r..] == [];
    DoiLower(t);
  }

  lemma DoiSearchStep(s: string)
    requires s != [] && DoiMatch(s).None?
    ensures DoiSearch(s) == DoiSearch(s[1..])
  {
  }

  lemma PrefixedNothing(b: string)
    requires DoiLen(b) == 0 && b != [] && !IsColonOrSpace(b[0])
    ensures DoiMatch("doi:" + b) == None
  {
    var s := "doi:" + b;
    hide DoiLen, DoiMatch;
    assert s[..3] == "doi" && Lower("doi") == "doi" && s[3..] == ":" + b;
    SpanIs(":" + b, IsColonOrSpace, 1);
    assert (":" + b)[1..] == b;
    DoiMatchPrefixed(s);
  }

  lemma BareRegistrantHead(doi: string, b: string)
    requires IsDoi(doi) && b == Lower(doi[..RegistrantLen(doi)])
    ensures DoiLen(b) == 0 && b != [] && !IsColonOrSpace(b[0])
    ensures All("oi:" + b, NotD)
  {
    RegistrantAlone(doi, b);
    RegistrantShape(doi);
    DoiShape(doi);
    hide DoiLen, IsDoi, RegistrantLen, Lower;
    assert b[0] == LowerChar(doi[0]) == '1';
    var t := "oi:" + b;
    forall i | 0 <= i < |t| ensures NotD(t[i]) {
      if i >= 3 { assert t[i] == LowerChar(doi[i - 3]); }
    }
  }

  lemma BareRegistrantHasNoDoi(doi: string, b: string)
    requires IsDoi(doi) && b == Lower(doi[..RegistrantLen(doi)])
    ensures DoiSearch("doi:" + b) == None
  {
    var s, t := "doi:" + b, "oi:" + b;
    BareRegistrantHead(doi, b);
    assert s[1..] == t && t + "" == t;
    hide *;
    PrefixedNothing(b);
    DoiSearchSkips(t, "");
    EmptySearch();
    DoiSearchStep(s);
  }

  /** Canonicalizing an identifier gives it back, for every text except one whose DOI
      suffix is nothing but stripped punctuation. */
  lemma CanonicalizeIdempotentIff(text: string)
    ensures Canonicalize(Canonicalize(Some(text))) == Canonicalize(Some(text))
       <==> !StripsToNothing(Strip(text, IsSpace))
  {
    var s := Strip(text, IsSpace);
    if text == [] {
      assert s == [];
      EmptySearch();
      assert !StripsToNothing(s);
    } else {
      CanonicalizeStrippedIdempotentIff(s);
    }
  }

  lemma CanonicalizeStrippedIdempotentIff(s: string)
    ensures Canonicalize(CanonicalizeStripped(s)) == CanonicalizeStripped(s)
       <==> !StripsToNothing(s)
  {
    hide RawArxiv, RawDoi, IsDoi, IsArxivId, OnlyPunctuation, CleanDoi;
    if RawArxiv(s).Some? {
      RawArxivIsId(s);
      CanonicalArxivIsFixed(RawArxiv(s).value);
    } else if RawDoi(s).Some? {
      var doi := RawDoi(s).value;
      var o := RawDoiIsDoi(s);
      CleanDoiShape(doi);
      if OnlyPunctuation(doi) {
        BareRegistrantIsNothing(doi, CleanDoi(doi));
      } else {
        CleanDoiIsDoi(doi);
        NoArxivInClean(s, doi, o);
        CanonicalDoiIsFixed(CleanDoi(doi));
      }
    }
  }

  lemma PunctuatedRegistrant(b: string)
    requires RegistrantLen(b) == |b| > 0
    ensures var doi := b + ".";
      && IsDoi(doi) && CleanDoi(doi) == b == Lower(doi[..RegistrantLen(doi)]) && ArxivSearch(doi).None?
  {
    var doi, r := b + ".", |b|;
    RegistrantThenDot(b);
    RegistrantShape(b);
    assert doi[..r] == b && doi[r..] == ".";
    assert Lower(b) == b by {
      assert forall i | 0 <= i < r :: LowerChar(b[i]) == b[i];
    }
    assert IsDoi(doi) by {
      hide RegistrantLen;
      SpanIs(".", IsDoiChar, 1);
    }
    hide ArxivSearch, RegistrantLen, Span, IsDoi, ArxivIdLen;
    assert CleanDoi(doi) == b by {
      RStripIs(doi, IsDoiTrailing, r);
    }
    assert All(doi, NotA);
    ArxivSearchSkips(doi, "");
    assert doi + "" == doi;
    EmptySearch();
  }

  lemma RegistrantThenDot(b: string)
    requires RegistrantLen(b) == |b| > 0
    ensures RegistrantLen(b + ".") == |b|
  {
    var doi := b + ".";
    assert doi[..3] == b[..3] && doi[3..] == b[3..] + ".";
    SpanGrows(b[3..], ".", IsDigit);
    hide Span;
  }

  lemma DoiIdentityIs(doi: string)
    ensures ArxivSearch(doi).None? ==> DoiIdentity(doi) == "doi:" + CleanDoi(doi)
    ensures var form := DoiBare("", "", "");
      IsDoiForm(form) && OnlyDoiNamesPaper(form, doi) && SpellDoi(form, doi) == doi
  {
    hide ArxivSearch, CleanDoi;
    assert "" + (doi + "") + "" == doi;
  }

  lemma BareDoiIdentity(doi: string)
    requires IsDoi(doi) && ArxivSearch(doi).None?
    ensures Canonicalize(Some(doi)) == Some("doi:" + CleanDoi(doi))
  {
    hide *;
    DoiIdentityIs(doi);
    DoiSpellingsCollapse(DoiBare("", "", ""), doi);
  }

  /** The failing text at its smallest: the identifier of `10.1234/.` is no identifier. */
  lemma IdempotenceFails()
    ensures Canonicalize(Some("10.1234/.")) == Some("doi:10.1234/") && Canonicalize(Some("doi:10.1234/")) == None
    ensures StripsToNothing(Strip("10.1234/.", IsSpace))
  {
    var b, doi := "10.1234/", "10.1234/.";
    assert b[..3] == "10." && doi == b + "." && "doi:" + b == "doi:10.1234/";
    SpanIs(b[3..], IsDigit, 4);
    PunctuatedRegistrant(b);
    hide *;
    BareDoiIdentity(doi);
    BareRegistrantIsNothing(doi, b);
    CanonicalizeIdempotentIff(doi);
  }

  lemma StrippedIdentifier(text: string)
    requires StripsToNothing(Strip(text, IsSpace))
    ensures Canonicalize(Some(text))
         == Some("doi:" + CleanDoi(RawDoi(Strip(text, IsSpace)).value))
  {
    hide ArxivSearch, DoiSearch, ArxivBare, CleanDoi, OnlyPunctuation, DoiLen;
    if text == [] {
      NotDoiByHead("");
      EmptySearch();
    }
  }

  lemma NoArxivInClean(s: string, doi: string, o: nat)
    requires RawArxiv(s).None? && IsDoi(doi) && o <= |s| && doi <= s[o..]
    ensures ArxivSearch(CleanDoi(doi)).None?
  {
    hide IsDoi, ArxivSearch, CleanDoi;
    CleanDoiShape(doi);
    PartHasNoArxiv(s, doi[..|CleanDoi(doi)|], o);
  }
}
