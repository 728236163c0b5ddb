/** The same identifiers without the matching: which texts are ids, versions and DOIs, by
    their positions; what it is to cite one; and that `canonicalize` reads exactly these. */
module CanonicalForms {
  import opened Wrappers
  import opened Text
  import opened Canonical

  // ---- arXiv ids ---------------------------------------------------------

  /** Four digits, a dot, four or five digits. */
  predicate IsModernId(s: string) {
    && (|s| == 9 || |s| == 10) && s[4] == '.'
    && forall k | 0 <= k < |s| && k != 4 :: '0' <= s[k] <= '9'
  }

  /** Letters and hyphens up to `a`, perhaps a dot and two letters up to `b`, a slash and
      seven digits. */
  predicate IsOldIdAt(s: string, a: nat, b: nat) {
    && 0 < a <= b && |s| == b + 8 && s[b] == '/'
    && (forall k | 0 <= k < a :: IsAlpha(s[k]) || s[k] == '-')
    && (b == a || (b == a + 3 && s[a] == '.' && IsAlpha(s[a + 1]) && IsAlpha(s[a + 2])))
    && forall k | b < k < |s| :: '0' <= s[k] <= '9'
  }

  ghost predicate IsPaperId(s: string) {
    IsModernId(s) || exists a: nat, b: nat :: IsOldIdAt(s, a, b)
  }

  lemma ModernLenIs(s: string)
    ensures ModernLen(s) == |s| && s != [] <==> IsModernId(s)
  {
    if IsModernId(s) {
      SpanIs(s, IsDigit, 4);
      assert forall k | 0 <= k < |s| - 5 :: s[5..][k] == s[5 + k];
      SpanIs(s[5..], IsDigit, |s| - 5);
    }
    if ModernLen(s) == |s| && s != [] {
      var t := s[5..];
      forall k | 0 <= k < |s| && k != 4 ensures '0' <= s[k] <= '9' {
        if k > 4 { assert IsDigit(t[k - 5]) && s[k] == t[k - 5]; } else { assert IsDigit(s[k]); }
      }
    }
  }

  lemma OldLenIs(s: string, a: nat, b: nat)
    requires IsOldIdAt(s, a, b)
    ensures OldLen(s) == |s| > 0
  {
    assert !IsArchiveChar(s[a]);
    SpanIs(s, IsArchiveChar, a);
    var u := s[a..];
    assert forall k | 0 <= k < |u| :: u[k] == s[a + k];
    assert ClassLen(u) == b - a;
    var t := s[b + 1..];
    assert forall k | 0 <= k < |t| :: t[k] == s[b + 1 + k];
    hide ClassLen;
    SpanIs(t, IsDigit, 7);
  }

  lemma OldLenGives(s: string) returns (a: nat, b: nat)
    requires OldLen(s) == |s| > 0
    ensures IsOldIdAt(s, a, b)
  {
    a := Span(s, IsArchiveChar);
    var u := s[a..];
    b := a + ClassLen(u);
    var t := s[b + 1..];
    assert forall k | 0 <= k < |u| :: u[k] == s[a + k];
    assert forall k | 0 <= k < |t| :: t[k] == s[b + 1 + k];
    forall k | b < k < |s| ensures '0' <= s[k] <= '9' {
      assert IsDigit(t[k - b - 1]);
    }
  }

  /** The matcher's ids are exactly the texts of these two shapes. */
  lemma PaperIdIff(s: string)
    ensures IsArxivId(s) <==> IsPaperId(s)
  {
    ModernLenIs(s);
    ModernOrOld(s);
    hide ModernLen, OldLen, IsModernId, IsOldIdAt;
    if IsArxivId(s) && ModernLen(s) == 0 {
      var a, b := OldLenGives(s);
    }
    if a: nat, b: nat :| IsOldIdAt(s, a, b) {
      OldLenIs(s, a, b);
      NotBoth(s);
    }
  }

  lemma NotBoth(s: string)
    requires OldLen(s) > 0
    ensures ModernLen(s) == 0 && s != []
  {
    ModernOrOld(s);
  }

  /** `id` is the longest paper id that `s` starts with. */
  ghost predicate StartsWithId(s: string, id: string) {
    && id <= s && IsPaperId(id)
    && forall m | 0 <= m <= |s| && IsPaperId(s[..m]) :: m <= |id|
  }

  lemma ShorterId(s: string, m: nat)
    requires m <= |s| && IsArxivId(s[..m])
    ensures 0 < m <= ArxivIdLen(s)
  {
    var p, q := s[..m], s[m..];
    assert s == p + q;
    assert m > 0;
    if ModernLen(p) > 0 {
      ModernExtends(p, q);
      ModernGrows(p, q);
    } else {
      OldExtends(p, q);
      ModernOrOld(s);
    }
    hide ModernLen, OldLen;
  }

  lemma ModernGrows(p: string, q: string)
    requires ModernLen(p) == |p| > 0
    ensures ModernLen(p + q) >= |p|
  {
    SpanGrows(p, q, IsDigit);
    DropConcat(p, q, 5);
    SpanGrows(p[5..], q, IsDigit);
    hide Span;
  }

  lemma IdLenIff(s: string, id: string)
    ensures StartsWithId(s, id) <==> ArxivIdLen(s) > 0 && id == s[..ArxivIdLen(s)]
  {
    hide ArxivIdLen, IsPaperId;
    forall m | 0 <= m <= |s| ensures IsPaperId(s[..m]) <==> IsArxivId(s[..m]) { PaperIdIff(s[..m]); }
    forall m | 0 <= m <= |s| && IsArxivId(s[..m]) ensures 0 < m <= ArxivIdLen(s) { ShorterId(s, m); }
    if StartsWithId(s, id) {
      assert id == s[..|id|];
    }
    if ArxivIdLen(s) > 0 {
      ArxivIdCut(s);
    }
  }

  predicate IsVersionText(v: string) {
    v == [] || (|v| >= 2 && (v[0] == 'v' || v[0] == 'V') && forall k | 0 < k < |v| :: '0' <= v[k] <= '9')
  }

  lemma VersionIff(v: string)
    ensures IsVersion(v) <==> IsVersionText(v)
  {
    if |v| >= 2 {
      var t := v[1..];
      assert forall k | 0 <= k < |t| :: t[k] == v[k + 1];
      if IsVersionText(v) {
        assert forall k | 0 < k < |v| :: '0' <= v[k] <= '9';
        SpanIs(t, IsDigit, |t|);
      }
      if IsVersion(v) {
        forall k | 0 < k < |v| ensures '0' <= v[k] <= '9' { assert IsDigit(t[k - 1]); }
      }
    }
  }

  // ---- Citing a paper ----------------------------------------------------

  predicate IsCitePath(path: string) {
    path == [] || Lower(path) == "org/abs/" || Lower(path) == "org/pdf/"
  }

  /** `s` starts with `arxiv`, a dot or colon, spaces, perhaps a path, and then the id. */
  ghost predicate CitesThrough(s: string, i: nat, k: nat, id: string) {
    && 6 <= i <= k <= |s| && Lower(s[..5]) == "arxiv" && (s[5] == '.' || s[5] == ':')
    && All(s[6..i], IsSpace) && IsCitePath(s[i..k])
    && StartsWithId(s[k..], id)
  }

  ghost predicate CitesPaper(s: string, id: string) {
    exists i: nat, k: nat :: CitesThrough(s, i, k, id)
  }

  lemma MatchGives(s: string)
    requires ArxivMatch(s).Some?
    ensures CitesPaper(s, ArxivMatch(s).value)
  {
    hide ArxivIdLen, Lower;
    var n := Span(s[6..], IsSpace);
    var i := 6 + n;
    var w := s[6..][n..];
    assert w == s[i..];
    assert All(s[6..i], IsSpace) by { assert forall j | 0 <= j < n :: s[6..i][j] == s[6..][j]; }
    if StartsWithPath(w) && ArxivIdLen(w[8..]) > 0 {
      assert w[..8] == s[i..i + 8] && w[8..] == s[i + 8..];
      IdLenIff(w[8..], ArxivMatch(s).value);
      assert CitesThrough(s, i, i + 8, ArxivMatch(s).value);
    } else {
      IdLenIff(w, ArxivMatch(s).value);
      assert s[i..i] == [];
      assert CitesThrough(s, i, i, ArxivMatch(s).value);
    }
  }

  lemma IdIsNoPath(w: string, id: string)
    requires IsArxivId(id) && id <= w
    ensures !StartsWithPath(w) && w != [] && !IsSpace(w[0])
  {
    assert w == id + w[|id|..];
    ArxivIdShape(id);
    if ModernLen(id) > 0 {
      assert IsDigit(id[0]);
      if StartsWithPath(w) { PathShape(w); }
    } else {
      OldIdShape(id);
    }
  }

  lemma SpacesEnd(s: string, i: nat)
    requires 6 <= i < |s| && All(s[6..i], IsSpace) && !IsSpace(s[i])
    ensures Span(s[6..], IsSpace) == i - 6 && s[6..][i - 6..] == s[i..]
  {
    var t := s[6..];
    assert forall j | 0 <= j < i - 6 :: t[j] == s[6..i][j];
    hide IsSpace;
    SpanIs(t, IsSpace, i - 6);
  }

  lemma PathThenId(s: string, i: nat, k: nat, id: string)
    requires i <= k <= |s| && IsCitePath(s[i..k]) && StartsWithId(s[k..], id)
    ensures ArxivAfterPrefix(s[i..]) == Some(id) && i < |s| && !IsSpace(s[i])
  {
    var w := s[i..];
    assert s[k..] == w[k - i..];
    IdLenIff(s[k..], id);
    assert k > i ==> |s[i..k]| == 8 && w[..8] == s[i..k];
    PaperIdIff(id);
    hide ArxivIdLen, IsPaperId;
    assert ArxivIdLen(s[k..]) > 0 ==> s[k..] != [];
    IdIsNoPath(s[k..], id);
    if k > i { PathShape(w); }
    assert w[0] == s[i];
    AfterPathIs(w, k - i, id);
  }

  lemma MatchIs(s: string, i: nat, k: nat, id: string)
    requires CitesThrough(s, i, k, id)
    ensures ArxivMatch(s) == Some(id)
  {
    hide StartsWithId, IsCitePath, ArxivAfterPrefix, All, IsSpace, Span;
    PathThenId(s, i, k, id);
    SpacesEnd(s, i);
  }

  lemma AfterPathIs(w: string, n: nat, id: string)
    requires n <= |w| && (n == 0 || (n == 8 && StartsWithPath(w))) && (n == 0 ==> !StartsWithPath(w))
    requires ArxivIdLen(w[n..]) > 0 && id == w[n..][..ArxivIdLen(w[n..])]
    ensures ArxivAfterPrefix(w) == Some(id)
  {
    hide ArxivIdLen, StartsWithPath;
    assert w[0..] == w;
  }

  /** The pattern matches at the start of a text exactly when the text cites a paper there. */
  lemma CitesIff(s: string, id: string)
    ensures ArxivMatch(s) == Some(id) <==> CitesPaper(s, id)
  {
    hide ArxivMatch, CitesThrough;
    if ArxivMatch(s) == Some(id) { MatchGives(s); }
    if i: nat, k: nat :| CitesThrough(s, i, k, id) { MatchIs(s, i, k, id); }
  }

  lemma NothingCitedIff(s: string)
    ensures ArxivMatch(s).None? <==> forall id :: !CitesPaper(s, id)
  {
    hide ArxivMatch, CitesPaper;
    forall id ensures ArxivMatch(s) == Some(id) <==> CitesPaper(s, id) { CitesIff(s, id); }
    if ArxivMatch(s).Some? { CitesIff(s, ArxivMatch(s).value); }
  }

  /** `id` is cited at `o`, and nothing is cited earlier. */
  ghost predicate FirstCited(s: string, o: nat, id: string) {
    && o <= |s| && CitesPaper(s[o..], id)
    && forall p: nat, other | p < o :: !CitesPaper(s[p..], other)
  }

  lemma {:induction false} SearchGives(s: string) returns (o: nat)
    requires ArxivSearch(s).Some?
    ensures o <= |s| && ArxivMatch(s[o..]) == ArxivSearch(s)
    ensures forall p | 0 <= p < o :: ArxivMatch(s[p..]).None?
  {
    hide ArxivMatch;
    assert s[0..] == s;
    if ArxivMatch(s).Some? {
      o := 0;
    } else {
      var q := SearchGives(s[1..]);
      o := q + 1;
      assert forall p | 0 < p <= |s| :: s[1..][p - 1..] == s[p..];
      forall p | 0 <= p < o ensures ArxivMatch(s[p..]).None? {
        if p > 0 { assert ArxivMatch(s[1..][p - 1..]).None?; }
      }
    }
  }

  lemma {:induction false} SearchIs(s: string, o: nat)
    requires o <= |s| && ArxivMatch(s[o..]).Some?
    requires forall p | 0 <= p < o :: ArxivMatch(s[p..]).None?
    ensures ArxivSearch(s) == ArxivMatch(s[o..])
  {
    hide *;
    assert s[0..] == s;
    if o == 0 {
      SearchIsMatch(s);
    } else {
      forall p | 0 <= p < o - 1 ensures ArxivMatch(s[1..][p..]).None? {
        assert s[1..][p..] == s[p + 1..];
      }
      assert s[1..][o - 1..] == s[o..];
      SearchIs(s[1..], o - 1);
      SearchSteps(s);
    }
  }

  lemma SearchSteps(s: string)
    requires s != [] && ArxivMatch(s).None?
    ensures ArxivSearch(s) == ArxivSearch(s[1..])
  {
    hide ArxivMatch;
  }

  lemma FirstCitedIff(s: string, id: string)
    ensures ArxivSearch(s) == Some(id) <==> exists o: nat :: FirstCited(s, o, id)
  {
    hide ArxivMatch, ArxivSearch, CitesPaper;
    forall p: nat, other | p <= |s| ensures ArxivMatch(s[p..]) == Some(other) <==> CitesPaper(s[p..], other) {
      CitesIff(s[p..], other);
    }
    if ArxivSearch(s) == Some(id) {
      var o := SearchGives(s);
      forall p: nat, other | p < o ensures !CitesPaper(s[p..], other) {
        assert ArxivMatch(s[p..]).None?;
        CitesIff(s[p..], other);
      }
      assert FirstCited(s, o, id);
    }
    if o: nat :| FirstCited(s, o, id) {
      forall p | 0 <= p < o ensures ArxivMatch(s[p..]).None? {
        NothingCitedIff(s[p..]);
      }
      SearchIs(s, o);
    }
  }

  /** The whole text is an id, perhaps with a version. */
  ghost predicate IsBarePaper(s: string, id: string) {
    id <= s && IsPaperId(id) && IsVersionText(s[|id|..])
  }

  lemma BareIff(s: string, id: string)
    ensures ArxivBare(s) == Some(id) <==> IsBarePaper(s, id)
  {
    var n := ArxivIdLen(s);
    VersionIff(s[n..]);
    hide ArxivIdLen, IsVersion, IsPaperId, IsVersionText;
    IdLenIff(s, s[..n]);
    if IsBarePaper(s, id) {
      VersionIff(s[|id|..]);
      PaperIdIff(id);
      VersionStart(s[|id|..]);
      assert s == id + s[|id|..];
      IdIsFound(id, s[|id|..]);
    }
  }

  lemma VersionStart(v: string)
    requires IsVersionText(v)
    ensures v == [] || !IsDigit(v[0])
  {
  }

  // ---- DOIs --------------------------------------------------------------

  predicate InDoi(c: char) {
    !IsSpace(c) && c != '"' && c != '\'' && c != '<' && c != '>'
  }

  /** `10.`, four to nine digits up to `r`, a slash, and at least one more character. */
  predicate IsDoiTextAt(s: string, r: nat) {
    && 7 <= r <= 12 && r + 1 < |s| && s[0] == '1' && s[1] == '0' && s[2] == '.'
    && (forall k | 3 <= k < r :: '0' <= s[k] <= '9') && s[r] == '/'
    && forall k | r < k < |s| :: InDoi(s[k])
  }

  ghost predicate IsDoiText(s: string) {
    exists r: nat :: IsDoiTextAt(s, r)
  }

  lemma DoiTextIs(s: string, r: nat)
    requires IsDoiTextAt(s, r)
    ensures IsDoi(s) && RegistrantLen(s) == r + 1
  {
    assert s[..3] == "10.";
    var t := s[3..];
    assert forall k | 0 <= k < |t| :: t[k] == s[3 + k];
    SpanIs(t, IsDigit, r - 3);
    var u := s[r + 1..];
    assert forall k | 0 <= k < |u| :: u[k] == s[r + 1 + k];
    assert RegistrantLen(s) == r + 1;
    hide RegistrantLen;
    SpanIs(u, IsDoiChar, |u|);
  }

  lemma DoiTextGives(s: string)
    requires IsDoi(s)
    ensures IsDoiTextAt(s, RegistrantLen(s) - 1)
  {
    var r := RegistrantLen(s) - 1;
    var h := s[..3];
    assert h[0] == '1' && h[1] == '0' && h[2] == '.';
    var t, u := s[3..], s[r + 1..];
    forall k | 3 <= k < r ensures '0' <= s[k] <= '9' { assert IsDigit(t[k - 3]); }
    forall k | r < k < |s| ensures InDoi(s[k]) { assert IsDoiChar(u[k - r - 1]); }
  }

  /** The matcher's DOIs are exactly the texts of this shape. */
  lemma DoiTextIff(s: string)
    ensures IsDoi(s) <==> IsDoiText(s)
  {
    hide IsDoi, IsDoiTextAt, RegistrantLen;
    if IsDoi(s) { DoiTextGives(s); }
    if r: nat :| IsDoiTextAt(s, r) { DoiTextIs(s, r); }
  }

  /** `doi` is the longest DOI that `s` starts with. */
  ghost predicate StartsWithDoi(s: string, doi: string) {
    && doi <= s && IsDoiText(doi)
    && forall m | 0 <= m <= |s| && IsDoiText(s[..m]) :: m <= |doi|
  }

  lemma ShorterDoi(s: string, m: nat)
    requires m <= |s| && IsDoi(s[..m])
    ensures 0 < m <= DoiLen(s)
  {
    var p, q := s[..m], s[m..];
    assert s == p + q;
    var r := RegistrantLen(p);
    RegistrantAsPrefix(p, q);
    assert s[r..] == p[r..] + q;
    SpanGrows(p[r..], q, IsDoiChar);
    hide RegistrantLen, Span;
  }

  lemma DoiLenIff(s: string, doi: string)
    ensures StartsWithDoi(s, doi) <==> DoiLen(s) > 0 && doi == s[..DoiLen(s)]
  {
    hide DoiLen, IsDoiText;
    forall m | 0 <= m <= |s| ensures IsDoiText(s[..m]) <==> IsDoi(s[..m]) { DoiTextIff(s[..m]); }
    forall m | 0 <= m <= |s| && IsDoi(s[..m]) ensures 0 < m <= DoiLen(s) { ShorterDoi(s, m); }
    if StartsWithDoi(s, doi) {
      assert doi == s[..|doi|];
    }
    if DoiLen(s) > 0 {
      DoiCut(s);
    }
  }

  /** `s` starts with `doi.org/`, or with `doi` and colons or spaces, up to `k`. */
  predicate OpensDoi(s: string, k: nat)
    requires k <= |s|
  {
    || (k == 8 && Lower(s[..8]) == "doi.org/")
    || (k > 3 && Lower(s[..3]) == "doi" && forall j | 3 <= j < k :: s[j] == ':' || IsSpace(s[j]))
  }

  /** After such an opening comes the DOI. */
  ghost predicate CitesDoi(s: string, doi: string) {
    exists k: nat :: k <= |s| && OpensDoi(s, k) && StartsWithDoi(s[k..], doi)
  }

  lemma DoiMatchGives(s: string)
    requires DoiMatch(s).Some?
    ensures CitesDoi(s, DoiMatch(s).value)
  {
    hide DoiLen, Lower, IsColonOrSpace;
    if StartsWith(s, "doi.org/") && DoiLen(s[8..]) > 0 {
      DoiLenIff(s[8..], DoiMatch(s).value);
      assert OpensDoi(s, 8);
    } else {
      var t := s[3..];
      var n := Span(t, IsColonOrSpace);
      assert t[n..] == s[3 + n..];
      DoiLenIff(t[n..], DoiMatch(s).value);
      forall j | 3 <= j < 3 + n ensures s[j] == ':' || IsSpace(s[j]) {
        assert IsColonOrSpace(t[j - 3]);
        ColonOrSpace(t[j - 3]);
      }
      assert OpensDoi(s, 3 + n);
    }
  }

  lemma ColonOrSpace(c: char)
    ensures IsColonOrSpace(c) <==> c == ':' || IsSpace(c)
  {
  }

  lemma UrlDoiIs(s: string, doi: string)
    requires |s| >= 8 && Lower(s[..8]) == "doi.org/" && DoiLen(s[8..]) > 0 && doi == s[8..][..DoiLen(s[8..])]
    ensures DoiMatch(s) == Some(doi)
  {
    hide DoiLen, Span, Lower;
  }

  lemma PrefixedDoiIs(s: string, k: nat, doi: string)
    requires 3 < k <= |s| && Lower(s[..3]) == "doi" && forall j | 3 <= j < k :: IsColonOrSpace(s[j])
    requires DoiLen(s[k..]) > 0 && doi == s[k..][..DoiLen(s[k..])] && !IsColonOrSpace(s[k..][0])
    ensures DoiMatch(s) == Some(doi)
  {
    var t := s[3..];
    assert forall j | 0 <= j < |t| :: t[j] == s[3 + j];
    hide DoiLen, Lower, IsColonOrSpace;
    assert t[k - 3..] == s[k..];
    SpanIs(t, IsColonOrSpace, k - 3);
    DoiMatchPrefixed(s);
  }

  lemma DoiMatchIs(s: string, k: nat, doi: string)
    requires k <= |s| && OpensDoi(s, k) && StartsWithDoi(s[k..], doi)
    ensures DoiMatch(s) == Some(doi)
  {
    hide Lower, DoiMatch, DoiLen, IsDoiText;
    DoiLenIff(s[k..], doi);
    DoiTextIff(doi);
    DoiShape(doi);
    assert s[k..][0] == doi[0] == '1';
    ColonOrSpace('1');
    assert !IsSpace('1');
    hide StartsWithDoi, IsSpace;
    if k == 8 && Lower(s[..8]) == "doi.org/" {
      UrlDoiIs(s, doi);
    } else {
      forall j | 3 <= j < k ensures IsColonOrSpace(s[j]) { ColonOrSpace(s[j]); }
      PrefixedDoiIs(s, k, doi);
    }
  }

  lemma CitesDoiIff(s: string, doi: string)
    ensures DoiMatch(s) == Some(doi) <==> CitesDoi(s, doi)
  {
    hide DoiMatch, OpensDoi, StartsWithDoi;
    if DoiMatch(s) == Some(doi) { DoiMatchGives(s); }
    if k: nat :| k <= |s| && OpensDoi(s, k) && StartsWithDoi(s[k..], doi) { DoiMatchIs(s, k, doi); }
  }

  lemma NoDoiCitedIff(s: string)
    ensures DoiMatch(s).None? <==> forall doi :: !CitesDoi(s, doi)
  {
    hide DoiMatch, CitesDoi;
    forall doi ensures DoiMatch(s) == Some(doi) <==> CitesDoi(s, doi) { CitesDoiIff(s, doi); }
    if DoiMatch(s).Some? { CitesDoiIff(s, DoiMatch(s).value); }
  }

  ghost predicate FirstDoi(s: string, o: nat, doi: string) {
    && o <= |s| && CitesDoi(s[o..], doi)
    && forall p: nat, other | p < o :: !CitesDoi(s[p..], other)
  }

  lemma {:induction false} DoiSearchGives(s: string) returns (o: nat)
    requires DoiSearch(s).Some?
    ensures o <= |s| && DoiMatch(s[o..]) == DoiSearch(s)
    ensures forall p | 0 <= p < o :: DoiMatch(s[p..]).None?
  {
    hide DoiMatch;
    assert s[0..] == s;
    if DoiMatch(s).Some? {
      o := 0;
    } else {
      var q := DoiSearchGives(s[1..]);
      o := q + 1;
      assert forall p | 0 < p <= |s| :: s[1..][p - 1..] == s[p..];
      forall p | 0 <= p < o ensures DoiMatch(s[p..]).None? {
        if p > 0 { assert DoiMatch(s[1..][p - 1..]).None?; }
      }
    }
  }

  lemma {:induction false} DoiSearchIs(s: string, o: nat)
    requires o <= |s| && DoiMatch(s[o..]).Some?
    requires forall p | 0 <= p < o :: DoiMatch(s[p..]).None?
    ensures DoiSearch(s) == DoiMatch(s[o..])
  {
    hide *;
    assert s[0..] == s;
    if o == 0 {
      DoiSearchHits(s);
    } else {
      forall p | 0 <= p < o - 1 ensures DoiMatch(s[1..][p..]).None? {
        assert s[1..][p..] == s[p + 1..];
      }
      assert s[1..][o - 1..] == s[o..];
      DoiSearchIs(s[1..], o - 1);
      DoiSearchStep(s);
    }
  }

  lemma DoiSearchHits(s: string)
    requires DoiMatch(s).Some?
    ensures DoiSearch(s) == DoiMatch(s)
  {
    hide DoiMatch;
  }

  lemma FirstDoiIff(s: string, doi: string)
    ensures DoiSearch(s) == Some(doi) <==> exists o: nat :: FirstDoi(s, o, doi)
  {
    hide DoiMatch, DoiSearch, CitesDoi;
    forall p: nat, other | p <= |s| ensures DoiMatch(s[p..]) == Some(other) <==> CitesDoi(s[p..], other) {
      CitesDoiIff(s[p..], other);
    }
    if DoiSearch(s) == Some(doi) {
      var o := DoiSearchGives(s);
      forall p: nat, other | p < o ensures !CitesDoi(s[p..], other) {
        assert DoiMatch(s[p..]).None?;
        CitesDoiIff(s[p..], other);
      }
      assert FirstDoi(s, o, doi);
    }
    if o: nat :| FirstDoi(s, o, doi) {
      forall p | 0 <= p < o ensures DoiMatch(s[p..]).None? {
        NoDoiCitedIff(s[p..]);
      }
      DoiSearchIs(s, o);
    }
  }

  // ---- What a text is read as --------------------------------------------

  /** `clean` is `raw` in lower case without the dots, commas, semicolons and colons at its end. */
  predicate IsClean(raw: string, clean: string) {
    && |clean| <= |raw| && clean == Lower(raw[..|clean|])
    && (clean != [] ==> raw[|clean| - 1] !in {'.', ',', ';', ':'})
    && forall k | |clean| <= k < |raw| :: raw[k] in {'.', ',', ';', ':'}
  }

  lemma CleanIff(raw: string, clean: string)
    ensures CleanDoi(raw) == clean <==> IsClean(raw, clean)
  {
    var t := RStrip(raw, IsDoiTrailing);
    assert t == raw[..|t|];
    if IsClean(raw, clean) {
      hide RStrip;
      RStripIs(raw, IsDoiTrailing, |clean|);
    }
  }

  /** The text is a paper id, or cites one first. */
  ghost predicate NamesPaper(s: string, id: string) {
    if exists any :: IsBarePaper(s, any) then IsBarePaper(s, id) else exists o: nat :: FirstCited(s, o, id)
  }

  /** The text is a DOI, or cites one first. */
  ghost predicate NamesDoi(s: string, doi: string) {
    if IsDoiText(s) then doi == s else exists o: nat :: FirstDoi(s, o, doi)
  }

  /** A paper if it names one, else a cleaned DOI if it names one, else nothing. */
  ghost predicate IsReading(s: string, r: Option<string>) {
    if exists id :: NamesPaper(s, id) then exists id :: NamesPaper(s, id) && r == Some("arxiv:" + Lower(id))
    else if exists doi :: NamesDoi(s, doi) then
      exists doi, clean :: NamesDoi(s, doi) && IsClean(doi, clean) && r == Some("doi:" + clean)
    else r == None
  }

  lemma RawPaperIff(s: string, id: string)
    ensures RawArxiv(s) == Some(id) <==> NamesPaper(s, id)
  {
    hide ArxivBare, ArxivSearch, IsBarePaper, FirstCited;
    forall any ensures ArxivBare(s) == Some(any) <==> IsBarePaper(s, any) { BareIff(s, any); }
    FirstCitedIff(s, id);
    if ArxivBare(s).Some? { assert IsBarePaper(s, ArxivBare(s).value); }
  }

  lemma RawDoiIff(s: string, doi: string)
    ensures RawDoi(s) == Some(doi) <==> NamesDoi(s, doi)
  {
    hide IsDoi, DoiSearch, IsDoiText, FirstDoi;
    DoiTextIff(s);
    FirstDoiIff(s, doi);
  }

  lemma StrippedIsReading(s: string, r: Option<string>)
    ensures CanonicalizeStripped(s) == r <==> IsReading(s, r)
  {
    hide RawArxiv, RawDoi, NamesPaper, NamesDoi, CleanDoi, IsClean, Lower;
    forall id ensures RawArxiv(s) == Some(id) <==> NamesPaper(s, id) { RawPaperIff(s, id); }
    forall doi ensures RawDoi(s) == Some(doi) <==> NamesDoi(s, doi) { RawDoiIff(s, doi); }
    forall doi, clean ensures CleanDoi(doi) == clean <==> IsClean(doi, clean) { CleanIff(doi, clean); }
    if RawArxiv(s).Some? {
      assert NamesPaper(s, RawArxiv(s).value);
    } else if RawDoi(s).Some? {
      assert NamesDoi(s, RawDoi(s).value);
    }
  }

  /** `canonicalize` reads every text as these definitions say, and as nothing else. */
  lemma CanonicalizeIff(text: string, o: nat, s: string, r: Option<string>)
    requires IsStripped(text, o, s)
    ensures Canonicalize(Some(text)) == r <==> IsReading(s, r)
  {
    hide *;
    StripIs(text, o, s);
    StrippedIsReading(s, r);
    CanonicalizeIs(text, s);
  }

  lemma EmptyIsNothing()
    ensures CanonicalizeStripped("") == None
  {
    EmptySearch();
    NotDoiByHead("");
    NoIdInEmpty();
    hide ArxivSearch, DoiSearch, IsDoi, DoiLen;
  }

  lemma CanonicalizeIs(text: string, s: string)
    requires s == Strip(text, IsSpace)
    ensures Canonicalize(Some(text)) == CanonicalizeStripped(s)
  {
    hide CanonicalizeStripped, IsSpace;
    if text == [] {
      EmptyIsNothing();
    }
  }
}
