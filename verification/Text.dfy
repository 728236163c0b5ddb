/** ASCII text: character classes, stripping, run squeezing, tokens and ordering.
    Every other module that compares strings rests on the lemmas here. */
module Text {

  // ---- Character classes -------------------------------------------------

  /** The ASCII characters for which Python's `\s`, `str.strip` and `str.split` agree. */
  predicate IsSpace(c: char) {
    '\t' <= c <= '\r' || '\U{1C}' <= c <= ' '
  }

  predicate IsDigit(c: char) {
    '0' <= c <= '9'
  }

  predicate IsAlpha(c: char) {
    'a' <= c <= 'z' || 'A' <= c <= 'Z'
  }

  predicate IsAlnum(c: char) {
    IsAlpha(c) || IsDigit(c)
  }

  predicate All(s: string, p: char -> bool) {
    forall i | 0 <= i < |s| :: p(s[i])
  }

  // ---- Case --------------------------------------------------------------

  function LowerChar(c: char): char {
    if 'A' <= c <= 'Z' then (c as int + 32) as char else c
  }

  /** `str.lower`, which on ASCII is also `str.casefold`. */
  function Lower(s: string): (r: string)
    ensures |r| == |s|
    ensures forall i | 0 <= i < |s| :: r[i] == LowerChar(s[i])
  {
    seq(|s|, i requires 0 <= i < |s| => LowerChar(s[i]))
  }

  lemma LowerIdempotent(s: string)
    ensures Lower(Lower(s)) == Lower(s)
  {
  }

  lemma LowerConcat(s: string, t: string)
    ensures Lower(s + t) == Lower(s) + Lower(t)
  {
  }

  const UPPER: string := "ABCDEFGHIJKLMNOPQRSTUVWXYZ"
  const LOWER: string := "abcdefghijklmnopqrstuvwxyz"
  const DIGITS: string := "0123456789"

  lemma LowerAlphabet(c: char)
    ensures 'a' <= c <= 'z' <==> c in LOWER
  {
    if 'a' <= c <= 'z' { assert LOWER[c as int - 'a' as int] == c; }
    assert forall i | 0 <= i < 26 :: LOWER[i] as int == 'a' as int + i;
  }

  lemma UpperAlphabet(c: char)
    ensures 'A' <= c <= 'Z' <==> c in UPPER
  {
    if 'A' <= c <= 'Z' { assert UPPER[c as int - 'A' as int] == c; }
    assert forall i | 0 <= i < 26 :: UPPER[i] as int == 'A' as int + i;
  }

  lemma DigitsAre(c: char)
    ensures IsDigit(c) <==> c in DIGITS
  {
    if IsDigit(c) { assert DIGITS[c as int - '0' as int] == c; }
    assert forall i | 0 <= i < 10 :: DIGITS[i] as int == '0' as int + i;
  }

  lemma LettersAre(c: char)
    ensures IsAlpha(c) <==> c in UPPER || c in LOWER
    ensures IsAlnum(c) <==> c in UPPER || c in LOWER || c in DIGITS
  {
    DigitsAre(c);
    LowerAlphabet(c);
    UpperAlphabet(c);
  }

  /** Of the ASCII characters `isspace` holds for these ten. */
  lemma SpacesAre(c: char)
    ensures IsSpace(c)
       <==> c in {'\t', '\n', '\U{0B}', '\U{0C}', '\r', '\U{1C}', '\U{1D}', '\U{1E}', '\U{1F}', ' '}
  {
  }

  /** A capital becomes the letter at its place in the other alphabet; nothing else changes. */
  lemma LowerIs(c: char)
    ensures forall i | 0 <= i < 26 && c == UPPER[i] :: LowerChar(c) == LOWER[i]
    ensures c !in UPPER ==> LowerChar(c) == c
  {
    if 'A' <= c <= 'Z' {
      var i := c as int - 'A' as int;
      assert UPPER[i] == c && LOWER[i] == (c as int + 32) as char;
    }
  }

  // ---- Stripping and spans -----------------------------------------------

  /** Length of the longest prefix whose characters all satisfy `p` (a greedy `[...]*`). */
  function Span(s: string, p: char -> bool): (n: nat)
    ensures n <= |s|
    ensures forall i | 0 <= i < n :: p(s[i])
    ensures n < |s| ==> !p(s[n])
  {
    if s != [] && p(s[0]) then 1 + Span(s[1..], p) else 0
  }

  /** The longest such prefix is the one that ends where `p` first fails. */
  lemma {:induction false} SpanIs(s: string, p: char -> bool, n: nat)
    requires n <= |s|
    requires forall i | 0 <= i < n :: p(s[i])
    requires n < |s| ==> !p(s[n])
    ensures Span(s, p) == n
  {
    if n > 0 {
      SpanIs(s[1..], p, n - 1);
    }
  }

  function LStrip(s: string, p: char -> bool): (r: string)
    ensures r != [] ==> !p(r[0])
    ensures |r| <= |s| && r == s[|s| - |r|..]
    ensures forall i | 0 <= i < |s| - |r| :: p(s[i])
  {
    if s != [] && p(s[0]) then LStrip(s[1..], p) else s
  }

  function RStrip(s: string, p: char -> bool): (r: string)
    ensures r != [] ==> !p(r[|r| - 1])
    ensures |r| <= |s| && r == s[..|r|]
    ensures forall i | |r| <= i < |s| :: p(s[i])
  {
    if s != [] && p(s[|s| - 1]) then RStrip(s[..|s| - 1], p) else s
  }

  function Strip(s: string, p: char -> bool): (r: string)
    ensures r != [] ==> !p(r[0]) && !p(r[|r| - 1])
  {
    var t := LStrip(s, p);
    var r := RStrip(t, p);
    assert r != [] ==> r[0] == t[0];
    r
  }

  /** What is left is pinned down by its last character and by what was dropped. */
  lemma {:induction false} RStripIs(s: string, p: char -> bool, n: nat)
    requires n <= |s|
    requires n > 0 ==> !p(s[n - 1])
    requires forall i | n <= i < |s| :: p(s[i])
    ensures RStrip(s, p) == s[..n]
  {
    if n < |s| {
      RStripIs(s[..|s| - 1], p, n);
      assert s[..|s| - 1][..n] == s[..n];
    }
  }

  lemma {:induction false} LStripIs(s: string, p: char -> bool, n: nat)
    requires n <= |s|
    requires n < |s| ==> !p(s[n])
    requires forall i | 0 <= i < n :: p(s[i])
    ensures LStrip(s, p) == s[n..]
  {
    if n > 0 {
      LStripIs(s[1..], p, n - 1);
      assert s[1..][n - 1..] == s[n..];
    }
  }

  lemma LStripSkips(pre: string, rest: string)
    requires All(pre, IsSpace) && rest != [] && !IsSpace(rest[0])
    ensures LStrip(pre + rest, IsSpace) == rest
  {
    hide IsSpace;
    var s := pre + rest;
    assert forall i | 0 <= i < |pre| :: s[i] == pre[i];
    assert s[|pre|] == rest[0] && s[|pre|..] == rest;
    LStripIs(s, IsSpace, |pre|);
  }

  lemma CutAt(a: string, t: string, o: nat)
    requires o <= |a|
    ensures a + t == a[..o] + (a[o..] + t)
  {
  }

  lemma HeadOf(u: string, t: string)
    requires t != []
    ensures (u + t)[0] == if u == [] then t[0] else u[0]
  {
  }

  lemma LStripAround(a: string, t: string)
    requires t != [] && !IsSpace(t[0])
    ensures LStrip(a + t, IsSpace) == LStrip(a, IsSpace) + t
  {
    hide *;
    var o := FrontStripped(a);
    HeadOf(a[o..], t);
    LStripSkips(a[..o], a[o..] + t);
    CutAt(a, t, o);
  }

  lemma RStripAround(t: string, b: string)
    requires t != [] && !IsSpace(t[|t| - 1])
    ensures RStrip(t + b, IsSpace) == t + RStrip(b, IsSpace)
  {
    hide IsSpace;
    var s, w := t + b, RStrip(b, IsSpace);
    var m := |t| + |w|;
    assert s[m - 1] == (t + w)[m - 1];
    assert forall i | m <= i < |s| :: s[i] == b[i - |t|];
    hide RStrip;
    RStripIs(s, IsSpace, m);
    assert s[..m] == t + w;
  }

  lemma {:induction false} SpaceStripsAway(a: string)
    requires All(a, IsSpace)
    ensures LStrip(a, IsSpace) == [] && RStrip(a, IsSpace) == []
  {
    LStripIs(a, IsSpace, |a|);
    RStripIs(a, IsSpace, 0);
  }

  /** The text without the space around it. */
  predicate IsStripped(text: string, o: nat, s: string) {
    && o + |s| <= |text| && s == text[o..o + |s|]
    && All(text[..o], IsSpace) && All(text[o + |s|..], IsSpace)
    && (s != [] ==> !IsSpace(s[0]) && !IsSpace(s[|s| - 1]))
  }

  lemma BlankStripsAway(text: string)
    requires All(text, IsSpace)
    ensures Strip(text, IsSpace) == []
  {
    LStripIs(text, IsSpace, |text|);
    RStripIs([], IsSpace, 0);
  }

  lemma StripParts(a: string, s: string, b: string)
    requires All(a, IsSpace) && All(b, IsSpace) && s != [] && !IsSpace(s[0]) && !IsSpace(s[|s| - 1])
    ensures Strip(a + (s + b), IsSpace) == s
  {
    hide IsSpace, LStrip, RStrip;
    SpaceStripsAway(a);
    SpaceStripsAway(b);
    LStripAround(a, s + b);
    RStripAround(s, b);
    assert [] + (s + b) == s + b && s + [] == s;
  }

  lemma StripIs(text: string, o: nat, s: string)
    requires IsStripped(text, o, s)
    ensures Strip(text, IsSpace) == s
  {
    var a, b := text[..o], text[o + |s|..];
    hide IsSpace, Strip;
    assert text == a + (s + b);
    if s == [] {
      assert text == a + b;
      hide *;
      AllOfBoth(a, b, IsSpace);
      BlankStripsAway(text);
    } else {
      StripParts(a, s, b);
    }
  }

  lemma FrontStripped(text: string) returns (o: nat)
    ensures o <= |text| && LStrip(text, IsSpace) == text[o..] && All(text[..o], IsSpace)
    ensures o < |text| ==> !IsSpace(text[o..][0])
  {
    o := |text| - |LStrip(text, IsSpace)|;
    hide IsSpace, LStrip;
  }

  lemma BackStripped(t: string) returns (n: nat)
    ensures n <= |t| && RStrip(t, IsSpace) == t[..n] && All(t[n..], IsSpace)
  {
    n := |RStrip(t, IsSpace)|;
    hide IsSpace, RStrip;
  }

  lemma StripGives(text: string) returns (o: nat)
    ensures IsStripped(text, o, Strip(text, IsSpace))
  {
    hide IsSpace, LStrip, RStrip, All;
    o := FrontStripped(text);
    var n := BackStripped(text[o..]);
    assert text[o..][..n] == text[o..o + n] && text[o..][n..] == text[o + n..];
  }

  lemma AllOfBoth(a: string, b: string, p: char -> bool)
    requires All(a, p) && All(b, p)
    ensures All(a + b, p)
  {
  }

  lemma SliceOfTake(s: string, m: nat, i: nat, j: nat)
    requires i <= j <= m <= |s|
    ensures s[..m][i..j] == s[i..j]
  {
  }

  // ---- Substrings --------------------------------------------------------

  predicate OccursAt(x: string, y: string, i: int) {
    0 <= i && i + |x| <= |y| && y[i..i + |x|] == x
  }

  /** Python's `x in y`. */
  predicate Contains(y: string, x: string) {
    exists i | 0 <= i <= |y| :: OccursAt(x, y, i)
  }

  // ---- Squeezing runs ----------------------------------------------------

  /** Replaces every maximal run of `p`-characters by the single character `r`
      (`re.sub("[p]+", r, s)`), written as a left-to-right scan. `inRun` says that the
      character before `s` was already part of a run, so that the run has been emitted. */
  function Squeeze(s: string, inRun: bool, p: char -> bool, r: char): string {
    if s == [] then []
    else if p(s[0]) then (if inRun then [] else [r]) + Squeeze(s[1..], true, p, r)
    else [s[0]] + Squeeze(s[1..], false, p, r)
  }

  /** Whether a scan that has consumed `s` stands inside a run. */
  function RunAfter(s: string, inRun: bool, p: char -> bool): bool {
    if s == [] then inRun else p(s[|s| - 1])
  }

  /** What the scan emits for one character. */
  function SqueezeHead(c: char, inRun: bool, p: char -> bool, r: char): string {
    if !p(c) then [c] else if inRun then [] else [r]
  }

  lemma SqueezeStep(s: string, inRun: bool, p: char -> bool, r: char)
    requires s != []
    ensures Squeeze(s, inRun, p, r) == SqueezeHead(s[0], inRun, p, r) + Squeeze(s[1..], p(s[0]), p, r)
  {
  }

  lemma RunAfterStep(s: string, inRun: bool, p: char -> bool)
    requires s != []
    ensures RunAfter(s, inRun, p) == RunAfter(s[1..], p(s[0]), p)
  {
    if |s| > 1 { assert s[1..][|s| - 2] == s[|s| - 1]; }
  }

  lemma SeqAssociative(a: string, b: string, c: string)
    ensures a + (b + c) == a + b + c
  {
  }

  /** A scan can be cut anywhere: the second half starts in the state the first one left. */
  lemma {:induction false} SqueezeConcat(a: string, b: string, inRun: bool, p: char -> bool, r: char)
    ensures Squeeze(a + b, inRun, p, r)
         == Squeeze(a, inRun, p, r) + Squeeze(b, RunAfter(a, inRun, p), p, r)
  {
    if a == [] {
      assert a + b == b;
    } else {
      SqueezeStep(a, inRun, p, r);
      SqueezeStep(a + b, inRun, p, r);
      RunAfterStep(a, inRun, p);
      hide Squeeze, RunAfter;
      assert (a + b)[1..] == a[1..] + b && (a + b)[0] == a[0];
      SqueezeConcat(a[1..], b, p(a[0]), p, r);
      SeqAssociative(SqueezeHead(a[0], inRun, p, r), Squeeze(a[1..], p(a[0]), p, r),
                     Squeeze(b, RunAfter(a, inRun, p), p, r));
    }
  }

  /** Every cut of the output comes from a cut of the input. */
  lemma {:induction false} SqueezeSplit(s: string, inRun: bool, p: char -> bool, r: char, n: nat) returns (i: nat)
    requires n <= |Squeeze(s, inRun, p, r)|
    ensures i <= |s|
    ensures Squeeze(s[..i], inRun, p, r) == Squeeze(s, inRun, p, r)[..n]
    ensures Squeeze(s[i..], RunAfter(s[..i], inRun, p), p, r) == Squeeze(s, inRun, p, r)[n..]
  {
    if n == 0 {
      i := 0;
      assert s[..0] == [] && s[0..] == s;
    } else {
      var head := if !p(s[0]) then [s[0]] else if inRun then [] else [r];
      var tail := Squeeze(s[1..], p(s[0]), p, r);
      assert Squeeze(s, inRun, p, r) == head + tail;
      var j := SqueezeSplit(s[1..], p(s[0]), p, r, n - |head|);
      i := j + 1;
      assert s[..i][1..] == s[1..][..j] && s[i..] == s[1..][j..];
      assert RunAfter(s[..i], inRun, p) == RunAfter(s[1..][..j], p(s[0]), p);
      assert (head + tail)[..n] == head + tail[..n - |head|];
      assert (head + tail)[n..] == tail[n - |head|..];
    }
  }

  /** Starting outside a run only adds the replacement of a leading run. */
  lemma SqueezeStart(s: string, p: char -> bool, r: char)
    ensures Squeeze(s, false, p, r)
         == (if s != [] && p(s[0]) then [r] else []) + Squeeze(s, true, p, r)
  {
  }

  /** No two neighbours both satisfy `p`. */
  ghost predicate Isolated(s: string, p: char -> bool) {
    forall i, j | 0 <= i < j < |s| && j == i + 1 :: !(p(s[i]) && p(s[j]))
  }

  /** Squeezed text: each `p`-character is an `r` standing between two others. */
  ghost predicate IsTidy(s: string, p: char -> bool, r: char) {
    && Isolated(s, p)
    && (forall i | 0 <= i < |s| && p(s[i]) :: s[i] == r)
    && (s != [] ==> !p(s[0]) && !p(s[|s| - 1]))
  }

  /** Squeezed text that may still end in one `r`, and may start with one if `!inRun`. */
  ghost predicate IsSqueezed(s: string, inRun: bool, p: char -> bool, r: char) {
    && Isolated(s, p)
    && (forall i | 0 <= i < |s| && p(s[i]) :: s[i] == r)
    && (s != [] && inRun ==> !p(s[0]))
  }

  lemma {:induction false} SqueezeIsSqueezed(s: string, inRun: bool, p: char -> bool, r: char)
    requires p(r)
    ensures IsSqueezed(Squeeze(s, inRun, p, r), inRun, p, r)
  {
    if s != [] {
      SqueezeIsSqueezed(s[1..], p(s[0]), p, r);
      var head := if !p(s[0]) then [s[0]] else if inRun then [] else [r];
      var tail := Squeeze(s[1..], p(s[0]), p, r);
      assert Squeeze(s, inRun, p, r) == head + tail;
      assert forall i | 0 <= i < |tail| :: (head + tail)[|head| + i] == tail[i];
    }
  }

  lemma {:induction false} SqueezeFixed(s: string, inRun: bool, p: char -> bool, r: char)
    requires IsSqueezed(s, inRun, p, r)
    ensures Squeeze(s, inRun, p, r) == s
  {
    if s != [] {
      assert |s| > 1 ==> s[1..][0] == s[1];
      SqueezeFixed(s[1..], p(s[0]), p, r);
    }
  }

  /** Squeeze, then strip the two ends: the shape shared by `_squash` and `normalize_slug`. */
  function Tidy(s: string, p: char -> bool, r: char): string {
    Strip(Squeeze(s, false, p, r), p)
  }

  lemma SqueezeStripped(s: string, p: char -> bool, r: char)
    requires p(r)
    ensures LStrip(Squeeze(s, false, p, r), p) == Squeeze(s, true, p, r)
  {
    var x, y := Squeeze(s, false, p, r), Squeeze(s, true, p, r);
    SqueezeStart(s, p, r);
    SqueezeIsSqueezed(s, true, p, r);
    var k := if s != [] && p(s[0]) then 1 else 0;
    assert k == 0 ==> x == y;
    assert k == 1 ==> x == [r] + y;
    assert x[k..] == y;
    LStripIs(x, p, k);
  }

  /** A squeezed text minus its trailing replacement, if it has one. */
  function DropLast(y: string, p: char -> bool): string {
    if y != [] && p(y[|y| - 1]) then y[..|y| - 1] else y
  }

  lemma RStripSqueezed(y: string, p: char -> bool, r: char)
    requires IsSqueezed(y, true, p, r)
    ensures RStrip(y, p) == DropLast(y, p)
  {
    var n := |DropLast(y, p)|;
    assert n > 0 ==> !p(y[n - 1]);
    RStripIs(y, p, n);
  }

  /** Tidying is a scan that starts inside a run, minus one trailing replacement. */
  lemma TidyIsScan(s: string, p: char -> bool, r: char)
    requires p(r)
    ensures Tidy(s, p, r) == DropLast(Squeeze(s, true, p, r), p)
  {
    hide Squeeze, LStrip, RStrip, IsSqueezed;
    SqueezeStripped(s, p, r);
    SqueezeIsSqueezed(s, true, p, r);
    RStripSqueezed(Squeeze(s, true, p, r), p, r);
  }

  lemma TidyIsTidy(s: string, p: char -> bool, r: char)
    requires p(r)
    ensures IsTidy(Tidy(s, p, r), p, r)
  {
    hide Tidy, Squeeze;
    TidyIsScan(s, p, r);
    SqueezeIsSqueezed(s, true, p, r);
  }

  lemma TidyFixed(s: string, p: char -> bool, r: char)
    requires IsTidy(s, p, r)
    ensures Tidy(s, p, r) == s
  {
    SqueezeFixed(s, false, p, r);
    LStripIs(s, p, 0);
    assert s[0..] == s;
    RStripIs(s, p, |s|);
  }

  // ---- Pieces between runs -----------------------------------------------

  predicate IsPiece(w: string, p: char -> bool) {
    w != [] && forall i | 0 <= i < |w| :: !p(w[i])
  }

  predicate ArePieces(ws: seq<string>, p: char -> bool) {
    forall i | 0 <= i < |ws| :: IsPiece(ws[i], p)
  }

  /** Length of the longest prefix without a `p`-character. */
  function SpanNot(s: string, p: char -> bool): (n: nat)
    ensures n <= |s|
    ensures forall i | 0 <= i < n :: !p(s[i])
    ensures n < |s| ==> p(s[n])
  {
    if s != [] && !p(s[0]) then 1 + SpanNot(s[1..], p) else 0
  }

  lemma {:induction false} SpanNotIs(s: string, p: char -> bool, n: nat)
    requires n <= |s|
    requires forall i | 0 <= i < n :: !p(s[i])
    requires n < |s| ==> p(s[n])
    ensures SpanNot(s, p) == n
  {
    if n > 0 {
      SpanNotIs(s[1..], p, n - 1);
    }
  }

  /** The maximal runs free of `p`-characters, in order (`re.split("[p]+", s)` without the
      empty ends; `s.split()` when `p` is whitespace). */
  function Pieces(s: string, p: char -> bool): (ws: seq<string>)
    ensures ArePieces(ws, p)
    decreases |s|
  {
    if s == [] then []
    else if p(s[0]) then Pieces(s[1..], p)
    else
      var n := SpanNot(s, p);
      [s[..n]] + Pieces(s[n..], p)
  }

  /** `sep.join(ws)`. */
  function Join(ws: seq<string>, sep: char): string {
    if ws == [] then [] else if |ws| == 1 then ws[0] else ws[0] + [sep] + Join(ws[1..], sep)
  }

  lemma DropLastAppend(w: string, y: string, p: char -> bool)
    requires y != []
    ensures DropLast(w + y, p) == w + DropLast(y, p)
  {
  }

  lemma EmptyScan(p: char -> bool, r: char)
    ensures Squeeze([], true, p, r) == [] == Squeeze([], false, p, r)
  {
  }

  /** One piece and what follows it, as the squeezing scan sees them. */
  lemma ScanPiece(w: string, rest: string, p: char -> bool, r: char)
    requires IsPiece(w, p) && (rest == [] || p(rest[0]))
    ensures Squeeze(w + rest, true, p, r)
         == w + (if rest == [] then [] else [r]) + Squeeze(rest, true, p, r)
  {
    assert RunAfter(w, true, p) == false;
    assert IsSqueezed(w, true, p, r);
    hide Squeeze, RunAfter, IsSqueezed;
    SqueezeConcat(w, rest, true, p, r);
    SqueezeFixed(w, true, p, r);
    EmptyScan(p, r);
    SqueezeStart(rest, p, r);
    assert rest == [] ==> w + [] + [] == w + [];
  }

  lemma DropAfterPiece(w: string, y: string, p: char -> bool, r: char)
    requires p(r) && IsPiece(w, p) && (y != [] ==> !p(y[0]))
    ensures DropLast(w, p) == w
    ensures DropLast(w + [r] + y, p) == if y == [] then w else w + [r] + DropLast(y, p)
    ensures y != [] ==> DropLast(y, p) != []
  {
    if y == [] {
      assert w + [r] + y == w + [r];
    } else {
      DropLastAppend(w + [r], y, p);
    }
    assert !p(w[|w| - 1]);
  }

  lemma JoinEmpty(ws: seq<string>, p: char -> bool, r: char)
    requires ArePieces(ws, p)
    ensures Join(ws, r) == [] <==> ws == []
  {
    if ws != [] { assert IsPiece(ws[0], p); }
  }

  lemma PiecesOfPiece(w: string, rest: string, p: char -> bool)
    requires IsPiece(w, p) && (rest == [] || p(rest[0]))
    ensures Pieces(w + rest, p) == [w] + Pieces(rest, p)
  {
    var s := w + rest;
    assert forall i | 0 <= i < |w| :: s[i] == w[i];
    assert rest != [] ==> s[|w|] == rest[0];
    SpanNotIs(s, p, |w|);
    assert s[..|w|] == w && s[|w|..] == rest;
  }

  lemma ScanIsJoinStep(w: string, rest: string, p: char -> bool, r: char)
    requires p(r) && IsPiece(w, p) && (rest == [] || p(rest[0]))
    requires DropLast(Squeeze(rest, true, p, r), p) == Join(Pieces(rest, p), r)
    ensures DropLast(Squeeze(w + rest, true, p, r), p) == Join(Pieces(w + rest, p), r)
  {
    var y := Squeeze(rest, true, p, r);
    ScanPiece(w, rest, p, r);
    PiecesOfPiece(w, rest, p);
    SqueezeIsSqueezed(rest, true, p, r);
    EmptyScan(p, r);
    assert y != [] ==> !p(y[0]);
    hide Squeeze, Pieces, DropLast, IsPiece, ArePieces, IsSqueezed, Isolated;
    DropAfterPiece(w, y, p, r);
    JoinEmpty(Pieces(rest, p), p, r);
    assert rest == [] ==> w + [] + y == w;
    var ws := [w] + Pieces(rest, p);
    assert ws[1..] == Pieces(rest, p);
  }

  lemma CutPiece(s: string, p: char -> bool)
    requires s != [] && !p(s[0])
    ensures var n := SpanNot(s, p);
      && n > 0 && s == s[..n] + s[n..] && IsPiece(s[..n], p)
      && (s[n..] == [] || p(s[n..][0])) && |s[n..]| < |s|
  {
  }

  lemma SkipBreak(s: string, p: char -> bool, r: char)
    ensures s == [] ==> DropLast(Squeeze(s, true, p, r), p) == [] == Join(Pieces(s, p), r)
    ensures s != [] && p(s[0]) ==>
      Squeeze(s, true, p, r) == Squeeze(s[1..], true, p, r) && Pieces(s, p) == Pieces(s[1..], p)
  {
  }

  lemma {:induction false} ScanIsJoin(s: string, p: char -> bool, r: char)
    requires p(r)
    ensures DropLast(Squeeze(s, true, p, r), p) == Join(Pieces(s, p), r)
    decreases |s|
  {
    hide *;
    if s == [] {
      SkipBreak(s, p, r);
    } else if p(s[0]) {
      SkipBreak(s, p, r);
      ScanIsJoin(s[1..], p, r);
    } else {
      var n := SpanNot(s, p);
      CutPiece(s, p);
      ScanIsJoin(s[n..], p, r);
      ScanIsJoinStep(s[..n], s[n..], p, r);
    }
  }

  /** Tidying a text joins its pieces: the replacement of each inner run stays. */
  lemma TidyIsJoin(s: string, p: char -> bool, r: char)
    requires p(r)
    ensures Tidy(s, p, r) == Join(Pieces(s, p), r)
  {
    TidyIsScan(s, p, r);
    ScanIsJoin(s, p, r);
  }

  lemma {:induction false} PiecesOfJoin(ws: seq<string>, p: char -> bool, r: char)
    requires p(r) && ArePieces(ws, p)
    ensures Pieces(Join(ws, r), p) == ws
  {
    if ws != [] {
      assert IsPiece(ws[0], p);
      PiecesOfJoin(ws[1..], p, r);
      assert ws == [ws[0]] + ws[1..];
      if |ws| == 1 {
        PiecesOfPiece(ws[0], [], p);
        assert ws[0] + [] == ws[0];
      } else {
        var rest := [r] + Join(ws[1..], r);
        PiecesOfPiece(ws[0], rest, p);
        assert rest[1..] == Join(ws[1..], r);
        assert ws[0] + [r] + Join(ws[1..], r) == ws[0] + rest;
      }
    }
  }

  /** Tidied texts are equal iff they have the same pieces. */
  lemma TidyEqualIff(a: string, b: string, p: char -> bool, r: char)
    requires p(r)
    ensures Tidy(a, p, r) == Tidy(b, p, r) <==> Pieces(a, p) == Pieces(b, p)
  {
    hide Tidy, Pieces;
    TidyIsJoin(a, p, r);
    TidyIsJoin(b, p, r);
    PiecesOfJoin(Pieces(a, p), p, r);
    PiecesOfJoin(Pieces(b, p), p, r);
  }

  // ---- Tokens ------------------------------------------------------------

  /** The maximal runs of letters and digits, in order. */
  function Tokens(s: string): seq<string>
    decreases |s|
  {
    if s == [] then []
    else
      var n := Span(s, IsAlnum);
      if n == 0 then Tokens(s[1..]) else [s[..n]] + Tokens(s[n..])
  }

  predicate IsWord(s: string) {
    s != [] && All(s, IsAlnum)
  }

  lemma {:induction false} TokensAreWords(s: string)
    ensures forall t | t in Tokens(s) :: IsWord(t)
    decreases |s|
  {
    if s != [] {
      var n := Span(s, IsAlnum);
      if n == 0 {
        TokensAreWords(s[1..]);
      } else {
        TokensAreWords(s[n..]);
      }
    }
  }

  lemma TokensStep(s: string, n: nat)
    requires 0 < n == Span(s, IsAlnum)
    ensures Tokens(s) == [s[..n]] + Tokens(s[n..])
  {
  }

  lemma TokensSkip(s: string)
    requires s != [] && !IsAlnum(s[0])
    ensures Tokens(s) == Tokens(s[1..])
  {
  }

  lemma SpanExtends(a: string, b: string, n: nat)
    requires Span(a, IsAlnum) == n
    requires b == [] || !IsAlnum(b[0])
    ensures Span(a + b, IsAlnum) == n
  {
    assert forall i | 0 <= i < |a| :: (a + b)[i] == a[i];
    assert b != [] ==> (a + b)[|a|] == b[0];
    SpanIs(a + b, IsAlnum, n);
  }

  lemma SeqOfSeqs(w: string, x: seq<string>, y: seq<string>)
    ensures [w] + (x + y) == [w] + x + y
  {
  }

  lemma TokensConcatStep(a: string, b: string, n: nat)
    requires 0 < n == Span(a, IsAlnum)
    requires b == [] || !IsAlnum(b[0])
    requires Tokens(a[n..] + b) == Tokens(a[n..]) + Tokens(b)
    ensures Tokens(a + b) == Tokens(a) + Tokens(b)
  {
    hide *;
    SpanExtends(a, b, n);
    TokensStep(a + b, n);
    TokensStep(a, n);
    assert (a + b)[..n] == a[..n] && (a + b)[n..] == a[n..] + b;
    SeqOfSeqs(a[..n], Tokens(a[n..]), Tokens(b));
  }

  /** A separator in front of the rest cuts the tokens in two. */
  lemma {:induction false} TokensConcat(a: string, b: string)
    requires b == [] || !IsAlnum(b[0])
    ensures Tokens(a + b) == Tokens(a) + Tokens(b)
    decreases |a|
  {
    if a == [] {
      assert a + b == b;
    } else if !IsAlnum(a[0]) {
      assert (a + b)[1..] == a[1..] + b;
      TokensSkip(a);
      TokensSkip(a + b);
      TokensConcat(a[1..], b);
    } else {
      var n := Span(a, IsAlnum);
      TokensConcat(a[n..], b);
      TokensConcatStep(a, b, n);
    }
  }

  lemma TokensOfWord(w: string)
    requires IsWord(w)
    ensures Tokens(w) == [w]
  {
    SpanIs(w, IsAlnum, |w|);
    assert w[..|w|] == w && w[|w|..] == [];
  }

  /** A space between two texts separates their tokens. */
  lemma TokensCons(a: string, rest: string)
    ensures Tokens(a + " " + rest) == Tokens(a) + Tokens(rest)
  {
    assert a + " " + rest == a + (" " + rest);
    TokensConcat(a, " " + rest);
    assert (" " + rest)[1..] == rest;
    TokensSkip(" " + rest);
  }

  /** A word, alone or with a line end, is one token. */
  lemma TokensOfLine(w: string)
    requires IsWord(w)
    ensures Tokens(w + "\n") == [w]
  {
    TokensOfWord(w);
    TokensConcat(w, "\n");
    TokensSkip("\n");
    assert "\n"[1..] == [] && Tokens([]) == [];
  }

  // ---- Ordering ----------------------------------------------------------

  /** Python's `<=` on strings: lexicographic by code point. */
  predicate Leq(a: string, b: string) {
    a == [] || (b != [] && (a[0] < b[0] || (a[0] == b[0] && Leq(a[1..], b[1..]))))
  }

  /** The first place where two texts differ decides; a text comes before what it starts. */
  ghost predicate ComesBefore(a: string, b: string) {
    || a <= b
    || exists k: nat :: DecidedAt(a, b, k)
  }

  /** At `k` the texts differ for the first time, and `a` has the smaller character. */
  predicate DecidedAt(a: string, b: string, k: nat) {
    k < |a| && k < |b| && a[..k] == b[..k] && a[k] < b[k]
  }

  lemma TailDecided(c: char, s: string, t: string, k: nat)
    ensures DecidedAt([c] + s, [c] + t, k + 1) <==> DecidedAt(s, t, k)
    ensures !DecidedAt([c] + s, [c] + t, 0)
  {
    var a, b := [c] + s, [c] + t;
    if k < |s| && k < |t| {
      assert a[..k + 1] == [c] + s[..k] && b[..k + 1] == [c] + t[..k];
      assert ([c] + s[..k])[1..] == s[..k] && ([c] + t[..k])[1..] == t[..k];
    }
  }

  lemma TailComesBefore(c: char, s: string, t: string)
    ensures ComesBefore([c] + s, [c] + t) <==> ComesBefore(s, t)
  {
    var a, b := [c] + s, [c] + t;
    assert a <= b <==> s <= t by { assert a[1..] == s && b[1..] == t; }
    TailDecided(c, s, t, 0);
    if k: nat :| DecidedAt(a, b, k) {
      TailDecided(c, s, t, k - 1);
    }
    if k: nat :| DecidedAt(s, t, k) {
      TailDecided(c, s, t, k);
    }
    hide DecidedAt;
  }

  lemma DecidedByHead(a: string, b: string, k: nat)
    requires a != [] && b != [] && a[0] != b[0] && k > 0
    ensures !DecidedAt(a, b, k)
  {
    if k < |a| && k < |b| {
      assert a[..k][0] == a[0] && b[..k][0] == b[0];
    }
  }

  lemma HeadComesBefore(a: string, b: string)
    requires a != [] && b != [] && a[0] != b[0]
    ensures ComesBefore(a, b) <==> a[0] < b[0]
  {
    assert a[..0] == b[..0];
    assert DecidedAt(a, b, 0) <==> a[0] < b[0];
    forall k: nat | 0 < k ensures !DecidedAt(a, b, k) { DecidedByHead(a, b, k); }
    hide DecidedAt;
  }

  lemma {:induction false} LeqIff(a: string, b: string)
    ensures Leq(a, b) <==> ComesBefore(a, b)
  {
    hide ComesBefore;
    if a == [] || b == [] {
      EmptyComesBefore(a, b);
    } else if a[0] == b[0] {
      LeqIff(a[1..], b[1..]);
      TailComesBefore(a[0], a[1..], b[1..]);
      assert a == [a[0]] + a[1..] && b == [a[0]] + b[1..];
    } else {
      HeadComesBefore(a, b);
    }
  }

  lemma EmptyComesBefore(a: string, b: string)
    requires a == [] || b == []
    ensures ComesBefore(a, b) <==> a == []
  {
  }

  lemma {:induction false} LeqTotal(a: string, b: string)
    ensures Leq(a, b) || Leq(b, a)
  {
    if a != [] && b != [] && a[0] == b[0] {
      LeqTotal(a[1..], b[1..]);
    }
  }

  lemma {:induction false} LeqAntisymmetric(a: string, b: string)
    requires Leq(a, b) && Leq(b, a)
    ensures a == b
  {
    if a != [] {
      LeqAntisymmetric(a[1..], b[1..]);
      assert a == [a[0]] + a[1..] && b == [b[0]] + b[1..];
    }
  }

  lemma {:induction false} LeqTransitive(a: string, b: string, c: string)
    requires Leq(a, b) && Leq(b, c)
    ensures Leq(a, c)
  {
    if a != [] && a[0] == b[0] && b[0] == c[0] {
      LeqTransitive(a[1..], b[1..], c[1..]);
    }
  }

  predicate IsLeast(x: string, s: set<string>) {
    x in s && forall y | y in s :: Leq(x, y)
  }

  lemma {:induction false} LeastExists(s: set<string>)
    requires s != {}
    ensures exists x :: IsLeast(x, s)
  {
    var z :| z in s;
    LeqTotal(z, z);
    if s == {z} {
      assert IsLeast(z, s);
    } else {
      LeastExists(s - {z});
      var x :| IsLeast(x, s - {z});
      LeqTotal(x, z);
      if Leq(x, z) {
        assert IsLeast(x, s);
      } else {
        forall y | y in s ensures Leq(z, y) {
          if y != z { LeqTransitive(z, x, y); }
        }
        assert IsLeast(z, s);
      }
    }
  }

  /** Python's `sorted` on a collection of distinct strings. */
  function Sorted(s: set<string>): (r: seq<string>)
    ensures forall x :: x in r <==> x in s
    ensures |r| == |s|
    ensures forall i, j | 0 <= i < j < |r| :: Leq(r[i], r[j]) && r[i] != r[j]
  {
    if s == {} then []
    else
      LeastExists(s);
      assert forall x, y | IsLeast(x, s) && IsLeast(y, s) :: x == y by {
        forall x, y | IsLeast(x, s) && IsLeast(y, s) ensures x == y {
          LeqAntisymmetric(x, y);
        }
      }
      var x :| IsLeast(x, s);
      [x] + Sorted(s - {x})
  }

  // ---- Numerals ----------------------------------------------------------

  /** `str(n)` for a natural number. */
  function Decimal(n: nat): (r: string)
    ensures r != [] && All(r, IsDigit)
  {
    var d := ['0' + (n % 10) as char];
    if n < 10 then d else Decimal(n / 10) + d
  }

  /** The number a numeral stands for, read from the left. */
  function Value(s: string): nat
    requires All(s, IsDigit)
  {
    if s == [] then 0 else Value(s[..|s| - 1]) * 10 + (s[|s| - 1] as int - '0' as int)
  }

  /** A numeral stands for its number and has no leading zero; so different numbers have
      different numerals. */
  lemma {:induction false} DecimalIs(n: nat)
    ensures Value(Decimal(n)) == n
    ensures Decimal(n)[0] == '0' ==> n == 0
  {
    var r := Decimal(n);
    if n >= 10 {
      DecimalIs(n / 10);
      assert r[..|r| - 1] == Decimal(n / 10);
    } else {
      assert r[..|r| - 1] == [];
    }
  }
}
