/** `_squash`: the comparison form under which a quote is looked up in the artifact.
    The reference notion is the list of words: text read up to whitespace and case. */
module Squashing {
  import opened Text

  function Squash(s: string): string {
    Lower(Tidy(s, IsSpace, ' '))
  }

  // ---- Words: the reference reading of a text ----------------------------

  predicate IsInk(c: char) {
    !IsSpace(c)
  }

  /** `s.split()`. */
  function Words(s: string): seq<string> {
    Pieces(s, IsSpace)
  }

  /** Two texts read the same up to the amount and kind of whitespace and letter case. */
  predicate SameReading(a: string, b: string) {
    Words(Lower(a)) == Words(Lower(b))
  }

  lemma {:induction false} SqueezeLower(s: string, inRun: bool)
    ensures Squeeze(Lower(s), inRun, IsSpace, ' ') == Lower(Squeeze(s, inRun, IsSpace, ' '))
  {
    if s != [] {
      assert Lower(s)[1..] == Lower(s[1..]);
      assert IsSpace(Lower(s)[0]) == IsSpace(s[0]);
      SqueezeLower(s[1..], IsSpace(s[0]));
    }
  }

  /** Case is folded last in the program, but might as well be folded first. */
  lemma SquashOfLower(s: string)
    ensures Squash(s) == Tidy(Lower(s), IsSpace, ' ')
  {
    hide Squeeze, Tidy;
    TidyIsScan(s, IsSpace, ' ');
    TidyIsScan(Lower(s), IsSpace, ' ');
    SqueezeLower(s, true);
    var y := Squeeze(s, true, IsSpace, ' ');
    assert y != [] ==> IsSpace(Lower(y)[|y| - 1]) == IsSpace(y[|y| - 1]);
    assert Lower(DropLast(y, IsSpace)) == DropLast(Lower(y), IsSpace);
  }

  /** The comparison key separates exactly the texts that read differently. */
  lemma SquashEqualIffSameReading(a: string, b: string)
    ensures Squash(a) == Squash(b) <==> SameReading(a, b)
  {
    hide Tidy, Squash, Pieces;
    SquashOfLower(a);
    SquashOfLower(b);
    TidyEqualIff(Lower(a), Lower(b), IsSpace, ' ');
  }

  lemma SquashIdempotent(s: string)
    ensures Squash(Squash(s)) == Squash(s)
  {
    hide Tidy, IsTidy;
    SquashOfLower(s);
    var t := Squash(s);
    TidyIsTidy(Lower(s), IsSpace, ' ');
    TidyFixed(t, IsSpace, ' ');
    LowerIdempotent(Tidy(s, IsSpace, ' '));
  }

  // ---- Space around a text -----------------------------------------------

  lemma {:induction false} PiecesAfter(a: string, s: string)
    requires All(a, IsSpace)
    ensures Pieces(a + s, IsSpace) == Pieces(s, IsSpace)
  {
    if a == [] {
      assert a + s == s;
    } else {
      assert IsSpace(a[0]) && (a + s)[0] == a[0];
      assert (a + s)[1..] == a[1..] + s;
      PiecesAfter(a[1..], s);
    }
  }

  lemma {:induction false} PiecesBefore(s: string, b: string)
    requires All(b, IsSpace)
    ensures Pieces(s + b, IsSpace) == Pieces(s, IsSpace)
    decreases |s|
  {
    if s == [] {
      assert s + b == b && b + [] == b;
      PiecesAfter(b, []);
    } else if IsSpace(s[0]) {
      assert (s + b)[1..] == s[1..] + b;
      PiecesBefore(s[1..], b);
    } else {
      var n := SpanNot(s, IsSpace);
      var w, rest := s[..n], s[n..];
      assert s == w + rest && s + b == w + (rest + b);
      assert b != [] ==> IsSpace(b[0]);
      assert rest != [] ==> (rest + b)[0] == rest[0];
      hide Pieces, SpanNot, IsSpace;
      PiecesOfPiece(w, rest, IsSpace);
      PiecesOfPiece(w, rest + b, IsSpace);
      PiecesBefore(rest, b);
    }
  }

  lemma SpaceLower(a: string)
    requires All(a, IsSpace)
    ensures All(Lower(a), IsSpace)
  {
  }

  /** Stripping a text does not change how it reads. */
  lemma SpaceAround(s: string) returns (a: string, b: string)
    ensures s == a + (Strip(s, IsSpace) + b) && All(a, IsSpace) && All(b, IsSpace)
  {
    var t := LStrip(s, IsSpace);
    var r := RStrip(t, IsSpace);
    hide IsSpace, LStrip, RStrip;
    a, b := s[..|s| - |t|], t[|r|..];
    assert t == r + b;
  }

  lemma StripReadsSame(s: string)
    ensures SameReading(Strip(s, IsSpace), s)
  {
    hide *;
    var r := Strip(s, IsSpace);
    var a, b := SpaceAround(s);
    SpaceLower(a);
    SpaceLower(b);
    LowerConcat(a, r + b);
    LowerConcat(r, b);
    PiecesAfter(Lower(a), Lower(r) + Lower(b));
    PiecesBefore(Lower(r), Lower(b));
    SamePieces(r, s);
  }

  lemma SamePieces(a: string, b: string)
    requires Pieces(Lower(a), IsSpace) == Pieces(Lower(b), IsSpace)
    ensures SameReading(a, b)
  {
    hide Pieces, Lower;
  }

  /** So a quote is read where its stripped form is. */
  lemma StripIsReadAlike(t: string, e: string)
    ensures HasSpanReading(t, Strip(e, IsSpace)) <==> HasSpanReading(t, e)
  {
    StripReadsSame(e);
    hide Words, Strip;
  }

  // ---- Substrings --------------------------------------------------------

  lemma LowerOccurs(x: string, y: string, k: int)
    requires OccursAt(x, y, k)
    ensures OccursAt(Lower(x), Lower(y), k)
  {
    assert Lower(y)[k..k + |x|] == Lower(y[k..k + |x|]);
  }

  /** The scan of a text contains the scan of each of its parts. */
  lemma ScanOfPart(a: string, x: string, b: string) returns (u: string, w: string)
    ensures Squeeze(a + x + b, true, IsSpace, ' ') == u + Squeeze(x, true, IsSpace, ' ') + w
  {
    var before := RunAfter(a, true, IsSpace);
    SqueezeConcat(a + x, b, true, IsSpace, ' ');
    SqueezeConcat(a, x, true, IsSpace, ' ');
    SqueezeStart(x, IsSpace, ' ');
    u := Squeeze(a, true, IsSpace, ' ')
         + (if !before && x != [] && IsSpace(x[0]) then " " else "");
    w := Squeeze(b, RunAfter(a + x, true, IsSpace), IsSpace, ' ');
    assert Squeeze(a + x, true, IsSpace, ' ') == u + Squeeze(x, true, IsSpace, ' ');
  }

  lemma DropLastOccurs(u: string, y: string, w: string) returns (k: nat)
    requires IsSqueezed(y, true, IsSpace, ' ')
    ensures OccursAt(DropLast(y, IsSpace), DropLast(u + y + w, IsSpace), k)
  {
    var v, z := DropLast(y, IsSpace), u + y + w;
    if v == [] {
      k := 0;
    } else {
      k := |u|;
      assert IsInk(v[|v| - 1]);
      assert z[|u|..|u| + |v|] == v;
      assert z[|u| + |v| - 1] == v[|v| - 1];
      assert DropLast(z, IsSpace)[|u|..|u| + |v|] == z[|u|..|u| + |v|];
    }
  }

  /** Squashing keeps substrings: `x in y` implies `_squash(x) in _squash(y)`. */
  lemma SquashMonotone(y: string, x: string)
    requires Contains(y, x)
    ensures Contains(Squash(y), Squash(x))
  {
    var i :| 0 <= i <= |y| && OccursAt(x, y, i);
    assert y == y[..i] + x + y[i + |x|..];
    var u, w := ScanOfPart(y[..i], x, y[i + |x|..]);
    SqueezeIsSqueezed(x, true, IsSpace, ' ');
    var k := DropLastOccurs(u, Squeeze(x, true, IsSpace, ' '), w);
    TidyIsScan(x, IsSpace, ' ');
    TidyIsScan(y, IsSpace, ' ');
    LowerOccurs(Tidy(x, IsSpace, ' '), Tidy(y, IsSpace, ' '), k);
  }

  /** A stretch of the scan that starts and ends with ink is the scan of a span. */
  lemma SpanOfScan(t: string, k: nat, n: nat) returns (i: nat, j: nat)
    requires 0 < n && k + n <= |Squeeze(t, true, IsSpace, ' ')|
    requires IsInk(Squeeze(t, true, IsSpace, ' ')[k])
    ensures i <= j <= |t|
    ensures Squeeze(t[i..j], true, IsSpace, ' ') == Squeeze(t, true, IsSpace, ' ')[k..k + n]
  {
    var ft := Squeeze(t, true, IsSpace, ' ');
    i := SqueezeSplit(t, true, IsSpace, ' ', k);
    var before := RunAfter(t[..i], true, IsSpace);
    var m := SqueezeSplit(t[i..], before, IsSpace, ' ', n);
    j := i + m;
    assert t[i..][..m] == t[i..j];
    assert ft[k..][..n] == ft[k..k + n];
    SqueezeStart(t[i..j], IsSpace, ' ');
  }

  lemma SquashEnds(e: string)
    requires Squash(e) != []
    ensures IsInk(Squash(e)[0]) && IsInk(Squash(e)[|Squash(e)| - 1])
  {
    hide Tidy, Isolated;
    TidyIsTidy(e, IsSpace, ' ');
    var y := Tidy(e, IsSpace, ' ');
    assert IsInk(y[0]) && IsInk(y[|y| - 1]);
  }

  lemma SpanOfTidy(t: string, k: nat, n: nat) returns (i: nat, j: nat)
    requires 0 < n && k + n <= |Tidy(t, IsSpace, ' ')|
    requires IsInk(Tidy(t, IsSpace, ' ')[k]) && IsInk(Tidy(t, IsSpace, ' ')[k + n - 1])
    ensures i <= j <= |t|
    ensures Tidy(t[i..j], IsSpace, ' ') == Tidy(t, IsSpace, ' ')[k..k + n]
  {
    hide Squeeze, Tidy;
    TidyIsScan(t, IsSpace, ' ');
    var ft := Squeeze(t, true, IsSpace, ' ');
    SliceOfTake(ft, |Tidy(t, IsSpace, ' ')|, k, k + n);
    i, j := SpanOfScan(t, k, n);
    TidyIsScan(t[i..j], IsSpace, ' ');
    assert ft[k..k + n][n - 1] == ft[k + n - 1];
  }

  /** Conversely, a non-blank hit in the squashed text is a span of the original text. */
  lemma SquashHitComesFromSpan(t: string, e: string) returns (i: nat, j: nat)
    requires Squash(e) != [] && Contains(Squash(t), Squash(e))
    ensures i <= j <= |t| && Squash(t[i..j]) == Squash(e)
  {
    hide Tidy;
    var q, y := Squash(e), Tidy(t, IsSpace, ' ');
    SquashEnds(e);
    var k :| 0 <= k <= |Squash(t)| && OccursAt(q, Squash(t), k);
    assert Squash(t)[k..k + |q|] == q;
    assert LowerChar(y[k]) == q[0] && LowerChar(y[k + |q| - 1]) == q[|q| - 1];
    i, j := SpanOfTidy(t, k, |q|);
    assert Lower(y[k..k + |q|]) == q;
  }

  /** Some span of `t` reads the same as `e`. */
  ghost predicate HasSpanReading(t: string, e: string) {
    exists i, j | 0 <= i <= j <= |t| :: SameReading(t[i..j], e)
  }

  /** A non-blank quote is found iff some span of the artifact reads the same. */
  lemma QuoteFoundIff(t: string, e: string)
    requires !All(e, IsSpace)
    ensures Contains(Squash(t), Squash(e)) <==> HasSpanReading(t, e)
  {
    hide Squash, SameReading, All;
    if Contains(Squash(t), Squash(e)) {
      SquashOfBlank(e);
      var i, j := SquashHitComesFromSpan(t, e);
      SquashEqualIffSameReading(t[i..j], e);
    }
    if HasSpanReading(t, e) {
      var i, j :| 0 <= i <= j <= |t| && SameReading(t[i..j], e);
      SquashEqualIffSameReading(t[i..j], e);
      assert OccursAt(t[i..j], t, i);
      SquashMonotone(t, t[i..j]);
    }
  }

  lemma {:induction false} BlankHasNoPieces(s: string)
    ensures Pieces(s, IsSpace) == [] <==> All(s, IsSpace)
  {
    if s != [] && IsSpace(s[0]) {
      BlankHasNoPieces(s[1..]);
      assert All(s[1..], IsSpace) ==> forall i | 1 <= i < |s| :: IsSpace(s[i]) by {
        assert forall i | 1 <= i < |s| :: s[i] == s[1..][i - 1];
      }
    }
  }

  lemma SquashOfBlank(s: string)
    ensures Squash(s) == [] <==> All(s, IsSpace)
  {
    hide Tidy, Pieces;
    TidyIsJoin(s, IsSpace, ' ');
    BlankHasNoPieces(s);
    JoinEmpty(Pieces(s, IsSpace), IsSpace, ' ');
  }
}
