/** The consistency sweep without its scanning: which texts are lines, fences and right-hand
    sides, by their positions, and which symbols clash. */
module ConsistencyForms {
  import opened Wrappers
  import opened Text
  import opened Squashing
  import opened Findings
  import opened Consistency

  // ---- Fences ------------------------------------------------------------

  predicate TicksAt(line: string, k: nat) {
    k + 3 <= |line| && line[k] == '`' && line[k + 1] == '`' && line[k + 2] == '`'
  }

  lemma ThreeTicks(t: string)
    ensures |t| >= 3 && t[..3] == "```" <==> TicksAt(t, 0)
  {
    if |t| >= 3 {
      var three := t[..3];
      assert three[0] == t[0] && three[1] == t[1] && three[2] == t[2];
    }
  }

  /** A fence is three backticks behind nothing but space. */
  lemma FenceIff(line: string)
    ensures IsFence(line) <==> exists k | 0 <= k <= |line| :: All(line[..k], IsSpace) && TicksAt(line, k)
  {
    var t := LStrip(line, IsSpace);
    var n := |line| - |t|;
    assert t == line[n..] && All(line[..n], IsSpace);
    ThreeTicks(t);
    TicksMove(line, n);
    if k :| 0 <= k <= |line| && All(line[..k], IsSpace) && TicksAt(line, k) {
      assert !IsSpace('`');
      hide IsSpace;
      assert forall i | 0 <= i < k :: line[i] == line[..k][i];
      LStripIs(line, IsSpace, k);
      assert n == k;
    }
  }

  lemma TicksMove(line: string, n: nat)
    requires n <= |line|
    ensures TicksAt(line[n..], 0) <==> TicksAt(line, n)
  {
  }

  // ---- Lines -------------------------------------------------------------

  /** The line boundaries of `str.splitlines`. */
  predicate IsBreak(end: string) {
    end in {"\n", "\r", "\r\n", "\U{0B}", "\U{0C}", "\U{1C}", "\U{1D}", "\U{1E}"}
  }

  predicate HasNoBreak(line: string) {
    forall i | 0 <= i < |line| :: !IsBreak([line[i]])
  }

  /** The text is these lines, each with its boundary; the last may lack one. */
  ghost predicate AreLines(text: string, lines: seq<string>)
    decreases |lines|
  {
    if lines == [] then text == ""
    else
      && HasNoBreak(lines[0])
      && exists end, rest :: IsFirstLine(text, lines[0], end, rest) && AreLines(rest, lines[1..])
  }

  predicate IsFirstLine(text: string, line: string, end: string, rest: string) {
    && text == line + end + rest
    && (IsBreak(end) || (end == "" && rest == "" && line != ""))
    && !(end == "\r" && rest != "" && rest[0] == '\n')
  }

  lemma BreakIff(c: char)
    ensures IsBreak([c]) <==> !InLine(c)
  {
    assert [c] == "\n" <==> c == '\n';
    assert [c] == "\r" <==> c == '\r';
    assert [c] == "\U{0B}" <==> c == '\U{0B}';
    assert [c] == "\U{0C}" <==> c == '\U{0C}';
    assert [c] == "\U{1C}" <==> c == '\U{1C}';
    assert [c] == "\U{1D}" <==> c == '\U{1D}';
    assert [c] == "\U{1E}" <==> c == '\U{1E}';
    assert [c] != "\r\n";
  }

  lemma NoBreakIff(line: string)
    ensures HasNoBreak(line) <==> All(line, InLine)
  {
    forall c { BreakIff(c); }
  }

  lemma FirstLineIs(text: string) returns (end: string, rest: string)
    requires text != []
    ensures var n := Span(text, InLine);
      && IsFirstLine(text, text[..n], end, rest) && HasNoBreak(text[..n])
      && SplitLines(text) == [text[..n]] + SplitLines(rest)
    ensures |rest| < |text|
  {
    var n := Span(text, InLine);
    NoBreakIff(text[..n]);
    if n == |text| {
      end, rest := "", "";
    } else {
      BreakIff(text[n]);
      var next := if text[n] == '\r' && n + 1 < |text| && text[n + 1] == '\n' then n + 2 else n + 1;
      end, rest := text[n..next], text[next..];
      assert next == n + 1 ==> end == [text[n]];
      assert next == n + 2 ==> end == "\r\n";
      assert end == "\r" ==> text[n] == '\r' by { assert end[0] == text[n]; }
    }
  }

  /** The lines of a text are those it falls into. */
  lemma {:induction false} LinesAre(text: string)
    ensures AreLines(text, SplitLines(text))
    decreases |text|
  {
    hide IsFirstLine, HasNoBreak;
    if text != [] {
      var end, rest := FirstLineIs(text);
      var lines := SplitLines(text);
      hide SplitLines;
      assert lines[1..] == SplitLines(rest);
      LinesAre(rest);
    }
  }

  lemma FirstLineGives(text: string, line: string, end: string, rest: string)
    requires IsFirstLine(text, line, end, rest) && HasNoBreak(line)
    ensures text != [] && SplitLines(text) == [line] + SplitLines(rest)
  {
    NoBreakIff(line);
    assert text == line + (end + rest);
    if end == "" {
      assert text == line;
      SpanIs(text, InLine, |text|);
      assert SplitLines(rest) == [];
    } else {
      BreakStarts(end);
      assert text[|line|] == end[0];
      assert forall i | 0 <= i < |line| :: text[i] == line[i];
      SpanIs(text, InLine, |line|);
      assert text[..|line|] == line;
      assert text[|line| + |end|..] == rest;
      assert |end| == 2 ==> text[|line| + 1] == end[1];
      assert |end| == 1 && rest != "" ==> text[|line| + 1] == rest[0];
      assert |end| == 1 ==> end == [end[0]];
      assert end == ['\r'] ==> end == "\r";
    }
  }

  lemma BreakStarts(end: string)
    requires IsBreak(end)
    ensures 1 <= |end| <= 2 && !InLine(end[0])
    ensures |end| == 2 ==> end[0] == '\r' && end[1] == '\n'
  {
  }

  /** There is no other way to fall into lines. */
  lemma {:induction false} LinesAreUnique(text: string, lines: seq<string>)
    requires AreLines(text, lines)
    ensures lines == SplitLines(text)
    decreases |lines|
  {
    hide IsFirstLine, HasNoBreak, SplitLines;
    if lines == [] {
      NoLines();
    } else {
      var end, rest :| IsFirstLine(text, lines[0], end, rest) && AreLines(rest, lines[1..]);
      FirstLineGives(text, lines[0], end, rest);
      LinesAreUnique(rest, lines[1..]);
      assert lines == [lines[0]] + lines[1..];
    }
  }

  lemma NoLines()
    ensures SplitLines("") == []
  {
  }

  // ---- Right-hand sides --------------------------------------------------

  /** A right-hand side without space around it and then without dots, semicolons and commas
      at its end. */
  predicate IsCore(rhs: string, core: string) {
    exists i, j | 0 <= i <= j <= |rhs| :: IsCoreAt(rhs, core, i, j)
  }

  predicate IsCoreAt(rhs: string, core: string, i: nat, j: nat)
    requires i <= j <= |rhs|
  {
    && All(rhs[..i], IsSpace) && All(rhs[j..], IsSpace)
    && (i < j ==> !IsSpace(rhs[i]) && !IsSpace(rhs[j - 1]))
    && core <= rhs[i..j]
    && (core != "" ==> core[|core| - 1] !in {'.', ';', ','})
    && forall k | i + |core| <= k < j :: rhs[k] in {'.', ';', ','}
  }

  function CoreOf(rhs: string): string {
    RStrip(Strip(rhs, IsSpace), IsRhsTrailing)
  }

  lemma CoreIs(rhs: string)
    ensures IsCore(rhs, CoreOf(rhs))
  {
    var s, core := Strip(rhs, IsSpace), CoreOf(rhs);
    var i := StripGives(rhs);
    var j := i + |s|;
    hide IsSpace, Strip, RStrip;
    assert s == rhs[i..j] && core == s[..|core|];
    forall k | i + |core| <= k < j ensures rhs[k] in {'.', ';', ','} { assert rhs[k] == s[k - i]; }
    assert i < j ==> s[0] == rhs[i] && s[|s| - 1] == rhs[j - 1];
    assert IsCoreAt(rhs, core, i, j);
  }

  lemma CoreAtIsUnique(rhs: string, core: string, i: nat, j: nat)
    requires i <= j <= |rhs| && IsCoreAt(rhs, core, i, j)
    ensures RStrip(rhs[i..j], IsRhsTrailing) == core
  {
    var s := rhs[i..j];
    assert core == s[..|core|];
    forall k | |core| <= k < |s| ensures IsRhsTrailing(s[k]) { assert s[k] == rhs[i + k]; }
    hide IsSpace;
    RStripIs(s, IsRhsTrailing, |core|);
  }

  lemma CoreAtIsStripped(rhs: string, core: string, i: nat, j: nat)
    requires i <= j <= |rhs| && IsCoreAt(rhs, core, i, j)
    ensures IsStripped(rhs, i, rhs[i..j])
  {
    hide IsSpace;
  }

  lemma CoreIsUnique(rhs: string, core: string)
    requires IsCore(rhs, core)
    ensures core == CoreOf(rhs)
  {
    var i, j :| 0 <= i <= j <= |rhs| && IsCoreAt(rhs, core, i, j);
    hide IsSpace, IsCoreAt, IsStripped, Strip, RStrip;
    CoreAtIsUnique(rhs, core, i, j);
    CoreAtIsStripped(rhs, core, i, j);
    StripIs(rhs, i, rhs[i..j]);
  }

  /** What starts with ink is squeezed to its words with single spaces, and one more if it
      ends in space. */
  lemma NormalIs(rhs: string)
    ensures var core := CoreOf(rhs);
      NormalizeRhs(rhs) == Squash(core) + (if core != "" && IsSpace(core[|core| - 1]) then " " else "")
  {
    hide *;
    var core := CoreOf(rhs);
    NormalIsScan(rhs);
    CoreStartsInInk(rhs);
    EmptyScan(IsSpace, ' ');
    EndOfScan(core);
    SquashIsScan(core);
    LowerOfEnd(DropLast(Squeeze(core, true, IsSpace, ' '), IsSpace));
  }

  lemma LowerOfEnd(y: string)
    ensures Lower(y + " ") == Lower(y) + " " && y + "" == y && Lower(y) + "" == Lower(y)
    ensures DropLast("", IsSpace) == "" && Lower("") == ""
  {
  }

  lemma NormalIsScan(rhs: string)
    ensures NormalizeRhs(rhs) == Lower(Squeeze(CoreOf(rhs), true, IsSpace, ' '))
  {
    CoreStartsInInk(rhs);
    SqueezeStart(CoreOf(rhs), IsSpace, ' ');
    hide Squeeze, IsSpace, Lower, Strip, RStrip;
    assert [] + Squeeze(CoreOf(rhs), true, IsSpace, ' ') == Squeeze(CoreOf(rhs), true, IsSpace, ' ');
  }

  lemma CoreStartsInInk(rhs: string)
    ensures CoreOf(rhs) != [] ==> !IsSpace(CoreOf(rhs)[0])
  {
    var s := Strip(rhs, IsSpace);
    hide IsSpace, Strip;
    assert CoreOf(rhs) != [] ==> CoreOf(rhs)[0] == s[0];
  }

  lemma SquashIsScan(s: string)
    ensures Squash(s) == Lower(DropLast(Squeeze(s, true, IsSpace, ' '), IsSpace))
  {
    hide Squeeze, Tidy;
    TidyIsScan(s, IsSpace, ' ');
  }

  lemma {:induction false} EndOfScan(s: string)
    ensures var y := Squeeze(s, true, IsSpace, ' ');
      y == DropLast(y, IsSpace)
           + (if y != "" && IsSpace(y[|y| - 1]) then " " else "")
    ensures var y := Squeeze(s, true, IsSpace, ' ');
      s != [] && !IsSpace(s[0]) ==> y != [] && (IsSpace(y[|y| - 1]) <==> IsSpace(s[|s| - 1]))
  {
    SqueezeIsSqueezed(s, true, IsSpace, ' ');
    ScanEndsAlike(s, true);
  }

  lemma {:induction false} ScanEndsAlike(s: string, inRun: bool)
    ensures var y := Squeeze(s, inRun, IsSpace, ' ');
      y != [] ==> (IsSpace(y[|y| - 1]) <==> IsSpace(s[|s| - 1]))
    ensures s != [] && !(inRun && All(s, IsSpace)) ==> Squeeze(s, inRun, IsSpace, ' ') != []
  {
    if s != [] {
      ScanEndsAlike(s[1..], IsSpace(s[0]));
      var tail := Squeeze(s[1..], IsSpace(s[0]), IsSpace, ' ');
      assert |s| > 1 ==> s[1..][|s| - 2] == s[|s| - 1];
      if tail == [] && |s| > 1 {
        assert IsSpace(s[0]) && All(s[1..], IsSpace);
        assert s[|s| - 1] == s[1..][|s| - 2];
      }
    }
  }

  predicate EndsInSpace(s: string) {
    s != "" && IsSpace(s[|s| - 1])
  }

  /** Two right-hand sides are the same iff their cores read the same up to whitespace and
      case and both or neither end in space. */
  predicate SameSide(a: string, b: string) {
    SameReading(a, b) && (EndsInSpace(a) <==> EndsInSpace(b))
  }

  lemma SidesAgreeIff(a: string, b: string)
    ensures NormalizeRhs(a) == NormalizeRhs(b) <==> SameSide(CoreOf(a), CoreOf(b))
    ensures NormalizeRhs(a) == [] <==> CoreOf(a) == []
  {
    var ca, cb := CoreOf(a), CoreOf(b);
    hide NormalizeRhs, CoreOf, Squash, SameReading;
    NormalIs(a);
    NormalIs(b);
    InkAtEnd(ca);
    InkAtEnd(cb);
    SquashEqualIffSameReading(ca, cb);
    CoreStartsInInk(a);
    NotBlank(ca);
    LastDecides(Squash(ca), EndsInSpace(ca), Squash(cb), EndsInSpace(cb));
  }

  lemma InkAtEnd(s: string)
    ensures Squash(s) != [] ==> !IsSpace(Squash(s)[|Squash(s)| - 1])
  {
    hide Squash;
    if Squash(s) != [] { SquashEnds(s); }
  }

  lemma NotBlank(s: string)
    ensures s != [] && !IsSpace(s[0]) ==> Squash(s) != []
    ensures Squash("") == []
  {
    hide Squash;
    SquashOfBlank(s);
    SquashOfBlank("");
  }

  lemma EndIs(x: string, p: bool)
    requires x != [] ==> !IsSpace(x[|x| - 1])
    ensures var s := x + (if p then " " else "");
      && (p <==> s != [] && IsSpace(s[|s| - 1]))
      && x == if p then s[..|s| - 1] else s
  {
    var s := x + (if p then " " else "");
    assert p ==> s[|s| - 1] == ' ';
    assert !p ==> s == x;
  }

  lemma LastDecides(x: string, p: bool, y: string, q: bool)
    requires (x != [] ==> !IsSpace(x[|x| - 1])) && (y != [] ==> !IsSpace(y[|y| - 1]))
    ensures x + (if p then " " else "") == y + (if q then " " else "") <==> x == y && p == q
  {
    hide IsSpace;
    EndIs(x, p);
    EndIs(y, q);
  }

  // ---- What a line defines -----------------------------------------------

  /** Of the patterns that find a symbol which is no prose word, the first finds this. */
  predicate SideOn(config: Config, line: string, symbol: string, rhs: string) {
    exists k | 0 <= k < |config.patterns| :: FindsFirst(config, line, k, symbol, rhs)
  }

  predicate FindsFirst(config: Config, line: string, k: nat, symbol: string, rhs: string)
    requires k < |config.patterns|
  {
    && config.patterns[k](line) == Some(Match(symbol, rhs)) && Lower(symbol) !in config.proseSymbols
    && forall l | 0 <= l < k && config.patterns[l](line).Some? ::
         Lower(config.patterns[l](line).value.symbol) in config.proseSymbols
  }

  lemma {:induction false} DefinitionFrom(config: Config, line: string, k: nat, symbol: string, x: string)
    requires k <= |config.patterns|
    requires forall l | 0 <= l < k && config.patterns[l](line).Some? ::
      Lower(config.patterns[l](line).value.symbol) in config.proseSymbols
    ensures DefinitionIn(config, config.patterns[k..], line) == Some(Match(symbol, x))
       <==> exists rhs :: SideOn(config, line, symbol, rhs) && x == NormalizeRhs(rhs)
    decreases |config.patterns| - k
  {
    hide NormalizeRhs, Lower;
    if k < |config.patterns| {
      var m := config.patterns[k](line);
      assert config.patterns[k..][1..] == config.patterns[k + 1..];
      if m.Some? && Lower(m.value.symbol) !in config.proseSymbols {
        assert FindsFirst(config, line, k, m.value.symbol, m.value.rhs);
      } else {
        DefinitionFrom(config, line, k + 1, symbol, x);
      }
    }
  }

  lemma DefinitionIff(config: Config, line: string, symbol: string, x: string)
    ensures DefinitionIn(config, config.patterns, line) == Some(Match(symbol, x))
       <==> exists rhs :: SideOn(config, line, symbol, rhs) && x == NormalizeRhs(rhs)
  {
    hide DefinitionIn, SideOn, NormalizeRhs, Lower;
    assert config.patterns[0..] == config.patterns;
    DefinitionFrom(config, line, 0, symbol, x);
  }

  /** A line that is neither a fence nor hidden gives the symbol a right-hand side with this
      non-empty core. */
  ghost predicate Gives(config: Config, lines: seq<string>, i: nat, symbol: string, rhs: string, core: string) {
    && i < |lines| && !IsFence(lines[i]) && !Hidden(lines, i)
    && SideOn(config, lines[i], symbol, rhs) && IsCore(rhs, core) && core != ""
  }

  /** Two such lines give it right-hand sides that are not the same. */
  ghost predicate Clashes(config: Config, lines: seq<string>, symbol: string) {
    exists i: nat, j: nat, a, b, ca, cb ::
      Gives(config, lines, i, symbol, a, ca) && Gives(config, lines, j, symbol, b, cb) && !SameSide(ca, cb)
  }

  // ---- Which symbols clash -----------------------------------------------

  lemma GivenIsDefined(config: Config, lines: seq<string>, i: nat, symbol: string, rhs: string, core: string)
    requires Gives(config, lines, i, symbol, rhs, core)
    ensures Defines(config, lines, i, symbol, NormalizeRhs(rhs)) && core == CoreOf(rhs)
  {
    hide DefinitionIn, SideOn, IsFence, Hidden, IsCore, NormalizeRhs, CoreOf;
    DefinitionIff(config, lines[i], symbol, NormalizeRhs(rhs));
    CoreIsUnique(rhs, core);
    SidesAgreeIff(rhs, rhs);
  }

  lemma DefinedIsGiven(config: Config, lines: seq<string>, i: nat, symbol: string, x: string) returns (rhs: string)
    requires Defines(config, lines, i, symbol, x)
    ensures Gives(config, lines, i, symbol, rhs, CoreOf(rhs)) && x == NormalizeRhs(rhs)
  {
    hide DefinitionIn, SideOn, IsFence, Hidden, IsCore, NormalizeRhs, CoreOf;
    DefinitionIff(config, lines[i], symbol, x);
    rhs :| SideOn(config, lines[i], symbol, rhs) && x == NormalizeRhs(rhs);
    CoreIs(rhs);
    SidesAgreeIff(rhs, rhs);
  }

  lemma ContradictedIff(config: Config, lines: seq<string>, symbol: string)
    ensures Contradicted(config, lines, symbol) <==> Clashes(config, lines, symbol)
  {
    hide Defines, Gives, NormalizeRhs, CoreOf, SameSide;
    if Contradicted(config, lines, symbol) {
      var i: nat, j: nat, x, y :|
        Defines(config, lines, i, symbol, x) && Defines(config, lines, j, symbol, y) && x != y;
      var a := DefinedIsGiven(config, lines, i, symbol, x);
      var b := DefinedIsGiven(config, lines, j, symbol, y);
      SidesAgreeIff(a, b);
    }
    if i: nat, j: nat, a, b, ca, cb :|
      Gives(config, lines, i, symbol, a, ca) && Gives(config, lines, j, symbol, b, cb) && !SameSide(ca, cb)
    {
      GivenIsDefined(config, lines, i, symbol, a, ca);
      GivenIsDefined(config, lines, j, symbol, b, cb);
      SidesAgreeIff(a, b);
    }
  }

  /** The sweep reports the symbols that clash in the lines of the text, each once, in order. */
  lemma ContradictionsAre(config: Config, text: string, lines: seq<string>) returns (symbols: seq<string>)
    requires AreLines(text, lines)
    ensures AscendingNames(symbols) && forall symbol :: symbol in symbols <==> Clashes(config, lines, symbol)
    ensures var cs := Contradictions(config, text);
      |cs| == |symbols| && forall k | 0 <= k < |cs| :: IsClashCandidate(cs[k], symbols[k])
  {
    LinesAreUnique(text, lines);
    var all := Sorted(DefinedSymbols(config, lines));
    hide SplitLines, AreLines, Contradicted, Clashes, RhsList;
    symbols := ClashingAmong(config, lines, all);
    forall symbol ensures symbol in symbols <==> Clashes(config, lines, symbol) {
      ManyRhsIffContradicted(config, lines, symbol);
      ContradictedIff(config, lines, symbol);
    }
  }

  predicate IsClashCandidate(c: CandidateFinding, symbol: string) {
    && c.severity == BLOCKER && c.anchor == "duplicate-definition-" + symbol
    && c.supports == [SupportRef(InternalContradiction, symbol)]
    && c.doctrineRefs == [] && c.gateRefs == []
  }

  lemma CandidateIs(symbol: string, rhs: seq<string>)
    ensures IsClashCandidate(ContradictionFinding(symbol, rhs), symbol)
  {
    hide JoinBars, Decimal;
  }

  predicate AscendingNames(symbols: seq<string>) {
    forall i, j | 0 <= i < j < |symbols| :: Leq(symbols[i], symbols[j]) && symbols[i] != symbols[j]
  }

  lemma {:induction false} ClashingAmong(config: Config, lines: seq<string>, all: seq<string>)
    returns (symbols: seq<string>)
    requires AscendingNames(all)
    ensures AscendingNames(symbols)
    ensures forall symbol :: symbol in symbols <==> symbol in all && |RhsList(config, lines, |lines|, symbol)| > 1
    ensures var cs := Candidates(config, lines, all);
      |cs| == |symbols| && forall k | 0 <= k < |cs| :: IsClashCandidate(cs[k], symbols[k])
  {
    hide RhsList, Leq, ContradictionFinding, IsClashCandidate;
    if all == [] {
      symbols := [];
    } else {
      var n := |all| - 1;
      var init := ClashingAmong(config, lines, all[..n]);
      var rhs := RhsList(config, lines, |lines|, all[n]);
      CandidateIs(all[n], rhs);
      assert all == all[..n] + [all[n]];
      symbols := if |rhs| > 1 then init + [all[n]] else init;
      forall i | 0 <= i < |init| ensures Leq(init[i], all[n]) && init[i] != all[n] {
        assert init[i] in init;
        var k :| 0 <= k < n && all[k] == init[i];
      }
    }
  }
}
