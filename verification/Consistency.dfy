/** The internal-consistency sweep (harness/consistency.py): fence pairing, the map of
    definitions and the contradiction candidates. The two definition patterns are
    functions from a line to what they match. */
module Consistency {
  import opened Wrappers
  import opened Text
  import opened Findings

  /** One match: the symbol and right-hand-side groups. */
  datatype Match = Match(symbol: string, rhs: string)

  datatype Config = Config(patterns: seq<string -> Option<Match>>, proseSymbols: set<string>)

  // ---- Lines and fences --------------------------------------------------

  predicate InLine(c: char) {
    !('\n' <= c <= '\r') && !('\U{1C}' <= c <= '\U{1E}')
  }

  /** `str.splitlines`. */
  function SplitLines(s: string): seq<string>
    decreases |s|
  {
    if s == [] then []
    else
      var n := Span(s, InLine);
      if n == |s| then [s]
      else
        var next := if s[n] == '\r' && n + 1 < |s| && s[n + 1] == '\n' then n + 2 else n + 1;
        [s[..n]] + SplitLines(s[next..])
  }

  predicate IsFence(line: string) {
    var t := LStrip(line, IsSpace);
    |t| >= 3 && t[..3] == "```"
  }

  function FenceCount(lines: seq<string>): nat {
    if lines == [] then 0
    else FenceCount(lines[..|lines| - 1]) + (if IsFence(lines[|lines| - 1]) then 1 else 0)
  }

  predicate FenceFollows(lines: seq<string>, i: nat) {
    exists j | i < j < |lines| :: IsFence(lines[j])
  }

  /** An odd number of fences before, and at least one after. */
  predicate Hidden(lines: seq<string>, i: nat)
    requires i < |lines|
  {
    FenceCount(lines[..i]) % 2 == 1 && FenceFollows(lines, i)
  }

  /** `rows` lists the fence lines, ascending. */
  ghost predicate AreFenceRows(rows: seq<nat>, lines: seq<string>) {
    && (forall k | 0 <= k < |rows| :: rows[k] < |lines| && IsFence(lines[rows[k]]))
    && (forall k, l | 0 <= k < l < |rows| :: rows[k] < rows[l])
    && (forall i | 0 <= i < |lines| && IsFence(lines[i]) :: i in rows)
  }

  /** The count of fences before `i` is how many listed rows lie before it. */
  lemma {:induction false} FenceCountIs(rows: seq<nat>, lines: seq<string>, i: nat)
    requires AreFenceRows(rows, lines) && i <= |lines|
    ensures FenceCount(lines[..i]) <= |rows|
    ensures forall k | 0 <= k < |rows| :: rows[k] < i <==> k < FenceCount(lines[..i])
  {
    hide IsFence;
    if i > 0 {
      FenceCountIs(rows, lines, i - 1);
      assert lines[..i][..i - 1] == lines[..i - 1];
      var c := FenceCount(lines[..i - 1]);
      if IsFence(lines[i - 1]) {
        var k :| 0 <= k < |rows| && rows[k] == i - 1;
        assert k == c by {
          assert k >= c;
          assert c < |rows| && rows[c] >= i - 1;
        }
      }
    }
  }

  /** `range(lo, hi + 1)`, as a set. */
  function RangeTo(lo: nat, hi: nat): (r: set<nat>)
    ensures forall i :: i in r <==> lo <= i <= hi
    decreases hi + 1 - lo
  {
    if lo > hi then {} else {lo} + RangeTo(lo + 1, hi)
  }

  /** `fenced`: the rows from each opener to its closer, openers and closers paired in
      order; a last unpaired fence opens nothing. */
  method FencedRows(lines: seq<string>) returns (fenced: set<nat>)
    ensures forall i | 0 <= i < |lines| && !IsFence(lines[i]) :: i in fenced <==> Hidden(lines, i)
  {
    hide IsFence;
    var rows: seq<nat> := [];
    for i := 0 to |lines|
      invariant AreFenceRows(rows, lines[..i])
    {
      if IsFence(lines[i]) {
        rows := rows + [i];
      }
    }
    assert lines[..|lines|] == lines;
    fenced := {};
    for pair := 0 to |rows| / 2
      invariant forall i :: i in fenced <==>
        exists k | 0 <= k < pair :: rows[2 * k] <= i <= rows[2 * k + 1]
    {
      var opener, closer := rows[2 * pair], rows[2 * pair + 1];
      fenced := fenced + RangeTo(opener, closer);
    }
    forall i | 0 <= i < |lines| && !IsFence(lines[i]) ensures i in fenced <==> Hidden(lines, i) {
      PairedIffHidden(rows, lines, i);
    }
  }

  lemma PairedIffHidden(rows: seq<nat>, lines: seq<string>, i: nat)
    requires AreFenceRows(rows, lines) && i < |lines| && !IsFence(lines[i])
    ensures (exists k | 0 <= k < |rows| / 2 :: rows[2 * k] <= i <= rows[2 * k + 1]) <==> Hidden(lines, i)
  {
    hide IsFence, FenceCount;
    FenceCountIs(rows, lines, i);
    FollowsIffListed(rows, lines, i);
    hide FenceFollows, AreFenceRows;
    var c := FenceCount(lines[..i]);
    if k :| 0 <= k < |rows| / 2 && rows[2 * k] <= i <= rows[2 * k + 1] {
      assert c == 2 * k + 1;
    }
    if Hidden(lines, i) {
      var k := (c - 1) / 2;
      assert c == 2 * k + 1 < |rows|;
      assert rows[2 * k] <= i <= rows[2 * k + 1];
    }
  }

  lemma FollowsIffListed(rows: seq<nat>, lines: seq<string>, i: nat)
    requires AreFenceRows(rows, lines) && i < |lines| && !IsFence(lines[i])
    ensures FenceFollows(lines, i) <==> FenceCount(lines[..i]) < |rows|
    ensures forall k | 0 <= k < |rows| :: rows[k] != i
  {
    hide IsFence, FenceCount;
    FenceCountIs(rows, lines, i);
    var c := FenceCount(lines[..i]);
    if FenceFollows(lines, i) {
      var j :| i < j < |lines| && IsFence(lines[j]);
      var l :| 0 <= l < |rows| && rows[l] == j;
    }
    if c < |rows| {
      assert IsFence(lines[rows[c]]) && i < rows[c];
    }
  }

  /** A stray fence after balanced text hides nothing: the lines before it are hidden as
      they were without it, and no line after it is. */
  lemma StrayFenceHidesNothing(a: seq<string>, fence: string, b: seq<string>, i: nat)
    requires FenceCount(a) % 2 == 0 && IsFence(fence)
    requires forall j | 0 <= j < |b| :: !IsFence(b[j])
    requires i < |a| + 1 + |b| && i != |a|
    ensures i < |a| && !IsFence(a[i]) ==> (Hidden(a + [fence] + b, i) <==> Hidden(a, i))
    ensures i > |a| ==> !Hidden(a + [fence] + b, i)
  {
    var lines := a + [fence] + b;
    if i < |a| && !IsFence(a[i]) {
      assert lines[..i] == a[..i];
      if FenceCount(a[..i]) % 2 == 1 {
        assert lines[|a|] == fence;
        OddNeedsAnother(a, i);
        hide IsFence;
        assert forall j | 0 <= j < |a| :: lines[j] == a[j];
      }
    }
  }

  lemma {:induction false} OddNeedsAnother(a: seq<string>, i: nat)
    requires i < |a| && !IsFence(a[i])
    ensures FenceCount(a) == FenceCount(a[..i]) || FenceFollows(a, i)
    decreases |a|
  {
    hide IsFence;
    var n := |a| - 1;
    if i == n {
      assert a[..n] == a[..i];
    } else if !IsFence(a[n]) {
      OddNeedsAnother(a[..n], i);
      assert a[..n][..i] == a[..i];
    }
  }

  // ---- Definitions -------------------------------------------------------

  predicate IsRhsTrailing(c: char) {
    c == '.' || c == ';' || c == ','
  }

  /** `_normalize_rhs`. */
  function NormalizeRhs(rhs: string): string {
    Lower(Squeeze(RStrip(Strip(rhs, IsSpace), IsRhsTrailing), false, IsSpace, ' '))
  }

  /** What a scanned line defines: the first pattern whose symbol is not a prose word. */
  function DefinitionIn(config: Config, patterns: seq<string -> Option<Match>>, line: string): Option<Match> {
    if patterns == [] then None
    else
      var m := patterns[0](line);
      if m.Some? && Lower(m.value.symbol) !in config.proseSymbols then
        Some(Match(m.value.symbol, NormalizeRhs(m.value.rhs)))
      else DefinitionIn(config, patterns[1..], line)
  }

  function DefinitionAt(config: Config, lines: seq<string>, i: nat): Option<Match>
    requires i < |lines|
  {
    if Hidden(lines, i) || IsFence(lines[i]) then None
    else DefinitionIn(config, config.patterns, lines[i])
  }

  /** The distinct non-empty right-hand sides of a symbol in the first `n` lines, in order. */
  function RhsList(config: Config, lines: seq<string>, n: nat, symbol: string): seq<string>
    requires n <= |lines|
  {
    if n == 0 then []
    else
      var before := RhsList(config, lines, n - 1, symbol);
      var d := DefinitionAt(config, lines, n - 1);
      if d.Some? && d.value.symbol == symbol && d.value.rhs != [] && d.value.rhs !in before
      then before + [d.value.rhs] else before
  }

  /** Line `i` is scanned and defines the symbol as `rhs`. */
  ghost predicate Defines(config: Config, lines: seq<string>, i: nat, symbol: string, rhs: string) {
    i < |lines| && rhs != [] && DefinitionAt(config, lines, i) == Some(Match(symbol, rhs))
  }

  ghost predicate DefinedBefore(config: Config, lines: seq<string>, n: nat, symbol: string, rhs: string) {
    exists i: nat :: i < n && Defines(config, lines, i, symbol, rhs)
  }

  lemma {:induction false} RhsListIs(config: Config, lines: seq<string>, n: nat, symbol: string)
    requires n <= |lines|
    ensures forall rhs ::
      rhs in RhsList(config, lines, n, symbol) <==> DefinedBefore(config, lines, n, symbol, rhs)
    ensures forall j, k | 0 <= j < k < |RhsList(config, lines, n, symbol)| ::
      RhsList(config, lines, n, symbol)[j] != RhsList(config, lines, n, symbol)[k]
  {
    hide DefinitionAt;
    if n > 0 {
      RhsListIs(config, lines, n - 1, symbol);
      var before := RhsList(config, lines, n - 1, symbol);
      forall rhs
        ensures rhs in RhsList(config, lines, n, symbol) <==> DefinedBefore(config, lines, n, symbol, rhs)
      {
        if rhs in before {
          var i: nat :| i < n - 1 && Defines(config, lines, i, symbol, rhs);
        }
        if Defines(config, lines, n - 1, symbol, rhs) {
          assert rhs in RhsList(config, lines, n, symbol);
        }
        if i: nat :| i < n && Defines(config, lines, i, symbol, rhs) {
          assert i < n - 1 ==> rhs in before;
        }
      }
    }
  }

  /** Two scanned lines define the symbol with different normalized right-hand sides. */
  ghost predicate Contradicted(config: Config, lines: seq<string>, symbol: string) {
    exists i: nat, j: nat, r1, r2 ::
      Defines(config, lines, i, symbol, r1) && Defines(config, lines, j, symbol, r2) && r1 != r2
  }

  lemma ManyRhsIffContradicted(config: Config, lines: seq<string>, symbol: string)
    ensures |RhsList(config, lines, |lines|, symbol)| > 1 <==> Contradicted(config, lines, symbol)
  {
    hide Defines, RhsList;
    var list := RhsList(config, lines, |lines|, symbol);
    RhsListIs(config, lines, |lines|, symbol);
    if |list| > 1 {
      assert list[0] in list && list[1] in list;
      var i: nat :| i < |lines| && Defines(config, lines, i, symbol, list[0]);
      var j: nat :| j < |lines| && Defines(config, lines, j, symbol, list[1]);
    }
    if Contradicted(config, lines, symbol) {
      var i: nat, j: nat, r1, r2 :|
        Defines(config, lines, i, symbol, r1) && Defines(config, lines, j, symbol, r2) && r1 != r2;
      DefinesInside(config, lines, i, symbol, r1);
      DefinesInside(config, lines, j, symbol, r2);
      assert r1 in list && r2 in list;
    }
  }

  lemma DefinesInside(config: Config, lines: seq<string>, i: nat, symbol: string, rhs: string)
    requires Defines(config, lines, i, symbol, rhs)
    ensures i < |lines|
  {
  }

  // ---- The sweep ---------------------------------------------------------

  /** The inner loop over the patterns, with its `continue` and `break`. */
  method DefineLine(config: Config, line: string) returns (d: Option<Match>)
    ensures d == DefinitionIn(config, config.patterns, line)
  {
    for k := 0 to |config.patterns|
      invariant DefinitionIn(config, config.patterns, line)
             == DefinitionIn(config, config.patterns[k..], line)
    {
      var m := config.patterns[k](line);
      if m.Some? {
        if Lower(m.value.symbol) in config.proseSymbols {
          continue;
        }
        return Some(Match(m.value.symbol, NormalizeRhs(m.value.rhs)));
      }
    }
    return None;
  }

  ghost predicate AreDefinitions(definitions: map<string, seq<string>>, config: Config, lines: seq<string>, n: nat)
    requires n <= |lines|
  {
    forall symbol ::
      && (symbol in definitions <==> RhsList(config, lines, n, symbol) != [])
      && (symbol in definitions ==> definitions[symbol] == RhsList(config, lines, n, symbol))
  }

  /** `extract_definitions`. */
  method ExtractDefinitions(config: Config, text: string) returns (definitions: map<string, seq<string>>)
    ensures AreDefinitions(definitions, config, SplitLines(text), |SplitLines(text)|)
  {
    hide Hidden, IsFence, DefinitionIn, SplitLines;
    var lines := SplitLines(text);
    var fenced := FencedRows(lines);
    definitions := map[];
    for i := 0 to |lines|
      invariant AreDefinitions(definitions, config, lines, i)
    {
      var line := lines[i];
      if IsFence(line) || i in fenced {
        continue;
      }
      var d := DefineLine(config, line);
      if d.Some? {
        var known := if d.value.symbol in definitions then definitions[d.value.symbol] else [];
        if d.value.rhs != [] && d.value.rhs !in known {
          definitions := definitions[d.value.symbol := known + [d.value.rhs]];
        }
      }
    }
  }

  function JoinBars(rs: seq<string>): string {
    if rs == [] then [] else if |rs| == 1 then rs[0] else rs[0] + " | " + JoinBars(rs[1..])
  }

  function ContradictionFinding(symbol: string, rhs: seq<string>): CandidateFinding {
    CandidateFinding(
      BLOCKER,
      "Internal contradiction: symbol '" + symbol + "' is defined " + Decimal(|rhs|)
      + " different ways: " + JoinBars(if |rhs| > 3 then rhs[..3] else rhs),
      "duplicate-definition-" + symbol,
      [], [],
      [SupportRef(InternalContradiction, symbol)],
      "Reconcile the definitions; two definitions of one quantity is a Blocker.")
  }

  /** The candidates for the contradicted symbols among `symbols`, in that order. */
  function Candidates(config: Config, lines: seq<string>, symbols: seq<string>): seq<CandidateFinding> {
    if symbols == [] then []
    else
      var symbol := symbols[|symbols| - 1];
      var rhs := RhsList(config, lines, |lines|, symbol);
      Candidates(config, lines, symbols[..|symbols| - 1])
      + (if |rhs| > 1 then [ContradictionFinding(symbol, rhs)] else [])
  }

  ghost predicate AreDefinedSymbols(config: Config, lines: seq<string>, s: set<string>) {
    forall symbol :: symbol in s <==> RhsList(config, lines, |lines|, symbol) != []
  }

  lemma {:induction false} DefinedSymbolsExist(config: Config, lines: seq<string>, n: nat) returns (s: set<string>)
    requires n <= |lines|
    ensures forall symbol :: symbol in s <==> RhsList(config, lines, n, symbol) != []
  {
    hide DefinitionAt;
    if n == 0 {
      s := {};
    } else {
      s := DefinedSymbolsExist(config, lines, n - 1);
      var d := DefinitionAt(config, lines, n - 1);
      if d.Some? && d.value.rhs != [] {
        s := s + {d.value.symbol};
      }
    }
  }

  ghost function DefinedSymbols(config: Config, lines: seq<string>): (s: set<string>)
    ensures AreDefinedSymbols(config, lines, s)
  {
    assert exists s :: AreDefinedSymbols(config, lines, s) by {
      var s := DefinedSymbolsExist(config, lines, |lines|);
      assert AreDefinedSymbols(config, lines, s);
    }
    var s :| AreDefinedSymbols(config, lines, s);
    s
  }

  /** What the sweep reports, as a function of the artifact alone. */
  ghost function Contradictions(config: Config, text: string): seq<CandidateFinding> {
    Candidates(config, SplitLines(text), Sorted(DefinedSymbols(config, SplitLines(text))))
  }

  lemma KeysAreDefined(config: Config, lines: seq<string>, definitions: map<string, seq<string>>)
    requires AreDefinitions(definitions, config, lines, |lines|)
    ensures definitions.Keys == DefinedSymbols(config, lines)
  {
    hide RhsList;
    assert forall symbol :: symbol in definitions.Keys <==> RhsList(config, lines, |lines|, symbol) != [];
  }

  /** `ConsistencyChecker.check`. */
  method CheckConsistency(config: Config, text: string) returns (candidates: seq<CandidateFinding>)
    ensures candidates == Contradictions(config, text)
  {
    hide RhsList, SplitLines, ContradictionFinding, Sorted;
    var found := ExtractDefinitions(config, text);
    ghost var lines := SplitLines(text);
    KeysAreDefined(config, lines, found);
    hide DefinedSymbols;
    var symbols := Sorted(found.Keys);
    assert forall i | 0 <= i < |symbols| :: symbols[i] in found.Keys;
    candidates := [];
    for i := 0 to |symbols|
      invariant candidates == Candidates(config, lines, symbols[..i])
    {
      var symbol := symbols[i];
      assert symbols[..i + 1][..i] == symbols[..i];
      assert symbol in found.Keys;
      if |found[symbol]| > 1 {
        candidates := candidates + [ContradictionFinding(symbol, found[symbol])];
      }
    }
    assert symbols[..|symbols|] == symbols;
  }

  predicate IsCandidateFor(config: Config, lines: seq<string>, symbol: string, c: CandidateFinding) {
    var rhs := RhsList(config, lines, |lines|, symbol);
    |rhs| > 1 && c == ContradictionFinding(symbol, rhs)
  }

  lemma {:induction false} CandidatesAre(config: Config, lines: seq<string>, symbols: seq<string>, c: CandidateFinding)
    ensures c in Candidates(config, lines, symbols)
       <==> exists symbol :: symbol in symbols && IsCandidateFor(config, lines, symbol, c)
  {
    hide ContradictionFinding, RhsList;
    if symbols != [] {
      var init, last := symbols[..|symbols| - 1], symbols[|symbols| - 1];
      CandidatesAre(config, lines, init, c);
      assert symbols == init + [last];
      assert forall x :: x in symbols <==> x in init || x == last;
      assert c in Candidates(config, lines, symbols)
        <==> c in Candidates(config, lines, init) || IsCandidateFor(config, lines, last, c);
      hide IsCandidateFor, Candidates;
      assert last in symbols;
    }
  }

  /** A symbol draws a Blocker candidate iff two scanned lines define it differently. */
  lemma BlockerIffContradicted(config: Config, text: string, symbol: string)
    ensures (exists c :: c in Contradictions(config, text) && c.severity == BLOCKER
                         && c.supports == [SupportRef(InternalContradiction, symbol)])
       <==> Contradicted(config, SplitLines(text), symbol)
  {
    var lines := SplitLines(text);
    var symbols := Sorted(DefinedSymbols(config, lines));
    ManyRhsIffContradicted(config, lines, symbol);
    hide Contradicted, RhsList, SplitLines;
    if Contradicted(config, lines, symbol) {
      var c := ContradictionFinding(symbol, RhsList(config, lines, |lines|, symbol));
      assert symbol in DefinedSymbols(config, lines);
      assert IsCandidateFor(config, lines, symbol, c);
      CandidatesAre(config, lines, symbols, c);
    }
    forall c | c in Contradictions(config, text) && c.supports == [SupportRef(InternalContradiction, symbol)]
      ensures Contradicted(config, lines, symbol)
    {
      CandidatesAre(config, lines, symbols, c);
      var other :| other in symbols && IsCandidateFor(config, lines, other, c);
      assert c.supports[0].ref == other;
    }
  }
}
