/** The state file's text: front matter between `---` lines, then a summary
    (harness/state.py). YAML itself is a pair of functions. */
module FrontMatter {
  import opened Wrappers
  import opened Text
  import opened History

  /** The text `save` writes. */
  function Content(front: string, summary: string): string {
    RStrip("---\n" + front + "---\n\n" + summary, IsSpace) + "\n"
  }

  const CLOSE: string := "\n---\n"

  /** The lazy `.*?` in front of the closing line: its first occurrence from `k` on. */
  function FirstClose(text: string, k: nat): (r: Option<nat>)
    requires k <= |text|
    ensures r.Some? ==> k <= r.value && OccursAt(CLOSE, text, r.value)
    ensures r.Some? ==> forall i | k <= i < r.value :: !OccursAt(CLOSE, text, i)
    ensures r.None? ==> forall i | k <= i <= |text| :: !OccursAt(CLOSE, text, i)
    decreases |text| - k
  {
    if OccursAt(CLOSE, text, k) then Some(k)
    else if k == |text| then None
    else FirstClose(text, k + 1)
  }

  /** `_FRONT_MATTER.match`: the `yaml` group. */
  function MatchFront(text: string): Option<string> {
    if |text| >= 4 && text[..4] == "---\n" then
      var close := FirstClose(text, 4);
      if close.Some? then Some(text[4..close.value]) else None
    else None
  }

  /** What reading in text mode makes of a file: every line ending becomes a newline. */
  function ReadBack(text: string): (r: string)
    ensures '\r' !in r
  {
    if text == [] then []
    else if text[0] != '\r' then [text[0]] + ReadBack(text[1..])
    else if |text| > 1 && text[1] == '\n' then ['\n'] + ReadBack(text[2..])
    else ['\n'] + ReadBack(text[1..])
  }

  lemma {:induction false} ReadBackPrefix(a: string, b: string)
    requires '\r' !in a
    ensures ReadBack(a + b) == a + ReadBack(b)
  {
    if a == [] {
      assert a + b == b;
    } else {
      assert (a + b)[1..] == a[1..] + b;
      ReadBackPrefix(a[1..], b);
    }
  }

  /** At `k` a line ends and the next one is `---`. */
  predicate FenceLineAfter(body: string, k: nat) {
    && k + 4 <= |body| && body[k] == '\n' && body[k + 1..k + 4] == "---"
    && (k + 4 == |body| || body[k + 4] == '\n')
  }

  /** Some line after the first is `---`. */
  predicate HasFenceLine(body: string) {
    exists k | 0 <= k < |body| :: FenceLineAfter(body, k)
  }

  /** Whatever the summary, the text is the front matter, a closing line and a tail:
      stripping the end never reaches into the closing line. */
  lemma ContentShape(body: string, summary: string) returns (tail: string)
    ensures Content(body + "\n", summary) == "---\n" + body + CLOSE + tail
  {
    var a := "---\n" + (body + "\n") + "---";
    var x := a + "\n\n" + summary;
    assert "---\n" + (body + "\n") + "---\n\n" + summary == x;
    var t := RStrip(x, IsSpace);
    assert x[|a| - 1] == '-';
    assert x[|a|] == '\n' && x[|a| + 1] == '\n';
    assert |t| >= |a|;
    assert t == x[..|t|];
    if |t| == |a| {
      tail := "";
      assert t == a;
    } else {
      assert t[|t| - 1] == x[|t| - 1];
      tail := "\n" + summary[..|t| - |a| - 2] + "\n";
      assert t == a + "\n\n" + summary[..|t| - |a| - 2];
    }
  }

  lemma BlankSummary(front: string, summary: string)
    requires front != [] && front[|front| - 1] == '\n' && All(summary, IsSpace)
    ensures Content(front, summary) == "---\n" + front + "---\n"
  {
    var a := "---\n" + front + "---";
    var b := "\n\n" + summary;
    assert "---\n" + front + "---\n\n" + summary == a + b;
    assert a[|a| - 1] == '-' && All(b, IsSpace);
    hide IsSpace;
    assert !IsSpace('-') by { DashIsInk(); }
    RStripAround(a, b);
    SpaceStripsAway(b);
    assert a + [] + "\n" == "---\n" + front + "---\n";
  }

  lemma DashIsInk()
    ensures !IsSpace('-')
  {
  }

  lemma TextOfSummary(front: string, a: string, b: string)
    requires a != [] && !IsSpace(a[|a| - 1]) && All(b, IsSpace)
    ensures Content(front, a + b) == "---\n" + front + "---\n\n" + a + "\n"
  {
    var t := "---\n" + front + "---\n\n" + a;
    assert "---\n" + front + "---\n\n" + (a + b) == t + b;
    assert t[|t| - 1] == a[|a| - 1];
    hide IsSpace;
    RStripAround(t, b);
    SpaceStripsAway(b);
    assert t + [] == t;
  }

  /** The file holds the front matter between its lines, then the summary without the space at
      its end. */
  lemma ContentIs(front: string, summary: string, n: nat)
    requires front != [] && front[|front| - 1] == '\n'
    requires n <= |summary| && All(summary[n..], IsSpace) && (n > 0 ==> !IsSpace(summary[n - 1]))
    ensures Content(front, summary)
         == if n == 0 then "---\n" + front + "---\n" else "---\n" + front + "---\n\n" + summary[..n] + "\n"
  {
    assert summary == summary[..n] + summary[n..];
    hide Content, IsSpace;
    if n == 0 {
      assert summary[0..] == summary;
      BlankSummary(front, summary);
    } else {
      TextOfSummary(front, summary[..n], summary[n..]);
    }
  }

  /** Reading turns each line ending into a newline and leaves everything else alone. */
  lemma {:induction false} ReadBackIs(a: string, b: string)
    requires '\r' !in a
    ensures ReadBack(a) == a
    ensures ReadBack(a + "\r\n" + b) == a + "\n" + ReadBack(b)
    ensures (b == [] || b[0] != '\n') ==> ReadBack(a + "\r" + b) == a + "\n" + ReadBack(b)
  {
    ReadBackPrefix(a, []);
    assert a + [] == a;
    var x, y := "\r\n" + b, "\r" + b;
    ReadBackPrefix(a, x);
    ReadBackPrefix(a, y);
    assert a + "\r\n" + b == a + x && a + "\r" + b == a + y;
    assert x[2..] == b && y[1..] == b;
    assert a + (['\n'] + ReadBack(b)) == a + "\n" + ReadBack(b);
  }

  /** Closing lines before the real one are lines of the front matter. */
  lemma EarlyCloseIsFenceLine(body: string, tail: string, k: nat)
    requires k < |body|
    ensures OccursAt(CLOSE, "---\n" + body + CLOSE + tail, k + 4) <==> FenceLineAfter(body, k)
  {
    var text := "---\n" + body + CLOSE + tail;
    assert forall i | 0 <= i < |body| :: text[4 + i] == body[i];
    assert forall i | 0 <= i < 5 :: text[4 + |body| + i] == CLOSE[i];
    var s := text[k + 4..k + 9];
    assert forall i | 0 <= i < 5 :: s[i] == text[k + 4 + i];
    if k + 4 <= |body| {
      var line := body[k + 1..k + 4];
      assert line[0] == s[1] && line[1] == s[2] && line[2] == s[3];
    }
    if FenceLineAfter(body, k) {
      assert body[k + 1..k + 4] == "---";
      assert s[1] == '-' && s[2] == '-' && s[3] == '-';
      assert s == CLOSE;
    }
    if OccursAt(CLOSE, text, k + 4) {
      assert s == CLOSE;
      assert s[0] == '\n' && s[1] == '-' && s[2] == '-' && s[3] == '-' && s[4] == '\n';
    }
  }

  /** Reading and parsing what was saved gives back exactly the front matter, for every
      summary, iff it holds no carriage return and no line after its first is `---`. */
  lemma FrontMatterRoundTripIff(body: string, summary: string)
    ensures MatchFront(ReadBack(Content(body + "\n", summary))) == Some(body)
       <==> !HasFenceLine(body) && '\r' !in body
  {
    var tail := ContentShape(body, summary);
    if '\r' !in body {
      var shell := "---\n" + body + CLOSE;
      assert '\r' !in shell;
      ReadBackPrefix(shell, tail);
      CloseIsFoundIff(body, ReadBack(tail));
    } else {
      MatchIsPart(ReadBack(Content(body + "\n", summary)));
    }
  }

  lemma MatchIsPart(text: string)
    ensures MatchFront(text).Some? ==> forall c | c in MatchFront(text).value :: c in text
  {
  }

  lemma CloseIsFoundIff(body: string, tail: string)
    ensures MatchFront("---\n" + body + CLOSE + tail) == Some(body) <==> !HasFenceLine(body)
  {
    var text := "---\n" + body + CLOSE + tail;
    var p := 4 + |body|;
    assert text[..4] == "---\n" && text[p..p + 5] == CLOSE && text[4..p] == body;
    assert OccursAt(CLOSE, text, p);
    var close := FirstClose(text, 4);
    hide FirstClose, Content;
    assert close.Some?;
    if HasFenceLine(body) {
      var k: nat :| k < |body| && FenceLineAfter(body, k);
      EarlyCloseIsFenceLine(body, tail, k);
    }
    if close.value < p {
      EarlyCloseIsFenceLine(body, tail, close.value - 4);
      assert |text[4..close.value]| < |body|;
    }
  }

  /** Front matter is found in a text exactly when it opens with `---` and closes with the
      first such line after that; every other text is corrupt. */
  lemma MatchFrontIff(text: string, body: string)
    ensures MatchFront(text) == Some(body)
       <==> !HasFenceLine(body) && exists tail :: text == "---\n" + body + "\n---\n" + tail
  {
    if MatchFront(text) == Some(body) {
      var close := FirstClose(text, 4).value;
      var tail := text[close + 5..];
      assert text[close..close + 5] == CLOSE;
      assert text == text[..4] + text[4..close] + text[close..close + 5] + tail;
      CloseIsFoundIff(body, tail);
    }
    if tail :| text == "---\n" + body + "\n---\n" + tail {
      CloseIsFoundIff(body, tail);
    }
  }

  // ---- States ------------------------------------------------------------

  /** `yaml.safe_dump` of a state, and `yaml.safe_load` with the checks that follow it. */
  datatype Codec = Codec(dump: ReviewState -> string, parse: string -> Option<ReviewState>)

  /** Dumping is a text of whole lines without carriage returns, none but the first reading
      `---`, that parses back. */
  ghost predicate Faithful(codec: Codec, state: ReviewState) {
    exists body ::
      && codec.dump(state) == body + "\n" && !HasFenceLine(body) && '\r' !in body
      && codec.parse(body) == Some(state)
  }

  datatype StoreError = Corrupt | Io

  function Encode(codec: Codec, state: ReviewState, summary: string): string {
    Content(codec.dump(state), summary)
  }

  /** `load` on the text of an existing file. */
  function Decode(codec: Codec, text: string): Result<ReviewState, StoreError> {
    var front := MatchFront(ReadBack(text));
    if front.None? then Err(Corrupt)
    else
      var state := codec.parse(front.value);
      if state.None? then Err(Corrupt) else Ok(state.value)
  }

  lemma DecodeEncode(codec: Codec, state: ReviewState, summary: string)
    requires Faithful(codec, state)
    ensures Decode(codec, Encode(codec, state, summary)) == Ok(state)
  {
    var body :| codec.dump(state) == body + "\n" && !HasFenceLine(body) && '\r' !in body
      && codec.parse(body) == Some(state);
    FrontMatterRoundTripIff(body, summary);
  }

  /** What `load` makes of the files: a fresh state, the recorded one, or a typed error. */
  function StoredIn(codec: Codec, files: map<string, string>, artifactId: string): Result<ReviewState, StoreError> {
    if artifactId !in files then Ok(ReviewState(artifactId, 0, []))
    else Decode(codec, files[artifactId])
  }

  // ---- The store, one caller at a time -----------------------------------

  /** `FileStateStore`: the state files and the temporary files beside them, by artifact. */
  class FileStateStore {
    const codec: Codec
    var files: map<string, string>
    var tmps: map<string, string>

    constructor (codec: Codec)
      ensures this.codec == codec && files == map[] && tmps == map[]
    {
      this.codec := codec;
      files, tmps := map[], map[];
    }

    function Stored(artifactId: string): Result<ReviewState, StoreError>
      reads this
    {
      StoredIn(codec, files, artifactId)
    }

    method Load(artifactId: string) returns (r: Result<ReviewState, StoreError>)
      ensures r == Stored(artifactId)
    {
      if artifactId !in files {
        return Ok(ReviewState(artifactId, 0, []));
      }
      var front := MatchFront(ReadBack(files[artifactId]));
      if front.None? {
        return Err(Corrupt);
      }
      var state := codec.parse(front.value);
      return if state.None? then Err(Corrupt) else Ok(state.value);
    }

    /** `save`, with the operating system accepting `written` characters and then the
        rename, or refusing. Either everything is stored or no state file changed; no
        temporary file is left behind, and no other artifact's file is touched. */
    method Save(state: ReviewState, summary: string, written: nat, renames: bool)
      returns (r: Result<(), StoreError>)
      modifies this
      ensures r.Ok? <==> written >= |Encode(codec, state, summary)| && renames
      ensures r.Ok? ==> files == old(files)[state.artifactId := Encode(codec, state, summary)]
      ensures r.Ok? && Faithful(codec, state) ==> Stored(state.artifactId) == Ok(state)
      ensures r.Err? ==> r.error == Io && files == old(files)
      ensures tmps == old(tmps) - {state.artifactId}
    {
      var content := Encode(codec, state, summary);
      var id := state.artifactId;
      tmps := tmps[id := content[..if written < |content| then written else |content|]];
      if written < |content| || !renames {
        tmps := tmps - {id};
        return Err(Io);
      }
      assert content[..|content|] == content;
      files := files[id := tmps[id]];
      tmps := tmps - {id};
      if Faithful(codec, state) {
        DecodeEncode(codec, state, summary);
      }
      return Ok(());
    }

    method Reset(artifactId: string)
      modifies this`files
      ensures files == old(files) - {artifactId}
      ensures Stored(artifactId) == Ok(ReviewState(artifactId, 0, []))
    {
      if artifactId in files {
        files := files - {artifactId};
      }
    }
  }
}
