/** The message loop of ClaudeSDKAdapter._run (harness/llm/claude_sdk.py): which tool
    results count as evidence, and what the call returns. */
module Transcript {
  import opened Wrappers
  import opened Sweeps

  datatype ToolEvidence = ToolEvidence(toolName: string, target: string, ok: bool)

  /** A tool's input: a mapping (its string values; everything else is not looked at) or
      some other value; `repr` is what `str` makes of it. */
  datatype ToolInput = Mapping(fields: map<string, string>, repr: string) | Scalar(repr: string)

  datatype Block =
    | ToolUse(id: string, name: string, input: ToolInput)
    | ToolResult(toolUseId: string, isError: bool)
    | OtherBlock

  /** What the `result` text decodes to. */
  datatype ResultText = NoText | NotJson | JsonOther | JsonMapping(payload: Payload)

  datatype ResultInfo = ResultInfo(
    retriesExhausted: bool,
    structured: Option<Payload>,
    text: ResultText)

  datatype Message = Message(blocks: Option<seq<Block>>, result: Option<ResultInfo>)

  datatype RawLLMResult = RawLLMResult(payload: Payload, evidence: seq<ToolEvidence>)

  datatype LlmError = OutputError | TransportError

  const TARGET_KEYS: seq<string> := ["url", "file_path", "path", "pattern", "query"]

  /** `_target_from_input`: the first key with a non-empty string, else the whole input. */
  function TargetFromInput(input: ToolInput): string {
    if input.Mapping? then FirstField(input.fields, TARGET_KEYS, input.repr) else input.repr
  }

  function FirstField(fields: map<string, string>, keys: seq<string>, default: string): string {
    if keys == [] then default
    else if keys[0] in fields && fields[keys[0]] != [] then fields[keys[0]]
    else FirstField(fields, keys[1..], default)
  }

  // ---- Reference: the target of a use ------------------------------------

  predicate Filled(fields: map<string, string>, key: string) {
    key in fields && fields[key] != []
  }

  /** The target recorded for a tool use: of a mapping the first of these five fields that is
      filled, and the whole input if none is. */
  predicate IsTarget(input: ToolInput, target: string) {
    match input
    case Scalar(repr) => target == repr
    case Mapping(fields, repr) =>
      if Filled(fields, "url") then target == fields["url"]
      else if Filled(fields, "file_path") then target == fields["file_path"]
      else if Filled(fields, "path") then target == fields["path"]
      else if Filled(fields, "pattern") then target == fields["pattern"]
      else if Filled(fields, "query") then target == fields["query"]
      else target == repr
  }

  lemma FirstFieldStep(fields: map<string, string>, key: string, keys: seq<string>, default: string)
    ensures FirstField(fields, [key] + keys, default)
         == if Filled(fields, key) then fields[key] else FirstField(fields, keys, default)
    ensures FirstField(fields, [], default) == default
  {
    assert ([key] + keys)[1..] == keys;
  }

  lemma TargetIs(input: ToolInput, target: string)
    ensures IsTarget(input, target) <==> target == TargetFromInput(input)
  {
    hide FirstField, Filled;
    if input.Mapping? {
      var fields, default := input.fields, input.repr;
      FirstFieldStep(fields, "url", ["file_path", "path", "pattern", "query"], default);
      FirstFieldStep(fields, "file_path", ["path", "pattern", "query"], default);
      FirstFieldStep(fields, "path", ["pattern", "query"], default);
      FirstFieldStep(fields, "pattern", ["query"], default);
      FirstFieldStep(fields, "query", [], default);
      assert ["url"] + ["file_path", "path", "pattern", "query"] == TARGET_KEYS;
      assert ["file_path"] + ["path", "pattern", "query"] == ["file_path", "path", "pattern", "query"];
      assert ["path"] + ["pattern", "query"] == ["path", "pattern", "query"];
      assert ["pattern"] + ["query"] == ["pattern", "query"];
      assert ["query"] + [] == ["query"];
    }
  }

  function Blocks(messages: seq<Message>): seq<Block> {
    if messages == [] then []
    else
      var m := messages[|messages| - 1];
      Blocks(messages[..|messages| - 1]) + (if m.blocks.Some? then m.blocks.value else [])
  }

  // ---- Reference: pairing results with uses by position ------------------

  /** `blocks[u]` is the last use of that id before position `r`. */
  ghost predicate LastUseBefore(blocks: seq<Block>, u: nat, r: nat, id: string) {
    && u < r <= |blocks| && blocks[u].ToolUse? && blocks[u].id == id
    && forall k | u < k < r :: blocks[k].ToolUse? ==> blocks[k].id != id
  }

  /** Position `r` holds a result answering the use at `u`, and yields this evidence. */
  ghost predicate Answers(blocks: seq<Block>, u: nat, r: nat, e: ToolEvidence) {
    && r < |blocks| && blocks[r].ToolResult?
    && LastUseBefore(blocks, u, r, blocks[r].toolUseId)
    && e.toolName == blocks[u].name && IsTarget(blocks[u].input, e.target)
    && e.ok == !blocks[r].isError
  }

  ghost predicate Answered(blocks: seq<Block>, e: ToolEvidence) {
    exists u: nat, r: nat :: Answers(blocks, u, r, e)
  }

  // ---- The evidence of a transcript, in order -----------------------------

  ghost function LastUse(blocks: seq<Block>, id: string): Option<Block> {
    if blocks == [] then None
    else
      var b := blocks[|blocks| - 1];
      if b.ToolUse? && b.id == id then Some(b) else LastUse(blocks[..|blocks| - 1], id)
  }

  /** What block `b` contributes after `blocks`. */
  ghost function Contribution(blocks: seq<Block>, b: Block): seq<ToolEvidence> {
    if !b.ToolResult? then []
    else
      var use := LastUse(blocks, b.toolUseId);
      if use.Some? && use.value.ToolUse? then
        [ToolEvidence(use.value.name, TargetFromInput(use.value.input), !b.isError)]
      else []
  }

  ghost function EvidenceOf(blocks: seq<Block>): seq<ToolEvidence> {
    if blocks == [] then []
    else EvidenceOf(blocks[..|blocks| - 1])
         + Contribution(blocks[..|blocks| - 1], blocks[|blocks| - 1])
  }

  lemma {:induction false} LastUseIsBefore(blocks: seq<Block>, id: string)
    ensures LastUse(blocks, id).Some? ==>
      exists u: nat :: LastUseBefore(blocks, u, |blocks|, id) && LastUse(blocks, id) == Some(blocks[u])
    ensures LastUse(blocks, id).None? ==> forall u: nat :: !LastUseBefore(blocks, u, |blocks|, id)
  {
    if blocks != [] {
      var init, b := blocks[..|blocks| - 1], blocks[|blocks| - 1];
      assert blocks == init + [b];
      LastUseIsBefore(init, id);
      if b.ToolUse? && b.id == id {
        assert LastUseBefore(blocks, |init|, |blocks|, id);
      } else if LastUse(init, id).Some? {
        var u: nat :| LastUseBefore(init, u, |init|, id) && LastUse(init, id) == Some(init[u]);
        assert LastUseBefore(blocks, u, |blocks|, id);
      } else {
        forall u: nat ensures !LastUseBefore(blocks, u, |blocks|, id) {
          LastUseAppend(init, b, u, |init|, id);
        }
      }
    }
  }

  lemma LastUseIsUnique(blocks: seq<Block>, u: nat, v: nat, r: nat, id: string)
    requires LastUseBefore(blocks, u, r, id) && LastUseBefore(blocks, v, r, id)
    ensures u == v
  {
  }

  lemma LastUseAppend(blocks: seq<Block>, b: Block, u: nat, r: nat, id: string)
    requires r <= |blocks|
    ensures LastUseBefore(blocks + [b], u, r, id) <==> LastUseBefore(blocks, u, r, id)
  {
    assert forall k | 0 <= k < |blocks| :: (blocks + [b])[k] == blocks[k];
  }

  /** The last block's contribution is what it answers. */
  lemma ContributionIsAnswer(blocks: seq<Block>, b: Block, e: ToolEvidence)
    ensures e in Contribution(blocks, b)
       <==> exists u: nat :: Answers(blocks + [b], u, |blocks|, e)
  {
    hide TargetFromInput, IsTarget;
    forall input { TargetIs(input, e.target); }
    if b.ToolResult? {
      var id := b.toolUseId;
      LastUseIsBefore(blocks, id);
      if LastUse(blocks, id).Some? {
        var v: nat :| LastUseBefore(blocks, v, |blocks|, id) && LastUse(blocks, id) == Some(blocks[v]);
        LastUseAppend(blocks, b, v, |blocks|, id);
        if e in Contribution(blocks, b) {
          assert Answers(blocks + [b], v, |blocks|, e);
        }
        forall u: nat | Answers(blocks + [b], u, |blocks|, e) ensures u == v {
          LastUseIsUnique(blocks + [b], u, v, |blocks|, id);
        }
      } else {
        forall u: nat ensures !Answers(blocks + [b], u, |blocks|, e) {
          LastUseAppend(blocks, b, u, |blocks|, id);
        }
      }
    }
  }

  lemma AnsweredAfter(blocks: seq<Block>, b: Block, e: ToolEvidence)
    ensures Answered(blocks + [b], e)
       <==> Answered(blocks, e) || exists u: nat :: Answers(blocks + [b], u, |blocks|, e)
  {
    var after := blocks + [b];
    assert forall k | 0 <= k < |blocks| :: after[k] == blocks[k];
    if Answered(blocks, e) {
      var u: nat, r: nat :| Answers(blocks, u, r, e);
      LastUseAppend(blocks, b, u, r, blocks[r].toolUseId);
      assert Answers(after, u, r, e);
    }
    if Answered(after, e) {
      var u: nat, r: nat :| Answers(after, u, r, e);
      if r < |blocks| {
        LastUseAppend(blocks, b, u, r, blocks[r].toolUseId);
        assert Answers(blocks, u, r, e);
      }
    }
  }

  /** Evidence exists exactly for results that follow a use with their id; its tool and
      target are those of the last such use, and `ok` is that of the result. */
  lemma {:induction false} EvidenceIsAnswered(blocks: seq<Block>, e: ToolEvidence)
    ensures e in EvidenceOf(blocks) <==> Answered(blocks, e)
  {
    if blocks != [] {
      var init, b := blocks[..|blocks| - 1], blocks[|blocks| - 1];
      assert blocks == init + [b];
      EvidenceIsAnswered(init, e);
      ContributionIsAnswer(init, b, e);
      AnsweredAfter(init, b, e);
    }
  }

  // ---- The loop ----------------------------------------------------------

  /** The dictionary of pending uses holds the last use of every id seen so far. */
  ghost predicate PendingIs(pending: map<string, (string, string)>, blocks: seq<Block>) {
    forall id :: if id in pending
      then LastUse(blocks, id).Some? && LastUse(blocks, id).value.ToolUse?
           && pending[id] == (LastUse(blocks, id).value.name,
                              TargetFromInput(LastUse(blocks, id).value.input))
      else LastUse(blocks, id).None?
  }

  lemma BlockStep(blocks: seq<Block>, b: Block)
    ensures EvidenceOf(blocks + [b]) == EvidenceOf(blocks) + Contribution(blocks, b)
    ensures forall id :: LastUse(blocks + [b], id)
                      == if b.ToolUse? && b.id == id then Some(b) else LastUse(blocks, id)
  {
    assert (blocks + [b])[..|blocks|] == blocks;
  }

  /** `_extract_payload`. */
  function ExtractPayload(structured: Option<Payload>, text: ResultText): Result<Payload, LlmError> {
    if structured.Some? then Ok(structured.value)
    else if text.JsonMapping? then Ok(text.payload)
    else Err(OutputError)
  }

  /** The last ResultMessage decides. */
  function LastResult(messages: seq<Message>): Option<ResultInfo> {
    if messages == [] then None
    else if messages[|messages| - 1].result.Some? then messages[|messages| - 1].result
    else LastResult(messages[..|messages| - 1])
  }

  /** What the call returns: an answer, or a typed output error. */
  function AnswerOf(messages: seq<Message>): Result<Payload, LlmError> {
    var last := LastResult(messages);
    if last.None? then Err(OutputError)
    else if last.value.retriesExhausted then Err(OutputError)
    else ExtractPayload(last.value.structured, last.value.text)
  }

  /** The `i`-th message is the last with a result, and that result holds this payload. */
  predicate Concludes(messages: seq<Message>, i: nat, payload: Payload) {
    && i < |messages| && messages[i].result.Some?
    && (forall j | i < j < |messages| :: messages[j].result.None?)
    && var info := messages[i].result.value;
       && !info.retriesExhausted
       && match info.structured
          case Some(p) => payload == p
          case None => info.text == JsonMapping(payload)
  }

  /** An answer is the payload of the last result, structured before decoded, unless the
      retries ran out. */
  lemma {:induction false} AnswerIsLast(messages: seq<Message>, payload: Payload)
    ensures AnswerOf(messages) == Ok(payload) <==> exists i: nat :: Concludes(messages, i, payload)
  {
    if messages != [] {
      var n := |messages| - 1;
      if messages[n].result.Some? {
        assert AnswerOf(messages) == Ok(payload) <==> Concludes(messages, n, payload);
      } else {
        AnswerIsLast(messages[..n], payload);
        assert forall i | 0 <= i < n :: messages[..n][i] == messages[i];
        forall i: nat ensures Concludes(messages[..n], i, payload) <==> Concludes(messages, i, payload) {
          if i < n && Concludes(messages[..n], i, payload) {
            assert forall j | i < j < n :: messages[..n][j].result.None?;
          }
        }
      }
    }
  }

  /** The inner loop: one message's blocks, with the uses and evidence seen before it. */
  method ScanBlocks(blocks: seq<Block>, pending0: map<string, (string, string)>,
                    evidence0: seq<ToolEvidence>, ghost before: seq<Block>)
    returns (pending: map<string, (string, string)>, evidence: seq<ToolEvidence>)
    requires PendingIs(pending0, before) && evidence0 == EvidenceOf(before)
    ensures PendingIs(pending, before + blocks) && evidence == EvidenceOf(before + blocks)
  {
    hide TargetFromInput, EvidenceOf, LastUse;
    pending, evidence := pending0, evidence0;
    assert before + blocks[..0] == before;
    for j := 0 to |blocks|
      invariant PendingIs(pending, before + blocks[..j])
      invariant evidence == EvidenceOf(before + blocks[..j])
    {
      var block := blocks[j];
      assert before + blocks[..j + 1] == before + blocks[..j] + [block];
      BlockStep(before + blocks[..j], block);
      match block {
        case ToolUse(id, name, input) =>
          pending := pending[id := (name, TargetFromInput(input))];
        case ToolResult(toolUseId, isError) =>
          if toolUseId in pending {
            var used := pending[toolUseId];
            evidence := evidence + [ToolEvidence(used.0, used.1, !isError)];
          }
        case OtherBlock =>
      }
    }
    assert blocks[..|blocks|] == blocks;
  }

  lemma MessageStep(messages: seq<Message>, i: nat)
    requires i < |messages|
    ensures Blocks(messages[..i + 1])
         == Blocks(messages[..i]) + (if messages[i].blocks.Some? then messages[i].blocks.value else [])
    ensures LastResult(messages[..i + 1])
         == if messages[i].result.Some? then messages[i].result else LastResult(messages[..i])
  {
    assert messages[..i + 1][..i] == messages[..i];
  }

  /** `ClaudeSDKAdapter._run`. */
  method RunAdapter(messages: seq<Message>) returns (result: Result<RawLLMResult, LlmError>)
    ensures AnswerOf(messages).Err? ==> result == Err(OutputError)
    ensures AnswerOf(messages).Ok? ==>
      result == Ok(RawLLMResult(AnswerOf(messages).value, EvidenceOf(Blocks(messages))))
  {
    var pending: map<string, (string, string)> := map[];
    var evidence: seq<ToolEvidence> := [];
    var last: Option<ResultInfo> := None;
    for i := 0 to |messages|
      invariant PendingIs(pending, Blocks(messages[..i]))
      invariant evidence == EvidenceOf(Blocks(messages[..i]))
      invariant last == LastResult(messages[..i])
    {
      var message := messages[i];
      MessageStep(messages, i);
      if message.blocks.Some? {
        pending, evidence :=
          ScanBlocks(message.blocks.value, pending, evidence, Blocks(messages[..i]));
      } else {
        assert Blocks(messages[..i]) + [] == Blocks(messages[..i]);
      }
      if message.result.Some? {
        last := message.result;
      }
    }
    assert messages[..|messages|] == messages;
    if last.None? || last.value.retriesExhausted {
      return Err(OutputError);
    }
    var payload := ExtractPayload(last.value.structured, last.value.text);
    if payload.Err? {
      return Err(payload.error);
    }
    return Ok(RawLLMResult(payload.value, evidence));
  }
}
