/**
  The light client's calls: one request, one response, and a block range that is never silently short.

  The transport is a parameter: what it answers to one framed request. Error texts are left out, and
  with them the difference between two errors of the same kind.
 */
module LightClient {
  import opened Base
  import opened Grpc
  import opened Messages
  import opened Proto

  const MAX_BLOCK_RANGE: nat := 10_000

  datatype LightError = Refused | Framing | Protobuf | Status(code: int, message: string) | NotUnary(count: nat) | Transport

  /** An HTTP response: the status found in its headers, if any, and its body. */
  datatype Response = Response(status: Option<GrpcStatus>, body: seq<Byte>)

  type Wire = seq<Byte> -> Result<Response, LightError>

  function Check(status: GrpcStatus): Result<(), LightError> {
    if status.code == 0 then Ok(()) else Err(Status(status.code, status.message))
  }

  /**
    A response that says the call succeeded: no header status other than zero, whole frames, a zero
    status in the deciding trailer or, without one, in the headers.
   */
  ghost predicate Succeeded(response: Response, utf8: Utf8) {
    && (response.status.Some? ==> response.status.value.code == 0)
    && BodyOf(response.body, utf8).Some?
    && var trailer := BodyOf(response.body, utf8).value.status;
      if trailer.Some? then trailer.value.code == 0 else response.status.Some?
  }

  /** How a response that does not say so is reported: the header status first, then the frames, then the deciding trailer. */
  function Failure(response: Response, utf8: Utf8): LightError {
    var header, body := response.status, BodyOf(response.body, utf8);
    if header.Some? && header.value.code != 0 then Status(header.value.code, header.value.message)
    else if body.None? || body.value.status.None? then Framing
    else Status(body.value.status.value.code, body.value.status.value.message)
  }

  /** `call`: every message the server streamed back, only when the call succeeded. */
  method Call(wire: Wire, utf8: Utf8, request: seq<Byte>) returns (r: Result<seq<seq<Byte>>, LightError>)
    requires |request| <= MAX_U32
    ensures var answer := wire(EncodeFrame(Frame(0, request)));
      && (r.Ok? <==> answer.Ok? && Succeeded(answer.value, utf8))
      && (r.Ok? ==> r.value == BodyOf(answer.value.body, utf8).value.messages)
      && (answer.Err? ==> r == Err(answer.error))
      && (answer.Ok? && !Succeeded(answer.value, utf8) ==> r == Err(Failure(answer.value, utf8)))
  {
    hide BodyOf;
    var framed := FrameRequest(request);
    var answer := wire(framed);
    if answer.Err? {
      return Err(answer.error);
    }
    var response := answer.value;
    if response.status.Some? {
      var checked := Check(response.status.value);
      if checked.Err? {
        return Err(checked.error);
      }
    }
    var body := DecodeBody(response.body, utf8);
    if body.None? {
      return Err(Framing);
    }
    if body.value.status.Some? {
      var checked := Check(body.value.status.value);
      if checked.Err? {
        return Err(checked.error);
      }
    } else if response.status.None? {
      return Err(Framing);
    }
    return Ok(body.value.messages);
  }

  /** A call that fails says why: the headers' status, a body that is not whole frames or says nothing, or the trailer's status. */
  lemma FailureSays(response: Response, utf8: Utf8)
    requires !Succeeded(response, utf8)
    ensures var body, failure := BodyOf(response.body, utf8), Failure(response, utf8);
      if response.status.Some? && response.status.value.code != 0
      then failure == Status(response.status.value.code, response.status.value.message)
      else if body.None? || body.value.status.None? then failure == Framing
      else body.value.status.value.code != 0 && failure == Status(body.value.status.value.code, body.value.status.value.message)
  {
    hide BodyOf;
  }

  /** `unary`: the one message of a call that must return exactly one. */
  method Unary(wire: Wire, utf8: Utf8, request: seq<Byte>) returns (r: Result<seq<Byte>, LightError>)
    requires |request| <= MAX_U32
    ensures var answer := wire(EncodeFrame(Frame(0, request)));
      && (r.Ok? <==> OneMessage(answer, utf8).Some?)
      && (r.Ok? ==> OneMessage(answer, utf8) == Some(r.value))
      && (answer.Err? ==> r == Err(answer.error))
      && (answer.Ok? && !Succeeded(answer.value, utf8) ==> r == Err(Failure(answer.value, utf8)))
      && (r.Err? && answer.Ok? && Succeeded(answer.value, utf8) ==>
            r == Err(NotUnary(|BodyOf(answer.value.body, utf8).value.messages|)))
  {
    hide BodyOf;
    var messages := Call(wire, utf8, request);
    if messages.Err? {
      return Err(messages.error);
    }
    if |messages.value| != 1 {
      return Err(NotUnary(|messages.value|));
    }
    return Ok(messages.value[0]);
  }

  /** The only message of a response that succeeded. */
  ghost function OneMessage(answer: Result<Response, LightError>, utf8: Utf8): Option<seq<Byte>> {
    if answer.Err? || !Succeeded(answer.value, utf8) then None
    else
      var messages := BodyOf(answer.value.body, utf8).value.messages;
      if |messages| == 1 then Some(messages[0]) else None
  }

  /** Every message is a block, and these are the blocks. */
  ghost predicate AreBlocks(messages: seq<seq<Byte>>, blocks: seq<CompactBlock>) {
    && |messages| == |blocks|
    && forall i :: 0 <= i < |messages| ==> BlockOf(messages[i]) == Some(blocks[i])
  }

  function Heights(blocks: seq<CompactBlock>): seq<nat> {
    seq(|blocks|, i requires 0 <= i < |blocks| => blocks[i].height)
  }

  /** Exactly the blocks of the range, in order, as the messages of a response that succeeded. */
  ghost predicate Serves(answer: Result<Response, LightError>, utf8: Utf8, start: nat, end: nat, blocks: seq<CompactBlock>) {
    && answer.Ok? && Succeeded(answer.value, utf8)
    && AreBlocks(BodyOf(answer.value.body, utf8).value.messages, blocks)
    && CompleteRange(Heights(blocks), start, end)
  }

  method DecodeBlocks(messages: seq<seq<Byte>>) returns (r: Option<seq<CompactBlock>>)
    ensures r.Some? ==> AreBlocks(messages, r.value)
    ensures r.None? ==> forall blocks: seq<CompactBlock> :: !AreBlocks(messages, blocks)
  {
    hide BlockOf;
    var blocks: seq<CompactBlock> := [];
    for i := 0 to |messages|
      invariant |blocks| == i && forall j :: 0 <= j < i ==> BlockOf(messages[j]) == Some(blocks[j])
    {
      var block := DecodeBlock(messages[i]);
      if block.None? {
        return None;
      }
      blocks := blocks + [block.value];
    }
    return Some(blocks);
  }

  function CheckedAdd(a: nat, b: nat): Option<nat> {
    if a + b <= MAX_U64 then Some(a + b) else None
  }

  /** At its own height, and that height is a 64-bit one. */
  predicate InPlace(block: CompactBlock, height: nat) {
    block.height == height <= MAX_U64
  }

  method CheckHeights(start: nat, blocks: seq<CompactBlock>) returns (ok: bool)
    ensures ok <==> forall i :: 0 <= i < |blocks| ==> InPlace(blocks[i], start + i)
  {
    for offset := 0 to |blocks|
      invariant forall i :: 0 <= i < offset ==> InPlace(blocks[i], start + i)
    {
      var block := blocks[offset];
      assert InPlace(block, start + offset) <==> block.height == start + offset <= MAX_U64;
      var expected := CheckedAdd(start, offset);
      if expected.None? {
        return false;
      }
      if block.height != expected.value {
        return false;
      }
    }
    return true;
  }

  /**
    A block range is never silently short: for every pair of bounds and whatever the server answers,
    success means exactly the blocks asked for, and every success the server could mean is reported.
   */
  method FetchRange(wire: Wire, utf8: Utf8, start: nat, end: nat) returns (r: Result<seq<CompactBlock>, LightError>)
    requires start <= MAX_U64 && end <= MAX_U64
    ensures r.Ok? ==> start <= end < start + MAX_BLOCK_RANGE
    ensures r.Ok? ==> Serves(wire(RequestBytes(start, end)), utf8, start, end, r.value)
    ensures r.Err? && start <= end < start + MAX_BLOCK_RANGE ==>
      forall blocks: seq<CompactBlock> :: !Serves(wire(RequestBytes(start, end)), utf8, start, end, blocks)
    ensures end < start || end >= start + MAX_BLOCK_RANGE ==> r == Err(Refused)
  {
    hide BlockOf, BodyOf, AreBlocks, RangeBytes;
    if end < start {
      return Err(Refused);
    }
    var count := CheckedAdd(end - start, 1);
    if count.None? {
      return Err(Refused);
    }
    if count.value > MAX_BLOCK_RANGE {
      return Err(Refused);
    }
    RequestFits(start, end);
    var request := EncodeBlockRange(start, end);
    var messages := Call(wire, utf8, request);
    if messages.Err? {
      return Err(messages.error);
    }
    var blocks := DecodeBlocks(messages.value);
    if blocks.None? {
      return Err(Protobuf);
    }
    ghost var answer := wire(RequestBytes(start, end));
    var inOrder := CheckHeights(start, blocks.value);
    if !inOrder || |blocks.value| != count.value {
      RangeNeedsHeights(blocks.value, start, end);
      OnlyTheseBlocks(answer, utf8, start, end, blocks.value);
      return Err(Protobuf);
    }
    return Ok(blocks.value);
  }

  lemma RequestFits(start: nat, end: nat)
    requires start <= MAX_U64 && end <= MAX_U64
    ensures |RangeBytes(start, end)| <= MAX_U32
  {
    hide EncodeVarint, ReadVarint;
    HeightIsShort(start);
    HeightIsShort(end);
    VarintRoundTrip(10, []);
    VarintRoundTrip(18, []);
    VarintRoundTrip(|EncodeHeight(start)|, []);
    VarintRoundTrip(|EncodeHeight(end)|, []);
  }

  function RequestBytes(start: nat, end: nat): seq<Byte>
    requires start <= MAX_U64 && end <= MAX_U64
  {
    RequestFits(start, end);
    EncodeFrame(Frame(0, RangeBytes(start, end)))
  }

  lemma RangeNeedsHeights(blocks: seq<CompactBlock>, start: nat, end: nat)
    requires end <= MAX_U64
    ensures CompleteRange(Heights(blocks), start, end) ==>
      && |blocks| == end - start + 1
      && forall i :: 0 <= i < |blocks| ==> InPlace(blocks[i], start + i)
  {
    assert forall i :: 0 <= i < |blocks| ==> Heights(blocks)[i] == blocks[i].height;
  }

  /** The messages decide the blocks, so if these are not the range then nothing is. */
  lemma OnlyTheseBlocks(answer: Result<Response, LightError>, utf8: Utf8, start: nat, end: nat, blocks: seq<CompactBlock>)
    requires answer.Ok? && Succeeded(answer.value, utf8)
    requires AreBlocks(BodyOf(answer.value.body, utf8).value.messages, blocks)
    ensures forall other: seq<CompactBlock> :: Serves(answer, utf8, start, end, other) ==> other == blocks
  {
    hide BodyOf, BlockOf;
  }

  // ---------------------------------------------------------------- an honest server is heard

  /** One message frame for each block, then a trailer. */
  function Stream(messages: seq<seq<Byte>>, trailer: seq<Byte>): seq<Frame> {
    seq(|messages|, i requires 0 <= i < |messages| => Frame(0, messages[i])) + [Frame(128, trailer)]
  }

  lemma {:induction false} MessagesOf(messages: seq<seq<Byte>>)
    ensures Payloads(seq(|messages|, i requires 0 <= i < |messages| => Frame(0, messages[i]))) == messages
  {
    var frames := seq(|messages|, i requires 0 <= i < |messages| => Frame(0, messages[i]));
    if messages == [] {
      assert frames == [];
    } else {
      var n := |messages| - 1;
      MessagesOf(messages[..n]);
      assert frames[..n] == seq(|messages[..n]|, i requires 0 <= i < |messages[..n]| => Frame(0, messages[..n][i]));
      assert messages[..n] + [messages[n]] == messages;
    }
  }

  /** Messages and a trailer in UTF-8 are read as these messages and what the trailer says. */
  lemma StreamReads(messages: seq<seq<Byte>>, trailer: seq<Byte>, utf8: Utf8)
    requires forall i :: 0 <= i < |messages| ==> |messages[i]| <= MAX_U32
    requires |trailer| <= MAX_U32 && utf8(trailer).Some?
    ensures AllFit(Stream(messages, trailer))
    ensures BodyOf(EncodeFrames(Stream(messages, trailer)), utf8) == Some(Body(messages, StatusIn(utf8(trailer).value)))
  {
    hide StatusIn, Frames, EncodeFrames;
    var frames := Stream(messages, trailer);
    MessagesOf(messages);
    assert frames[..|messages|] == seq(|messages|, i requires 0 <= i < |messages| => Frame(0, messages[i]));
    assert messages + [] == messages;
    NoStatusInMessages(frames[..|messages|], utf8);
    BodyRoundTrip(frames, utf8);
  }

  lemma {:induction false} NoStatusInMessages(frames: seq<Frame>, utf8: Utf8)
    requires forall i :: 0 <= i < |frames| ==> frames[i].flags == 0
    ensures LastStatus(frames, utf8) == None
  {
    hide FrameStatus;
    if frames != [] {
      NoStatusInMessages(frames[..|frames| - 1], utf8);
      MessageHasNoStatus(frames[|frames| - 1], utf8);
    }
  }

  lemma MessageHasNoStatus(f: Frame, utf8: Utf8)
    requires f.flags == 0
    ensures FrameStatus(f, utf8) == None
  {
    hide StatusIn;
  }

  /** Messages and then a zero status are a response that succeeded with these messages, whatever its headers do not say. */
  lemma StreamSucceeds(messages: seq<seq<Byte>>, trailer: seq<Byte>, utf8: Utf8)
    requires forall i :: 0 <= i < |messages| ==> |messages[i]| <= MAX_U32
    requires |trailer| <= MAX_U32 && utf8(trailer).Some?
    requires StatusIn(utf8(trailer).value).Some? && StatusIn(utf8(trailer).value).value.code == 0
    ensures AllFit(Stream(messages, trailer))
    ensures var response := Response(None, EncodeFrames(Stream(messages, trailer)));
      Succeeded(response, utf8) && BodyOf(response.body, utf8).value.messages == messages
  {
    hide StatusIn, BodyOf, EncodeFrames, Stream;
    StreamReads(messages, trailer, utf8);
  }

  /** A server that streams the blocks of the range and then a zero status serves the range. */
  lemma HonestStreamServes(messages: seq<seq<Byte>>, trailer: seq<Byte>, utf8: Utf8, start: nat, end: nat, blocks: seq<CompactBlock>)
    requires forall i :: 0 <= i < |messages| ==> |messages[i]| <= MAX_U32
    requires |trailer| <= MAX_U32 && utf8(trailer).Some?
    requires StatusIn(utf8(trailer).value).Some? && StatusIn(utf8(trailer).value).value.code == 0
    requires AreBlocks(messages, blocks) && CompleteRange(Heights(blocks), start, end)
    ensures AllFit(Stream(messages, trailer))
    ensures Serves(Ok(Response(None, EncodeFrames(Stream(messages, trailer)))), utf8, start, end, blocks)
  {
    hide StatusIn, BodyOf, EncodeFrames, BlockOf, Succeeded, Stream, AllFit, AreBlocks;
    StreamSucceeds(messages, trailer, utf8);
  }
}
