/**
  The commitment tree as a server reports it: a message whose text fields include the serialized
  frontier in hexadecimal.

  A text field is held as its bytes, which have to be UTF-8. Reading hexadecimal is the library's.
 */
module TreeStates {
  import opened Base
  import opened Grpc
  import opened LightClient
  import opened Proto
  import opened Records
  import M = Messages
  import P = CompactFormats

  datatype TreeState = TreeState(network: seq<Byte>, height: nat, hash: seq<Byte>, time: nat, tree: seq<Byte>)

  const NO_STATE := TreeState([], 0, [], 0, [])

  // ---------------------------------------------------------------- decoding

  function Applying(state: TreeState, r: Record, utf8: Utf8): Option<TreeState> {
    match r
    case Record(1, Bytes(text)) => if utf8(text).Some? then Some(state.(network := text)) else None
    case Record(2, VarintValue(v)) => Some(state.(height := v))
    case Record(3, Bytes(text)) => if utf8(text).Some? then Some(state.(hash := text)) else None
    case Record(4, VarintValue(v)) => if v <= MAX_U32 then Some(state.(time := v)) else None
    case Record(5, Bytes(text)) => if utf8(text).Some? then Some(state.(tree := text)) else None
    case _ => Some(state)
  }

  function StateStep(utf8: Utf8): Update<TreeState> {
    (state: TreeState, r: Record) => Applying(state, r, utf8)
  }

  /** A wholly empty message is refused, rather than read as an empty tree. */
  function StateOf(bytes: seq<Byte>, utf8: Utf8): Option<TreeState> {
    if bytes == [] then None else Run(bytes, NO_STATE, StateStep(utf8))
  }

  method Text(reader: Reader, utf8: Utf8) returns (r: Option<seq<Byte>>)
    requires reader.Valid()
    modifies reader`offset
    ensures reader.Valid() && reader.offset >= old(reader.offset)
    ensures var read := ReadBytes(old(reader.Rest()));
      if read.None? || utf8(read.value.value).None? then r.None?
      else r == Some(read.value.value) && reader.Past(old(reader.Rest()), read.value.length)
  {
    r := reader.ReadBytesAt();
    if r.Some? && utf8(r.value).None? {
      return None;
    }
  }

  /** One round of the tree state loop. */
  method StateField(reader: Reader, state: TreeState, utf8: Utf8) returns (r: Option<TreeState>)
    requires reader.Valid()
    modifies reader`offset
    ensures reader.Valid() && Applied(old(reader.Rest()), state, StateStep(utf8), r, reader.Rest())
  {
    hide ReadRecord, ReadTag, ReadVarint, ReadBytes, Run;
    TagThenPayload(reader.Rest());
    var tag := reader.ReadTagAt();
    if tag.None? {
      return None;
    }
    match tag.value {
      case Tag(1, 2) =>
        var text := Text(reader, utf8);
        return if text.None? then None else Some(state.(network := text.value));
      case Tag(2, 0) =>
        var v := reader.Varint();
        return if v.None? then None else Some(state.(height := v.value));
      case Tag(3, 2) =>
        var text := Text(reader, utf8);
        return if text.None? then None else Some(state.(hash := text.value));
      case Tag(4, 0) =>
        var v := reader.Varint();
        return if v.None? || v.value > MAX_U32 then None else Some(state.(time := v.value));
      case Tag(5, 2) =>
        var text := Text(reader, utf8);
        return if text.None? then None else Some(state.(tree := text.value));
      case Tag(_, wire) =>
        var skipped := reader.Skip(wire);
        return if skipped then Some(state) else None;
    }
  }

  method DecodeTreeState(bytes: seq<Byte>, utf8: Utf8) returns (r: Option<TreeState>)
    ensures r == StateOf(bytes, utf8)
  {
    hide Run, Applied, StateStep;
    var reader := new Reader(bytes);
    var value := NO_STATE;
    var sawField := false;
    var empty := reader.IsEmpty();
    while !empty
      invariant reader.Valid() && (empty <==> reader.Rest() == [])
      invariant Run(reader.Rest(), value, StateStep(utf8)) == Run(bytes, NO_STATE, StateStep(utf8))
      invariant if sawField then bytes != [] else reader.Rest() == bytes
      decreases |reader.Rest()|
    {
      sawField := true;
      ghost var before := reader.Rest();
      var next := StateField(reader, value, utf8);
      RunNext(before, value, StateStep(utf8), next, reader.Rest());
      if next.None? {
        return None;
      }
      value := next.value;
      empty := reader.IsEmpty();
    }
    RunOver(value, StateStep(utf8));
    return if sawField then Some(value) else None;
  }

  // ---------------------------------------------------------------- the call

  function TreeRequest(height: nat): seq<Byte>
    requires height <= MAX_U64
  {
    M.HeightIsShort(height);
    EncodeFrame(Frame(0, M.EncodeHeight(height)))
  }

  /** The tree state an answer carries, when it is a success with one message that decodes. */
  ghost function StateIn(answer: Result<Response, LightError>, utf8: Utf8): Option<TreeState> {
    match OneMessage(answer, utf8)
    case None => None
    case Some(message) => StateOf(message, utf8)
  }

  /** `tree_state`: the request names the height, and a success is exactly what the answer carries. */
  method FetchTreeState(wire: Wire, utf8: Utf8, height: nat) returns (r: Result<TreeState, LightError>)
    requires height <= MAX_U64
    ensures r.Ok? <==> StateIn(wire(TreeRequest(height)), utf8).Some?
    ensures r.Ok? ==> StateIn(wire(TreeRequest(height)), utf8) == Some(r.value)
  {
    hide OneMessage, StateOf, EncodeVarintField, EncodeFrame;
    M.HeightIsShort(height);
    var request := PutVarintField([], 1, height);
    assert request == M.EncodeHeight(height);
    var message := Unary(wire, utf8, request);
    if message.Err? {
      return Err(message.error);
    }
    var state := DecodeTreeState(message.value, utf8);
    return if state.None? then Err(Protobuf) else Ok(state.value);
  }

  // ---------------------------------------------------------------- the server's side

  function StateRecords(t: TreeState): seq<Record> {
    P.Filled(1, t.network) + P.Scalar(2, t.height) + P.Filled(3, t.hash) + P.Scalar(4, t.time) + P.Filled(5, t.tree)
  }

  /** The canonical encoding: what is empty or zero is not sent. */
  function EncodeTreeState(t: TreeState): seq<Byte> {
    P.EncodeRecords(StateRecords(t))
  }

  predicate IsText(text: seq<Byte>, utf8: Utf8) {
    |text| <= MAX_U64 && (text != [] ==> utf8(text).Some?)
  }

  predicate IsTreeState(t: TreeState, utf8: Utf8) {
    && IsText(t.network, utf8) && IsText(t.hash, utf8) && IsText(t.tree, utf8)
    && t.height <= MAX_U64 && t.time <= MAX_U32
  }

  lemma TextFold(field: nat, text: seq<Byte>, state: TreeState, utf8: Utf8)
    requires IsText(text, utf8)
    ensures Fold(P.Filled(field, text), state, StateStep(utf8))
         == if text == [] then Some(state) else Applying(state, Record(field, Bytes(text)), utf8)
  {
    hide Applying;
    if text != [] {
      P.FoldOne(Record(field, Bytes(text)), state, StateStep(utf8));
    }
  }

  /** A tree state is read back from its encoding, unless it is so empty that nothing was sent. */
  lemma TreeStateRoundTrip(t: TreeState, utf8: Utf8)
    requires IsTreeState(t, utf8)
    ensures StateOf(EncodeTreeState(t), utf8) == if t == NO_STATE then None else Some(t)
  {
    hide Run, Fold, P.EncodeRecords, P.Writable;
    var step := StateStep(utf8);
    StateWritable(t, utf8);
    P.RunOfRecords(StateRecords(t), NO_STATE, step);
    StateFold(t, utf8);
    NothingSent(t);
  }

  lemma StateFold(t: TreeState, utf8: Utf8)
    requires IsTreeState(t, utf8)
    ensures Fold(StateRecords(t), NO_STATE, StateStep(utf8)) == Some(t)
  {
    hide Fold, StateStep, P.Filled, P.Scalar;
    var step := StateStep(utf8);
    var (a, b, c, d, e) := (P.Filled(1, t.network), P.Scalar(2, t.height), P.Filled(3, t.hash), P.Scalar(4, t.time), P.Filled(5, t.tree));
    var one := NO_STATE.(network := t.network);
    var two := one.(height := t.height);
    var three := two.(hash := t.hash);
    var four := three.(time := t.time);
    FoldConcat(a + b + c + d, e, NO_STATE, step);
    FoldConcat(a + b + c, d, NO_STATE, step);
    FoldConcat(a + b, c, NO_STATE, step);
    FoldConcat(a, b, NO_STATE, step);
    TextFold(1, t.network, NO_STATE, utf8);
    HeightFold(t.height, one, utf8);
    TextFold(3, t.hash, two, utf8);
    TimeFold(t.time, three, utf8);
    TextFold(5, t.tree, four, utf8);
  }

  lemma HeightFold(height: nat, state: TreeState, utf8: Utf8)
    requires state.height == 0
    ensures Fold(P.Scalar(2, height), state, StateStep(utf8)) == Some(state.(height := height))
  {
    P.ScalarFold(2, height, state, StateStep(utf8));
  }

  lemma TimeFold(time: nat, state: TreeState, utf8: Utf8)
    requires state.time == 0 && time <= MAX_U32
    ensures Fold(P.Scalar(4, time), state, StateStep(utf8)) == Some(state.(time := time))
  {
    P.ScalarFold(4, time, state, StateStep(utf8));
  }

  lemma StateWritable(t: TreeState, utf8: Utf8)
    requires IsTreeState(t, utf8)
    ensures P.AllWritable(StateRecords(t))
  {
  }

  lemma NothingSent(t: TreeState)
    ensures EncodeTreeState(t) == [] <==> t == NO_STATE
  {
    hide P.EncodeRecords;
    NoRecords(StateRecords(t));
  }

  lemma NoRecords(records: seq<Record>)
    requires forall i :: 0 <= i < |records| ==> records[i].payload.VarintValue? || records[i].payload.Bytes?
    ensures P.EncodeRecords(records) == [] <==> records == []
  {
    if records != [] {
      assert P.EncodeRecord(records[0]) != [];
    }
  }

  /** A server that answers with its tree state and a zero status is understood. */
  lemma StateServes(t: TreeState, trailer: seq<Byte>, utf8: Utf8)
    requires IsTreeState(t, utf8) && t != NO_STATE && |EncodeTreeState(t)| <= MAX_U32
    requires |trailer| <= MAX_U32 && utf8(trailer).Some?
    requires StatusIn(utf8(trailer).value).Some? && StatusIn(utf8(trailer).value).value.code == 0
    ensures AllFit(Stream([EncodeTreeState(t)], trailer))
    ensures StateIn(Ok(Response(None, EncodeFrames(Stream([EncodeTreeState(t)], trailer)))), utf8) == Some(t)
  {
    hide StatusIn, BodyOf, EncodeFrames, Succeeded, Stream, AllFit, StateOf, EncodeTreeState;
    StreamSucceeds([EncodeTreeState(t)], trailer, utf8);
    TreeStateRoundTrip(t, utf8);
  }

  // ---------------------------------------------------------------- hexadecimal

  function HexValue(c: Byte): Option<nat> {
    if 48 <= c <= 57 then Some(c - 48)
    else if 97 <= c <= 102 then Some(c - 87)
    else if 65 <= c <= 70 then Some(c - 55)
    else None
  }

  function HexDigit(v: nat): (c: Byte)
    requires v < 16
    ensures HexValue(c) == Some(v)
  {
    if v < 10 then 48 + v else 87 + v
  }

  /** Two digits a byte, either case; an odd length or any other character is refused. */
  function HexDecoded(text: seq<Byte>): Option<seq<Byte>> {
    if text == [] then Some([])
    else if |text| == 1 then None
    else
      match (HexValue(text[0]), HexValue(text[1]), HexDecoded(text[2..]))
      case (Some(high), Some(low), Some(rest)) => Some([16 * high + low] + rest)
      case _ => None
  }

  function HexEncoded(bytes: seq<Byte>): seq<Byte> {
    if bytes == [] then []
    else [HexDigit(bytes[0] / 16), HexDigit(bytes[0] % 16)] + HexEncoded(bytes[1..])
  }

  /** Both cases are read: 0aF9 is two bytes. */
  lemma HexExample()
    ensures HexDecoded([0x30, 0x61, 0x46, 0x39]) == Some([0x0a, 0xf9])
  {
    var text: seq<Byte>, last: seq<Byte> := [0x30, 0x61, 0x46, 0x39], [0x46, 0x39];
    var none: seq<Byte> := [];
    assert text[2..] == last && last[2..] == none;
    assert HexDecoded(last) == Some([0xf9] + none);
    assert HexDecoded(text) == Some([0x0a] + ([0xf9] + none));
    assert [0x0a] + ([0xf9] + none) == [0x0a, 0xf9];
  }

  function Lowered(c: Byte): Byte {
    if 65 <= c <= 70 then c + 32 else c
  }

  /** What is read is what was written, but for the case of the letters; nothing else is accepted. */
  lemma {:induction false} HexReadIsWritten(text: seq<Byte>)
    ensures HexDecoded(text).Some? ==>
      var written := HexEncoded(HexDecoded(text).value);
      |written| == |text| && forall i :: 0 <= i < |text| ==> written[i] == Lowered(text[i])
    decreases |text|
  {
    if HexDecoded(text).Some? && text != [] {
      HexReadIsWritten(text[2..]);
      var bytes, rest := HexDecoded(text).value, HexDecoded(text[2..]).value;
      assert bytes[1..] == rest;
      HexPair(text[0], text[1]);
      var written := HexEncoded(bytes);
      forall i | 0 <= i < |text|
        ensures written[i] == Lowered(text[i])
      {
        assert i >= 2 ==> written[i] == HexEncoded(rest)[i - 2] && text[i] == text[2..][i - 2];
      }
    }
  }

  lemma HexPair(high: Byte, low: Byte)
    requires HexValue(high).Some? && HexValue(low).Some?
    ensures var b := 16 * HexValue(high).value + HexValue(low).value;
      b < 256 && HexDigit(b / 16) == Lowered(high) && HexDigit(b % 16) == Lowered(low)
  {
  }

  lemma {:induction false} HexRoundTrip(bytes: seq<Byte>)
    ensures HexDecoded(HexEncoded(bytes)) == Some(bytes)
    decreases |bytes|
  {
    if bytes != [] {
      HexRoundTrip(bytes[1..]);
      var rest := HexEncoded(bytes[1..]);
      assert ([HexDigit(bytes[0] / 16), HexDigit(bytes[0] % 16)] + rest)[2..] == rest;
      assert [bytes[0]] + bytes[1..] == bytes;
    }
  }
}
