/**
  grpc-web framing and the gRPC status, wherever it is found.

  Framing errors differ only in their text, so a refused body is `None`. UTF-8 decoding is a parameter.
 */
module Grpc {
  import opened Base
  import opened Digits
  import opened Phrases
  import opened Proto

  const HEADER_SIZE: nat := 5

  datatype GrpcStatus = GrpcStatus(code: int, message: string)

  /** Flags and payload, as they lie in the body. */
  datatype Frame = Frame(flags: Byte, payload: seq<Byte>)

  datatype Body = Body(messages: seq<seq<Byte>>, status: Option<GrpcStatus>)

  type Utf8 = seq<Byte> -> Option<string>

  /** `flags & 0x80 != 0`. */
  predicate IsTrailer(f: Frame) {
    f.flags / 128 % 2 == 1
  }

  /** `flags & 0x01 != 0`. */
  predicate IsCompressed(f: Frame) {
    f.flags % 2 == 1
  }

  // ---------------------------------------------------------------- status lines

  /** The lines of a text: ended by a line feed, with one carriage return before it dropped. */
  function Lines(text: string, current: string): seq<string> {
    if text == [] then (if current == [] then [] else [current])
    else if text[0] == '\n' then [Stripped(current)] + Lines(text[1..], [])
    else Lines(text[1..], current + [text[0]])
  }

  function Stripped(line: string): string {
    if line != [] && line[|line| - 1] == '\r' then line[..|line| - 1] else line
  }

  function TrimStart(s: string): string {
    if s != [] && IsSpace(s[0]) then TrimStart(s[1..]) else s
  }

  function TrimEnd(s: string): string {
    if s != [] && IsSpace(s[|s| - 1]) then TrimEnd(s[..|s| - 1]) else s
  }

  function Trim(s: string): string {
    TrimEnd(TrimStart(s))
  }

  function Lower(c: char): char {
    if 'A' <= c <= 'Z' then (c as int + 32) as char else c
  }

  predicate SameIgnoringCase(a: string, b: string) {
    |a| == |b| && forall i :: 0 <= i < |a| ==> Lower(a[i]) == Lower(b[i])
  }

  /** `split_once(':')`. */
  function SplitOnce(line: string): (r: Option<(string, string)>)
    ensures r.Some? ==> line == r.value.0 + ":" + r.value.1 && ':' !in r.value.0
    ensures r.None? ==> ':' !in line
  {
    if line == [] then None
    else if line[0] == ':' then Some(("", line[1..]))
    else
      match SplitOnce(line[1..])
      case None => None
      case Some(parts) => Some(([line[0]] + parts.0, parts.1))
  }

  /** `parse::<i32>`: an optional sign, at least one digit, and the value in range. */
  function ParseI32(s: string): (r: Option<int>)
    ensures r.Some? ==> -0x8000_0000 <= r.value < 0x8000_0000
  {
    var signed := s != [] && (s[0] == '-' || s[0] == '+');
    var digits := if signed then s[1..] else s;
    if digits == [] || !AllDigits(digits) then None
    else
      var magnitude: int := Value(digits);
      var value := if signed && s[0] == '-' then -magnitude else magnitude;
      if -0x8000_0000 <= value < 0x8000_0000 then Some(value) else None
  }

  predicate Names(line: string, name: string) {
    SplitOnce(line).Some? && SameIgnoringCase(Trim(SplitOnce(line).value.0), name)
  }

  function ValueOf(line: string): string
    requires SplitOnce(line).Some?
  {
    Trim(SplitOnce(line).value.1)
  }

  /** The last line of that name, if there is one. */
  function LastNamed(lines: seq<string>, name: string): (r: Option<string>)
    ensures r.Some? ==> r.value in lines && Names(r.value, name)
  {
    if lines == [] then None
    else if Names(lines[|lines| - 1], name) then Some(lines[|lines| - 1])
    else LastNamed(lines[..|lines| - 1], name)
  }

  /**
    The status a header or trailer text carries. The last `grpc-status` line decides, also when its
    value is not a number: then there is no status at all.
   */
  function StatusIn(text: string): Option<GrpcStatus> {
    var lines := Lines(text, "");
    var status, message := LastNamed(lines, "grpc-status"), LastNamed(lines, "grpc-message");
    if status.None? || ParseI32(ValueOf(status.value)).None? then None
    else Some(GrpcStatus(ParseI32(ValueOf(status.value)).value, if message.None? then "" else ValueOf(message.value)))
  }

  method ParseStatus(text: string) returns (r: Option<GrpcStatus>)
    ensures r == StatusIn(text)
  {
    hide SplitOnce, SameIgnoringCase, Trim, ParseI32, Lines;
    DifferentNames();
    var lines := Lines(text, "");
    var code: Option<int>, message := None, "";
    for i := 0 to |lines|
      invariant var last := LastNamed(lines[..i], "grpc-status");
        code == if last.None? then None else ParseI32(ValueOf(last.value))
      invariant var last := LastNamed(lines[..i], "grpc-message");
        message == if last.None? then "" else ValueOf(last.value)
    {
      assert lines[..i + 1][..i] == lines[..i];
      var parts := SplitOnce(lines[i]);
      if parts.Some? {
        var (name, value) := (parts.value.0, Trim(parts.value.1));
        if SameIgnoringCase(Trim(name), "grpc-status") {
          code := ParseI32(value);
        } else if SameIgnoringCase(Trim(name), "grpc-message") {
          message := value;
        }
      }
    }
    assert lines[..|lines|] == lines;
    return if code.None? then None else Some(GrpcStatus(code.value, message));
  }

  lemma DifferentNames()
    ensures forall name: string :: SameIgnoringCase(name, "grpc-status") ==> !SameIgnoringCase(name, "grpc-message")
  {
    assert |"grpc-status"| != |"grpc-message"|;
  }

  // ---------------------------------------------------------------- frames

  function BigEndian(n: nat): (r: seq<Byte>)
    requires n <= MAX_U32
    ensures |r| == 4
  {
    [n / 0x100_0000, n / 0x1_0000 % 256, n / 256 % 256, n % 256]
  }

  function FromBigEndian(s: seq<Byte>): (n: nat)
    requires |s| == 4
    ensures n <= MAX_U32
  {
    var a: nat, b: nat, c: nat, d: nat := s[0], s[1], s[2], s[3];
    ((a * 256 + b) * 256 + c) * 256 + d
  }

  lemma BigEndianRoundTrip(n: nat)
    requires n <= MAX_U32
    ensures FromBigEndian(BigEndian(n)) == n
  {
    FourBytes(n);
  }

  /** Most significant byte first. */
  lemma BigEndianIs(n: nat)
    requires n <= MAX_U32
    ensures var s := BigEndian(n);
      var a: nat, b: nat, c: nat, d: nat := s[0], s[1], s[2], s[3];
      n == 0x100_0000 * a + 0x1_0000 * b + 0x100 * c + d
  {
    FourBytes(n);
  }

  lemma FourBytes(n: nat)
    ensures n == ((n / 0x100_0000 * 256 + n / 0x1_0000 % 256) * 256 + n / 256 % 256) * 256 + n % 256
  {
    assert n / 0x1_0000 == n / 256 / 256;
    assert n / 0x100_0000 == n / 0x1_0000 / 256;
  }

  lemma BigEndianOf(s: seq<Byte>)
    requires |s| == 4
    ensures BigEndian(FromBigEndian(s)) == s
  {
    var a: nat, b: nat, c: nat, d: nat := s[0], s[1], s[2], s[3];
    var high := (a * 256 + b) * 256 + c;
    Digit(high, d);
    Digit(a * 256 + b, c);
    Digit(a, b);
    Shifts(high * 256 + d);
  }

  lemma Digit(high: nat, low: nat)
    requires low < 256
    ensures (high * 256 + low) / 256 == high && (high * 256 + low) % 256 == low
  {
  }

  lemma Shifts(n: nat)
    ensures n / 0x1_0000 == n / 256 / 256 && n / 0x100_0000 == n / 256 / 256 / 256
  {
  }

  predicate Fits(f: Frame) {
    |f.payload| <= MAX_U32
  }

  predicate AllFit(frames: seq<Frame>) {
    forall i :: 0 <= i < |frames| ==> Fits(frames[i])
  }

  function EncodeFrame(f: Frame): (r: seq<Byte>)
    requires Fits(f)
    ensures |r| == HEADER_SIZE + |f.payload|
  {
    [f.flags] + BigEndian(|f.payload|) + f.payload
  }

  function EncodeFrames(frames: seq<Frame>): seq<Byte>
    requires AllFit(frames)
  {
    if frames == [] then [] else EncodeFrame(frames[0]) + EncodeFrames(frames[1..])
  }

  /** The request frame; the source refuses to frame 4 GiB or more. */
  method FrameRequest(message: seq<Byte>) returns (out: seq<Byte>)
    requires |message| <= MAX_U32
    ensures out == EncodeFrame(Frame(0, message))
  {
    out := [0];
    out := out + BigEndian(|message|);
    out := out + message;
  }

  function ReadFrame(s: seq<Byte>): (r: Option<Taken<Frame>>)
    ensures r.Some? ==> HEADER_SIZE <= r.value.length <= |s| && Fits(r.value.value)
  {
    if HEADER_SIZE > |s| then None
    else
      var len := FromBigEndian(s[1..5]);
      if len > |s| - HEADER_SIZE then None
      else Some(Taken(Frame(s[0], s[HEADER_SIZE..HEADER_SIZE + len]), HEADER_SIZE + len))
  }

  function Frames(s: seq<Byte>): (r: Option<seq<Frame>>)
    ensures r.Some? ==> AllFit(r.value)
    decreases |s|
  {
    if s == [] then Some([])
    else
      match ReadFrame(s)
      case None => None
      case Some(first) =>
        match Frames(s[first.length..])
        case None => None
        case Some(rest) => Some([first.value] + rest)
  }

  lemma FrameRoundTrip(f: Frame, rest: seq<Byte>)
    requires Fits(f)
    ensures ReadFrame(EncodeFrame(f) + rest) == Some(Taken(f, HEADER_SIZE + |f.payload|))
  {
    BigEndianRoundTrip(|f.payload|);
    hide BigEndian, FromBigEndian;
    var s := EncodeFrame(f) + rest;
    assert s[1..5] == BigEndian(|f.payload|);
    assert s[5..5 + |f.payload|] == f.payload;
  }

  lemma FrameReadIsEncoded(s: seq<Byte>)
    requires ReadFrame(s).Some?
    ensures s == EncodeFrame(ReadFrame(s).value.value) + s[ReadFrame(s).value.length..]
  {
    hide BigEndian, FromBigEndian;
    BigEndianOf(s[1..5]);
    var f := ReadFrame(s).value;
    assert s[..f.length] == [s[0]] + s[1..5] + s[5..f.length];
  }

  /** Framing is invertible. */
  lemma {:induction false} FramesRoundTrip(frames: seq<Frame>)
    requires AllFit(frames)
    ensures Frames(EncodeFrames(frames)) == Some(frames)
    decreases |frames|
  {
    hide ReadFrame, EncodeFrame;
    if frames != [] {
      var rest := EncodeFrames(frames[1..]);
      FrameRoundTrip(frames[0], rest);
      FramesRoundTrip(frames[1..]);
      assert (EncodeFrame(frames[0]) + rest)[HEADER_SIZE + |frames[0].payload|..] == rest;
      assert [frames[0]] + frames[1..] == frames;
    }
  }

  /** Uniquely so: a body that splits into frames is the encoding of those frames and of no others. */
  lemma {:induction false} FramesAreEncoded(s: seq<Byte>)
    requires Frames(s).Some?
    ensures EncodeFrames(Frames(s).value) == s
    decreases |s|
  {
    hide ReadFrame, EncodeFrame;
    if s != [] {
      var first := ReadFrame(s).value;
      FrameReadIsEncoded(s);
      FramesAreEncoded(s[first.length..]);
      var rest := Frames(s[first.length..]).value;
      assert ([first.value] + rest)[1..] == rest;
    }
  }

  // ---------------------------------------------------------------- bodies

  /** A frame a body may hold: an uncompressed message or a trailer in UTF-8. */
  predicate Acceptable(f: Frame, utf8: Utf8) {
    if IsTrailer(f) then utf8(f.payload).Some? else !IsCompressed(f)
  }

  predicate AllAcceptable(frames: seq<Frame>, utf8: Utf8) {
    forall i :: 0 <= i < |frames| ==> Acceptable(frames[i], utf8)
  }

  /** The payloads of the message frames, in order. */
  function Payloads(frames: seq<Frame>): seq<seq<Byte>> {
    if frames == [] then []
    else
      var n := |frames| - 1;
      Payloads(frames[..n]) + if IsTrailer(frames[n]) then [] else [frames[n].payload]
  }

  function FrameStatus(f: Frame, utf8: Utf8): Option<GrpcStatus> {
    if IsTrailer(f) && utf8(f.payload).Some? then StatusIn(utf8(f.payload).value) else None
  }

  /** The status of the last trailer frame that carried one. */
  function LastStatus(frames: seq<Frame>, utf8: Utf8): Option<GrpcStatus> {
    if frames == [] then None
    else
      var n := |frames| - 1;
      if FrameStatus(frames[n], utf8).Some? then FrameStatus(frames[n], utf8) else LastStatus(frames[..n], utf8)
  }

  /** A later trailer without a status, or with one that is not a number, leaves an earlier status standing. */
  lemma {:induction false} LastStatusDecides(frames: seq<Frame>, i: nat, utf8: Utf8)
    requires i < |frames| && FrameStatus(frames[i], utf8).Some?
    requires forall j :: i < j < |frames| ==> FrameStatus(frames[j], utf8).None?
    ensures LastStatus(frames, utf8) == FrameStatus(frames[i], utf8)
  {
    hide FrameStatus;
    if i < |frames| - 1 {
      LastStatusDecides(frames[..|frames| - 1], i, utf8);
    }
  }

  /** What a response body says: all of it, or nothing. */
  function BodyOf(body: seq<Byte>, utf8: Utf8): Option<Body> {
    match Frames(body)
    case None => None
    case Some(frames) =>
      if AllAcceptable(frames, utf8) then Some(Body(Payloads(frames), LastStatus(frames, utf8))) else None
  }

  /** With `seen` read and `rest` to go, reading the body comes to reading on. */
  ghost predicate ReadsOn(body: seq<Byte>, seen: seq<Frame>, rest: seq<Byte>) {
    Frames(body) == if Frames(rest).None? then None else Some(seen + Frames(rest).value)
  }

  lemma ReadsOnNext(body: seq<Byte>, seen: seq<Frame>, rest: seq<Byte>)
    requires ReadsOn(body, seen, rest) && rest != []
    ensures ReadFrame(rest).None? ==> Frames(body).None?
    ensures ReadFrame(rest).Some? ==>
      ReadsOn(body, seen + [ReadFrame(rest).value.value], rest[ReadFrame(rest).value.length..])
  {
    hide ReadFrame;
    if ReadFrame(rest).Some? {
      var first := ReadFrame(rest).value;
      var left := Frames(rest[first.length..]);
      if left.Some? {
        assert seen + ([first.value] + left.value) == seen + [first.value] + left.value;
      }
    }
  }

  lemma ReadsOnEnds(body: seq<Byte>, seen: seq<Frame>)
    ensures ReadsOn(body, [], body)
    ensures ReadsOn(body, seen, []) ==> Frames(body) == Some(seen)
  {
    assert seen + [] == seen;
    if Frames(body).Some? {
      assert [] + Frames(body).value == Frames(body).value;
    }
  }

  lemma Refused(body: seq<Byte>, seen: seq<Frame>, rest: seq<Byte>, utf8: Utf8)
    requires seen != [] && ReadsOn(body, seen, rest) && !Acceptable(seen[|seen| - 1], utf8)
    ensures BodyOf(body, utf8).None?
  {
    hide Acceptable;
    if Frames(body).Some? {
      assert Frames(body).value[|seen| - 1] == seen[|seen| - 1];
    }
  }

  lemma SeenNext(seen: seq<Frame>, f: Frame, utf8: Utf8)
    requires AllAcceptable(seen, utf8) && Acceptable(f, utf8)
    ensures AllAcceptable(seen + [f], utf8)
    ensures Payloads(seen + [f]) == Payloads(seen) + if IsTrailer(f) then [] else [f.payload]
    ensures LastStatus(seen + [f], utf8) == if FrameStatus(f, utf8).Some? then FrameStatus(f, utf8) else LastStatus(seen, utf8)
  {
    hide Acceptable, FrameStatus;
    assert (seen + [f])[..|seen|] == seen;
  }

  method DecodeBody(body: seq<Byte>, utf8: Utf8) returns (r: Option<Body>)
    ensures r == BodyOf(body, utf8)
  {
    hide FromBigEndian, Frames, ReadsOn, AllAcceptable, Payloads, LastStatus, StatusIn;
    var messages: seq<seq<Byte>> := [];
    var status: Option<GrpcStatus> := None;
    var offset := 0;
    ghost var seen: seq<Frame> := [];
    ReadsOnEnds(body, []);
    NothingSeen(utf8);
    while offset < |body|
      invariant offset <= |body| && ReadsOn(body, seen, body[offset..])
      invariant AllAcceptable(seen, utf8) && messages == Payloads(seen) && status == LastStatus(seen, utf8)
    {
      ghost var rest := body[offset..];
      ReadsOnNext(body, seen, rest);
      if HEADER_SIZE > |body| - offset {
        return None;
      }
      var flags := body[offset];
      assert body[offset + 1..offset + 5] == rest[1..5];
      var len := FromBigEndian(body[offset + 1..offset + 5]);
      offset := offset + HEADER_SIZE;
      if len > |body| - offset {
        return None;
      }
      var payload := body[offset..offset + len];
      assert payload == rest[HEADER_SIZE..HEADER_SIZE + len];
      offset := offset + len;
      ghost var frame := Frame(flags, payload);
      assert body[offset..] == rest[HEADER_SIZE + len..];
      if !Acceptable(frame, utf8) {
        Refused(body, seen + [frame], body[offset..], utf8);
      } else {
        SeenNext(seen, frame, utf8);
      }
      seen := seen + [frame];
      if flags / 128 % 2 == 0 {
        if flags % 2 != 0 {
          return None;
        }
        messages := messages + [payload];
      } else {
        var text := utf8(payload);
        if text.None? {
          return None;
        }
        var found := ParseStatus(text.value);
        status := if found.Some? then found else status;
      }
    }
    assert body[offset..] == [];
    ReadsOnEnds(body, seen);
    return Some(Body(messages, status));
  }

  lemma NothingSeen(utf8: Utf8)
    ensures AllAcceptable([], utf8) && Payloads([]) == [] && LastStatus([], utf8) == None
  {
  }

  // ---------------------------------------------------------------- laws of framing

  /** Any sequence of uncompressed messages and UTF-8 trailers comes back: the payloads in order, and the deciding status. */
  lemma BodyRoundTrip(frames: seq<Frame>, utf8: Utf8)
    requires AllFit(frames) && AllAcceptable(frames, utf8)
    ensures BodyOf(EncodeFrames(frames), utf8) == Some(Body(Payloads(frames), LastStatus(frames, utf8)))
  {
    hide Frames, EncodeFrames, AllAcceptable, Payloads, LastStatus;
    FramesRoundTrip(frames);
  }

  lemma {:induction false} FramesPrefix(s: seq<Byte>, more: seq<Byte>)
    requires Frames(s).Some? && Frames(s + more).Some?
    ensures Frames(s).value <= Frames(s + more).value
    decreases |s|
  {
    hide ReadFrame;
    if s != [] {
      var first := ReadFrame(s).value;
      FramePrefix(s, more);
      assert (s + more)[first.length..] == s[first.length..] + more;
      FramesPrefix(s[first.length..], more);
    }
  }

  lemma FramePrefix(s: seq<Byte>, more: seq<Byte>)
    requires ReadFrame(s).Some?
    ensures ReadFrame(s + more) == ReadFrame(s)
  {
    hide FromBigEndian;
    assert (s + more)[1..5] == s[1..5];
    var n := ReadFrame(s).value.length;
    assert (s + more)[5..n] == s[5..n];
  }

  /** A body cut anywhere but on a frame boundary is an error, never a shorter success. */
  lemma TruncationIsAnError(frames: seq<Frame>, cut: nat, utf8: Utf8)
    requires AllFit(frames) && cut <= |EncodeFrames(frames)|
    requires BodyOf(EncodeFrames(frames)[..cut], utf8).Some?
    ensures exists k :: 0 <= k <= |frames| && AllFit(frames[..k]) && EncodeFrames(frames[..k]) == EncodeFrames(frames)[..cut]
  {
    hide Frames, EncodeFrames, AllAcceptable, Payloads, LastStatus;
    var whole, part := EncodeFrames(frames), EncodeFrames(frames)[..cut];
    FramesRoundTrip(frames);
    assert part + whole[cut..] == whole;
    FramesPrefix(part, whole[cut..]);
    FramesAreEncoded(part);
    var k := |Frames(part).value|;
    assert frames[..k] == Frames(part).value;
  }
}
