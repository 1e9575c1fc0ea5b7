/**
  What a status text says, read off its characters: numerals, header lines with any spacing and in any
  case, and from there which responses are successes.
 */
module StatusTexts {
  import opened Base
  import opened Digits
  import opened Grpc
  import opened LightClient
  import opened Phrases
  import opened Proto

  // ---------------------------------------------------------------- numerals

  function Zeros(k: nat): string {
    seq(k, _ => '0')
  }

  predicate InI32(v: int) {
    -0x8000_0000 <= v <= 0x7fff_ffff
  }

  function Abs(v: int): nat {
    if v < 0 then -v else v
  }

  /** A numeral of `v`: a sign that fits, any number of leading zeroes, and its decimal digits. */
  predicate WritesNumber(s: string, sign: string, k: nat, v: int) {
    && s == sign + Zeros(k) + Decimal(Abs(v))
    && ((v >= 0 && (sign == "" || sign == "+")) || (v <= 0 && sign == "-"))
  }

  lemma {:induction false} ValueOfZeros(k: nat)
    ensures AllDigits(Zeros(k)) && Value(Zeros(k)) == 0
  {
    if k > 0 {
      ValueOfZeros(k - 1);
      assert Zeros(k)[..k - 1] == Zeros(k - 1);
    }
  }

  /** Leading zeroes do not count. */
  lemma {:induction false} ValueAfterZeros(k: nat, s: string)
    requires AllDigits(s)
    ensures AllDigits(Zeros(k) + s) && Value(Zeros(k) + s) == Value(s)
  {
    var t := Zeros(k) + s;
    if s == [] {
      ValueOfZeros(k);
      assert t == Zeros(k);
    } else {
      assert t[..|t| - 1] == Zeros(k) + s[..|s| - 1];
      ValueAfterZeros(k, s[..|s| - 1]);
    }
  }

  /** Every run of digits is the decimal of its value behind some zeroes. */
  lemma {:induction false} DigitsAreDecimal(s: string) returns (k: nat)
    requires s != [] && AllDigits(s)
    ensures s == Zeros(k) + Decimal(Value(s))
  {
    var n := |s| - 1;
    var front, last := s[..n], s[n] as int - '0' as int;
    assert s == front + [s[n]] && 0 <= last < 10 && DigitChar(last) == s[n];
    if n == 0 {
      k := 0;
      assert Value(s) == last && Zeros(0) == "";
    } else {
      k := DigitsAreDecimal(front);
      var v := Value(front);
      assert Value(s) == 10 * v + last;
      if v == 0 {
        k := k + 1;
        assert Zeros(k) == Zeros(k - 1) + "0" && Decimal(0) == "0";
      } else {
        assert Value(s) / 10 == v && Value(s) % 10 == last;
        assert Decimal(Value(s)) == Decimal(v) + [s[n]];
      }
    }
  }

  /** `parse::<i32>` accepts exactly the numerals of the 32-bit numbers. */
  lemma ParseIff(s: string, v: int)
    ensures ParseI32(s) == Some(v) <==> InI32(v) && exists sign, k :: WritesNumber(s, sign, k, v)
  {
    hide WritesNumber, ParseI32;
    if ParseI32(s) == Some(v) {
      ParsedIsNumeral(s, v);
    }
    if InI32(v) && exists sign, k :: WritesNumber(s, sign, k, v) {
      var sign, k :| WritesNumber(s, sign, k, v);
      NumeralParses(s, sign, k, v);
    }
  }

  lemma ParsedIsNumeral(s: string, v: int)
    requires ParseI32(s) == Some(v)
    ensures InI32(v) && exists sign, k :: WritesNumber(s, sign, k, v)
  {
    hide ParseI32, Value, Decimal, Zeros;
    var sign, digits := SignAndDigits(s);
    ParseSigned(sign, digits);
    var k := DigitsAreDecimal(digits);
    Regroup(sign, Zeros(k), Decimal(Value(digits)));
    assert WritesNumber(s, sign, k, v);
  }

  lemma SignAndDigits(s: string) returns (sign: string, digits: string)
    requires ParseI32(s).Some?
    ensures s == sign + digits && digits != [] && AllDigits(digits) && (sign == "" || sign == "+" || sign == "-")
  {
    hide Value;
    var signed := s[0] == '-' || s[0] == '+';
    sign, digits := if signed then s[..1] else "", if signed then s[1..] else s;
    assert signed ==> s[..1] == [s[0]];
  }

  lemma NumeralParses(s: string, sign: string, k: nat, v: int)
    requires InI32(v) && WritesNumber(s, sign, k, v)
    ensures ParseI32(s) == Some(v)
  {
    hide Decimal, Value, Zeros, ParseI32;
    var zeros, decimal := Zeros(k), Decimal(Abs(v));
    DecimalValue(Abs(v));
    ValueAfterZeros(k, decimal);
    Regroup(sign, zeros, decimal);
    ParseSigned(sign, zeros + decimal);
  }

  function Signed(sign: string, n: nat): int {
    var v: int := n;
    if sign == "-" then -v else v
  }

  /** An optional sign and some digits. */
  lemma ParseSigned(sign: string, digits: string)
    requires digits != [] && AllDigits(digits) && (sign == "" || sign == "+" || sign == "-")
    ensures var v := Signed(sign, Value(digits));
      ParseI32(sign + digits) == if InI32(v) then Some(v) else None
  {
    hide Value;
    var s := sign + digits;
    assert IsDigit(digits[0]);
    if sign == "" {
      assert s == digits;
    } else {
      assert s[1..] == digits && s[0] == sign[0];
    }
  }

  // ---------------------------------------------------------------- lines

  /** The same letters, each in either case. */
  predicate SameLetter(a: char, b: char) {
    || a == b
    || ('a' <= a <= 'z' && b as int == a as int - 32)
    || ('A' <= a <= 'Z' && b as int == a as int + 32)
  }

  lemma IgnoringCaseIff(a: string, b: string)
    ensures SameIgnoringCase(a, b) <==> |a| == |b| && forall i :: 0 <= i < |a| ==> SameLetter(a[i], b[i])
  {
    forall i | 0 <= i < |a| && i < |b|
      ensures Lower(a[i]) == Lower(b[i]) <==> SameLetter(a[i], b[i])
    {
      LowerIff(a[i], b[i]);
    }
  }

  lemma LowerIff(a: char, b: char)
    ensures Lower(a) == Lower(b) <==> SameLetter(a, b)
  {
  }

  /** White space of one line. */
  predicate IsBlank(s: string) {
    forall i :: 0 <= i < |s| ==> IsSpace(s[i]) && s[i] != '\n'
  }

  /** No white space at either end, and no line feed. */
  predicate IsTrimmed(s: string) {
    && (s != [] ==> !IsSpace(s[0]) && !IsSpace(s[|s| - 1]))
    && '\n' !in s
  }

  /** A header line in pieces: a name, a colon and a value, each with any white space around it. */
  datatype Header = Header(before: string, name: string, between: string, after: string, value: string, end: string)

  predicate IsHeader(h: Header) {
    && IsBlank(h.before) && IsBlank(h.between) && IsBlank(h.after) && IsBlank(h.end)
    && IsTrimmed(h.name) && ':' !in h.name && IsTrimmed(h.value)
  }

  function LineOf(h: Header): string {
    h.before + h.name + h.between + ":" + (h.after + h.value + h.end)
  }

  lemma {:induction false} TrimStartOf(blank: string, s: string)
    requires IsBlank(blank) && (s != [] ==> !IsSpace(s[0]))
    ensures TrimStart(blank + s) == s
  {
    if blank == [] {
      assert blank + s == s;
    } else {
      assert (blank + s)[1..] == blank[1..] + s;
      TrimStartOf(blank[1..], s);
    }
  }

  lemma {:induction false} TrimEndOf(s: string, blank: string)
    requires IsBlank(blank) && (s != [] ==> !IsSpace(s[|s| - 1]))
    ensures TrimEnd(s + blank) == s
  {
    var t := s + blank;
    if blank == [] {
      assert t == s;
    } else {
      assert t[..|t| - 1] == s + blank[..|blank| - 1];
      TrimEndOf(s, blank[..|blank| - 1]);
    }
  }

  lemma TrimOf(before: string, s: string, after: string)
    requires IsBlank(before) && IsBlank(after) && IsTrimmed(s)
    ensures Trim(before + s + after) == s
  {
    hide TrimStart, TrimEnd, IsSpace;
    if s == [] {
      assert before + s + after == before + after + [];
      assert IsBlank(before + after);
      TrimStartOf(before + after, []);
      TrimEndOf([], []);
      assert [] + [] == s;
    } else {
      assert before + s + after == before + (s + after);
      TrimStartOf(before, s + after);
      TrimEndOf(s, after);
    }
  }

  lemma {:induction false} SplitAt(a: string, b: string)
    requires ':' !in a
    ensures SplitOnce(a + ":" + b) == Some((a, b))
  {
    var s := a + ":" + b;
    if a == [] {
      assert s[1..] == b;
    } else {
      assert s[1..] == a[1..] + ":" + b;
      SplitAt(a[1..], b);
      assert [a[0]] + a[1..] == a;
    }
  }

  lemma BlankHasNoColon(s: string)
    requires IsBlank(s)
    ensures ':' !in s && '\n' !in s
  {
  }

  /** The name and the value of a header line, whatever the spacing. */
  lemma HeaderReads(h: Header, name: string)
    requires IsHeader(h)
    ensures SplitOnce(LineOf(h)).Some?
    ensures Names(LineOf(h), name) <==> SameIgnoringCase(h.name, name)
    ensures ValueOf(LineOf(h)) == h.value
    ensures '\n' !in LineOf(h)
  {
    hide SplitOnce, Trim, SameIgnoringCase, IsBlank;
    BlankHasNoColon(h.before);
    BlankHasNoColon(h.between);
    BlankHasNoColon(h.after);
    BlankHasNoColon(h.end);
    SplitAt(h.before + h.name + h.between, h.after + h.value + h.end);
    TrimOf(h.before, h.name, h.between);
    TrimOf(h.after, h.value, h.end);
  }

  /** Lines, each ended by a line feed or a carriage return and a line feed. */
  function TextOf(lines: seq<string>, crlf: bool): string {
    if lines == [] then "" else lines[0] + (if crlf then "\r\n" else "\n") + TextOf(lines[1..], crlf)
  }

  lemma {:induction false} LineReads(line: string, rest: string, current: string)
    requires '\n' !in line
    ensures Lines(line + ("\n" + rest), current) == [Stripped(current + line)] + Lines(rest, [])
    decreases |line|
  {
    if line == [] {
      var s := line + ("\n" + rest);
      assert s == "\n" + rest && s[1..] == rest && current + line == current;
    } else {
      var s := line + ("\n" + rest);
      assert s[1..] == line[1..] + ("\n" + rest) && s[0] == line[0];
      LineReads(line[1..], rest, current + [line[0]]);
      assert current + [line[0]] + line[1..] == current + line;
    }
  }

  /** A text is read as its lines; a carriage return before the line feed goes, and so does one at a line's end. */
  lemma {:induction false} LinesRead(lines: seq<string>, crlf: bool)
    requires forall i :: 0 <= i < |lines| ==> '\n' !in lines[i]
    ensures |Lines(TextOf(lines, crlf), "")| == |lines|
    ensures forall i :: 0 <= i < |lines| ==>
      Lines(TextOf(lines, crlf), "")[i] == if crlf then lines[i] else Stripped(lines[i])
    decreases |lines|
  {
    hide Lines, TextOf, Stripped;
    if lines == [] {
      NoLines(crlf);
    } else {
      var rest := TextOf(lines[1..], crlf);
      LinesRead(lines[1..], crlf);
      var line := if crlf then lines[0] + "\r" else lines[0];
      TextStarts(lines, crlf);
      LineReads(line, rest, "");
      assert "" + line == line;
    }
  }

  lemma TextStarts(lines: seq<string>, crlf: bool)
    requires lines != []
    ensures var line := if crlf then lines[0] + "\r" else lines[0];
      && TextOf(lines, crlf) == line + ("\n" + TextOf(lines[1..], crlf))
      && (crlf ==> Stripped(line) == lines[0])
  {
    var line := if crlf then lines[0] + "\r" else lines[0];
    assert crlf ==> line[..|line| - 1] == lines[0];
  }

  lemma NoLines(crlf: bool)
    ensures Lines(TextOf([], crlf), "") == []
  {
  }

  function LinesOf(hs: seq<Header>): seq<string> {
    seq(|hs|, i requires 0 <= i < |hs| => LineOf(hs[i]))
  }

  predicate AllHeaders(hs: seq<Header>) {
    forall i :: 0 <= i < |hs| ==> IsHeader(hs[i])
  }

  /** The line may have lost a carriage return at its end; that was white space too. */
  lemma StrippedHeader(h: Header) returns (g: Header)
    requires IsHeader(h)
    ensures IsHeader(g) && g.name == h.name && g.value == h.value && Stripped(LineOf(h)) == LineOf(g)
  {
    g := h;
    var head, last := h.before + h.name + h.between + ":", LineOf(h)[|LineOf(h)| - 1];
    if h.end != [] {
      LastOfTwo(h.after + h.value, h.end);
      LastOfTwo(head, h.after + h.value + h.end);
      if last == '\r' {
        g := h.(end := h.end[..|h.end| - 1]);
      }
    } else if h.value != [] {
      assert h.after + h.value + h.end == h.after + h.value;
      LastOfTwo(h.after, h.value);
      LastOfTwo(head, h.after + h.value);
    } else if h.after != [] {
      assert h.after + h.value + h.end == h.after;
      LastOfTwo(head, h.after);
      if last == '\r' {
        g := h.(after := h.after[..|h.after| - 1]);
        assert g.after + g.value + g.end == g.after;
      }
    } else {
      assert LineOf(h) == head;
    }
  }

  lemma LastOfTwo(a: string, b: string)
    requires b != []
    ensures (a + b)[..|a + b| - 1] == a + b[..|b| - 1] && (a + b)[|a + b| - 1] == b[|b| - 1]
  {
  }

  /** Lines that read as these headers. */
  ghost predicate ReadAs(lines: seq<string>, hs: seq<Header>) {
    && |lines| == |hs|
    && forall i :: 0 <= i < |hs| ==> LineIs(lines[i], hs[i])
  }

  ghost predicate LineIs(line: string, h: Header) {
    && SplitOnce(line).Some?
    && ValueOf(line) == h.value
    && forall name: string :: Names(line, name) <==> SameIgnoringCase(h.name, name)
  }

  lemma HeaderIs(h: Header)
    requires IsHeader(h)
    ensures LineIs(LineOf(h), h) && LineIs(Stripped(LineOf(h)), h)
  {
    hide Names, ValueOf, SplitOnce, LineOf, Stripped, IsHeader;
    var g := StrippedHeader(h);
    forall name: string
      ensures Names(LineOf(h), name) <==> SameIgnoringCase(h.name, name)
      ensures Names(LineOf(g), name) <==> SameIgnoringCase(g.name, name)
    {
      HeaderReads(h, name);
      HeaderReads(g, name);
    }
    HeaderReads(h, "");
    HeaderReads(g, "");
  }

  /** A text of header lines; the last one may be open, without a line feed. */
  function TextOfHeaders(hs: seq<Header>, crlf: bool, open: bool): string {
    if open && hs != [] then TextOf(LinesOf(hs[..|hs| - 1]), crlf) + LineOf(hs[|hs| - 1])
    else TextOf(LinesOf(hs), crlf)
  }

  lemma {:induction false} OpenLineReads(line: string, current: string)
    requires '\n' !in line && current + line != []
    ensures Lines(line, current) == [current + line]
    decreases |line|
  {
    if line == [] {
      assert current + line == current;
    } else {
      assert current + [line[0]] + line[1..] == current + line;
      OpenLineReads(line[1..], current + [line[0]]);
    }
  }

  /** An open line is read after the closed ones. */
  lemma {:induction false} OpenLineIsLast(lines: seq<string>, crlf: bool, line: string)
    requires '\n' !in line && line != [] && forall i :: 0 <= i < |lines| ==> '\n' !in lines[i]
    ensures Lines(TextOf(lines, crlf) + line, "") == Lines(TextOf(lines, crlf), "") + [line]
    decreases |lines|
  {
    hide Lines, TextOf, Stripped;
    if lines == [] {
      NoLines(crlf);
      OpenLineReads(line, "");
      assert TextOf([], crlf) + line == line && "" + line == line && [] + [line] == [line] by { NoText(crlf); }
    } else {
      var first, rest := if crlf then lines[0] + "\r" else lines[0], TextOf(lines[1..], crlf);
      OpenLineIsLast(lines[1..], crlf, line);
      TextStarts(lines, crlf);
      LineReads(first, rest, "");
      LineReads(first, rest + line, "");
      assert TextOf(lines, crlf) + line == first + ("\n" + (rest + line));
      Regroup([Stripped("" + first)], Lines(rest, ""), [line]);
    }
  }

  lemma NoText(crlf: bool)
    ensures TextOf([], crlf) == ""
  {
  }

  lemma HeadersRead(hs: seq<Header>, crlf: bool, open: bool)
    requires AllHeaders(hs)
    ensures ReadAs(Lines(TextOfHeaders(hs, crlf, open), ""), hs)
  {
    hide Lines, TextOf, LineIs, IsHeader, LineOf;
    if open && hs != [] {
      var front, last := hs[..|hs| - 1], hs[|hs| - 1];
      ClosedHeadersRead(front, crlf);
      HeaderReads(last, "");
      HeaderIs(last);
      forall i | 0 <= i < |front|
        ensures '\n' !in LinesOf(front)[i]
      {
        HeaderReads(front[i], "");
      }
      assert LineOf(last) != [] by { HasColon(last); }
      OpenLineIsLast(LinesOf(front), crlf, LineOf(last));
    } else {
      ClosedHeadersRead(hs, crlf);
    }
  }

  lemma HasColon(h: Header)
    ensures ':' in LineOf(h)
  {
  }

  lemma ClosedHeadersRead(hs: seq<Header>, crlf: bool)
    requires AllHeaders(hs)
    ensures ReadAs(Lines(TextOf(LinesOf(hs), crlf), ""), hs)
  {
    hide Lines, TextOf, LineIs, IsHeader, LineOf;
    forall i | 0 <= i < |hs|
      ensures '\n' !in LinesOf(hs)[i] && LineIs(LineOf(hs[i]), hs[i]) && LineIs(Stripped(LineOf(hs[i])), hs[i])
    {
      assert IsHeader(hs[i]);
      HeaderReads(hs[i], "");
      HeaderIs(hs[i]);
    }
    LinesRead(LinesOf(hs), crlf);
  }

  /** The last of the headers with that name, in any case. */
  function LastOf(hs: seq<Header>, name: string): (r: Option<nat>)
    ensures r.Some? ==> r.value < |hs| && SameIgnoringCase(hs[r.value].name, name)
    ensures r.Some? ==> forall j :: r.value < j < |hs| ==> !SameIgnoringCase(hs[j].name, name)
    ensures r.None? ==> forall j :: 0 <= j < |hs| ==> !SameIgnoringCase(hs[j].name, name)
  {
    if hs == [] then None
    else if SameIgnoringCase(hs[|hs| - 1].name, name) then Some(|hs| - 1)
    else LastOf(hs[..|hs| - 1], name)
  }

  lemma {:induction false} LastNamedIs(lines: seq<string>, hs: seq<Header>, name: string)
    requires ReadAs(lines, hs)
    ensures LastNamed(lines, name).Some? <==> LastOf(hs, name).Some?
    ensures LastNamed(lines, name).Some? ==> ValueOf(LastNamed(lines, name).value) == hs[LastOf(hs, name).value].value
  {
    hide Names, ValueOf, SameIgnoringCase;
    if hs != [] {
      var n := |hs| - 1;
      assert LineIs(lines[n], hs[n]);
      assert forall i :: 0 <= i < n ==> lines[..n][i] == lines[i] && hs[..n][i] == hs[i];
      LastNamedIs(lines[..n], hs[..n], name);
    }
  }

  /**
    The status of a text of header lines, in any case and with any spacing: the number the last
    `grpc-status` line writes, with the value of the last `grpc-message` line. When that line writes no
    32-bit number there is none, whatever the others say.
   */
  lemma StatusOfHeaders(hs: seq<Header>, crlf: bool, open: bool, code: int)
    requires AllHeaders(hs)
    ensures var text, s := TextOfHeaders(hs, crlf, open), LastOf(hs, "grpc-status");
      (StatusIn(text).Some? && StatusIn(text).value.code == code) <==>
        s.Some? && InI32(code) && exists sign, k :: WritesNumber(hs[s.value].value, sign, k, code)
    ensures var text, m := TextOfHeaders(hs, crlf, open), LastOf(hs, "grpc-message");
      StatusIn(text).Some? ==> StatusIn(text).value.message == if m.None? then "" else hs[m.value].value
  {
    hide Lines, TextOfHeaders, LastNamed, LastOf, ReadAs, ParseI32, ValueOf, WritesNumber;
    HeadersRead(hs, crlf, open);
    var lines := Lines(TextOfHeaders(hs, crlf, open), "");
    LastNamedIs(lines, hs, "grpc-status");
    LastNamedIs(lines, hs, "grpc-message");
    if LastOf(hs, "grpc-status").Some? {
      ParseIff(hs[LastOf(hs, "grpc-status").value].value, code);
    }
  }

  /** One open line: a status of ten, which is not zero. */
  lemma AbortedIsTen()
    ensures StatusIn("grpc-status:10") == Some(GrpcStatus(10, ""))
  {
    hide Lines, StatusIn, LastOf, TextOfHeaders, AllHeaders, WritesNumber;
    var ten := Header("", "grpc-status", "", "", "10", "");
    OneOpenLine(ten);
    assert LineOf(ten) == "grpc-status:10";
    TenIsWritten();
    StatusOfHeaders([ten], false, true, 10);
  }

  lemma OneOpenLine(h: Header)
    requires IsHeader(h) && SameIgnoringCase(h.name, "grpc-status")
    ensures AllHeaders([h]) && TextOfHeaders([h], false, true) == LineOf(h)
    ensures LastOf([h], "grpc-status") == Some(0) && LastOf([h], "grpc-message") == None
  {
    assert [h][..0] == [] && LinesOf([]) == [] && TextOf([], false) + LineOf(h) == LineOf(h);
    assert |"grpc-status"| != |"grpc-message"|;
  }

  lemma TenIsWritten()
    ensures WritesNumber("10", "", 0, 10)
  {
    assert Decimal(1) == "1" && Decimal(10) == Decimal(1) + "0";
    assert "" + Zeros(0) + "10" == "10";
  }

  // ---------------------------------------------------------------- responses

  /** Bit 7 of the flags is their top bit. */
  lemma TrailerIff(f: Frame)
    ensures IsTrailer(f) <==> f.flags >= 128
  {
  }

  /** A body of whole frames is read exactly when every trailer is text and no message is compressed. */
  lemma BodyAcceptedIff(frames: seq<Frame>, utf8: Utf8)
    requires AllFit(frames)
    ensures BodyOf(EncodeFrames(frames), utf8).Some? <==>
      forall i :: 0 <= i < |frames| ==>
        if frames[i].flags >= 128 then utf8(frames[i].payload).Some? else frames[i].flags % 2 == 0
  {
    hide Frames, EncodeFrames, Payloads, LastStatus;
    FramesRoundTrip(frames);
  }

  /**
    From the bytes: a response of messages and a trailer of header lines is a success exactly when the last
    `grpc-status` line of the trailer writes zero and the headers did not already say otherwise.
   */
  lemma SuccessIff(messages: seq<seq<Byte>>, trailer: seq<Byte>, utf8: Utf8, hs: seq<Header>, crlf: bool, open: bool,
                   code: int, header: Option<GrpcStatus>)
    requires forall i :: 0 <= i < |messages| ==> |messages[i]| <= MAX_U32
    requires |trailer| <= MAX_U32 && AllHeaders(hs) && utf8(trailer) == Some(TextOfHeaders(hs, crlf, open))
    requires LastOf(hs, "grpc-status").Some? && InI32(code)
    requires exists sign, k :: WritesNumber(hs[LastOf(hs, "grpc-status").value].value, sign, k, code)
    ensures AllFit(Stream(messages, trailer))
    ensures var response := Response(header, EncodeFrames(Stream(messages, trailer)));
      && (Succeeded(response, utf8) <==> code == 0 && (header.Some? ==> header.value.code == 0))
      && (Succeeded(response, utf8) ==> BodyOf(response.body, utf8).value.messages == messages)
  {
    hide StatusIn, Frames, EncodeFrames, LastOf, WritesNumber, TextOfHeaders, AllHeaders;
    StatusOfHeaders(hs, crlf, open, code);
    StreamReads(messages, trailer, utf8);
  }

  /** A response of messages without a trailer is a success exactly when its headers say zero. */
  lemma HeadersDecide(frames: seq<Frame>, utf8: Utf8, header: Option<GrpcStatus>)
    requires AllFit(frames) && forall i :: 0 <= i < |frames| ==> frames[i].flags == 0
    ensures Succeeded(Response(header, EncodeFrames(frames)), utf8) <==> header.Some? && header.value.code == 0
  {
    hide BodyOf, EncodeFrames, LastStatus, Payloads, AllAcceptable;
    NoStatusInMessages(frames, utf8);
    MessagesAreAcceptable(frames, utf8);
    BodyRoundTrip(frames, utf8);
  }

  lemma MessagesAreAcceptable(frames: seq<Frame>, utf8: Utf8)
    requires forall i :: 0 <= i < |frames| ==> frames[i].flags == 0
    ensures AllAcceptable(frames, utf8)
  {
  }

  /** Whatever the body says, a nonzero status in the headers is a failure, and so is a body cut inside a frame. */
  lemma NeverASuccess(response: Response, utf8: Utf8)
    requires (response.status.Some? && response.status.value.code != 0) || Frames(response.body).None?
    ensures !Succeeded(response, utf8)
  {
    hide Frames, LastStatus, Payloads, StatusIn;
  }
}
