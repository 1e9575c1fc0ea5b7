/** How many bytes a text takes in UTF-8, the encoding of RFC 3629, section 3. */
module TextBytes {
  import opened Base

  /** The bytes a character takes. */
  function Utf8Length(c: char): nat {
    var code := c as int;
    if code < 0x80 then 1 else if code < 0x800 then 2 else if code < 0x1_0000 then 3 else 4
  }

  function ByteLength(text: string): nat {
    if text == [] then 0 else ByteLength(text[..|text| - 1]) + Utf8Length(text[|text| - 1])
  }

  /** A continuation byte: the low six bits. */
  function Tail(code: nat): nat {
    0x80 + code % 64
  }

  function EncodeChar(c: char): seq<nat> {
    var code := c as int;
    if code < 0x80 then [code]
    else if code < 0x800 then [0xc0 + code / 64, Tail(code)]
    else if code < 0x1_0000 then [0xe0 + code / 64 / 64, Tail(code / 64), Tail(code)]
    else [0xf0 + code / 64 / 64 / 64, Tail(code / 64 / 64), Tail(code / 64), Tail(code)]
  }

  function Encode(text: string): seq<nat> {
    if text == [] then [] else Encode(text[..|text| - 1]) + EncodeChar(text[|text| - 1])
  }

  predicate IsTail(b: nat) {
    0x80 <= b < 0xc0
  }

  /** The code point at the end of some bytes, and how many bytes it has; longer forms than needed are none. */
  function LastPoint(s: seq<nat>): Option<(nat, nat)> {
    var n := |s|;
    if n >= 1 && s[n - 1] < 0x80 then Some((s[n - 1], 1))
    else if n >= 2 && 0xc2 <= s[n - 2] < 0xe0 && IsTail(s[n - 1]) then Some(((s[n - 2] - 0xc0) * 64 + s[n - 1] - 0x80, 2))
    else if n >= 3 && 0xe0 <= s[n - 3] < 0xf0 && IsTail(s[n - 2]) && IsTail(s[n - 1]) then
      Some((((s[n - 3] - 0xe0) * 64 + s[n - 2] - 0x80) * 64 + s[n - 1] - 0x80, 3))
    else if n >= 4 && 0xf0 <= s[n - 4] < 0xf8 && IsTail(s[n - 3]) && IsTail(s[n - 2]) && IsTail(s[n - 1]) then
      Some(((((s[n - 4] - 0xf0) * 64 + s[n - 3] - 0x80) * 64 + s[n - 2] - 0x80) * 64 + s[n - 1] - 0x80, 4))
    else None
  }

  lemma CharRoundTrip(before: seq<nat>, c: char)
    ensures LastPoint(before + EncodeChar(c)) == Some((c as int, Utf8Length(c)))
    ensures |EncodeChar(c)| == Utf8Length(c)
    ensures forall i :: 0 <= i < |EncodeChar(c)| ==> EncodeChar(c)[i] < 256
  {
  }

  /** The length is that of an encoding in bytes from which every character is read back. */
  lemma {:induction false} LengthIsEncoded(text: string)
    ensures |Encode(text)| == ByteLength(text)
    ensures text != [] ==>
      var last := text[|text| - 1];
      LastPoint(Encode(text)) == Some((last as int, |Encode(text)| - |Encode(text[..|text| - 1])|))
    ensures |text| <= ByteLength(text) <= 4 * |text|
  {
    hide LastPoint, EncodeChar;
    if text != [] {
      LengthIsEncoded(text[..|text| - 1]);
      CharRoundTrip(Encode(text[..|text| - 1]), text[|text| - 1]);
    }
  }
}
