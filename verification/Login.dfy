/**
  The login message: the exact bytes a login signature covers, and why no two requests share them.

  Fields are the UTF-8 bytes of the source's strings; their written lengths are byte lengths.
 */
module Login {
  import opened Base
  import opened Digits
  import opened Proto

  datatype LoginRequest = LoginRequest(audience: seq<Byte>, challenge: seq<Byte>)

  function Ascii(s: string): (r: seq<Byte>)
    requires IsAscii(s)
    ensures |r| == |s|
  {
    seq(|s|, i requires 0 <= i < |s| => s[i] as int)
  }

  const HEADER := "verusid-login\n"

  function Numeral(n: nat): seq<Byte> {
    Ascii(Decimal(n))
  }

  /** A field with its own byte length in front. */
  function Counted(field: seq<Byte>): seq<Byte> {
    Numeral(|field|) + Ascii(":") + field
  }

  function MessageText(request: LoginRequest): seq<Byte> {
    Ascii(HEADER) + Counted(request.audience) + Ascii("\n") + Counted(request.challenge)
  }

  // ---------------------------------------------------------------- reading it back

  predicate IsDigitByte(b: Byte) {
    48 <= b <= 57
  }

  function LeadingDigits(s: seq<Byte>): (k: nat)
    ensures k <= |s| && forall i :: 0 <= i < k ==> IsDigitByte(s[i])
    ensures k < |s| ==> !IsDigitByte(s[k])
  {
    if s == [] || !IsDigitByte(s[0]) then 0
    else
      var k := 1 + LeadingDigits(s[1..]);
      assert forall i :: 1 <= i < k ==> s[i] == s[1..][i - 1];
      k
  }

  function Chars(s: seq<Byte>): (r: string)
    ensures |r| == |s|
    ensures (forall i :: 0 <= i < |s| ==> IsDigitByte(s[i])) ==> AllDigits(r)
  {
    seq(|s|, i requires 0 <= i < |s| => s[i] as char)
  }

  /** A counted field at the front: digits, a colon, and that many bytes. */
  function ReadCounted(s: seq<Byte>): (r: Option<Taken<seq<Byte>>>)
    ensures r.Some? ==> r.value.length <= |s|
  {
    var k := LeadingDigits(s);
    var size := Value(Chars(s[..k]));
    if k == 0 || k == |s| || s[k] != 58 || size > |s| - k - 1 then None
    else Some(Taken(s[k + 1..k + 1 + size], k + 1 + size))
  }

  function Parsed(s: seq<Byte>): Option<LoginRequest> {
    var header := Ascii(HEADER);
    if !(header <= s) then None
    else
      match ReadCounted(s[|header|..])
      case None => None
      case Some(audience) =>
        var rest := s[|header| + audience.length..];
        if rest == [] || rest[0] != 10 then None
        else
          match ReadCounted(rest[1..])
          case None => None
          case Some(challenge) =>
            if 1 + challenge.length != |rest| then None else Some(LoginRequest(audience.value, challenge.value))
  }

  lemma {:induction false} DigitsThenColon(digits: seq<Byte>, rest: seq<Byte>)
    requires forall i :: 0 <= i < |digits| ==> IsDigitByte(digits[i])
    requires rest != [] && !IsDigitByte(rest[0])
    ensures LeadingDigits(digits + rest) == |digits|
  {
    if digits == [] {
      assert digits + rest == rest;
    } else {
      assert (digits + rest)[1..] == digits[1..] + rest;
      DigitsThenColon(digits[1..], rest);
    }
  }

  lemma NumeralReads(n: nat)
    ensures Chars(Numeral(n)) == Decimal(n) && Value(Chars(Numeral(n))) == n
    ensures Numeral(n) != [] && forall i :: 0 <= i < |Numeral(n)| ==> IsDigitByte(Numeral(n)[i])
  {
    DecimalValue(n);
    hide Decimal;
    assert forall i :: 0 <= i < |Decimal(n)| ==> IsDigit(Decimal(n)[i]);
  }

  /** Whatever the field holds, digits, colons and newlines included, its length says where it ends. */
  lemma CountedReads(field: seq<Byte>, rest: seq<Byte>)
    ensures ReadCounted(Counted(field) + rest) == Some(Taken(field, |Counted(field)|))
  {
    hide Value, Chars, LeadingDigits, Numeral;
    NumeralReads(|field|);
    var digits, tail := Numeral(|field|), Ascii(":") + field + rest;
    var s := Counted(field) + rest;
    assert s == digits + tail && tail[0] == 58;
    DigitsThenColon(digits, tail);
    assert s[..|digits|] == digits;
    assert s[|digits| + 1..|digits| + 1 + |field|] == field;
  }

  /** The message is uniquely parsed back to the request it was made from. */
  lemma MessageReads(request: LoginRequest)
    ensures Parsed(MessageText(request)) == Some(request)
  {
    hide Counted, ReadCounted;
    var header, middle := Ascii(HEADER), Ascii("\n") + Counted(request.challenge);
    var s := MessageText(request);
    assert s == header + (Counted(request.audience) + middle);
    assert s[|header|..] == Counted(request.audience) + middle;
    CountedReads(request.audience, middle);
    assert s[|header| + |Counted(request.audience)|..] == middle;
    assert middle[1..] == Counted(request.challenge) + [];
    CountedReads(request.challenge, []);
  }

  /** So a signature over one request covers no other. */
  lemma MessageIsInjective(one: LoginRequest, other: LoginRequest)
    ensures MessageText(one) == MessageText(other) <==> one == other
  {
    hide MessageText, Parsed;
    MessageReads(one);
    MessageReads(other);
  }

  /** Without the lengths this fails: the plain fields of these two different requests run together the same way. */
  lemma PlainConcatenationIsNot()
    ensures exists one: LoginRequest, other: LoginRequest ::
      one != other && one.audience + one.challenge == other.audience + other.challenge
  {
    var one, other := LoginRequest([49], [50, 51]), LoginRequest([49, 50], [51]);
    assert one.audience + one.challenge == other.audience + other.challenge;
    assert one != other by {
      assert |one.audience| != |other.audience|;
    }
  }

  // ---------------------------------------------------------------- freshness

  datatype LoginPolicy = LoginPolicy(maxAgeBlocks: nat, maxFutureBlocks: nat)

  function SaturatingSub(a: nat, b: nat): nat {
    if a < b then 0 else a - b
  }

  /** The two height checks of `verify_login`. */
  method CheckFreshness(signedAt: nat, tip: nat, policy: LoginPolicy) returns (ok: bool)
    requires signedAt <= MAX_U32 && tip <= MAX_U32 && policy.maxAgeBlocks <= MAX_U32 && policy.maxFutureBlocks <= MAX_U32
    ensures ok <==> tip - policy.maxAgeBlocks <= signedAt <= tip + policy.maxFutureBlocks
  {
    if signedAt > SaturatingAdd(tip, policy.maxFutureBlocks) {
      return false;
    }
    if SaturatingSub(tip, signedAt) > policy.maxAgeBlocks {
      return false;
    }
    return true;
  }
}
