/**
  A mnemonic as one number: the word indices are its digits to base 2048, the bytes of the entropy its
  digits to base 256, with the checksum bits appended. Nothing here speaks of bits.
 */
module MnemonicNumbers {
  import opened Base
  import opened Bip39
  import opened Bits
  import opened Phrases

  /** Digits to base 256, most significant first. */
  function BytesNumber(bytes: seq<bv8>): nat {
    if bytes == [] then 0 else 256 * BytesNumber(bytes[..|bytes| - 1]) + bytes[|bytes| - 1] as nat
  }

  /** Digits to base 2048, most significant first. */
  function WordsNumber(indices: seq<nat>): nat {
    if indices == [] then 0 else 2048 * WordsNumber(indices[..|indices| - 1]) + indices[|indices| - 1]
  }

  function One(b: bool): nat {
    if b then 1 else 0
  }

  lemma {:induction false} FromBitsConcat(a: seq<bool>, b: seq<bool>)
    ensures FromBits(a + b) == FromBits(a) * Pow2(|b|) + FromBits(b)
  {
    if b == [] {
      assert a + b == a;
    } else {
      var front, last := b[..|b| - 1], b[|b| - 1];
      assert (a + b)[..|a + b| - 1] == a + front;
      FromBitsConcat(a, front);
      Doubled(FromBits(a), Pow2(|front|), FromBits(front), One(last));
    }
  }

  lemma Doubled(x: nat, p: nat, y: nat, z: nat)
    ensures 2 * (x * p + y) + z == x * (2 * p) + (2 * y + z)
  {
  }

  lemma ByteSum(b: bv8)
    ensures b as nat == 128 * One(ByteBit(b, 0)) + 64 * One(ByteBit(b, 1)) + 32 * One(ByteBit(b, 2)) + 16 * One(ByteBit(b, 3))
                      + 8 * One(ByteBit(b, 4)) + 4 * One(ByteBit(b, 5)) + 2 * One(ByteBit(b, 6)) + One(ByteBit(b, 7))
  {
  }

  lemma FromFour(s: seq<bool>)
    requires |s| == 4
    ensures FromBits(s) == 8 * One(s[0]) + 4 * One(s[1]) + 2 * One(s[2]) + One(s[3])
  {
    assert s[..3][..2] == s[..2] && s[..2][..1] == s[..1] && s[..1][..0] == [];
    assert FromBits(s[..1]) == One(s[0]);
    assert FromBits(s[..2]) == 2 * One(s[0]) + One(s[1]);
  }

  lemma FromEight(s: seq<bool>)
    requires |s| == 8
    ensures FromBits(s) == 128 * One(s[0]) + 64 * One(s[1]) + 32 * One(s[2]) + 16 * One(s[3])
                         + 8 * One(s[4]) + 4 * One(s[5]) + 2 * One(s[6]) + One(s[7])
  {
    hide FromBits;
    FromFour(s[..4]);
    FromFour(s[4..]);
    assert s == s[..4] + s[4..];
    FromBitsConcat(s[..4], s[4..]);
    assert Pow2(4) == 16;
  }

  lemma BitsOfByte(b: bv8)
    ensures |BytesBits([b])| == 8 && forall i :: 0 <= i < 8 ==> BytesBits([b])[i] == ByteBit(b, i)
  {
    hide ByteBit;
  }

  lemma ByteNumber(b: bv8)
    ensures FromBits(BytesBits([b])) == b as nat
  {
    hide ByteBit, FromBits, BytesBits, One;
    ByteSum(b);
    BitsOfByte(b);
    FromEight(BytesBits([b]));
  }

  lemma {:induction false} BytesNumberIs(bytes: seq<bv8>)
    ensures FromBits(BytesBits(bytes)) == BytesNumber(bytes)
  {
    hide BytesBits, FromBits;
    if bytes == [] {
      NoBits();
    } else {
      var front, last := bytes[..|bytes| - 1], bytes[|bytes| - 1];
      assert bytes == front + [last];
      BytesBitsConcat(front, [last]);
      FromBitsConcat(BytesBits(front), BytesBits([last]));
      BytesNumberIs(front);
      ByteNumber(last);
      EightBits();
    }
  }

  lemma NoBits()
    ensures FromBits(BytesBits([])) == 0
  {
  }

  lemma EightBits()
    ensures Pow2(8) == 256
  {
    assert Pow2(4) == 16;
  }

  lemma {:induction false} WordsNumberIs(bits: seq<bool>)
    requires |bits| % WORD_BITS == 0
    ensures WordsNumber(Pack(bits)) == FromBits(bits)
    decreases |bits|
  {
    hide FromBits;
    if bits == [] {
      NoWords();
    } else {
      var n := |bits| - WORD_BITS;
      OneWordLess(|bits|);
      WordsNumberIs(bits[..n]);
      assert bits == bits[..n] + bits[n..];
      FromBitsConcat(bits[..n], bits[n..]);
      WordRange();
      PackSnoc(bits[..n], bits[n..]);
    }
  }

  lemma NoWords()
    ensures FromBits([]) == 0
  {
  }

  lemma {:induction false} TopOf(bits: seq<bool>, c: nat)
    requires c <= |bits|
    ensures FromBits(bits[..c]) == FromBits(bits) / Pow2(|bits| - c)
  {
    var top, low := bits[..c], bits[c..];
    assert bits == top + low;
    FromBitsConcat(top, low);
    ToFromBits(low);
    Quotient(FromBits(bits), Pow2(|low|), FromBits(top), FromBits(low));
  }

  lemma Quotient(n: nat, d: nat, q: nat, r: nat)
    requires n == q * d + r && r < d
    ensures n / d == q
  {
    var k := n / d - q;
    Apart(n / d, q, d);
    if k >= 1 {
      Grows(k, d);
    } else if k <= -1 {
      Grows(-k, d);
    }
  }

  lemma Apart(a: int, b: int, d: int)
    ensures (a - b) * d == a * d - b * d && (b - a) * d == b * d - a * d
  {
  }

  lemma Grows(k: int, d: int)
    requires k >= 1 && d >= 1
    ensures k * d >= d
  {
  }

  /**
    The words of an entropy, for all five sizes: read to base 2048 they are the entropy read to base 256,
    followed by the top quarter-as-many bits as it has bytes of the first byte of its digest.
   */
  lemma EncodingIsTheNumber(entropy: seq<bv8>, sha: FirstByte)
    requires IsEntropyLen(|entropy|)
    ensures var c := |entropy| / 4;
      && 4 <= c <= 8
      && WordsNumber(Encode(entropy, sha)) == BytesNumber(entropy) * Pow2(c) + sha(entropy) as nat / Pow2(8 - c)
    ensures |Encode(entropy, sha)| == |entropy| / 4 * 3 && forall i :: 0 <= i < |Encode(entropy, sha)| ==> Encode(entropy, sha)[i] < 2048
  {
    EntropyLengths(|entropy|);
    hide BytesBits, FromBits, Pack, IsEntropyLen;
    var c, digest := |entropy| / 4, BytesBits([sha(entropy)]);
    WordsNumberIs(Message(entropy, sha));
    FromBitsConcat(BytesBits(entropy), digest[..c]);
    BytesNumberIs(entropy);
    BytesNumberIs([sha(entropy)]);
    ByteNumber(sha(entropy));
    TopOf(digest, c);
  }

  // ---------------------------------------------------------------- failures

  /** Twelve, fifteen, eighteen, twenty-one or twenty-four words, all in the list. */
  ghost predicate WellMade(list: seq<string>, words: seq<string>) {
    && |words| % 3 == 0 && 12 <= |words| <= 24
    && forall i :: 0 <= i < |words| ==> words[i] in list
  }

  /**
    What is wrong with a phrase, in the order it is looked for: the number of its words; the first word that is
    not in the list, counted from one; the checksum, which is wrong exactly when no entropy has these words.
   */
  lemma FailureIs(phrase: string, list: seq<string>, sha: FirstByte, position: nat)
    requires IsWordList(list)
    ensures var words, r := Split(phrase), Checked(phrase, list, sha);
      var counted := |words| % 3 == 0 && 12 <= |words| <= 24;
      && (!counted <==> r == Err(WordCount(|words|)))
      && (r == Err(UnknownWord(position)) <==>
            && counted && 1 <= position <= |words| && words[position - 1] !in list
            && forall i :: 0 <= i < position - 1 ==> words[i] in list)
      && (r == Err(Checksum) <==> WellMade(list, words) && forall e: seq<bv8> :: !EncodesTo(e, words, list, sha))
      && (r.Ok? ==> r.value == words)
  {
    hide Encode, EntropyOf, ChecksumHolds, Split, WordsOf, AllWords, Sorted, FirstUnknown, Search, EncodesTo;
    AcceptedIff(phrase, list, sha);
    var words := Split(phrase);
    var unknown := FirstUnknown(list, words);
    if unknown.Some? {
      assert forall i :: 0 <= i < unknown.value ==> words[i] == words[..unknown.value][i];
    }
  }

  /** A passphrase with a character above 0x7f is refused, once the words are right; otherwise the seed is derived from both. */
  lemma SeedIs(phrase: string, passphrase: string, list: seq<string>, sha: FirstByte, kdf: Kdf)
    requires IsWordList(list)
    ensures var words, r := Checked(phrase, list, sha), Seed(phrase, passphrase, list, sha, kdf);
      && (words.Err? ==> r == Err(words.error))
      && (words.Ok? && (exists i :: 0 <= i < |passphrase| && passphrase[i] as int > 127) ==> r == Err(NonAsciiPassphrase))
      && (words.Ok? && (forall i :: 0 <= i < |passphrase| ==> passphrase[i] as int <= 127) ==>
            r == Ok(kdf(Join(Split(phrase)), "mnemonic" + passphrase)))
  {
    hide Checked, Join, Split, IsWordList;
    FailureIs(phrase, list, sha, 0);
  }
}
