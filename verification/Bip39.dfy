/**
  BIP-39 mnemonics: the two packing loops, and the bijection between them.

  SHA-256 enters only through the first byte of its digest, so it is a parameter; so is PBKDF2.
  The wordlist is a parameter too, with the facts the source pins about it.
 */
module Bip39 {
  import opened Base
  import opened Bits
  import opened Phrases

  datatype MnemonicError = WordCount(count: nat) | UnknownWord(position: nat) | Checksum | NonAsciiPassphrase

  /** First byte of SHA-256. */
  type FirstByte = seq<bv8> -> bv8

  predicate IsWordCount(n: nat) {
    n == 12 || n == 15 || n == 18 || n == 21 || n == 24
  }

  function EntropyLen(words: nat): nat {
    words * 4 / 3
  }

  function ChecksumBits(words: nat): nat {
    words / 3
  }

  predicate IsEntropyLen(n: nat) {
    n == 16 || n == 20 || n == 24 || n == 28 || n == 32
  }

  /** 2048 words in strictly increasing order, none of them empty or containing a space. */
  ghost predicate IsWordList(list: seq<string>) {
    |list| == 2048 && AllWords(list) && Sorted(list)
  }

  // ---------------------------------------------------------------- the order of words

  /** The order of strings, which is that of their UTF-8 bytes and of their code points alike. */
  predicate Less(a: string, b: string) {
    if a == [] || b == [] then a == [] && b != []
    else a[0] < b[0] || (a[0] == b[0] && Less(a[1..], b[1..]))
  }

  predicate Sorted(list: seq<string>) {
    forall i, j :: 0 <= i < j < |list| ==> Less(list[i], list[j])
  }

  lemma {:induction false} LessIsTransitive(a: string, b: string, c: string)
    requires Less(a, b) && Less(b, c)
    ensures Less(a, c)
  {
    if a != [] && a[0] == b[0] == c[0] {
      LessIsTransitive(a[1..], b[1..], c[1..]);
    }
  }

  /** Exactly one of smaller, equal and greater. */
  lemma {:induction false} LessIsTotal(a: string, b: string)
    ensures Less(a, b) <==> a != b && !Less(b, a)
  {
    if a != [] && b != [] && a[0] == b[0] {
      LessIsTotal(a[1..], b[1..]);
      assert a == [a[0]] + a[1..] && b == [b[0]] + b[1..];
    }
  }

  /** The first `k` characters are the same, and there `a` is over or has the smaller character. */
  predicate SmallerAt(a: string, b: string, k: nat) {
    && k <= |a| && k < |b| && a[..k] == b[..k]
    && (k == |a| || a[k] < b[k])
  }

  lemma {:induction false} LessIff(a: string, b: string)
    ensures Less(a, b) <==> exists k: nat :: SmallerAt(a, b, k)
  {
    if a == [] || b == [] {
      if b != [] {
        assert SmallerAt(a, b, 0);
      }
    } else {
      LessIff(a[1..], b[1..]);
      if a[0] < b[0] {
        assert SmallerAt(a, b, 0);
      }
      if a[0] == b[0] && Less(a[1..], b[1..]) {
        var k: nat :| SmallerAt(a[1..], b[1..], k);
        assert a[..k + 1] == [a[0]] + a[1..][..k] && b[..k + 1] == [b[0]] + b[1..][..k];
        assert SmallerAt(a, b, k + 1);
      }
      if k: nat :| SmallerAt(a, b, k) {
        if k > 0 {
          assert a[0] == a[..k][0] == b[..k][0] == b[0];
          assert a[1..][..k - 1] == a[..k][1..] && b[1..][..k - 1] == b[..k][1..];
          assert SmallerAt(a[1..], b[1..], k - 1);
        }
      }
    }
  }

  lemma SortedIsDistinct(list: seq<string>)
    requires Sorted(list)
    ensures Distinct(list)
  {
    hide Less;
    forall i, j | 0 <= i < j < |list|
      ensures list[i] != list[j]
    {
      LessIsTotal(list[i], list[j]);
    }
  }

  // ---------------------------------------------------------------- entropy and word indices

  lemma MessageLength(n: nat)
    requires IsEntropyLen(n)
    ensures n / 4 <= 8 && 8 * n + n / 4 == WORD_BITS * (n / 4 * 3) && (8 * n + n / 4) % WORD_BITS == 0
  {
  }

  /** Entropy followed by the top `|entropy| / 4` bits of its digest. */
  function Message(entropy: seq<bv8>, sha: FirstByte): (r: seq<bool>)
    requires IsEntropyLen(|entropy|)
    ensures |r| == WORD_BITS * (|entropy| / 4 * 3) && |r| % WORD_BITS == 0
  {
    MessageLength(|entropy|);
    BytesBits(entropy) + BytesBits([sha(entropy)])[..|entropy| / 4]
  }

  /** The word indices BIP-39 ("Generating the mnemonic") assigns to an entropy. */
  function Encode(entropy: seq<bv8>, sha: FirstByte): (r: seq<nat>)
    requires IsEntropyLen(|entropy|)
    ensures |r| == |entropy| / 4 * 3 && InRange(r)
  {
    UnpackPack(Message(entropy, sha));
    Pack(Message(entropy, sha))
  }

  function EntropyOf(indices: seq<nat>): (r: seq<bv8>)
    requires IsWordCount(|indices|)
    ensures |r| == EntropyLen(|indices|) && IsEntropyLen(|r|)
  {
    WordLengths(|indices|);
    ToBytes(Unpack(indices)[..8 * EntropyLen(|indices|)])
  }

  predicate ChecksumHolds(indices: seq<nat>, sha: FirstByte)
    requires IsWordCount(|indices|)
  {
    Unpack(indices)[8 * EntropyLen(|indices|)..] == BytesBits([sha(EntropyOf(indices))])[..ChecksumBits(|indices|)]
  }

  /** How the five sizes fit: words of eleven bits are whole bytes of entropy plus a checksum. */
  lemma EntropyLengths(n: nat)
    requires IsEntropyLen(n)
    ensures IsWordCount(n / 4 * 3) && EntropyLen(n / 4 * 3) == n && ChecksumBits(n / 4 * 3) == n / 4
    ensures (8 * n + n / 4) % WORD_BITS == 0
  {
  }

  lemma WordLengths(n: nat)
    requires IsWordCount(n)
    ensures WORD_BITS * n == 8 * EntropyLen(n) + ChecksumBits(n)
    ensures IsEntropyLen(EntropyLen(n)) && EntropyLen(n) < 33 && 4 <= ChecksumBits(n) <= 8
    ensures ChecksumBits(n) == EntropyLen(n) / 4 && n == EntropyLen(n) / 4 * 3
  {
  }

  lemma Sizes(n: nat)
    requires IsWordCount(n)
    ensures WORD_BITS * n == 8 * EntropyLen(n) + ChecksumBits(n) <= 264
    ensures EntropyLen(n) < 33 && 4 <= ChecksumBits(n) <= 8
  {
  }

  lemma MessageParts(entropy: seq<bv8>, sha: FirstByte)
    requires IsEntropyLen(|entropy|)
    ensures var bits, n := Message(entropy, sha), 8 * |entropy|;
      && |bits| == n + |entropy| / 4
      && bits[..n] == BytesBits(entropy)
      && bits[n..] == BytesBits([sha(entropy)])[..|entropy| / 4]
  {
    hide BytesBits;
  }

  lemma CarriesEntropy(indices: seq<nat>, entropy: seq<bv8>)
    requires IsWordCount(|indices|) && EntropyLen(|indices|) == |entropy|
    requires Unpack(indices)[..8 * |entropy|] == BytesBits(entropy)
    ensures EntropyOf(indices) == entropy
  {
    hide ByteBit, ToBytes, BytesBits, Unpack, IsWordCount, EntropyLen;
    ToBytesBits(BytesBits(entropy));
    BytesFromBits(ToBytes(BytesBits(entropy)), entropy);
  }

  /** Every entropy has an accepted list of words, and that list gives the entropy back. */
  lemma EncodeThenDecode(entropy: seq<bv8>, sha: FirstByte)
    requires IsEntropyLen(|entropy|)
    ensures var indices := Encode(entropy, sha);
      && IsWordCount(|indices|) && InRange(indices)
      && EntropyOf(indices) == entropy && ChecksumHolds(indices, sha)
  {
    EntropyLengths(|entropy|);
    hide Pack, Unpack, Message, EntropyOf, BytesBits, IsWordCount, IsEntropyLen, EntropyLen, ChecksumBits;
    MessageParts(entropy, sha);
    UnpackPack(Message(entropy, sha));
    CarriesEntropy(Encode(entropy, sha), entropy);
  }

  /** And it has no other: an accepted list of words is the encoding of the entropy it carries. */
  lemma DecodeThenEncode(indices: seq<nat>, sha: FirstByte)
    requires IsWordCount(|indices|) && InRange(indices) && ChecksumHolds(indices, sha)
    ensures Encode(EntropyOf(indices), sha) == indices
  {
    WordLengths(|indices|);
    hide Pack, Unpack, ByteBit, ToBytes, IsWordCount, IsEntropyLen, EntropyLen, ChecksumBits;
    var bits, n := Unpack(indices), 8 * EntropyLen(|indices|);
    ToBytesBits(bits[..n]);
    assert Message(EntropyOf(indices), sha) == bits[..n] + bits[n..] == bits;
    PackUnpack(indices);
  }

  // ---------------------------------------------------------------- words

  function WordsOf(list: seq<string>, indices: seq<nat>): seq<string>
    requires |list| == 2048 && InRange(indices)
  {
    seq(|indices|, i requires 0 <= i < |indices| => list[indices[i]])
  }

  /** An index of the word when it is in the list, nothing when not. */
  function Search(list: seq<string>, word: string): (r: Option<nat>)
    ensures r.Some? ==> r.value < |list| && list[r.value] == word
    ensures r.None? <==> word !in list
  {
    if list == [] then None
    else if list[|list| - 1] == word then Some(|list| - 1)
    else Search(list[..|list| - 1], word)
  }

  /** The search of a sorted list by halving: the range `low..high` is all that can still hold the word. */
  method BinarySearch(list: seq<string>, word: string) returns (r: Option<nat>)
    requires Sorted(list)
    ensures r == Search(list, word)
  {
    hide Less, Search;
    SortedIsDistinct(list);
    var low, high := 0, |list|;
    while low < high
      invariant low <= high <= |list|
      invariant word in list ==> word in list[low..high]
    {
      var mid := low + (high - low) / 2;
      if list[mid] == word {
        return Some(mid);
      }
      HalfIsEnough(list, word, low, mid, high);
      if Less(list[mid], word) {
        low := mid + 1;
      } else {
        high := mid;
      }
    }
    return None;
  }

  /** Of a sorted range, only the half on the side of the word can hold it. */
  lemma HalfIsEnough(list: seq<string>, word: string, low: nat, mid: nat, high: nat)
    requires Sorted(list) && low <= mid < high <= |list| && list[mid] != word
    ensures word in list[low..high] ==> word in if Less(list[mid], word) then list[mid + 1..high] else list[low..mid]
  {
    hide Less;
    LessIsTotal(list[mid], word);
    if word in list[low..high] {
      var k :| low <= k < high && list[k] == word;
      if k < mid {
        assert list[low..mid][k - low] == word;
      } else {
        assert list[mid + 1..high][k - (mid + 1)] == word;
      }
    }
  }

  predicate Listed(list: seq<string>, words: seq<string>) {
    forall i :: 0 <= i < |words| ==> words[i] in list
  }

  function IndicesOf(list: seq<string>, words: seq<string>): (r: seq<nat>)
    requires Listed(list, words)
    ensures |r| == |words|
    ensures forall i :: 0 <= i < |r| ==> r[i] < |list| && list[r[i]] == words[i]
  {
    seq(|words|, i requires 0 <= i < |words| => Search(list, words[i]).value)
  }

  /** The position of the first word that is not in the list. */
  function FirstUnknown(list: seq<string>, words: seq<string>): (r: Option<nat>)
    ensures r.Some? ==> r.value < |words| && words[r.value] !in list && Listed(list, words[..r.value])
    ensures r.None? ==> Listed(list, words)
  {
    if words == [] then None
    else
      var n := |words| - 1;
      var earlier := FirstUnknown(list, words[..n]);
      if earlier.Some? then
        assert words[..n][..earlier.value] == words[..earlier.value];
        earlier
      else if words[n] in list then None
      else Some(n)
  }

  lemma FirstUnknownIs(list: seq<string>, words: seq<string>, k: nat)
    requires k < |words| && words[k] !in list && Listed(list, words[..k])
    ensures FirstUnknown(list, words) == Some(k)
  {
    hide FirstUnknown;
    assert forall j :: 0 <= j < k ==> words[j] == words[..k][j];
  }

  /** What checking a phrase answers, for every phrase: the words, or the first of the three failures. */
  function Checked(phrase: string, list: seq<string>, sha: FirstByte): Result<seq<string>, MnemonicError>
    requires |list| == 2048
  {
    var words := Split(phrase);
    var unknown := FirstUnknown(list, words);
    if !IsWordCount(|words|) then Err(WordCount(|words|))
    else if unknown.Some? then Err(UnknownWord(unknown.value + 1))
    else if ChecksumHolds(IndicesOf(list, words), sha) then Ok(words)
    else Err(Checksum)
  }

  // ---------------------------------------------------------------- phrases and entropies, one to one

  lemma IndicesOfWords(list: seq<string>, indices: seq<nat>)
    requires IsWordList(list) && InRange(indices)
    ensures Listed(list, WordsOf(list, indices)) && AllWords(WordsOf(list, indices))
    ensures IndicesOf(list, WordsOf(list, indices)) == indices
  {
    hide Search, Less;
    SortedIsDistinct(list);
    var words := WordsOf(list, indices);
    forall i | 0 <= i < |indices|
      ensures words[i] in list && IsWord(words[i]) && IndicesOf(list, words)[i] == indices[i]
    {
      assert words[i] == list[indices[i]];
    }
  }

  /** Every encoded entropy is an accepted phrase, and the phrase gives exactly that entropy back. */
  lemma EncodedIsAccepted(entropy: seq<bv8>, list: seq<string>, sha: FirstByte)
    requires IsEntropyLen(|entropy|) && IsWordList(list)
    ensures var indices := Encode(entropy, sha);
      && Checked(Join(WordsOf(list, indices)), list, sha) == Ok(WordsOf(list, indices))
      && EntropyOf(IndicesOf(list, WordsOf(list, indices))) == entropy
  {
    EncodeThenDecode(entropy, sha);
    hide IsWordCount, IsEntropyLen, Encode, EntropyOf, ChecksumHolds, AllWords, Split, Join, WordsOf, Listed;
    var indices := Encode(entropy, sha);
    IndicesOfWords(list, indices);
    SplitJoin(WordsOf(list, indices));
    AllListed(list, WordsOf(list, indices));
  }

  lemma AllListed(list: seq<string>, words: seq<string>)
    requires Listed(list, words)
    ensures FirstUnknown(list, words) == None
  {
    hide FirstUnknown;
  }

  /** Every accepted phrase is, up to its spacing, the phrase of the entropy it carries. */
  lemma AcceptedIsEncoded(phrase: string, list: seq<string>, sha: FirstByte)
    requires IsWordList(list)
    requires Checked(phrase, list, sha).Ok?
    ensures var words := Split(phrase);
      && Checked(phrase, list, sha).value == words
      && IsWordCount(|words|) && Listed(list, words)
      && var entropy := EntropyOf(IndicesOf(list, words));
      && words == WordsOf(list, Encode(entropy, sha))
  {
    hide IsWordCount, IsEntropyLen, Encode, EntropyOf, ChecksumHolds, Split, FirstUnknown, Search;
    var words := Split(phrase);
    var indices := IndicesOf(list, words);
    DecodeThenEncode(indices, sha);
    assert words == WordsOf(list, indices);
  }

  /** Different entropies, of whatever sizes, have different phrases. */
  lemma PhrasesAreDistinct(one: seq<bv8>, other: seq<bv8>, list: seq<string>, sha: FirstByte)
    requires IsEntropyLen(|one|) && IsEntropyLen(|other|) && IsWordList(list)
    ensures Join(WordsOf(list, Encode(one, sha))) == Join(WordsOf(list, Encode(other, sha))) <==> one == other
  {
    hide IsWordCount, IsEntropyLen, Encode, EntropyOf, ChecksumHolds, Split, Join, WordsOf, Listed, Checked;
    EncodedIsAccepted(one, list, sha);
    EncodedIsAccepted(other, list, sha);
  }

  /** A phrase's words are accepted exactly when they are the words of some entropy, which is then unique. */
  lemma AcceptedIff(phrase: string, list: seq<string>, sha: FirstByte)
    requires IsWordList(list)
    ensures Checked(phrase, list, sha).Ok? <==>
      exists entropy: seq<bv8> :: EncodesTo(entropy, Split(phrase), list, sha)
    ensures forall a: seq<bv8>, b: seq<bv8> ::
      EncodesTo(a, Split(phrase), list, sha) && EncodesTo(b, Split(phrase), list, sha) ==> a == b
  {
    hide IsWordCount, IsEntropyLen, Encode, EntropyOf, ChecksumHolds, Split, Join, WordsOf, Listed, Checked;
    var words := Split(phrase);
    if Checked(phrase, list, sha).Ok? {
      AcceptedIsEncoded(phrase, list, sha);
      assert EncodesTo(EntropyOf(IndicesOf(list, words)), words, list, sha);
    }
    forall a: seq<bv8> | EncodesTo(a, words, list, sha)
      ensures Checked(phrase, list, sha).Ok?
    {
      EncodedIsAccepted(a, list, sha);
      SpacingIsIgnored(phrase, list, sha);
    }
    forall a: seq<bv8>, b: seq<bv8> | EncodesTo(a, words, list, sha) && EncodesTo(b, words, list, sha)
      ensures a == b
    {
      PhrasesAreDistinct(a, b, list, sha);
    }
  }

  predicate EncodesTo(entropy: seq<bv8>, words: seq<string>, list: seq<string>, sha: FirstByte)
    requires |list| == 2048
  {
    && IsEntropyLen(|entropy|)
    && words == WordsOf(list, Encode(entropy, sha))
  }

  /** Checking a phrase and checking its words rejoined by single spaces answer the same. */
  lemma SpacingIsIgnored(phrase: string, list: seq<string>, sha: FirstByte)
    requires |list| == 2048
    ensures Checked(Join(Split(phrase)), list, sha) == Checked(phrase, list, sha)
  {
    hide IsWordCount, ChecksumHolds, FirstUnknown, SplitFrom, Join;
    SplitGivesWords(phrase, []);
    SplitJoin(Split(phrase));
  }

  // ---------------------------------------------------------------- seeds

  type Kdf = (string, string) -> seq<bv8>

  function Seed(phrase: string, passphrase: string, list: seq<string>, sha: FirstByte, kdf: Kdf): Result<seq<bv8>, MnemonicError>
    requires |list| == 2048
  {
    var words := Checked(phrase, list, sha);
    if words.Err? then Err(words.error)
    else if !IsAscii(passphrase) then Err(NonAsciiPassphrase)
    else Ok(kdf(Join(words.value), "mnemonic" + passphrase))
  }

  /** Whitespace does not change the seed: two phrases of the same words have the same seed or the same error. */
  lemma SpacingKeepsTheSeed(phrase: string, other: string, passphrase: string, list: seq<string>, sha: FirstByte, kdf: Kdf)
    requires |list| == 2048 && Split(phrase) == Split(other)
    ensures Seed(phrase, passphrase, list, sha, kdf) == Seed(other, passphrase, list, sha, kdf)
    ensures Seed(phrase, passphrase, list, sha, kdf) == Seed(Join(Split(phrase)), passphrase, list, sha, kdf)
  {
    hide IsWordCount, ChecksumHolds, FirstUnknown, SplitFrom, Join;
    SpacingIsIgnored(phrase, list, sha);
  }

  /** A freshly made phrase has a seed, and it is derived from the very text that was handed out. */
  lemma FreshPhraseHasItsSeed(entropy: seq<bv8>, passphrase: string, list: seq<string>, sha: FirstByte, kdf: Kdf)
    requires IsEntropyLen(|entropy|) && IsWordList(list) && IsAscii(passphrase)
    ensures var phrase := Join(WordsOf(list, Encode(entropy, sha)));
      Seed(phrase, passphrase, list, sha, kdf) == Ok(kdf(phrase, "mnemonic" + passphrase))
  {
    hide IsWordList, IsWordCount, IsEntropyLen, Encode, Checked, Join, WordsOf;
    EncodedIsAccepted(entropy, list, sha);
  }

  // ---------------------------------------------------------------- the packing loops

  /** The inner encoding loop: eleven bits starting at `word * 11`, big-endian across the buffer. */
  method ReadIndex(bits: array<bv8>, word: nat) returns (index: nat)
    requires bits.Length == 33 && word < 24
    ensures index == FromBits(BytesBits(bits[..])[word * WORD_BITS..word * WORD_BITS + WORD_BITS])
  {
    hide ByteBit;
    ghost var all, start := BytesBits(bits[..]), word * WORD_BITS;
    index := 0;
    for offset := 0 to WORD_BITS
      invariant index == FromBits(all[start..start + offset])
    {
      var bit := word * WORD_BITS + offset;
      var isSet := (bits[bit / 8] >> (7 - bit % 8)) & 1;
      BufferBit(bits[..], bit);
      index := 2 * index + if isSet == 1 then 1 else 0;
      assert all[start..bit + 1][..offset] == all[start..bit];
    }
  }

  /** 32 bytes of entropy to a 24-word phrase. */
  method MnemonicFromEntropy(entropy: seq<bv8>, list: seq<string>, sha: FirstByte) returns (phrase: string)
    requires |entropy| == 32 && IsWordList(list)
    ensures phrase == Join(WordsOf(list, Encode(entropy, sha)))
  {
    hide ByteBit, Join, BytesBits, FromBits, Encode, WordsOf, AllWords;
    var bits := new bv8[33];
    forall i | 0 <= i < 32 {
      bits[i] := entropy[i];
    }
    bits[32] := sha(entropy);
    ghost var buffer := entropy + [sha(entropy)];
    assert bits[..] == buffer;
    ghost var goal := Encode(entropy, sha);
    EncodedWords(entropy, sha);
    assert goal[..0] == [];
    JoinNothing(list);

    phrase := "";
    for word := 0 to 24
      invariant bits[..] == buffer
      invariant phrase == Join(WordsOf(list, goal[..word]))
    {
      var index := ReadIndex(bits, word);
      JoinNext(list, goal, word);
      if word > 0 {
        phrase := phrase + " ";
      }
      phrase := phrase + list[index];
    }
    assert goal[..24] == goal;
  }

  lemma JoinNothing(list: seq<string>)
    requires |list| == 2048
    ensures Join(WordsOf(list, [])) == ""
  {
  }

  /** Word by word, the encoding of 32 bytes is what the bit buffer holds. */
  lemma EncodedWords(entropy: seq<bv8>, sha: FirstByte)
    requires |entropy| == 32
    ensures |Encode(entropy, sha)| == 24 && InRange(Encode(entropy, sha))
    ensures forall i :: 0 <= i < 24 ==>
      Encode(entropy, sha)[i] == FromBits(BytesBits(entropy + [sha(entropy)])[i * WORD_BITS..i * WORD_BITS + WORD_BITS])
  {
    hide Pack, BytesBits, FromBits;
    MessageIsBuffer(entropy, sha);
    UnpackPack(Message(entropy, sha));
    forall i | 0 <= i < 24
      ensures Encode(entropy, sha)[i] == FromBits(BytesBits(entropy + [sha(entropy)])[i * WORD_BITS..i * WORD_BITS + WORD_BITS])
    {
      PackedWord(Message(entropy, sha), 24, i);
    }
  }

  lemma JoinNext(list: seq<string>, indices: seq<nat>, word: nat)
    requires |list| == 2048 && InRange(indices) && word < |indices|
    ensures Join(WordsOf(list, indices[..word + 1]))
         == (if word > 0 then Join(WordsOf(list, indices[..word])) + " " else "") + list[indices[word]]
  {
    assert WordsOf(list, indices[..word + 1]) == WordsOf(list, indices[..word]) + [list[indices[word]]];
    if word > 0 {
      JoinSnoc(WordsOf(list, indices[..word]), list[indices[word]]);
    }
  }

  lemma BufferBit(bytes: seq<bv8>, bit: nat)
    requires bit < 8 * |bytes|
    ensures BytesBits(bytes)[bit] == ByteBit(bytes[bit / 8], bit % 8) == ((bytes[bit / 8] >> (7 - bit % 8)) & 1 == 1)
  {
  }

  lemma BytesBitsConcat(a: seq<bv8>, b: seq<bv8>)
    ensures BytesBits(a + b) == BytesBits(a) + BytesBits(b)
  {
    hide ByteBit;
    forall i | 0 <= i < 8 * |a| + 8 * |b|
      ensures BytesBits(a + b)[i] == (BytesBits(a) + BytesBits(b))[i]
    {
      if i >= 8 * |a| {
        assert i / 8 - |a| == (i - 8 * |a|) / 8 && i % 8 == (i - 8 * |a|) % 8;
      }
    }
  }

  /** With 32 bytes the checksum is a whole byte, so the message is a 33-byte buffer. */
  lemma MessageIsBuffer(entropy: seq<bv8>, sha: FirstByte)
    requires |entropy| == 32
    ensures Message(entropy, sha) == BytesBits(entropy + [sha(entropy)])
  {
    hide BytesBits;
    BytesBitsConcat(entropy, [sha(entropy)]);
    assert BytesBits([sha(entropy)])[..8] == BytesBits([sha(entropy)]);
  }

  lemma {:induction false} PackedWord(bits: seq<bool>, words: nat, i: nat)
    requires |bits| == WORD_BITS * words && i < words
    ensures Pack(bits)[i] == FromBits(bits[i * WORD_BITS..i * WORD_BITS + WORD_BITS])
    decreases words
  {
    hide FromBits;
    var n, start := |bits| - WORD_BITS, i * WORD_BITS;
    if i < words - 1 {
      PackedWord(bits[..n], words - 1, i);
      assert bits[..n][start..start + WORD_BITS] == bits[start..start + WORD_BITS];
    } else {
      assert bits[n..] == bits[start..start + WORD_BITS];
    }
  }

  function Zeros(n: nat): seq<bool> {
    seq(n, _ => false)
  }

  /** The inner decoding loop: the eleven bits of one index, written at `bit`. */
  method WriteIndex(buffer: array<bv8>, index: nat, bit: nat, ghost before: seq<bool>)
    requires buffer.Length == 33 && bit + WORD_BITS <= 264 && |before| == bit
    requires BytesBits(buffer[..]) == before + Zeros(264 - bit)
    modifies buffer
    ensures BytesBits(buffer[..]) == before + ToBits(index, WORD_BITS) + Zeros(264 - bit - WORD_BITS)
  {
    hide ByteBit, WithBit, ToBits, Shr;
    ghost var word := ToBits(index, WORD_BITS);
    var at := bit;
    var shift := WORD_BITS;
    while shift > 0
      invariant 0 <= shift <= WORD_BITS && at == bit + (WORD_BITS - shift)
      invariant BytesBits(buffer[..]) == before + word[..WORD_BITS - shift] + Zeros(264 - at)
    {
      shift := shift - 1;
      ghost var bytes, k := buffer[..], WORD_BITS - 1 - shift;
      BitIsShift(index, WORD_BITS, k);
      if Shr(index, shift) % 2 == 1 {
        SetBit(bytes, at);
        buffer[at / 8] := WithBit(buffer[at / 8], at % 8);
        assert buffer[..] == bytes[at / 8 := WithBit(bytes[at / 8], at % 8)];
      }
      at := at + 1;
      assert word[..k + 1] == word[..k] + [word[k]];
      assert BytesBits(buffer[..]) == before + word[..k + 1] + Zeros(264 - at);
    }
    assert word[..WORD_BITS] == word;
  }

  /** The outer decoding loop: look every word up and write its index, or report the first unknown one. */
  method FillBuffer(list: seq<string>, words: seq<string>, buffer: array<bv8>) returns (unknown: Option<nat>)
    requires Sorted(list) && IsWordCount(|words|) && buffer.Length == 33 && forall i :: 0 <= i < 33 ==> buffer[i] == 0
    modifies buffer
    ensures unknown.Some? ==> unknown.value < |words| && words[unknown.value] !in list && Listed(list, words[..unknown.value])
    ensures unknown.None? ==>
      && Listed(list, words)
      && BytesBits(buffer[..]) == Unpack(IndicesOf(list, words)) + Zeros(264 - WORD_BITS * |words|)
  {
    hide Search, Sorted, ByteBit, Unpack, BytesBits, IndicesOf, Zeros, ToBits;
    WordsFit(|words|);
    hide IsWordCount;
    ghost var indices: seq<nat> := [];
    EmptyBuffer(buffer[..]);
    NoIndices(list);
    for offset := 0 to |words|
      invariant Listed(list, words[..offset]) && indices == IndicesOf(list, words[..offset])
      invariant BytesBits(buffer[..]) == Unpack(indices) + Zeros(264 - WORD_BITS * offset)
    {
      var index := BinarySearch(list, words[offset]);
      if index.None? {
        return Some(offset);
      }
      WriteIndex(buffer, index.value, WORD_BITS * offset, Unpack(indices));
      UnpackSnoc(indices, index.value);
      assert words[..offset + 1] == words[..offset] + [words[offset]];
      IndicesSnoc(list, words[..offset], words[offset]);
      indices := indices + [index.value];
    }
    assert words[..|words|] == words;
    return None;
  }

  lemma WordsFit(n: nat)
    requires IsWordCount(n)
    ensures n <= 24
  {
  }

  lemma NoIndices(list: seq<string>)
    ensures IndicesOf(list, []) == []
  {
  }

  lemma IndicesSnoc(list: seq<string>, words: seq<string>, word: string)
    requires Listed(list, words) && Search(list, word).Some?
    ensures Listed(list, words + [word])
    ensures IndicesOf(list, words + [word]) == IndicesOf(list, words) + [Search(list, word).value]
  {
  }

  /** The words of a valid mnemonic, or why it is not one. */
  method CheckedWords(phrase: string, list: seq<string>, sha: FirstByte) returns (r: Result<seq<string>, MnemonicError>)
    requires IsWordList(list)
    ensures r == Checked(phrase, list, sha)
  {
    hide Split, Search, Less, FirstUnknown, IndicesOf, ChecksumHolds, ChecksumMatches, Zeros, Unpack, BytesBits;
    var words := Split(phrase);
    if !IsWordCount(|words|) {
      return Err(WordCount(|words|));
    }
    var buffer := new bv8[33](_ => 0);
    var unknown := FillBuffer(list, words, buffer);
    if unknown.Some? {
      FirstUnknownIs(list, words, unknown.value);
      return Err(UnknownWord(unknown.value + 1));
    }
    AllListed(list, words);
    Comparison(buffer[..], IndicesOf(list, words), sha);
    if !ChecksumMatches(buffer[..], |words|, sha) {
      return Err(Checksum);
    }
    return Ok(words);
  }

  /** `mnemonic_to_seed`, up to the key derivation. */
  method MnemonicToSeed(phrase: string, passphrase: string, list: seq<string>, sha: FirstByte, kdf: Kdf)
    returns (r: Result<seq<bv8>, MnemonicError>)
    requires IsWordList(list)
    ensures r == Seed(phrase, passphrase, list, sha, kdf)
  {
    hide Checked, Join;
    var words := CheckedWords(phrase, list, sha);
    if words.Err? {
      return Err(words.error);
    }
    if !IsAscii(passphrase) {
      return Err(NonAsciiPassphrase);
    }
    var canonical := Join(words.value);
    return Ok(kdf(canonical, "mnemonic" + passphrase));
  }

  /** The masked comparison that ends `checked_words`. */
  predicate ChecksumMatches(buffer: seq<bv8>, words: nat, sha: FirstByte)
    requires |buffer| == 33 && IsWordCount(words)
  {
    var entropyLen, mask := EntropyLen(words), TopMask(ChecksumBits(words));
    var expected := sha(buffer[..entropyLen]);
    buffer[entropyLen] & mask == expected & mask
  }

  lemma Comparison(bytes: seq<bv8>, indices: seq<nat>, sha: FirstByte)
    requires |bytes| == 33 && IsWordCount(|indices|)
    requires BytesBits(bytes) == Unpack(indices) + Zeros(264 - WORD_BITS * |indices|)
    ensures ChecksumMatches(bytes, |indices|, sha) <==> ChecksumHolds(indices, sha)
  {
    hide Unpack, BytesBits, TopMask, Zeros, ChecksumHolds, EntropyOf, EntropyLen, ChecksumBits, IsWordCount, IsEntropyLen;
    Sizes(|indices|);
    BufferHoldsEntropy(bytes, indices);
    BufferChecksum(bytes, indices, sha);
  }

  lemma EmptyBuffer(bytes: seq<bv8>)
    requires |bytes| == 33 && forall i :: 0 <= i < 33 ==> bytes[i] == 0
    ensures BytesBits(bytes) == Unpack([]) + Zeros(264)
  {
    forall i | 0 <= i < 264
      ensures !BytesBits(bytes)[i]
    {
      var k := i % 8;
      if k == 0 {} else if k == 1 {} else if k == 2 {} else if k == 3 {} else if k == 4 {} else if k == 5 {} else if k == 6 {}
    }
  }

  /** The bit buffer holds the original entropy. */
  lemma BufferHoldsEntropy(bytes: seq<bv8>, indices: seq<nat>)
    requires |bytes| == 33 && IsWordCount(|indices|)
    requires BytesBits(bytes) == Unpack(indices) + Zeros(264 - WORD_BITS * |indices|)
    ensures bytes[..EntropyLen(|indices|)] == EntropyOf(indices)
  {
    hide Unpack, ByteBit, ToBytes;
    var n := EntropyLen(|indices|);
    var bits := Unpack(indices)[..8 * n];
    ToBytesBits(bits);
    assert BytesBits(bytes)[..8 * n] == bits;
    PrefixBits(bytes, n);
    BytesFromBits(bytes[..n], ToBytes(bits));
  }

  lemma PrefixBits(bytes: seq<bv8>, n: nat)
    requires n <= |bytes|
    ensures BytesBits(bytes)[..8 * n] == BytesBits(bytes[..n])
  {
  }

  /** The masked comparison is exactly the comparison of checksum bits. */
  lemma BufferChecksum(bytes: seq<bv8>, indices: seq<nat>, sha: FirstByte)
    requires |bytes| == 33 && IsWordCount(|indices|)
    requires BytesBits(bytes) == Unpack(indices) + Zeros(264 - WORD_BITS * |indices|)
    ensures var n, mask := EntropyLen(|indices|), TopMask(ChecksumBits(|indices|));
      ChecksumHolds(indices, sha) <==> SameUnder(bytes[n], sha(EntropyOf(indices)), mask)
  {
    hide Unpack, ByteBit, TopMask, SameUnder, EntropyOf, EntropyLen, ChecksumBits, IsWordCount, IsEntropyLen, BytesBits, Zeros;
    Sizes(|indices|);
    SameTopBits(bytes, Unpack(indices), Zeros(264 - WORD_BITS * |indices|), EntropyLen(|indices|), ChecksumBits(|indices|),
      sha(EntropyOf(indices)));
  }

  lemma SameTopBits(bytes: seq<bv8>, bits: seq<bool>, rest: seq<bool>, n: nat, c: nat, expected: bv8)
    requires n < |bytes| && 4 <= c <= 8 && |bits| == 8 * n + c
    requires BytesBits(bytes) == bits + rest
    ensures bits[8 * n..] == BytesBits([expected])[..c] <==> SameUnder(bytes[n], expected, TopMask(c))
  {
    hide ByteBit, TopMask, SameUnder, BytesBits;
    MaskComparesTopBits(bytes[n], expected, c);
    ByteInBuffer(bytes, n);
    ByteInBuffer([expected], 0);
    var got, want := bits[8 * n..], BytesBits([expected])[..c];
    forall i | 0 <= i < c
      ensures got[i] == ByteBit(bytes[n], i) && want[i] == ByteBit(expected, i)
    {
      assert got[i] == BytesBits(bytes)[8 * n + i];
      assert want[i] == BytesBits([expected])[8 * 0 + i] == ByteBit([expected][0], i);
    }
    if SameUnder(bytes[n], expected, TopMask(c)) {
      assert got == want;
    } else {
      var i :| 0 <= i < c && ByteBit(bytes[n], i) != ByteBit(expected, i);
      assert got[i] != want[i];
    }
  }

  lemma ByteInBuffer(bytes: seq<bv8>, n: nat)
    requires n < |bytes|
    ensures forall i :: 0 <= i < 8 ==> BytesBits(bytes)[8 * n + i] == ByteBit(bytes[n], i)
  {
    forall i | 0 <= i < 8
      ensures BytesBits(bytes)[8 * n + i] == ByteBit(bytes[n], i)
    {
      assert (8 * n + i) / 8 == n && (8 * n + i) % 8 == i;
    }
  }
}
