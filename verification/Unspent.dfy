/** Which notes are still spendable, and how that survives splitting a wallet in two. */
module Unspent {
  import opened Base
  import opened Chain
  import opened Scan
  import opened Wallet
  import opened Recovery

  function Values(seen: seq<SeenNullifier>): seq<Digest> {
    seq(|seen|, i requires 0 <= i < |seen| => seen[i].nullifier)
  }

  /** Notes whose nullifier was seen neither in this range nor before it. */
  function UnspentNotes(s: ScanState, alreadySpent: seq<Digest>): seq<Note> {
    Filter(s.notes, (n: Note) => n.nullifier !in Values(s.nullifiers) && n.nullifier !in alreadySpent)
  }

  /** Exactly the notes whose nullifier nobody has seen, in the order found and each as often as found. */
  lemma UnspentAreUnseen(s: ScanState, alreadySpent: seq<Digest>) returns (kept: seq<nat>)
    ensures IsLeftOf(UnspentNotes(s, alreadySpent), s.notes, kept)
    ensures forall k :: 0 <= k < |s.notes| ==>
      (k in kept <==>
        && (forall x :: x in s.nullifiers ==> x.nullifier != s.notes[k].nullifier)
        && s.notes[k].nullifier !in alreadySpent)
  {
    hide Values;
    kept := FilterKeeps(s.notes, (n: Note) => n.nullifier !in Values(s.nullifiers) && n.nullifier !in alreadySpent);
    forall k | 0 <= k < |s.notes|
      ensures s.notes[k].nullifier in Values(s.nullifiers) <==> exists x :: x in s.nullifiers && x.nullifier == s.notes[k].nullifier
    {
      InValues(s.nullifiers, s.notes[k].nullifier);
    }
  }

  lemma InValues(seen: seq<SeenNullifier>, v: Digest)
    ensures v in Values(seen) <==> exists x :: x in seen && x.nullifier == v
  {
    if x :| x in seen && x.nullifier == v {
      var i :| 0 <= i < |seen| && seen[i] == x;
      assert Values(seen)[i] == v;
    }
    if v in Values(seen) {
      var i :| 0 <= i < |seen| && Values(seen)[i] == v;
      assert seen[i] in seen;
    }
  }

  lemma UnspentIff(s: ScanState, alreadySpent: seq<Digest>, n: Note)
    ensures n in UnspentNotes(s, alreadySpent) <==>
      && n in s.notes
      && (forall x :: x in s.nullifiers ==> x.nullifier != n.nullifier)
      && n.nullifier !in alreadySpent
  {
    hide Values;
    InValues(s.nullifiers, n.nullifier);
  }

  /** Some transaction of a block in the range spends the note with that nullifier. */
  ghost predicate SpentIn(chain: seq<Block>, from: nat, to: nat, nullifier: Digest)
    requires to < |chain|
  {
    exists h, t :: from <= h <= to && 0 <= t < |chain[h].txs| && Spends(chain[h], t, nullifier)
  }

  predicate Spends(block: Block, t: nat, nullifier: Digest)
    requires t < |block.txs|
  {
    nullifier in block.txs[t].nullifiers
  }

  lemma SeenIffSpent(chain: seq<Block>, from: nat, to: nat, nullifier: Digest)
    requires from <= to < |chain|
    ensures (exists x :: x in Nullifiers(chain[from..to + 1]) && x.nullifier == nullifier) <==> SpentIn(chain, from, to, nullifier)
  {
    hide Nullifiers;
    var piece := chain[from..to + 1];
    if x :| x in Nullifiers(piece) && x.nullifier == nullifier {
      SeenIffPublished(piece, x);
      var b, t :| 0 <= b < |piece| && 0 <= t < |piece[b].txs| && PublishedBy(piece[b], t, x);
      assert piece[b] == chain[from + b] && Spends(chain[from + b], t, nullifier);
    }
    if SpentIn(chain, from, to, nullifier) {
      var h, t :| from <= h <= to && 0 <= t < |chain[h].txs| && Spends(chain[h], t, nullifier);
      var x := SeenNullifier(chain[h].height, nullifier);
      assert piece[h - from] == chain[h] && PublishedBy(piece[h - from], t, x);
      SeenIffPublished(piece, x);
    }
  }

  /** For a wallet that describes a chain: a note is reported as spendable exactly when it was found and no
      block of the range spends it. */
  lemma UnspentOnChain(s: ScanState, key: Key, chain: seq<Block>, alreadySpent: seq<Digest>, n: Note)
    requires Describes(s, key, chain)
    ensures n in UnspentNotes(s, alreadySpent) <==>
      n in s.notes && !SpentIn(chain, s.from, s.to, n.nullifier) && n.nullifier !in alreadySpent
  {
    hide Nullifiers, Outputs, Detect, SpentIn, UnspentNotes, Window;
    UnspentIff(s, alreadySpent, n);
    SeenIffSpent(chain, s.from, s.to, n.nullifier);
  }

  function Sum(notes: seq<Note>): nat {
    if notes == [] then 0 else Sum(notes[..|notes| - 1]) + notes[|notes| - 1].value
  }

  function Balance(s: ScanState, alreadySpent: seq<Digest>): nat {
    Sum(UnspentNotes(s, alreadySpent))
  }

  lemma {:induction false} SumConcat(a: seq<Note>, b: seq<Note>)
    ensures Sum(a + b) == Sum(a) + Sum(b)
    ensures |b| == 1 ==> Sum(b) == b[0].value
  {
    if b == [] {
      assert a + b == a;
    } else {
      assert (a + b)[..|a + b| - 1] == a + b[..|b| - 1];
      SumConcat(a, b[..|b| - 1]);
    }
  }

  const TWO_TO_THE_64: nat := MAX_U64 + 1

  /** The `u64` the source's unchecked sum leaves in a build that wraps. */
  function Wrapped(s: ScanState, alreadySpent: seq<Digest>): nat {
    Balance(s, alreadySpent) % TWO_TO_THE_64
  }

  /** The sum of `balance`, wrapping at 64 bits; it is the balance itself exactly when that fits. */
  method SumOfUnspent(s: ScanState, alreadySpent: seq<Digest>) returns (total: nat)
    ensures total == Wrapped(s, alreadySpent)
    ensures total == Balance(s, alreadySpent) <==> Balance(s, alreadySpent) <= MAX_U64
  {
    hide UnspentNotes, Sum;
    NoSum();
    var notes := UnspentNotes(s, alreadySpent);
    total := 0;
    for i := 0 to |notes|
      invariant total == Sum(notes[..i]) % TWO_TO_THE_64
    {
      SumNext(notes, i);
      WrapsOnce(Sum(notes[..i]), notes[i].value);
      total := (total + notes[i].value) % TWO_TO_THE_64;
    }
    assert notes[..|notes|] == notes;
  }

  lemma NoSum()
    ensures Sum([]) == 0
  {
  }

  lemma SumNext(notes: seq<Note>, i: nat)
    requires i < |notes|
    ensures Sum(notes[..i + 1]) == Sum(notes[..i]) + notes[i].value
  {
    assert notes[..i + 1][..i] == notes[..i];
  }

  lemma WrapsOnce(a: nat, b: nat)
    ensures (a % TWO_TO_THE_64 + b) % TWO_TO_THE_64 == (a + b) % TWO_TO_THE_64
  {
  }

  /** A note is spent exactly when its nullifier was published, in whichever half that happened:
      the merged wallet reports what the two halves report once each knows the other's nullifiers. */
  lemma SplitAccounting(head: ScanState, tail: ScanState)
    requires Absorbed(head, tail).Some?
    ensures tail.to >= tail.from ==>
      var merged := Absorbed(head, tail).value;
      && UnspentNotes(merged, []) == UnspentNotes(head, Values(tail.nullifiers)) + UnspentNotes(tail, Values(head.nullifiers))
      && Balance(merged, []) == Balance(head, Values(tail.nullifiers)) + Balance(tail, Values(head.nullifiers))
  {
    if tail.to >= tail.from {
      var merged := Absorbed(head, tail).value;
      var a, b := Values(head.nullifiers), Values(tail.nullifiers);
      assert Values(merged.nullifiers) == a + b;
      hide Values, Filter;
      var whole := (n: Note) => n.nullifier !in Values(merged.nullifiers) && n.nullifier !in [];
      var left := (n: Note) => n.nullifier !in Values(head.nullifiers) && n.nullifier !in b;
      var right := (n: Note) => n.nullifier !in Values(tail.nullifiers) && n.nullifier !in a;
      FilterConcat(head.notes, tail.notes, whole);
      FilterSame(head.notes, whole, left);
      FilterSame(tail.notes, whole, right);
      SumConcat(UnspentNotes(head, b), UnspentNotes(tail, a));
    }
  }

  lemma WrappedSum(a: nat, b: nat)
    ensures (a + b) % TWO_TO_THE_64 == (a % TWO_TO_THE_64 + b % TWO_TO_THE_64) % TWO_TO_THE_64
  {
    WrapsOnce(a, b);
    WrapsOnce(b, a % TWO_TO_THE_64);
  }

  /** The same for the `u64` sums, also when they wrap: the two reported halves add up, modulo 2^64, to the reported whole. */
  lemma WrappedAccounting(head: ScanState, tail: ScanState)
    requires Absorbed(head, tail).Some?
    ensures tail.to >= tail.from ==>
      var merged := Absorbed(head, tail).value;
      Wrapped(merged, []) == (Wrapped(head, Values(tail.nullifiers)) + Wrapped(tail, Values(head.nullifiers))) % TWO_TO_THE_64
  {
    hide Absorbed, Balance, UnspentNotes, Values;
    SplitAccounting(head, tail);
    WrappedSum(Balance(head, Values(tail.nullifiers)), Balance(tail, Values(head.nullifiers)));
  }
}
