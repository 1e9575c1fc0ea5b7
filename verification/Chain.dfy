/**
  Compact blocks, the chain they form, and what a viewing key can see in them.

  A note's tree position is not written in any block: it is the number of Sapling outputs that
  came before it on the chain.  Everything below is therefore built from one flattened list of
  outputs, in tree order.
 */
module Chain {
  import opened Base

  /** Thirty-two opaque bytes: a hash, a commitment or a nullifier. */
  type Digest = nat

  datatype Output = Output(cmu: Digest, payload: nat)
  datatype Tx = Tx(index: nat, nullifiers: seq<Digest>, outputs: seq<Output>)
  datatype Block = Block(height: nat, hash: Digest, prevHash: Digest, txs: seq<Tx>, treeSize: Option<nat>)

  datatype CompactOutput = CompactOutput(height: nat, txIndex: nat, outputIndex: nat, output: Output)
  datatype SeenNullifier = SeenNullifier(height: nat, nullifier: Digest)
  datatype Checkpoint = Checkpoint(height: nat, hash: Digest)
  datatype Note = Note(height: nat, txIndex: nat, outputIndex: nat, position: nat,
                       value: nat, recipient: nat, nullifier: Digest)

  datatype Plain = Plain(value: nat, recipient: nat)

  /** What the cryptography answers: does an output open, to what, and under which nullifier. */
  datatype Key = Key(open: Output -> Option<Plain>,
                     nullifier: (Output, nat) -> Digest,
                     validCmu: Digest -> bool)

  // ---------------------------------------------------------------- flattening

  function TxOutputs(height: nat, tx: Tx): seq<CompactOutput> {
    seq(|tx.outputs|, i requires 0 <= i < |tx.outputs| => CompactOutput(height, tx.index, i, tx.outputs[i]))
  }

  function TxNullifiers(height: nat, tx: Tx): seq<SeenNullifier> {
    seq(|tx.nullifiers|, i requires 0 <= i < |tx.nullifiers| => SeenNullifier(height, tx.nullifiers[i]))
  }

  function TxsOutputs(height: nat, txs: seq<Tx>): (r: seq<CompactOutput>)
    ensures forall x :: x in r ==> x.height == height
  {
    if txs == [] then []
    else TxsOutputs(height, txs[..|txs| - 1]) + TxOutputs(height, txs[|txs| - 1])
  }

  function TxsNullifiers(height: nat, txs: seq<Tx>): (r: seq<SeenNullifier>)
    ensures forall x :: x in r ==> x.height == height
  {
    if txs == [] then []
    else TxsNullifiers(height, txs[..|txs| - 1]) + TxNullifiers(height, txs[|txs| - 1])
  }

  /** Every output of the blocks, in commitment-tree order. */
  function Outputs(blocks: seq<Block>): seq<CompactOutput> {
    if blocks == [] then []
    else
      var b := blocks[|blocks| - 1];
      Outputs(blocks[..|blocks| - 1]) + TxsOutputs(b.height, b.txs)
  }

  /** Every nullifier the blocks publish, in order. */
  function Nullifiers(blocks: seq<Block>): seq<SeenNullifier> {
    if blocks == [] then []
    else
      var b := blocks[|blocks| - 1];
      Nullifiers(blocks[..|blocks| - 1]) + TxsNullifiers(b.height, b.txs)
  }

  function Checkpoints(blocks: seq<Block>): seq<Checkpoint> {
    seq(|blocks|, i requires 0 <= i < |blocks| => Checkpoint(blocks[i].height, blocks[i].hash))
  }

  function Cmus(outputs: seq<CompactOutput>): seq<Digest> {
    seq(|outputs|, i requires 0 <= i < |outputs| => outputs[i].output.cmu)
  }

  lemma {:induction false} OutputsConcat(a: seq<Block>, b: seq<Block>)
    ensures Outputs(a + b) == Outputs(a) + Outputs(b)
  {
    hide TxsOutputs;
    if b == [] {
      assert a + b == a;
    } else {
      var front, last := b[..|b| - 1], b[|b| - 1];
      assert (a + b)[..|a + b| - 1] == a + front;
      OutputsConcat(a, front);
      Regroup(Outputs(a), Outputs(front), TxsOutputs(last.height, last.txs));
    }
  }

  lemma {:induction false} NullifiersConcat(a: seq<Block>, b: seq<Block>)
    ensures Nullifiers(a + b) == Nullifiers(a) + Nullifiers(b)
  {
    hide TxsNullifiers;
    if b == [] {
      assert a + b == a;
    } else {
      var front, last := b[..|b| - 1], b[|b| - 1];
      assert (a + b)[..|a + b| - 1] == a + front;
      NullifiersConcat(a, front);
      Regroup(Nullifiers(a), Nullifiers(front), TxsNullifiers(last.height, last.txs));
    }
  }

  // ---------------------------------------------------------------- where an output lands

  /** How many outputs the transactions have. */
  function TxsSize(txs: seq<Tx>): nat {
    if txs == [] then 0 else TxsSize(txs[..|txs| - 1]) + |txs[|txs| - 1].outputs|
  }

  /** How many leaves the blocks add to the tree. */
  function Size(blocks: seq<Block>): nat {
    if blocks == [] then 0 else Size(blocks[..|blocks| - 1]) + TxsSize(blocks[|blocks| - 1].txs)
  }

  /** Output `o` of transaction `t` of block `b`. */
  predicate IsPlace(blocks: seq<Block>, b: nat, t: nat, o: nat) {
    b < |blocks| && t < |blocks[b].txs| && o < |blocks[b].txs[t].outputs|
  }

  /** The leaves before it: those of earlier blocks, of earlier transactions, and of the same transaction. */
  function LeavesBefore(blocks: seq<Block>, b: nat, t: nat, o: nat): nat
    requires IsPlace(blocks, b, t, o)
  {
    Size(blocks[..b]) + TxsSize(blocks[b].txs[..t]) + o
  }

  lemma {:induction false} TxsOutputsSize(height: nat, txs: seq<Tx>)
    ensures |TxsOutputs(height, txs)| == TxsSize(txs)
  {
    if txs != [] {
      TxsOutputsSize(height, txs[..|txs| - 1]);
    }
  }

  lemma {:induction false} OutputsSize(blocks: seq<Block>)
    ensures |Outputs(blocks)| == Size(blocks)
  {
    hide TxsOutputs, TxsSize;
    if blocks != [] {
      OutputsSize(blocks[..|blocks| - 1]);
      TxsOutputsSize(blocks[|blocks| - 1].height, blocks[|blocks| - 1].txs);
    }
  }

  lemma {:induction false} TxOutputAt(height: nat, txs: seq<Tx>, t: nat, o: nat)
    requires t < |txs| && o < |txs[t].outputs|
    ensures var p := TxsSize(txs[..t]) + o;
      p < |TxsOutputs(height, txs)| && TxsOutputs(height, txs)[p] == CompactOutput(height, txs[t].index, o, txs[t].outputs[o])
  {
    var n := |txs| - 1;
    TxsOutputsSize(height, txs[..n]);
    if t < n {
      TxOutputAt(height, txs[..n], t, o);
      assert txs[..n][..t] == txs[..t];
    }
  }

  /** Every output of every block lands behind exactly the leaves before it, with its height and indices. */
  lemma {:induction false} OutputAt(blocks: seq<Block>, b: nat, t: nat, o: nat)
    requires IsPlace(blocks, b, t, o)
    ensures var p, tx := LeavesBefore(blocks, b, t, o), blocks[b].txs[t];
      p < |Outputs(blocks)| && Outputs(blocks)[p] == CompactOutput(blocks[b].height, tx.index, o, tx.outputs[o])
  {
    hide TxsOutputs, TxsSize;
    var n := |blocks| - 1;
    OutputsSize(blocks[..n]);
    if b < n {
      OutputAt(blocks[..n], b, t, o);
      assert blocks[..n][..b] == blocks[..b];
    } else {
      TxOutputAt(blocks[n].height, blocks[n].txs, t, o);
    }
  }

  lemma {:induction false} TxPlaceOf(txs: seq<Tx>, p: nat) returns (t: nat, o: nat)
    requires p < TxsSize(txs)
    ensures t < |txs| && o < |txs[t].outputs| && p == TxsSize(txs[..t]) + o
  {
    var n := |txs| - 1;
    if p < TxsSize(txs[..n]) {
      t, o := TxPlaceOf(txs[..n], p);
      assert txs[..n][..t] == txs[..t];
    } else {
      t, o := n, p - TxsSize(txs[..n]);
    }
  }

  /** And every leaf is some output of some block. */
  lemma {:induction false} PlaceOf(blocks: seq<Block>, p: nat) returns (b: nat, t: nat, o: nat)
    requires p < Size(blocks)
    ensures IsPlace(blocks, b, t, o) && p == LeavesBefore(blocks, b, t, o)
  {
    hide TxsSize;
    var n := |blocks| - 1;
    if p < Size(blocks[..n]) {
      b, t, o := PlaceOf(blocks[..n], p);
      assert blocks[..n][..b] == blocks[..b];
    } else {
      t, o := TxPlaceOf(blocks[n].txs, p - Size(blocks[..n]));
      b := n;
    }
  }

  /** Every commitment of every output is canonical. */
  ghost predicate AllCanonical(key: Key, blocks: seq<Block>) {
    forall b: nat, t: nat, o: nat :: IsPlace(blocks, b, t, o) ==> key.validCmu(blocks[b].txs[t].outputs[o].cmu)
  }

  lemma CanonicalIff(key: Key, blocks: seq<Block>)
    ensures AllValid(key, Outputs(blocks)) <==> AllCanonical(key, blocks)
  {
    hide Outputs, LeavesBefore, Size;
    OutputsSize(blocks);
    if AllValid(key, Outputs(blocks)) {
      forall b: nat, t: nat, o: nat | IsPlace(blocks, b, t, o)
        ensures key.validCmu(blocks[b].txs[t].outputs[o].cmu)
      {
        OutputAt(blocks, b, t, o);
      }
    }
    if AllCanonical(key, blocks) {
      forall p | 0 <= p < |Outputs(blocks)|
        ensures key.validCmu(Outputs(blocks)[p].output.cmu)
      {
        var b, t, o := PlaceOf(blocks, p);
        OutputAt(blocks, b, t, o);
      }
    }
  }

  /** Some transaction of some block at that height publishes the nullifier. */
  ghost predicate Publishes(blocks: seq<Block>, x: SeenNullifier) {
    exists b, t :: 0 <= b < |blocks| && 0 <= t < |blocks[b].txs| && PublishedBy(blocks[b], t, x)
  }

  predicate PublishedBy(block: Block, t: nat, x: SeenNullifier)
    requires t < |block.txs|
  {
    block.height == x.height && x.nullifier in block.txs[t].nullifiers
  }

  lemma {:induction false} TxsPublish(height: nat, txs: seq<Tx>, x: SeenNullifier)
    ensures x in TxsNullifiers(height, txs) <==>
      x.height == height && exists t :: 0 <= t < |txs| && x.nullifier in txs[t].nullifiers
  {
    if txs != [] {
      var front, last := txs[..|txs| - 1], txs[|txs| - 1];
      TxsPublish(height, front, x);
      assert x in TxNullifiers(height, last) <==> x.height == height && x.nullifier in last.nullifiers by {
        if x.height == height && x.nullifier in last.nullifiers {
          var i :| 0 <= i < |last.nullifiers| && last.nullifiers[i] == x.nullifier;
          assert TxNullifiers(height, last)[i] == x;
        }
      }
      assert forall t :: 0 <= t < |front| ==> front[t] == txs[t];
    }
  }

  /** The nullifiers seen are exactly those the blocks publish. */
  lemma {:induction false} SeenIffPublished(blocks: seq<Block>, x: SeenNullifier)
    ensures x in Nullifiers(blocks) <==> Publishes(blocks, x)
  {
    hide TxsNullifiers;
    if blocks != [] {
      var front, last := blocks[..|blocks| - 1], blocks[|blocks| - 1];
      SeenIffPublished(front, x);
      TxsPublish(last.height, last.txs, x);
      PublishSnoc(front, last, x);
      hide Publishes;
      assert blocks == front + [last];
    }
  }

  lemma PublishSnoc(front: seq<Block>, last: Block, x: SeenNullifier)
    ensures Publishes(front + [last], x) <==>
      Publishes(front, x) || (x.height == last.height && exists t :: 0 <= t < |last.txs| && x.nullifier in last.txs[t].nullifiers)
  {
    var blocks := front + [last];
    if Publishes(blocks, x) {
      var b, t :| 0 <= b < |blocks| && 0 <= t < |blocks[b].txs| && PublishedBy(blocks[b], t, x);
      assert b < |front| ==> PublishedBy(front[b], t, x);
    }
    if Publishes(front, x) {
      var b, t :| 0 <= b < |front| && 0 <= t < |front[b].txs| && PublishedBy(front[b], t, x);
      assert PublishedBy(blocks[b], t, x);
    }
    forall t | 0 <= t < |last.txs| && x.nullifier in last.txs[t].nullifiers && x.height == last.height
      ensures Publishes(blocks, x)
    {
      assert PublishedBy(blocks[|front|], t, x);
    }
  }

  // ---------------------------------------------------------------- detection

  function DetectOne(key: Key, position: nat, out: CompactOutput): seq<Note> {
    match key.open(out.output)
    case None => []
    case Some(plain) =>
      [Note(out.height, out.txIndex, out.outputIndex, position,
            plain.value, plain.recipient, key.nullifier(out.output, position))]
  }

  /** Trial decryption: output `i` sits at position `base + i`, whoever owns it. */
  function Detect(key: Key, base: nat, outs: seq<CompactOutput>): seq<Note> {
    if outs == [] then []
    else
      var n := |outs| - 1;
      Detect(key, base, outs[..n]) + DetectOne(key, base + n, outs[n])
  }

  predicate AllValid(key: Key, outs: seq<CompactOutput>) {
    forall i :: 0 <= i < |outs| ==> key.validCmu(outs[i].output.cmu)
  }

  lemma DetectSnoc(key: Key, base: nat, s: seq<CompactOutput>, x: CompactOutput)
    ensures Detect(key, base, s + [x]) == Detect(key, base, s) + DetectOne(key, base + |s|, x)
  {
    assert (s + [x])[..|s|] == s;
  }

  lemma {:induction false} DetectConcat(key: Key, base: nat, a: seq<CompactOutput>, b: seq<CompactOutput>)
    ensures Detect(key, base, a + b) == Detect(key, base, a) + Detect(key, base + |a|, b)
  {
    hide DetectOne;
    if b == [] {
      assert a + b == a;
    } else {
      var front, x := b[..|b| - 1], b[|b| - 1];
      assert (a + b)[..|a + b| - 1] == a + front;
      DetectConcat(key, base, a, front);
      Regroup(Detect(key, base, a), Detect(key, base + |a|, front), DetectOne(key, base + |a + front|, x));
    }
  }

  /** What a report of an output says: where it is, what it opens to, and its nullifier at that very position. */
  predicate IsNoteOf(key: Key, out: CompactOutput, n: Note) {
    && n.height == out.height && n.txIndex == out.txIndex && n.outputIndex == out.outputIndex
    && key.open(out.output) == Some(Plain(n.value, n.recipient))
    && n.nullifier == key.nullifier(out.output, n.position)
  }

  predicate Increasing(notes: seq<Note>) {
    forall i, j :: 0 <= i < j < |notes| ==> notes[i].position < notes[j].position
  }

  /** The note lies in the run and is the report of the output there. */
  predicate IsReport(key: Key, base: nat, outs: seq<CompactOutput>, n: Note) {
    base <= n.position < base + |outs| && IsNoteOf(key, outs[n.position - base], n)
  }

  ghost predicate ReportedAt(notes: seq<Note>, position: nat) {
    exists n :: n in notes && n.position == position
  }

  /** The report of a run of outputs that starts at `base`: every output that opens and no other, once, in tree order. */
  ghost predicate Reports(key: Key, base: nat, outs: seq<CompactOutput>, notes: seq<Note>) {
    && Increasing(notes)
    && (forall n :: n in notes ==> IsReport(key, base, outs, n))
    && (forall i :: 0 <= i < |outs| && key.open(outs[i].output).Some? ==> ReportedAt(notes, base + i))
  }

  lemma {:induction false} DetectReports(key: Key, base: nat, outs: seq<CompactOutput>)
    ensures Reports(key, base, outs, Detect(key, base, outs))
  {
    hide IsReport, ReportedAt, Increasing, DetectOne;
    if outs == [] {
      NothingReported(key, base);
    } else {
      var m := |outs| - 1;
      var front := outs[..m];
      DetectReports(key, base, front);
      ReportSnoc(key, base, front, outs[m], Detect(key, base, front));
      assert outs == front + [outs[m]];
    }
  }

  lemma NothingReported(key: Key, base: nat)
    ensures Reports(key, base, [], []) && Detect(key, base, []) == []
  {
  }

  /** One more output reports at most one more note, behind all the others. */
  lemma ReportSnoc(key: Key, base: nat, outs: seq<CompactOutput>, x: CompactOutput, notes: seq<Note>)
    requires Reports(key, base, outs, notes)
    ensures Reports(key, base, outs + [x], notes + DetectOne(key, base + |outs|, x))
  {
    hide ReportedAt;
    var all, more := outs + [x], notes + DetectOne(key, base + |outs|, x);
    forall n | n in more
      ensures IsReport(key, base, all, n)
    {
      if n in notes {
        assert IsReport(key, base, outs, n) && all[n.position - base] == outs[n.position - base];
      }
    }
    forall i | 0 <= i < |all| && key.open(all[i].output).Some?
      ensures ReportedAt(more, base + i)
    {
      if i < |outs| {
        assert outs[i] == all[i];
        StillReported(notes, DetectOne(key, base + |outs|, x), base + i);
      } else {
        LastReported(notes, DetectOne(key, base + |outs|, x)[0]);
      }
    }
    AllBelow(key, base, outs, notes);
  }

  lemma StillReported(notes: seq<Note>, more: seq<Note>, position: nat)
    requires ReportedAt(notes, position)
    ensures ReportedAt(notes + more, position)
  {
  }

  lemma LastReported(notes: seq<Note>, n: Note)
    ensures ReportedAt(notes + [n], n.position)
  {
  }

  lemma AllBelow(key: Key, base: nat, outs: seq<CompactOutput>, notes: seq<Note>)
    requires Reports(key, base, outs, notes)
    ensures forall i :: 0 <= i < |notes| ==> notes[i].position < base + |outs|
  {
    hide IsNoteOf, ReportedAt;
    forall i | 0 <= i < |notes|
      ensures notes[i].position < base + |outs|
    {
      assert notes[i] in notes;
    }
  }

  lemma SamePlaceSameNote(key: Key, base: nat, outs: seq<CompactOutput>, x: seq<Note>, y: seq<Note>, n: Note)
    requires Reports(key, base, outs, x) && Reports(key, base, outs, y) && n in x
    ensures n in y
  {
    hide ReportedAt;
    assert IsReport(key, base, outs, n) && key.open(outs[n.position - base].output).Some?;
    var m := NoteAt(y, n.position);
    assert IsReport(key, base, outs, m);
  }

  lemma NoteAt(notes: seq<Note>, position: nat) returns (n: Note)
    requires ReportedAt(notes, position)
    ensures n in notes && n.position == position
  {
    n :| n in notes && n.position == position;
  }

  lemma HasMember(notes: seq<Note>)
    ensures notes != [] ==> exists n :: n in notes
  {
    if notes != [] {
      assert notes[0] in notes;
    }
  }

  lemma {:induction false} IncreasingIsUnique(a: seq<Note>, b: seq<Note>)
    requires Increasing(a) && Increasing(b) && forall n :: n in a <==> n in b
    ensures a == b
  {
    if a != [] {
      assert a[0] in b;
      var i, j := |a| - 1, |b| - 1;
      assert a[i] in b && b[j] in a;
      assert a[i] == b[j];
      forall n | n in a[..i]
        ensures n in b[..j]
      {
        assert n in b;
      }
      forall n | n in b[..j]
        ensures n in a[..i]
      {
        assert n in a;
      }
      IncreasingIsUnique(a[..i], b[..j]);
      assert a == a[..i] + [a[i]] && b == b[..j] + [b[j]];
    } else {
      HasMember(b);
    }
  }

  /** Detection is that report, and nothing else is. */
  lemma ReportsIff(key: Key, base: nat, outs: seq<CompactOutput>, notes: seq<Note>)
    ensures Reports(key, base, outs, notes) <==> notes == Detect(key, base, outs)
  {
    hide Detect, Reports, Increasing;
    DetectReports(key, base, outs);
    if Reports(key, base, outs, notes) {
      var found := Detect(key, base, outs);
      forall n | n in notes
        ensures n in found
      {
        SamePlaceSameNote(key, base, outs, notes, found, n);
      }
      forall n | n in found
        ensures n in notes
      {
        SamePlaceSameNote(key, base, outs, found, notes, n);
      }
      ReportsIncrease(key, base, outs, notes);
      ReportsIncrease(key, base, outs, found);
      IncreasingIsUnique(notes, found);
    }
  }

  lemma ReportsIncrease(key: Key, base: nat, outs: seq<CompactOutput>, notes: seq<Note>)
    requires Reports(key, base, outs, notes)
    ensures Increasing(notes)
  {
  }

  /** A reported note is the report of the output at its position. */
  lemma DetectedAt(key: Key, base: nat, outs: seq<CompactOutput>, note: Note)
    requires note in Detect(key, base, outs)
    ensures base <= note.position < base + |outs| && IsNoteOf(key, outs[note.position - base], note)
  {
    hide Detect, ReportedAt, Increasing;
    DetectReports(key, base, outs);
  }

  /** Output by output: one that opens is reported once, with exactly these fields; one that does not is not reported. */
  lemma OutputIsReported(key: Key, base: nat, outs: seq<CompactOutput>, i: nat)
    requires i < |outs|
    ensures match key.open(outs[i].output)
      case None => forall n :: n in Detect(key, base, outs) ==> n.position != base + i
      case Some(plain) =>
        var note := Note(outs[i].height, outs[i].txIndex, outs[i].outputIndex, base + i,
                         plain.value, plain.recipient, key.nullifier(outs[i].output, base + i));
        && note in Detect(key, base, outs)
        && forall n :: n in Detect(key, base, outs) && n.position == base + i ==> n == note
  {
    hide Detect, ReportedAt, Increasing;
    var notes := Detect(key, base, outs);
    DetectReports(key, base, outs);
    forall n | n in notes && n.position == base + i
      ensures IsNoteOf(key, outs[i], n)
    {
      assert IsReport(key, base, outs, n);
    }
    if key.open(outs[i].output).Some? {
      var n := NoteAt(notes, base + i);
    }
  }

  // ---------------------------------------------------------------- the chain

  /** Blocks indexed by height, each naming the hash of the one below it. */
  predicate Linked(chain: seq<Block>) {
    && (forall h :: 0 <= h < |chain| ==> chain[h].height == h)
    && (forall h :: 0 < h < |chain| ==> chain[h].prevHash == chain[h - 1].hash)
  }

  /** Two chains whose blocks at `h` carry the same hash. */
  predicate AgreeAt(a: seq<Block>, b: seq<Block>, h: int) {
    0 <= h < |a| && h < |b| && a[h].hash == b[h].hash
  }

  /** The hash assumption: at one height, equal hashes belong to equal blocks. */
  ghost predicate CollisionFree(a: seq<Block>, b: seq<Block>) {
    forall h :: AgreeAt(a, b, h) ==> a[h] == b[h]
  }

  /** Block hashes chain, so agreeing at one height is agreeing on everything below it. */
  lemma {:induction false} AgreementIsPrefix(a: seq<Block>, b: seq<Block>, h: nat)
    requires Linked(a) && Linked(b) && CollisionFree(a, b) && AgreeAt(a, b, h)
    ensures a[..h + 1] == b[..h + 1]
  {
    assert a[h] == b[h];
    if h > 0 {
      assert AgreeAt(a, b, h - 1);
      AgreementIsPrefix(a, b, h - 1);
    }
    assert a[..h + 1] == a[..h] + [a[h]];
    assert b[..h + 1] == b[..h] + [b[h]];
  }

  lemma {:induction false} OutputHeights(chain: seq<Block>, lo: nat, hi: nat)
    requires Linked(chain) && lo <= hi <= |chain|
    ensures forall x :: x in Outputs(chain[lo..hi]) ==> lo <= x.height < hi
    ensures forall x :: x in Nullifiers(chain[lo..hi]) ==> lo <= x.height < hi
    decreases hi
  {
    if lo < hi {
      assert chain[lo..hi][..hi - lo - 1] == chain[lo..hi - 1];
      OutputHeights(chain, lo, hi - 1);
    }
  }
}
