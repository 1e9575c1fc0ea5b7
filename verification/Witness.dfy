/**
  Witnessing a note: finding it in its block by position, then folding in every later block.

  A commitment tree is modelled by the list of leaves it holds; the Merkle path itself is
  determined by that list and the marked leaf.
 */
module Witness {
  import opened Base
  import opened Chain
  import opened Scan
  import opened Wallet

  /** A Sapling tree has 32 levels. */
  const TREE_CAPACITY: nat := 0x1_0000_0000

  /** A witness: the leaves folded in so far, the marked one, and the last height applied. */
  datatype Path = Path(leaves: seq<Digest>, marked: nat, height: nat)

  datatype Witnessed = Witnessed(treeBefore: seq<Digest>, blockCmus: seq<Digest>, index: nat, path: Path)

  /** `CompactBlock::commitments`. */
  function Commitments(b: Block): seq<Digest> {
    Cmus(TxsOutputs(b.height, b.txs))
  }

  predicate Appendable(key: Key, leaves: seq<Digest>, cmus: seq<Digest>) {
    && |leaves| + |cmus| <= TREE_CAPACITY
    && forall i :: 0 <= i < |cmus| ==> key.validCmu(cmus[i])
  }

  function ApplyBlock(key: Key, p: Path, height: nat, cmus: seq<Digest>): Option<Path> {
    if height != Min(p.height + 1, MAX_U32) || !Appendable(key, p.leaves, cmus) then None
    else Some(Path(p.leaves + cmus, p.marked, height))
  }

  function ApplyBlocks(key: Key, p: Path, blocks: seq<Block>): Option<Path> {
    if blocks == [] then Some(p)
    else
      match ApplyBlocks(key, p, blocks[..|blocks| - 1])
      case None => None
      case Some(q) =>
        var b := blocks[|blocks| - 1];
        if b.height > MAX_U32 then None else ApplyBlock(key, q, b.height, Commitments(b))
  }

  /** Advance from `next` to the anchor, chunk by chunk. */
  function AdvanceTo(light: Light, key: Key, p: Path, next: nat, anchor: nat): Option<Path>
    decreases anchor + 1 - next
  {
    if anchor < next then Some(p)
    else
      match BlockRange(light, next, ChunkEnd(next, anchor))
      case None => None
      case Some(blocks) =>
        match ApplyBlocks(key, p, blocks)
        case None => None
        case Some(q) => AdvanceTo(light, key, q, ChunkEnd(next, anchor) + 1, anchor)
  }

  function WitnessOutcome(light: Light, key: Key, note: Note, anchor: nat): Option<Witnessed>
    requires 1 <= note.height
  {
    if anchor < note.height then None
    else
      match (light.treeState(note.height - 1), BlockRange(light, note.height, note.height))
      case (Some(TreeReply(Some(leaves), _)), Some(own)) =>
        var cmus := Commitments(own[0]);
        if note.position < |leaves| || note.position - |leaves| >= |cmus| then None
        else if note.height > MAX_U32 || !Appendable(key, leaves, cmus) then None
        else
          (match AdvanceTo(light, key, Path(leaves + cmus, note.position, note.height), note.height + 1, anchor)
           case None => None
           case Some(path) => Some(Witnessed(leaves, cmus, note.position - |leaves|, path)))
      case _ => None
  }

  class NoteWitness {
    var leaves: seq<Digest>
    const marked: nat
    var height: nat

    function State(): Path
      reads this
    {
      Path(leaves, marked, height)
    }

    /** Position the note among its block's commitments; the block must have been checked to fit. */
    constructor (before: seq<Digest>, cmus: seq<Digest>, index: nat, blockHeight: nat)
      requires index < |cmus|
      ensures State() == Path(before + cmus, |before| + index, blockHeight)
    {
      leaves, marked, height := before + cmus, |before| + index, blockHeight;
    }

    /** Refuses any height but the next one. */
    method Apply(key: Key, at: nat, cmus: seq<Digest>) returns (ok: bool)
      modifies this
      ensures ok <==> ApplyBlock(key, old(State()), at, cmus).Some?
      ensures ok ==> State() == ApplyBlock(key, old(State()), at, cmus).value
    {
      if at != Min(height + 1, MAX_U32) || |leaves| + |cmus| > TREE_CAPACITY {
        return false;
      }
      ghost var before := leaves;
      for i := 0 to |cmus|
        invariant leaves == before + cmus[..i] && height == old(height)
        invariant forall j :: 0 <= j < i ==> key.validCmu(cmus[j])
      {
        if !key.validCmu(cmus[i]) {
          return false;
        }
        leaves := leaves + [cmus[i]];
      }
      height := at;
      ok := true;
    }
  }

  /** The inner loop: every block of a chunk, once, in the order served. */
  method ApplyChunk(key: Key, w: NoteWitness, blocks: seq<Block>) returns (ok: bool)
    modifies w
    ensures ok <==> ApplyBlocks(key, old(w.State()), blocks).Some?
    ensures ok ==> w.State() == ApplyBlocks(key, old(w.State()), blocks).value
  {
    for i := 0 to |blocks|
      invariant ApplyBlocks(key, old(w.State()), blocks[..i]) == Some(w.State())
    {
      assert blocks[..i + 1][..i] == blocks[..i];
      ghost var before := w.State();
      ok := false;
      if blocks[i].height <= MAX_U32 {
        ok := w.Apply(key, blocks[i].height, Commitments(blocks[i]));
      }
      if !ok {
        NoneStaysNone(key, old(w.State()), blocks, i + 1);
        return false;
      }
    }
    assert blocks[..|blocks|] == blocks;
    ok := true;
  }

  lemma {:induction false} NoneStaysNone(key: Key, p: Path, blocks: seq<Block>, n: nat)
    requires n <= |blocks| && ApplyBlocks(key, p, blocks[..n]).None?
    ensures ApplyBlocks(key, p, blocks).None?
  {
    if n == |blocks| {
      assert blocks[..n] == blocks;
    } else {
      assert blocks[..|blocks| - 1][..n] == blocks[..n];
      NoneStaysNone(key, p, blocks[..|blocks| - 1], n);
    }
  }

  method WitnessNote(light: Light, key: Key, note: Note, anchor: nat) returns (r: Option<Witnessed>)
    requires 1 <= note.height && anchor + SCAN_CHUNK <= MAX_U64
    ensures r == WitnessOutcome(light, key, note, anchor)
  {
    if anchor < note.height {
      return None;
    }
    var tree := light.treeState(note.height - 1);
    if tree.None? || tree.value.parsed.None? {
      return None;
    }
    var own := BlockRange(light, note.height, note.height);
    if own.None? {
      return None;
    }
    assert |Heights(own.value)| == 1;
    var before, cmus := tree.value.parsed.value, Commitments(own.value[0]);
    if note.position < |before| || note.position - |before| >= |cmus| {
      return None;
    }
    var index := note.position - |before|;
    if note.height > MAX_U32 || !Appendable(key, before, cmus) {
      return None;
    }
    var w := new NoteWitness(before, cmus, index, note.height);
    var next := note.height + 1;
    ghost var goal := AdvanceTo(light, key, w.State(), next, anchor);
    while next <= anchor
      invariant note.height < next <= anchor + 1
      invariant AdvanceTo(light, key, w.State(), next, anchor) == goal
      invariant fresh(w)
    {
      var blocks := BlockRange(light, next, ChunkEnd(next, anchor));
      if blocks.None? {
        return None;
      }
      var ok := ApplyChunk(key, w, blocks.value);
      if !ok {
        return None;
      }
      next := ChunkEnd(next, anchor) + 1;
    }
    return Some(Witnessed(before, cmus, index, w.State()));
  }

  // ---------------------------------------------------------------- what a witness takes in

  /** The heights that follow `height`, one by one; the last 32-bit height follows itself. */
  predicate Follow(blocks: seq<Block>, height: nat) {
    forall i :: 0 <= i < |blocks| ==> blocks[i].height == Min(height + 1 + i, MAX_U32)
  }

  /**
    Blocks are taken in exactly when their heights follow one by one, their commitments are canonical and
    the tree has room for them; and then the witness has all their outputs as further leaves and the mark where it was.
   */
  lemma {:induction false} AppliedIff(key: Key, p: Path, blocks: seq<Block>)
    requires p.height <= MAX_U32 && |p.leaves| <= TREE_CAPACITY
    ensures ApplyBlocks(key, p, blocks).Some? <==>
      Follow(blocks, p.height) && AllCanonical(key, blocks) && |p.leaves| + Size(blocks) <= TREE_CAPACITY
    ensures ApplyBlocks(key, p, blocks).Some? ==>
      ApplyBlocks(key, p, blocks).value
        == Path(p.leaves + Cmus(Outputs(blocks)), p.marked, Min(p.height + |blocks|, MAX_U32))
  {
    hide AllCanonical, Follow, ApplyBlock, Outputs, Size, TxsSize, Cmus, Commitments;
    if blocks == [] {
      NothingApplied(key, p);
    } else {
      var front, last := blocks[..|blocks| - 1], blocks[|blocks| - 1];
      assert blocks == front + [last];
      AppliedIff(key, p, front);
      CanonicalSnoc(key, front, last);
      FollowSnoc(front, last, p.height);
      SizeSnoc(front, last);
      if ApplyBlocks(key, p, front).Some? {
        AppliedOne(key, p, front, last);
      }
    }
  }

  lemma NothingApplied(key: Key, p: Path)
    ensures Follow([], p.height) && AllCanonical(key, []) && Size([]) == 0 && p.leaves + Cmus(Outputs([])) == p.leaves
  {
  }

  lemma FollowSnoc(front: seq<Block>, last: Block, height: nat)
    ensures Follow(front + [last], height) <==> Follow(front, height) && last.height == Min(height + 1 + |front|, MAX_U32)
  {
    var blocks := front + [last];
    assert blocks[|front|] == last && forall i :: 0 <= i < |front| ==> blocks[i] == front[i];
  }

  lemma SizeSnoc(front: seq<Block>, last: Block)
    ensures Size(front + [last]) == Size(front) + |Commitments(last)|
    ensures Cmus(Outputs(front + [last])) == Cmus(Outputs(front)) + Commitments(last)
  {
    hide TxsSize, TxsOutputs;
    assert (front + [last])[..|front|] == front;
    TxsOutputsSize(last.height, last.txs);
  }

  lemma CanonicalSnoc(key: Key, front: seq<Block>, last: Block)
    ensures AllCanonical(key, front + [last]) <==>
      AllCanonical(key, front) && forall i :: 0 <= i < |Commitments(last)| ==> key.validCmu(Commitments(last)[i])
  {
    hide AllCanonical, TxsOutputs;
    CanonicalIff(key, front + [last]);
    CanonicalIff(key, front);
    var outs, more := Outputs(front), TxsOutputs(last.height, last.txs);
    assert (front + [last])[..|front|] == front;
    assert Outputs(front + [last]) == outs + more;
    assert forall i :: 0 <= i < |outs| ==> (outs + more)[i] == outs[i];
    assert forall i :: 0 <= i < |more| ==> (outs + more)[|outs| + i] == more[i] && Commitments(last)[i] == more[i].output.cmu;
  }

  lemma AppliedOne(key: Key, p: Path, front: seq<Block>, last: Block)
    requires p.height <= MAX_U32
    ensures var q := Path(p.leaves + Cmus(Outputs(front)), p.marked, Min(p.height + |front|, MAX_U32));
      var valid := forall i :: 0 <= i < |Commitments(last)| ==> key.validCmu(Commitments(last)[i]);
      && (last.height <= MAX_U32 && ApplyBlock(key, q, last.height, Commitments(last)).Some? <==>
            && last.height == Min(p.height + 1 + |front|, MAX_U32) && valid
            && |p.leaves| + |Cmus(Outputs(front))| + |Commitments(last)| <= TREE_CAPACITY)
      && (ApplyBlock(key, q, last.height, Commitments(last)).Some? ==>
            ApplyBlock(key, q, last.height, Commitments(last)).value
              == Path(p.leaves + Cmus(Outputs(front + [last])), p.marked, Min(p.height + 1 + |front|, MAX_U32)))
    ensures |Cmus(Outputs(front))| == Size(front)
  {
    hide Outputs, Size, Commitments;
    OutputsSize(front);
    SizeSnoc(front, last);
    Regroup(p.leaves, Cmus(Outputs(front)), Commitments(last));
  }

  // ---------------------------------------------------------------- scan and witness agree

  lemma OutputsUpTo(chain: seq<Block>, h: nat)
    requires h < |chain|
    ensures Outputs(chain[..h + 1]) == Outputs(chain[..h]) + TxsOutputs(chain[h].height, chain[h].txs)
    ensures Cmus(Outputs(chain[..h + 1])) == Cmus(Outputs(chain[..h])) + Commitments(chain[h])
  {
    assert chain[..h + 1][..h] == chain[..h];
  }

  lemma OutputsPrefix(chain: seq<Block>, h: nat)
    requires h <= |chain|
    ensures |Outputs(chain[..h])| <= |Outputs(chain)|
    ensures Outputs(chain)[..|Outputs(chain[..h])|] == Outputs(chain[..h])
  {
    OutputsConcat(chain[..h], chain[h..]);
    assert chain[..h] + chain[h..] == chain;
  }

  /** Appending the commitments of block `h` to a path that ends below it. */
  lemma HonestApply(key: Key, chain: seq<Block>, p: Path, h: nat)
    requires Linked(chain) && AllValid(key, Outputs(chain)) && |Outputs(chain)| <= TREE_CAPACITY
    requires 1 <= h < |chain| && h <= MAX_U32
    requires p.leaves == Cmus(Outputs(chain[..h])) && p.height == h - 1
    ensures ApplyBlock(key, p, h, Commitments(chain[h])) == Some(Path(Cmus(Outputs(chain[..h + 1])), p.marked, h))
  {
    hide Outputs, TxsOutputs;
    OutputsUpTo(chain, h);
    OutputsPrefix(chain, h + 1);
    var n, cmus := |Outputs(chain[..h])|, Commitments(chain[h]);
    forall i | 0 <= i < |cmus|
      ensures key.validCmu(cmus[i])
    {
      assert cmus[i] == Cmus(Outputs(chain[..h + 1]))[n + i] == Outputs(chain)[n + i].output.cmu;
    }
  }

  lemma PieceEnds(chain: seq<Block>, lo: nat, hi: nat)
    requires lo < hi <= |chain|
    ensures chain[lo..hi] != [] && chain[lo..hi][..hi - lo - 1] == chain[lo..hi - 1] && chain[lo..hi][hi - lo - 1] == chain[hi - 1]
    ensures Linked(chain) ==> chain[hi - 1].height == hi - 1
  {
  }

  lemma {:induction false} HonestBlocks(key: Key, chain: seq<Block>, p: Path, lo: nat, hi: nat)
    requires Linked(chain) && AllValid(key, Outputs(chain)) && |Outputs(chain)| <= TREE_CAPACITY
    requires 1 <= lo <= hi <= |chain| <= MAX_U32 + 1
    requires p.leaves == Cmus(Outputs(chain[..lo])) && p.height == lo - 1
    ensures ApplyBlocks(key, p, chain[lo..hi]) == Some(Path(Cmus(Outputs(chain[..hi])), p.marked, hi - 1))
    decreases hi
  {
    hide Outputs, ApplyBlock, AllValid, Cmus, Linked;
    if lo < hi {
      PieceEnds(chain, lo, hi);
      HonestBlocks(key, chain, p, lo, hi - 1);
      HonestApply(key, chain, Path(Cmus(Outputs(chain[..hi - 1])), p.marked, hi - 2), hi - 1);
    }
  }

  lemma {:induction false} HonestAdvance(light: Light, key: Key, chain: seq<Block>, p: Path, next: nat, anchor: nat)
    requires Honest(light, key, chain) && |Outputs(chain)| <= TREE_CAPACITY
    requires 1 <= next <= anchor + 1 <= |chain| <= MAX_U32 + 1
    requires p.leaves == Cmus(Outputs(chain[..next])) && p.height == next - 1
    ensures AdvanceTo(light, key, p, next, anchor) == Some(Path(Cmus(Outputs(chain[..anchor + 1])), p.marked, anchor))
    decreases anchor + 1 - next
  {
    hide Outputs, ApplyBlocks, AllValid, Cmus;
    if next <= anchor {
      var end := ChunkEnd(next, anchor);
      assert light.blocks(next, end) == Some(chain[next..end + 1]);
      HonestBlocks(key, chain, p, next, end + 1);
      HonestAdvance(light, key, chain, Path(Cmus(Outputs(chain[..end + 1])), p.marked, end), end + 1, anchor);
    }
  }

  /** A scanned note sits among its own block's leaves, and is the output at its position. */
  lemma NotePosition(key: Key, chain: seq<Block>, from: nat, to: nat, note: Note)
    requires Linked(chain) && from <= to < |chain| && note in Reference(key, chain, from, to).notes
    ensures from <= note.height <= to
    ensures |Outputs(chain[..note.height])| <= note.position < |Outputs(chain[..note.height + 1])|
    ensures note.position < |Outputs(chain)|
    ensures IsNoteOf(key, Outputs(chain)[note.position], note)
  {
    hide Outputs, IsNoteOf, Detect, Nullifiers, Checkpoints, LastN;
    var base, outs, all := |Outputs(chain[..from])|, Outputs(chain[from..to + 1]), Outputs(chain);
    DetectedAt(key, base, outs, note);
    assert chain[..from] + chain[from..to + 1] == chain[..to + 1];
    OutputsConcat(chain[..from], chain[from..to + 1]);
    OutputsPrefix(chain, to + 1);
    assert all[note.position] == Outputs(chain[..to + 1])[note.position] == outs[note.position - base];
    NoteHasHeight(key, outs[note.position - base], note);
    OutputHeights(chain, from, to + 1);
    assert outs[note.position - base] in outs;
    HeightsAroundBlock(chain, note.height);
  }

  lemma NoteHasHeight(key: Key, out: CompactOutput, n: Note)
    requires IsNoteOf(key, out, n)
    ensures n.height == out.height
  {
  }

  /** Leaves before a block's own are from lower blocks, leaves after them from higher ones. */
  lemma HeightsAroundBlock(chain: seq<Block>, h: nat)
    requires Linked(chain) && h < |chain|
    ensures |Outputs(chain[..h + 1])| <= |Outputs(chain)|
    ensures forall i :: 0 <= i < |Outputs(chain[..h])| && i < |Outputs(chain)| ==> Outputs(chain)[i].height < h
    ensures forall i :: |Outputs(chain[..h + 1])| <= i < |Outputs(chain)| ==> Outputs(chain)[i].height > h
  {
    hide Outputs;
    var below, above := Outputs(chain[..h]), Outputs(chain[h + 1..]);
    OutputsPrefix(chain, h);
    OutputsConcat(chain[..h + 1], chain[h + 1..]);
    assert chain[..h + 1] + chain[h + 1..] == chain && chain[h + 1..|chain|] == chain[h + 1..] && chain[0..h] == chain[..h];
    OutputHeights(chain, 0, h);
    OutputHeights(chain, h + 1, |chain|);
    forall i | 0 <= i < |below|
      ensures i < |Outputs(chain)| && Outputs(chain)[i].height < h
    {
      assert Outputs(chain)[i] == Outputs(chain)[..|below|][i] == below[i] && below[i] in below;
    }
    forall i | |Outputs(chain[..h + 1])| <= i < |Outputs(chain)|
      ensures Outputs(chain)[i].height > h
    {
      assert above[i - |Outputs(chain[..h + 1])|] in above;
    }
  }

  /** What a truthful server says about a block and the tree before it. */
  lemma HonestBlock(light: Light, key: Key, chain: seq<Block>, h: nat)
    requires Honest(light, key, chain) && 1 <= h < |chain|
    ensures light.treeState(h - 1) == Some(TreeReply(Some(Cmus(Outputs(chain[..h]))), Some(|Outputs(chain[..h])|)))
    ensures BlockRange(light, h, h) == Some([chain[h]])
    ensures Linked(chain) && AllValid(key, Outputs(chain))
  {
    hide Outputs, AllValid;
    assert chain[..h - 1 + 1] == chain[..h];
    assert light.blocks(h, h) == Some(chain[h..h + 1]) && chain[h..h + 1] == [chain[h]];
  }

  /** Scan and witness agree: a note the scan reports is found at its own commitment, and the tree it
      is witnessed in holds exactly the commitments of every block through the anchor. */
  lemma ScanAndWitnessAgree(light: Light, key: Key, chain: seq<Block>, from: nat, to: nat, note: Note, anchor: nat)
    requires Honest(light, key, chain) && |chain| <= MAX_U32 + 1 && |Outputs(chain)| <= TREE_CAPACITY
    requires 1 <= from <= to < |chain| && note in Reference(key, chain, from, to).notes
    requires note.height <= anchor < |chain|
    ensures note.position < |Outputs(chain)|
    ensures IsNoteOf(key, Outputs(chain)[note.position], note)
    ensures 1 <= note.height
    ensures var r := WitnessOutcome(light, key, note, anchor);
      && r.Some?
      && r.value.index < |r.value.blockCmus|
      && r.value.blockCmus[r.value.index] == Outputs(chain)[note.position].output.cmu
      && r.value.path == Path(Cmus(Outputs(chain[..anchor + 1])), note.position, anchor)
  {
    hide Outputs, Reference, IsNoteOf, TxsOutputs, AdvanceTo, AllValid, Honest, Linked, BlockRange;
    HonestBlock(light, key, chain, from);
    NotePosition(key, chain, from, to, note);
    var h := note.height;
    HonestBlock(light, key, chain, h);
    var start := Path(Cmus(Outputs(chain[..h])), note.position, h - 1);
    OutputsUpTo(chain, h);
    OutputsPrefix(chain, h + 1);
    HonestApply(key, chain, start, h);
    assert Cmus(Outputs(chain[..h + 1]))[note.position] == Outputs(chain)[note.position].output.cmu;
    HonestAdvance(light, key, chain, Path(Cmus(Outputs(chain[..h + 1])), note.position, h), h + 1, anchor);
  }
}
