/**
  Scanning a block range, chunk by chunk.

  `ScanFrom` is the simple form: it keeps every block it accepted and trims nothing.
  `ScanFollowing` is the loop of the source, which trims its checkpoints after every chunk and
  keeps only running lists; it is proved to return what the simple form returns.
 */
module Scan {
  import opened Base
  import opened Chain

  const SCAN_CHUNK: nat := 1_000
  const REORG_CHECKPOINTS: nat := 200

  /** One `GetTreeState` reply: the parsed commitment tree (as the leaves it stands for) and the
      independent leaf count, either of which may fail to parse. */
  datatype TreeReply = TreeReply(parsed: Option<seq<Digest>>, counted: Option<nat>)

  /** A light server, as the answers it gives. */
  datatype Light = Light(treeState: nat -> Option<TreeReply>, blocks: (nat, nat) -> Option<seq<Block>>)

  datatype ScanError = Reorged | NotReady | Shielded

  datatype ScanState = ScanState(notes: seq<Note>, nullifiers: seq<SeenNullifier>,
                                 from: nat, to: nat, tipHash: Digest, checkpoints: seq<Checkpoint>)

  /** What a scan accepted, before anything is trimmed or flattened. */
  datatype Walk = Walk(blocks: seq<Block>, notes: seq<Note>)

  function Heights(blocks: seq<Block>): seq<nat> {
    seq(|blocks|, i requires 0 <= i < |blocks| => blocks[i].height)
  }

  /** `LightClient::block_range`: a complete range or nothing (see module LightClient). */
  function BlockRange(light: Light, start: nat, end: nat): (r: Option<seq<Block>>)
    ensures r.Some? ==> CompleteRange(Heights(r.value), start, end)
  {
    match light.blocks(start, end)
    case None => None
    case Some(bs) => if CompleteRange(Heights(bs), start, end) then Some(bs) else None
  }

  /** Every block names the one before it; the first names `prev` when there is one. */
  predicate LinkedAfter(prev: Option<Digest>, blocks: seq<Block>) {
    && (|blocks| > 0 && prev.Some? ==> blocks[0].prevHash == prev.value)
    && (forall i :: 0 < i < |blocks| ==> blocks[i].prevHash == blocks[i - 1].hash)
  }

  function LastHash(blocks: seq<Block>, otherwise: Digest): Digest {
    if blocks == [] then otherwise else blocks[|blocks| - 1].hash
  }

  /** One chunk: the frontier before it, its blocks, and every check the source makes. */
  function ScanChunk(light: Light, key: Key, start: nat, end: nat, prev: Option<Digest>): (r: Result<Walk, ScanError>)
    requires 1 <= start <= end
    ensures r.Ok? ==> CompleteRange(Heights(r.value.blocks), start, end) && LinkedAfter(prev, r.value.blocks)
  {
    match light.treeState(start - 1)
    case None => Err(Shielded)
    case Some(tree) =>
      if tree.parsed.None? || tree.counted.None? || tree.counted.value != |tree.parsed.value| then Err(Shielded)
      else
        match BlockRange(light, start, end)
        case None => Err(Shielded)
        case Some(blocks) =>
          var base, outs := |tree.parsed.value|, Outputs(blocks);
          var reported := blocks[|blocks| - 1].treeSize;
          if !LinkedAfter(prev, blocks) then Err(Reorged)
          else if reported.Some? && reported.value != base + |outs| then Err(Shielded)
          else if !AllValid(key, outs) then Err(Shielded)
          else Ok(Walk(blocks, Detect(key, base, outs)))
  }

  /** The tree before the chunk parses, and its size is the leaf count the message gives by another route. */
  predicate TreeAgrees(light: Light, before: nat) {
    var tree := light.treeState(before);
    tree.Some? && tree.value.parsed.Some? && tree.value.counted == Some(|tree.value.parsed.value|)
  }

  /** The blocks of the chunk came complete, and the size the last one reports, if it does, is that of the tree after them. */
  ghost predicate SizeAgrees(light: Light, start: nat, end: nat)
    requires 1 <= start <= end && TreeAgrees(light, start - 1)
  {
    var blocks := light.blocks(start, end);
    && blocks.Some? && CompleteRange(Heights(blocks.value), start, end)
    && var reported := blocks.value[|blocks.value| - 1].treeSize;
       reported.Some? ==> reported.value == |light.treeState(start - 1).value.parsed.value| + Size(blocks.value)
  }

  /** The chunk came complete and continues what was scanned before. */
  predicate ChunkLinks(light: Light, start: nat, end: nat, prev: Option<Digest>) {
    var blocks := light.blocks(start, end);
    && blocks.Some? && CompleteRange(Heights(blocks.value), start, end)
    && (forall i :: 0 < i < |blocks.value| ==> blocks.value[i].prevHash == blocks.value[i - 1].hash)
    && (prev.Some? && |blocks.value| > 0 ==> blocks.value[0].prevHash == prev.value)
  }

  /**
    For any server: a chunk is accepted exactly when the two readings of the tree before it agree, its
    blocks are the whole range and link up, a reported tree size is the right one, and all commitments are
    canonical; and then the notes are the report of its outputs from that tree size on.
   */
  lemma ChunkAcceptedIff(light: Light, key: Key, start: nat, end: nat, prev: Option<Digest>)
    requires 1 <= start <= end
    ensures ScanChunk(light, key, start, end, prev).Ok? <==>
      && TreeAgrees(light, start - 1) && SizeAgrees(light, start, end)
      && ChunkLinks(light, start, end, prev) && AllCanonical(key, light.blocks(start, end).value)
    ensures ScanChunk(light, key, start, end, prev).Ok? ==>
      var w := ScanChunk(light, key, start, end, prev).value;
      && light.blocks(start, end) == Some(w.blocks)
      && Reports(key, |light.treeState(start - 1).value.parsed.value|, Outputs(w.blocks), w.notes)
    ensures ScanChunk(light, key, start, end, prev) == Err(Reorged) <==>
      && TreeAgrees(light, start - 1) && BlockRange(light, start, end).Some? && !ChunkLinks(light, start, end, prev)
  {
    hide Outputs, Size, AllValid, AllCanonical, Reports, Detect;
    if BlockRange(light, start, end).Some? {
      OutputsSize(BlockRange(light, start, end).value);
      CanonicalIff(key, BlockRange(light, start, end).value);
    }
    if ScanChunk(light, key, start, end, prev).Ok? {
      var w := ScanChunk(light, key, start, end, prev).value;
      DetectReports(key, |light.treeState(start - 1).value.parsed.value|, Outputs(w.blocks));
    }
  }

  function ChunkEnd(start: nat, tip: nat): nat {
    Min(start + SCAN_CHUNK - 1, tip)
  }

  /** The whole range, chunk after chunk. */
  function ScanFrom(light: Light, key: Key, start: nat, tip: nat, prev: Option<Digest>): Result<Walk, ScanError>
    requires 1 <= start
    decreases tip + 1 - start
  {
    if tip < start then Ok(Walk([], []))
    else
      var end := ChunkEnd(start, tip);
      match ScanChunk(light, key, start, end, prev)
      case Err(e) => Err(e)
      case Ok(w) => Extend(w, ScanFrom(light, key, end + 1, tip, Some(LastHash(w.blocks, 0))))
  }

  function Extend(w: Walk, rest: Result<Walk, ScanError>): Result<Walk, ScanError> {
    match rest
    case Err(e) => Err(e)
    case Ok(v) => Ok(Walk(w.blocks + v.blocks, w.notes + v.notes))
  }

  /** Where the `k`th chunk of a scan starts. */
  function ChunkStart(start: nat, k: nat): nat {
    start + k * SCAN_CHUNK
  }

  /** So for any server an accepted scan has had both checks of the tree size made on every one of its chunks. */
  lemma {:induction false} AcceptedScanIsSized(light: Light, key: Key, start: nat, tip: nat, prev: Option<Digest>, k: nat)
    requires 1 <= start && ScanFrom(light, key, start, tip, prev).Ok? && ChunkStart(start, k) <= tip
    ensures var from := ChunkStart(start, k);
      TreeAgrees(light, from - 1) && SizeAgrees(light, from, ChunkEnd(from, tip))
    decreases k
  {
    hide ScanChunk, TreeAgrees, SizeAgrees;
    var end := ChunkEnd(start, tip);
    if k == 0 {
      ChunkAcceptedIff(light, key, start, end, prev);
    } else {
      var w := ScanChunk(light, key, start, end, prev).value;
      AcceptedScanIsSized(light, key, end + 1, tip, Some(LastHash(w.blocks, 0)), k - 1);
    }
  }

  /** The result a walk stands for: flattened nullifiers, the tip, and the last 200 checkpoints. */
  function StateOf(from: nat, to: nat, w: Walk): ScanState {
    ScanState(w.notes, Nullifiers(w.blocks), from, to, LastHash(w.blocks, 0),
              LastN(Checkpoints(w.blocks), REORG_CHECKPOINTS))
  }

  function ScanOutcome(light: Light, key: Key, from: nat, to: nat, follows: Option<Digest>): Result<ScanState, ScanError> {
    if to < from || from == 0 then Err(Shielded)
    else
      match ScanFrom(light, key, from, to, follows)
      case Err(e) => Err(e)
      case Ok(w) => Ok(StateOf(from, to, w))
  }

  /** There is no scan of an empty range, nor of block 0. */
  lemma ScansAreRanges(light: Light, key: Key, from: nat, to: nat, follows: Option<Digest>)
    ensures ScanOutcome(light, key, from, to, follows).Ok? ==> 1 <= from <= to
  {
    hide ScanFrom, StateOf;
  }

  // ---------------------------------------------------------------- the loops of the source

  lemma NothingDetected(key: Key, base: nat)
    ensures Detect(key, base, []) == []
  {
  }

  method DetectNotes(key: Key, base: nat, outs: seq<CompactOutput>) returns (found: Option<seq<Note>>)
    ensures found == if AllValid(key, outs) then Some(Detect(key, base, outs)) else None
  {
    hide Detect, DetectOne;
    var notes := [];
    NothingDetected(key, base);
    for i := 0 to |outs|
      invariant notes == Detect(key, base, outs[..i])
      invariant AllValid(key, outs[..i])
    {
      if !key.validCmu(outs[i].output.cmu) {
        return None;
      }
      assert outs[..i + 1] == outs[..i] + [outs[i]];
      DetectSnoc(key, base, outs[..i], outs[i]);
      notes := notes + DetectOne(key, base + i, outs[i]);
    }
    assert outs[..|outs|] == outs;
    return Some(notes);
  }

  method Flatten(blocks: seq<Block>) returns (nullifiers: seq<SeenNullifier>, outputs: seq<CompactOutput>)
    ensures nullifiers == Nullifiers(blocks) && outputs == Outputs(blocks)
  {
    nullifiers, outputs := [], [];
    for i := 0 to |blocks|
      invariant nullifiers == Nullifiers(blocks[..i]) && outputs == Outputs(blocks[..i])
    {
      var b := blocks[i];
      for j := 0 to |b.txs|
        invariant nullifiers == Nullifiers(blocks[..i]) + TxsNullifiers(b.height, b.txs[..j])
        invariant outputs == Outputs(blocks[..i]) + TxsOutputs(b.height, b.txs[..j])
      {
        assert b.txs[..j + 1][..j] == b.txs[..j];
        nullifiers := nullifiers + TxNullifiers(b.height, b.txs[j]);
        outputs := outputs + TxOutputs(b.height, b.txs[j]);
      }
      assert b.txs[..|b.txs|] == b.txs && blocks[..i + 1][..i] == blocks[..i];
    }
    assert blocks[..|blocks|] == blocks;
  }

  /** The chaining loop: checks each block against the one before it and records its hash. */
  method CheckLinks(blocks: seq<Block>, prev: Option<Digest>)
    returns (ok: bool, previous: Option<Digest>, checkpoints: seq<Checkpoint>)
    ensures ok <==> LinkedAfter(prev, blocks)
    ensures ok ==> checkpoints == Checkpoints(blocks)
    ensures ok && blocks != [] ==> previous == Some(LastHash(blocks, 0))
  {
    previous, checkpoints := prev, [];
    for i := 0 to |blocks|
      invariant LinkedAfter(prev, blocks[..i])
      invariant checkpoints == Checkpoints(blocks[..i])
      invariant previous == if i == 0 then prev else Some(blocks[i - 1].hash)
    {
      var b := blocks[i];
      if previous.Some? && b.prevHash != previous.value {
        return false, previous, checkpoints;
      }
      previous := Some(b.hash);
      checkpoints := checkpoints + [Checkpoint(b.height, b.hash)];
    }
    assert blocks[..|blocks|] == blocks;
    ok := true;
  }

  lemma ExtendAssoc(v: Walk, w: Walk, rest: Result<Walk, ScanError>)
    ensures Extend(v, Extend(w, rest)) == Extend(Walk(v.blocks + w.blocks, v.notes + w.notes), rest)
  {
    if rest.Ok? {
      assert v.blocks + (w.blocks + rest.value.blocks) == (v.blocks + w.blocks) + rest.value.blocks;
      assert v.notes + (w.notes + rest.value.notes) == (v.notes + w.notes) + rest.value.notes;
    }
  }

  lemma ExtendNothing(rest: Result<Walk, ScanError>)
    ensures Extend(Walk([], []), rest) == rest
  {
    if rest.Ok? {
      assert [] + rest.value.blocks == rest.value.blocks;
      assert [] + rest.value.notes == rest.value.notes;
    }
  }

  lemma CheckpointsConcat(a: seq<Block>, b: seq<Block>)
    ensures Checkpoints(a + b) == Checkpoints(a) + Checkpoints(b)
  {
    assert Checkpoints(a + b) == Checkpoints(a) + Checkpoints(b);
  }

  /** What the scan loop carries, for the chunks accepted so far. */
  ghost predicate Carries(seen: Walk, nullifiers: seq<SeenNullifier>, checkpoints: seq<Checkpoint>, tipHash: Digest) {
    && nullifiers == Nullifiers(seen.blocks)
    && checkpoints == LastN(Checkpoints(seen.blocks), REORG_CHECKPOINTS)
    && tipHash == LastHash(seen.blocks, 0)
  }

  /** Trimming after every chunk is trimming once at the end. */
  lemma CarriesChunk(seen: Walk, nullifiers: seq<SeenNullifier>, checkpoints: seq<Checkpoint>, tipHash: Digest, w: Walk)
    requires Carries(seen, nullifiers, checkpoints, tipHash) && w.blocks != []
    ensures Carries(Walk(seen.blocks + w.blocks, seen.notes + w.notes),
                    nullifiers + Nullifiers(w.blocks),
                    LastN(checkpoints + Checkpoints(w.blocks), REORG_CHECKPOINTS),
                    LastHash(w.blocks, 0))
  {
    NullifiersConcat(seen.blocks, w.blocks);
    CheckpointsConcat(seen.blocks, w.blocks);
    LastNConcat(Checkpoints(seen.blocks), Checkpoints(w.blocks), REORG_CHECKPOINTS);
  }

  /** One more chunk, read off the recursion from the front. */
  lemma ScanStep(light: Light, key: Key, start: nat, to: nat, prev: Option<Digest>, seen: Walk, w: Walk)
    requires 1 <= start <= to && ScanChunk(light, key, start, ChunkEnd(start, to), prev) == Ok(w)
    ensures w.blocks != []
    ensures Extend(seen, ScanFrom(light, key, start, to, prev))
         == Extend(Walk(seen.blocks + w.blocks, seen.notes + w.notes),
                   ScanFrom(light, key, ChunkEnd(start, to) + 1, to, Some(LastHash(w.blocks, 0))))
  {
    assert |Heights(w.blocks)| == ChunkEnd(start, to) - start + 1;
    ExtendAssoc(seen, w, ScanFrom(light, key, ChunkEnd(start, to) + 1, to, Some(LastHash(w.blocks, 0))));
  }

  lemma ScanStops(light: Light, key: Key, start: nat, to: nat, prev: Option<Digest>, seen: Walk)
    requires 1 <= start
    ensures start <= to && ScanChunk(light, key, start, ChunkEnd(start, to), prev).Err? ==>
      Extend(seen, ScanFrom(light, key, start, to, prev)) == Err(ScanChunk(light, key, start, ChunkEnd(start, to), prev).error)
    ensures to < start ==> Extend(seen, ScanFrom(light, key, start, to, prev)) == Ok(seen)
  {
    assert seen.blocks + [] == seen.blocks && seen.notes + [] == seen.notes;
  }

  /** One chunk as the loop body does it; the frontier reply has already been read. */
  method ChunkStep(light: Light, key: Key, start: nat, end: nat, prev: Option<Digest>)
    returns (r: Result<Walk, ScanError>, nullifiers: seq<SeenNullifier>, checkpoints: seq<Checkpoint>)
    requires 1 <= start <= end
    ensures r == ScanChunk(light, key, start, end, prev)
    ensures r.Ok? ==> nullifiers == Nullifiers(r.value.blocks) && checkpoints == Checkpoints(r.value.blocks)
  {
    nullifiers, checkpoints := [], [];
    var tree := light.treeState(start - 1);
    if tree.None? || tree.value.parsed.None? || tree.value.counted.None? {
      return Err(Shielded), nullifiers, checkpoints;
    }
    var base := |tree.value.parsed.value|;
    if tree.value.counted.value != base {
      return Err(Shielded), nullifiers, checkpoints;
    }
    var blocks := BlockRange(light, start, end);
    if blocks.None? {
      return Err(Shielded), nullifiers, checkpoints;
    }
    var ok, _, links := CheckLinks(blocks.value, prev);
    if !ok {
      return Err(Reorged), nullifiers, checkpoints;
    }
    var seen, outs := Flatten(blocks.value);
    var reported := blocks.value[|blocks.value| - 1].treeSize;
    if reported.Some? && reported.value != base + |outs| {
      return Err(Shielded), nullifiers, checkpoints;
    }
    var notes := DetectNotes(key, base, outs);
    if notes.None? {
      return Err(Shielded), nullifiers, checkpoints;
    }
    return Ok(Walk(blocks.value, notes.value)), seen, links;
  }

  /** The scan loop. The source does not check `chunk_start + SCAN_CHUNK - 1`, hence the bound on `to`. */
  method ScanLoop(light: Light, key: Key, from: nat, to: nat, follows: Option<Digest>)
    returns (r: Result<ScanState, ScanError>)
    requires 1 <= from <= to && to + SCAN_CHUNK <= MAX_U64
    ensures r == ScanOutcome(light, key, from, to, follows)
  {
    hide ScanFrom, ScanChunk;
    var notes: seq<Note>, nullifiers: seq<SeenNullifier>, checkpoints: seq<Checkpoint> := [], [], [];
    ghost var seen := Walk([], []);
    var tipHash: Digest, previous, start := 0, follows, from;
    ExtendNothing(ScanFrom(light, key, from, to, follows));
    while start <= to
      invariant from <= start <= to + 1
      invariant Extend(seen, ScanFrom(light, key, start, to, previous)) == ScanFrom(light, key, from, to, follows)
      invariant notes == seen.notes && Carries(seen, nullifiers, checkpoints, tipHash)
      decreases 1 + to - start
    {
      var chunk, found, links := ChunkStep(light, key, start, ChunkEnd(start, to), previous);
      if chunk.Err? {
        ScanStops(light, key, start, to, previous, seen);
        return Err(chunk.error);
      }
      var w := chunk.value;
      ScanStep(light, key, start, to, previous, seen, w);
      CarriesChunk(seen, nullifiers, checkpoints, tipHash, w);
      checkpoints := LastN(checkpoints + links, REORG_CHECKPOINTS);
      nullifiers := nullifiers + found;
      tipHash := LastHash(w.blocks, 0);
      notes, previous := notes + w.notes, Some(tipHash);
      seen := Walk(seen.blocks + w.blocks, notes);
      start := ChunkEnd(start, to) + 1;
    }
    ScanStops(light, key, start, to, previous, seen);
    return Ok(ScanState(notes, nullifiers, from, to, tipHash, checkpoints));
  }

  method ScanFollowing(light: Light, key: Key, from: nat, to: nat, follows: Option<Digest>)
    returns (r: Result<ScanState, ScanError>)
    requires to + SCAN_CHUNK <= MAX_U64
    ensures r == ScanOutcome(light, key, from, to, follows)
  {
    if to < from || from == 0 {
      return Err(Shielded);
    }
    r := ScanLoop(light, key, from, to, follows);
  }
}
