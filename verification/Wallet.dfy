/**
  The persisted wallet: extending it with `scan_after` and `absorb`, rolling it back with
  `rewind_to`, and what is left unspent.
 */
module Wallet {
  import opened Base
  import opened Chain
  import opened Scan

  /** `scan_after`: only the tail, and only if it continues `previous`. */
  function ScanAfterOutcome(light: Light, key: Key, previous: ScanState, to: nat): Result<ScanState, ScanError> {
    if to < previous.to then Err(NotReady)
    else if to == previous.to then
      Ok(ScanState([], [], previous.to + 1, previous.to, previous.tipHash, []))
    else ScanOutcome(light, key, previous.to + 1, to, Some(previous.tipHash))
  }

  method ScanAfter(light: Light, key: Key, previous: ScanState, to: nat) returns (r: Result<ScanState, ScanError>)
    requires to + SCAN_CHUNK <= MAX_U64
    ensures r == ScanAfterOutcome(light, key, previous, to)
  {
    hide ScanOutcome;
    if to < previous.to {
      return Err(NotReady);
    }
    if to == previous.to {
      return Ok(ScanState([], [], previous.to + 1, previous.to, previous.tipHash, []));
    }
    r := ScanFollowing(light, key, previous.to + 1, to, Some(previous.tipHash));
  }

  /** The state after absorbing a tail, or nothing when the tail is refused. */
  function Absorbed(s: ScanState, next: ScanState): Option<ScanState> {
    if next.from != s.to + 1 then None
    else if next.to < next.from then Some(s)
    else if |next.checkpoints| == 0
         || next.checkpoints[|next.checkpoints| - 1] != Checkpoint(next.to, next.tipHash) then None
    else Some(ScanState(s.notes + next.notes, s.nullifiers + next.nullifiers, s.from, next.to, next.tipHash,
                        LastN(s.checkpoints + next.checkpoints, REORG_CHECKPOINTS)))
  }

  /** Only a tail that starts right above the tip is ever taken in, and only if it ends at its own last checkpoint. */
  lemma AbsorbLeavesNoGap(s: ScanState, next: ScanState)
    ensures Absorbed(s, next).Some? <==>
      && next.from == s.to + 1
      && (next.to >= next.from ==> exists front :: next.checkpoints == front + [Checkpoint(next.to, next.tipHash)])
    ensures Absorbed(s, next).Some? ==>
      var merged := Absorbed(s, next).value;
      && merged.from == s.from
      && (merged == s || (merged.to == next.to > s.to && merged.tipHash == next.tipHash
                          && merged.notes == s.notes + next.notes && merged.nullifiers == s.nullifiers + next.nullifiers))
  {
    hide LastN;
    var points := next.checkpoints;
    if points != [] {
      assert points == points[..|points| - 1] + [points[|points| - 1]];
    }
    if front: seq<Checkpoint> :| points == front + [Checkpoint(next.to, next.tipHash)] {
      assert points[|points| - 1] == Checkpoint(next.to, next.tipHash);
    }
  }

  /** Below the tip a wallet is told to wait, and at the tip what it gets changes nothing. */
  lemma NothingNew(light: Light, key: Key, s: ScanState, to: nat)
    ensures to < s.to ==> ScanAfterOutcome(light, key, s, to) == Err(NotReady)
    ensures to == s.to ==>
      ScanAfterOutcome(light, key, s, to).Ok? && Absorbed(s, ScanAfterOutcome(light, key, s, to).value) == Some(s)
  {
    hide ScanOutcome;
  }

  function FindCheckpoint(points: seq<Checkpoint>, height: nat): (r: Option<Checkpoint>)
    ensures r.Some? ==> r.value in points && r.value.height == height
    ensures r.None? ==> forall p :: p in points ==> p.height != height
  {
    if points == [] then None
    else if points[0].height == height then Some(points[0])
    else FindCheckpoint(points[1..], height)
  }

  /** The state rolled back to `height`, or nothing when no checkpoint covers it. */
  function Rewound(s: ScanState, height: nat): Option<ScanState> {
    if height > s.to then None
    else
      match FindCheckpoint(s.checkpoints, height)
      case None => None
      case Some(point) =>
        Some(ScanState(Filter(s.notes, (n: Note) => n.height <= height),
                       Filter(s.nullifiers, (n: SeenNullifier) => n.height <= height),
                       s.from, height, point.hash,
                       Filter(s.checkpoints, (p: Checkpoint) => p.height <= height)))
  }

  function EarliestRewind(s: ScanState): Option<nat> {
    if s.checkpoints == [] then None else Some(s.checkpoints[0].height)
  }

  /** The stored wallet, whose fields the two operations rewrite in place. */
  class ScanResult {
    var notes: seq<Note>
    var nullifiers: seq<SeenNullifier>
    var from: nat
    var to: nat
    var tipHash: Digest
    var checkpoints: seq<Checkpoint>

    function State(): ScanState
      reads this
    {
      ScanState(notes, nullifiers, from, to, tipHash, checkpoints)
    }

    constructor (s: ScanState)
      ensures State() == s
    {
      notes, nullifiers, from, to := s.notes, s.nullifiers, s.from, s.to;
      tipHash, checkpoints := s.tipHash, s.checkpoints;
    }

    method TrimCheckpoints()
      modifies this`checkpoints
      ensures checkpoints == LastN(old(checkpoints), REORG_CHECKPOINTS)
    {
      if |checkpoints| > REORG_CHECKPOINTS {
        checkpoints := checkpoints[|checkpoints| - REORG_CHECKPOINTS..];
      }
    }

    /** A refused tail leaves the wallet untouched. */
    method Absorb(next: ScanState) returns (ok: bool)
      modifies this
      ensures ok <==> Absorbed(old(State()), next).Some?
      ensures State() == if ok then Absorbed(old(State()), next).value else old(State())
    {
      if next.from != to + 1 {
        return false;
      }
      if next.to < next.from {
        return true;
      }
      if |next.checkpoints| == 0
      || next.checkpoints[|next.checkpoints| - 1] != Checkpoint(next.to, next.tipHash) {
        return false;
      }
      notes := notes + next.notes;
      nullifiers := nullifiers + next.nullifiers;
      checkpoints := checkpoints + next.checkpoints;
      TrimCheckpoints();
      to := next.to;
      tipHash := next.tipHash;
      return true;
    }

    method RewindTo(height: nat) returns (ok: bool)
      modifies this
      ensures ok <==> Rewound(old(State()), height).Some?
      ensures State() == if ok then Rewound(old(State()), height).value else old(State())
    {
      if height > to {
        return false;
      }
      var point := FindCheckpoint(checkpoints, height);
      if point.None? {
        return false;
      }
      notes := Filter(notes, (n: Note) => n.height <= height);
      nullifiers := Filter(nullifiers, (n: SeenNullifier) => n.height <= height);
      checkpoints := Filter(checkpoints, (p: Checkpoint) => p.height <= height);
      to := height;
      tipHash := point.value.hash;
      return true;
    }
  }

  // ---------------------------------------------------------------- the reference

  /** A fresh scan of `chain` over `from..=to`: the state every other route has to reach. */
  function Reference(key: Key, chain: seq<Block>, from: nat, to: nat): ScanState
    requires from <= to < |chain|
  {
    StateOf(from, to, ReferenceWalk(key, chain, from, to))
  }

  function ReferenceWalk(key: Key, chain: seq<Block>, from: nat, to: nat): Walk
    requires from <= to + 1 <= |chain|
  {
    Walk(chain[from..to + 1], Detect(key, |Outputs(chain[..from])|, Outputs(chain[from..to + 1])))
  }

  lemma SizeConcat(a: seq<Block>, b: seq<Block>)
    ensures Size(a + b) == Size(a) + Size(b)
  {
    hide Outputs, Size;
    OutputsConcat(a, b);
    OutputsSize(a + b);
    OutputsSize(a);
    OutputsSize(b);
  }

  /** A place in a piece of the chain has as many more leaves before it as the piece has. */
  lemma PlaceInPiece(chain: seq<Block>, from: nat, to: nat, h: nat, t: nat, o: nat)
    requires from <= h <= to < |chain| && IsPlace(chain, h, t, o)
    ensures IsPlace(chain[from..to + 1], h - from, t, o)
    ensures LeavesBefore(chain, h, t, o) == |Outputs(chain[..from])| + LeavesBefore(chain[from..to + 1], h - from, t, o)
  {
    hide Outputs, Size, TxsSize;
    var piece := chain[from..to + 1];
    assert piece[h - from] == chain[h];
    SizeConcat(chain[..from], chain[from..h]);
    assert chain[..from] + chain[from..h] == chain[..h] && piece[..h - from] == chain[from..h];
    OutputsSize(chain[..from]);
  }

  /**
    What a fresh scan reports, output by output: one that opens is reported once, with the height and
    indices it has on the chain, the number of leaves before it as its position, what it opens to, and its
    nullifier at that position; one that does not open is not reported.
   */
  lemma ReferenceReports(key: Key, chain: seq<Block>, from: nat, to: nat, h: nat, t: nat, o: nat)
    requires from <= h <= to < |chain| && IsPlace(chain, h, t, o)
    ensures var tx, position, notes := chain[h].txs[t], LeavesBefore(chain, h, t, o), Reference(key, chain, from, to).notes;
      match key.open(tx.outputs[o])
      case None => forall n :: n in notes ==> n.position != position
      case Some(plain) =>
        var note := Note(chain[h].height, tx.index, o, position, plain.value, plain.recipient,
                         key.nullifier(tx.outputs[o], position));
        note in notes && forall n :: n in notes && n.position == position ==> n == note
  {
    hide Outputs, Detect, Size, TxsSize, LeavesBefore;
    var piece := chain[from..to + 1];
    PlaceInPiece(chain, from, to, h, t, o);
    assert piece[h - from] == chain[h];
    OutputAt(piece, h - from, t, o);
    OutputIsReported(key, |Outputs(chain[..from])|, Outputs(piece), LeavesBefore(piece, h - from, t, o));
  }

  /** And it reports nothing else: every note is the report of an output of the blocks scanned, in tree order. */
  lemma ReportedComesFrom(key: Key, chain: seq<Block>, from: nat, to: nat, note: Note) returns (h: nat, t: nat, o: nat)
    requires from <= to < |chain| && note in Reference(key, chain, from, to).notes
    ensures from <= h <= to && IsPlace(chain, h, t, o) && note.position == LeavesBefore(chain, h, t, o)
    ensures key.open(chain[h].txs[t].outputs[o]).Some?
    ensures Increasing(Reference(key, chain, from, to).notes)
  {
    hide Outputs, Detect, Size, TxsSize, LeavesBefore, Increasing;
    var base, piece := |Outputs(chain[..from])|, chain[from..to + 1];
    DetectReports(key, base, Outputs(piece));
    ReportsIncrease(key, base, Outputs(piece), Detect(key, base, Outputs(piece)));
    DetectedAt(key, base, Outputs(piece), note);
    OutputsSize(piece);
    var b: nat;
    b, t, o := PlaceOf(piece, note.position - base);
    h := from + b;
    assert piece[b] == chain[h];
    PlaceInPiece(chain, from, to, h, t, o);
    ReferenceReports(key, chain, from, to, h, t, o);
  }

  /** A server that tells the truth about `chain`. Nothing in the source detects one that lies
      consistently, so exactness is claimed for this server only. */
  ghost predicate Honest(light: Light, key: Key, chain: seq<Block>) {
    && Linked(chain)
    && (forall h :: 0 <= h < |chain| ==>
      light.treeState(h) == Some(TreeReply(Some(Cmus(Outputs(chain[..h + 1]))), Some(|Outputs(chain[..h + 1])|))))
    && (forall a, b :: 0 <= a <= b ==>
      light.blocks(a, b) == if b < |chain| then Some(chain[a..b + 1]) else None)
    && (forall h :: 0 <= h < |chain| && chain[h].treeSize.Some? ==> chain[h].treeSize.value == |Outputs(chain[..h + 1])|)
    && AllValid(key, Outputs(chain))
  }

  lemma AllValidPart(key: Key, chain: seq<Block>, a: nat, b: nat)
    requires a <= b <= |chain| && AllValid(key, Outputs(chain))
    ensures AllValid(key, Outputs(chain[a..b]))
  {
    hide Outputs;
    OutputsConcat(chain[..a], chain[a..]);
    assert chain[..a] + chain[a..] == chain;
    OutputsConcat(chain[a..b], chain[b..]);
    assert chain[a..b] + chain[b..] == chain[a..];
    var n := |Outputs(chain[..a])|;
    forall i | 0 <= i < |Outputs(chain[a..b])|
      ensures key.validCmu(Outputs(chain[a..b])[i].output.cmu)
    {
      assert Outputs(chain)[n + i] == Outputs(chain[a..b])[i];
    }
  }

  /** One chunk against a truthful server: accepted exactly when it continues `prev`. */
  lemma HonestChunk(light: Light, key: Key, chain: seq<Block>, start: nat, end: nat, prev: Option<Digest>)
    requires Honest(light, key, chain) && 1 <= start <= end < |chain|
    ensures ScanChunk(light, key, start, end, prev)
         == if prev.Some? && prev.value != chain[start - 1].hash then Err(Reorged)
            else Ok(ReferenceWalk(key, chain, start, end))
  {
    hide Outputs, Detect, AllValid, Honest, LinkedAfter, BlockRange;
    HonestReplies(light, key, chain, start, end);
    PieceLinks(chain, start, end, prev);
  }

  /** What a truthful server answers to the requests of one chunk. */
  lemma HonestReplies(light: Light, key: Key, chain: seq<Block>, start: nat, end: nat)
    requires Honest(light, key, chain) && 1 <= start <= end < |chain|
    ensures Linked(chain)
    ensures var outs, base, blocks := Outputs(chain[start..end + 1]), |Outputs(chain[..start])|, chain[start..end + 1];
      && light.treeState(start - 1) == Some(TreeReply(Some(Cmus(Outputs(chain[..start]))), Some(base)))
      && BlockRange(light, start, end) == Some(blocks)
      && (chain[end].treeSize.Some? ==> chain[end].treeSize.value == base + |outs|)
      && AllValid(key, outs)
  {
    hide Outputs, AllValid;
    var blocks := chain[start..end + 1];
    assert chain[..start - 1 + 1] == chain[..start];
    assert light.blocks(start, end) == Some(blocks);
    OutputsConcat(chain[..start], blocks);
    assert chain[..start] + blocks == chain[..end + 1];
    AllValidPart(key, chain, start, end + 1);
    PieceHeights(chain, start, end);
  }

  lemma PieceHeights(chain: seq<Block>, start: nat, end: nat)
    requires Linked(chain) && start <= end < |chain|
    ensures CompleteRange(Heights(chain[start..end + 1]), start, end)
  {
    var blocks := chain[start..end + 1];
    forall i | 0 <= i < |blocks|
      ensures blocks[i].height == start + i
    {
      assert blocks[i] == chain[start + i];
    }
  }

  lemma PieceLinks(chain: seq<Block>, start: nat, end: nat, prev: Option<Digest>)
    requires Linked(chain) && 1 <= start <= end < |chain|
    ensures LinkedAfter(prev, chain[start..end + 1]) <==> !(prev.Some? && prev.value != chain[start - 1].hash)
    ensures chain[start..end + 1] != [] && chain[start..end + 1][end - start] == chain[end]
  {
    var blocks := chain[start..end + 1];
    assert blocks[0] == chain[start];
    forall i | 0 < i < |blocks|
      ensures blocks[i].prevHash == blocks[i - 1].hash
    {
      assert blocks[i] == chain[start + i] && blocks[i - 1] == chain[start + i - 1];
    }
  }

  lemma ReferenceSplit(key: Key, chain: seq<Block>, a: nat, m: nat, b: nat)
    requires a <= m <= b < |chain|
    ensures ReferenceWalk(key, chain, a, b)
         == Walk(ReferenceWalk(key, chain, a, m).blocks + chain[m + 1..b + 1],
                 ReferenceWalk(key, chain, a, m).notes
                 + Detect(key, |Outputs(chain[..m + 1])|, Outputs(chain[m + 1..b + 1])))
  {
    hide Outputs, Detect;
    var x, y := chain[a..m + 1], chain[m + 1..b + 1];
    assert x + y == chain[a..b + 1] && chain[..a] + x == chain[..m + 1];
    OutputsConcat(x, y);
    OutputsConcat(chain[..a], x);
    DetectConcat(key, |Outputs(chain[..a])|, Outputs(x), Outputs(y));
  }

  /** A scan of a truthful server is the reference, wherever its chunk boundaries fall. */
  lemma {:induction false} HonestScan(light: Light, key: Key, chain: seq<Block>, start: nat, tip: nat, prev: Option<Digest>)
    requires Honest(light, key, chain) && 1 <= start <= tip < |chain|
    ensures ScanFrom(light, key, start, tip, prev)
         == if prev.Some? && prev.value != chain[start - 1].hash then Err(Reorged)
            else Ok(ReferenceWalk(key, chain, start, tip))
    decreases tip - start
  {
    hide ScanChunk, Outputs, Detect, Honest;
    var end := ChunkEnd(start, tip);
    HonestChunk(light, key, chain, start, end, prev);
    var w := ReferenceWalk(key, chain, start, end);
    assert w.blocks[|w.blocks| - 1] == chain[end];
    if end < tip {
      HonestScan(light, key, chain, end + 1, tip, Some(chain[end].hash));
      ReferenceSplit(key, chain, start, end, tip);
    } else {
      assert w.blocks + [] == w.blocks && w.notes + [] == w.notes;
    }
  }

  /** For any server at all: what an accepted scan is made of is one gapless, hash-linked run. */
  lemma {:induction false} AcceptedScanIsContiguous(light: Light, key: Key, start: nat, tip: nat, prev: Option<Digest>)
    requires 1 <= start <= tip && ScanFrom(light, key, start, tip, prev).Ok?
    ensures CompleteRange(Heights(ScanFrom(light, key, start, tip, prev).value.blocks), start, tip)
    ensures LinkedAfter(prev, ScanFrom(light, key, start, tip, prev).value.blocks)
    decreases tip - start
  {
    hide ScanChunk;
    var end := ChunkEnd(start, tip);
    var w := ScanChunk(light, key, start, end, prev).value;
    assert |Heights(w.blocks)| == end - start + 1;
    if end < tip {
      AcceptedScanIsContiguous(light, key, end + 1, tip, Some(LastHash(w.blocks, 0)));
      var v := ScanFrom(light, key, end + 1, tip, Some(LastHash(w.blocks, 0))).value;
      assert Heights(w.blocks + v.blocks) == Heights(w.blocks) + Heights(v.blocks);
    } else {
      assert w.blocks + [] == w.blocks;
    }
  }
}
