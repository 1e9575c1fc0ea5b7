/**
  What a wallet holds over a whole life: any schedule of polls, any reorg, one answer.

  A state "describes" a chain when it is what one fresh scan of that chain would have produced,
  up to a checkpoint window that a rollback may have shortened.
 */
module Recovery {
  import opened Base
  import opened Chain
  import opened Scan
  import opened Wallet

  function Window(chain: seq<Block>, to: nat, width: nat): seq<Checkpoint>
    requires width <= to + 1 <= |chain|
  {
    Checkpoints(chain[to + 1 - width..to + 1])
  }

  ghost predicate Describes(s: ScanState, key: Key, chain: seq<Block>) {
    && Linked(chain)
    && 1 <= s.from <= s.to < |chain|
    && 1 <= |s.checkpoints| <= Min(REORG_CHECKPOINTS, s.to - s.from + 1)
    && s == Reference(key, chain, s.from, s.to).(checkpoints := Window(chain, s.to, |s.checkpoints|))
  }

  /** The window is as wide as a fresh scan's, so the state is the fresh scan. */
  ghost predicate FullWindow(s: ScanState) {
    s.from <= s.to && |s.checkpoints| == Min(REORG_CHECKPOINTS, s.to - s.from + 1)
  }

  lemma ReferenceIsFull(key: Key, chain: seq<Block>, from: nat, to: nat)
    requires Linked(chain) && 1 <= from <= to < |chain|
    ensures Describes(Reference(key, chain, from, to), key, chain) && FullWindow(Reference(key, chain, from, to))
  {
    hide Outputs, Detect, Nullifiers;
    var width := Min(REORG_CHECKPOINTS, to - from + 1);
    assert LastN(Checkpoints(chain[from..to + 1]), REORG_CHECKPOINTS) == Window(chain, to, width);
  }

  lemma FullIsReference(key: Key, chain: seq<Block>, s: ScanState)
    requires Describes(s, key, chain) && FullWindow(s)
    ensures s == Reference(key, chain, s.from, s.to)
  {
    hide Outputs, Detect, Nullifiers;
    ReferenceIsFull(key, chain, s.from, s.to);
  }

  // ---------------------------------------------------------------- going forward

  /** A window, point by point. */
  lemma WindowAt(chain: seq<Block>, to: nat, width: nat)
    requires width <= to + 1 <= |chain|
    ensures |Window(chain, to, width)| == width
    ensures forall i :: 0 <= i < width ==>
      Window(chain, to, width)[i] == Checkpoint(chain[to + 1 - width + i].height, chain[to + 1 - width + i].hash)
  {
    var lo := to + 1 - width;
    forall i | 0 <= i < width
      ensures Window(chain, to, width)[i] == Checkpoint(chain[lo + i].height, chain[lo + i].hash)
    {
      assert chain[lo..to + 1][i] == chain[lo + i];
    }
  }

  lemma WindowsJoin(chain: seq<Block>, m: nat, width: nat, to: nat)
    requires m < to < |chain| && width <= m + 1 && width <= REORG_CHECKPOINTS
    ensures LastN(Window(chain, m, width) + Window(chain, to, Min(REORG_CHECKPOINTS, to - m)), REORG_CHECKPOINTS)
         == Window(chain, to, Min(REORG_CHECKPOINTS, width + (to - m)))
  {
    hide Window;
    var more, joined := Min(REORG_CHECKPOINTS, to - m), Min(REORG_CHECKPOINTS, width + (to - m));
    var a, b, c := Window(chain, m, width), Window(chain, to, more), Window(chain, to, joined);
    WindowAt(chain, m, width);
    WindowAt(chain, to, more);
    WindowAt(chain, to, joined);
    var kept := LastN(a + b, REORG_CHECKPOINTS);
    assert |kept| == joined;
    var dropped := width + more - joined;
    forall i | 0 <= i < joined
      ensures kept[i] == c[i]
    {
      assert kept[i] == (a + b)[dropped + i];
      if dropped + i >= width {
        assert (a + b)[dropped + i] == b[dropped + i - width];
      }
    }
  }

  lemma ReferenceJoin(key: Key, chain: seq<Block>, from: nat, m: nat, to: nat)
    requires from <= m < to < |chain|
    ensures var x, y, z := Reference(key, chain, from, m), Reference(key, chain, m + 1, to), Reference(key, chain, from, to);
      && z.notes == x.notes + y.notes && z.nullifiers == x.nullifiers + y.nullifiers
      && z.tipHash == y.tipHash == chain[to].hash
      && z.from == from && z.to == y.to == to && y.from == m + 1
  {
    hide Outputs, Detect, Nullifiers, Checkpoints, LastN;
    ReferenceSplit(key, chain, from, m, to);
    NullifiersConcat(chain[from..m + 1], chain[m + 1..to + 1]);
    assert chain[from..m + 1] + chain[m + 1..to + 1] == chain[from..to + 1];
  }

  lemma AbsorbExtends(key: Key, chain: seq<Block>, s: ScanState, to: nat)
    requires Describes(s, key, chain) && s.to < to < |chain|
    ensures var merged := Absorbed(s, Reference(key, chain, s.to + 1, to));
      && merged.Some?
      && Describes(merged.value, key, chain)
      && merged.value.from == s.from && merged.value.to == to
      && |merged.value.checkpoints| == Min(REORG_CHECKPOINTS, |s.checkpoints| + (to - s.to))
  {
    hide Reference, LastN, Checkpoints;
    var tail := Reference(key, chain, s.to + 1, to);
    ReferenceJoin(key, chain, s.from, s.to, to);
    ReferenceIsFull(key, chain, s.to + 1, to);
    WindowsJoin(chain, s.to, |s.checkpoints|, to);
    WindowEnds(chain, to, |tail.checkpoints|);
  }

  lemma WindowEnds(chain: seq<Block>, to: nat, width: nat)
    requires Linked(chain) && 1 <= width <= to + 1 <= |chain|
    ensures |Window(chain, to, width)| == width
    ensures Window(chain, to, width)[width - 1] == Checkpoint(to, chain[to].hash)
  {
  }

  lemma NoSuchChunk(light: Light, key: Key, chain: seq<Block>, start: nat, end: nat, prev: Option<Digest>)
    requires Honest(light, key, chain) && 1 <= start <= end && |chain| <= end
    ensures ScanChunk(light, key, start, end, prev).Err?
  {
    hide Outputs, Detect, AllValid, Linked;
    assert light.blocks(start, end) == None;
  }

  /** A range the server does not reach is an error, whatever the wallet already holds. */
  lemma {:induction false} BeyondTheTip(light: Light, key: Key, chain: seq<Block>, start: nat, tip: nat, prev: Option<Digest>)
    requires Honest(light, key, chain) && 1 <= start <= tip && |chain| <= tip
    ensures ScanFrom(light, key, start, tip, prev).Err?
    decreases tip - start
  {
    hide Honest, ScanChunk;
    var end := ChunkEnd(start, tip);
    if |chain| <= end {
      NoSuchChunk(light, key, chain, start, end, prev);
    } else if ScanChunk(light, key, start, end, prev).Ok? {
      BeyondTheTip(light, key, chain, end + 1, tip,
                   Some(LastHash(ScanChunk(light, key, start, end, prev).value.blocks, 0)));
    }
  }

  /** One poll: what the server answered, how much of the chain it then had, and the height asked for. */
  datatype Poll = Poll(light: Light, served: nat, to: nat)

  /** `scan_after` then `absorb`; a refusal leaves the wallet as it was. */
  function Polled(key: Key, s: ScanState, light: Light, to: nat): ScanState {
    match ScanAfterOutcome(light, key, s, to)
    case Err(_) => s
    case Ok(tail) =>
      match Absorbed(s, tail)
      case None => s
      case Some(merged) => merged
  }

  function RunPolls(key: Key, s: ScanState, polls: seq<Poll>): ScanState
    decreases |polls|
  {
    if polls == [] then s
    else RunPolls(key, Polled(key, s, polls[0].light, polls[0].to), polls[1..])
  }

  /** The greatest height any poll could be answered at. */
  function Reached(to: nat, polls: seq<Poll>): (r: nat)
    ensures to <= r
    decreases |polls|
  {
    if polls == [] then to
    else Reached(if to < polls[0].to < polls[0].served then polls[0].to else to, polls[1..])
  }

  ghost predicate HonestPoll(key: Key, chain: seq<Block>, p: Poll) {
    p.served <= |chain| && Honest(p.light, key, chain[..p.served])
  }

  /** The documented poll: what a wallet does every few minutes, for years. */
  method PollOnce(light: Light, key: Key, wallet: ScanResult, tip: nat)
    requires tip + SCAN_CHUNK <= MAX_U64
    modifies wallet
    ensures wallet.State() == Polled(key, old(wallet.State()), light, tip)
  {
    var tail := ScanAfter(light, key, wallet.State(), tip);
    if tail.Ok? {
      var _ := wallet.Absorb(tail.value);
    }
  }

  lemma PrefixReference(key: Key, chain: seq<Block>, n: nat, from: nat, to: nat)
    requires n <= |chain| && from <= to < n
    ensures Reference(key, chain[..n], from, to) == Reference(key, chain, from, to)
  {
    assert chain[..n][from..to + 1] == chain[from..to + 1];
    assert chain[..n][..from] == chain[..from];
  }

  /** A poll that the server can answer merges into the state of a longer scan. */
  lemma PollAhead(key: Key, chain: seq<Block>, s: ScanState, p: Poll)
    requires Describes(s, key, chain) && HonestPoll(key, chain, p) && s.to < p.to < p.served
    ensures var tail := Reference(key, chain, s.to + 1, p.to);
      ScanAfterOutcome(p.light, key, s, p.to) == Ok(tail)
  {
    hide ScanFrom, Outputs, Detect, Nullifiers, Honest, Checkpoints, Absorbed;
    HonestScan(p.light, key, chain[..p.served], s.to + 1, p.to, Some(s.tipHash));
    assert s.tipHash == chain[s.to].hash;
    PrefixReference(key, chain, p.served, s.to + 1, p.to);
  }

  /** One poll of a truthful server, however far behind or idle, keeps the state that of a fresh scan,
      with as many more checkpoints as there were new blocks. */
  lemma OnePoll(key: Key, chain: seq<Block>, s: ScanState, p: Poll)
    requires Describes(s, key, chain) && HonestPoll(key, chain, p)
    ensures var next := Polled(key, s, p.light, p.to);
      && Describes(next, key, chain)
      && next.from == s.from
      && next.to == (if s.to < p.to < p.served then p.to else s.to)
      && |next.checkpoints| == Min(REORG_CHECKPOINTS, |s.checkpoints| + (next.to - s.to))
      && (FullWindow(s) ==> FullWindow(next))
  {
    hide Describes, HonestPoll, Reference, Absorbed, ScanAfterOutcome;
    DescribesBounds(s, key, chain);
    ServedIsPart(key, chain, p);
    if s.to < p.to < p.served {
      PollAhead(key, chain, s, p);
      AbsorbExtends(key, chain, s, p.to);
    } else {
      PollElsewhere(key, chain, s, p);
    }
  }

  lemma ServedIsPart(key: Key, chain: seq<Block>, p: Poll)
    requires HonestPoll(key, chain, p)
    ensures p.served <= |chain|
  {
  }

  lemma PollElsewhere(key: Key, chain: seq<Block>, s: ScanState, p: Poll)
    requires Describes(s, key, chain) && HonestPoll(key, chain, p) && !(s.to < p.to < p.served)
    ensures Polled(key, s, p.light, p.to) == s
  {
    hide ScanFrom, Honest, Reference, Checkpoints, Window, Linked;
    if s.to < p.to {
      BeyondTheTip(p.light, key, chain[..p.served], s.to + 1, p.to, Some(s.tipHash));
    }
  }

  /** Any cutting gives the same wallet: whatever the polls, idle and lagging ones included, the
      result is one scan of the whole range, checkpoint window and all. */
  lemma {:induction false} AnyCuttingIsOneScan(key: Key, chain: seq<Block>, from: nat, to: nat, polls: seq<Poll>)
    requires Linked(chain) && 1 <= from <= to < |chain|
    requires forall i :: 0 <= i < |polls| ==> HonestPoll(key, chain, polls[i])
    ensures Reached(to, polls) < |chain|
    ensures RunPolls(key, Reference(key, chain, from, to), polls)
         == Reference(key, chain, from, Reached(to, polls))
    decreases |polls|
  {
    hide Polled, Reference, Honest, Describes;
    if polls != [] {
      var p := polls[0];
      assert HonestPoll(key, chain, p);
      ReferenceIsFull(key, chain, from, to);
      var s := Reference(key, chain, from, to);
      assert s.from == from && s.to == to by { ReferenceBounds(key, chain, from, to); }
      OnePoll(key, chain, s, p);
      var next := Polled(key, s, p.light, p.to);
      FullIsReference(key, chain, next);
      AnyCuttingIsOneScan(key, chain, from, next.to, polls[1..]);
    }
  }

  lemma ReferenceBounds(key: Key, chain: seq<Block>, from: nat, to: nat)
    requires from <= to < |chain|
    ensures Reference(key, chain, from, to).from == from && Reference(key, chain, from, to).to == to
  {
  }

  // ---------------------------------------------------------------- going back

  lemma {:induction false} FilterByHeightSplit(key: Key, chain: seq<Block>, from: nat, h: nat, to: nat)
    requires Linked(chain) && from <= h <= to < |chain|
    ensures Filter(ReferenceWalk(key, chain, from, to).notes, (n: Note) => n.height <= h)
         == ReferenceWalk(key, chain, from, h).notes
    ensures Filter(Nullifiers(chain[from..to + 1]), (n: SeenNullifier) => n.height <= h)
         == Nullifiers(chain[from..h + 1])
  {
    hide Outputs, Detect, Nullifiers, Filter;
    var below, above := chain[from..h + 1], chain[h + 1..to + 1];
    var keep, keepNf := (n: Note) => n.height <= h, (n: SeenNullifier) => n.height <= h;
    assert below + above == chain[from..to + 1];
    OutputHeights(chain, from, h + 1);
    OutputHeights(chain, h + 1, to + 1);
    ReferenceSplit(key, chain, from, h, to);
    var kept := ReferenceWalk(key, chain, from, h).notes;
    var dropped := Detect(key, |Outputs(chain[..h + 1])|, Outputs(above));
    NotesHaveOutputHeights(key, |Outputs(chain[..from])|, Outputs(below));
    NotesHaveOutputHeights(key, |Outputs(chain[..h + 1])|, Outputs(above));
    FilterConcat(kept, dropped, keep);
    FilterAll(kept, keep);
    FilterNone(dropped, keep);
    NullifiersConcat(below, above);
    FilterConcat(Nullifiers(below), Nullifiers(above), keepNf);
    FilterAll(Nullifiers(below), keepNf);
    FilterNone(Nullifiers(above), keepNf);
  }

  lemma NotesHaveOutputHeights(key: Key, base: nat, outs: seq<CompactOutput>)
    ensures forall n :: n in Detect(key, base, outs) ==>
      base <= n.position < base + |outs| && outs[n.position - base] in outs && n.height == outs[n.position - base].height
  {
    forall n | n in Detect(key, base, outs)
      ensures base <= n.position < base + |outs| && n.height == outs[n.position - base].height
    {
      DetectedAt(key, base, outs, n);
    }
  }

  lemma WindowPoints(chain: seq<Block>, to: nat, width: nat)
    requires Linked(chain) && width <= to + 1 <= |chain|
    ensures |Window(chain, to, width)| == width
    ensures forall i :: 0 <= i < width ==>
      Window(chain, to, width)[i] == Checkpoint(to + 1 - width + i, chain[to + 1 - width + i].hash)
  {
    hide Linked, Window;
    LinkedHeights(chain);
    WindowAt(chain, to, width);
  }

  /** The points of a window at or below `h` are a narrower window. */
  lemma WindowPrefix(chain: seq<Block>, to: nat, width: nat, h: nat)
    requires Linked(chain) && width <= to + 1 <= |chain| && h <= to < h + width
    ensures |Window(chain, to, width)| == width
    ensures Window(chain, to, width)[..width - (to - h)] == Window(chain, h, width - (to - h))
  {
    hide Linked, Window;
    WindowPoints(chain, to, width);
    WindowPoints(chain, h, width - (to - h));
  }

  lemma FoundInWindow(chain: seq<Block>, to: nat, width: nat, h: nat)
    requires Linked(chain) && width <= to + 1 <= |chain| && h <= to
    ensures FindCheckpoint(Window(chain, to, width), h)
         == if to < h + width then Some(Checkpoint(h, chain[h].hash)) else None
  {
    hide FindCheckpoint, Window, Linked;
    WindowPoints(chain, to, width);
    if to < h + width {
      var all := Window(chain, to, width);
      assert all[h - (to + 1 - width)] in all;
    }
  }

  lemma WindowRewinds(chain: seq<Block>, to: nat, width: nat, h: nat)
    requires Linked(chain) && width <= to + 1 <= |chain| && h <= to < h + width
    ensures Filter(Window(chain, to, width), (p: Checkpoint) => p.height <= h) == Window(chain, h, width - (to - h))
  {
    hide Filter, Window, Linked;
    var all, n, keep := Window(chain, to, width), width - (to - h), (p: Checkpoint) => p.height <= h;
    WindowPoints(chain, to, width);
    WindowPrefix(chain, to, width, h);
    FilterConcat(all[..n], all[n..], keep);
    assert all[..n] + all[n..] == all;
    FilterAll(all[..n], keep);
    FilterNone(all[n..], keep);
  }

  /** A rollback lands exactly where a checkpoint covers it, and on the state a shorter scan would have. */
  lemma RewindKeepsDescribing(s: ScanState, key: Key, chain: seq<Block>, h: nat)
    requires Describes(s, key, chain)
    ensures Rewound(s, h).Some? <==> EarliestRewind(s).value <= h <= s.to
    ensures Rewound(s, h).Some? <==> s.to < h + |s.checkpoints| && h <= s.to
    ensures Rewound(s, h).Some? ==>
      var r := Rewound(s, h).value;
      && Describes(r, key, chain)
      && r.from == s.from && r.to == h && |r.checkpoints| == |s.checkpoints| - (s.to - h)
  {
    hide Outputs, Detect, Nullifiers, Filter, FindCheckpoint, Window;
    EarliestOfWindow(s, key, chain);
    if h <= s.to {
      FoundInWindow(chain, s.to, |s.checkpoints|, h);
      if s.to < h + |s.checkpoints| {
        RewoundDescribes(s, key, chain, h);
      }
    }
  }

  lemma EarliestOfWindow(s: ScanState, key: Key, chain: seq<Block>)
    requires Describes(s, key, chain)
    ensures EarliestRewind(s) == Some(s.to + 1 - |s.checkpoints|)
  {
    hide Reference, Linked;
    LinkedHeights(chain);
    var first := s.to + 1 - |s.checkpoints|;
    assert s.checkpoints[0] == Checkpoint(chain[first].height, chain[first].hash);
  }

  lemma LinkedHeights(chain: seq<Block>)
    requires Linked(chain)
    ensures forall i :: 0 <= i < |chain| ==> chain[i].height == i
  {
  }

  lemma RewoundDescribes(s: ScanState, key: Key, chain: seq<Block>, h: nat)
    requires Describes(s, key, chain) && h <= s.to < h + |s.checkpoints|
    ensures Rewound(s, h).Some?
    ensures var r := Rewound(s, h).value;
      && Describes(r, key, chain)
      && r.from == s.from && r.to == h && |r.checkpoints| == |s.checkpoints| - (s.to - h)
  {
    hide Outputs, Detect, Nullifiers, Filter, FindCheckpoint, LastN, Checkpoints;
    FoundInWindow(chain, s.to, |s.checkpoints|, h);
    WindowRewinds(chain, s.to, |s.checkpoints|, h);
    FilterByHeightSplit(key, chain, s.from, h, s.to);
    WindowEnds(chain, h, |s.checkpoints| - (s.to - h));
  }

  /** Dropping points above `a` hides no point at or below it. */
  lemma {:induction false} FoundInFiltered(points: seq<Checkpoint>, a: nat, b: nat)
    requires b <= a
    ensures FindCheckpoint(Filter(points, (p: Checkpoint) => p.height <= a), b) == FindCheckpoint(points, b)
  {
    hide Filter;
    if points == [] {
      FilterNone(points, (p: Checkpoint) => p.height <= a);
    } else {
      FoundInFiltered(points[1..], a, b);
      FilterHead(points, (p: Checkpoint) => p.height <= a);
      var rest := Filter(points[1..], (p: Checkpoint) => p.height <= a);
      assert ([points[0]] + rest)[1..] == rest && [] + rest == rest;
    }
  }

  /** Rolling back in two steps is rolling back once, for any wallet whatever it was filled with. */
  lemma RewindTwice(s: ScanState, a: nat, b: nat)
    requires b <= a && Rewound(s, a).Some?
    ensures Rewound(Rewound(s, a).value, b) == Rewound(s, b)
  {
    hide Filter, FindCheckpoint;
    FoundInFiltered(s.checkpoints, a, b);
    FilterTwice(s.notes, (n: Note) => n.height <= a, (n: Note) => n.height <= b);
    FilterTwice(s.nullifiers, (n: SeenNullifier) => n.height <= a, (n: SeenNullifier) => n.height <= b);
    FilterTwice(s.checkpoints, (p: Checkpoint) => p.height <= a, (p: Checkpoint) => p.height <= b);
  }

  // ---------------------------------------------------------------- reorgs

  /** How many of the blocks up to `to` are not on the other chain. */
  function ForkDepth(a: seq<Block>, b: seq<Block>, to: int): nat
    decreases to + 1
  {
    if to < 0 || AgreeAt(a, b, to) then 0 else 1 + ForkDepth(a, b, to - 1)
  }

  lemma {:induction false} AgreementFollowsDepth(a: seq<Block>, b: seq<Block>, to: nat, back: nat)
    requires Linked(a) && Linked(b) && CollisionFree(a, b) && back <= to < |a|
    ensures AgreeAt(a, b, to - back) <==> ForkDepth(a, b, to) <= back
  {
    if AgreeAt(a, b, to) {
      AgreementIsPrefix(a, b, to);
      assert a[to - back] == a[..to + 1][to - back] == b[..to + 1][to - back];
    } else if back > 0 {
      AgreementFollowsDepth(a, b, to - 1, back - 1);
    }
  }

  /** On the chain below an agreeing block, both chains give the same wallet. */
  lemma DescribesBoth(s: ScanState, key: Key, a: seq<Block>, b: seq<Block>)
    requires Describes(s, key, a) && Linked(b) && CollisionFree(a, b) && AgreeAt(a, b, s.to)
    ensures Describes(s, key, b)
  {
    hide Outputs, Detect, Nullifiers;
    AgreementIsPrefix(a, b, s.to);
    var n := s.to + 1;
    PrefixReference(key, a, n, s.from, s.to);
    PrefixReference(key, b, n, s.from, s.to);
    assert a[n - |s.checkpoints|..n] == a[..n][n - |s.checkpoints|..] == b[n - |s.checkpoints|..n];
  }

  /** A wallet on the wrong block is always refused as reorged; one on a shared block never is. */
  lemma ShallowRewindIsRefused(light: Light, key: Key, a: seq<Block>, b: seq<Block>, s: ScanState, tip: nat)
    requires Describes(s, key, a) && Honest(light, key, b) && CollisionFree(a, b) && s.to < tip < |b|
    ensures !AgreeAt(a, b, s.to) ==> ScanAfterOutcome(light, key, s, tip) == Err(Reorged)
    ensures AgreeAt(a, b, s.to) ==>
      && ScanAfterOutcome(light, key, s, tip) == Ok(Reference(key, b, s.to + 1, tip))
      && Absorbed(s, Reference(key, b, s.to + 1, tip)).Some?
      && var merged := Absorbed(s, Reference(key, b, s.to + 1, tip)).value;
         Describes(merged, key, b) && merged.from == s.from && merged.to == tip
  {
    hide ScanFrom, Outputs, Detect, Nullifiers, Absorbed;
    assert s.tipHash == a[s.to].hash;
    HonestScan(light, key, b, s.to + 1, tip, Some(s.tipHash));
    if AgreeAt(a, b, s.to) {
      DescribesBoth(s, key, a, b);
      AbsorbExtends(key, b, s, tip);
    }
  }

  /** The rollback distances the documented loop tries are 0, 1, 3, 7, ...: one of them has to be
      deep enough and still inside the window. */
  ghost predicate Recoverable(depth: nat, width: nat) {
    exists k :: depth <= Pow2(k) - 1 <= width - 1
  }

  /** Where the search stands after `k` rollbacks of 1, 2, 4, ... blocks, each of them too shallow. */
  ghost predicate Searching(start: ScanState, s: ScanState, key: Key, a: seq<Block>, depth: nat, back: nat, k: nat) {
    && Describes(s, key, a) && s.from == start.from
    && back == Pow2(k) && back <= 256
    && start.to == s.to + (back - 1)
    && |start.checkpoints| == |s.checkpoints| + (back - 1)
    && forall j :: 0 <= j < k ==> Pow2(j) - 1 < depth
  }

  lemma DescribesBounds(s: ScanState, key: Key, chain: seq<Block>)
    requires Describes(s, key, chain)
    ensures Linked(chain) && 1 <= s.from <= s.to < |chain| && 1 <= |s.checkpoints| <= REORG_CHECKPOINTS
  {
  }

  lemma HonestIsLinked(light: Light, key: Key, chain: seq<Block>)
    requires Honest(light, key, chain)
    ensures Linked(chain)
  {
  }

  lemma SearchingBounds(start: ScanState, s: ScanState, key: Key, a: seq<Block>, depth: nat, back: nat, k: nat)
    requires Searching(start, s, key, a, depth, back, k)
    ensures Describes(s, key, a) && s.from == start.from
    ensures 1 <= back <= 256 && s.to == start.to - (back - 1)
    ensures depth <= back - 1 ==> Recoverable(depth, |start.checkpoints|)
  {
    assert back == Pow2(k) && back - 1 <= |start.checkpoints| - 1;
  }

  lemma SearchStarts(start: ScanState, key: Key, a: seq<Block>, depth: nat)
    requires Describes(start, key, a)
    ensures Searching(start, start, key, a, depth, 1, 0)
  {
  }

  /** The scan accepts the rolled-back wallet exactly when the rollback went deep enough. */
  lemma SearchScans(light: Light, key: Key, a: seq<Block>, b: seq<Block>, start: ScanState, s: ScanState,
                    tip: nat, back: nat, k: nat)
    requires Describes(start, key, a) && Honest(light, key, b) && CollisionFree(a, b) && s.to < tip < |b|
    requires Searching(start, s, key, a, ForkDepth(a, b, start.to), back, k)
    ensures ScanAfterOutcome(light, key, s, tip).Ok? <==> ForkDepth(a, b, start.to) <= back - 1
    ensures ScanAfterOutcome(light, key, s, tip).Err? ==> ScanAfterOutcome(light, key, s, tip).error == Reorged
    ensures ScanAfterOutcome(light, key, s, tip).Ok? ==>
      && Recoverable(ForkDepth(a, b, start.to), |start.checkpoints|)
      && Absorbed(s, ScanAfterOutcome(light, key, s, tip).value).Some?
      && var merged := Absorbed(s, ScanAfterOutcome(light, key, s, tip).value).value;
         Describes(merged, key, b) && merged.from == s.from && merged.to == tip
  {
    hide *;
    DescribesBounds(start, key, a);
    SearchingBounds(start, s, key, a, ForkDepth(a, b, start.to), back, k);
    HonestIsLinked(light, key, b);
    AgreementFollowsDepth(a, b, start.to, back - 1);
    ShallowRewindIsRefused(light, key, a, b, s, tip);
  }

  /** Too shallow: the next rollback is taken, or the window is spent and no distance could have worked. */
  lemma SearchDeepens(key: Key, a: seq<Block>, start: ScanState, s: ScanState, depth: nat, back: nat, k: nat)
    requires Searching(start, s, key, a, depth, back, k) && depth > back - 1
    requires |start.checkpoints| <= REORG_CHECKPOINTS
    ensures match Rewound(s, if back > s.to then 0 else s.to - back)
      case None => !Recoverable(depth, |start.checkpoints|)
      case Some(r) => r.to < s.to && Searching(start, r, key, a, depth, back * 2, k + 1)
  {
    hide Rewound, Reference, Linked, Window;
    RewindKeepsDescribing(s, key, a, if back > s.to then 0 else s.to - back);
    if |s.checkpoints| <= back {
      NothingDeeper(depth, |start.checkpoints|, k);
    }
  }

  /** What the recovery loop leaves, and whether it absorbed blocks, for any wallet and any server. A rollback
      that gains nothing cannot happen to a scanned wallet; it ends the recursion. */
  function Recovering(key: Key, s: ScanState, light: Light, tip: nat, back: nat): (ScanState, bool)
    decreases s.to
  {
    match ScanAfterOutcome(light, key, s, tip)
    case Ok(tail) =>
      (match Absorbed(s, tail)
       case None => (s, false)
       case Some(merged) => (merged, tip > s.to))
    case Err(Reorged) =>
      (match Rewound(s, if back > s.to then 0 else s.to - back)
       case None => (s, false)
       case Some(r) => if r.to < s.to then Recovering(key, r, light, tip, back * 2) else (s, false))
    case Err(_) => (s, false)
  }

  /** From any point of the search on, it succeeds exactly when some tried distance works. */
  lemma {:induction false} RecoveringFrom(light: Light, key: Key, a: seq<Block>, b: seq<Block>, start: ScanState, s: ScanState,
                                          tip: nat, back: nat, k: nat)
    requires Describes(start, key, a) && Honest(light, key, b) && CollisionFree(a, b) && s.to < tip < |b|
    requires Searching(start, s, key, a, ForkDepth(a, b, start.to), back, k)
    ensures var (end, took) := Recovering(key, s, light, tip, back);
      && (took <==> Recoverable(ForkDepth(a, b, start.to), |start.checkpoints|))
      && (took ==> Describes(end, key, b) && end.to == tip)
    decreases s.to
  {
    hide ScanAfterOutcome, Absorbed, Rewound, Describes, Honest, ForkDepth, CollisionFree, Recoverable, Searching;
    DescribesBounds(start, key, a);
    SearchScans(light, key, a, b, start, s, tip, back, k);
    if ScanAfterOutcome(light, key, s, tip) == Err(Reorged) {
      SearchDeepens(key, a, start, s, ForkDepth(a, b, start.to), back, k);
      var r := Rewound(s, if back > s.to then 0 else s.to - back);
      if r.Some? {
        RecoveringFrom(light, key, a, b, start, r.value, tip, back * 2, k + 1);
      }
    }
  }

  /** The loop succeeds exactly when some tried distance reaches the fork inside the window. */
  lemma RecoveringIff(light: Light, key: Key, a: seq<Block>, b: seq<Block>, s: ScanState, tip: nat)
    requires Describes(s, key, a) && Honest(light, key, b) && CollisionFree(a, b) && s.to < tip < |b|
    ensures var (end, took) := Recovering(key, s, light, tip, 1);
      && (took <==> Recoverable(ForkDepth(a, b, s.to), |s.checkpoints|))
      && (took ==> Describes(end, key, b) && end.to == tip)
  {
    hide *;
    SearchStarts(s, key, a, ForkDepth(a, b, s.to));
    RecoveringFrom(light, key, a, b, s, s, tip, 1, 0);
  }

  /** The documented recovery loop. It ends well exactly when some tried distance reaches the fork
      inside the checkpoint window, and then the wallet is a fresh scan of the live chain. */
  method Recover(light: Light, key: Key, wallet: ScanResult, tip: nat, ghost a: seq<Block>, ghost b: seq<Block>)
    returns (r: Result<(), ScanError>)
    requires Describes(wallet.State(), key, a) && Honest(light, key, b) && CollisionFree(a, b)
    requires wallet.to < tip < |b| && tip + SCAN_CHUNK <= MAX_U64
    modifies wallet
    ensures r.Ok? <==> Recoverable(ForkDepth(a, b, old(wallet.to)), old(|wallet.checkpoints|))
    ensures r.Ok? ==> Describes(wallet.State(), key, b) && wallet.to == tip
    ensures r.Err? ==> r.error == Shielded && Describes(wallet.State(), key, a) && wallet.to <= old(wallet.to)
    ensures wallet.from == old(wallet.from)
    ensures Recovering(key, old(wallet.State()), light, tip, 1) == (wallet.State(), r.Ok?)
  {
    hide ScanAfterOutcome, Absorbed, Rewound, Describes, Honest, ForkDepth, CollisionFree, Recoverable, Searching;
    ghost var start, k: nat := wallet.State(), 0;
    var back: nat := 1;
    DescribesBounds(start, key, a);
    SearchStarts(start, key, a, ForkDepth(a, b, start.to));
    while true
      invariant Searching(start, wallet.State(), key, a, ForkDepth(a, b, start.to), back, k)
      invariant wallet.to < tip
      invariant Recovering(key, wallet.State(), light, tip, back) == Recovering(key, start, light, tip, 1)
      decreases wallet.to
    {
      SearchingBounds(start, wallet.State(), key, a, ForkDepth(a, b, start.to), back, k);
      SearchScans(light, key, a, b, start, wallet.State(), tip, back, k);
      var scanned := ScanAfter(light, key, wallet.State(), tip);
      match scanned
      case Ok(tail) =>
        var _ := wallet.Absorb(tail);
        return Ok(());
      case Err(Reorged) =>
        SearchDeepens(key, a, start, wallet.State(), ForkDepth(a, b, start.to), back, k);
        var rewound := wallet.RewindTo(if back > wallet.to then 0 else wallet.to - back);
        if !rewound {
          return Err(Shielded);
        }
        back, k := back * 2, k + 1;
      case Err(other) =>
        return Err(other);
    }
  }

  /** Once distance `2^k - 1` was too shallow and the next one leaves the window, none fits. */
  lemma NothingDeeper(depth: nat, width: nat, k: nat)
    requires Pow2(k) - 1 < depth && width <= Pow2(k + 1) - 1
    ensures !Recoverable(depth, width)
  {
    forall j: nat
      ensures !(depth <= Pow2(j) - 1 <= width - 1)
    {
      if j <= k {
        Pow2Monotone(j, k);
      } else {
        Pow2Monotone(k + 1, j);
      }
    }
  }

  /** The window keeps 200 blocks, but the doubling search only ever reaches 127 of them: a fork
      that is 128 to 199 blocks deep has its checkpoint in the window and is still given up on. */
  lemma FullWindowReach(depth: nat)
    ensures Recoverable(depth, REORG_CHECKPOINTS) <==> depth <= 127
  {
    assert Pow2(7) == 128 && Pow2(8) == 256 by {
      assert Pow2(4) == 16;
    }
    if depth <= 127 {
      assert depth <= Pow2(7) - 1 <= REORG_CHECKPOINTS - 1;
    } else {
      NothingDeeper(depth, REORG_CHECKPOINTS, 7);
    }
  }
}
