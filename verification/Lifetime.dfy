/**
  A wallet's whole life: polls, rollbacks and recoveries in any order, against servers that follow
  different chains one after the other.

  Every server is truthful about the chain it follows; which chain that is may change at every step.
 */
module Lifetime {
  import opened Base
  import opened Chain
  import opened Scan
  import opened Wallet
  import opened Recovery

  /** What a wallet does next. `on` names the chain the server then follows. */
  datatype Step =
    | Polling(light: Light, on: nat, to: nat)
    | RollingBack(height: nat)
    | Recovery(light: Light, on: nat, tip: nat)

  /** The wallet after a step, and whether it took in blocks of the server's chain. A refusal leaves it as it was. */
  function Stepped(key: Key, s: ScanState, step: Step): (ScanState, bool) {
    match step
    case Polling(light, _, to) =>
      (Polled(key, s, light, to),
       to > s.to && ScanAfterOutcome(light, key, s, to).Ok? && Absorbed(s, ScanAfterOutcome(light, key, s, to).value).Some?)
    case RollingBack(height) =>
      (match Rewound(s, height)
       case None => (s, false)
       case Some(r) => (r, false))
    case Recovery(light, _, tip) => Recovering(key, s, light, tip, 1)
  }

  /** The wallet after all steps, and the chain it last took blocks from, `at` being the one before. */
  function Lived(key: Key, s: ScanState, at: nat, steps: seq<Step>): (ScanState, nat)
    decreases |steps|
  {
    if steps == [] then (s, at)
    else
      var (next, took) := Stepped(key, s, steps[0]);
      Lived(key, next, if took && !steps[0].RollingBack? then steps[0].on else at, steps[1..])
  }

  /** Chains between which block hashes do not collide. */
  ghost predicate Compatible(chains: seq<seq<Block>>) {
    forall i, j :: 0 <= i < |chains| && 0 <= j < |chains| ==> CollisionFree(chains[i], chains[j])
  }

  ghost predicate Truthful(key: Key, chains: seq<seq<Block>>, step: Step) {
    match step
    case RollingBack(_) => true
    case Polling(light, on, _) => on < |chains| && Honest(light, key, chains[on])
    case Recovery(light, on, _) => on < |chains| && Honest(light, key, chains[on])
  }

  /** A scan past the tip of the server's chain is always an error, whatever chain the wallet is on. */
  lemma PastTheTip(light: Light, key: Key, b: seq<Block>, s: ScanState, to: nat)
    requires Honest(light, key, b) && s.to < to && |b| <= to
    ensures ScanAfterOutcome(light, key, s, to).Err?
  {
    hide ScanFrom, Honest;
    BeyondTheTip(light, key, b, s.to + 1, to, Some(s.tipHash));
  }

  /** `scan_after` and `absorb` against a server on another chain: taken in only on common ground. */
  lemma PollAcross(light: Light, key: Key, a: seq<Block>, b: seq<Block>, s: ScanState, to: nat)
    requires Describes(s, key, a) && Honest(light, key, b) && CollisionFree(a, b)
    ensures match ScanAfterOutcome(light, key, s, to)
      case Err(_) => true
      case Ok(tail) =>
        && Absorbed(s, tail).Some?
        && var next := Absorbed(s, tail).value;
          && next.from == s.from
          && (to > s.to ==> Describes(next, key, b))
          && (to <= s.to ==> next == s)
  {
    if s.to < to {
      hide ScanAfterOutcome, Absorbed, Honest, Describes;
      if to < |b| {
        ShallowRewindIsRefused(light, key, a, b, s, to);
      } else {
        PastTheTip(light, key, b, s, to);
      }
    }
  }

  lemma RollBack(s: ScanState, key: Key, a: seq<Block>, height: nat)
    requires Describes(s, key, a)
    ensures Rewound(s, height).Some? ==> Describes(Rewound(s, height).value, key, a) && Rewound(s, height).value.from == s.from
  {
    hide Rewound, Describes;
    RewindKeepsDescribing(s, key, a, height);
  }

  /** A recovery, successful or not, leaves a wallet of the old chain or of the live one. */
  lemma {:induction false} RecoverAcross(light: Light, key: Key, a: seq<Block>, b: seq<Block>, s: ScanState, tip: nat, back: nat)
    requires Describes(s, key, a) && Honest(light, key, b) && CollisionFree(a, b)
    ensures var (next, took) := Recovering(key, s, light, tip, back);
      next.from == s.from && Describes(next, key, if took then b else a)
    decreases s.to
  {
    hide ScanAfterOutcome, Absorbed, Rewound, Honest, Describes, CollisionFree;
    PollAcross(light, key, a, b, s, tip);
    var scanned := ScanAfterOutcome(light, key, s, tip);
    if scanned == Err(Reorged) {
      var height := if back > s.to then 0 else s.to - back;
      RollBack(s, key, a, height);
      if Rewound(s, height).Some? && Rewound(s, height).value.to < s.to {
        RecoverAcross(light, key, a, b, Rewound(s, height).value, tip, back * 2);
      }
    }
  }

  /**
    What each step does, to the block. A poll takes the wallet to the height asked for exactly when that is
    ahead, the server has it and the wallet's tip is on the server's chain; a rollback takes it to the
    height when a checkpoint covers it; a recovery succeeds exactly when a tried distance reaches the fork.
    Otherwise a poll and a rollback leave everything as it was.
   */
  lemma StepReaches(key: Key, a: seq<Block>, b: seq<Block>, s: ScanState, step: Step)
    requires Describes(s, key, a)
    requires !step.RollingBack? ==> Honest(step.light, key, b) && CollisionFree(a, b)
    ensures var (next, took) := Stepped(key, s, step);
      match step
      case Polling(_, _, to) =>
        && (took <==> s.to < to < |b| && AgreeAt(a, b, s.to))
        && (if took then next.to == to && Describes(next, key, b) else next == s)
      case RollingBack(h) =>
        if s.to < h + |s.checkpoints| && h <= s.to then next.to == h && Describes(next, key, a) else next == s
      case Recovery(_, _, tip) =>
        s.to < tip < |b| ==>
          && (took <==> Recoverable(ForkDepth(a, b, s.to), |s.checkpoints|))
          && (took ==> next.to == tip && Describes(next, key, b))
  {
    hide ScanAfterOutcome, Absorbed, Rewound, Honest, Describes, CollisionFree, Recovering, Recoverable;
    match step
    case Polling(light, _, to) =>
      if s.to < to < |b| {
        ShallowRewindIsRefused(light, key, a, b, s, to);
      } else if s.to < to {
        PastTheTip(light, key, b, s, to);
      } else {
        NothingNew(light, key, s, to);
      }
    case RollingBack(h) => RewindKeepsDescribing(s, key, a, h);
    case Recovery(light, _, tip) =>
      if s.to < tip < |b| {
        RecoveringIff(light, key, a, b, s, tip);
      }
  }

  lemma OneStep(key: Key, chains: seq<seq<Block>>, s: ScanState, at: nat, step: Step)
    requires at < |chains| && Describes(s, key, chains[at]) && Compatible(chains) && Truthful(key, chains, step)
    ensures var (next, took) := Stepped(key, s, step);
      next.from == s.from && Describes(next, key, chains[if took && !step.RollingBack? then step.on else at])
  {
    hide ScanAfterOutcome, Absorbed, Rewound, Honest, Describes, CollisionFree, Recovering;
    match step
    case Polling(light, on, to) => PollAcross(light, key, chains[at], chains[on], s, to);
    case RollingBack(height) => RollBack(s, key, chains[at], height);
    case Recovery(light, on, tip) => RecoverAcross(light, key, chains[at], chains[on], s, tip, 1);
  }

  /**
    Any schedule of polls, rollbacks and recoveries, any reorganisations: the wallet describes the chain
    it last took blocks from, its birthday never moves, and as soon as its checkpoint window is full it
    is, field by field, one fresh scan of that chain.
   */
  lemma {:induction false} LifeIsOneScan(key: Key, chains: seq<seq<Block>>, s: ScanState, at: nat, steps: seq<Step>)
    requires at < |chains| && Describes(s, key, chains[at]) && Compatible(chains)
    requires forall i :: 0 <= i < |steps| ==> Truthful(key, chains, steps[i])
    ensures var (end, on) := Lived(key, s, at, steps);
      && on < |chains| && Describes(end, key, chains[on])
      && end.from == s.from
      && end == Reference(key, chains[on], end.from, end.to).(checkpoints := end.checkpoints)
      && (FullWindow(end) ==> end == Reference(key, chains[on], end.from, end.to))
    decreases |steps|
  {
    hide Stepped, Truthful, Compatible, Reference;
    if steps == [] {
      if FullWindow(s) {
        FullIsReference(key, chains[at], s);
      }
    } else {
      OneStep(key, chains, s, at, steps[0]);
      TruthfulOn(key, chains, steps[0]);
      var (next, took) := Stepped(key, s, steps[0]);
      LifeIsOneScan(key, chains, next, if took && !steps[0].RollingBack? then steps[0].on else at, steps[1..]);
    }
  }

  lemma TruthfulOn(key: Key, chains: seq<seq<Block>>, step: Step)
    requires Truthful(key, chains, step)
    ensures step.RollingBack? || step.on < |chains|
  {
  }

  // ---------------------------------------------------------------- a fork the recovery loop gives up on

  /** A chain of blocks without shielded outputs, whose hashes after `split` carry a mark. */
  function PlainHash(h: nat, split: nat, mark: nat): Digest {
    if h <= split then 2 * h + 2 else 2 * h + 2 + mark
  }

  function PlainChain(length: nat, split: nat, mark: nat): seq<Block> {
    seq(length, h requires 0 <= h < length =>
      Block(h, PlainHash(h, split, mark), if h == 0 then 0 else PlainHash(h - 1, split, mark), [], None))
  }

  /** A server that follows a chain without shielded outputs. */
  function PlainLight(chain: seq<Block>): Light {
    Light((h: nat) => if h < |chain| then Some(TreeReply(Some([]), Some(0))) else None,
          (a: nat, b: nat) => if a <= b < |chain| then Some(chain[a..b + 1]) else None)
  }

  lemma {:induction false} NoOutputs(blocks: seq<Block>)
    requires forall i :: 0 <= i < |blocks| ==> blocks[i].txs == []
    ensures Outputs(blocks) == []
  {
    if blocks != [] {
      NoOutputs(blocks[..|blocks| - 1]);
    }
  }

  lemma PlainIsHonest(key: Key, chain: seq<Block>)
    requires Linked(chain) && forall i :: 0 <= i < |chain| ==> chain[i].txs == [] && chain[i].treeSize == None
    ensures Honest(PlainLight(chain), key, chain)
  {
    hide Outputs;
    forall h | 0 <= h <= |chain|
      ensures Outputs(chain[..h]) == []
    {
      NoOutputs(chain[..h]);
    }
    assert chain[..|chain|] == chain && Cmus([]) == [];
    forall h | 0 <= h < |chain|
      ensures PlainLight(chain).treeState(h) == Some(TreeReply(Some(Cmus(Outputs(chain[..h + 1]))), Some(|Outputs(chain[..h + 1])|)))
    {
      assert Outputs(chain[..h + 1]) == [];
    }
  }

  lemma PlainFork(length: nat, split: nat)
    requires split + 1 < length
    ensures var a, b := PlainChain(length, split, 0), PlainChain(length + 1, split, 1);
      && Linked(a) && Linked(b) && CollisionFree(a, b)
      && (forall h :: 0 <= h < length ==> (AgreeAt(a, b, h) <==> h <= split))
  {
  }

  lemma {:induction false} PlainDepth(length: nat, split: nat, h: nat)
    requires split <= h < length && split + 1 < length
    ensures ForkDepth(PlainChain(length, split, 0), PlainChain(length + 1, split, 1), h) == h - split
    decreases h
  {
    hide PlainChain, AgreeAt;
    PlainFork(length, split);
    if h > split {
      PlainDepth(length, split, h - 1);
    }
  }

  /**
    A wallet with a full window of 200 checkpoints, and a truthful server whose chain parts from the
    wallet's 128 blocks below: the block they share is in the window, rolling back to it is possible,
    and the recovery loop still gives up.
   */
  lemma DeepForkIsGivenUp(key: Key)
    ensures var a, b := PlainChain(301, 172, 0), PlainChain(302, 172, 1);
      var s := Reference(key, a, 1, 300);
      && Describes(s, key, a) && |s.checkpoints| == REORG_CHECKPOINTS
      && Honest(PlainLight(b), key, b) && CollisionFree(a, b)
      && ForkDepth(a, b, s.to) == 128
      && Rewound(s, 172).Some? && AgreeAt(a, b, 172)
      && !Recovering(key, s, PlainLight(b), 301, 1).1
  {
    hide PlainChain, PlainLight, Honest, Describes, Rewound, Recoverable, CollisionFree, Reference, AgreeAt, Recovering;
    var a, b := PlainChain(301, 172, 0), PlainChain(302, 172, 1);
    PlainFork(301, 172);
    PlainBlocks(301, 172, 0);
    PlainBlocks(302, 172, 1);
    ReferenceIsFull(key, a, 1, 300);
    ReferenceBounds(key, a, 1, 300);
    PlainIsHonest(key, b);
    PlainDepth(301, 172, 300);
    RewindKeepsDescribing(Reference(key, a, 1, 300), key, a, 172);
    FullWindowReach(128);
    RecoveringIff(PlainLight(b), key, a, b, Reference(key, a, 1, 300), 301);
  }

  lemma PlainBlocks(length: nat, split: nat, mark: nat)
    ensures |PlainChain(length, split, mark)| == length
    ensures forall i :: 0 <= i < length ==>
      PlainChain(length, split, mark)[i].txs == [] && PlainChain(length, split, mark)[i].treeSize == None
  {
  }
}
