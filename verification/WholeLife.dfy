/**
  A wallet's whole life against servers of bytes: the polls, rollbacks and recoveries of `Lifetime`,
  with every reply decoded from what a server sent.
 */
module WholeLife {
  import opened Base
  import C = Chain
  import E = EndToEnd
  import F = Frontier
  import Life = Lifetime
  import M = Messages
  import R = Recovery
  import S = Scan
  import W = Wallet

  lemma SameAfter(a: S.Light, b: S.Light, key: C.Key, s: S.ScanState, to: nat)
    requires E.SameToScan(a, b)
    ensures W.ScanAfterOutcome(a, key, s, to) == W.ScanAfterOutcome(b, key, s, to)
  {
    hide S.ScanOutcome, E.SameToScan;
    E.SameOutcome(a, b, key, s.to + 1, to, Some(s.tipHash));
  }

  /** The recovery loop cannot tell such servers apart either, from wherever it starts. */
  lemma {:induction false} SameRecovery(a: S.Light, b: S.Light, key: C.Key, s: S.ScanState, tip: nat, back: nat)
    requires E.SameToScan(a, b)
    ensures R.Recovering(key, s, a, tip, back) == R.Recovering(key, s, b, tip, back)
    decreases s.to
  {
    hide W.ScanAfterOutcome, W.Absorbed, W.Rewound, E.SameToScan;
    SameAfter(a, b, key, s, tip);
    var r := W.Rewound(s, if back > s.to then 0 else s.to - back);
    if r.Some? && r.value.to < s.to {
      SameRecovery(a, b, key, r.value, tip, back * 2);
    }
  }

  // ---------------------------------------------------------------- steps

  /** A step against a server of bytes that tells the truth about the blocks named. */
  ghost predicate FromBytes(step: Life.Step, server: E.Server, blocks: seq<seq<M.CompactBlock>>, combine: F.Combine) {
    match step
    case RollingBack(_) => true
    case Polling(light, on, _) => on < |blocks| && light == E.LightOf(server) && E.Truthful(server, blocks[on], combine)
    case Recovery(light, on, _) => on < |blocks| && light == E.LightOf(server) && E.Truthful(server, blocks[on], combine)
  }

  function ChainsOf(blocks: seq<seq<M.CompactBlock>>): seq<seq<C.Block>> {
    seq(|blocks|, i requires 0 <= i < |blocks| => E.ChainOf(blocks[i]))
  }

  /** The same step against the server that knows the leaves themselves. */
  ghost function Idealised(step: Life.Step, chains: seq<seq<C.Block>>): Life.Step {
    match step
    case RollingBack(_) => step
    case Polling(_, on, to) => if on < |chains| then Life.Polling(E.Ideal(chains[on]), on, to) else step
    case Recovery(_, on, tip) => if on < |chains| then Life.Recovery(E.Ideal(chains[on]), on, tip) else step
  }

  ghost function AllIdealised(steps: seq<Life.Step>, chains: seq<seq<C.Block>>): seq<Life.Step> {
    seq(|steps|, i requires 0 <= i < |steps| => Idealised(steps[i], chains))
  }

  lemma SameStep(key: C.Key, s: S.ScanState, step: Life.Step, server: E.Server, blocks: seq<seq<M.CompactBlock>>, combine: F.Combine)
    requires FromBytes(step, server, blocks, combine)
    ensures Life.Stepped(key, s, step) == Life.Stepped(key, s, Idealised(step, ChainsOf(blocks)))
    ensures Idealised(step, ChainsOf(blocks)).RollingBack? == step.RollingBack?
    ensures !step.RollingBack? ==> Idealised(step, ChainsOf(blocks)).on == step.on
  {
    hide E.Truthful, E.LightOf, E.Ideal, E.SameToScan, E.ChainOf, W.ScanAfterOutcome, W.Absorbed, W.Rewound, R.Recovering;
    if !step.RollingBack? {
      var ideal := E.Ideal(E.ChainOf(blocks[step.on]));
      E.TruthfulIsIdeal(server, blocks[step.on], combine);
      match step
      case Polling(light, _, to) => SameAfter(light, ideal, key, s, to);
      case Recovery(light, _, tip) => SameRecovery(light, ideal, key, s, tip, 1);
    }
  }

  lemma {:induction false} SameLife(key: C.Key, s: S.ScanState, at: nat, steps: seq<Life.Step>, servers: seq<E.Server>,
                                    blocks: seq<seq<M.CompactBlock>>, combine: F.Combine)
    requires |servers| == |steps|
    requires forall i :: 0 <= i < |steps| ==> FromBytes(steps[i], servers[i], blocks, combine)
    ensures Life.Lived(key, s, at, steps) == Life.Lived(key, s, at, AllIdealised(steps, ChainsOf(blocks)))
    decreases |steps|
  {
    hide FromBytes, Idealised, ChainsOf, Life.Stepped;
    var chains := ChainsOf(blocks);
    if steps != [] {
      SameStep(key, s, steps[0], servers[0], blocks, combine);
      var (next, took) := Life.Stepped(key, s, steps[0]);
      SameLife(key, next, if took && !steps[0].RollingBack? then steps[0].on else at, steps[1..], servers[1..], blocks, combine);
      assert AllIdealised(steps, chains)[1..] == AllIdealised(steps[1..], chains);
    }
  }

  lemma IdealisedIsTruthful(key: C.Key, step: Life.Step, server: E.Server, blocks: seq<seq<M.CompactBlock>>, combine: F.Combine)
    requires FromBytes(step, server, blocks, combine)
    requires forall i :: 0 <= i < |blocks| ==> E.GoodChain(key, E.ChainOf(blocks[i]))
    ensures Life.Truthful(key, ChainsOf(blocks), Idealised(step, ChainsOf(blocks)))
  {
    hide E.Truthful, E.LightOf, E.Ideal, E.GoodChain, E.ChainOf, W.Honest;
    if !step.RollingBack? {
      E.IdealIsHonest(key, E.ChainOf(blocks[step.on]));
    }
  }

  /**
    The whole stack over the whole life: whatever polls, rollbacks and recoveries, against servers of
    bytes that follow one chain after the other, the wallet describes the chain it last took blocks
    from, and with a full window it is one fresh scan of that chain.
   */
  lemma LifeFromBytes(key: C.Key, s: S.ScanState, at: nat, steps: seq<Life.Step>, servers: seq<E.Server>,
                      blocks: seq<seq<M.CompactBlock>>, combine: F.Combine)
    requires |servers| == |steps|
    requires forall i :: 0 <= i < |steps| ==> FromBytes(steps[i], servers[i], blocks, combine)
    requires forall i :: 0 <= i < |blocks| ==> E.GoodChain(key, E.ChainOf(blocks[i]))
    requires Life.Compatible(ChainsOf(blocks)) && at < |blocks| && R.Describes(s, key, E.ChainOf(blocks[at]))
    ensures var (end, on) := Life.Lived(key, s, at, steps);
      && on < |blocks| && R.Describes(end, key, E.ChainOf(blocks[on]))
      && end.from == s.from
      && (R.FullWindow(end) ==> end == W.Reference(key, E.ChainOf(blocks[on]), end.from, end.to))
  {
    hide FromBytes, Idealised, E.GoodChain, E.ChainOf, Life.Compatible, Life.Truthful, R.Describes, R.FullWindow, W.Reference, Life.Lived;
    var chains := ChainsOf(blocks);
    var ideal := AllIdealised(steps, chains);
    SameLife(key, s, at, steps, servers, blocks, combine);
    forall i | 0 <= i < |ideal|
      ensures Life.Truthful(key, chains, ideal[i])
    {
      IdealisedIsTruthful(key, steps[i], servers[i], blocks, combine);
    }
    Life.LifeIsOneScan(key, chains, s, at, ideal);
  }
}
