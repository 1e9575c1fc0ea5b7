/** Two operations of the crate as driven programs: what they ask, in which batches, and what they return. */
module DrivenFlows {
  import opened Base
  import opened Cassette
  import opened Drive
  import opened Rounds
  import opened Funding
  import Ledger = History
  import Laws = HistoryLaws

  /** What an answer means to a reader: the sentinel, a refused write, or whatever the reply parses to. */
  function Read<T>(a: Answer, parse: string -> Result<T, Error>): Result<T, Error> {
    match a
    case Reply(text) => parse(text)
    case Needed => Err(AnswerNeeded)
    case WriteRefused => Err(WriteThroughCassette)
  }

  /** No reply is ever parsed into the driver's sentinel. */
  ghost predicate NeverSentinel<T>(parse: string -> Result<T, Error>) {
    forall t :: parse(t) != Err(AnswerNeeded)
  }

  /** The four request bodies of `spendable` and what their replies parse to. */
  datatype FundingWire = FundingWire(tip: string, utxos: string, mempool: string, transaction: nat -> string,
                                     parseTip: string -> Result<nat, Error>,
                                     parseUtxos: string -> Result<seq<AddressUtxo>, Error>,
                                     parseMempool: string -> Result<seq<MempoolRow>, Error>,
                                     parseCoinbase: string -> Result<bool, Error>)

  ghost predicate HonestWire(w: FundingWire) {
    NeverSentinel(w.parseTip) && NeverSentinel(w.parseUtxos) && NeverSentinel(w.parseMempool) && NeverSentinel(w.parseCoinbase)
  }

  /** The outputs whose origin has to be looked up, once the tip and the outputs are known. */
  function ToProbe(w: FundingWire, h: History): seq<AddressUtxo>
    requires |h| >= 3
  {
    match (Read(h[0], w.parseTip), Read(h[1], w.parseUtxos), BestEffortSpent(Read(h[2], w.parseMempool)))
    case (Ok(tip), Ok(found), Ok(_)) => YoungOnes(found, tip)
    case _ => []
  }

  function ProbeReplies(w: FundingWire, h: History, n: nat): seq<Result<bool, Error>>
    requires 3 + n <= |h|
  {
    seq(n, i requires 0 <= i < n => Read(h[3 + i], w.parseCoinbase))
  }

  function Finish(w: FundingWire, h: History): Result<Funding, Error>
    requires |h| >= 3 && |h| >= 3 + |ToProbe(w, h)|
  {
    match (Read(h[0], w.parseTip), Read(h[1], w.parseUtxos), BestEffortSpent(Read(h[2], w.parseMempool)))
    case (Err(e), _, _) => Err(e)
    case (_, Err(e), _) => Err(e)
    case (_, _, Err(e)) => Err(e)
    case (Ok(tip), Ok(found), Ok(spent)) =>
      match CoinbaseHeights(ToProbe(w, h), ProbeReplies(w, h, |ToProbe(w, h)|))
      case Err(e) => Err(e)
      case Ok(heights) => Assemble(tip, found, spent, heights)
  }

  function Outcome<V>(r: Result<V, Error>): Action<V> {
    match r
    case Ok(v) => Done(v)
    case Err(e) => Fail(e)
  }

  /** `spendable`: three reads issued together, then every coinbase probe together, then the split. */
  function SpendableProgram(w: FundingWire): Program<Funding> {
    (h: History) =>
      if |h| == 0 then Ask(Request(w.tip, false))
      else if |h| == 1 then Ask(Request(w.utxos, false))
      else if |h| == 2 then Ask(Request(w.mempool, false))
      else if |h| < 3 + |ToProbe(w, h)| then Ask(Request(w.transaction(ToProbe(w, h)[|h| - 3].utxo.outpoint.txid), false))
      else Outcome(Finish(w, h))
  }

  /** The reader a node amounts to. */
  function ReaderOf(w: FundingWire, node: string -> string): Reader {
    Reader(w.parseTip(node(w.tip)), w.parseUtxos(node(w.utxos)), w.parseMempool(node(w.mempool)),
           (txid: nat) => w.parseCoinbase(node(w.transaction(txid))))
  }

  // ---------------------------------------------------------------- halting

  /** Answer up to `fuel` more questions. */
  function RunOn<V>(p: Program<V>, src: Source, h: History, fuel: nat): History
    decreases fuel
  {
    if fuel == 0 || !p(h).Ask? then h
    else RunOn(p, src, h + [Answered(src, p(h).request)], fuel - 1)
  }

  lemma {:induction false} RunOnExtends<V>(p: Program<V>, src: Source, h: History, fuel: nat)
    requires IsPartOfRun(p, src, h)
    ensures var r := RunOn(p, src, h, fuel); IsPartOfRun(p, src, r) && h <= r
    ensures p(RunOn(p, src, h, fuel)).Ask? ==> |RunOn(p, src, h, fuel)| == |h| + fuel
    decreases fuel
  {
    if fuel > 0 && p(h).Ask? {
      var g := h + [Answered(src, p(h).request)];
      forall i | 0 <= i < |g|
        ensures p(g[..i]).Ask? && g[i] == Answered(src, p(g[..i]).request)
      {
        assert g[..i] == if i < |h| then h[..i] else h;
      }
      RunOnExtends(p, src, g, fuel - 1);
    }
  }

  lemma SpendableHalts(w: FundingWire)
    ensures Halts(SpendableProgram(w))
  {
    var p := SpendableProgram(w);
    forall src: Source
      ensures HaltsOn(p, src)
    {
      hide SpendableProgram;
      RunOnExtends(p, src, [], 3);
      var h := RunOn(p, src, [], 3);
      if p(h).Ask? {
        var more := |ToProbe(w, h)|;
        RunOnExtends(p, src, h, more);
        var g := RunOn(p, src, h, more);
        assert g[0] == h[0] && g[1] == h[1] && g[2] == h[2];
        AsksNoMore(w, g);
        assert IsRun(p, src, g);
      } else {
        assert IsRun(p, src, h);
      }
    }
  }

  lemma AsksNoMore(w: FundingWire, h: History)
    requires |h| >= 3 && |h| >= 3 + |ToProbe(w, h)|
    ensures !SpendableProgram(w)(h).Ask?
  {
    hide Finish, YoungOnes;
  }

  // ---------------------------------------------------------------- the sentinel

  lemma {:induction false} HeightsKnowMore(young: seq<AddressUtxo>, a: seq<Result<bool, Error>>, b: seq<Result<bool, Error>>)
    requires |young| == |a| == |b|
    requires forall i :: 0 <= i < |a| ==> a[i] == Err(AnswerNeeded) || a[i] == b[i]
    ensures CoinbaseHeights(young, a) == Err(AnswerNeeded) || CoinbaseHeights(young, a) == CoinbaseHeights(young, b)
  {
    if young != [] {
      HeightsKnowMore(young[..|young| - 1], a[..|a| - 1], b[..|b| - 1]);
    }
  }

  lemma SpendableRespects(w: FundingWire)
    requires HonestWire(w)
    ensures RespectsSentinel(SpendableProgram(w))
  {
    var p := SpendableProgram(w);
    forall g, h | KnowsLess(g, h)
      ensures p(g) == Fail(AnswerNeeded) || p(g) == p(h)
    {
      if |g| >= 3 {
        SpendableKnowsMore(w, g, h);
      }
    }
  }

  lemma SpendableKnowsMore(w: FundingWire, g: History, h: History)
    requires HonestWire(w) && KnowsLess(g, h) && |g| >= 3
    ensures SpendableProgram(w)(g) == Fail(AnswerNeeded) || SpendableProgram(w)(g) == SpendableProgram(w)(h)
  {
    hide CoinbaseHeights, YoungOnes, Assemble, AlreadySpent;
    assert g[0] == Needed || g[0] == h[0];
    assert g[1] == Needed || g[1] == h[1];
    assert g[2] == Needed || g[2] == h[2];
    if g[0] == h[0] && g[1] == h[1] && g[2] == h[2] {
      var young := ToProbe(w, g);
      assert ToProbe(w, h) == young;
      if |g| >= 3 + |young| {
        HeightsKnowMore(young, ProbeReplies(w, g, |young|), ProbeReplies(w, h, |young|));
      }
    }
  }

  // ---------------------------------------------------------------- meaning and cost

  /** Whatever a direct run reads from this node is small enough to be recorded. */
  ghost predicate Fetchable<V>(p: Program<V>, node: string -> string) {
    forall d :: IsRun(p, Live(node), d) ==> RepliesFit(p, d, node)
  }

  lemma EndsAt<V>(p: Program<V>, src: Source, d: History, n: nat)
    requires IsRun(p, src, d) && n <= |d| && !p(d[..n]).Ask?
    ensures |d| == n
  {
  }

  /** Run directly, the program is `spendable` against the node. */
  lemma SpendableMeaning(w: FundingWire, node: string -> string, d: History)
    requires HonestWire(w) && IsRun(SpendableProgram(w), Live(node), d)
    ensures |d| >= 3 && |d| == 3 + |ToProbe(w, d)|
    ensures SpendableProgram(w)(d) == Outcome(SpendableOutcome(ReaderOf(w, node)))
  {
    hide CoinbaseHeights, YoungOnes, Assemble, AlreadySpent;
    var p, reader := SpendableProgram(w), ReaderOf(w, node);
    assert d[..|d|] == d;
    assert |d| >= 1 && d[0] == Reply(node(w.tip)) by { assert d[..0] == []; }
    assert |d| >= 2 && d[1] == Reply(node(w.utxos)) by { assert |d[..1]| == 1; }
    assert |d| >= 3 && d[2] == Reply(node(w.mempool)) by { assert |d[..2]| == 2; }
    var young := ToProbe(w, d);
    assert ToProbe(w, d[..3 + |young|]) == young;
    EndsAt(p, Live(node), d, 3 + |young|);
    forall i | 0 <= i < |young|
      ensures ProbeReplies(w, d, |young|)[i] == ProbeAll(young, reader.isCoinbase)[i]
    {
      var g := d[..3 + i];
      assert ToProbe(w, g) == young && p(g).Ask?;
    }
    assert ProbeReplies(w, d, |young|) == ProbeAll(young, reader.isCoinbase);
  }

  /** Three reads need nothing from each other, and neither do the probes. */
  lemma SpendableBatches(w: FundingWire, node: string -> string, d: History)
    requires HonestWire(w) && IsRun(SpendableProgram(w), Live(node), d)
    ensures Batches(SpendableProgram(w), d, [0, 3, |d|])
  {
    hide YoungOnes, SpendableProgram, Independent;
    SpendableMeaning(w, node, d);
    ReadsAreIndependent(w, d);
    ProbesAreIndependent(w, d);
  }

  lemma ReadsAreIndependent(w: FundingWire, d: History)
    requires 3 <= |d|
    ensures Independent(SpendableProgram(w), d, 0, 3)
  {
    hide YoungOnes, Finish;
  }

  lemma ProbesAreIndependent(w: FundingWire, d: History)
    requires HonestWire(w) && |d| >= 3 && |d| == 3 + |ToProbe(w, d)|
    ensures Independent(SpendableProgram(w), d, 3, |d|)
  {
    hide YoungOnes, Finish;
    var p := SpendableProgram(w);
    forall h: History | 3 <= |h| < |d| && KnowsLess(h, d[..|h|]) && h[..3] == d[..3]
      ensures p(h).Ask?
    {
      assert h[0] == h[..3][0] == d[0] && h[1] == h[..3][1] == d[1] && h[2] == h[..3][2] == d[2];
      assert ToProbe(w, h) == ToProbe(w, d);
    }
  }

  lemma SpendableSettles(w: FundingWire, node: string -> string) returns (d: History)
    requires HonestWire(w)
    ensures var p := SpendableProgram(w);
      && Halts(p) && RespectsSentinel(p) && (Fetchable(p, node) ==> Settled(p, node, 2))
      && IsRun(p, Live(node), d)
      && p(d) == Outcome(SpendableOutcome(ReaderOf(w, node)))
    ensures SpendableOutcome(ReaderOf(w, node)) != Err(AnswerNeeded)
  {
    hide Settled, Batches, RespectsSentinel, RepliesFit, IsRun, SpendableOutcome, SpendableProgram;
    SpendableHalts(w);
    SpendableRespects(w);
    assert HaltsOn(SpendableProgram(w), Live(node));
    d := RunOf(SpendableProgram(w), Live(node));
    SpendableMeaning(w, node, d);
    SpendableBatches(w, node, d);
    if Fetchable(SpendableProgram(w), node) {
      SettlesByBatches(SpendableProgram(w), node, d, [0, 3, |d|]);
    }
    NeverStalls(ReaderOf(w, node), w, node);
  }

  /** Driven, `spendable` takes at most three rounds however many outputs there are, and returns
      exactly what it would have returned run directly against the node. A reply too large to record
      can make it stall, and nothing else. */
  method DriveSpendable(w: FundingWire, node: string -> string) returns (r: Result<Funding, Error>, rounds: nat)
    requires HonestWire(w)
    ensures r == SpendableOutcome(ReaderOf(w, node)) || r == Err(Stalled)
    ensures Fetchable(SpendableProgram(w), node) ==> r == SpendableOutcome(ReaderOf(w, node)) && rounds <= 3
  {
    hide Settled, Fetchable, Halts, RespectsSentinel, IsRun, SpendableOutcome, SpendableProgram;
    ghost var d := SpendableSettles(w, node);
    r, rounds := DriveLoop((i: nat) => SpendableProgram(w), node, d);
  }

  lemma {:induction false} HeightsNeverSentinel(young: seq<AddressUtxo>, probes: seq<Result<bool, Error>>)
    requires |young| == |probes| && forall i :: 0 <= i < |probes| ==> probes[i] != Err(AnswerNeeded)
    ensures CoinbaseHeights(young, probes) != Err(AnswerNeeded)
  {
    if young != [] {
      HeightsNeverSentinel(young[..|young| - 1], probes[..|probes| - 1]);
    }
  }

  lemma NeverStalls(reader: Reader, w: FundingWire, node: string -> string)
    requires HonestWire(w) && reader == ReaderOf(w, node)
    ensures SpendableOutcome(reader) != Err(AnswerNeeded)
  {
    hide YoungOnes, AlreadySpent;
    if reader.blockCount.Ok? && reader.addressUtxos.Ok? {
      var young := YoungOnes(reader.addressUtxos.value, reader.blockCount.value);
      forall i | 0 <= i < |young|
        ensures ProbeAll(young, reader.isCoinbase)[i] != Err(AnswerNeeded)
      {
        assert ProbeAll(young, reader.isCoinbase)[i]
            == w.parseCoinbase(node(w.transaction(young[i].utxo.outpoint.txid)));
      }
      HeightsNeverSentinel(young, ProbeAll(young, reader.isCoinbase));
    }
  }

  // ---------------------------------------------------------------- history

  /** The two request bodies of `history`: the chain's own currency and the deltas. */
  datatype HistoryWire = HistoryWire(info: string, deltas: string,
                                     parseNative: string -> Result<string, Error>,
                                     parseDeltas: string -> Result<seq<Ledger.Delta>, Error>)

  function ListOutcome(native: Result<string, Error>, deltas: Result<seq<Ledger.Delta>, Error>): Result<seq<Ledger.Entry>, Error> {
    match (native, deltas)
    case (Err(e), _) => Err(e)
    case (_, Err(e)) => Err(e)
    case (Ok(n), Ok(rows)) =>
      match Laws.HistoryList(rows, n)
      case None => Err(Genuine(0))
      case Some(f) => Ok(f)
  }

  /** `history`: both reads are issued before either is unwrapped. */
  function HistoryProgram(w: HistoryWire): Program<seq<Ledger.Entry>> {
    (h: History) =>
      if |h| == 0 then Ask(Request(w.info, false))
      else if |h| == 1 then Ask(Request(w.deltas, false))
      else Outcome(ListOutcome(Read(h[0], w.parseNative), Read(h[1], w.parseDeltas)))
  }

  lemma HistoryHaltsAndRespects(w: HistoryWire)
    requires NeverSentinel(w.parseNative) && NeverSentinel(w.parseDeltas)
    ensures Halts(HistoryProgram(w)) && RespectsSentinel(HistoryProgram(w))
  {
    var p := HistoryProgram(w);
    forall src: Source
      ensures HaltsOn(p, src)
    {
      RunOnExtends(p, src, [], 2);
      assert IsRun(p, src, RunOn(p, src, [], 2));
    }
    forall g, h | KnowsLess(g, h)
      ensures p(g) == Fail(AnswerNeeded) || p(g) == p(h)
    {
      hide Laws.HistoryList;
      if |g| >= 2 {
        assert g[0] == Needed || g[0] == h[0];
        assert g[1] == Needed || g[1] == h[1];
      }
    }
  }

  /** Run directly, the program lists what the node reports, folded and sorted; its two reads are one batch. */
  lemma HistoryMeaning(w: HistoryWire, node: string -> string, d: History)
    requires IsRun(HistoryProgram(w), Live(node), d)
    ensures |d| == 2
    ensures HistoryProgram(w)(d) == Outcome(ListOutcome(w.parseNative(node(w.info)), w.parseDeltas(node(w.deltas))))
    ensures Batches(HistoryProgram(w), d, [0, 2])
  {
    hide Laws.HistoryList;
    var p := HistoryProgram(w);
    assert d[..|d|] == d;
    assert |d| >= 1 && d[0] == Reply(node(w.info)) by { assert d[..0] == []; }
    assert |d| >= 2 && d[1] == Reply(node(w.deltas)) by { assert |d[..1]| == 1; }
    EndsAt(p, Live(node), d, 2);
    assert Independent(p, d, 0, 2);
  }

  lemma HistoryNeverStalls(w: HistoryWire, node: string -> string)
    requires NeverSentinel(w.parseNative) && NeverSentinel(w.parseDeltas)
    ensures ListOutcome(w.parseNative(node(w.info)), w.parseDeltas(node(w.deltas))) != Err(AnswerNeeded)
  {
    hide Laws.HistoryList;
  }

  lemma HistorySettles(w: HistoryWire, node: string -> string) returns (d: History)
    requires NeverSentinel(w.parseNative) && NeverSentinel(w.parseDeltas)
    ensures var p := HistoryProgram(w);
      && Halts(p) && RespectsSentinel(p) && (Fetchable(p, node) ==> Settled(p, node, 1))
      && IsRun(p, Live(node), d)
      && p(d) == Outcome(ListOutcome(w.parseNative(node(w.info)), w.parseDeltas(node(w.deltas))))
    ensures ListOutcome(w.parseNative(node(w.info)), w.parseDeltas(node(w.deltas))) != Err(AnswerNeeded)
  {
    hide Settled, Batches, RespectsSentinel, RepliesFit, IsRun, ListOutcome, HistoryProgram;
    HistoryHaltsAndRespects(w);
    assert HaltsOn(HistoryProgram(w), Live(node));
    d := RunOf(HistoryProgram(w), Live(node));
    HistoryMeaning(w, node, d);
    HistoryNeverStalls(w, node);
    if Fetchable(HistoryProgram(w), node) {
      SettlesByBatches(HistoryProgram(w), node, d, [0, 2]);
    }
  }

  /** Driven, `history` takes at most two rounds however many rows there are. */
  method DriveHistory(w: HistoryWire, node: string -> string) returns (r: Result<seq<Ledger.Entry>, Error>, rounds: nat)
    requires NeverSentinel(w.parseNative) && NeverSentinel(w.parseDeltas)
    ensures var direct := ListOutcome(w.parseNative(node(w.info)), w.parseDeltas(node(w.deltas)));
      && (r == direct || r == Err(Stalled))
      && (Fetchable(HistoryProgram(w), node) ==> r == direct && rounds <= 2)
  {
    hide Settled, Fetchable, Halts, RespectsSentinel, IsRun, ListOutcome, HistoryProgram;
    ghost var d := HistorySettles(w, node);
    r, rounds := DriveLoop((i: nat) => HistoryProgram(w), node, d);
  }
}
