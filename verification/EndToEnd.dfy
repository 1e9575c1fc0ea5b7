/**
  From a server's bytes to the wallet: the wire formats and the scan composed.

  The scan works on numbers where the wire has byte strings. A server is what it answers: bytes for a
  block range request, and bytes for a tree state request.
 */
module EndToEnd {
  import opened Base
  import opened Proto
  import C = Chain
  import F = Frontier
  import G = Grpc
  import L = LightClient
  import M = Messages
  import P = CompactFormats
  import R = Recovery
  import S = Scan
  import T = TreeStates
  import W = Wallet

  // ---------------------------------------------------------------- byte strings as numbers

  function Number(bytes: seq<Byte>): nat {
    if bytes == [] then 0 else 256 * Number(bytes[..|bytes| - 1]) + bytes[|bytes| - 1]
  }

  /** Of one length, different byte strings are different numbers. */
  lemma {:induction false} NumberIsInjective(a: seq<Byte>, b: seq<Byte>)
    requires |a| == |b| && Number(a) == Number(b)
    ensures a == b
  {
    if a != [] {
      var n := |a| - 1;
      LastDigit(Number(a[..n]), a[n], Number(b[..n]), b[n]);
      NumberIsInjective(a[..n], b[..n]);
      assert a == a[..n] + [a[n]] && b == b[..n] + [b[n]];
    }
  }

  lemma LastDigit(p: nat, x: Byte, q: nat, y: Byte)
    requires 256 * p + x == 256 * q + y
    ensures p == q && x == y
  {
  }

  function OutputOf(o: M.CompactSaplingOutput): C.Output {
    C.Output(Number(o.cmu), Number(o.epk + o.ciphertext))
  }

  function TxOf(tx: M.CompactTx): C.Tx {
    C.Tx(tx.index,
         seq(|tx.nullifiers|, i requires 0 <= i < |tx.nullifiers| => Number(tx.nullifiers[i])),
         seq(|tx.outputs|, i requires 0 <= i < |tx.outputs| => OutputOf(tx.outputs[i])))
  }

  function TxsOf(txs: seq<M.CompactTx>): seq<C.Tx> {
    seq(|txs|, i requires 0 <= i < |txs| => TxOf(txs[i]))
  }

  function BlockOf(b: M.CompactBlock): C.Block {
    C.Block(b.height, Number(b.hash), Number(b.prevHash), TxsOf(b.transactions), b.treeSize)
  }

  /** The chain the wallet sees in decoded blocks. */
  function ChainOf(blocks: seq<M.CompactBlock>): seq<C.Block> {
    seq(|blocks|, i requires 0 <= i < |blocks| => BlockOf(blocks[i]))
  }

  // ---------------------------------------------------------------- nothing the wallet needs is lost

  /** Alike in what the wallet reads of an output: its commitment, its key and its ciphertext. */
  predicate SameOutput(a: M.CompactSaplingOutput, b: M.CompactSaplingOutput) {
    a.cmu == b.cmu && a.epk == b.epk && a.ciphertext == b.ciphertext
  }

  lemma OutputsAreTold(a: M.CompactSaplingOutput, b: M.CompactSaplingOutput)
    requires P.IsOutput(a) && P.IsOutput(b)
    ensures OutputOf(a) == OutputOf(b) <==> SameOutput(a, b)
  {
    hide Number;
    if OutputOf(a) == OutputOf(b) {
      NumberIsInjective(a.cmu, b.cmu);
      NumberIsInjective(a.epk + a.ciphertext, b.epk + b.ciphertext);
      SameHalves(a.epk, a.ciphertext, b.epk, b.ciphertext);
    }
  }

  lemma SameHalves(a: seq<Byte>, b: seq<Byte>, c: seq<Byte>, d: seq<Byte>)
    requires |a| == |c| && a + b == c + d
    ensures a == c && b == d
  {
    assert a == (a + b)[..|a|] && b == (a + b)[|a|..] && c == (c + d)[..|c|] && d == (c + d)[|c|..];
  }

  /** Alike in index, nullifiers and outputs, in order. */
  predicate SameTransaction(a: M.CompactTx, b: M.CompactTx) {
    && a.index == b.index && a.nullifiers == b.nullifiers && |a.outputs| == |b.outputs|
    && forall i :: 0 <= i < |a.outputs| ==> SameOutput(a.outputs[i], b.outputs[i])
  }

  lemma TransactionsAreTold(a: M.CompactTx, b: M.CompactTx)
    requires P.IsTx(a) && P.IsTx(b)
    ensures TxOf(a) == TxOf(b) <==> SameTransaction(a, b)
  {
    hide Number, OutputOf, P.EncodeRecords;
    if TxOf(a) == TxOf(b) {
      assert |TxOf(a).nullifiers| == |a.nullifiers| && |TxOf(a).outputs| == |a.outputs|;
      assert |TxOf(b).nullifiers| == |b.nullifiers| && |TxOf(b).outputs| == |b.outputs|;
      forall i | 0 <= i < |a.nullifiers|
        ensures a.nullifiers[i] == b.nullifiers[i]
      {
        assert TxOf(a).nullifiers[i] == TxOf(b).nullifiers[i];
        NumberIsInjective(a.nullifiers[i], b.nullifiers[i]);
      }
      forall i | 0 <= i < |a.outputs|
        ensures SameOutput(a.outputs[i], b.outputs[i])
      {
        assert TxOf(a).outputs[i] == TxOf(b).outputs[i];
        OutputsAreTold(a.outputs[i], b.outputs[i]);
      }
    }
    if SameTransaction(a, b) {
      forall i | 0 <= i < |a.outputs|
        ensures OutputOf(a.outputs[i]) == OutputOf(b.outputs[i])
      {
        OutputsAreTold(a.outputs[i], b.outputs[i]);
      }
    }
  }

  /** Alike in height, both hashes, tree size and transactions, in order. */
  predicate SameForWallet(a: M.CompactBlock, b: M.CompactBlock) {
    && a.height == b.height && a.hash == b.hash && a.prevHash == b.prevHash && a.treeSize == b.treeSize
    && |a.transactions| == |b.transactions|
    && forall i :: 0 <= i < |a.transactions| ==> SameTransaction(a.transactions[i], b.transactions[i])
  }

  /** What a block is to the wallet is exactly these fields of it: nothing else counts and nothing of them is lost. */
  lemma BlocksAreTold(a: M.CompactBlock, b: M.CompactBlock)
    requires P.IsBlock(a) && P.IsBlock(b)
    ensures BlockOf(a) == BlockOf(b) <==> SameForWallet(a, b)
  {
    hide Number, TxOf, P.IsTx, SameTransaction;
    forall i | 0 <= i < |a.transactions| && i < |b.transactions|
      ensures TxOf(a.transactions[i]) == TxOf(b.transactions[i]) <==> SameTransaction(a.transactions[i], b.transactions[i])
    {
      assert P.IsTx(a.transactions[i]) && P.IsTx(b.transactions[i]);
      TransactionsAreTold(a.transactions[i], b.transactions[i]);
    }
    if BlockOf(a) == BlockOf(b) {
      NumberIsInjective(a.hash, b.hash);
      NumberIsInjective(a.prevHash, b.prevHash);
      assert |TxsOf(a.transactions)| == |a.transactions| && |TxsOf(b.transactions)| == |b.transactions|;
      forall i | 0 <= i < |a.transactions|
        ensures TxOf(a.transactions[i]) == TxOf(b.transactions[i])
      {
        assert TxsOf(a.transactions)[i] == TxsOf(b.transactions)[i];
      }
    }
  }

  // ---------------------------------------------------------------- the commitment tree

  predicate AllBlocks(blocks: seq<M.CompactBlock>) {
    forall i :: 0 <= i < |blocks| ==> P.IsBlock(blocks[i])
  }

  function TxLeaves(tx: M.CompactTx): (r: seq<F.Node>)
    requires P.IsTx(tx)
    ensures r == M.TxCommitments(tx)
  {
    seq(|tx.outputs|, i requires 0 <= i < |tx.outputs| => assert P.IsOutput(tx.outputs[i]); tx.outputs[i].cmu)
  }

  function TxsLeaves(txs: seq<M.CompactTx>): seq<F.Node>
    requires forall i :: 0 <= i < |txs| ==> P.IsTx(txs[i])
  {
    if txs == [] then [] else TxsLeaves(txs[..|txs| - 1]) + TxLeaves(txs[|txs| - 1])
  }

  /** Every commitment of the blocks, in tree order. */
  function Leaves(blocks: seq<M.CompactBlock>): seq<F.Node>
    requires AllBlocks(blocks)
  {
    if blocks == [] then []
    else Leaves(blocks[..|blocks| - 1]) + TxsLeaves(blocks[|blocks| - 1].transactions)
  }

  lemma {:induction false} TxsLeavesCount(height: nat, txs: seq<M.CompactTx>)
    requires forall i :: 0 <= i < |txs| ==> P.IsTx(txs[i])
    ensures |C.TxsOutputs(height, TxsOf(txs))| == |TxsLeaves(txs)|
  {
    hide P.IsTx;
    if txs != [] {
      var n := |txs| - 1;
      TxsLeavesCount(height, txs[..n]);
      assert TxsOf(txs)[..n] == TxsOf(txs[..n]);
    }
  }

  /** The tree grows by one leaf for every output the wallet counts. */
  lemma {:induction false} LeavesCount(blocks: seq<M.CompactBlock>)
    requires AllBlocks(blocks)
    ensures |C.Outputs(ChainOf(blocks))| == |Leaves(blocks)|
  {
    hide P.IsBlock, P.IsTx, C.TxsOutputs, TxsLeaves, TxsOf;
    if blocks != [] {
      var n := |blocks| - 1;
      LeavesCount(blocks[..n]);
      assert ChainOf(blocks)[..n] == ChainOf(blocks[..n]);
      TransactionsAreTxs(blocks[n]);
      TxsLeavesCount(blocks[n].height, blocks[n].transactions);
    }
  }

  lemma TransactionsAreTxs(b: M.CompactBlock)
    requires P.IsBlock(b)
    ensures forall i :: 0 <= i < |b.transactions| ==> P.IsTx(b.transactions[i])
  {
  }

  // ---------------------------------------------------------------- the server

  /** What the two calls of a scan are answered with. */
  datatype Server = Server(wire: L.Wire, trees: L.Wire, utf8: G.Utf8)

  /** What `block_range` returns from this server: the one list it serves, when the range is a legal one. */
  ghost function Fetched(server: Server, start: nat, end: nat): (r: Option<seq<M.CompactBlock>>)
    ensures start <= end < start + L.MAX_BLOCK_RANGE && end <= MAX_U64 ==>
      forall blocks :: L.Serves(server.wire(L.RequestBytes(start, end)), server.utf8, start, end, blocks) <==> r == Some(blocks)
    ensures !(start <= end < start + L.MAX_BLOCK_RANGE && end <= MAX_U64) ==> r == None
  {
    if start <= end < start + L.MAX_BLOCK_RANGE && end <= MAX_U64 then
      var answer := server.wire(L.RequestBytes(start, end));
      OneAnswer(answer, server.utf8, start, end);
      if blocks :| L.Serves(answer, server.utf8, start, end, blocks) then Some(blocks) else None
    else None
  }

  lemma OneAnswer(answer: Result<L.Response, L.LightError>, utf8: G.Utf8, start: nat, end: nat)
    ensures forall a, b :: L.Serves(answer, utf8, start, end, a) && L.Serves(answer, utf8, start, end, b) ==> a == b
  {
    hide G.BodyOf, M.BlockOf, CompleteRange;
  }

  /** The client does return it. */
  method FetchFrom(server: Server, start: nat, end: nat) returns (r: Option<seq<M.CompactBlock>>)
    requires start <= MAX_U64 && end <= MAX_U64
    ensures r == Fetched(server, start, end)
  {
    hide L.Serves;
    var answer := L.FetchRange(server.wire, server.utf8, start, end);
    return if answer.Ok? then Some(answer.value) else None;
  }

  /** A tree state as the scan uses it: the size of the parsed tree, and the counted leaves. */
  function TreeOf(state: T.TreeState): S.TreeReply {
    match T.HexDecoded(state.tree)
    case None => S.TreeReply(None, None)
    case Some(bytes) =>
      match F.Parsed(bytes)
      case None => S.TreeReply(None, None)
      case Some(f) => S.TreeReply(Some(seq(F.LeafCount(f), _ => 0)), Some(F.LeafCount(f)))
  }

  ghost function TreeFetched(server: Server, height: nat): Option<T.TreeState> {
    if height <= MAX_U64 then T.StateIn(server.trees(T.TreeRequest(height)), server.utf8) else None
  }

  /** The request, the message, the hexadecimal text and then each of the two parsers on its own. */
  method FetchTree(server: Server, height: nat) returns (r: Option<S.TreeReply>)
    requires height <= MAX_U64
    ensures r == LightOf(server).treeState(height)
  {
    hide T.StateIn, F.Parsed, F.LeafCount, T.HexDecoded;
    var state := T.FetchTreeState(server.trees, server.utf8, height);
    if state.Err? {
      return None;
    }
    var bytes := T.HexDecoded(state.value.tree);
    if bytes.None? {
      return Some(S.TreeReply(None, None));
    }
    var parsed := F.FromSerialized(bytes.value);
    var counted := F.CountLeaves(bytes.value);
    return Some(S.TreeReply(
                  if parsed.None? then None else Some(seq(F.LeafCount(parsed.value), _ => 0)), counted));
  }

  /** The server as the scan sees it, through the decoders. */
  ghost function LightOf(server: Server): S.Light {
    S.Light(
      (h: nat) => if TreeFetched(server, h).None? then None else Some(TreeOf(TreeFetched(server, h).value)),
      (a: nat, b: nat) => if Fetched(server, a, b).None? then None else Some(ChainOf(Fetched(server, a, b).value)))
  }

  /** A server that serves exactly these blocks, and after every height the frontier of their commitments. */
  ghost predicate Truthful(server: Server, blocks: seq<M.CompactBlock>, combine: F.Combine) {
    && AllBlocks(blocks) && |blocks| <= MAX_U64
    && |Leaves(blocks)| <= 0x1_0000_0000
    && (forall a: nat, b: nat :: a <= b < |blocks| && b < a + L.MAX_BLOCK_RANGE ==>
      L.Serves(server.wire(L.RequestBytes(a, b)), server.utf8, a, b, blocks[a..b + 1]))
    && (forall a: nat, b: nat, served: seq<M.CompactBlock> :: a <= b && |blocks| <= b <= MAX_U64 ==>
      !L.Serves(server.wire(L.RequestBytes(a, b)), server.utf8, a, b, served))
    && (forall h :: 0 <= h < |blocks| ==>
      TreeFetched(server, h).Some? && T.HexDecoded(TreeFetched(server, h).value.tree) == TreeAfter(blocks, h, combine))
  }

  ghost function TreeAfter(blocks: seq<M.CompactBlock>, h: nat, combine: F.Combine): Option<seq<Byte>>
    requires AllBlocks(blocks) && h < |blocks|
  {
    var f := F.AppendAll(Leaves(blocks[..h + 1]), combine);
    if |f.parents| <= F.MAX_LEVELS then Some(F.Encode(f)) else None
  }

  /** A stream of messages that carry the blocks, whatever other fields are in them, and a zero status serve the range. */
  lemma StreamServes(messages: seq<seq<Byte>>, blocks: seq<M.CompactBlock>, start: nat, end: nat, trailer: seq<Byte>, utf8: G.Utf8)
    requires AllBlocks(blocks) && CompleteRange(L.Heights(blocks), start, end)
    requires |messages| == |blocks|
    requires forall i :: 0 <= i < |blocks| ==> P.Carries(messages[i], blocks[i]) && |messages[i]| <= MAX_U32
    requires |trailer| <= MAX_U32 && utf8(trailer).Some?
    requires G.StatusIn(utf8(trailer).value).Some? && G.StatusIn(utf8(trailer).value).value.code == 0
    ensures G.AllFit(L.Stream(messages, trailer))
    ensures L.Serves(Ok(L.Response(None, G.EncodeFrames(L.Stream(messages, trailer)))), utf8, start, end, blocks)
  {
    hide P.Carries, P.IsBlock, L.Serves, L.AreBlocks, G.StatusIn, G.EncodeFrames, G.AllFit;
    P.StreamIsBlocks(messages, blocks);
    L.HonestStreamServes(messages, trailer, utf8, start, end, blocks);
  }

  /** A tree state whose text is the frontier in hexadecimal, and a zero status, hand over that frontier. */
  lemma StateHandsOver(t: T.TreeState, f: F.Frontier, trailer: seq<Byte>, utf8: G.Utf8)
    requires |f.parents| <= F.MAX_LEVELS && t.tree == T.HexEncoded(F.Encode(f))
    requires T.IsTreeState(t, utf8) && |T.EncodeTreeState(t)| <= MAX_U32
    requires |trailer| <= MAX_U32 && utf8(trailer).Some?
    requires G.StatusIn(utf8(trailer).value).Some? && G.StatusIn(utf8(trailer).value).value.code == 0
    ensures G.AllFit(L.Stream([T.EncodeTreeState(t)], trailer))
    ensures T.StateIn(Ok(L.Response(None, G.EncodeFrames(L.Stream([T.EncodeTreeState(t)], trailer)))), utf8) == Some(t)
    ensures TreeOf(t) == S.TreeReply(Some(seq(F.LeafCount(f), _ => 0)), Some(F.LeafCount(f)))
  {
    hide T.EncodeTreeState, T.StateIn, G.StatusIn, G.EncodeFrames, G.AllFit, F.Parsed, F.LeafCount;
    T.HexRoundTrip(F.Encode(f));
    F.EncodedParses(f);
    T.StateServes(t, trailer, utf8);
  }

  // ---------------------------------------------------------------- what a scan can tell apart

  ghost predicate SameTree(a: Option<S.TreeReply>, b: Option<S.TreeReply>) {
    && a.Some? == b.Some?
    && (a.Some? ==>
      && a.value.counted == b.value.counted
      && a.value.parsed.Some? == b.value.parsed.Some?
      && (a.value.parsed.Some? ==> |a.value.parsed.value| == |b.value.parsed.value|))
  }

  ghost predicate NothingFrom(light: S.Light, start: nat) {
    forall end: nat :: start <= end < start + S.SCAN_CHUNK ==> light.blocks(start, end) == None
  }

  /** The same blocks in requests of at most one chunk, and the same tree sizes where blocks follow. */
  ghost predicate SameToScan(a: S.Light, b: S.Light) {
    && (forall x: nat, y: nat :: x <= y < x + S.SCAN_CHUNK ==> a.blocks(x, y) == b.blocks(x, y))
    && (forall h: nat :: SameTree(a.treeState(h), b.treeState(h)) || NothingFrom(a, h + 1))
  }

  lemma SameChunk(a: S.Light, b: S.Light, key: C.Key, start: nat, end: nat, prev: Option<C.Digest>)
    requires SameToScan(a, b) && 1 <= start <= end < start + S.SCAN_CHUNK
    ensures S.ScanChunk(a, key, start, end, prev) == S.ScanChunk(b, key, start, end, prev)
  {
    hide C.Outputs, C.Detect, C.AllValid, S.LinkedAfter, CompleteRange;
    assert SameTree(a.treeState(start - 1), b.treeState(start - 1)) || NothingFrom(a, start - 1 + 1);
  }

  /** A scan uses a server for nothing else. */
  lemma {:induction false} SameScan(a: S.Light, b: S.Light, key: C.Key, start: nat, tip: nat, prev: Option<C.Digest>)
    requires SameToScan(a, b) && 1 <= start
    ensures S.ScanFrom(a, key, start, tip, prev) == S.ScanFrom(b, key, start, tip, prev)
    decreases 1 + tip - start
  {
    hide S.ScanChunk, SameToScan;
    if start <= tip {
      var end := S.ChunkEnd(start, tip);
      SameChunk(a, b, key, start, end, prev);
      var chunk := S.ScanChunk(a, key, start, end, prev);
      if chunk.Ok? {
        SameScan(a, b, key, end + 1, tip, Some(S.LastHash(chunk.value.blocks, 0)));
      }
    }
  }

  /** So it has the same outcome, whatever it starts from and however far it is to go. */
  lemma SameOutcome(a: S.Light, b: S.Light, key: C.Key, from: nat, to: nat, follows: Option<C.Digest>)
    requires SameToScan(a, b)
    ensures S.ScanOutcome(a, key, from, to, follows) == S.ScanOutcome(b, key, from, to, follows)
  {
    hide S.ScanFrom, SameToScan;
    if from != 0 {
      SameScan(a, b, key, from, to, follows);
    }
  }

  // ---------------------------------------------------------------- a truthful server, through the decoders

  /** The server the scan's reference is stated for: it knows the leaves themselves. */
  ghost function Ideal(chain: seq<C.Block>): S.Light {
    S.Light(
      (h: nat) =>
        if h < |chain| then Some(S.TreeReply(Some(C.Cmus(C.Outputs(chain[..h + 1]))), Some(|C.Outputs(chain[..h + 1])|)))
        else None,
      (a: nat, b: nat) => if a <= b < |chain| then Some(chain[a..b + 1]) else None)
  }

  lemma ChainPiece(blocks: seq<M.CompactBlock>, a: nat, b: nat)
    requires a <= b < |blocks|
    ensures ChainOf(blocks)[a..b + 1] == ChainOf(blocks[a..b + 1])
  {
  }

  lemma PrefixOfBlocks(blocks: seq<M.CompactBlock>, n: nat)
    requires AllBlocks(blocks) && n <= |blocks|
    ensures AllBlocks(blocks[..n]) && ChainOf(blocks)[..n] == ChainOf(blocks[..n])
    ensures |Leaves(blocks[..n])| <= |Leaves(blocks)|
  {
    hide P.IsBlock, Leaves;
    assert ChainOf(blocks)[..n] + ChainOf(blocks)[n..] == ChainOf(blocks);
    C.OutputsConcat(ChainOf(blocks)[..n], ChainOf(blocks)[n..]);
    LeavesCount(blocks[..n]);
    LeavesCount(blocks);
  }

  /** The two parsers of the frontier agree with the number of outputs so far. */
  lemma TreeIsTrue(server: Server, blocks: seq<M.CompactBlock>, combine: F.Combine, h: nat)
    requires Truthful(server, blocks, combine) && h < |blocks|
    ensures LightOf(server).treeState(h).Some?
    ensures SameTree(LightOf(server).treeState(h), Ideal(ChainOf(blocks)).treeState(h))
  {
    hide C.Outputs, F.AppendAll, F.LeafCount, F.Parsed, F.Encode, Leaves, P.IsBlock, L.Serves, BlockOf, Fetched, TreeFetched, T.HexDecoded;
    PrefixOfBlocks(blocks, h + 1);
    F.CountIsLeaves(Leaves(blocks[..h + 1]), combine);
    LeavesCount(blocks[..h + 1]);
  }

  lemma BlocksAreTrue(server: Server, blocks: seq<M.CompactBlock>, combine: F.Combine, a: nat, b: nat)
    requires Truthful(server, blocks, combine) && a <= b < a + S.SCAN_CHUNK
    ensures LightOf(server).blocks(a, b) == Ideal(ChainOf(blocks)).blocks(a, b)
  {
    hide C.Outputs, Leaves, P.IsBlock, L.Serves, TreeAfter, TreeFetched, TreeOf, AllBlocks, BlockOf;
    if b < |blocks| {
      ChainPiece(blocks, a, b);
    }
  }

  lemma TruthfulIsIdeal(server: Server, blocks: seq<M.CompactBlock>, combine: F.Combine)
    requires Truthful(server, blocks, combine)
    ensures SameToScan(LightOf(server), Ideal(ChainOf(blocks)))
  {
    hide Truthful, SameTree, LightOf, Ideal;
    IdealEnds(ChainOf(blocks));
    forall x: nat, y: nat | x <= y < x + S.SCAN_CHUNK
      ensures LightOf(server).blocks(x, y) == Ideal(ChainOf(blocks)).blocks(x, y)
    {
      BlocksAreTrue(server, blocks, combine, x, y);
    }
    forall h: nat
      ensures SameTree(LightOf(server).treeState(h), Ideal(ChainOf(blocks)).treeState(h)) || NothingFrom(LightOf(server), h + 1)
    {
      if h < |blocks| {
        TreeIsTrue(server, blocks, combine, h);
      }
    }
  }

  lemma IdealEnds(chain: seq<C.Block>)
    ensures forall a: nat, b: nat :: b >= |chain| ==> Ideal(chain).blocks(a, b) == None
  {
  }

  /** Blocks a wallet can scan: linked, with canonical commitments and true counters. */
  ghost predicate GoodChain(key: C.Key, chain: seq<C.Block>) {
    && C.Linked(chain) && C.AllValid(key, C.Outputs(chain))
    && forall h :: 0 <= h < |chain| && chain[h].treeSize.Some? ==> chain[h].treeSize.value == |C.Outputs(chain[..h + 1])|
  }

  lemma IdealIsHonest(key: C.Key, chain: seq<C.Block>)
    requires GoodChain(key, chain)
    ensures W.Honest(Ideal(chain), key, chain)
  {
    hide C.Outputs, C.AllValid, C.Linked;
  }

  /**
    End to end: a scan that fetches bytes, splits frames, decodes messages and blocks, reads the
    hexadecimal frontier with both parsers and counts positions leaves, against a truthful server, exactly
    the reference wallet of the chain it serves, or reports the reorganisation, or fails past the tip.
   */
  lemma TruthfulBytesScan(server: Server, blocks: seq<M.CompactBlock>, combine: F.Combine, key: C.Key,
                          from: nat, to: nat, follows: Option<C.Digest>)
    requires Truthful(server, blocks, combine) && GoodChain(key, ChainOf(blocks)) && 1 <= from <= to
    ensures to < |blocks| ==>
      S.ScanOutcome(LightOf(server), key, from, to, follows)
        == if follows.Some? && follows.value != ChainOf(blocks)[from - 1].hash then Err(S.Reorged)
           else Ok(W.Reference(key, ChainOf(blocks), from, to))
    ensures to >= |blocks| ==> S.ScanOutcome(LightOf(server), key, from, to, follows).Err?
  {
    hide Truthful, GoodChain, LightOf, SameToScan, Ideal, S.ScanFrom, W.Honest, W.ReferenceWalk, S.StateOf;
    var chain := ChainOf(blocks);
    IdealIsHonest(key, chain);
    TruthfulIsIdeal(server, blocks, combine);
    SameOutcome(LightOf(server), Ideal(chain), key, from, to, follows);
    if to < |blocks| {
      W.HonestScan(Ideal(chain), key, chain, from, to, follows);
    } else {
      R.BeyondTheTip(Ideal(chain), key, chain, from, to, follows);
    }
  }
}
