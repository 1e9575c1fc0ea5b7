/**
  Which messages the decoders refuse, said of the records in them: lengths, widths, missing fields and
  text, at every depth. Everything else is accepted.
 */
module Refusals {
  import opened Base
  import opened Grpc
  import opened Messages
  import opened Proto
  import opened Records
  import T = TreeStates

  predicate IsBytes(r: Record, field: nat) {
    r.field == field && r.payload.Bytes?
  }

  predicate IsNumber(r: Record, field: nat) {
    r.field == field && r.payload.VarintValue?
  }

  /** The last payload of that field. */
  function LastBytes(records: seq<Record>, field: nat): Option<seq<Byte>> {
    if records == [] then None
    else
      var last := records[|records| - 1];
      if IsBytes(last, field) then Some(last.payload.data) else LastBytes(records[..|records| - 1], field)
  }

  // ---------------------------------------------------------------- outputs

  predicate GoodInOutput(r: Record) {
    && (IsBytes(r, 1) || IsBytes(r, 2) ==> |r.payload.data| == 32)
    && (IsBytes(r, 3) ==> |r.payload.data| == 52)
  }

  lemma {:induction false} PartsAre(records: seq<Record>)
    requires forall r :: r in records ==> GoodInOutput(r)
    ensures Fold(records, NO_PARTS, OutputStep) == Some(Parts(LastBytes(records, 1), LastBytes(records, 2), LastBytes(records, 3)))
  {
    if records != [] {
      var front, last := records[..|records| - 1], records[|records| - 1];
      assert records == front + [last];
      PartsAre(front);
      FoldConcat(front, [last], NO_PARTS, OutputStep);
      assert GoodInOutput(last) && [last][1..] == [];
    }
  }

  lemma OutputRefusals()
    ensures RefusesUnless(OutputStep, GoodInOutput)
  {
  }

  /** An output is accepted exactly when it is well formed, its three fields are there, and every time one occurs
      it has its length; and then it holds the last of each. */
  lemma OutputAcceptedIff(bytes: seq<Byte>)
    ensures OutputOf(bytes).Some? <==>
      && Parse(bytes).Some? && (forall r :: r in Parse(bytes).value ==> GoodInOutput(r))
      && LastBytes(Parse(bytes).value, 1).Some? && LastBytes(Parse(bytes).value, 2).Some? && LastBytes(Parse(bytes).value, 3).Some?
    ensures OutputOf(bytes).Some? ==>
      var records := Parse(bytes).value;
      OutputOf(bytes).value
        == CompactSaplingOutput(LastBytes(records, 1).value, LastBytes(records, 2).value, LastBytes(records, 3).value)
  {
    hide Run, Parse, Fold, LastBytes, RefusesUnless, OutputStep, GoodInOutput;
    OutputRefusals();
    RunAcceptsIff(bytes, NO_PARTS, OutputStep, GoodInOutput);
    RunIsFold(bytes, NO_PARTS, OutputStep);
    if Run(bytes, NO_PARTS, OutputStep).Some? {
      PartsAre(Parse(bytes).value);
    }
  }

  // ---------------------------------------------------------------- transactions and blocks

  predicate GoodInSpend(r: Record) {
    IsBytes(r, 1) ==> |r.payload.data| == 32
  }

  /** A spend is accepted exactly when it is well formed and its nullifiers have 32 bytes. */
  ghost predicate IsSpend(bytes: seq<Byte>) {
    Parse(bytes).Some? && forall r :: r in Parse(bytes).value ==> GoodInSpend(r)
  }

  ghost predicate GoodInTx(r: Record) {
    && (IsBytes(r, 2) ==> |r.payload.data| == 32)
    && (IsBytes(r, 4) ==> IsSpend(r.payload.data))
    && (IsBytes(r, 5) ==> OutputOf(r.payload.data).Some?)
  }

  lemma TxRefusals(tx: CompactTx, r: Record)
    ensures TxStep(tx, r).Some? <==> GoodInTx(r)
  {
    hide Run, Parse, OutputOf;
    assert RefusesUnless(SpendStep, GoodInSpend);
    if IsBytes(r, 4) {
      RunAcceptsIff(r.payload.data, tx.nullifiers, SpendStep, GoodInSpend);
    }
  }

  lemma TxAcceptedIff(bytes: seq<Byte>)
    ensures TxOf(bytes).Some? <==> Parse(bytes).Some? && forall r :: r in Parse(bytes).value ==> GoodInTx(r)
  {
    hide Run, Parse, GoodInTx, TxStep;
    forall tx: CompactTx, r: Record
      ensures TxStep(tx, r).Some? <==> GoodInTx(r)
    {
      TxRefusals(tx, r);
    }
    assert RefusesUnless(TxStep, r => GoodInTx(r));
    RunAcceptsIff(bytes, NO_TX, TxStep, r => GoodInTx(r));
  }

  ghost predicate GoodInBlock(r: Record) {
    && (IsBytes(r, 3) || IsBytes(r, 4) ==> |r.payload.data| == 32)
    && (IsNumber(r, 5) ==> r.payload.value <= 0xffff_ffff)
    && (IsBytes(r, 7) ==> TxOf(r.payload.data).Some?)
    && (IsBytes(r, 8) ==> Parse(r.payload.data).Some?)
  }

  lemma BlockRefusals(block: CompactBlock, r: Record)
    ensures BlockStep(block, r).Some? <==> GoodInBlock(r)
  {
    hide Run, Parse, TxOf;
    assert RefusesUnless(MetaStep, (x: Record) => true);
    if IsBytes(r, 8) {
      RunAcceptsIff(r.payload.data, block.treeSize, MetaStep, (x: Record) => true);
    }
  }

  /** A block is accepted exactly when it is well formed at every depth, its hashes have 32 bytes, its time 32
      bits, and every transaction in it is one. */
  lemma BlockAcceptedIff(bytes: seq<Byte>)
    ensures BlockOf(bytes).Some? <==> Parse(bytes).Some? && forall r :: r in Parse(bytes).value ==> GoodInBlock(r)
  {
    hide Run, Parse, GoodInBlock, BlockStep;
    forall block: CompactBlock, r: Record
      ensures BlockStep(block, r).Some? <==> GoodInBlock(r)
    {
      BlockRefusals(block, r);
    }
    assert RefusesUnless(BlockStep, r => GoodInBlock(r));
    RunAcceptsIff(bytes, NO_BLOCK, BlockStep, r => GoodInBlock(r));
  }

  // ---------------------------------------------------------------- identifiers and tree states

  predicate GoodInId(r: Record) {
    IsBytes(r, 2) ==> |r.payload.data| == 32
  }

  lemma BlockIdAcceptedIff(bytes: seq<Byte>)
    ensures BlockIdOf(bytes).Some? <==>
      bytes != [] && Parse(bytes).Some? && forall r :: r in Parse(bytes).value ==> GoodInId(r)
  {
    assert RefusesUnless(BlockIdStep, GoodInId);
    hide Run, Parse, RefusesUnless;
    RunAcceptsIff(bytes, NO_ID, BlockIdStep, GoodInId);
  }

  predicate GoodInState(r: Record, utf8: Utf8) {
    && (IsBytes(r, 1) || IsBytes(r, 3) || IsBytes(r, 5) ==> utf8(r.payload.data).Some?)
    && (IsNumber(r, 4) ==> r.payload.value <= 0xffff_ffff)
  }

  /** A tree state is accepted exactly when it is not empty, well formed, its texts are text and its time has 32 bits. */
  lemma StateAcceptedIff(bytes: seq<Byte>, utf8: Utf8)
    ensures T.StateOf(bytes, utf8).Some? <==>
      bytes != [] && Parse(bytes).Some? && forall r :: r in Parse(bytes).value ==> GoodInState(r, utf8)
  {
    assert RefusesUnless(T.StateStep(utf8), (r: Record) => GoodInState(r, utf8));
    hide Run, Parse, RefusesUnless, T.StateStep;
    RunAcceptsIff(bytes, T.NO_STATE, T.StateStep(utf8), (r: Record) => GoodInState(r, utf8));
  }
}
