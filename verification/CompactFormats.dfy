/**
  The server's side of the compact messages: the canonical `proto3` encoding of a block, and the
  decoders of `Messages` as its inverse.

  Scalars equal to zero are not transmitted; the tree size is an optional field and is, also at zero.
 */
module CompactFormats {
  import opened Base
  import opened Messages
  import opened Proto
  import opened Records
  import LightClient

  // ---------------------------------------------------------------- records

  predicate Writable(r: Record) {
    && 1 <= r.field <= MAX_U32
    && match r.payload
       case VarintValue(value) => value <= MAX_U64
       case Bytes(data) => |data| <= MAX_U64
       case _ => false
  }

  predicate AllWritable(records: seq<Record>) {
    forall i :: 0 <= i < |records| ==> Writable(records[i])
  }

  function EncodeRecord(r: Record): seq<Byte> {
    match r.payload
    case VarintValue(value) => EncodeTag(r.field, WIRE_VARINT) + EncodeVarint(value)
    case Bytes(data) => EncodeMessageField(r.field, data)
    case _ => []
  }

  function EncodeRecords(records: seq<Record>): seq<Byte> {
    if records == [] then [] else EncodeRecord(records[0]) + EncodeRecords(records[1..])
  }

  lemma RecordRoundTrip(r: Record, rest: seq<Byte>)
    requires Writable(r)
    ensures ReadRecord(EncodeRecord(r) + rest) == Some(Taken(r, |EncodeRecord(r)|))
  {
    hide ReadVarint, EncodeVarint, EncodeTag, ReadBytes;
    match r.payload
    case VarintValue(value) =>
      var tag, body := EncodeTag(r.field, WIRE_VARINT), EncodeVarint(value);
      TagRoundTrip(r.field, WIRE_VARINT, body + rest);
      VarintRoundTrip(value, rest);
      assert tag + body + rest == tag + (body + rest) && (tag + (body + rest))[|tag|..] == body + rest;
    case Bytes(data) =>
      MessageFieldRoundTrip(r.field, data, rest);
  }

  /** Any list of records is read back from its encoding. */
  lemma {:induction false} RecordsRoundTrip(records: seq<Record>)
    requires AllWritable(records)
    ensures Parse(EncodeRecords(records)) == Some(records)
    decreases |records|
  {
    hide ReadRecord, EncodeRecord, Writable;
    if records != [] {
      var first, rest := EncodeRecord(records[0]), EncodeRecords(records[1..]);
      RecordRoundTrip(records[0], rest);
      RecordsRoundTrip(records[1..]);
      assert (first + rest)[|first|..] == rest;
      assert [records[0]] + records[1..] == records;
    }
  }

  lemma RunOfRecords<T>(records: seq<Record>, value: T, step: Update<T>)
    requires AllWritable(records)
    ensures Run(EncodeRecords(records), value, step) == Fold(records, value, step)
  {
    hide Run, Parse, EncodeRecords;
    RecordsRoundTrip(records);
    RunIsFold(EncodeRecords(records), value, step);
  }

  // ---------------------------------------------------------------- encoding

  function Scalar(field: nat, value: nat): seq<Record> {
    if value == 0 then [] else [Record(field, VarintValue(value))]
  }

  function Filled(field: nat, data: seq<Byte>): seq<Record> {
    if data == [] then [] else [Record(field, Bytes(data))]
  }

  function OutputRecords(o: CompactSaplingOutput): seq<Record> {
    [Record(1, Bytes(o.cmu)), Record(2, Bytes(o.epk)), Record(3, Bytes(o.ciphertext))]
  }

  function SpendRecords(nullifiers: seq<seq<Byte>>): seq<Record> {
    seq(|nullifiers|, i requires 0 <= i < |nullifiers| => Record(4, Bytes(EncodeRecords([Record(1, Bytes(nullifiers[i]))]))))
  }

  function OutputFields(outputs: seq<CompactSaplingOutput>): seq<Record> {
    seq(|outputs|, i requires 0 <= i < |outputs| => Record(5, Bytes(EncodeRecords(OutputRecords(outputs[i])))))
  }

  function TxRecords(tx: CompactTx): seq<Record> {
    Scalar(1, tx.index) + [Record(2, Bytes(tx.hash))] + SpendRecords(tx.nullifiers) + OutputFields(tx.outputs)
  }

  function TxFields(transactions: seq<CompactTx>): seq<Record> {
    seq(|transactions|, i requires 0 <= i < |transactions| => Record(7, Bytes(EncodeRecords(TxRecords(transactions[i])))))
  }

  function MetaFields(treeSize: Option<nat>): seq<Record> {
    if treeSize.None? then [] else [Record(8, Bytes(EncodeRecords([Record(1, VarintValue(treeSize.value))])))]
  }

  function BlockRecords(b: CompactBlock): seq<Record> {
    HeadRecords(b) + TxFields(b.transactions) + MetaFields(b.treeSize)
  }

  function HeadRecords(b: CompactBlock): seq<Record> {
    Scalar(2, b.height) + [Record(3, Bytes(b.hash)), Record(4, Bytes(b.prevHash))] + Scalar(5, b.time)
  }

  function EncodeBlock(b: CompactBlock): seq<Byte> {
    EncodeRecords(BlockRecords(b))
  }

  // ---------------------------------------------------------------- what a block may hold

  predicate IsHash(h: seq<Byte>) {
    |h| == HASH_SIZE
  }

  predicate IsOutput(o: CompactSaplingOutput) {
    IsHash(o.cmu) && IsHash(o.epk) && |o.ciphertext| == COMPACT_NOTE_SIZE
  }

  /** Field widths, and an encoding short enough to be sent inside a block. */
  predicate IsTx(tx: CompactTx) {
    && tx.index <= MAX_U64 && IsHash(tx.hash)
    && (forall i :: 0 <= i < |tx.nullifiers| ==> IsHash(tx.nullifiers[i]))
    && (forall i :: 0 <= i < |tx.outputs| ==> IsOutput(tx.outputs[i]))
    && |EncodeRecords(TxRecords(tx))| <= MAX_U64
  }

  predicate IsBlock(b: CompactBlock) {
    && b.height <= MAX_U64 && IsHash(b.hash) && IsHash(b.prevHash) && b.time <= MAX_U32
    && (forall i :: 0 <= i < |b.transactions| ==> IsTx(b.transactions[i]))
    && (b.treeSize.Some? ==> b.treeSize.value <= MAX_U64)
  }

  // ---------------------------------------------------------------- round trips

  lemma FieldLength(r: Record)
    requires Writable(r)
    ensures |EncodeRecord(r)| <= 20 + if r.payload.Bytes? then |r.payload.data| else 0
  {
    hide EncodeVarint, ReadVarint;
    VarintRoundTrip(r.field * 8 + WIRE_VARINT, []);
    VarintRoundTrip(r.field * 8 + WIRE_BYTES, []);
    match r.payload
    case VarintValue(value) => VarintRoundTrip(value, []);
    case Bytes(data) => VarintRoundTrip(|data|, []);
  }

  lemma SpendRoundTrip(nullifier: seq<Byte>, before: seq<seq<Byte>>)
    requires IsHash(nullifier)
    ensures |EncodeRecords([Record(1, Bytes(nullifier))])| <= MAX_U64
    ensures Run(EncodeRecords([Record(1, Bytes(nullifier))]), before, SpendStep) == Some(before + [nullifier])
  {
    hide Run, EncodeRecord;
    var r := Record(1, Bytes(nullifier));
    FieldLength(r);
    assert [r][1..] == [];
    RunOfRecords([r], before, SpendStep);
    assert Fold([r], before, SpendStep) == Fold([], before + [nullifier], SpendStep);
  }

  lemma MetaRoundTrip(size: nat, before: Option<nat>)
    requires size <= MAX_U64
    ensures |EncodeRecords([Record(1, VarintValue(size))])| <= MAX_U64
    ensures Run(EncodeRecords([Record(1, VarintValue(size))]), before, MetaStep) == Some(Some(size))
  {
    hide Run, EncodeRecord;
    var r := Record(1, VarintValue(size));
    FieldLength(r);
    assert [r][1..] == [];
    RunOfRecords([r], before, MetaStep);
    assert Fold([r], before, MetaStep) == Fold([], Some(size), MetaStep);
  }

  /** A served output decodes to itself. */
  lemma OutputRoundTrip(o: CompactSaplingOutput)
    requires IsOutput(o)
    ensures |EncodeRecords(OutputRecords(o))| <= MAX_U64
    ensures OutputOf(EncodeRecords(OutputRecords(o))) == Some(o)
  {
    hide Run, Fold, EncodeRecords;
    var records := OutputRecords(o);
    OutputLength(o);
    RunOfRecords(records, NO_PARTS, OutputStep);
    var one := Parts(Some(o.cmu), None, None);
    var two := one.(epk := Some(o.epk));
    var (r, s, t) := (records[0], records[1], records[2]);
    assert records == [r] + [s] + [t];
    FoldConcat([r] + [s], [t], NO_PARTS, OutputStep);
    FoldConcat([r], [s], NO_PARTS, OutputStep);
    FoldOne(r, NO_PARTS, OutputStep);
    FoldOne(s, one, OutputStep);
    FoldOne(t, two, OutputStep);
  }

  lemma OutputLength(o: CompactSaplingOutput)
    requires IsOutput(o)
    ensures |EncodeRecords(OutputRecords(o))| <= 200
  {
    hide EncodeRecord;
    var records := OutputRecords(o);
    FieldLength(records[0]);
    FieldLength(records[1]);
    FieldLength(records[2]);
    var (r, s, t) := (records[0], records[1], records[2]);
    assert records[1..] == [s, t] && [s, t][1..] == [t] && [t][1..] == [];
    assert EncodeRecords([t]) == EncodeRecord(t) + [];
    assert EncodeRecords([s, t]) == EncodeRecord(s) + EncodeRecords([t]);
    assert EncodeRecords(records) == EncodeRecord(r) + EncodeRecords([s, t]);
  }

  lemma {:induction false} SpendsFold(nullifiers: seq<seq<Byte>>, tx: CompactTx)
    requires forall i :: 0 <= i < |nullifiers| ==> IsHash(nullifiers[i])
    ensures Fold(SpendRecords(nullifiers), tx, TxStep) == Some(tx.(nullifiers := tx.nullifiers + nullifiers))
    decreases |nullifiers|
  {
    hide Run, EncodeRecords, IsHash;
    if nullifiers == [] {
      assert tx.nullifiers + nullifiers == tx.nullifiers;
    } else {
      SpendRoundTrip(nullifiers[0], tx.nullifiers);
      assert SpendRecords(nullifiers)[1..] == SpendRecords(nullifiers[1..]);
      SpendsFold(nullifiers[1..], tx.(nullifiers := tx.nullifiers + [nullifiers[0]]));
      assert tx.nullifiers + [nullifiers[0]] + nullifiers[1..] == tx.nullifiers + nullifiers;
    }
  }

  lemma {:induction false} OutputsFold(outputs: seq<CompactSaplingOutput>, tx: CompactTx)
    requires forall i :: 0 <= i < |outputs| ==> IsOutput(outputs[i])
    ensures Fold(OutputFields(outputs), tx, TxStep) == Some(tx.(outputs := tx.outputs + outputs))
    decreases |outputs|
  {
    hide Run, EncodeRecords, OutputOf, OutputRecords, IsOutput;
    if outputs == [] {
      assert tx.outputs + outputs == tx.outputs;
    } else {
      OutputRoundTrip(outputs[0]);
      assert OutputFields(outputs)[1..] == OutputFields(outputs[1..]);
      OutputsFold(outputs[1..], tx.(outputs := tx.outputs + [outputs[0]]));
      assert tx.outputs + [outputs[0]] + outputs[1..] == tx.outputs + outputs;
    }
  }

  lemma FoldOne<T>(r: Record, value: T, step: Update<T>)
    ensures Fold([r], value, step) == step(value, r)
  {
    assert [r][1..] == [];
  }

  lemma TxWritable(tx: CompactTx)
    requires IsTx(tx)
    ensures AllWritable(TxRecords(tx))
  {
    hide EncodeRecords, OutputRecords, IsOutput;
    forall i | 0 <= i < |tx.nullifiers|
      ensures Writable(SpendRecords(tx.nullifiers)[i])
    {
      SpendRoundTrip(tx.nullifiers[i], []);
    }
    forall i | 0 <= i < |tx.outputs|
      ensures Writable(OutputFields(tx.outputs)[i])
    {
      OutputRoundTrip(tx.outputs[i]);
    }
  }

  /** A served transaction decodes to itself. */
  lemma TxRoundTrip(tx: CompactTx)
    requires IsTx(tx)
    ensures TxOf(EncodeRecords(TxRecords(tx))) == Some(tx)
  {
    hide Run, Fold, EncodeRecords, SpendRecords, OutputFields, IsOutput;
    TxWritable(tx);
    RunOfRecords(TxRecords(tx), NO_TX, TxStep);
    var head := Scalar(1, tx.index) + [Record(2, Bytes(tx.hash))];
    var spends, outputs := SpendRecords(tx.nullifiers), OutputFields(tx.outputs);
    var named := CompactTx(tx.index, tx.hash, [], []);
    FoldConcat(head + spends, outputs, NO_TX, TxStep);
    FoldConcat(head, spends, NO_TX, TxStep);
    FoldConcat(Scalar(1, tx.index), [Record(2, Bytes(tx.hash))], NO_TX, TxStep);
    ScalarFold(1, tx.index, NO_TX, TxStep);
    FoldOne(Record(2, Bytes(tx.hash)), NO_TX.(index := tx.index), TxStep);
    SpendsFold(tx.nullifiers, named);
    assert [] + tx.nullifiers == tx.nullifiers && [] + tx.outputs == tx.outputs;
    OutputsFold(tx.outputs, named.(nullifiers := tx.nullifiers));
  }

  /** A scalar that is not transmitted leaves the value as it is. */
  lemma ScalarFold<T>(field: nat, v: nat, value: T, step: Update<T>)
    ensures Fold(Scalar(field, v), value, step)
         == if v == 0 then Some(value) else step(value, Record(field, VarintValue(v)))
  {
    if v != 0 {
      FoldOne(Record(field, VarintValue(v)), value, step);
    }
  }

  lemma {:induction false} TxsFold(transactions: seq<CompactTx>, b: CompactBlock)
    requires forall i :: 0 <= i < |transactions| ==> IsTx(transactions[i])
    ensures Fold(TxFields(transactions), b, BlockStep) == Some(b.(transactions := b.transactions + transactions))
    decreases |transactions|
  {
    hide EncodeRecords, TxOf, TxRecords, IsTx, Run;
    if transactions == [] {
      assert b.transactions + transactions == b.transactions;
    } else {
      TxRoundTrip(transactions[0]);
      assert TxFields(transactions)[1..] == TxFields(transactions[1..]);
      TxsFold(transactions[1..], b.(transactions := b.transactions + [transactions[0]]));
      assert b.transactions + [transactions[0]] + transactions[1..] == b.transactions + transactions;
    }
  }

  lemma BlockWritable(b: CompactBlock)
    requires IsBlock(b)
    ensures AllWritable(BlockRecords(b))
  {
    hide EncodeRecords, TxFields, MetaFields, Writable, IsTx;
    TxFieldsWritable(b.transactions);
    MetaFieldsWritable(b.treeSize);
    ScalarWritable(2, b.height);
    ScalarWritable(5, b.time);
    BytesWritable(3, b.hash);
    BytesWritable(4, b.prevHash);
  }

  lemma BytesWritable(field: nat, data: seq<Byte>)
    requires 1 <= field <= MAX_U32 && |data| <= MAX_U64
    ensures Writable(Record(field, Bytes(data)))
  {
  }

  lemma ScalarWritable(field: nat, value: nat)
    requires 1 <= field <= MAX_U32 && value <= MAX_U64
    ensures AllWritable(Scalar(field, value))
  {
  }

  lemma TxFieldsWritable(transactions: seq<CompactTx>)
    requires forall i :: 0 <= i < |transactions| ==> IsTx(transactions[i])
    ensures AllWritable(TxFields(transactions))
  {
    hide EncodeRecords, TxRecords, IsOutput;
    forall i | 0 <= i < |transactions|
      ensures Writable(TxFields(transactions)[i])
    {
      assert IsTx(transactions[i]);
    }
  }

  lemma MetaFieldsWritable(treeSize: Option<nat>)
    requires treeSize.Some? ==> treeSize.value <= MAX_U64
    ensures AllWritable(MetaFields(treeSize))
  {
    hide EncodeRecords;
    if treeSize.Some? {
      MetaRoundTrip(treeSize.value, None);
    }
  }

  lemma MetaFold(b: CompactBlock, treeSize: Option<nat>)
    requires b.treeSize == None && (treeSize.Some? ==> treeSize.value <= MAX_U64)
    ensures Fold(MetaFields(treeSize), b, BlockStep) == Some(b.(treeSize := treeSize))
  {
    hide EncodeRecords, Run;
    if treeSize.Some? {
      MetaRoundTrip(treeSize.value, None);
      FoldOne(MetaFields(treeSize)[0], b, BlockStep);
    }
  }

  lemma HeadFold(b: CompactBlock)
    requires IsBlock(b)
    ensures Fold(HeadRecords(b), NO_BLOCK, BlockStep)
         == Some(CompactBlock(b.height, b.hash, b.prevHash, b.time, [], None))
  {
    hide Fold, IsTx;
    var height, time := Scalar(2, b.height), Scalar(5, b.time);
    var hash, prevHash := Record(3, Bytes(b.hash)), Record(4, Bytes(b.prevHash));
    var one := NO_BLOCK.(height := b.height);
    var two := one.(hash := b.hash);
    var three := two.(prevHash := b.prevHash);
    FoldConcat(height + [hash, prevHash], time, NO_BLOCK, BlockStep);
    FoldConcat(height, [hash, prevHash], NO_BLOCK, BlockStep);
    ScalarFold(2, b.height, NO_BLOCK, BlockStep);
    assert [hash, prevHash] == [hash] + [prevHash];
    FoldConcat([hash], [prevHash], one, BlockStep);
    FoldOne(hash, one, BlockStep);
    FoldOne(prevHash, two, BlockStep);
    ScalarFold(5, b.time, three, BlockStep);
  }

  /** The canonical encoding of a block decodes to it, whatever scalars were left out because they are zero. */
  lemma BlockRoundTrip(b: CompactBlock)
    requires IsBlock(b)
    ensures BlockOf(EncodeBlock(b)) == Some(b)
  {
    hide Run, Fold, EncodeRecords, HeadRecords, TxFields, MetaFields, IsTx, AllWritable;
    BlockWritable(b);
    RunOfRecords(BlockRecords(b), NO_BLOCK, BlockStep);
    var head := HeadRecords(b);
    var txs, meta := TxFields(b.transactions), MetaFields(b.treeSize);
    FoldConcat(head + txs, meta, NO_BLOCK, BlockStep);
    FoldConcat(head, txs, NO_BLOCK, BlockStep);
    HeadFold(b);
    var bare := CompactBlock(b.height, b.hash, b.prevHash, b.time, [], None);
    TxsFold(b.transactions, bare);
    assert [] + b.transactions == b.transactions;
    MetaFold(bare.(transactions := b.transactions), b.treeSize);
  }

  // ---------------------------------------------------------------- fields the wallet does not read

  /** The message carries the fields of the block, and anything else at any depth. */
  ghost predicate Carries(message: seq<Byte>, b: CompactBlock) {
    SameBlock(EncodeBlock(b), message)
  }

  /** Every message that carries a block decodes to it. */
  lemma CarriedBlock(message: seq<Byte>, b: CompactBlock)
    requires IsBlock(b) && Carries(message, b)
    ensures BlockOf(message) == Some(b)
  {
    hide BlockOf, EncodeBlock, SameBlock, IsBlock;
    BlockRoundTrip(b);
    BlockIgnoresUnknown(EncodeBlock(b), message);
  }

  /** What a server's blocks also hold: a protocol version, the full header, a fee for each transaction. */
  datatype Extras = Extras(version: nat, header: seq<Byte>, fees: nat -> nat)

  function FullTxRecords(tx: CompactTx, fee: nat): seq<Record> {
    Scalar(1, tx.index) + [Record(2, Bytes(tx.hash))] + Scalar(3, fee) + SpendRecords(tx.nullifiers) + OutputFields(tx.outputs)
  }

  function FullTxFields(transactions: seq<CompactTx>, fees: nat -> nat): seq<Record> {
    seq(|transactions|, i requires 0 <= i < |transactions| =>
      Record(7, Bytes(EncodeRecords(FullTxRecords(transactions[i], fees(i))))))
  }

  function FullRecords(b: CompactBlock, x: Extras): seq<Record> {
    Scalar(1, x.version) + HeadRecords(b) + Filled(6, x.header) + FullTxFields(b.transactions, x.fees) + MetaFields(b.treeSize)
  }

  /** The encoding in the order of the field numbers, every field of the message included. */
  function EncodeFull(b: CompactBlock, x: Extras): seq<Byte> {
    EncodeRecords(FullRecords(b, x))
  }

  predicate IsExtras(b: CompactBlock, x: Extras) {
    && x.version <= MAX_U32 && |x.header| <= MAX_U64
    && forall i :: 0 <= i < |b.transactions| ==>
      x.fees(i) <= MAX_U32 && |EncodeRecords(FullTxRecords(b.transactions[i], x.fees(i)))| <= MAX_U64
  }

  lemma KnownOfRecords(records: seq<Record>, known: Record -> bool)
    requires AllWritable(records)
    ensures KnownOf(EncodeRecords(records), known) == Some(Filter(records, known))
  {
    hide Parse, EncodeRecords, Filter;
    RecordsRoundTrip(records);
  }

  /** Unknown records are filtered out, the known ones around them are kept. */
  lemma FilterTwoRuns(u: seq<Record>, a: seq<Record>, v: seq<Record>, b: seq<Record>, c: seq<Record>, known: Record -> bool)
    requires (forall r :: r in a ==> known(r)) && (forall r :: r in b ==> known(r)) && (forall r :: r in c ==> known(r))
    requires (forall r :: r in u ==> !known(r)) && (forall r :: r in v ==> !known(r))
    ensures Filter(u + a + v + b + c, known) == a + b + c
  {
    hide Filter;
    FilterConcat(u + a + v + b, c, known);
    FilterConcat(u + a + v, b, known);
    FilterConcat(u + a, v, known);
    FilterConcat(u, a, known);
    FilterNone(u, known);
    FilterAll(a, known);
    FilterNone(v, known);
    FilterAll(b, known);
    FilterAll(c, known);
    assert [] + a + [] == a;
  }

  lemma FullTxIsSame(tx: CompactTx, fee: nat)
    requires IsTx(tx) && fee <= MAX_U32
    ensures SameTx(EncodeRecords(TxRecords(tx)), EncodeRecords(FullTxRecords(tx, fee)))
  {
    hide EncodeRecords, KnownOf, Filter, Writable;
    var a, b := Scalar(1, tx.index) + [Record(2, Bytes(tx.hash))], SpendRecords(tx.nullifiers) + OutputFields(tx.outputs);
    TxWritable(tx);
    ScalarWritable(3, fee);
    assert TxRecords(tx) == a + b == [] + a + [] + b + [];
    assert FullTxRecords(tx, fee) == a + Scalar(3, fee) + b == [] + a + Scalar(3, fee) + b + [];
    FilterTwoRuns([], a, [], b, [], KnownToTx);
    FilterTwoRuns([], a, Scalar(3, fee), b, [], KnownToTx);
    PartsWritable(a, b);
    JoinWritable(a, Scalar(3, fee));
    JoinWritable(a + Scalar(3, fee), b);
    KnownOfRecords(TxRecords(tx), KnownToTx);
    KnownOfRecords(FullTxRecords(tx, fee), KnownToTx);
  }

  lemma PartsWritable(a: seq<Record>, b: seq<Record>)
    requires AllWritable(a + b)
    ensures AllWritable(a) && AllWritable(b)
  {
    hide Writable;
    assert forall i :: 0 <= i < |a| ==> a[i] == (a + b)[i];
    assert forall i :: 0 <= i < |b| ==> b[i] == (a + b)[|a| + i];
  }

  lemma JoinWritable(a: seq<Record>, b: seq<Record>)
    requires AllWritable(a) && AllWritable(b)
    ensures AllWritable(a + b)
  {
    hide Writable;
  }

  /** With all of its fields, a served block carries the block and so decodes to it. */
  lemma FullBlockDecodes(b: CompactBlock, x: Extras)
    requires IsBlock(b) && IsExtras(b, x)
    ensures Carries(EncodeFull(b, x), b)
    ensures BlockOf(EncodeFull(b, x)) == Some(b)
  {
    hide EncodeRecords, Filter, KnownOf, BlockOf, HeadRecords, TxFields, FullTxFields, MetaFields, SameBlockRecord, IsTx;
    PlainIsKnown(b);
    FullIsKnown(b, x);
    TxFieldsAreSame(b, x);
    var head, plain, full, meta := HeadRecords(b), TxFields(b.transactions), FullTxFields(b.transactions, x.fees), MetaFields(b.treeSize);
    var s, t := head + plain + meta, head + full + meta;
    forall i | 0 <= i < |s|
      ensures SameBlockRecord(s[i], t[i])
    {
      if |head| <= i < |head| + |plain| {
        assert s[i] == plain[i - |head|] && t[i] == full[i - |head|];
      } else {
        SameRecord(s[i]);
      }
    }
    CarriedBlock(EncodeFull(b, x), b);
  }

  lemma SameRecord(r: Record)
    ensures SameBlockRecord(r, r)
  {
  }

  lemma TxFieldsAreSame(b: CompactBlock, x: Extras)
    requires IsBlock(b) && IsExtras(b, x)
    ensures |TxFields(b.transactions)| == |FullTxFields(b.transactions, x.fees)|
    ensures forall i :: 0 <= i < |TxFields(b.transactions)| ==>
      SameBlockRecord(TxFields(b.transactions)[i], FullTxFields(b.transactions, x.fees)[i])
  {
    hide EncodeRecords, SameTx, IsTx, TxRecords, FullTxRecords;
    forall i | 0 <= i < |b.transactions|
      ensures SameBlockRecord(TxFields(b.transactions)[i], FullTxFields(b.transactions, x.fees)[i])
    {
      FullTxIsSame(b.transactions[i], x.fees(i));
    }
  }

  /** Every field of the canonical encoding is one the decoder knows. */
  lemma PlainIsKnown(b: CompactBlock)
    requires IsBlock(b)
    ensures KnownOf(EncodeBlock(b), KnownToBlock) == Some(HeadRecords(b) + TxFields(b.transactions) + MetaFields(b.treeSize))
  {
    hide EncodeRecords, Filter, KnownOf, AllWritable, IsTx;
    BlockWritable(b);
    KnownOfRecords(BlockRecords(b), KnownToBlock);
    FilterAll(BlockRecords(b), KnownToBlock);
  }

  /** Dropping what it does not know leaves the head, the transactions and the metadata. */
  lemma FullIsKnown(b: CompactBlock, x: Extras)
    requires IsBlock(b) && IsExtras(b, x)
    ensures KnownOf(EncodeFull(b, x), KnownToBlock)
         == Some(HeadRecords(b) + FullTxFields(b.transactions, x.fees) + MetaFields(b.treeSize))
  {
    hide EncodeRecords, Filter, KnownOf, AllWritable, IsTx, KnownToBlock, HeadRecords, FullTxFields, MetaFields, Scalar, Filled;
    FullWritable(b, x);
    KnownOfRecords(FullRecords(b, x), KnownToBlock);
    WhatIsKnown(b, x);
    FilterTwoRuns(Scalar(1, x.version), HeadRecords(b), Filled(6, x.header),
                  FullTxFields(b.transactions, x.fees), MetaFields(b.treeSize), KnownToBlock);
  }

  lemma WhatIsKnown(b: CompactBlock, x: Extras)
    ensures forall r :: r in Scalar(1, x.version) || r in Filled(6, x.header) ==> !KnownToBlock(r)
    ensures forall r :: r in HeadRecords(b) || r in FullTxFields(b.transactions, x.fees) || r in MetaFields(b.treeSize) ==>
      KnownToBlock(r)
  {
    hide EncodeRecords;
  }

  lemma FullWritable(b: CompactBlock, x: Extras)
    requires IsBlock(b) && IsExtras(b, x)
    ensures AllWritable(FullRecords(b, x))
  {
    hide EncodeRecords, AllWritable, Writable, IsTx, HeadRecords, FullTxFields, MetaFields, TxFields;
    var version, header := Scalar(1, x.version), Filled(6, x.header);
    var head, txs, meta := HeadRecords(b), FullTxFields(b.transactions, x.fees), MetaFields(b.treeSize);
    BlockWritable(b);
    PartsWritable(head + TxFields(b.transactions), meta);
    PartsWritable(head, TxFields(b.transactions));
    ScalarWritable(1, x.version);
    HeaderWritable(x.header);
    FullTxsWritable(b, x);
    JoinWritable(version, head);
    JoinWritable(version + head, header);
    JoinWritable(version + head + header, txs);
    JoinWritable(version + head + header + txs, meta);
  }

  lemma HeaderWritable(header: seq<Byte>)
    requires |header| <= MAX_U64
    ensures AllWritable(Filled(6, header))
  {
  }

  lemma FullTxsWritable(b: CompactBlock, x: Extras)
    requires IsExtras(b, x)
    ensures AllWritable(FullTxFields(b.transactions, x.fees))
  {
    hide EncodeRecords, FullTxRecords;
  }

  /** So a stream of messages that carry blocks is, message by message, those blocks. */
  lemma StreamIsBlocks(messages: seq<seq<Byte>>, blocks: seq<CompactBlock>)
    requires |messages| == |blocks|
    requires forall i :: 0 <= i < |blocks| ==> IsBlock(blocks[i]) && Carries(messages[i], blocks[i])
    ensures LightClient.AreBlocks(messages, blocks)
  {
    hide BlockOf, Carries, IsBlock;
    forall i | 0 <= i < |blocks|
      ensures BlockOf(messages[i]) == Some(blocks[i])
    {
      CarriedBlock(messages[i], blocks[i]);
    }
  }
}
