/**
  The compact messages: each decode loop against a fold, with unknown fields ignored at every depth.

  Hash lengths are checked at the boundary, exactly where the source checks them.
 */
module Messages {
  import opened Base
  import opened Proto
  import opened Records

  const HASH_SIZE: nat := 32
  const COMPACT_NOTE_SIZE: nat := 52

  const ZERO_HASH: seq<Byte> := seq(HASH_SIZE, _ => 0)

  datatype CompactSaplingOutput = CompactSaplingOutput(cmu: seq<Byte>, epk: seq<Byte>, ciphertext: seq<Byte>)

  datatype CompactTx = CompactTx(index: nat, hash: seq<Byte>, nullifiers: seq<seq<Byte>>, outputs: seq<CompactSaplingOutput>)

  datatype CompactBlock = CompactBlock(
    height: nat, hash: seq<Byte>, prevHash: seq<Byte>, time: nat, transactions: seq<CompactTx>, treeSize: Option<nat>)

  datatype BlockId = BlockId(height: nat, hash: seq<Byte>)

  // ---------------------------------------------------------------- outputs

  /** The fields of an output seen so far. */
  datatype Parts = Parts(cmu: Option<seq<Byte>>, epk: Option<seq<Byte>>, ciphertext: Option<seq<Byte>>)

  const NO_PARTS := Parts(None, None, None)

  function OutputStep(parts: Parts, r: Record): Option<Parts> {
    match r
    case Record(1, Bytes(data)) => if |data| == HASH_SIZE then Some(parts.(cmu := Some(data))) else None
    case Record(2, Bytes(data)) => if |data| == HASH_SIZE then Some(parts.(epk := Some(data))) else None
    case Record(3, Bytes(data)) => if |data| == COMPACT_NOTE_SIZE then Some(parts.(ciphertext := Some(data))) else None
    case _ => Some(parts)
  }

  /** None of the three is optional: a missing one is an error, never zeroes. */
  function Finished(parts: Parts): Option<CompactSaplingOutput> {
    if parts.cmu.None? || parts.epk.None? || parts.ciphertext.None? then None
    else Some(CompactSaplingOutput(parts.cmu.value, parts.epk.value, parts.ciphertext.value))
  }

  function OutputOf(bytes: seq<Byte>): Option<CompactSaplingOutput> {
    match Run(bytes, NO_PARTS, OutputStep)
    case None => None
    case Some(parts) => Finished(parts)
  }

  /** One round of the output loop. */
  method OutputField(reader: Reader, parts: Parts) returns (r: Option<Parts>)
    requires reader.Valid()
    modifies reader`offset
    ensures reader.Valid() && Applied(old(reader.Rest()), parts, OutputStep, r, reader.Rest())
  {
    hide ReadRecord, ReadTag, ReadVarint, ReadBytes, Run;
    TagThenPayload(reader.Rest());
    var tag := reader.ReadTagAt();
    if tag.None? {
      return None;
    }
    match tag.value {
      case Tag(1, 2) =>
        var data := reader.Array(HASH_SIZE);
        return if data.None? then None else Some(parts.(cmu := data));
      case Tag(2, 2) =>
        var data := reader.Array(HASH_SIZE);
        return if data.None? then None else Some(parts.(epk := data));
      case Tag(3, 2) =>
        var data := reader.Array(COMPACT_NOTE_SIZE);
        return if data.None? then None else Some(parts.(ciphertext := data));
      case Tag(_, wire) =>
        var skipped := reader.Skip(wire);
        return if skipped then Some(parts) else None;
    }
  }

  method DecodeOutput(bytes: seq<Byte>) returns (r: Option<CompactSaplingOutput>)
    ensures r == OutputOf(bytes)
  {
    hide Run, Applied, Finished;
    var reader := new Reader(bytes);
    var value := NO_PARTS;
    var empty := reader.IsEmpty();
    while !empty
      invariant reader.Valid() && (empty <==> reader.Rest() == [])
      invariant Run(reader.Rest(), value, OutputStep) == Run(bytes, NO_PARTS, OutputStep)
      decreases |reader.Rest()|
    {
      ghost var before := reader.Rest();
      var next := OutputField(reader, value);
      RunNext(before, value, OutputStep, next, reader.Rest());
      if next.None? {
        return None;
      }
      value := next.value;
      empty := reader.IsEmpty();
    }
    RunOver(value, OutputStep);
    return Finished(value);
  }

  // ---------------------------------------------------------------- transactions

  const NO_TX := CompactTx(0, ZERO_HASH, [], [])

  function SpendStep(nullifiers: seq<seq<Byte>>, r: Record): Option<seq<seq<Byte>>> {
    match r
    case Record(1, Bytes(data)) => if |data| == HASH_SIZE then Some(nullifiers + [data]) else None
    case _ => Some(nullifiers)
  }

  function TxStep(tx: CompactTx, r: Record): Option<CompactTx> {
    match r
    case Record(1, VarintValue(v)) => Some(tx.(index := v))
    case Record(2, Bytes(data)) => if |data| == HASH_SIZE then Some(tx.(hash := data)) else None
    case Record(4, Bytes(data)) =>
      (match Run(data, tx.nullifiers, SpendStep)
       case None => None
       case Some(nullifiers) => Some(tx.(nullifiers := nullifiers)))
    case Record(5, Bytes(data)) =>
      (match OutputOf(data)
       case None => None
       case Some(output) => Some(tx.(outputs := tx.outputs + [output])))
    case _ => Some(tx)
  }

  function TxOf(bytes: seq<Byte>): Option<CompactTx> {
    Run(bytes, NO_TX, TxStep)
  }

  /** One round of the spend loop. */
  method SpendField(reader: Reader, nullifiers: seq<seq<Byte>>) returns (r: Option<seq<seq<Byte>>>)
    requires reader.Valid()
    modifies reader`offset
    ensures reader.Valid() && Applied(old(reader.Rest()), nullifiers, SpendStep, r, reader.Rest())
  {
    hide ReadRecord, ReadTag, ReadVarint, ReadBytes, Run;
    TagThenPayload(reader.Rest());
    var tag := reader.ReadTagAt();
    if tag.None? {
      return None;
    }
    match tag.value {
      case Tag(1, 2) =>
        var data := reader.Array(HASH_SIZE);
        return if data.None? then None else Some(nullifiers + [data.value]);
      case Tag(_, wire) =>
        var skipped := reader.Skip(wire);
        return if skipped then Some(nullifiers) else None;
    }
  }

  method ReadSpend(bytes: seq<Byte>, nullifiers: seq<seq<Byte>>) returns (r: Option<seq<seq<Byte>>>)
    ensures r == Run(bytes, nullifiers, SpendStep)
  {
    hide Run, Applied, Finished;
    var reader := new Reader(bytes);
    var value := nullifiers;
    var empty := reader.IsEmpty();
    while !empty
      invariant reader.Valid() && (empty <==> reader.Rest() == [])
      invariant Run(reader.Rest(), value, SpendStep) == Run(bytes, nullifiers, SpendStep)
      decreases |reader.Rest()|
    {
      ghost var before := reader.Rest();
      var next := SpendField(reader, value);
      RunNext(before, value, SpendStep, next, reader.Rest());
      if next.None? {
        return None;
      }
      value := next.value;
      empty := reader.IsEmpty();
    }
    RunOver(value, SpendStep);
    return Some(value);
  }

  /** One round of the transaction loop. */
  method TxField(reader: Reader, tx: CompactTx) returns (r: Option<CompactTx>)
    requires reader.Valid()
    modifies reader`offset
    ensures reader.Valid() && Applied(old(reader.Rest()), tx, TxStep, r, reader.Rest())
  {
    hide ReadRecord, ReadTag, ReadVarint, ReadBytes, Run, OutputOf;
    TagThenPayload(reader.Rest());
    var tag := reader.ReadTagAt();
    if tag.None? {
      return None;
    }
    match tag.value {
      case Tag(1, 0) =>
        var v := reader.Varint();
        return if v.None? then None else Some(tx.(index := v.value));
      case Tag(2, 2) =>
        var data := reader.Array(HASH_SIZE);
        return if data.None? then None else Some(tx.(hash := data.value));
      case Tag(4, 2) =>
        var data := reader.ReadBytesAt();
        if data.None? {
          return None;
        }
        var nullifiers := ReadSpend(data.value, tx.nullifiers);
        return if nullifiers.None? then None else Some(tx.(nullifiers := nullifiers.value));
      case Tag(5, 2) =>
        var data := reader.ReadBytesAt();
        if data.None? {
          return None;
        }
        var output := DecodeOutput(data.value);
        return if output.None? then None else Some(tx.(outputs := tx.outputs + [output.value]));
      case Tag(_, wire) =>
        var skipped := reader.Skip(wire);
        return if skipped then Some(tx) else None;
    }
  }

  method DecodeTx(bytes: seq<Byte>) returns (r: Option<CompactTx>)
    ensures r == TxOf(bytes)
  {
    hide Run, Applied, Finished;
    var reader := new Reader(bytes);
    var value := NO_TX;
    var empty := reader.IsEmpty();
    while !empty
      invariant reader.Valid() && (empty <==> reader.Rest() == [])
      invariant Run(reader.Rest(), value, TxStep) == Run(bytes, NO_TX, TxStep)
      decreases |reader.Rest()|
    {
      ghost var before := reader.Rest();
      var next := TxField(reader, value);
      RunNext(before, value, TxStep, next, reader.Rest());
      if next.None? {
        return None;
      }
      value := next.value;
      empty := reader.IsEmpty();
    }
    RunOver(value, TxStep);
    return Some(value);
  }

  // ---------------------------------------------------------------- blocks

  const NO_BLOCK := CompactBlock(0, ZERO_HASH, ZERO_HASH, 0, [], None)

  function MetaStep(size: Option<nat>, r: Record): Option<Option<nat>> {
    match r
    case Record(1, VarintValue(v)) => Some(Some(v))
    case _ => Some(size)
  }

  function BlockStep(block: CompactBlock, r: Record): Option<CompactBlock> {
    match r
    case Record(2, VarintValue(v)) => Some(block.(height := v))
    case Record(3, Bytes(data)) => if |data| == HASH_SIZE then Some(block.(hash := data)) else None
    case Record(4, Bytes(data)) => if |data| == HASH_SIZE then Some(block.(prevHash := data)) else None
    case Record(5, VarintValue(v)) => if v <= MAX_U32 then Some(block.(time := v)) else None
    case Record(7, Bytes(data)) =>
      (match TxOf(data)
       case None => None
       case Some(tx) => Some(block.(transactions := block.transactions + [tx])))
    case Record(8, Bytes(data)) =>
      (match Run(data, block.treeSize, MetaStep)
       case None => None
       case Some(size) => Some(block.(treeSize := size)))
    case _ => Some(block)
  }

  function BlockOf(bytes: seq<Byte>): Option<CompactBlock> {
    Run(bytes, NO_BLOCK, BlockStep)
  }

  /** One round of the metadata loop. */
  method MetaField(reader: Reader, size: Option<nat>) returns (r: Option<Option<nat>>)
    requires reader.Valid()
    modifies reader`offset
    ensures reader.Valid() && Applied(old(reader.Rest()), size, MetaStep, r, reader.Rest())
  {
    hide ReadRecord, ReadTag, ReadVarint, ReadBytes, Run;
    TagThenPayload(reader.Rest());
    var tag := reader.ReadTagAt();
    if tag.None? {
      return None;
    }
    match tag.value {
      case Tag(1, 0) =>
        var v := reader.Varint();
        return if v.None? then None else Some(v);
      case Tag(_, wire) =>
        var skipped := reader.Skip(wire);
        return if skipped then Some(size) else None;
    }
  }

  method ReadMeta(bytes: seq<Byte>, size: Option<nat>) returns (r: Option<Option<nat>>)
    ensures r == Run(bytes, size, MetaStep)
  {
    hide Run, Applied, Finished;
    var reader := new Reader(bytes);
    var value := size;
    var empty := reader.IsEmpty();
    while !empty
      invariant reader.Valid() && (empty <==> reader.Rest() == [])
      invariant Run(reader.Rest(), value, MetaStep) == Run(bytes, size, MetaStep)
      decreases |reader.Rest()|
    {
      ghost var before := reader.Rest();
      var next := MetaField(reader, value);
      RunNext(before, value, MetaStep, next, reader.Rest());
      if next.None? {
        return None;
      }
      value := next.value;
      empty := reader.IsEmpty();
    }
    RunOver(value, MetaStep);
    return Some(value);
  }

  /** One round of the block loop. */
  method BlockField(reader: Reader, block: CompactBlock) returns (r: Option<CompactBlock>)
    requires reader.Valid()
    modifies reader`offset
    ensures reader.Valid() && Applied(old(reader.Rest()), block, BlockStep, r, reader.Rest())
  {
    hide ReadRecord, ReadTag, ReadVarint, ReadBytes, Run, TxOf;
    TagThenPayload(reader.Rest());
    var tag := reader.ReadTagAt();
    if tag.None? {
      return None;
    }
    match tag.value {
      case Tag(2, 0) =>
        var v := reader.Varint();
        return if v.None? then None else Some(block.(height := v.value));
      case Tag(3, 2) =>
        var data := reader.Array(HASH_SIZE);
        return if data.None? then None else Some(block.(hash := data.value));
      case Tag(4, 2) =>
        var data := reader.Array(HASH_SIZE);
        return if data.None? then None else Some(block.(prevHash := data.value));
      case Tag(5, 0) =>
        var v := reader.Varint();
        return if v.None? || v.value > MAX_U32 then None else Some(block.(time := v.value));
      case Tag(7, 2) =>
        var data := reader.ReadBytesAt();
        if data.None? {
          return None;
        }
        var tx := DecodeTx(data.value);
        return if tx.None? then None else Some(block.(transactions := block.transactions + [tx.value]));
      case Tag(8, 2) =>
        var data := reader.ReadBytesAt();
        if data.None? {
          return None;
        }
        var size := ReadMeta(data.value, block.treeSize);
        return if size.None? then None else Some(block.(treeSize := size.value));
      case Tag(_, wire) =>
        var skipped := reader.Skip(wire);
        return if skipped then Some(block) else None;
    }
  }

  method DecodeBlock(bytes: seq<Byte>) returns (r: Option<CompactBlock>)
    ensures r == BlockOf(bytes)
  {
    hide Run, Applied, Finished;
    var reader := new Reader(bytes);
    var value := NO_BLOCK;
    var empty := reader.IsEmpty();
    while !empty
      invariant reader.Valid() && (empty <==> reader.Rest() == [])
      invariant Run(reader.Rest(), value, BlockStep) == Run(bytes, NO_BLOCK, BlockStep)
      decreases |reader.Rest()|
    {
      ghost var before := reader.Rest();
      var next := BlockField(reader, value);
      RunNext(before, value, BlockStep, next, reader.Rest());
      if next.None? {
        return None;
      }
      value := next.value;
      empty := reader.IsEmpty();
    }
    RunOver(value, BlockStep);
    return Some(value);
  }

  // ---------------------------------------------------------------- unknown fields, at every depth

  predicate KnownToOutput(r: Record) {
    r.payload.Bytes? && 1 <= r.field <= 3
  }

  predicate KnownToSpend(r: Record) {
    r.payload.Bytes? && r.field == 1
  }

  predicate KnownToTx(r: Record) {
    || (r.payload.VarintValue? && r.field == 1)
    || (r.payload.Bytes? && (r.field == 2 || r.field == 4 || r.field == 5))
  }

  predicate KnownToMeta(r: Record) {
    r.payload.VarintValue? && r.field == 1
  }

  predicate KnownToBlock(r: Record) {
    || (r.payload.VarintValue? && (r.field == 2 || r.field == 5))
    || (r.payload.Bytes? && (r.field == 3 || r.field == 4 || r.field == 7 || r.field == 8))
  }

  lemma UnknownIgnored()
    ensures Ignores(OutputStep, KnownToOutput) && Ignores(SpendStep, KnownToSpend) && Ignores(TxStep, KnownToTx)
    ensures Ignores(MetaStep, KnownToMeta) && Ignores(BlockStep, KnownToBlock)
  {
  }

  /** Well-formed messages with the same known records in the same order, whatever else is in them. */
  ghost predicate SameButUnknown(s: seq<Byte>, t: seq<Byte>, known: Record -> bool) {
    KnownOf(s, known).Some? && KnownOf(s, known) == KnownOf(t, known)
  }

  /** The same record, or a nested message whose differences are unknown fields only. */
  ghost predicate SameTxRecord(a: Record, b: Record) {
    || a == b
    || (a.field == b.field && a.payload.Bytes? && b.payload.Bytes?
        && ((a.field == 4 && SameButUnknown(a.payload.data, b.payload.data, KnownToSpend))
            || (a.field == 5 && SameButUnknown(a.payload.data, b.payload.data, KnownToOutput))))
  }

  ghost predicate SameTx(s: seq<Byte>, t: seq<Byte>) {
    var a, b := KnownOf(s, KnownToTx), KnownOf(t, KnownToTx);
    && a.Some? && b.Some? && |a.value| == |b.value|
    && forall i :: 0 <= i < |a.value| ==> SameTxRecord(a.value[i], b.value[i])
  }

  ghost predicate SameBlockRecord(a: Record, b: Record) {
    || a == b
    || (a.field == b.field && a.payload.Bytes? && b.payload.Bytes?
        && ((a.field == 7 && SameTx(a.payload.data, b.payload.data))
            || (a.field == 8 && SameButUnknown(a.payload.data, b.payload.data, KnownToMeta))))
  }

  /** Blocks that differ only in unknown fields: of the block, its transactions, their spends and outputs, or its metadata. */
  ghost predicate SameBlock(s: seq<Byte>, t: seq<Byte>) {
    var a, b := KnownOf(s, KnownToBlock), KnownOf(t, KnownToBlock);
    && a.Some? && b.Some? && |a.value| == |b.value|
    && forall i :: 0 <= i < |a.value| ==> SameBlockRecord(a.value[i], b.value[i])
  }

  lemma RunSameButUnknown<T(!new)>(s: seq<Byte>, t: seq<Byte>, value: T, step: Update<T>, known: Record -> bool)
    requires Ignores(step, known) && SameButUnknown(s, t, known)
    ensures Run(s, value, step) == Run(t, value, step)
  {
    RunKnown(s, t, value, step, known);
  }

  lemma TxRecordsInterchange(a: Record, b: Record)
    requires SameTxRecord(a, b)
    ensures Interchangeable(a, b, TxStep)
  {
    hide Run, KnownOf;
    UnknownIgnored();
    forall tx: CompactTx
      ensures TxStep(tx, a) == TxStep(tx, b)
    {
      if a != b && a.field == 4 {
        RunSameButUnknown(a.payload.data, b.payload.data, tx.nullifiers, SpendStep, KnownToSpend);
      } else if a != b {
        RunSameButUnknown(a.payload.data, b.payload.data, NO_PARTS, OutputStep, KnownToOutput);
      }
    }
  }

  /** Unknown fields anywhere in a transaction leave the decoded transaction unchanged. */
  lemma TxIgnoresUnknown(s: seq<Byte>, t: seq<Byte>)
    requires SameTx(s, t)
    ensures TxOf(s) == TxOf(t)
  {
    hide Run, KnownOf, TxStep, SameTxRecord, Interchangeable;
    UnknownIgnored();
    var a, b := KnownOf(s, KnownToTx).value, KnownOf(t, KnownToTx).value;
    forall i | 0 <= i < |a|
      ensures Interchangeable(a[i], b[i], TxStep)
    {
      TxRecordsInterchange(a[i], b[i]);
    }
    RunKnown(s, t, NO_TX, TxStep, KnownToTx);
  }

  lemma BlockRecordsInterchange(a: Record, b: Record)
    requires SameBlockRecord(a, b)
    ensures Interchangeable(a, b, BlockStep)
  {
    hide Run, KnownOf, SameTx, TxOf;
    UnknownIgnored();
    forall block: CompactBlock
      ensures BlockStep(block, a) == BlockStep(block, b)
    {
      if a != b && a.field == 7 {
        TxIgnoresUnknown(a.payload.data, b.payload.data);
      } else if a != b {
        RunSameButUnknown(a.payload.data, b.payload.data, block.treeSize, MetaStep, KnownToMeta);
      }
    }
  }

  /** Unknown fields at any depth of a block leave the decoded block, or the refusal, unchanged. */
  lemma BlockIgnoresUnknown(s: seq<Byte>, t: seq<Byte>)
    requires SameBlock(s, t)
    ensures BlockOf(s) == BlockOf(t)
  {
    hide Run, KnownOf, BlockStep, SameBlockRecord, Interchangeable;
    UnknownIgnored();
    var a, b := KnownOf(s, KnownToBlock).value, KnownOf(t, KnownToBlock).value;
    forall i | 0 <= i < |a|
      ensures Interchangeable(a[i], b[i], BlockStep)
    {
      BlockRecordsInterchange(a[i], b[i]);
    }
    RunKnown(s, t, NO_BLOCK, BlockStep, KnownToBlock);
  }

  /** A run of unknown fields inserted at any record boundary of a block. */
  lemma BlockInsertUnknown(a: seq<Byte>, unknown: seq<Byte>, b: seq<Byte>)
    requires Parse(a).Some? && Parse(unknown).Some?
    requires forall r :: r in Parse(unknown).value ==> !KnownToBlock(r)
    ensures BlockOf(a + unknown + b) == BlockOf(a + b)
  {
    hide Run, Parse, BlockStep, KnownToBlock;
    BlockStepIgnores();
    InsertUnknown(a, unknown, b, NO_BLOCK, BlockStep, KnownToBlock);
  }

  lemma BlockStepIgnores()
    ensures Ignores(BlockStep, KnownToBlock)
  {
  }

  // ---------------------------------------------------------------- repeated fields and last one wins

  /** Appending one transaction field to an encoded block appends that transaction, and nothing else changes. */
  lemma AppendTransaction(block: seq<Byte>, tx: seq<Byte>)
    requires BlockOf(block).Some? && TxOf(tx).Some? && |tx| <= MAX_U64
    ensures BlockOf(block + EncodeMessageField(7, tx))
         == Some(BlockOf(block).value.(transactions := BlockOf(block).value.transactions + [TxOf(tx).value]))
    ensures Commitments(BlockOf(block + EncodeMessageField(7, tx)).value)
         == Commitments(BlockOf(block).value) + TxCommitments(TxOf(tx).value)
  {
    hide Run, TxOf, EncodeMessageField, ReadRecord;
    var field := EncodeMessageField(7, tx);
    MessageFieldRoundTrip(7, tx, []);
    assert field + [] == field;
    RunSnoc(block, Record(7, Bytes(tx)), field, NO_BLOCK, BlockStep);
    CommitmentsSnoc(BlockOf(block).value.transactions, TxOf(tx).value);
  }

  /** The single-valued fields of a block: height and time, and the two hashes. */
  predicate IsScalar(r: Record) {
    || (r.payload.VarintValue? && (r.field == 2 || r.field == 5))
    || (r.payload.Bytes? && (r.field == 3 || r.field == 4))
  }

  /** A value its field takes: a time of 32 bits, a hash of 32 bytes. */
  predicate Takes(r: Record)
    requires IsScalar(r)
  {
    match r.payload
    case VarintValue(v) => r.field == 2 || v <= MAX_U32
    case Bytes(data) => |data| == HASH_SIZE
  }

  function WithScalar(b: CompactBlock, r: Record): CompactBlock
    requires IsScalar(r)
  {
    match r.payload
    case VarintValue(v) => if r.field == 2 then b.(height := v) else b.(time := v)
    case Bytes(data) => if r.field == 3 then b.(hash := data) else b.(prevHash := data)
  }

  /** A single-valued field at the end of an encoded block sets that field and no other, explicit zeroes included. */
  lemma ScalarIsSet(block: seq<Byte>, r: Record, encoded: seq<Byte>)
    requires BlockOf(block).Some? && IsScalar(r) && Takes(r) && ReadRecord(encoded) == Some(Taken(r, |encoded|))
    ensures BlockOf(block + encoded) == Some(WithScalar(BlockOf(block).value, r))
  {
    hide Run, ReadRecord;
    RunSnoc(block, r, encoded, NO_BLOCK, BlockStep);
  }

  /** Blocks that differ at most in the field of `r`. */
  predicate SameBut(a: CompactBlock, b: CompactBlock, r: Record)
    requires IsScalar(r)
  {
    WithScalar(a, r) == WithScalar(b, r)
  }

  lemma StepSameBut(a: CompactBlock, b: CompactBlock, r: Record, next: Record)
    requires IsScalar(r) && SameBut(a, b, r)
    ensures match BlockStep(a, next)
      case None => BlockStep(b, next) == None
      case Some(x) => BlockStep(b, next).Some? && SameBut(x, BlockStep(b, next).value, r)
  {
    hide Run, TxOf;
  }

  lemma {:induction false} FoldSameBut(a: CompactBlock, b: CompactBlock, r: Record, records: seq<Record>)
    requires IsScalar(r) && SameBut(a, b, r)
    ensures match Fold(records, a, BlockStep)
      case None => Fold(records, b, BlockStep) == None
      case Some(x) => Fold(records, b, BlockStep).Some? && SameBut(x, Fold(records, b, BlockStep).value, r)
    decreases |records|
  {
    hide BlockStep, SameBut;
    if records != [] {
      StepSameBut(a, b, r, records[0]);
      if BlockStep(a, records[0]).Some? {
        FoldSameBut(BlockStep(a, records[0]).value, BlockStep(b, records[0]).value, r, records[1..]);
      }
    }
  }

  /** Last one wins: whatever lies between, a single-valued field written again makes its earlier value as good as never sent. */
  lemma LastOneWins(a: seq<Record>, earlier: Record, between: seq<Record>, later: Record)
    requires IsScalar(earlier) && IsScalar(later) && earlier.field == later.field && Takes(earlier) && Takes(later)
    ensures Fold(a + [earlier] + between + [later], NO_BLOCK, BlockStep) == Fold(a + between + [later], NO_BLOCK, BlockStep)
  {
    hide BlockStep, Takes, WithScalar;
    FoldConcat(a + [earlier] + between, [later], NO_BLOCK, BlockStep);
    FoldConcat(a + [earlier], between, NO_BLOCK, BlockStep);
    FoldConcat(a, [earlier], NO_BLOCK, BlockStep);
    FoldConcat(a + between, [later], NO_BLOCK, BlockStep);
    FoldConcat(a, between, NO_BLOCK, BlockStep);
    if Fold(a, NO_BLOCK, BlockStep).Some? {
      var reached := Fold(a, NO_BLOCK, BlockStep).value;
      StepSets(reached, earlier);
      FoldSingle(reached, earlier);
      Overwritten(reached, earlier, later);
      FoldSameBut(reached, WithScalar(reached, earlier), later, between);
      if Fold(between, reached, BlockStep).Some? {
        var x, y := Fold(between, reached, BlockStep).value, Fold(between, WithScalar(reached, earlier), BlockStep).value;
        StepSets(x, later);
        StepSets(y, later);
        FoldSingle(x, later);
        FoldSingle(y, later);
      }
    }
  }

  lemma StepSets(b: CompactBlock, r: Record)
    requires IsScalar(r) && Takes(r)
    ensures BlockStep(b, r) == Some(WithScalar(b, r))
  {
    hide Run, TxOf;
  }

  lemma FoldSingle(b: CompactBlock, r: Record)
    ensures Fold([r], b, BlockStep) == BlockStep(b, r)
  {
    assert [r][1..] == [];
  }

  lemma Overwritten(b: CompactBlock, earlier: Record, later: Record)
    requires IsScalar(earlier) && IsScalar(later) && earlier.field == later.field
    ensures SameBut(b, WithScalar(b, earlier), later)
  {
  }

  /** The same, on the encoded block. */
  lemma LastOneWinsEncoded(s: seq<Byte>, t: seq<Byte>, a: seq<Record>, earlier: Record, between: seq<Record>, later: Record)
    requires IsScalar(earlier) && IsScalar(later) && earlier.field == later.field && Takes(earlier) && Takes(later)
    requires Parse(s) == Some(a + [earlier] + between + [later]) && Parse(t) == Some(a + between + [later])
    ensures BlockOf(s) == BlockOf(t)
  {
    hide Run, Parse, Fold, BlockStep, Takes, IsScalar;
    LastOneWins(a, earlier, between, later);
    RunIsFold(s, NO_BLOCK, BlockStep);
    RunIsFold(t, NO_BLOCK, BlockStep);
  }

  function TxCommitments(tx: CompactTx): seq<seq<Byte>> {
    seq(|tx.outputs|, i requires 0 <= i < |tx.outputs| => tx.outputs[i].cmu)
  }

  function AllCommitments(transactions: seq<CompactTx>): seq<seq<Byte>> {
    if transactions == [] then [] else TxCommitments(transactions[0]) + AllCommitments(transactions[1..])
  }

  /** Every output's commitment, in commitment-tree order. */
  function Commitments(block: CompactBlock): seq<seq<Byte>> {
    AllCommitments(block.transactions)
  }

  lemma {:induction false} CommitmentsSnoc(transactions: seq<CompactTx>, tx: CompactTx)
    ensures AllCommitments(transactions + [tx]) == AllCommitments(transactions) + TxCommitments(tx)
  {
    if transactions == [] {
      assert [tx][1..] == [];
    } else {
      assert (transactions + [tx])[1..] == transactions[1..] + [tx];
      CommitmentsSnoc(transactions[1..], tx);
    }
  }

  // ---------------------------------------------------------------- block identifiers and ranges

  const NO_ID := BlockId(0, ZERO_HASH)

  function BlockIdStep(id: BlockId, r: Record): Option<BlockId> {
    match r
    case Record(1, VarintValue(v)) => Some(id.(height := v))
    case Record(2, Bytes(data)) => if |data| == HASH_SIZE then Some(id.(hash := data)) else None
    case _ => Some(id)
  }

  /** A wholly empty message is refused, rather than read as block 0. */
  function BlockIdOf(bytes: seq<Byte>): Option<BlockId> {
    if bytes == [] then None else Run(bytes, NO_ID, BlockIdStep)
  }

  /** One round of the identifier loop. */
  method BlockIdField(reader: Reader, id: BlockId) returns (r: Option<BlockId>)
    requires reader.Valid()
    modifies reader`offset
    ensures reader.Valid() && Applied(old(reader.Rest()), id, BlockIdStep, r, reader.Rest())
  {
    hide ReadRecord, ReadTag, ReadVarint, ReadBytes, Run;
    TagThenPayload(reader.Rest());
    var tag := reader.ReadTagAt();
    if tag.None? {
      return None;
    }
    match tag.value {
      case Tag(1, 0) =>
        var v := reader.Varint();
        return if v.None? then None else Some(id.(height := v.value));
      case Tag(2, 2) =>
        var data := reader.Array(HASH_SIZE);
        return if data.None? then None else Some(id.(hash := data.value));
      case Tag(_, wire) =>
        var skipped := reader.Skip(wire);
        return if skipped then Some(id) else None;
    }
  }

  method DecodeBlockId(bytes: seq<Byte>) returns (r: Option<BlockId>)
    ensures r == BlockIdOf(bytes)
  {
    hide Run, Applied, Finished;
    var reader := new Reader(bytes);
    var value := NO_ID;
    var sawField := false;
    var empty := reader.IsEmpty();
    while !empty
      invariant reader.Valid() && (empty <==> reader.Rest() == [])
      invariant Run(reader.Rest(), value, BlockIdStep) == Run(bytes, NO_ID, BlockIdStep)
      invariant if sawField then bytes != [] else reader.Rest() == bytes
      decreases |reader.Rest()|
    {
      sawField := true;
      ghost var before := reader.Rest();
      var next := BlockIdField(reader, value);
      RunNext(before, value, BlockIdStep, next, reader.Rest());
      if next.None? {
        return None;
      }
      value := next.value;
      empty := reader.IsEmpty();
    }
    RunOver(value, BlockIdStep);
    return if sawField then Some(value) else None;
  }

  function EncodeHeight(height: nat): seq<Byte> {
    EncodeVarintField(1, height)
  }

  /** A height-only identifier survives the round trip exactly when the height is not zero. */
  lemma HeightRoundTrip(height: nat)
    requires height <= MAX_U64
    ensures BlockIdOf(EncodeHeight(height)) == if height == 0 then None else Some(BlockId(height, ZERO_HASH))
  {
    hide ReadRecord, EncodeVarintField;
    if height > 0 {
      HeightIsOneRecord(height);
      var bytes := EncodeHeight(height);
      RunNext(bytes, NO_ID, BlockIdStep, Some(BlockId(height, ZERO_HASH)), bytes[|bytes|..]);
      RunOver(BlockId(height, ZERO_HASH), BlockIdStep);
    } else {
      ZeroIsNotSent(1);
    }
  }

  lemma ZeroIsNotSent(field: nat)
    ensures EncodeVarintField(field, 0) == []
  {
  }

  lemma HeightIsOneRecord(height: nat)
    requires 0 < height <= MAX_U64
    ensures EncodeHeight(height) != []
    ensures ReadRecord(EncodeHeight(height)) == Some(Taken(Record(1, VarintValue(height)), |EncodeHeight(height)|))
  {
    hide ReadRecord, EncodeVarint;
    VarintFieldRoundTrip(1, height, []);
    assert EncodeHeight(height) + [] == EncodeHeight(height);
  }

  method EncodeBlockRange(start: nat, end: nat) returns (out: seq<Byte>)
    requires start <= MAX_U64 && end <= MAX_U64
    ensures out == RangeBytes(start, end)
  {
    HeightIsShort(start);
    HeightIsShort(end);
    hide EncodeVarintField, EncodeMessageField;
    var first := PutVarintField([], 1, start);
    var last := PutVarintField([], 1, end);
    out := PutMessageField([], 1, first);
    out := PutMessageField(out, 2, last);
  }

  lemma HeightIsShort(height: nat)
    requires height <= MAX_U64
    ensures |EncodeHeight(height)| <= 20
  {
    hide EncodeVarint, ReadVarint;
    VarintRoundTrip(height, []);
    VarintRoundTrip(8, []);
  }

  function RangeBytes(start: nat, end: nat): seq<Byte> {
    EncodeMessageField(1, EncodeHeight(start)) + EncodeMessageField(2, EncodeHeight(end))
  }

  /** Both bounds are always on the wire, in order, also at height 0. */
  lemma RangeCarriesBothBounds(start: nat, end: nat)
    requires start <= MAX_U64 && end <= MAX_U64
    ensures Parse(RangeBytes(start, end)) == Some([Record(1, Bytes(EncodeHeight(start))), Record(2, Bytes(EncodeHeight(end)))])
  {
    hide ReadRecord, Parse, EncodeHeight, EncodeMessageField;
    HeightIsShort(start);
    HeightIsShort(end);
    var first, last := EncodeMessageField(1, EncodeHeight(start)), EncodeMessageField(2, EncodeHeight(end));
    MessageFieldRoundTrip(2, EncodeHeight(end), []);
    assert last + [] == last && first + [] == first;
    MessageFieldRoundTrip(1, EncodeHeight(start), []);
    ParseOne(first, Record(1, Bytes(EncodeHeight(start))));
    ParseOne(last, Record(2, Bytes(EncodeHeight(end))));
    ParseConcat(first, last);
    var a, b := Record(1, Bytes(EncodeHeight(start))), Record(2, Bytes(EncodeHeight(end)));
    assert [a] + [b] == [a, b];
  }

  /** So different ranges are different requests. */
  lemma RangesAreDistinct(start: nat, end: nat, otherStart: nat, otherEnd: nat)
    requires start <= MAX_U64 && end <= MAX_U64 && otherStart <= MAX_U64 && otherEnd <= MAX_U64
    requires RangeBytes(start, end) == RangeBytes(otherStart, otherEnd)
    ensures start == otherStart && end == otherEnd
  {
    hide Parse, EncodeHeight, RangeBytes, BlockIdOf;
    RangeCarriesBothBounds(start, end);
    RangeCarriesBothBounds(otherStart, otherEnd);
    HeightRoundTrip(start);
    HeightRoundTrip(otherStart);
    HeightRoundTrip(end);
    HeightRoundTrip(otherEnd);
  }
}
