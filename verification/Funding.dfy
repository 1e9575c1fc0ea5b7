/** Splitting what an address owns into what it can spend now and why the rest is withheld. */
module Funding {
  import opened Base
  import opened Drive

  const COINBASE_MATURITY: nat := 100

  datatype Outpoint = Outpoint(txid: nat, vout: nat)
  datatype Utxo = Utxo(outpoint: Outpoint, satoshis: nat, script: seq<bv8>)
  datatype AddressUtxo = AddressUtxo(utxo: Utxo, height: nat, isSpendable: bool)

  /** A mempool row: its direction, and the consumed outpoint when the node named one. */
  datatype MempoolRow = MempoolRow(spending: bool, spends: Option<Outpoint>)

  datatype Funding = Funding(utxos: seq<Utxo>, tip: nat, total: nat, immature: seq<AddressUtxo>,
                             other: seq<AddressUtxo>, spentUnconfirmed: seq<AddressUtxo>)

  /** The node, as the answers the operation would get from it. */
  datatype Reader = Reader(blockCount: Result<nat, Error>, addressUtxos: Result<seq<AddressUtxo>, Error>,
                           addressMempool: Result<seq<MempoolRow>, Error>, isCoinbase: nat -> Result<bool, Error>)

  /** `tip.saturating_sub(height).saturating_add(1)` on `u32`. */
  function Confirmations(u: AddressUtxo, tip: nat): nat {
    Min((if tip < u.height then 0 else tip - u.height) + 1, MAX_U32)
  }

  predicate Young(u: AddressUtxo, tip: nat) {
    Confirmations(u, tip) < COINBASE_MATURITY
  }

  predicate IsP2pkh(script: seq<bv8>) {
    && |script| == 25
    && script[0] == 0x76 && script[1] == 0xa9 && script[2] == 0x14
    && script[23] == 0x88 && script[24] == 0xac
  }

  predicate Mature(u: AddressUtxo, tip: nat, coinbaseHeights: seq<nat>) {
    u.isSpendable && (u.height !in coinbaseHeights || !Young(u, tip))
  }

  datatype Kind = Usable | Other | Immature | Spent

  /** The one bucket an output belongs to. Spent comes first: such a coin is gone whatever else it is. */
  function KindOf(u: AddressUtxo, tip: nat, spent: seq<Outpoint>, coinbaseHeights: seq<nat>): Kind {
    if u.utxo.outpoint in spent then Spent
    else if !Mature(u, tip, coinbaseHeights) then Immature
    else if IsP2pkh(u.utxo.script) then Usable
    else Other
  }

  function OfKind(found: seq<AddressUtxo>, k: Kind, tip: nat, spent: seq<Outpoint>, coinbaseHeights: seq<nat>): seq<AddressUtxo> {
    Filter(found, (u: AddressUtxo) => KindOf(u, tip, spent, coinbaseHeights) == k)
  }

  function Utxos(found: seq<AddressUtxo>): seq<Utxo> {
    seq(|found|, i requires 0 <= i < |found| => found[i].utxo)
  }

  function Outpoints(utxos: seq<Utxo>): seq<Outpoint> {
    seq(|utxos|, i requires 0 <= i < |utxos| => utxos[i].outpoint)
  }

  function Total(utxos: seq<Utxo>): nat {
    if utxos == [] then 0 else Total(utxos[..|utxos| - 1]) + utxos[|utxos| - 1].satoshis
  }

  ghost predicate DistinctOutpoints(found: seq<AddressUtxo>) {
    forall i, j :: 0 <= i < j < |found| ==> found[i].utxo.outpoint != found[j].utxo.outpoint
  }

  // ---------------------------------------------------------------- reading

  function AlreadySpent(rows: seq<MempoolRow>): (r: seq<Outpoint>)
    ensures forall o :: o in r <==> exists i :: 0 <= i < |rows| && rows[i].spending && rows[i].spends == Some(o)
  {
    if rows == [] then []
    else
      var before, row := AlreadySpent(rows[..|rows| - 1]), rows[|rows| - 1];
      if row.spending && row.spends.Some? then before + [row.spends.value] else before
  }

  /** A mempool that cannot be read withholds nothing; only the driver's sentinel is passed on. */
  function BestEffortSpent(pending: Result<seq<MempoolRow>, Error>): Result<seq<Outpoint>, Error> {
    match pending
    case Ok(rows) => Ok(AlreadySpent(rows))
    case Err(AnswerNeeded) => Err(AnswerNeeded)
    case Err(_) => Ok([])
  }

  function YoungOnes(found: seq<AddressUtxo>, tip: nat): seq<AddressUtxo> {
    Filter(found, (u: AddressUtxo) => Young(u, tip))
  }

  /** Heights of the probes that answered "coinbase", or the first probe that failed. */
  function CoinbaseHeights(young: seq<AddressUtxo>, probes: seq<Result<bool, Error>>): Result<seq<nat>, Error>
    requires |young| == |probes|
  {
    if young == [] then Ok([])
    else
      var n := |young| - 1;
      match CoinbaseHeights(young[..n], probes[..n])
      case Err(e) => Err(e)
      case Ok(heights) =>
        match probes[n]
        case Err(e) => Err(e)
        case Ok(coinbase) => Ok(if coinbase then heights + [young[n].height] else heights)
  }

  function ProbeAll(young: seq<AddressUtxo>, isCoinbase: nat -> Result<bool, Error>): seq<Result<bool, Error>> {
    seq(|young|, i requires 0 <= i < |young| => isCoinbase(young[i].utxo.outpoint.txid))
  }

  function Assemble(tip: nat, found: seq<AddressUtxo>, spent: seq<Outpoint>, heights: seq<nat>): Result<Funding, Error> {
    var utxos := Utxos(OfKind(found, Usable, tip, spent, heights));
    if Total(utxos) > MAX_U64 then Err(NotReady)
    else Ok(Funding(utxos, tip, Total(utxos), OfKind(found, Immature, tip, spent, heights),
                    OfKind(found, Other, tip, spent, heights), OfKind(found, Spent, tip, spent, heights)))
  }

  function SpendableOutcome(reader: Reader): Result<Funding, Error> {
    match reader.blockCount
    case Err(e) => Err(e)
    case Ok(tip) =>
      match reader.addressUtxos
      case Err(e) => Err(e)
      case Ok(found) =>
        match BestEffortSpent(reader.addressMempool)
        case Err(e) => Err(e)
        case Ok(spent) =>
          var young := YoungOnes(found, tip);
          match CoinbaseHeights(young, ProbeAll(young, reader.isCoinbase))
          case Err(e) => Err(e)
          case Ok(heights) => Assemble(tip, found, spent, heights)
  }

  // ---------------------------------------------------------------- the loops of the source

  method ProbeCoinbaseHeights(reader: Reader, found: seq<AddressUtxo>, tip: nat) returns (r: Result<seq<nat>, Error>)
    ensures r == CoinbaseHeights(YoungOnes(found, tip), ProbeAll(YoungOnes(found, tip), reader.isCoinbase))
  {
    var young := YoungOnes(found, tip);
    var probes := ProbeAll(young, reader.isCoinbase);
    var heights := [];
    for i := 0 to |probes|
      invariant CoinbaseHeights(young[..i], probes[..i]) == Ok(heights)
    {
      assert young[..i + 1][..i] == young[..i] && probes[..i + 1][..i] == probes[..i];
      match probes[i]
      case Err(e) =>
        FirstFailureStays(young, probes, i + 1);
        return Err(e);
      case Ok(coinbase) =>
        if coinbase {
          heights := heights + [young[i].height];
        }
    }
    assert young[..|young|] == young && probes[..|probes|] == probes;
    return Ok(heights);
  }

  lemma {:induction false} FirstFailureStays(young: seq<AddressUtxo>, probes: seq<Result<bool, Error>>, n: nat)
    requires n <= |young| == |probes| && CoinbaseHeights(young[..n], probes[..n]).Err?
    ensures CoinbaseHeights(young, probes) == CoinbaseHeights(young[..n], probes[..n])
  {
    if n == |young| {
      assert young[..n] == young && probes[..n] == probes;
    } else {
      var m := |young| - 1;
      assert young[..m][..n] == young[..n] && probes[..m][..n] == probes[..n];
      FirstFailureStays(young[..m], probes[..m], n);
    }
  }

  lemma {:induction false} FilterUtxos(found: seq<AddressUtxo>, p: AddressUtxo -> bool, q: Utxo -> bool)
    ensures Filter(Utxos(Filter(found, p)), q) == Utxos(Filter(found, (u: AddressUtxo) => p(u) && q(u.utxo)))
  {
    var both := (u: AddressUtxo) => p(u) && q(u.utxo);
    if found != [] {
      var front, last := found[..|found| - 1], found[|found| - 1];
      assert found == front + [last];
      FilterUtxos(front, p, q);
      FilterSnoc(front, last, p);
      FilterSnoc(front, last, both);
      hide Filter, Utxos;
      if p(last) {
        UtxosSnoc(Filter(front, p), last);
        FilterSnoc(Utxos(Filter(front, p)), last.utxo, q);
        if q(last.utxo) {
          UtxosSnoc(Filter(front, both), last);
        }
      }
    }
  }

  lemma FilterSnoc<T(!new)>(front: seq<T>, last: T, p: T -> bool)
    ensures Filter(front + [last], p) == if p(last) then Filter(front, p) + [last] else Filter(front, p)
  {
    assert (front + [last])[..|front|] == front;
  }

  lemma UtxosSnoc(s: seq<AddressUtxo>, u: AddressUtxo)
    ensures Utxos(s + [u]) == Utxos(s) + [u.utxo]
  {
  }

  /** With distinct outpoints, finding an outpoint in a filtered list is satisfying the filter. */
  lemma OutpointInFiltered(found: seq<AddressUtxo>, p: AddressUtxo -> bool, u: AddressUtxo)
    requires DistinctOutpoints(found) && u in found
    ensures u.utxo.outpoint in Outpoints(Utxos(Filter(found, p))) <==> p(u)
  {
    var kept := Filter(found, p);
    var list := Outpoints(Utxos(kept));
    if p(u) {
      var i :| 0 <= i < |kept| && kept[i] == u;
      assert list[i] == u.utxo.outpoint;
    }
    if u.utxo.outpoint in list {
      var i :| 0 <= i < |list| && list[i] == u.utxo.outpoint;
      assert kept[i] in found;
      var j :| 0 <= j < |found| && found[j] == kept[i];
      var k :| 0 <= k < |found| && found[k] == u;
      assert j == k;
    }
  }

  /** The loop at the end of `spendable`: every output that is not usable, by why it is not. */
  method SortRest(found: seq<AddressUtxo>, spent: seq<Outpoint>, others: seq<Outpoint>, mature: seq<Outpoint>,
                  ghost tip: nat, ghost heights: seq<nat>)
    returns (immature: seq<AddressUtxo>, nonNative: seq<AddressUtxo>, spentUnconfirmed: seq<AddressUtxo>)
    requires forall u :: u in found ==> KindOf(u, tip, spent, heights) == Bucket(u.utxo.outpoint, spent, others, mature)
    ensures immature == OfKind(found, Immature, tip, spent, heights)
    ensures nonNative == OfKind(found, Other, tip, spent, heights)
    ensures spentUnconfirmed == OfKind(found, Spent, tip, spent, heights)
  {
    hide KindOf, OfKind;
    OfKindEmpty(tip, spent, heights);
    immature, nonNative, spentUnconfirmed := [], [], [];
    for i := 0 to |found|
      invariant immature == OfKind(found[..i], Immature, tip, spent, heights)
      invariant nonNative == OfKind(found[..i], Other, tip, spent, heights)
      invariant spentUnconfirmed == OfKind(found[..i], Spent, tip, spent, heights)
    {
      var u := found[i];
      assert found[..i + 1] == found[..i] + [u];
      OfKindSnoc(found[..i], u, Immature, tip, spent, heights);
      OfKindSnoc(found[..i], u, Other, tip, spent, heights);
      OfKindSnoc(found[..i], u, Spent, tip, spent, heights);
      if u.utxo.outpoint in spent {
        spentUnconfirmed := spentUnconfirmed + [u];
      } else if u.utxo.outpoint in others {
        nonNative := nonNative + [u];
      } else if u.utxo.outpoint !in mature {
        immature := immature + [u];
      }
    }
    assert found[..|found|] == found;
  }

  /** What the loop's three questions decide. */
  function Bucket(o: Outpoint, spent: seq<Outpoint>, others: seq<Outpoint>, mature: seq<Outpoint>): Kind {
    if o in spent then Spent else if o in others then Other else if o !in mature then Immature else Usable
  }

  /** The tail of `spendable`: filter what is mature, split by script, then sort the rest into buckets. */
  method Classify(tip: nat, found: seq<AddressUtxo>, spent: seq<Outpoint>, heights: seq<nat>) returns (r: Result<Funding, Error>)
    requires DistinctOutpoints(found)
    ensures r == Assemble(tip, found, spent, heights)
  {
    hide KindOf, OfKind, Filter, Outpoints, DistinctOutpoints, Utxos, Total, Bucket;
    var isMature := (u: AddressUtxo) => Mature(u, tip, heights);
    var unspent := (u: Utxo) => u.outpoint !in spent;
    var mature := Filter(Utxos(Filter(found, isMature)), unspent);
    var utxos := Filter(mature, (u: Utxo) => IsP2pkh(u.script));
    var others := Filter(mature, (u: Utxo) => !IsP2pkh(u.script));
    ghost var keptMature := (u: AddressUtxo) => isMature(u) && unspent(u.utxo);
    FilterUtxos(found, isMature, unspent);
    Splits(tip, found, spent, heights, keptMature);
    forall u | u in found
      ensures KindOf(u, tip, spent, heights) == Bucket(u.utxo.outpoint, spent, Outpoints(others), Outpoints(mature))
    {
      BucketIs(tip, found, spent, heights, keptMature, u);
    }
    var immature, nonNative, spentUnconfirmed := SortRest(found, spent, Outpoints(others), Outpoints(mature), tip, heights);
    if Total(utxos) > MAX_U64 {
      return Err(NotReady);
    }
    return Ok(Funding(utxos, tip, Total(utxos), immature, nonNative, spentUnconfirmed));
  }

  /** The three membership questions the loop asks decide the bucket. */
  lemma BucketIs(tip: nat, found: seq<AddressUtxo>, spent: seq<Outpoint>, heights: seq<nat>, keptMature: AddressUtxo -> bool, u: AddressUtxo)
    requires DistinctOutpoints(found) && u in found
    requires forall v :: keptMature(v) == (Mature(v, tip, heights) && v.utxo.outpoint !in spent)
    ensures KindOf(u, tip, spent, heights)
         == Bucket(u.utxo.outpoint, spent, Outpoints(Utxos(OfKind(found, Other, tip, spent, heights))),
                   Outpoints(Utxos(Filter(found, keptMature))))
  {
    hide Filter, Outpoints, Utxos, DistinctOutpoints, Mature, IsP2pkh;
    OutpointInFiltered(found, keptMature, u);
    OutpointInFiltered(found, (v: AddressUtxo) => KindOf(v, tip, spent, heights) == Other, u);
  }

  lemma Splits(tip: nat, found: seq<AddressUtxo>, spent: seq<Outpoint>, heights: seq<nat>, keptMature: AddressUtxo -> bool)
    requires forall u :: keptMature(u) == (Mature(u, tip, heights) && u.utxo.outpoint !in spent)
    ensures Filter(Utxos(Filter(found, keptMature)), (u: Utxo) => IsP2pkh(u.script))
         == Utxos(OfKind(found, Usable, tip, spent, heights))
    ensures Filter(Utxos(Filter(found, keptMature)), (u: Utxo) => !IsP2pkh(u.script))
         == Utxos(OfKind(found, Other, tip, spent, heights))
  {
    hide Filter;
    var p2pkh, rest := (u: Utxo) => IsP2pkh(u.script), (u: Utxo) => !IsP2pkh(u.script);
    FilterUtxos(found, keptMature, p2pkh);
    FilterUtxos(found, keptMature, rest);
    FilterSame(found, (u: AddressUtxo) => keptMature(u) && p2pkh(u.utxo),
               (u: AddressUtxo) => KindOf(u, tip, spent, heights) == Usable);
    FilterSame(found, (u: AddressUtxo) => keptMature(u) && rest(u.utxo),
               (u: AddressUtxo) => KindOf(u, tip, spent, heights) == Other);
  }

  /** `spendable`. The client has already refused a reply that repeats an outpoint. */
  method Spendable(reader: Reader) returns (r: Result<Funding, Error>)
    requires reader.addressUtxos.Ok? ==> DistinctOutpoints(reader.addressUtxos.value)
    ensures r == SpendableOutcome(reader)
  {
    if reader.blockCount.Err? {
      return Err(reader.blockCount.error);
    }
    if reader.addressUtxos.Err? {
      return Err(reader.addressUtxos.error);
    }
    var tip, found := reader.blockCount.value, reader.addressUtxos.value;
    var spent := BestEffortSpent(reader.addressMempool);
    if spent.Err? {
      return Err(spent.error);
    }
    var heights := ProbeCoinbaseHeights(reader, found, tip);
    if heights.Err? {
      return Err(heights.error);
    }
    r := Classify(tip, found, spent.value, heights.value);
  }

  // ---------------------------------------------------------------- what funding guarantees

  lemma OfKindSnoc(front: seq<AddressUtxo>, last: AddressUtxo, k: Kind, tip: nat, spent: seq<Outpoint>, heights: seq<nat>)
    ensures OfKind(front + [last], k, tip, spent, heights)
         == OfKind(front, k, tip, spent, heights) + if KindOf(last, tip, spent, heights) == k then [last] else []
  {
    assert (front + [last])[..|front|] == front;
  }

  lemma TotalSnoc(s: seq<AddressUtxo>, u: AddressUtxo)
    ensures Utxos(s + [u]) == Utxos(s) + [u.utxo]
    ensures Total(Utxos(s + [u])) == Total(Utxos(s)) + u.utxo.satoshis
  {
    assert Utxos(s + [u])[..|s|] == Utxos(s);
  }

  /** Every reported output lands in exactly one bucket, as often as it was reported. */
  lemma {:induction false} BucketsPartition(found: seq<AddressUtxo>, tip: nat, spent: seq<Outpoint>, heights: seq<nat>)
    ensures multiset(OfKind(found, Usable, tip, spent, heights)) + multiset(OfKind(found, Other, tip, spent, heights))
          + multiset(OfKind(found, Immature, tip, spent, heights)) + multiset(OfKind(found, Spent, tip, spent, heights))
         == multiset(found)
  {
    hide KindOf, OfKind;
    if found == [] {
      OfKindEmpty(tip, spent, heights);
    } else {
      var front, last := found[..|found| - 1], found[|found| - 1];
      assert found == front + [last];
      BucketsPartition(front, tip, spent, heights);
      OfKindSnoc(front, last, Usable, tip, spent, heights);
      OfKindSnoc(front, last, Other, tip, spent, heights);
      OfKindSnoc(front, last, Immature, tip, spent, heights);
      OfKindSnoc(front, last, Spent, tip, spent, heights);
    }
  }

  lemma OfKindEmpty(tip: nat, spent: seq<Outpoint>, heights: seq<nat>)
    ensures forall k :: OfKind([], k, tip, spent, heights) == []
  {
  }

  /** The four value sums add up to the reported total. */
  lemma {:induction false} BucketsConserveValue(found: seq<AddressUtxo>, tip: nat, spent: seq<Outpoint>, heights: seq<nat>)
    ensures Total(Utxos(OfKind(found, Usable, tip, spent, heights))) + Total(Utxos(OfKind(found, Other, tip, spent, heights)))
          + Total(Utxos(OfKind(found, Immature, tip, spent, heights))) + Total(Utxos(OfKind(found, Spent, tip, spent, heights)))
         == Total(Utxos(found))
  {
    hide KindOf, OfKind, Utxos, Total;
    if found == [] {
      OfKindEmpty(tip, spent, heights);
      TotalEmpty();
    } else {
      var front, last := found[..|found| - 1], found[|found| - 1];
      assert found == front + [last];
      BucketsConserveValue(front, tip, spent, heights);
      TotalSnoc(front, last);
      KindValueSnoc(front, last, Usable, tip, spent, heights);
      KindValueSnoc(front, last, Other, tip, spent, heights);
      KindValueSnoc(front, last, Immature, tip, spent, heights);
      KindValueSnoc(front, last, Spent, tip, spent, heights);
    }
  }

  lemma TotalEmpty()
    ensures Utxos([]) == [] && Total(Utxos([])) == 0
  {
  }

  lemma KindValueSnoc(front: seq<AddressUtxo>, last: AddressUtxo, k: Kind, tip: nat, spent: seq<Outpoint>, heights: seq<nat>)
    ensures Total(Utxos(OfKind(front + [last], k, tip, spent, heights)))
         == Total(Utxos(OfKind(front, k, tip, spent, heights)))
          + if KindOf(last, tip, spent, heights) == k then last.utxo.satoshis else 0
  {
    hide KindOf, OfKind, Total, Utxos;
    OfKindSnoc(front, last, k, tip, spent, heights);
    TotalSnoc(OfKind(front, k, tip, spent, heights), last);
    assert OfKind(front, k, tip, spent, heights) + [] == OfKind(front, k, tip, spent, heights);
  }

  /** The same, of the coins themselves. */
  lemma {:induction false} CoinsPartition(found: seq<AddressUtxo>, tip: nat, spent: seq<Outpoint>, heights: seq<nat>)
    ensures multiset(Utxos(OfKind(found, Usable, tip, spent, heights))) + multiset(Utxos(OfKind(found, Other, tip, spent, heights)))
          + multiset(Utxos(OfKind(found, Immature, tip, spent, heights))) + multiset(Utxos(OfKind(found, Spent, tip, spent, heights)))
         == multiset(Utxos(found))
  {
    hide KindOf, OfKind, Utxos;
    if found == [] {
      OfKindEmpty(tip, spent, heights);
      TotalEmpty();
    } else {
      var front, last := found[..|found| - 1], found[|found| - 1];
      assert found == front + [last];
      CoinsPartition(front, tip, spent, heights);
      UtxosSnoc(front, last);
      KindCoinsSnoc(front, last, Usable, tip, spent, heights);
      KindCoinsSnoc(front, last, Other, tip, spent, heights);
      KindCoinsSnoc(front, last, Immature, tip, spent, heights);
      KindCoinsSnoc(front, last, Spent, tip, spent, heights);
    }
  }

  lemma KindCoinsSnoc(front: seq<AddressUtxo>, last: AddressUtxo, k: Kind, tip: nat, spent: seq<Outpoint>, heights: seq<nat>)
    ensures Utxos(OfKind(front + [last], k, tip, spent, heights))
         == Utxos(OfKind(front, k, tip, spent, heights)) + if KindOf(last, tip, spent, heights) == k then [last.utxo] else []
  {
    hide KindOf, OfKind, Utxos;
    OfKindSnoc(front, last, k, tip, spent, heights);
    UtxosSnoc(OfKind(front, k, tip, spent, heights), last);
    assert OfKind(front, k, tip, spent, heights) + [] == OfKind(front, k, tip, spent, heights);
    assert Utxos(OfKind(front, k, tip, spent, heights)) + [] == Utxos(OfKind(front, k, tip, spent, heights));
  }

  function One(b: bool): nat {
    if b then 1 else 0
  }

  /** In how many of the four lists an output is. */
  function Places(f: Funding, u: AddressUtxo): nat {
    One(u.utxo in f.utxos) + One(u in f.other) + One(u in f.immature) + One(u in f.spentUnconfirmed)
  }

  /**
    What `spendable` returns accounts for everything the node reported: its four lists together are the
    reported coins, each as often as reported; every output is in exactly one of them; and no value is
    lost or made.
   */
  lemma FundingAccountsForAll(reader: Reader, f: Funding)
    requires SpendableOutcome(reader) == Ok(f) && DistinctOutpoints(reader.addressUtxos.value)
    ensures multiset(f.utxos) + multiset(Utxos(f.other)) + multiset(Utxos(f.immature)) + multiset(Utxos(f.spentUnconfirmed))
         == multiset(Utxos(reader.addressUtxos.value))
    ensures forall u :: u in reader.addressUtxos.value ==> Places(f, u) == 1
    ensures f.total + Total(Utxos(f.other)) + Total(Utxos(f.immature)) + Total(Utxos(f.spentUnconfirmed))
         == Total(Utxos(reader.addressUtxos.value))
  {
    hide AlreadySpent, CoinbaseHeights, KindOf, OfKind, Total, Utxos, DistinctOutpoints, Places;
    var found, tip, spent := reader.addressUtxos.value, f.tip, BestEffortSpent(reader.addressMempool).value;
    var heights := CoinbaseHeights(YoungOnes(found, tip), ProbeAll(YoungOnes(found, tip), reader.isCoinbase)).value;
    CoinsPartition(found, tip, spent, heights);
    BucketsConserveValue(found, tip, spent, heights);
    forall u | u in found
      ensures Places(f, u) == 1
    {
      OnePlace(found, tip, spent, heights, f, u);
    }
  }

  lemma OnePlace(found: seq<AddressUtxo>, tip: nat, spent: seq<Outpoint>, heights: seq<nat>, f: Funding, u: AddressUtxo)
    requires DistinctOutpoints(found) && u in found && Assemble(tip, found, spent, heights) == Ok(f)
    ensures Places(f, u) == 1
  {
    hide KindOf, Utxos, Total, DistinctOutpoints;
    UtxoInFilter(found, (v: AddressUtxo) => KindOf(v, tip, spent, heights) == Usable, u);
  }

  // ---------------------------------------------------------------- in heights and bytes

  /** `OP_DUP OP_HASH160`, a push of twenty bytes, and then `OP_EQUALVERIFY OP_CHECKSIG`. */
  ghost predicate PaysToKeyHash(script: seq<bv8>) {
    exists hash: seq<bv8> :: |hash| == 20 && script == [0x76, 0xa9, 0x14] + hash + [0x88, 0xac]
  }

  lemma P2pkhIff(script: seq<bv8>)
    ensures IsP2pkh(script) <==> PaysToKeyHash(script)
  {
    if IsP2pkh(script) {
      var hash := script[3..23];
      assert script == [0x76, 0xa9, 0x14] + hash + [0x88, 0xac];
    }
  }

  /** Fewer than a hundred blocks from its own through the tip. */
  predicate UnderHundred(u: AddressUtxo, tip: nat) {
    tip + 1 < u.height + 100
  }

  lemma YoungIff(u: AddressUtxo, tip: nat)
    requires u.height <= MAX_U32 && tip <= MAX_U32
    ensures Young(u, tip) <==> UnderHundred(u, tip)
  {
  }

  /** A spending row of the mempool names the output. */
  ghost predicate NamedAsSpent(reader: Reader, u: AddressUtxo) {
    reader.addressMempool.Ok?
    && exists row :: row in reader.addressMempool.value && row.spending && row.spends == Some(u.utxo.outpoint)
  }

  /** The node calls some reported output at that height a coinbase. */
  ghost predicate CoinbaseAt(reader: Reader, found: seq<AddressUtxo>, height: nat) {
    exists v :: v in found && v.height == height && reader.isCoinbase(v.utxo.outpoint.txid) == Ok(true)
  }

  /** Spendable for the node, and old enough or at no coinbase's height. */
  ghost predicate Ripe(reader: Reader, found: seq<AddressUtxo>, tip: nat, u: AddressUtxo) {
    u.isSpendable && (tip + 1 >= u.height + 100 || !CoinbaseAt(reader, found, u.height))
  }

  ghost predicate Offered(reader: Reader, found: seq<AddressUtxo>, tip: nat, u: AddressUtxo) {
    !NamedAsSpent(reader, u) && Ripe(reader, found, tip, u) && PaysToKeyHash(u.utxo.script)
  }

  /** Every height in the reader's answers is a 32-bit one. */
  ghost predicate Heights32(reader: Reader) {
    && (reader.blockCount.Ok? ==> reader.blockCount.value <= MAX_U32)
    && (reader.addressUtxos.Ok? ==> forall u :: u in reader.addressUtxos.value ==> u.height <= MAX_U32)
  }

  lemma {:induction false} HeightsAre(young: seq<AddressUtxo>, isCoinbase: nat -> Result<bool, Error>)
    ensures var r := CoinbaseHeights(young, ProbeAll(young, isCoinbase));
      && (r.Ok? <==> forall u :: u in young ==> isCoinbase(u.utxo.outpoint.txid).Ok?)
      && (r.Ok? ==> forall h :: h in r.value <==> exists u :: u in young && u.height == h && isCoinbase(u.utxo.outpoint.txid) == Ok(true))
      && (r.Err? ==> exists k :: 0 <= k < |young| && FailsFirst(young, isCoinbase, k) && isCoinbase(young[k].utxo.outpoint.txid) == Err(r.error))
  {
    hide FailsFirst;
    if young == [] {
      NoHeights(isCoinbase);
    } else {
      var front, last := young[..|young| - 1], young[|young| - 1];
      assert young == front + [last];
      HeightsAre(front, isCoinbase);
      HeightsSnoc(front, last, isCoinbase);
      FailsSnoc(front, last, isCoinbase);
    }
  }

  /** Probe `k` is the first that fails. */
  predicate FailsFirst(young: seq<AddressUtxo>, isCoinbase: nat -> Result<bool, Error>, k: nat)
    requires k < |young|
  {
    && isCoinbase(young[k].utxo.outpoint.txid).Err?
    && forall j :: 0 <= j < k ==> isCoinbase(young[j].utxo.outpoint.txid).Ok?
  }

  lemma NoHeights(isCoinbase: nat -> Result<bool, Error>)
    ensures CoinbaseHeights([], ProbeAll([], isCoinbase)) == Ok([])
  {
  }

  lemma HeightsSnoc(front: seq<AddressUtxo>, last: AddressUtxo, isCoinbase: nat -> Result<bool, Error>)
    ensures var before, probe := CoinbaseHeights(front, ProbeAll(front, isCoinbase)), isCoinbase(last.utxo.outpoint.txid);
      CoinbaseHeights(front + [last], ProbeAll(front + [last], isCoinbase))
        == if before.Err? then before
           else if probe.Err? then Err(probe.error)
           else Ok(if probe.value then before.value + [last.height] else before.value)
  {
    var all := front + [last];
    assert all[..|front|] == front && ProbeAll(all, isCoinbase)[..|front|] == ProbeAll(front, isCoinbase);
  }

  lemma FailsSnoc(front: seq<AddressUtxo>, last: AddressUtxo, isCoinbase: nat -> Result<bool, Error>)
    ensures forall k :: 0 <= k < |front| && FailsFirst(front, isCoinbase, k) ==> FailsFirst(front + [last], isCoinbase, k)
    ensures (forall u :: u in front ==> isCoinbase(u.utxo.outpoint.txid).Ok?) && isCoinbase(last.utxo.outpoint.txid).Err? ==>
      FailsFirst(front + [last], isCoinbase, |front|)
  {
  }

  /** At one height all outputs are young or none is, so the probed ones decide. */
  lemma ProbedDecide(reader: Reader, tip: nat, height: nat)
    requires Heights32(reader) && reader.addressUtxos.Ok? && tip <= MAX_U32 && tip + 1 < height + 100
    ensures CoinbaseAt(reader, reader.addressUtxos.value, height) <==>
      exists u :: u in YoungOnes(reader.addressUtxos.value, tip) && u.height == height
                  && reader.isCoinbase(u.utxo.outpoint.txid) == Ok(true)
  {
    hide Young, UnderHundred;
    var found := reader.addressUtxos.value;
    if CoinbaseAt(reader, found, height) {
      var v :| v in found && v.height == height && reader.isCoinbase(v.utxo.outpoint.txid) == Ok(true);
      YoungAt(v, tip, height);
      assert v in YoungOnes(found, tip);
    }
  }

  lemma YoungAt(u: AddressUtxo, tip: nat, height: nat)
    requires u.height == height <= MAX_U32 && tip <= MAX_U32 && tip + 1 < height + 100
    ensures Young(u, tip)
  {
  }

  lemma KindIs(reader: Reader, tip: nat, spent: seq<Outpoint>, heights: seq<nat>, u: AddressUtxo)
    requires Heights32(reader) && reader.addressUtxos.Ok? && tip <= MAX_U32 && u in reader.addressUtxos.value
    requires BestEffortSpent(reader.addressMempool) == Ok(spent)
    requires var young := YoungOnes(reader.addressUtxos.value, tip);
      CoinbaseHeights(young, ProbeAll(young, reader.isCoinbase)) == Ok(heights)
    ensures var found, kind := reader.addressUtxos.value, KindOf(u, tip, spent, heights);
      && (kind == Spent <==> NamedAsSpent(reader, u))
      && (kind == Immature <==> !NamedAsSpent(reader, u) && !Ripe(reader, found, tip, u))
      && (kind == Other <==> !NamedAsSpent(reader, u) && Ripe(reader, found, tip, u) && !PaysToKeyHash(u.utxo.script))
      && (kind == Usable <==> Offered(reader, found, tip, u))
  {
    hide PaysToKeyHash, IsP2pkh, CoinbaseHeights, CoinbaseAt, NamedAsSpent, Young, AlreadySpent, YoungOnes;
    P2pkhIff(u.utxo.script);
    YoungIff(u, tip);
    SpentIff(reader, spent, u);
    HeightsAre(YoungOnes(reader.addressUtxos.value, tip), reader.isCoinbase);
    if UnderHundred(u, tip) {
      ProbedDecide(reader, tip, u.height);
    }
  }

  lemma SpentIff(reader: Reader, spent: seq<Outpoint>, u: AddressUtxo)
    requires BestEffortSpent(reader.addressMempool) == Ok(spent)
    ensures u.utxo.outpoint in spent <==> NamedAsSpent(reader, u)
  {
    hide AlreadySpent;
    if reader.addressMempool.Ok? {
      var rows := reader.addressMempool.value;
      if u.utxo.outpoint in spent {
        var i :| 0 <= i < |rows| && rows[i].spending && rows[i].spends == Some(u.utxo.outpoint);
        assert rows[i] in rows;
      }
    }
  }

  /** Whether the reads of the operation can be answered: all but the mempool, which only must not be unasked. */
  ghost predicate Readable(reader: Reader) {
    && reader.blockCount.Ok? && reader.addressUtxos.Ok? && reader.addressMempool != Err(AnswerNeeded)
    && forall u :: u in reader.addressUtxos.value && UnderHundred(u, reader.blockCount.value) ==>
      reader.isCoinbase(u.utxo.outpoint.txid).Ok?
  }

  /** The funding, read off the answers: every list in the order reported. */
  ghost function FundingOf(reader: Reader): Funding
    requires Readable(reader)
  {
    var tip, found := reader.blockCount.value, reader.addressUtxos.value;
    var utxos := Utxos(Filter(found, (u: AddressUtxo) => Offered(reader, found, tip, u)));
    Funding(utxos, tip, Total(utxos),
            Filter(found, (u: AddressUtxo) => !NamedAsSpent(reader, u) && !Ripe(reader, found, tip, u)),
            Filter(found, (u: AddressUtxo) =>
              !NamedAsSpent(reader, u) && Ripe(reader, found, tip, u) && !PaysToKeyHash(u.utxo.script)),
            Filter(found, (u: AddressUtxo) => NamedAsSpent(reader, u)))
  }

  /**
    `spendable` in heights and bytes, for all answers of a node with 32-bit heights: it succeeds exactly
    when it could read what it needs, every output of fewer than a hundred blocks having been probed, and
    what it offers fits 64 bits; and then every output is where its script, its height, the coinbases of its
    height and the mempool put it.
   */
  lemma SpendableIs(reader: Reader)
    requires Heights32(reader)
    ensures SpendableOutcome(reader).Ok? <==> Readable(reader) && FundingOf(reader).total <= MAX_U64
    ensures SpendableOutcome(reader).Ok? ==> SpendableOutcome(reader).value == FundingOf(reader)
  {
    hide CoinbaseHeights, AlreadySpent, BestEffortSpent, Assemble, FundingOf, Readable, UnderHundred, Young;
    ReadableIff(reader);
    if Readable(reader) {
      var tip, found := reader.blockCount.value, reader.addressUtxos.value;
      var young := YoungOnes(found, tip);
      var spent, heights := BestEffortSpent(reader.addressMempool).value,
                            CoinbaseHeights(young, ProbeAll(young, reader.isCoinbase)).value;
      AssembledIs(reader, spent, heights);
    }
  }

  lemma ReadableIff(reader: Reader)
    requires Heights32(reader)
    ensures Readable(reader) <==>
      && reader.blockCount.Ok? && reader.addressUtxos.Ok? && BestEffortSpent(reader.addressMempool).Ok?
      && var young := YoungOnes(reader.addressUtxos.value, reader.blockCount.value);
         CoinbaseHeights(young, ProbeAll(young, reader.isCoinbase)).Ok?
  {
    hide CoinbaseHeights, AlreadySpent, Young, UnderHundred;
    if reader.blockCount.Ok? && reader.addressUtxos.Ok? {
      var found, tip := reader.addressUtxos.value, reader.blockCount.value;
      HeightsAre(YoungOnes(found, tip), reader.isCoinbase);
      forall u | u in found
        ensures Young(u, tip) <==> UnderHundred(u, tip)
      {
        YoungIff(u, tip);
      }
    }
  }

  lemma AssembledIs(reader: Reader, spent: seq<Outpoint>, heights: seq<nat>)
    requires Heights32(reader) && Readable(reader)
    requires BestEffortSpent(reader.addressMempool) == Ok(spent)
    requires var young := YoungOnes(reader.addressUtxos.value, reader.blockCount.value);
      CoinbaseHeights(young, ProbeAll(young, reader.isCoinbase)) == Ok(heights)
    ensures Assemble(reader.blockCount.value, reader.addressUtxos.value, spent, heights)
         == if FundingOf(reader).total > MAX_U64 then Err(NotReady) else Ok(FundingOf(reader))
  {
    hide CoinbaseHeights, AlreadySpent, BestEffortSpent, KindOf, NamedAsSpent, Ripe, Offered, PaysToKeyHash, YoungOnes, Filter, Utxos, Total, Heights32;
    var tip, found := reader.blockCount.value, reader.addressUtxos.value;
    TipFits(reader);
    forall u | u in found
      ensures KindOf(u, tip, spent, heights) == Usable <==> Offered(reader, found, tip, u)
      ensures KindOf(u, tip, spent, heights) == Spent <==> NamedAsSpent(reader, u)
      ensures KindOf(u, tip, spent, heights) == Immature <==> !NamedAsSpent(reader, u) && !Ripe(reader, found, tip, u)
      ensures KindOf(u, tip, spent, heights) == Other <==>
        !NamedAsSpent(reader, u) && Ripe(reader, found, tip, u) && !PaysToKeyHash(u.utxo.script)
    {
      KindIs(reader, tip, spent, heights, u);
    }
    FilterSame(found, (u: AddressUtxo) => KindOf(u, tip, spent, heights) == Usable, (u: AddressUtxo) => Offered(reader, found, tip, u));
    FilterSame(found, (u: AddressUtxo) => KindOf(u, tip, spent, heights) == Spent, (u: AddressUtxo) => NamedAsSpent(reader, u));
    FilterSame(found, (u: AddressUtxo) => KindOf(u, tip, spent, heights) == Immature,
               (u: AddressUtxo) => !NamedAsSpent(reader, u) && !Ripe(reader, found, tip, u));
    FilterSame(found, (u: AddressUtxo) => KindOf(u, tip, spent, heights) == Other,
               (u: AddressUtxo) => !NamedAsSpent(reader, u) && Ripe(reader, found, tip, u) && !PaysToKeyHash(u.utxo.script));
  }

  lemma TipFits(reader: Reader)
    requires Heights32(reader) && reader.blockCount.Ok?
    ensures reader.blockCount.value <= MAX_U32
  {
  }

  /**
    An output is offered exactly when it pays to a key hash, no spending mempool row names it, the node calls
    it spendable, and it has a hundred blocks or no reported output of its height is a coinbase. It is
    withheld as immature exactly when it is not named and fails one of the last two. Every output with
    fewer than a hundred blocks was asked about.
   */
  lemma OfferedCoinsAreSpendable(reader: Reader, funding: Funding, u: AddressUtxo)
    requires Heights32(reader) && SpendableOutcome(reader) == Ok(funding)
    requires u in reader.addressUtxos.value && DistinctOutpoints(reader.addressUtxos.value)
    ensures var ripe := u.isSpendable
                        && (funding.tip + 1 >= u.height + 100 || !CoinbaseAt(reader, reader.addressUtxos.value, u.height));
      && (u.utxo in funding.utxos <==> PaysToKeyHash(u.utxo.script) && !NamedAsSpent(reader, u) && ripe)
      && (u in funding.immature <==> !NamedAsSpent(reader, u) && !ripe)
      && (u in funding.other <==> !PaysToKeyHash(u.utxo.script) && !NamedAsSpent(reader, u) && ripe)
      && (u in funding.spentUnconfirmed <==> NamedAsSpent(reader, u))
    ensures funding.tip + 1 < u.height + 100 ==> reader.isCoinbase(u.utxo.outpoint.txid).Ok?
    ensures u.utxo in funding.utxos && funding.tip + 1 < u.height + 100 ==> reader.isCoinbase(u.utxo.outpoint.txid) == Ok(false)
    ensures reader.blockCount == Ok(funding.tip) && funding.total == Total(funding.utxos) <= MAX_U64
  {
    hide SpendableOutcome, PaysToKeyHash, NamedAsSpent, Total, Utxos, Filter, DistinctOutpoints;
    SpendableIs(reader);
    var tip, found := reader.blockCount.value, reader.addressUtxos.value;
    UtxoInFilter(found, (v: AddressUtxo) => Offered(reader, found, tip, v), u);
    if UnderHundred(u, tip) {
      ProbedAnswer(reader, found, tip, u);
    }
  }

  lemma ProbedAnswer(reader: Reader, found: seq<AddressUtxo>, tip: nat, u: AddressUtxo)
    requires u in found && UnderHundred(u, tip) && reader.isCoinbase(u.utxo.outpoint.txid).Ok?
    ensures Ripe(reader, found, tip, u) ==> reader.isCoinbase(u.utxo.outpoint.txid) == Ok(false)
  {
    match reader.isCoinbase(u.utxo.outpoint.txid) {
      case Ok(coinbase) => assert coinbase ==> CoinbaseAt(reader, found, u.height);
    }
  }

  lemma UtxoInFilter(found: seq<AddressUtxo>, p: AddressUtxo -> bool, u: AddressUtxo)
    requires DistinctOutpoints(found) && u in found
    ensures u.utxo in Utxos(Filter(found, p)) <==> p(u)
  {
    var kept := Filter(found, p);
    if p(u) {
      var i :| 0 <= i < |kept| && kept[i] == u;
      assert Utxos(kept)[i] == u.utxo;
    }
    if u.utxo in Utxos(kept) {
      var i :| 0 <= i < |kept| && Utxos(kept)[i] == u.utxo;
      assert kept[i] in found;
      var j :| 0 <= j < |found| && found[j] == kept[i];
      var m :| 0 <= m < |found| && found[m] == u;
      assert j == m;
    }
  }

  /** A failure is the first there is, in the order the answers are looked at. */
  lemma FailureIs(reader: Reader, e: Error)
    requires Heights32(reader) && SpendableOutcome(reader) == Err(e)
    ensures
      || reader.blockCount == Err(e)
      || (reader.blockCount.Ok? && reader.addressUtxos == Err(e))
      || (reader.blockCount.Ok? && reader.addressUtxos.Ok? && reader.addressMempool == Err(AnswerNeeded) && e == AnswerNeeded)
      || (reader.blockCount.Ok? && reader.addressUtxos.Ok? && reader.addressMempool != Err(AnswerNeeded)
          && var young := Filter(reader.addressUtxos.value, (u: AddressUtxo) => UnderHundred(u, reader.blockCount.value));
             exists k :: 0 <= k < |young| && FailsFirst(young, reader.isCoinbase, k)
                         && reader.isCoinbase(young[k].utxo.outpoint.txid) == Err(e))
      || (Readable(reader) && FundingOf(reader).total > MAX_U64 && e == NotReady)
  {
    hide CoinbaseHeights, AlreadySpent, Assemble, FundingOf, UnderHundred, Young, FailsFirst, Filter;
    SpendableIs(reader);
    ReadableIff(reader);
    if reader.blockCount.Ok? && reader.addressUtxos.Ok? && BestEffortSpent(reader.addressMempool).Ok? {
      var found, tip := reader.addressUtxos.value, reader.blockCount.value;
      YoungFiltered(found, tip);
      HeightsAre(YoungOnes(found, tip), reader.isCoinbase);
      hide Readable;
      if Readable(reader) {
        TooMuch(reader, e);
      }
    }
  }

  lemma TooMuch(reader: Reader, e: Error)
    requires Heights32(reader) && Readable(reader) && SpendableOutcome(reader) == Err(e)
    ensures e == NotReady
  {
    hide CoinbaseHeights, AlreadySpent, BestEffortSpent, Readable, Total, OfKind;
    ReadableIff(reader);
  }

  lemma YoungFiltered(found: seq<AddressUtxo>, tip: nat)
    requires tip <= MAX_U32 && forall u :: u in found ==> u.height <= MAX_U32
    ensures YoungOnes(found, tip) == Filter(found, (u: AddressUtxo) => UnderHundred(u, tip))
  {
    hide Young, UnderHundred, Filter;
    forall u | u in found
      ensures Young(u, tip) == UnderHundred(u, tip)
    {
      YoungIff(u, tip);
    }
    FilterSame(found, (u: AddressUtxo) => Young(u, tip), (u: AddressUtxo) => UnderHundred(u, tip));
  }

  /** Everything in `a` is in `b`, so its coins and its value are too. */
  ghost predicate Within(a: seq<AddressUtxo>, b: seq<AddressUtxo>) {
    && multiset(a) <= multiset(b)
    && multiset(Utxos(a)) <= multiset(Utxos(b))
    && Total(Utxos(a)) <= Total(Utxos(b))
  }

  lemma WithinSnoc(a: seq<AddressUtxo>, b: seq<AddressUtxo>, u: AddressUtxo)
    requires Within(a, b)
    ensures Within(a, b + [u]) && Within(a + [u], b + [u])
  {
    hide Total, Utxos;
    TotalSnoc(a, u);
    TotalSnoc(b, u);
  }

  lemma {:induction false} ReleasedIsMore(found: seq<AddressUtxo>, k: Kind, tip: nat, spent: seq<Outpoint>, heights: seq<nat>)
    requires k != Spent
    ensures Within(OfKind(found, k, tip, spent, heights), OfKind(found, k, tip, [], heights))
    ensures OfKind(found, Spent, tip, [], heights) == []
  {
    hide KindOf, OfKind, Within;
    NothingWithin();
    OfKindEmpty(tip, spent, heights);
    OfKindEmpty(tip, [], heights);
    if found != [] {
      var front, last := found[..|found| - 1], found[|found| - 1];
      assert found == front + [last];
      ReleasedIsMore(front, k, tip, spent, heights);
      KindReleased(last, k, tip, spent, heights);
      OfKindSnoc(front, last, k, tip, spent, heights);
      OfKindSnoc(front, last, k, tip, [], heights);
      OfKindSnoc(front, last, Spent, tip, [], heights);
      var a, b := OfKind(front, k, tip, spent, heights), OfKind(front, k, tip, [], heights);
      WithinSnoc(a, b, last);
      assert a + [] == a && b + [] == b;
    }
  }

  lemma NothingWithin()
    ensures Within([], [])
  {
  }

  lemma KindReleased(u: AddressUtxo, k: Kind, tip: nat, spent: seq<Outpoint>, heights: seq<nat>)
    requires k != Spent
    ensures KindOf(u, tip, spent, heights) == k ==> KindOf(u, tip, [], heights) == k
    ensures KindOf(u, tip, [], heights) != Spent
  {
  }

  /** A failed mempool read only moves outputs out of `spentUnconfirmed`: had the mempool been
      readable, every other bucket would have held some of the same outputs and nothing else. */
  lemma MempoolFailureOnlyReleases(reader: Reader, rows: seq<MempoolRow>, failed: Funding)
    requires reader.addressMempool.Err? && SpendableOutcome(reader) == Ok(failed)
    ensures failed.spentUnconfirmed == []
    ensures var told := SpendableOutcome(reader.(addressMempool := Ok(rows)));
      && told.Ok?
      && multiset(told.value.utxos) <= multiset(failed.utxos) && told.value.total <= failed.total
      && multiset(told.value.other) <= multiset(failed.other)
      && multiset(told.value.immature) <= multiset(failed.immature)
  {
    hide AlreadySpent, CoinbaseHeights, Total, OfKind, Utxos;
    var found, tip := reader.addressUtxos.value, failed.tip;
    var young := YoungOnes(found, tip);
    var heights := CoinbaseHeights(young, ProbeAll(young, reader.isCoinbase)).value;
    var spent := AlreadySpent(rows);
    ReleasedIsMore(found, Usable, tip, spent, heights);
    ReleasedIsMore(found, Other, tip, spent, heights);
    ReleasedIsMore(found, Immature, tip, spent, heights);
  }
}
