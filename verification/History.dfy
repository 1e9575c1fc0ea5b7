/** Folding per-output deltas into one net entry per transaction. */
module History {
  import opened Base

  datatype Delta = Delta(txid: nat, height: nat, blockIndex: nat, blockTime: int, index: nat,
                         satoshis: int, values: map<string, int>, spending: bool)

  datatype Entry = Entry(txid: nat, height: nat, blockIndex: nat, blockTime: int,
                         netNative: int, netCurrencies: map<string, int>, spentSomething: bool)

  /** What names a movement: an input's or an output's position, according to `spending`. */
  datatype Movement = Movement(txid: nat, spending: bool, index: nat)

  datatype Folded = Folded(entries: map<nat, Entry>, counted: set<Movement>)

  predicate FitsI64(x: int) {
    -0x8000_0000_0000_0000 <= x <= 0x7fff_ffff_ffff_ffff
  }

  function MovementOf(d: Delta): Movement {
    Movement(d.txid, d.spending, d.index)
  }

  function Get(m: map<string, int>, c: string): int {
    if c in m then m[c] else 0
  }

  /** Running sums after adding one movement's values, the native currency left out. */
  function AddValues(net: map<string, int>, values: map<string, int>, native: string): map<string, int> {
    map c | c in net.Keys + (values.Keys - {native}) :: Get(net, c) + if c == native then 0 else Get(values, c)
  }

  predicate ValuesFit(net: map<string, int>, values: map<string, int>, native: string) {
    forall c :: c in values && c != native ==> FitsI64(Get(net, c) + values[c])
  }

  function EntryFor(f: Folded, d: Delta): Entry {
    if d.txid in f.entries then f.entries[d.txid]
    else Entry(d.txid, d.height, d.blockIndex, d.blockTime, 0, map[], false)
  }

  /** One row. A repeat sighting still marks the spend but adds no value. */
  function Step(f: Folded, d: Delta, native: string): Option<Folded> {
    var e := EntryFor(f, d);
    var seen := e.(spentSomething := e.spentSomething || d.spending);
    if MovementOf(d) in f.counted then Some(f.(entries := f.entries[d.txid := seen]))
    else if !FitsI64(e.netNative + d.satoshis) || !ValuesFit(e.netCurrencies, d.values, native) then None
    else
      var counted := seen.(netNative := e.netNative + d.satoshis,
                           netCurrencies := AddValues(e.netCurrencies, d.values, native));
      Some(Folded(f.entries[d.txid := counted], f.counted + {MovementOf(d)}))
  }

  function Fold(rows: seq<Delta>, native: string): Option<Folded> {
    if rows == [] then Some(Folded(map[], {}))
    else
      match Fold(rows[..|rows| - 1], native)
      case None => None
      case Some(f) => Step(f, rows[|rows| - 1], native)
  }

  /** The entry as reported: currencies that net to exactly zero are dropped. */
  function Reported(e: Entry): Entry {
    e.(netCurrencies := map c | c in e.netCurrencies && e.netCurrencies[c] != 0 :: e.netCurrencies[c])
  }

  predicate Before(a: Entry, b: Entry) {
    || a.height < b.height
    || (a.height == b.height && (a.blockIndex < b.blockIndex || (a.blockIndex == b.blockIndex && a.txid < b.txid)))
  }

  predicate InOrder(es: seq<Entry>) {
    forall i, j :: 0 <= i < j < |es| ==> Before(es[i], es[j])
  }

  /** The list a caller gets: exactly the reported entries, strictly ordered. */
  ghost predicate IsHistory(f: Folded, es: seq<Entry>) {
    && InOrder(es)
    && (forall e :: e in es <==> exists t :: t in f.entries && e == Reported(f.entries[t]))
  }

  /** The transactions that occur, in the order first seen. */
  function Txids(rows: seq<Delta>): (r: seq<nat>)
    ensures forall t :: t in r <==> exists d :: d in rows && d.txid == t
    ensures Distinct(r)
  {
    if rows == [] then []
    else
      var before, last := Txids(rows[..|rows| - 1]), rows[|rows| - 1];
      assert rows == rows[..|rows| - 1] + [last];
      if last.txid in before then before else before + [last.txid]
  }

  /** An entry put where it belongs in an ordered list. */
  function Placed(es: seq<Entry>, e: Entry): seq<Entry> {
    if es == [] || !Before(es[0], e) then [e] + es else [es[0]] + Placed(es[1..], e)
  }

  function Arranged(f: Folded, ts: seq<nat>): seq<Entry>
    requires forall t :: t in ts ==> t in f.entries
  {
    if ts == [] then [] else Placed(Arranged(f, ts[..|ts| - 1]), Reported(f.entries[ts[|ts| - 1]]))
  }

  // ---------------------------------------------------------------- the loops of the source

  /** The inner loop over one movement's currency values, in whatever order the map yields them. */
  method AddAll(net: map<string, int>, values: map<string, int>, native: string) returns (r: Option<map<string, int>>)
    ensures r == if ValuesFit(net, values, native) then Some(AddValues(net, values, native)) else None
  {
    hide AddValues, ValuesFit;
    var running, todo := net, values.Keys;
    ghost var done: map<string, int> := map[];
    AddNone(net, native);
    while todo != {}
      invariant todo <= values.Keys && done.Keys == values.Keys - todo
      invariant forall c :: c in done ==> done[c] == values[c]
      invariant running == AddValues(net, done, native) && ValuesFit(net, done, native)
      decreases todo
    {
      var c :| c in todo;
      todo := todo - {c};
      AddOne(net, done, native, c, values[c]);
      if c != native {
        var sum := Get(running, c) + values[c];
        if !FitsI64(sum) {
          Misfit(net, values, native, c);
          return None;
        }
        running := running[c := sum];
      }
      done := done[c := values[c]];
    }
    assert done == values;
    return Some(running);
  }

  lemma AddNone(net: map<string, int>, native: string)
    ensures AddValues(net, map[], native) == net && ValuesFit(net, map[], native)
  {
  }

  lemma AddOne(net: map<string, int>, part: map<string, int>, native: string, c: string, v: int)
    requires c !in part
    ensures c == native ==> AddValues(net, part[c := v], native) == AddValues(net, part, native)
    ensures c != native ==>
      AddValues(net, part[c := v], native) == AddValues(net, part, native)[c := Get(AddValues(net, part, native), c) + v]
    ensures c != native ==> Get(AddValues(net, part, native), c) == Get(net, c)
    ensures ValuesFit(net, part[c := v], native) <==> ValuesFit(net, part, native) && (c == native || FitsI64(Get(net, c) + v))
  {
    hide ValuesFit, Get;
    FitOne(net, part, native, c, v);
    GetOther(net, part, native, c);
    GetUpdated(part, c, v);
    var sums, goal := AddValues(net, part[c := v], native), AddValues(net, part, native);
    if c == native {
      assert sums.Keys == goal.Keys;
    } else {
      assert sums.Keys == goal.Keys + {c};
    }
  }

  lemma GetUpdated(part: map<string, int>, c: string, v: int)
    requires c !in part
    ensures Get(part, c) == 0 && forall k :: Get(part[c := v], k) == if k == c then v else Get(part, k)
  {
  }

  lemma GetOther(net: map<string, int>, part: map<string, int>, native: string, c: string)
    requires c !in part
    ensures Get(AddValues(net, part, native), c) == Get(net, c)
  {
  }

  lemma FitOne(net: map<string, int>, part: map<string, int>, native: string, c: string, v: int)
    requires c !in part
    ensures ValuesFit(net, part[c := v], native) <==> ValuesFit(net, part, native) && (c == native || FitsI64(Get(net, c) + v))
  {
    hide AddValues;
    var after := part[c := v];
    assert c in after && after[c] == v;
    assert forall k :: k in part ==> k in after && after[k] == part[k];
  }

  lemma Misfit(net: map<string, int>, values: map<string, int>, native: string, c: string)
    requires c in values && c != native && !FitsI64(Get(net, c) + values[c])
    ensures !ValuesFit(net, values, native)
  {
  }

  method FoldRows(rows: seq<Delta>, native: string) returns (r: Option<Folded>)
    ensures r == Fold(rows, native)
  {
    var entries: map<nat, Entry>, counted: set<Movement> := map[], {};
    for i := 0 to |rows|
      invariant Fold(rows[..i], native) == Some(Folded(entries, counted))
    {
      var d := rows[i];
      assert rows[..i + 1][..i] == rows[..i];
      ghost var before := Folded(entries, counted);
      var e := EntryFor(Folded(entries, counted), d);
      e := e.(spentSomething := e.spentSomething || d.spending);
      if MovementOf(d) in counted {
        entries := entries[d.txid := e];
      } else {
        var sums := AddAll(e.netCurrencies, d.values, native);
        if !FitsI64(e.netNative + d.satoshis) || sums.None? {
          NoneStaysNone(rows, native, i + 1);
          return None;
        }
        counted := counted + {MovementOf(d)};
        e := e.(netNative := e.netNative + d.satoshis, netCurrencies := sums.value);
        entries := entries[d.txid := e];
      }
      assert Step(before, d, native) == Some(Folded(entries, counted));
    }
    assert rows[..|rows|] == rows;
    return Some(Folded(entries, counted));
  }

  lemma {:induction false} NoneStaysNone(rows: seq<Delta>, native: string, n: nat)
    requires n <= |rows| && Fold(rows[..n], native).None?
    ensures Fold(rows, native).None?
  {
    if n == |rows| {
      assert rows[..n] == rows;
    } else {
      assert rows[..|rows| - 1][..n] == rows[..n];
      NoneStaysNone(rows[..|rows| - 1], native, n);
    }
  }

  lemma InsertKeepsOrder(es: seq<Entry>, i: nat, e: Entry)
    requires InOrder(es) && i <= |es|
    requires forall k :: 0 <= k < i ==> Before(es[k], e)
    requires i < |es| ==> Before(e, es[i])
    ensures InOrder(es[..i] + [e] + es[i..])
  {
    var r := es[..i] + [e] + es[i..];
    forall k | i < k < |es|
      ensures Before(e, es[k])
    {
      assert Before(es[i], es[k]);
    }
    hide Before;
    forall j, k | 0 <= j < k < |r|
      ensures Before(r[j], r[k])
    {
      assert r[j] == if j < i then es[j] else if j == i then e else es[j - 1];
      assert r[k] == if k < i then es[k] else if k == i then e else es[k - 1];
    }
  }

  /** Where an entry belongs in an ordered list that does not hold its transaction yet. */
  method Insert(es: seq<Entry>, e: Entry) returns (r: seq<Entry>)
    requires InOrder(es) && forall x :: x in es ==> x.txid != e.txid
    ensures InOrder(r) && forall x :: x in r <==> x == e || x in es
  {
    var i := 0;
    while i < |es| && Before(es[i], e)
      invariant i <= |es| && forall k :: 0 <= k < i ==> Before(es[k], e)
    {
      i := i + 1;
    }
    assert i < |es| ==> es[i] in es;
    InsertKeepsOrder(es, i, e);
    r := es[..i] + [e] + es[i..];
    hide InOrder, Before;
    assert es == es[..i] + es[i..];
  }

  /** `history`: fold, drop the zeros, and put the entries in chain order, whatever order the hash
      map hands them out in. */
  method HistoryOf(rows: seq<Delta>, native: string) returns (r: Option<seq<Entry>>)
    ensures r.Some? <==> Fold(rows, native).Some?
    ensures r.Some? ==> IsHistory(Fold(rows, native).value, r.value)
  {
    var folded := FoldRows(rows, native);
    if folded.None? {
      return None;
    }
    var f := folded.value;
    EntriesKeyed(rows, native);
    var todo, es := f.entries.Keys, [];
    while todo != {}
      invariant todo <= f.entries.Keys && InOrder(es)
      invariant forall e :: e in es <==> exists t :: t in f.entries && t !in todo && e == Reported(f.entries[t])
      decreases todo
    {
      var t :| t in todo;
      assert forall x :: x in es ==> x.txid != t;
      es := Insert(es, Reported(f.entries[t]));
      todo := todo - {t};
    }
    return Some(es);
  }

  lemma {:induction false} EntriesKeyed(rows: seq<Delta>, native: string)
    requires Fold(rows, native).Some?
    ensures forall t :: t in Fold(rows, native).value.entries ==> Fold(rows, native).value.entries[t].txid == t
  {
    if rows != [] {
      EntriesKeyed(rows[..|rows| - 1], native);
    }
  }

  // ---------------------------------------------------------------- the list as a function

  lemma {:induction false} PlacedKeepsOrder(es: seq<Entry>, e: Entry)
    requires InOrder(es) && forall x :: x in es ==> x.txid != e.txid
    ensures InOrder(Placed(es, e)) && forall x :: x in Placed(es, e) <==> x == e || x in es
    decreases |es|
  {
    if es != [] && Before(es[0], e) {
      assert es == [es[0]] + es[1..];
      PlacedKeepsOrder(es[1..], e);
      FirstBeforeAll(es);
      PutFirst(es[0], Placed(es[1..], e));
    } else if es != [] {
      FirstBeforeAll(es);
      BeforeIsTotal(es[0], e);
      PutFirst(e, es);
    }
  }

  lemma BeforeIsTotal(a: Entry, b: Entry)
    requires a.txid != b.txid
    ensures Before(a, b) || Before(b, a)
  {
  }

  lemma FirstBeforeAll(es: seq<Entry>)
    requires InOrder(es) && es != []
    ensures forall x :: x in es[1..] ==> Before(es[0], x)
    ensures forall x, e: Entry :: x in es && Before(e, es[0]) ==> Before(e, x)
  {
    forall x | x in es[1..]
      ensures Before(es[0], x)
    {
      var i :| 1 <= i < |es| && es[i] == x;
    }
    assert es == [es[0]] + es[1..];
  }

  lemma PutFirst(e: Entry, es: seq<Entry>)
    requires InOrder(es) && forall x :: x in es ==> Before(e, x)
    ensures InOrder([e] + es)
  {
    hide Before;
    var r := [e] + es;
    forall i, j | 0 <= i < j < |r|
      ensures Before(r[i], r[j])
    {
      assert r[j] == es[j - 1] && es[j - 1] in es;
    }
  }

  lemma {:induction false} ArrangedInOrder(f: Folded, ts: seq<nat>)
    requires Distinct(ts) && forall t :: t in ts ==> t in f.entries && f.entries[t].txid == t
    ensures InOrder(Arranged(f, ts))
    ensures forall e :: e in Arranged(f, ts) <==> exists t :: t in ts && e == Reported(f.entries[t])
  {
    if ts != [] {
      var front, last := ts[..|ts| - 1], ts[|ts| - 1];
      assert ts == front + [last];
      ArrangedInOrder(f, front);
      assert forall t :: t in front ==> t != last;
      hide InOrder, Placed;
      PlacedKeepsOrder(Arranged(f, front), Reported(f.entries[last]));
    }
  }
}
