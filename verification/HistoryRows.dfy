/**
  A history read off its rows: what each entry holds, in which order they come, and exactly when a running
  sum leaves 64 bits. Nothing here goes by way of the fold.
 */
module HistoryRows {
  import opened Base
  import opened History
  import opened HistoryLaws

  /** The row is the first to report its movement: this input or this output of this transaction. */
  predicate IsFirst(rows: seq<Delta>, i: nat)
    requires i < |rows|
  {
    forall j :: 0 <= j < i ==>
      !(rows[j].txid == rows[i].txid && rows[j].spending == rows[i].spending && rows[j].index == rows[i].index)
  }

  /** The native amounts of the transaction, each movement counted once. */
  function Native(rows: seq<Delta>, t: nat): int {
    if rows == [] then 0
    else
      var n := |rows| - 1;
      Native(rows[..n], t) + if rows[n].txid == t && IsFirst(rows, n) then rows[n].satoshis else 0
  }

  /** Its amounts in a currency, likewise. */
  function Currency(rows: seq<Delta>, t: nat, c: string): int {
    if rows == [] then 0
    else
      var n := |rows| - 1;
      Currency(rows[..n], t, c)
      + if rows[n].txid == t && c in rows[n].values && IsFirst(rows, n) then rows[n].values[c] else 0
  }

  predicate In64(x: int) {
    -0x8000_0000_0000_0000 <= x <= 0x7fff_ffff_ffff_ffff
  }

  lemma FirstIff(rows: seq<Delta>)
    requires rows != []
    ensures var n := |rows| - 1; IsFirst(rows, n) <==> MovementOf(rows[n]) !in Seen(rows[..n])
  {
    var n := |rows| - 1;
    var front := rows[..n];
    if !IsFirst(rows, n) {
      var j :| 0 <= j < n && rows[j].txid == rows[n].txid && rows[j].spending == rows[n].spending && rows[j].index == rows[n].index;
      assert front[j] == rows[j] && front[j] in front && MovementOf(front[j]) == MovementOf(rows[n]);
    }
    if MovementOf(rows[n]) in Seen(front) {
      var d :| d in front && MovementOf(d) == MovementOf(rows[n]);
      var j :| 0 <= j < n && front[j] == d;
      assert rows[j] == d;
    }
  }

  lemma {:induction false} NativeIs(rows: seq<Delta>, t: nat)
    ensures Native(rows, t) == Sum(Sightings(rows), NativeShare(t))
  {
    hide IsFirst, Seen, Sum;
    if rows == [] {
      NoSum(NativeShare(t));
    } else {
      var front, d := rows[..|rows| - 1], rows[|rows| - 1];
      NativeIs(front, t);
      FirstIff(rows);
      SumSnoc(Sightings(front), d, NativeShare(t));
    }
  }

  lemma NoSum(share: Delta -> int)
    ensures Sum([], share) == 0
  {
  }

  lemma {:induction false} CurrencyIs(rows: seq<Delta>, t: nat, c: string)
    ensures Currency(rows, t, c) == Sum(Sightings(rows), ValueShare(t, c))
  {
    hide IsFirst, Seen, Sum;
    if rows == [] {
      NoSum(ValueShare(t, c));
    } else {
      var front, d := rows[..|rows| - 1], rows[|rows| - 1];
      CurrencyIs(front, t, c);
      FirstIff(rows);
      SumSnoc(Sightings(front), d, ValueShare(t, c));
    }
  }

  /** The place in the chain is that of the first row of the transaction. */
  predicate PlacedLike(e: Entry, rows: seq<Delta>, k: nat)
    requires k < |rows|
  {
    && rows[k].txid == e.txid && (forall j :: 0 <= j < k ==> rows[j].txid != e.txid)
    && e.height == rows[k].height && e.blockIndex == rows[k].blockIndex && e.blockTime == rows[k].blockTime
  }

  /** An entry, field by field. */
  ghost predicate IsEntryOf(e: Entry, rows: seq<Delta>, native: string) {
    && (exists k :: 0 <= k < |rows| && PlacedLike(e, rows, k))
    && e.netNative == Native(rows, e.txid)
    && (forall c :: c in e.netCurrencies <==> c != native && Currency(rows, e.txid, c) != 0)
    && (forall c :: c in e.netCurrencies ==> e.netCurrencies[c] == Currency(rows, e.txid, c))
    && (e.spentSomething <==> exists d :: d in rows && d.txid == e.txid && d.spending)
  }

  lemma {:induction false} FirstRowAt(rows: seq<Delta>, t: nat) returns (k: nat)
    requires FirstRow(rows, t).Some?
    ensures k < |rows| && rows[k] == FirstRow(rows, t).value && rows[k].txid == t
    ensures forall j :: 0 <= j < k ==> rows[j].txid != t
  {
    var n := |rows| - 1;
    var front := rows[..n];
    if FirstRow(front, t).Some? {
      k := FirstRowAt(front, t);
    } else {
      k := n;
      FirstRowIsARow(front, t);
      assert forall j :: 0 <= j < n ==> rows[j] == front[j] && front[j] in front;
    }
  }

  lemma ReportedIs(e: Entry, rows: seq<Delta>, native: string)
    requires Accounts(e, rows, native, e.txid)
    ensures IsEntryOf(Reported(e), rows, native)
  {
    hide Sum, Sightings, FirstRow, Native, Currency, PlacedLike;
    NativeIs(rows, e.txid);
    ReportedNets(e, rows, native, e.txid);
    forall c: string
      ensures Currency(rows, e.txid, c) == Sum(Sightings(rows), ValueShare(e.txid, c))
    {
      CurrencyIs(rows, e.txid, c);
    }
    var k := FirstRowAt(rows, e.txid);
    assert PlacedLike(Reported(e), rows, k) by { LikeFirst(e, rows, k); }
  }

  lemma LikeFirst(e: Entry, rows: seq<Delta>, k: nat)
    requires k < |rows| && rows[k].txid == e.txid && forall j :: 0 <= j < k ==> rows[j].txid != e.txid
    requires e.height == rows[k].height && e.blockIndex == rows[k].blockIndex && e.blockTime == rows[k].blockTime
    ensures PlacedLike(Reported(e), rows, k)
  {
  }

  /** Lower before higher, in a block earlier before later, and at one place by txid. */
  predicate ComesBefore(a: Entry, b: Entry) {
    && a.height <= b.height
    && (a.height == b.height ==> a.blockIndex <= b.blockIndex)
    && (a.height == b.height && a.blockIndex == b.blockIndex ==> a.txid < b.txid)
  }

  /**
    The list a caller gets: in chain order, one entry for every transaction that occurs in the rows, each as
    its rows say.
   */
  lemma HistoryIs(rows: seq<Delta>, native: string, es: seq<Entry>)
    requires HistoryList(rows, native) == Some(es)
    ensures forall i, j :: 0 <= i < j < |es| ==> ComesBefore(es[i], es[j])
    ensures forall e :: e in es ==> IsEntryOf(e, rows, native)
    ensures forall d :: d in rows ==> exists e :: e in es && e.txid == d.txid
    ensures forall i, j :: 0 <= i < j < |es| ==> es[i].txid != es[j].txid
  {
    hide Fold, Reported, Arranged, Txids, Accounts, IsEntryOf, FirstRow, Seen;
    var f := Fold(rows, native).value;
    OnlyHistory(rows, native, es);
    HistoryConserves(rows, native);
    EntriesKeyed(rows, native);
    forall e | e in es
      ensures IsEntryOf(e, rows, native)
    {
      var t :| t in f.entries && e == Reported(f.entries[t]);
      ReportedIs(f.entries[t], rows, native);
    }
    forall d | d in rows
      ensures exists e :: e in es && e.txid == d.txid
    {
      FirstRowIsARow(rows, d.txid);
      assert Reported(f.entries[d.txid]) in es;
      KeepsTxid(f.entries[d.txid]);
    }
    forall i, j | 0 <= i < j < |es|
      ensures ComesBefore(es[i], es[j]) && es[i].txid != es[j].txid
    {
      assert es[i] in es && es[j] in es && Before(es[i], es[j]);
      var t :| t in f.entries && es[i] == Reported(f.entries[t]);
      var u :| u in f.entries && es[j] == Reported(f.entries[u]);
      KeepsTxid(f.entries[t]);
      KeepsTxid(f.entries[u]);
    }
  }

  lemma KeepsTxid(e: Entry)
    ensures Reported(e).txid == e.txid
  {
  }

  // ---------------------------------------------------------------- exactly when it succeeds

  /** After this row, if it is the first of its movement, the sums it touches still fit. */
  ghost predicate FitsAfter(rows: seq<Delta>, n: nat, native: string)
    requires n < |rows|
  {
    var t := rows[n].txid;
    IsFirst(rows, n) ==>
      && In64(Native(rows[..n + 1], t))
      && forall c :: c in rows[n].values && c != native ==> In64(Currency(rows[..n + 1], t, c))
  }

  /** Rows are refused exactly when some running sum, in the order they come in, leaves 64 bits. */
  lemma {:induction false} FoldsIff(rows: seq<Delta>, native: string)
    ensures Fold(rows, native).Some? <==> forall n :: 0 <= n < |rows| ==> FitsAfter(rows, n, native)
  {
    hide FitsAfter, Step;
    if rows != [] {
      var m := |rows| - 1;
      var front := rows[..m];
      FoldsIff(front, native);
      forall n | 0 <= n < m
        ensures FitsAfter(front, n, native) <==> FitsAfter(rows, n, native)
      {
        FitsInFront(rows, n, native);
      }
      if Fold(front, native).Some? {
        LastFits(rows, native);
      }
    }
  }

  lemma FitsInFront(rows: seq<Delta>, n: nat, native: string)
    requires n < |rows| - 1
    ensures FitsAfter(rows[..|rows| - 1], n, native) <==> FitsAfter(rows, n, native)
  {
    hide Native, Currency;
    var front := rows[..|rows| - 1];
    assert front[..n + 1] == rows[..n + 1];
  }

  lemma LastFits(rows: seq<Delta>, native: string)
    requires rows != [] && Fold(rows[..|rows| - 1], native).Some?
    ensures Fold(rows, native).Some? <==> FitsAfter(rows, |rows| - 1, native)
  {
    hide Sum, Sightings, Seen, FirstRow, Accounts, Running, Native, Currency, IsFirst, EntryFor;
    var m := |rows| - 1;
    var front, d := rows[..m], rows[m];
    var f := Fold(front, native).value;
    HistoryConserves(front, native);
    LookedUp(f, front, d, native);
    FirstIff(rows);
    assert rows[..m + 1] == rows;
    NativeNext(rows);
    StepIff(f, front, d, native);
    NativeIs(front, d.txid);
    forall c: string | c in d.values
      ensures Currency(rows, d.txid, c) == Sum(Sightings(front), ValueShare(d.txid, c)) + if IsFirst(rows, m) then d.values[c] else 0
    {
      CurrencyNext(rows, c);
      CurrencyIs(front, d.txid, c);
    }
    hide Fold, Step;
    FoldNext(rows, native);
  }

  lemma FoldNext(rows: seq<Delta>, native: string)
    requires rows != [] && Fold(rows[..|rows| - 1], native).Some?
    ensures Fold(rows, native) == Step(Fold(rows[..|rows| - 1], native).value, rows[|rows| - 1], native)
  {
  }

  lemma NativeNext(rows: seq<Delta>)
    requires rows != []
    ensures var m := |rows| - 1;
      Native(rows, rows[m].txid) == Native(rows[..m], rows[m].txid) + if IsFirst(rows, m) then rows[m].satoshis else 0
  {
    hide IsFirst;
  }

  lemma CurrencyNext(rows: seq<Delta>, c: string)
    requires rows != [] && c in rows[|rows| - 1].values
    ensures var m := |rows| - 1;
      Currency(rows, rows[m].txid, c) == Currency(rows[..m], rows[m].txid, c) + if IsFirst(rows, m) then rows[m].values[c] else 0
  {
    hide IsFirst;
  }

  lemma StepIff(f: Folded, rows: seq<Delta>, d: Delta, native: string)
    requires f.counted == Seen(rows) && Running(EntryFor(f, d), rows, d, native)
    ensures Step(f, d, native).Some? <==>
      || MovementOf(d) in Seen(rows)
      || (&& In64(Sum(Sightings(rows), NativeShare(d.txid)) + d.satoshis)
          && forall c :: c in d.values && c != native ==> In64(Sum(Sightings(rows), ValueShare(d.txid, c)) + d.values[c]))
  {
    hide Sum, Sightings, Seen, FirstRow, AddValues, EntryFor, Get;
  }
}
