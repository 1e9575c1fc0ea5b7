/** What a history means: values are conserved, and the order of the rows does not matter. */
module HistoryLaws {
  import opened Base
  import opened History

  function Seen(rows: seq<Delta>): set<Movement> {
    set d | d in rows :: MovementOf(d)
  }

  /** The row each movement was first reported in, once per movement. */
  function Sightings(rows: seq<Delta>): seq<Delta> {
    if rows == [] then []
    else
      var front, last := rows[..|rows| - 1], rows[|rows| - 1];
      if MovementOf(last) in Seen(front) then Sightings(front) else Sightings(front) + [last]
  }

  function Sum(rows: seq<Delta>, share: Delta -> int): int {
    if rows == [] then 0 else Sum(rows[..|rows| - 1], share) + share(rows[|rows| - 1])
  }

  function NativeShare(t: nat): Delta -> int {
    (d: Delta) => if d.txid == t then d.satoshis else 0
  }

  function ValueShare(t: nat, c: string): Delta -> int {
    (d: Delta) => if d.txid == t then Get(d.values, c) else 0
  }

  /** The first row that mentions a transaction; its place in the chain is taken from there. */
  function FirstRow(rows: seq<Delta>, t: nat): Option<Delta> {
    if rows == [] then None
    else
      match FirstRow(rows[..|rows| - 1], t)
      case Some(d) => Some(d)
      case None => if rows[|rows| - 1].txid == t then Some(rows[|rows| - 1]) else None
  }

  lemma SumSnoc(rows: seq<Delta>, d: Delta, share: Delta -> int)
    ensures Sum(rows + [d], share) == Sum(rows, share) + share(d)
  {
    assert (rows + [d])[..|rows|] == rows;
  }

  lemma SeenSnoc(rows: seq<Delta>, d: Delta)
    ensures Seen(rows + [d]) == Seen(rows) + {MovementOf(d)}
    ensures Sightings(rows + [d]) == if MovementOf(d) in Seen(rows) then Sightings(rows) else Sightings(rows) + [d]
    ensures forall t :: FirstRow(rows, t).Some? ==> FirstRow(rows + [d], t) == FirstRow(rows, t)
    ensures forall t :: FirstRow(rows, t).None? ==> FirstRow(rows + [d], t) == if d.txid == t then Some(d) else None
  {
    assert (rows + [d])[..|rows|] == rows;
    assert forall x :: x in rows + [d] <==> x in rows || x == d;
  }

  /** What one entry holds, said without the fold: sums over distinct movements. */
  ghost predicate Accounts(e: Entry, rows: seq<Delta>, native: string, t: nat) {
    && e.txid == t
    && FirstRow(rows, t).Some?
    && e.height == FirstRow(rows, t).value.height
    && e.blockIndex == FirstRow(rows, t).value.blockIndex
    && e.blockTime == FirstRow(rows, t).value.blockTime
    && e.netNative == Sum(Sightings(rows), NativeShare(t))
    && native !in e.netCurrencies
    && (forall c :: c != native ==> Get(e.netCurrencies, c) == Sum(Sightings(rows), ValueShare(t, c)))
    && (e.spentSomething <==> exists d :: d in rows && d.txid == t && d.spending)
  }

  lemma AddedValues(net: map<string, int>, values: map<string, int>, native: string)
    requires native !in net
    ensures native !in AddValues(net, values, native)
    ensures forall c :: c != native ==> Get(AddValues(net, values, native), c) == Get(net, c) + Get(values, c)
  {
  }

  /** A row leaves every other transaction's accounts alone. */
  lemma OthersUnmoved(e: Entry, rows: seq<Delta>, d: Delta, native: string, t: nat)
    requires Accounts(e, rows, native, t) && d.txid != t
    ensures Accounts(e, rows + [d], native, t)
  {
    SeenSnoc(rows, d);
    SumSnoc(Sightings(rows), d, NativeShare(t));
    forall c: string {
      SumSnoc(Sightings(rows), d, ValueShare(t, c));
    }
    assert forall x :: x in rows + [d] <==> x in rows || x == d;
    hide Sum, Sightings, FirstRow;
  }

  lemma FreshAccounts(rows: seq<Delta>, d: Delta, native: string)
    requires FirstRow(rows, d.txid).None?
    ensures Sum(Sightings(rows), NativeShare(d.txid)) == 0
    ensures forall c :: Sum(Sightings(rows), ValueShare(d.txid, c)) == 0
    ensures !exists x :: x in rows && x.txid == d.txid
    ensures MovementOf(d) !in Seen(rows)
  {
    NoRowsNoShare(rows, d.txid);
  }

  lemma NoRowsNoShare(rows: seq<Delta>, t: nat)
    requires FirstRow(rows, t).None?
    ensures forall x :: x in rows ==> x.txid != t
    ensures Sum(Sightings(rows), NativeShare(t)) == 0
    ensures forall c :: Sum(Sightings(rows), ValueShare(t, c)) == 0
  {
    FirstRowIsARow(rows, t);
    SightingsOnce(rows);
    hide Sum, Sightings, FirstRow, Seen;
    NoShares(Sightings(rows), NativeShare(t));
    forall c: string
      ensures Sum(Sightings(rows), ValueShare(t, c)) == 0
    {
      NoShares(Sightings(rows), ValueShare(t, c));
    }
  }

  lemma {:induction false} NoShares(rows: seq<Delta>, share: Delta -> int)
    requires forall d :: d in rows ==> share(d) == 0
    ensures Sum(rows, share) == 0
  {
    if rows != [] {
      NoShares(rows[..|rows| - 1], share);
    }
  }

  /** Sums, spends and place of an entry that has just been looked up or created for row `d`. */
  ghost predicate Running(e: Entry, rows: seq<Delta>, d: Delta, native: string) {
    && e.txid == d.txid
    && FirstRow(rows + [d], d.txid).Some?
    && e.height == FirstRow(rows + [d], d.txid).value.height
    && e.blockIndex == FirstRow(rows + [d], d.txid).value.blockIndex
    && e.blockTime == FirstRow(rows + [d], d.txid).value.blockTime
    && e.netNative == Sum(Sightings(rows), NativeShare(d.txid))
    && native !in e.netCurrencies
    && (forall c :: c != native ==> Get(e.netCurrencies, c) == Sum(Sightings(rows), ValueShare(d.txid, c)))
    && (e.spentSomething <==> exists x :: x in rows && x.txid == d.txid && x.spending)
  }

  lemma LookedUp(f: Folded, rows: seq<Delta>, d: Delta, native: string)
    requires d.txid in f.entries <==> FirstRow(rows, d.txid).Some?
    requires d.txid in f.entries ==> Accounts(f.entries[d.txid], rows, native, d.txid)
    ensures Running(EntryFor(f, d), rows, d, native)
  {
    SeenSnoc(rows, d);
    if d.txid !in f.entries {
      FreshAccounts(rows, d, native);
    }
    hide Sum, Sightings, FirstRow;
  }

  /** The row's own transaction after one step. */
  lemma OwnAccounts(f: Folded, rows: seq<Delta>, d: Delta, native: string)
    requires Step(f, d, native).Some? && f.counted == Seen(rows)
    requires Running(EntryFor(f, d), rows, d, native)
    ensures Accounts(Step(f, d, native).value.entries[d.txid], rows + [d], native, d.txid)
  {
    hide Sum, Sightings, FirstRow, Seen, AddValues, EntryFor, ValuesFit, Get;
    var t, e := d.txid, EntryFor(f, d);
    SeenSnoc(rows, d);
    assert forall x :: x in rows + [d] <==> x in rows || x == d;
    if MovementOf(d) !in Seen(rows) {
      SumSnoc(Sightings(rows), d, NativeShare(t));
      AddedValues(e.netCurrencies, d.values, native);
      forall c: string | c != native
        ensures Get(AddValues(e.netCurrencies, d.values, native), c) == Sum(Sightings(rows + [d]), ValueShare(t, c))
      {
        SumSnoc(Sightings(rows), d, ValueShare(t, c));
      }
    }
  }

  /** Conservation: one entry per transaction that occurs, holding the sums over its distinct movements. */
  lemma {:induction false} HistoryConserves(rows: seq<Delta>, native: string)
    requires Fold(rows, native).Some?
    ensures Fold(rows, native).value.counted == Seen(rows)
    ensures forall t :: t in Fold(rows, native).value.entries <==> FirstRow(rows, t).Some?
    ensures forall t :: t in Fold(rows, native).value.entries ==> Accounts(Fold(rows, native).value.entries[t], rows, native, t)
  {
    hide Accounts, FirstRow, Seen, Step;
    if rows == [] {
      NothingReported();
    } else {
      var front, d := rows[..|rows| - 1], rows[|rows| - 1];
      assert rows == front + [d];
      HistoryConserves(front, native);
      StepConserves(Fold(front, native).value, front, d, native);
    }
  }

  lemma NothingReported()
    ensures Seen([]) == {} && forall t :: FirstRow([], t) == None
  {
  }

  lemma StepShape(f: Folded, d: Delta, native: string)
    requires Step(f, d, native).Some?
    ensures var g := Step(f, d, native).value;
      && g.counted == f.counted + {MovementOf(d)}
      && g.entries.Keys == f.entries.Keys + {d.txid}
      && forall t :: t in f.entries && t != d.txid ==> g.entries[t] == f.entries[t]
  {
    hide AddValues, ValuesFit;
  }

  lemma StepConserves(f: Folded, rows: seq<Delta>, d: Delta, native: string)
    requires f.counted == Seen(rows)
    requires forall t :: t in f.entries <==> FirstRow(rows, t).Some?
    requires forall t :: t in f.entries ==> Accounts(f.entries[t], rows, native, t)
    requires Step(f, d, native).Some?
    ensures var g := Step(f, d, native).value;
      && g.counted == Seen(rows + [d])
      && (forall t :: t in g.entries <==> FirstRow(rows + [d], t).Some?)
      && forall t :: t in g.entries ==> Accounts(g.entries[t], rows + [d], native, t)
  {
    hide Accounts, FirstRow, Seen, Step, Running;
    var g := Step(f, d, native).value;
    StepShape(f, d, native);
    SeenSnoc(rows, d);
    LookedUp(f, rows, d, native);
    OwnAccounts(f, rows, d, native);
    forall t | t in g.entries
      ensures Accounts(g.entries[t], rows + [d], native, t)
    {
      if t != d.txid {
        OthersUnmoved(f.entries[t], rows, d, native, t);
      }
    }
  }

  /** As reported: a currency is listed exactly when it is not the native one and did not net to zero. */
  lemma ReportedNets(e: Entry, rows: seq<Delta>, native: string, t: nat)
    requires Accounts(e, rows, native, t)
    ensures forall c :: c in Reported(e).netCurrencies <==> c != native && Sum(Sightings(rows), ValueShare(t, c)) != 0
    ensures forall c :: c in Reported(e).netCurrencies ==>
      Reported(e).netCurrencies[c] == Sum(Sightings(rows), ValueShare(t, c))
  {
    hide Sum, Sightings, FirstRow;
    forall c: string
      ensures c in Reported(e).netCurrencies <==> c != native && Sum(Sightings(rows), ValueShare(t, c)) != 0
    {
      assert c != native ==> Get(e.netCurrencies, c) == Sum(Sightings(rows), ValueShare(t, c));
    }
  }

  // ---------------------------------------------------------------- determinism

  /** Rows about one movement agree on what moved; rows about one transaction agree on where it sits. */
  ghost predicate Consistent(rows: seq<Delta>) {
    && (forall a, b :: a in rows && b in rows && MovementOf(a) == MovementOf(b) ==>
      a.satoshis == b.satoshis && a.values == b.values)
    && (forall a, b :: a in rows && b in rows && a.txid == b.txid ==>
      a.height == b.height && a.blockIndex == b.blockIndex && a.blockTime == b.blockTime)
  }

  function Movements(rows: seq<Delta>): seq<Movement> {
    seq(|rows|, i requires 0 <= i < |rows| => MovementOf(rows[i]))
  }

  function MovementSum(ms: seq<Movement>, g: Movement -> int): int {
    if ms == [] then 0 else MovementSum(ms[..|ms| - 1], g) + g(ms[|ms| - 1])
  }

  function Without(ms: seq<Movement>, i: nat): seq<Movement>
    requires i < |ms|
  {
    ms[..i] + ms[i + 1..]
  }

  lemma WithoutOne(ms: seq<Movement>, i: nat)
    requires i < |ms| && Distinct(ms)
    ensures Distinct(Without(ms, i))
    ensures forall m :: m in Without(ms, i) <==> m in ms && m != ms[i]
  {
    var rest := Without(ms, i);
    assert forall k :: 0 <= k < |rest| ==> rest[k] == if k < i then ms[k] else ms[k + 1];
    forall m | m in ms && m != ms[i]
      ensures m in rest
    {
      var k :| 0 <= k < |ms| && ms[k] == m;
      assert rest[if k < i then k else k - 1] == m;
    }
  }

  lemma SumWithout(ms: seq<Movement>, i: nat, g: Movement -> int)
    requires i < |ms|
    ensures MovementSum(ms, g) == MovementSum(Without(ms, i), g) + g(ms[i])
  {
    hide MovementSum;
    MovementSumConcat(ms[..i], [ms[i]], g);
    MovementSumConcat(ms[..i] + [ms[i]], ms[i + 1..], g);
    MovementSumConcat(ms[..i], ms[i + 1..], g);
    MovementSumOne(ms[i], g);
    assert ms == ms[..i] + [ms[i]] + ms[i + 1..];
  }

  lemma MovementSumOne(m: Movement, g: Movement -> int)
    ensures MovementSum([m], g) == g(m)
  {
    assert [m][..0] == [];
  }

  lemma {:induction false} MovementSumConcat(a: seq<Movement>, b: seq<Movement>, g: Movement -> int)
    ensures MovementSum(a + b, g) == MovementSum(a, g) + MovementSum(b, g)
  {
    if b == [] {
      assert a + b == a;
    } else {
      var n := |b| - 1;
      assert (a + b)[..|a| + n] == a + b[..n];
      MovementSumConcat(a, b[..n], g);
    }
  }

  /** A sum over distinct movements does not depend on their order. */
  lemma {:induction false} SumsAgree(a: seq<Movement>, b: seq<Movement>, g: Movement -> int)
    requires Distinct(a) && Distinct(b) && forall m :: m in a <==> m in b
    ensures MovementSum(a, g) == MovementSum(b, g)
    decreases |a|
  {
    assert b != [] ==> b[0] in b;
    if a != [] {
      var n := |a| - 1;
      assert a[n] in b;
      var j :| 0 <= j < |b| && b[j] == a[n];
      WithoutOne(a, n);
      WithoutOne(b, j);
      SumWithout(a, n, g);
      SumWithout(b, j, g);
      SumsAgree(Without(a, n), Without(b, j), g);
    }
  }

  lemma {:induction false} SumIsMovementSum(rows: seq<Delta>, share: Delta -> int, g: Movement -> int)
    requires forall d :: d in rows ==> share(d) == g(MovementOf(d))
    ensures Sum(rows, share) == MovementSum(Movements(rows), g)
  {
    if rows != [] {
      var n := |rows| - 1;
      assert rows[n] in rows && Movements(rows)[..n] == Movements(rows[..n]);
      SumIsMovementSum(rows[..n], share, g);
    }
  }

  lemma {:induction false} SightingsOnce(rows: seq<Delta>)
    ensures Distinct(Movements(Sightings(rows)))
    ensures forall d :: d in Sightings(rows) ==> d in rows
    ensures forall m :: m in Movements(Sightings(rows)) <==> m in Seen(rows)
  {
    if rows != [] {
      var front, last := rows[..|rows| - 1], rows[|rows| - 1];
      assert rows == front + [last];
      SightingsOnce(front);
      SeenSnoc(front, last);
      hide Sightings, Seen;
      assert Movements(Sightings(front) + [last]) == Movements(Sightings(front)) + [MovementOf(last)];
    }
  }

  ghost predicate SameRows(a: seq<Delta>, b: seq<Delta>) {
    forall d :: d in a <==> d in b
  }

  ghost function ShareOf(rows: seq<Delta>, share: Delta -> int, m: Movement): int {
    if exists d :: d in rows && MovementOf(d) == m then
      var d :| d in rows && MovementOf(d) == m;
      share(d)
    else 0
  }

  lemma SharesAgree(a: seq<Delta>, b: seq<Delta>, share: Delta -> int)
    requires SameRows(a, b)
    requires forall x, y :: x in a && y in a && MovementOf(x) == MovementOf(y) ==> share(x) == share(y)
    ensures Sum(Sightings(a), share) == Sum(Sightings(b), share)
  {
    SightingsOnce(a);
    SightingsOnce(b);
    var g := (m: Movement) => ShareOf(a, share, m);
    assert forall d :: d in a ==> share(d) == g(MovementOf(d));
    assert Seen(a) == Seen(b);
    hide Sightings, Seen, ShareOf, Sum, MovementSum;
    SumIsMovementSum(Sightings(a), share, g);
    SumIsMovementSum(Sightings(b), share, g);
    SumsAgree(Movements(Sightings(a)), Movements(Sightings(b)), g);
  }

  lemma {:induction false} FirstRowIsARow(rows: seq<Delta>, t: nat)
    ensures FirstRow(rows, t).Some? ==> FirstRow(rows, t).value in rows && FirstRow(rows, t).value.txid == t
    ensures FirstRow(rows, t).None? ==> forall d :: d in rows ==> d.txid != t
  {
    if rows != [] {
      FirstRowIsARow(rows[..|rows| - 1], t);
      assert rows == rows[..|rows| - 1] + [rows[|rows| - 1]];
    }
  }

  lemma SameSums(a: seq<Delta>, b: seq<Delta>, t: nat)
    requires SameRows(a, b) && Consistent(a)
    ensures Sum(Sightings(a), NativeShare(t)) == Sum(Sightings(b), NativeShare(t))
    ensures forall c :: Sum(Sightings(a), ValueShare(t, c)) == Sum(Sightings(b), ValueShare(t, c))
  {
    hide Sum, Sightings;
    SharesAgree(a, b, NativeShare(t));
    forall c: string
      ensures Sum(Sightings(a), ValueShare(t, c)) == Sum(Sightings(b), ValueShare(t, c))
    {
      SharesAgree(a, b, ValueShare(t, c));
    }
  }

  /** Two accounts of the same rows, in whatever order and however often repeated, report the same entry. */
  lemma SameAccounts(a: seq<Delta>, b: seq<Delta>, e: Entry, g: Entry, native: string, t: nat)
    requires SameRows(a, b) && Consistent(a) && Accounts(e, a, native, t) && Accounts(g, b, native, t)
    ensures Reported(e) == Reported(g)
  {
    hide Sum, Sightings, FirstRow, NativeShare, ValueShare;
    FirstRowIsARow(a, t);
    FirstRowIsARow(b, t);
    SameSums(a, b, t);
    ReportedNets(e, a, native, t);
    ReportedNets(g, b, native, t);
    assert Reported(e).netCurrencies == Reported(g).netCurrencies;
  }

  lemma {:induction false} OrderedListsAreUnique(a: seq<Entry>, b: seq<Entry>)
    requires InOrder(a) && InOrder(b) && forall e :: e in a <==> e in b
    ensures a == b
    decreases |a|
  {
    assert a != [] ==> a[0] in b;
    assert b != [] ==> b[0] in a;
    if a != [] {
      var i :| 0 <= i < |b| && b[i] == a[0];
      var j :| 0 <= j < |a| && a[j] == b[0];
      assert forall k :: 0 < k < |a| ==> Before(a[0], a[k]);
      assert forall k :: 0 < k < |b| ==> Before(b[0], b[k]);
      assert a[0] == b[0];
      TailOfOrdered(a);
      TailOfOrdered(b);
      OrderedListsAreUnique(a[1..], b[1..]);
    }
  }

  lemma TailOfOrdered(a: seq<Entry>)
    requires InOrder(a) && a != []
    ensures InOrder(a[1..])
    ensures forall e :: e in a[1..] <==> e in a && e != a[0]
  {
    forall e | e in a[1..]
      ensures e != a[0]
    {
      var i :| 1 <= i < |a| && a[i] == e;
      assert Before(a[0], a[i]);
    }
    assert a == [a[0]] + a[1..];
  }

  /** Determinism: whenever two reports of the same consistent rows both succeed, the lists are equal,
      whatever the order of the rows and whatever order the hash map yields. */
  lemma HistoryIsDeterministic(a: seq<Delta>, b: seq<Delta>, native: string, x: seq<Entry>, y: seq<Entry>)
    requires SameRows(a, b) && Consistent(a)
    requires Fold(a, native).Some? && IsHistory(Fold(a, native).value, x)
    requires Fold(b, native).Some? && IsHistory(Fold(b, native).value, y)
    ensures x == y
  {
    HistoryConserves(a, native);
    HistoryConserves(b, native);
    var f, g := Fold(a, native).value, Fold(b, native).value;
    forall t: nat
      ensures t in f.entries <==> t in g.entries
      ensures t in f.entries ==> Reported(f.entries[t]) == Reported(g.entries[t])
    {
      FirstRowIsARow(a, t);
      FirstRowIsARow(b, t);
      if t in f.entries {
        SameAccounts(a, b, f.entries[t], g.entries[t], native, t);
      }
    }
    hide Fold, Accounts, Reported, FirstRow;
    OrderedListsAreUnique(x, y);
  }

  lemma EntriesAreTheTxids(rows: seq<Delta>, native: string)
    requires Fold(rows, native).Some?
    ensures forall t :: t in Fold(rows, native).value.entries <==> t in Txids(rows)
    ensures forall t :: t in Fold(rows, native).value.entries ==> Fold(rows, native).value.entries[t].txid == t
  {
    hide Fold, Accounts, FirstRow, Txids;
    HistoryConserves(rows, native);
    EntriesKeyed(rows, native);
    forall t: nat
      ensures t in Fold(rows, native).value.entries <==> t in Txids(rows)
    {
      FirstRowIsARow(rows, t);
    }
  }

  /** `history` as a function of the rows: the fold, arranged. */
  function HistoryList(rows: seq<Delta>, native: string): Option<seq<Entry>> {
    match Fold(rows, native)
    case None => None
    case Some(f) =>
      EntriesAreTheTxids(rows, native);
      Some(Arranged(f, Txids(rows)))
  }

  /** It is the only list that is the history of its rows, so whatever the hash map yields, this is what comes out. */
  lemma OnlyHistory(rows: seq<Delta>, native: string, es: seq<Entry>)
    requires Fold(rows, native).Some?
    ensures IsHistory(Fold(rows, native).value, es) <==> HistoryList(rows, native) == Some(es)
  {
    hide Fold, Reported, Arranged, Txids, InOrder;
    EntriesAreTheTxids(rows, native);
    var f := Fold(rows, native).value;
    ArrangedInOrder(f, Txids(rows));
    if IsHistory(f, es) {
      OrderedListsAreUnique(es, Arranged(f, Txids(rows)));
    }
  }

  // ---------------------------------------------------------------- when no order overflows

  /** The largest native amount the reader lets through, in satoshis. */
  const MAX_NATIVE_SATS: int := 100_000_000_000_000_000

  /** A row the reader can deliver: native amounts within its ceiling, token amounts within `i64::MAX`. */
  predicate Deliverable(d: Delta) {
    && -MAX_NATIVE_SATS <= d.satoshis <= MAX_NATIVE_SATS
    && forall c :: c in d.values ==> -0x7fff_ffff_ffff_ffff <= d.values[c] <= 0x7fff_ffff_ffff_ffff
  }

  predicate AllDeliverable(rows: seq<Delta>) {
    forall i :: 0 <= i < |rows| ==> Deliverable(rows[i])
  }

  /** The same rows as often, in another order. */
  ghost predicate Reorders(a: seq<Delta>, b: seq<Delta>) {
    multiset(a) == multiset(b)
  }

  /** What came in, and what went out, of a share. */
  function Gain(share: Delta -> int): Delta -> int {
    (d: Delta) => if share(d) > 0 then share(d) else 0
  }

  function Loss(share: Delta -> int): Delta -> int {
    (d: Delta) => if share(d) < 0 then share(d) else 0
  }

  ghost predicate GainAndLossFit(rows: seq<Delta>, share: Delta -> int) {
    FitsI64(Sum(Sightings(rows), Gain(share))) && FitsI64(Sum(Sightings(rows), Loss(share)))
  }

  /** Everything that came in fits 64 bits, and so does everything that went out: for every transaction,
      in the native currency and in every other one, each movement counted once. What does not occur in
      the rows adds up to zero, so a caller has only what does to look at. */
  ghost predicate Representable(rows: seq<Delta>, native: string) {
    && (forall t :: GainAndLossFit(rows, NativeShare(t)))
    && (forall t, c: string :: c != native ==> GainAndLossFit(rows, ValueShare(t, c)))
  }

  /** `part` is `share` on some rows and nothing on the others. */
  ghost predicate IsPart(part: Delta -> int, share: Delta -> int) {
    forall d: Delta :: part(d) == share(d) || part(d) == 0
  }

  lemma {:induction false} SumBetween(rows: seq<Delta>, share: Delta -> int)
    ensures Sum(rows, Loss(share)) <= Sum(rows, share) <= Sum(rows, Gain(share))
    ensures Sum(rows, Loss(share)) <= 0 <= Sum(rows, Gain(share))
  {
    if rows != [] {
      SumBetween(rows[..|rows| - 1], share);
    }
  }

  /** One more row can only widen what came in and what went out. */
  lemma FitsBefore(rows: seq<Delta>, d: Delta, share: Delta -> int)
    requires GainAndLossFit(rows + [d], share)
    ensures GainAndLossFit(rows, share)
    ensures MovementOf(d) !in Seen(rows) ==> FitsI64(Sum(Sightings(rows), share) + share(d))
  {
    hide Sum, Sightings, Seen;
    SeenSnoc(rows, d);
    SumBetween(Sightings(rows), share);
    SumSnoc(Sightings(rows), d, Gain(share));
    SumSnoc(Sightings(rows), d, Loss(share));
    SumSnoc(Sightings(rows), d, share);
    SumBetween(Sightings(rows) + [d], share);
  }

  lemma RepresentableBefore(rows: seq<Delta>, d: Delta, native: string)
    requires Representable(rows + [d], native)
    ensures Representable(rows, native)
    ensures MovementOf(d) !in Seen(rows) ==>
      && FitsI64(Sum(Sightings(rows), NativeShare(d.txid)) + d.satoshis)
      && forall c :: c in d.values && c != native ==> FitsI64(Sum(Sightings(rows), ValueShare(d.txid, c)) + d.values[c])
  {
    hide GainAndLossFit, Sum, Sightings, Seen;
    forall t: nat
      ensures GainAndLossFit(rows, NativeShare(t))
    {
      FitsBefore(rows, d, NativeShare(t));
    }
    forall t: nat, c: string | c != native
      ensures GainAndLossFit(rows, ValueShare(t, c))
      ensures MovementOf(d) !in Seen(rows) ==> FitsI64(Sum(Sightings(rows), ValueShare(t, c)) + ValueShare(t, c)(d))
    {
      FitsBefore(rows, d, ValueShare(t, c));
    }
    FitsBefore(rows, d, NativeShare(d.txid));
  }

  /** In this very order nothing overflows: every running sum lies between all that left and all that came in. */
  lemma {:induction false} RepresentableFolds(rows: seq<Delta>, native: string)
    requires Representable(rows, native)
    ensures Fold(rows, native).Some?
  {
    hide Representable, Sum, Sightings, Seen, FirstRow, Accounts, EntryFor, Get;
    if rows != [] {
      var front, d := rows[..|rows| - 1], rows[|rows| - 1];
      assert rows == front + [d];
      RepresentableBefore(front, d, native);
      RepresentableFolds(front, native);
      HistoryConserves(front, native);
      var f := Fold(front, native).value;
      LookedUp(f, front, d, native);
      StepsWhenItFits(f, front, d, native);
    }
  }

  lemma StepsWhenItFits(f: Folded, rows: seq<Delta>, d: Delta, native: string)
    requires f.counted == Seen(rows) && Running(EntryFor(f, d), rows, d, native)
    requires MovementOf(d) !in Seen(rows) ==>
      && FitsI64(Sum(Sightings(rows), NativeShare(d.txid)) + d.satoshis)
      && forall c :: c in d.values && c != native ==> FitsI64(Sum(Sightings(rows), ValueShare(d.txid, c)) + d.values[c])
    ensures Step(f, d, native).Some?
  {
    hide Sum, Sightings, Seen, FirstRow, AddValues, EntryFor, Get;
  }

  /** The same rows have the same gains and losses in every order. */
  lemma SameGainAndLoss(a: seq<Delta>, b: seq<Delta>, share: Delta -> int)
    requires SameRows(a, b)
    requires forall x, y :: x in a && y in a && MovementOf(x) == MovementOf(y) ==> share(x) == share(y)
    ensures GainAndLossFit(a, share) <==> GainAndLossFit(b, share)
  {
    hide Sum, Sightings;
    SharesAgree(a, b, Gain(share));
    SharesAgree(a, b, Loss(share));
  }

  lemma RepresentableInEveryOrder(a: seq<Delta>, b: seq<Delta>, native: string)
    requires SameRows(a, b) && Consistent(a) && Representable(a, native)
    ensures Representable(b, native)
  {
    hide GainAndLossFit;
    forall t: nat
      ensures GainAndLossFit(b, NativeShare(t))
    {
      SameGainAndLoss(a, b, NativeShare(t));
    }
    forall t: nat, c: string | c != native
      ensures GainAndLossFit(b, ValueShare(t, c))
    {
      SameGainAndLoss(a, b, ValueShare(t, c));
    }
  }

  /** Nothing the fold holds is out of range. */
  lemma {:induction false} EntriesFit(rows: seq<Delta>, native: string)
    requires Fold(rows, native).Some?
    ensures forall t :: t in Fold(rows, native).value.entries ==>
      && FitsI64(Fold(rows, native).value.entries[t].netNative)
      && forall c :: FitsI64(Get(Fold(rows, native).value.entries[t].netCurrencies, c))
  {
    if rows != [] {
      var front, d := rows[..|rows| - 1], rows[|rows| - 1];
      EntriesFit(front, native);
      StepFits(Fold(front, native).value, d, native);
    }
  }

  lemma StepFits(f: Folded, d: Delta, native: string)
    requires Step(f, d, native).Some?
    requires forall t :: t in f.entries ==>
      FitsI64(f.entries[t].netNative) && forall c :: FitsI64(Get(f.entries[t].netCurrencies, c))
    ensures var g := Step(f, d, native).value;
      forall t :: t in g.entries ==>
        FitsI64(g.entries[t].netNative) && forall c :: FitsI64(Get(g.entries[t].netCurrencies, c))
  {
    StepShape(f, d, native);
  }

  /** So a history that succeeds has every sum within 64 bits. */
  lemma SumsFit(rows: seq<Delta>, native: string, t: nat)
    requires Fold(rows, native).Some?
    ensures FitsI64(Sum(Sightings(rows), NativeShare(t)))
    ensures forall c: string :: c != native ==> FitsI64(Sum(Sightings(rows), ValueShare(t, c)))
  {
    hide Sum, Sightings, FirstRow, Seen, Fold, Get;
    HistoryConserves(rows, native);
    EntriesFit(rows, native);
    if FirstRow(rows, t).None? {
      NoRowsNoShare(rows, t);
    }
  }

  /** The rows with a part first, the others after them. */
  function PartFirst(rows: seq<Delta>, part: Delta -> int): seq<Delta> {
    Filter(rows, (d: Delta) => part(d) != 0) + Filter(rows, (d: Delta) => part(d) == 0)
  }

  lemma {:induction false} FilterTwo(rows: seq<Delta>, part: Delta -> int)
    ensures Reorders(rows, PartFirst(rows, part))
  {
    if rows != [] {
      FilterTwo(rows[..|rows| - 1], part);
      assert rows == rows[..|rows| - 1] + [rows[|rows| - 1]];
    }
  }

  lemma PermutationSameRows(a: seq<Delta>, b: seq<Delta>)
    requires Reorders(a, b)
    ensures SameRows(a, b)
  {
    forall d: Delta
      ensures d in a <==> d in b
    {
      assert d in a <==> d in multiset(a);
      assert d in b <==> d in multiset(b);
    }
  }

  /** Rows without a part add nothing to its sum. */
  lemma {:induction false} PartOnly(rows: seq<Delta>, rest: seq<Delta>, part: Delta -> int)
    requires forall d :: d in rest ==> part(d) == 0
    ensures Sum(Sightings(rows + rest), part) == Sum(Sightings(rows), part)
  {
    hide Sum, Sightings, Seen;
    if rest == [] {
      assert rows + rest == rows;
    } else {
      var front, d := rest[..|rest| - 1], rest[|rest| - 1];
      PartOnly(rows, front, part);
      assert rows + rest == rows + front + [d];
      SeenSnoc(rows + front, d);
      SumSnoc(Sightings(rows + front), d, part);
    }
  }

  lemma {:induction false} SameOnRows(rows: seq<Delta>, f: Delta -> int, g: Delta -> int)
    requires forall d :: d in rows ==> f(d) == g(d)
    ensures Sum(rows, f) == Sum(rows, g)
  {
    if rows != [] {
      SameOnRows(rows[..|rows| - 1], f, g);
    }
  }

  /** Putting the rows with a part first makes the whole part a running sum. */
  lemma PartIsReached(rows: seq<Delta>, share: Delta -> int, part: Delta -> int)
    requires IsPart(part, share)
    requires forall x, y :: x in rows && y in rows && MovementOf(x) == MovementOf(y) ==> part(x) == part(y)
    ensures var first := Filter(rows, (d: Delta) => part(d) != 0);
      Sum(Sightings(first), share) == Sum(Sightings(rows), part)
  {
    var first, others := Filter(rows, (d: Delta) => part(d) != 0), Filter(rows, (d: Delta) => part(d) == 0);
    hide Sum, Sightings, Seen, Filter;
    FilterTwo(rows, part);
    PermutationSameRows(rows, first + others);
    SharesAgree(rows, first + others, part);
    PartOnly(first, others, part);
    SightingsOnce(first);
    SameOnRows(Sightings(first), share, part);
  }

  /** An order in which a part is summed before everything else, and fails if the part does not fit. */
  lemma PartOverflows(rows: seq<Delta>, native: string, share: Delta -> int, part: Delta -> int, t: nat, c: string)
    requires IsPart(part, share) && !FitsI64(Sum(Sightings(rows), part))
    requires share == NativeShare(t) || (c != native && share == ValueShare(t, c))
    requires forall x, y :: x in rows && y in rows && MovementOf(x) == MovementOf(y) ==> part(x) == part(y)
    ensures Fold(PartFirst(rows, part), native).None?
  {
    hide Sum, Sightings, Fold, Filter;
    var first, others := Filter(rows, (d: Delta) => part(d) != 0), Filter(rows, (d: Delta) => part(d) == 0);
    PartIsReached(rows, share, part);
    if Fold(first, native).Some? {
      SumsFit(first, native, t);
    }
    assert (first + others)[..|first|] == first;
    NoneStaysNone(first + others, native, |first|);
  }

  lemma GainAndLossAreParts(share: Delta -> int)
    ensures IsPart(Gain(share), share) && IsPart(Loss(share), share)
  {
  }

  /** Some order of the same rows overflows, when a gain or a loss does not fit. */
  lemma SomeOrderOverflows(rows: seq<Delta>, native: string) returns (b: seq<Delta>)
    requires Consistent(rows) && !Representable(rows, native)
    ensures Reorders(rows, b) && Fold(b, native).None?
  {
    hide Sum, Sightings, Fold, PartFirst, IsPart;
    var t: nat, c: string, share: Delta -> int;
    if t' :| !GainAndLossFit(rows, NativeShare(t')) {
      t, c, share := t', "", NativeShare(t');
    } else {
      var u: nat, k: string :| k != native && !GainAndLossFit(rows, ValueShare(u, k));
      t, c, share := u, k, ValueShare(u, k);
    }
    GainAndLossAreParts(share);
    var part := if FitsI64(Sum(Sightings(rows), Gain(share))) then Loss(share) else Gain(share);
    b := PartFirst(rows, part);
    FilterTwo(rows, part);
    PartOverflows(rows, native, share, part, t, c);
  }

  /**
    Exactly when a history cannot overflow: rows that agree succeed in every order, repeats included,
    if and only if all gains and all losses fit 64 bits. Reordering alone is enough to find a failure.
   */
  lemma NeverOverflowsIff(rows: seq<Delta>, native: string)
    requires Consistent(rows)
    ensures (forall b :: SameRows(rows, b) ==> Fold(b, native).Some?) <==> Representable(rows, native)
    ensures (forall b :: Reorders(rows, b) ==> Fold(b, native).Some?) <==> Representable(rows, native)
  {
    hide Representable, Fold, SameRows, Consistent, Reorders;
    if Representable(rows, native) {
      forall b | SameRows(rows, b)
        ensures Fold(b, native).Some?
      {
        RepresentableInEveryOrder(rows, b, native);
        RepresentableFolds(b, native);
      }
      forall b: seq<Delta> | Reorders(rows, b)
        ensures SameRows(rows, b)
      {
        PermutationSameRows(rows, b);
      }
    } else {
      var b := SomeOrderOverflows(rows, native);
      PermutationSameRows(rows, b);
    }
  }

  /** Order independence, with nothing assumed about the results: representable rows that agree are reported
      in every order, and always as the same list. */
  lemma HistoryIsOrderFree(a: seq<Delta>, b: seq<Delta>, native: string)
    requires SameRows(a, b) && Consistent(a) && Representable(a, native)
    ensures HistoryList(a, native).Some? && HistoryList(b, native) == HistoryList(a, native)
  {
    hide Representable, Fold, SameRows, Consistent, IsHistory, Arranged, Txids;
    NeverOverflowsIff(a, native);
    SameAsItself(a);
    var x, y := HistoryList(a, native).value, HistoryList(b, native).value;
    OnlyHistory(a, native, x);
    OnlyHistory(b, native, y);
    HistoryIsDeterministic(a, b, native, x, y);
  }

  lemma SameAsItself(a: seq<Delta>)
    ensures SameRows(a, a)
  {
  }

  // ---------------------------------------------------------------- rows that do overflow in one order only

  /** A row moving only `v` of token `token`. */
  function TokenRow(token: string, index: nat, v: int): Delta {
    Delta(0, 0, 0, 0, index, 0, map[token := v], false)
  }

  function TokenEntry(token: string, net: int): Entry {
    Entry(0, 0, 0, 0, 0, map[token := net], false)
  }

  lemma FirstTokenStep(token: string, native: string, v: int)
    requires token != native && FitsI64(v)
    ensures Step(Folded(map[], {}), TokenRow(token, 0, v), native)
         == Some(Folded(map[0 := TokenEntry(token, v)], {Movement(0, false, 0)}))
  {
    var none: map<nat, Entry>, nothing: set<Movement> := map[], {};
    var e := TokenEntry(token, v);
    assert AddValues(map[], map[token := v], native) == map[token := v];
    assert none[0 := e] == map[0 := e] && nothing + {Movement(0, false, 0)} == {Movement(0, false, 0)};
  }

  lemma TokenStep(f: Folded, token: string, native: string, index: nat, net: int, v: int)
    requires token != native && f.entries == map[0 := TokenEntry(token, net)] && Movement(0, false, index) !in f.counted
    ensures Step(f, TokenRow(token, index, v), native)
         == if FitsI64(net + v) then Some(Folded(map[0 := TokenEntry(token, net + v)], f.counted + {Movement(0, false, index)}))
            else None
  {
    assert AddValues(map[token := net], map[token := v], native) == map[token := net + v];
    assert map[0 := TokenEntry(token, net)][0 := TokenEntry(token, net + v)] == map[0 := TokenEntry(token, net + v)];
    assert token in map[token := v];
  }

  /** A large amount first, then two small ones: whether that succeeds is decided by the middle row. */
  lemma ThreeTokenRows(token: string, native: string, x: int, i: nat, y: int, j: nat, z: int)
    requires token != native && i > 0 && j > 0 && i != j && FitsI64(x) && FitsI64(x + y + z)
    ensures Fold([TokenRow(token, 0, x), TokenRow(token, i, y), TokenRow(token, j, z)], native).Some? <==> FitsI64(x + y)
  {
    hide Step, Fold, TokenRow;
    var a, b, c := TokenRow(token, 0, x), TokenRow(token, i, y), TokenRow(token, j, z);
    FirstTokenStep(token, native, x);
    FoldFirst(a, native);
    FoldTwo(a, b, native);
    FoldThree(a, b, c, native);
    var first := Folded(map[0 := TokenEntry(token, x)], {Movement(0, false, 0)});
    TokenStep(first, token, native, i, x, y);
    if FitsI64(x + y) {
      TokenStep(Step(first, b, native).value, token, native, j, x + y, z);
    }
  }

  lemma TokenRowsAgree(token: string, x: int, y: int, z: int)
    ensures Consistent([TokenRow(token, 0, x), TokenRow(token, 1, y), TokenRow(token, 2, z)])
  {
  }

  const MOST: int := 0x7fff_ffff_ffff_ffff

  /** The largest amount, one more, one less. */
  function OverflowingRows(token: string): seq<Delta> {
    [TokenRow(token, 0, MOST), TokenRow(token, 1, 1), TokenRow(token, 2, -1)]
  }

  /** The same with the last two rows the other way round. */
  function ReorderedRows(token: string): seq<Delta> {
    [TokenRow(token, 0, MOST), TokenRow(token, 2, -1), TokenRow(token, 1, 1)]
  }

  lemma OverflowingRowsFail(token: string, native: string)
    requires token != native
    ensures Fold(OverflowingRows(token), native).None?
  {
    hide Fold, TokenRow;
    ThreeTokenRows(token, native, MOST, 1, 1, 2, -1);
  }

  lemma ReorderedRowsSucceed(token: string, native: string)
    requires token != native
    ensures Fold(ReorderedRows(token), native).Some?
  {
    hide Fold, TokenRow;
    ThreeTokenRows(token, native, MOST, 2, -1, 1, 1);
  }

  lemma OverflowingRowsAreDeliverable(token: string)
    ensures Reorders(OverflowingRows(token), ReorderedRows(token))
    ensures Consistent(OverflowingRows(token)) && AllDeliverable(OverflowingRows(token))
  {
    hide TokenRow, Consistent, AllDeliverable, Reorders;
    SwapLast(TokenRow(token, 0, MOST), TokenRow(token, 1, 1), TokenRow(token, 2, -1));
    TokenRowsAgree(token, MOST, 1, -1);
    TokenRowsAreDeliverable(token, MOST, 1, -1);
  }

  /** Overflow does depend on the order, for rows the reader delivers. */
  lemma OverflowDependsOnOrder(native: string)
    ensures exists a: seq<Delta>, b: seq<Delta> ::
      && Reorders(a, b) && Consistent(a) && AllDeliverable(a)
      && Fold(a, native).None? && Fold(b, native).Some?
  {
    hide *;
    var token := native + "t";
    OverflowingRowsFail(token, native);
    ReorderedRowsSucceed(token, native);
    OverflowingRowsAreDeliverable(token);
  }

  lemma SwapLast(a: Delta, b: Delta, c: Delta)
    ensures Reorders([a, b, c], [a, c, b])
  {
    var bc, cb := [b] + [c], [c] + [b];
    assert multiset(bc) == multiset([b]) + multiset([c]) == multiset(cb);
    assert [a, b, c] == [a] + bc && [a, c, b] == [a] + cb;
    assert multiset([a] + bc) == multiset([a]) + multiset(bc) && multiset([a] + cb) == multiset([a]) + multiset(cb);
  }

  lemma TokenRowsAreDeliverable(token: string, x: int, y: int, z: int)
    requires -0x7fff_ffff_ffff_ffff <= x <= 0x7fff_ffff_ffff_ffff && -1 <= y <= 1 && -1 <= z <= 1
    ensures AllDeliverable([TokenRow(token, 0, x), TokenRow(token, 1, y), TokenRow(token, 2, z)])
  {
  }

  lemma FoldFirst(a: Delta, native: string)
    ensures Fold([a], native) == Step(Folded(map[], {}), a, native)
  {
    assert [a][..0] == [];
  }

  lemma FoldTwo(a: Delta, b: Delta, native: string)
    ensures Fold([a, b], native) == if Fold([a], native).None? then None else Step(Fold([a], native).value, b, native)
  {
    assert [a, b][..1] == [a];
  }

  lemma FoldThree(a: Delta, b: Delta, c: Delta, native: string)
    ensures Fold([a, b, c], native) == if Fold([a, b], native).None? then None else Step(Fold([a, b], native).value, c, native)
  {
    assert [a, b, c][..2] == [a, b];
  }
}
