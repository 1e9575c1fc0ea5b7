/**
  Decoding as a fold: every decode loop reads one field record after another and updates a value.
  What follows holds for all of them, whatever the update is.
 */
module Records {
  import opened Base
  import opened Proto

  /** What one record does to the value being decoded, or nothing when it is refused. */
  type Update<!T> = (T, Record) -> Option<T>

  /** A decode loop: read a record, apply it, go on. */
  function Run<T>(s: seq<Byte>, value: T, step: Update<T>): Option<T>
    decreases |s|
  {
    if s == [] then Some(value)
    else
      match ReadRecord(s)
      case None => None
      case Some(record) =>
        match step(value, record.value)
        case None => None
        case Some(next) => Run(s[record.length..], next, step)
  }

  /** The records of a message, or nothing when it is malformed somewhere. */
  function Parse(s: seq<Byte>): (r: Option<seq<Record>>)
    ensures r.Some? && s != [] ==> r.value != []
    decreases |s|
  {
    if s == [] then Some([])
    else
      match ReadRecord(s)
      case None => None
      case Some(record) =>
        match Parse(s[record.length..])
        case None => None
        case Some(rest) => Some([record.value] + rest)
  }

  function Fold<T>(records: seq<Record>, value: T, step: Update<T>): Option<T>
    decreases |records|
  {
    if records == [] then Some(value)
    else
      match step(value, records[0])
      case None => None
      case Some(next) => Fold(records[1..], next, step)
  }

  function FoldOf<T>(records: Option<seq<Record>>, value: T, step: Update<T>): Option<T> {
    if records.None? then None else Fold(records.value, value, step)
  }

  /** A decode loop is the fold of its update over the message's records, and refuses malformed messages. */
  lemma {:induction false} RunIsFold<T>(s: seq<Byte>, value: T, step: Update<T>)
    ensures Run(s, value, step) == FoldOf(Parse(s), value, step)
    decreases |s|
  {
    hide ReadRecord;
    if s != [] && ReadRecord(s).Some? {
      var record := ReadRecord(s).value;
      var rest := Parse(s[record.length..]);
      if rest.Some? {
        assert ([record.value] + rest.value)[1..] == rest.value;
      }
      if step(value, record.value).Some? {
        RunIsFold(s[record.length..], step(value, record.value).value, step);
      }
    }
  }

  /** What one round of a decode loop does: one record read from `before`, applied, and `after` still to read. */
  ghost predicate Applied<T>(before: seq<Byte>, value: T, step: Update<T>, r: Option<T>, after: seq<Byte>) {
    match ReadRecord(before)
    case None => r.None?
    case Some(record) => r == step(value, record.value) && (r.Some? ==> after == before[record.length..])
  }

  lemma RunNext<T>(before: seq<Byte>, value: T, step: Update<T>, r: Option<T>, after: seq<Byte>)
    requires before != [] && Applied(before, value, step, r, after)
    ensures Run(before, value, step) == if r.None? then None else Run(after, r.value, step)
    ensures r.Some? ==> |after| < |before|
  {
    hide ReadRecord;
  }

  lemma RunOver<T>(value: T, step: Update<T>)
    ensures Run([], value, step) == Some(value)
  {
  }

  /** A record is a tag and then the payload its wire type says. */
  lemma TagThenPayload(s: seq<Byte>)
    ensures ReadTag(s).None? ==> ReadRecord(s).None?
    ensures ReadTag(s).Some? ==>
      var tag := ReadTag(s).value;
      var payload := ReadPayload(tag.value.wire, s[tag.length..]);
      if payload.None? then ReadRecord(s).None?
      else
        && ReadRecord(s) == Some(Taken(Record(tag.value.field, payload.value.value), tag.length + payload.value.length))
        && s[tag.length..][payload.value.length..] == s[tag.length + payload.value.length..]
  {
    hide ReadTag, ReadPayload;
  }

  lemma {:induction false} ParseConcat(a: seq<Byte>, b: seq<Byte>)
    requires Parse(a).Some?
    ensures Parse(a + b) == if Parse(b).None? then None else Some(Parse(a).value + Parse(b).value)
    decreases |a|
  {
    hide ReadRecord;
    if a == [] {
      assert a + b == b;
      if Parse(b).Some? {
        assert [] + Parse(b).value == Parse(b).value;
      }
    } else {
      RecordPrefix(a, b);
      var record := ReadRecord(a).value;
      assert (a + b)[record.length..] == a[record.length..] + b;
      ParseConcat(a[record.length..], b);
      if Parse(b).Some? {
        var tail := Parse(a[record.length..]).value;
        assert [record.value] + (tail + Parse(b).value) == [record.value] + tail + Parse(b).value;
      }
    }
  }

  lemma ParseOne(s: seq<Byte>, record: Record)
    requires ReadRecord(s) == Some(Taken(record, |s|))
    ensures Parse(s) == Some([record])
  {
    hide ReadRecord;
    assert s[|s|..] == [] && Parse([]) == Some([]);
    assert [record] + [] == [record];
  }

  lemma {:induction false} FoldConcat<T>(a: seq<Record>, b: seq<Record>, value: T, step: Update<T>)
    ensures Fold(a + b, value, step)
         == if Fold(a, value, step).None? then None else Fold(b, Fold(a, value, step).value, step)
    decreases |a|
  {
    if a == [] {
      assert a + b == b;
    } else {
      assert (a + b)[1..] == a[1..] + b && (a + b)[0] == a[0];
      if step(value, a[0]).Some? {
        FoldConcat(a[1..], b, step(value, a[0]).value, step);
      }
    }
  }

  /** Decoding a concatenation is decoding the first part and continuing from its value. */
  lemma RunConcat<T>(a: seq<Byte>, b: seq<Byte>, value: T, step: Update<T>)
    requires Parse(a).Some?
    ensures Run(a + b, value, step) == if Run(a, value, step).None? then None else Run(b, Run(a, value, step).value, step)
  {
    hide Run, Parse, Fold;
    ParseConcat(a, b);
    RunIsFold(a + b, value, step);
    RunIsFold(a, value, step);
    if Parse(b).Some? {
      FoldConcat(Parse(a).value, Parse(b).value, value, step);
    }
    if Run(a, value, step).Some? {
      RunIsFold(b, Run(a, value, step).value, step);
    }
  }

  /** One more complete record at the end is one more update. */
  lemma RunSnoc<T>(a: seq<Byte>, record: Record, encoded: seq<Byte>, value: T, step: Update<T>)
    requires Run(a, value, step).Some?
    requires ReadRecord(encoded) == Some(Taken(record, |encoded|))
    ensures Run(a + encoded, value, step) == step(Run(a, value, step).value, record)
  {
    hide ReadRecord, Parse, Fold;
    RunIsFold(a, value, step);
    RunConcat(a, encoded, value, step);
    assert encoded[|encoded|..] == [];
  }

  /** What an update refuses does not depend on the value it updates. */
  ghost predicate RefusesUnless<T(!new)>(step: Update<T>, ok: Record -> bool) {
    forall value: T, record: Record :: step(value, record).Some? <==> ok(record)
  }

  lemma {:induction false} FoldAcceptsIff<T(!new)>(records: seq<Record>, value: T, step: Update<T>, ok: Record -> bool)
    requires RefusesUnless(step, ok)
    ensures Fold(records, value, step).Some? <==> forall r :: r in records ==> ok(r)
    decreases |records|
  {
    if records != [] {
      assert records == [records[0]] + records[1..];
      assert step(value, records[0]).Some? <==> ok(records[0]);
      if step(value, records[0]).Some? {
        FoldAcceptsIff(records[1..], step(value, records[0]).value, step, ok);
      }
    }
  }

  /** Then a message is accepted exactly when it is well formed and none of its records is refused. */
  lemma RunAcceptsIff<T(!new)>(s: seq<Byte>, value: T, step: Update<T>, ok: Record -> bool)
    requires RefusesUnless(step, ok)
    ensures Run(s, value, step).Some? <==> Parse(s).Some? && forall r :: r in Parse(s).value ==> ok(r)
  {
    hide Run, Parse, Fold, RefusesUnless;
    RunIsFold(s, value, step);
    if Parse(s).Some? {
      FoldAcceptsIff(Parse(s).value, value, step, ok);
    }
  }

  ghost predicate Ignores<T(!new)>(step: Update<T>, known: Record -> bool) {
    forall value: T, record: Record :: !known(record) ==> step(value, record) == Some(value)
  }

  lemma {:induction false} FoldKnown<T(!new)>(records: seq<Record>, value: T, step: Update<T>, known: Record -> bool)
    requires Ignores(step, known)
    ensures Fold(Filter(records, known), value, step) == Fold(records, value, step)
  {
    if records != [] {
      var front, last := records[..|records| - 1], records[|records| - 1];
      assert records == front + [last];
      FoldKnown(front, value, step, known);
      FoldConcat(front, [last], value, step);
      FoldConcat(Filter(front, known), [last], value, step);
    }
  }

  /** Two records no update can tell apart. */
  ghost predicate Interchangeable<T(!new)>(a: Record, b: Record, step: Update<T>) {
    forall value: T :: step(value, a) == step(value, b)
  }

  lemma {:induction false} FoldPointwise<T(!new)>(a: seq<Record>, b: seq<Record>, value: T, step: Update<T>)
    requires |a| == |b| && forall i :: 0 <= i < |a| ==> Interchangeable(a[i], b[i], step)
    ensures Fold(a, value, step) == Fold(b, value, step)
    decreases |a|
  {
    if a != [] {
      assert Interchangeable(a[0], b[0], step);
      if step(value, a[0]).Some? {
        FoldPointwise(a[1..], b[1..], step(value, a[0]).value, step);
      }
    }
  }

  /** The records of `s` that are not ignored, when `s` is well formed. */
  ghost function KnownOf(s: seq<Byte>, known: Record -> bool): Option<seq<Record>> {
    if Parse(s).None? then None else Some(Filter(Parse(s).value, known))
  }

  /**
    Unknown fields change nothing: two well-formed messages whose known records correspond, with
    anything unknown between them, decode to the same value or are both refused.
   */
  lemma RunKnown<T(!new)>(s: seq<Byte>, t: seq<Byte>, value: T, step: Update<T>, known: Record -> bool)
    requires Ignores(step, known) && KnownOf(s, known).Some? && KnownOf(t, known).Some?
    requires var a, b := KnownOf(s, known).value, KnownOf(t, known).value;
      |a| == |b| && forall i :: 0 <= i < |a| ==> Interchangeable(a[i], b[i], step)
    ensures Run(s, value, step) == Run(t, value, step)
  {
    hide Parse, Run, Fold, Ignores, Interchangeable;
    RunIsFold(s, value, step);
    RunIsFold(t, value, step);
    FoldKnown(Parse(s).value, value, step, known);
    FoldKnown(Parse(t).value, value, step, known);
    FoldPointwise(KnownOf(s, known).value, KnownOf(t, known).value, value, step);
  }

  /** In particular, a run of unknown fields may be inserted at any record boundary. */
  lemma InsertUnknown<T(!new)>(a: seq<Byte>, unknown: seq<Byte>, b: seq<Byte>, value: T, step: Update<T>, known: Record -> bool)
    requires Ignores(step, known) && Parse(a).Some? && Parse(unknown).Some?
    requires forall record :: record in Parse(unknown).value ==> !known(record)
    ensures Run(a + unknown + b, value, step) == Run(a + b, value, step)
  {
    hide Parse, Run, Fold, Ignores;
    RunConcat(a, unknown + b, value, step);
    RunConcat(a, b, value, step);
    assert a + unknown + b == a + (unknown + b);
    if Run(a, value, step).Some? {
      var reached := Run(a, value, step).value;
      RunConcat(unknown, b, reached, step);
      RunIsFold(unknown, reached, step);
      FoldKnown(Parse(unknown).value, reached, step, known);
      FilterNone(Parse(unknown).value, known);
      FoldNothing(reached, step);
    }
  }

  lemma FoldNothing<T>(value: T, step: Update<T>)
    ensures Fold([], value, step) == Some(value)
  {
  }
}
