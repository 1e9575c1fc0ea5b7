/**
  Reading a referrer's own referrers out of its registration transaction, against the rule consensus
  is documented to follow.
 */
module Referrals {
  import opened Base

  type Id = seq<bv8>

  /**
    What an output looks like to the walk: no script text or not hex (`Unreadable`), an identity
    definition, a payment to an identity, or anything else, undecodable scripts included.
   */
  datatype Output = Unreadable | IdentityPrimary | IdentityPayment(identity: Id) | OtherOutput

  function Take(ids: seq<Id>, n: nat): seq<Id> {
    if |ids| <= n then ids else ids[..n]
  }

  /** What the walk collects, without its cap; `after` says an identity output has been passed. */
  function Collected(outputs: seq<Output>, after: bool): seq<Id> {
    if outputs == [] then []
    else
      var rest := outputs[1..];
      match outputs[0]
      case Unreadable => Collected(rest, after)
      case IdentityPrimary => Collected(rest, true)
      case IdentityPayment(identity) => if after then [identity] + Collected(rest, true) else Collected(rest, false)
      case OtherOutput => if after then [] else Collected(rest, false)
  }

  /** The chain to pay: the referrer, then its referrers, at most `levels` in all. */
  function ChainOf(referrer: Id, levels: nat, outputs: seq<Output>): (r: seq<Id>)
    ensures |r| >= 1 && r[0] == referrer
    ensures |r| <= levels || |r| == 1
  {
    if levels <= 1 then [referrer] else [referrer] + Take(Collected(outputs, false), levels - 1)
  }

  method ReferralChain(referrer: Id, levels: nat, outputs: seq<Output>) returns (chain: seq<Id>)
    ensures chain == ChainOf(referrer, levels, outputs)
  {
    chain := [referrer];
    if levels <= 1 {
      return;
    }
    var afterIdentity := false;
    assert outputs[0..] == outputs;
    assert [referrer] + Collected(outputs, false) == chain + Collected(outputs[0..], false);
    for i := 0 to |outputs|
      invariant 1 <= |chain| < levels
      invariant chain + Collected(outputs[i..], afterIdentity) == [referrer] + Collected(outputs, false)
    {
      var rest := outputs[i..];
      assert rest[1..] == outputs[i + 1..];
      match outputs[i] {
        case Unreadable =>
        case IdentityPrimary =>
          afterIdentity := true;
        case IdentityPayment(identity) =>
          if afterIdentity {
            assert chain + ([identity] + Collected(outputs[i + 1..], true)) == chain + [identity] + Collected(outputs[i + 1..], true);
            chain := chain + [identity];
            if |chain| >= levels {
              CapReached(referrer, levels, Collected(outputs, false), chain, Collected(outputs[i + 1..], true));
              return;
            }
          }
        case OtherOutput =>
          if afterIdentity {
            WalkEnded(referrer, levels, Collected(outputs, false), chain);
            return;
          }
      }
    }
    WalkEnded(referrer, levels, Collected(outputs, false), chain);
  }

  lemma CapReached(referrer: Id, levels: nat, all: seq<Id>, chain: seq<Id>, more: seq<Id>)
    requires levels > 1 && |chain| == levels && chain + more == [referrer] + all
    ensures chain == [referrer] + Take(all, levels - 1)
  {
    assert chain == ([referrer] + all)[..levels];
  }

  lemma WalkEnded(referrer: Id, levels: nat, all: seq<Id>, chain: seq<Id>)
    requires levels > 1 && |chain| < levels && chain + [] == [referrer] + all
    ensures chain == [referrer] + Take(all, levels - 1)
  {
    assert chain + [] == chain;
  }

  // ---------------------------------------------------------------- what the walk collects

  /** The identities paid to at these places, in order. */
  ghost predicate PaidAt(outputs: seq<Output>, kept: seq<nat>, ids: seq<Id>) {
    && |kept| == |ids|
    && (forall k :: 0 <= k < |kept| ==> kept[k] < |outputs| && outputs[kept[k]] == IdentityPayment(ids[k]))
    && forall k, m :: 0 <= k < m < |kept| ==> kept[k] < kept[m]
  }

  /** None of the first `i` outputs ends a walk that has passed an identity. */
  predicate Open(outputs: seq<Output>, i: nat)
    requires i <= |outputs|
  {
    forall j :: 0 <= j < i ==> !outputs[j].OtherOutput?
  }

  /** The places of the payments that nothing ends the walk before. */
  ghost predicate AreOpenPayments(outputs: seq<Output>, kept: seq<nat>) {
    forall i :: 0 <= i < |outputs| ==> (i in kept <==> outputs[i].IdentityPayment? && Open(outputs, i))
  }

  function Shifted(kept: seq<nat>, d: nat): seq<nat> {
    seq(|kept|, k requires 0 <= k < |kept| => kept[k] + d)
  }

  lemma InShifted(kept: seq<nat>, d: nat, i: nat)
    ensures i in Shifted(kept, d) <==> i >= d && i - d in kept
  {
    if i >= d && i - d in kept {
      var k :| 0 <= k < |kept| && kept[k] == i - d;
      assert Shifted(kept, d)[k] == i;
    }
  }

  lemma {:induction false} CollectedAfterIdentity(outputs: seq<Output>) returns (kept: seq<nat>)
    ensures PaidAt(outputs, kept, Collected(outputs, true)) && AreOpenPayments(outputs, kept)
  {
    hide PaidAt, AreOpenPayments;
    if outputs == [] {
      kept := [];
      NothingPaid(outputs);
    } else if outputs[0].OtherOutput? {
      kept := [];
      NothingPaid(outputs);
    } else {
      var rest := CollectedAfterIdentity(outputs[1..]);
      kept := (if outputs[0].IdentityPayment? then [0] else []) + Shifted(rest, 1);
      PaidFirst(outputs, rest, Collected(outputs[1..], true));
      OpenFirst(outputs, rest);
      assert [] + Collected(outputs[1..], true) == Collected(outputs[1..], true);
    }
  }

  lemma NothingPaid(outputs: seq<Output>)
    requires outputs == [] || outputs[0].OtherOutput?
    ensures PaidAt(outputs, [], []) && AreOpenPayments(outputs, [])
  {
  }

  lemma PaidFirst(outputs: seq<Output>, rest: seq<nat>, ids: seq<Id>)
    requires outputs != [] && PaidAt(outputs[1..], rest, ids)
    ensures outputs[0].IdentityPayment? ==> PaidAt(outputs, [0] + Shifted(rest, 1), [outputs[0].identity] + ids)
    ensures PaidAt(outputs, [] + Shifted(rest, 1), [] + ids)
  {
    hide PaidAt;
    PaidShifted(outputs, 1, rest, ids);
    assert [] + Shifted(rest, 1) == Shifted(rest, 1) && [] + ids == ids;
    if outputs[0].IdentityPayment? {
      PaidFront(outputs, Shifted(rest, 1), ids);
    }
  }

  lemma PaidFront(outputs: seq<Output>, kept: seq<nat>, ids: seq<Id>)
    requires outputs != [] && outputs[0].IdentityPayment?
    requires PaidAt(outputs, kept, ids) && forall k :: 0 <= k < |kept| ==> kept[k] > 0
    ensures PaidAt(outputs, [0] + kept, [outputs[0].identity] + ids)
  {
    var all, paid := [0] + kept, [outputs[0].identity] + ids;
    assert forall k :: 0 < k < |all| ==> all[k] == kept[k - 1] && paid[k] == ids[k - 1];
  }

  lemma OpenFirst(outputs: seq<Output>, rest: seq<nat>)
    requires outputs != [] && !outputs[0].OtherOutput? && AreOpenPayments(outputs[1..], rest)
    ensures AreOpenPayments(outputs, (if outputs[0].IdentityPayment? then [0] else []) + Shifted(rest, 1))
  {
    hide Open;
    var kept := (if outputs[0].IdentityPayment? then [0] else []) + Shifted(rest, 1);
    forall i | 0 <= i < |outputs|
      ensures i in kept <==> outputs[i].IdentityPayment? && Open(outputs, i)
    {
      InShifted(rest, 1, i);
      OpenShift(outputs, i);
    }
  }

  lemma OpenShift(outputs: seq<Output>, i: nat)
    requires i < |outputs| && !outputs[0].OtherOutput?
    ensures if i == 0 then Open(outputs, i) else Open(outputs, i) <==> Open(outputs[1..], i - 1)
  {
    if i > 0 && Open(outputs[1..], i - 1) {
      forall j | 0 <= j < i
        ensures !outputs[j].OtherOutput?
      {
        assert j > 0 ==> outputs[j] == outputs[1..][j - 1];
      }
    }
  }

  /** Output `p` is the first identity output. */
  predicate StartsAt(outputs: seq<Output>, p: nat)
    requires p < |outputs|
  {
    outputs[p].IdentityPrimary? && forall j :: 0 <= j < p ==> !outputs[j].IdentityPrimary?
  }

  /** Between the first identity output and `i` there is nothing but payments, unreadable outputs and further identities. */
  ghost predicate IsReached(outputs: seq<Output>, i: nat)
    requires i < |outputs|
  {
    exists p :: 0 <= p < i && StartsAt(outputs, p) && forall j :: p < j < i ==> !outputs[j].OtherOutput?
  }

  lemma {:induction false} AfterIdentityIs(outputs: seq<Output>) returns (p: nat)
    ensures p <= |outputs|
    ensures p < |outputs| ==> StartsAt(outputs, p) && AfterIdentity(outputs) == outputs[p + 1..]
    ensures p == |outputs| ==> AfterIdentity(outputs) == [] && forall j :: 0 <= j < |outputs| ==> !outputs[j].IdentityPrimary?
  {
    if outputs == [] || outputs[0].IdentityPrimary? {
      p := 0;
    } else {
      var q := AfterIdentityIs(outputs[1..]);
      p := q + 1;
      assert forall j :: 0 < j < |outputs| ==> outputs[j] == outputs[1..][j - 1];
    }
  }

  /**
    The walk collects, in order, exactly the payments it reaches: those behind the first identity output with
    no other kind of output in between. The chain is the referrer and the first of these, `levels` in all.
   */
  lemma CollectedIs(outputs: seq<Output>) returns (kept: seq<nat>)
    ensures PaidAt(outputs, kept, Collected(outputs, false))
    ensures forall i :: 0 <= i < |outputs| ==> (i in kept <==> outputs[i].IdentityPayment? && IsReached(outputs, i))
  {
    hide PaidAt, AreOpenPayments, StartsAt, AfterIdentity;
    CollectedFromIdentity(outputs);
    var p := AfterIdentityIs(outputs);
    if p == |outputs| {
      kept := [];
      NothingPaid([]);
      NoneReached(outputs);
      assert PaidAt(outputs, [], []) by { PaidNowhere(outputs); }
    } else {
      var rest := CollectedAfterIdentity(outputs[p + 1..]);
      kept := Shifted(rest, p + 1);
      PaidShifted(outputs, p + 1, rest, Collected(outputs[p + 1..], true));
      forall i | 0 <= i < |outputs|
        ensures i in kept <==> outputs[i].IdentityPayment? && IsReached(outputs, i)
      {
        InShifted(rest, p + 1, i);
        ReachedIff(outputs, p, i, rest);
      }
    }
  }

  lemma PaidNowhere(outputs: seq<Output>)
    ensures PaidAt(outputs, [], [])
  {
  }

  lemma NoneReached(outputs: seq<Output>)
    requires forall j :: 0 <= j < |outputs| ==> !outputs[j].IdentityPrimary?
    ensures forall i :: 0 <= i < |outputs| ==> !IsReached(outputs, i)
  {
  }

  lemma PaidShifted(outputs: seq<Output>, d: nat, rest: seq<nat>, ids: seq<Id>)
    requires d <= |outputs| && PaidAt(outputs[d..], rest, ids)
    ensures PaidAt(outputs, Shifted(rest, d), ids)
  {
  }

  lemma ReachedIff(outputs: seq<Output>, p: nat, i: nat, rest: seq<nat>)
    requires p < |outputs| && i < |outputs| && StartsAt(outputs, p) && AreOpenPayments(outputs[p + 1..], rest)
    ensures i >= p + 1 && i - (p + 1) in rest <==> outputs[i].IdentityPayment? && IsReached(outputs, i)
  {
    var after := outputs[p + 1..];
    if i > p {
      assert after[i - (p + 1)] == outputs[i];
      assert Open(after, i - (p + 1)) <==> forall j :: p < j < i ==> !outputs[j].OtherOutput? by {
        assert forall j :: p < j < i ==> outputs[j] == after[j - (p + 1)];
        assert forall j :: 0 <= j < i - (p + 1) ==> after[j] == outputs[p + 1 + j];
      }
    }
    if IsReached(outputs, i) {
      var q :| 0 <= q < i && StartsAt(outputs, q) && forall j :: q < j < i ==> !outputs[j].OtherOutput?;
      assert q == p;
    }
  }

  // ---------------------------------------------------------------- the documented rule

  function AfterIdentity(outputs: seq<Output>): seq<Output> {
    if outputs == [] then []
    else if outputs[0].IdentityPrimary? then outputs[1..]
    else AfterIdentity(outputs[1..])
  }

  function LeadingPayments(outputs: seq<Output>): seq<Id> {
    if outputs == [] || !outputs[0].IdentityPayment? then []
    else [outputs[0].identity] + LeadingPayments(outputs[1..])
  }

  /** The daemon's rule as documented: skip to the identity output, then take the payments that follow it. */
  function Documented(outputs: seq<Output>): seq<Id> {
    LeadingPayments(AfterIdentity(outputs))
  }

  function AfterPayments(outputs: seq<Output>): seq<Output> {
    if outputs == [] || !outputs[0].IdentityPayment? then outputs
    else AfterPayments(outputs[1..])
  }

  /** Whether the first output that is neither unreadable nor another identity is a payment. */
  predicate ResumesWithPayment(outputs: seq<Output>) {
    outputs != [] &&
    match outputs[0]
    case IdentityPayment(_) => true
    case OtherOutput => false
    case _ => ResumesWithPayment(outputs[1..])
  }

  lemma {:induction false} CollectedFromIdentity(outputs: seq<Output>)
    ensures Collected(outputs, false) == Collected(AfterIdentity(outputs), true)
  {
    if outputs != [] && !outputs[0].IdentityPrimary? {
      CollectedFromIdentity(outputs[1..]);
    }
  }

  lemma {:induction false} CollectedInTwo(outputs: seq<Output>)
    ensures Collected(outputs, true) == LeadingPayments(outputs) + Collected(AfterPayments(outputs), true)
  {
    if outputs != [] && outputs[0].IdentityPayment? {
      var rest := outputs[1..];
      CollectedInTwo(rest);
      Regroup([outputs[0].identity], LeadingPayments(rest), Collected(AfterPayments(rest), true));
    }
  }

  lemma {:induction false} CollectsMoreIff(outputs: seq<Output>)
    ensures Collected(outputs, true) != [] <==> ResumesWithPayment(outputs)
  {
    if outputs != [] && (outputs[0].Unreadable? || outputs[0].IdentityPrimary?) {
      CollectsMoreIff(outputs[1..]);
    }
  }

  /** The chain the documented rule gives, with the same cap. */
  function DocumentedChain(referrer: Id, levels: nat, outputs: seq<Output>): seq<Id> {
    if levels <= 1 then [referrer] else [referrer] + Take(Documented(outputs), levels - 1)
  }

  /**
    The walk gives the documented chain exactly when the cap is reached before the run of payments is
    interrupted, or nothing interrupts it and lets it resume: an unreadable output or a second
    identity output does not end the walk, where it ends the rule.
   */
  lemma FollowsTheRuleIff(referrer: Id, levels: nat, outputs: seq<Output>)
    ensures ChainOf(referrer, levels, outputs) == DocumentedChain(referrer, levels, outputs)
       <==> || levels <= 1
            || |Documented(outputs)| >= levels - 1
            || !ResumesWithPayment(AfterPayments(AfterIdentity(outputs)))
  {
    var following := AfterIdentity(outputs);
    CollectedFromIdentity(outputs);
    CollectedInTwo(following);
    CollectsMoreIff(AfterPayments(following));
    var payments, more := LeadingPayments(following), Collected(AfterPayments(following), true);
    if levels > 1 {
      CappedAlikeIff(payments, more, levels - 1);
      assert ChainOf(referrer, levels, outputs)[1..] == Take(payments + more, levels - 1);
      assert DocumentedChain(referrer, levels, outputs)[1..] == Take(payments, levels - 1);
    }
  }

  lemma CappedAlikeIff(payments: seq<Id>, more: seq<Id>, n: nat)
    ensures Take(payments + more, n) == Take(payments, n) <==> |payments| >= n || more == []
  {
    if |payments| >= n {
      assert (payments + more)[..n] == payments[..n];
    } else if more == [] {
      assert payments + more == payments;
    } else {
      assert |Take(payments + more, n)| > |payments|;
    }
  }

  /** A registration on which they differ, at every level count that reaches the second payment. */
  lemma InterruptedRunDiffers(referrer: Id, levels: nat, first: Id, second: Id)
    requires levels >= 3
    ensures var outputs := [IdentityPrimary, IdentityPayment(first), Unreadable, IdentityPayment(second)];
      && DocumentedChain(referrer, levels, outputs) == [referrer, first]
      && ChainOf(referrer, levels, outputs) == [referrer, first, second]
  {
    var outputs := [IdentityPrimary, IdentityPayment(first), Unreadable, IdentityPayment(second)];
    assert outputs[1..] == [IdentityPayment(first), Unreadable, IdentityPayment(second)];
    assert outputs[1..][1..] == [Unreadable, IdentityPayment(second)];
    assert outputs[1..][1..][1..] == [IdentityPayment(second)];
    assert [IdentityPayment(second)][1..] == [];
    assert Collected([IdentityPayment(second)], true) == [second];
    assert Collected(outputs[1..][1..], true) == [second];
    assert LeadingPayments(outputs[1..][1..]) == [];
    assert LeadingPayments(outputs[1..]) == [first] + [];
    assert Collected(outputs[1..], true) == [first] + [second];
    assert [referrer] + [first] == [referrer, first];
    assert [referrer] + ([first] + [second]) == [referrer, first, second];
  }
}
