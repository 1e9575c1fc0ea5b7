/** Shared vocabulary: optional values, results, integer widths and a few facts about sequences. */
module Base {

  datatype Option<+T> = None | Some(value: T)

  datatype Result<+T, +E> = Ok(value: T) | Err(error: E)

  const MAX_U32: nat := 0xffff_ffff
  const MAX_U64: nat := 0xffff_ffff_ffff_ffff

  function Min(a: nat, b: nat): nat {
    if a < b then a else b
  }

  /** `u32` addition that stops at the largest value. */
  function SaturatingAdd(a: nat, b: nat): nat {
    Min(a + b, MAX_U32)
  }

  function Pow2(n: nat): (r: nat)
    ensures r > 0
  {
    if n == 0 then 1 else 2 * Pow2(n - 1)
  }

  lemma {:induction false} Pow2Monotone(a: nat, b: nat)
    requires a <= b
    ensures Pow2(a) <= Pow2(b)
    decreases b
  {
    if a < b {
      Pow2Monotone(a, b - 1);
    }
  }

  lemma Regroup<T>(a: seq<T>, b: seq<T>, c: seq<T>)
    ensures a + b + c == a + (b + c)
  {
  }

  predicate IsAscii(s: string) {
    forall i :: 0 <= i < |s| ==> s[i] < '\U{80}'
  }

  ghost predicate Distinct<T>(s: seq<T>) {
    forall i, j :: 0 <= i < j < |s| ==> s[i] != s[j]
  }

  /** Exactly the heights `start..=end`, in order, none missing and none extra. */
  predicate CompleteRange(heights: seq<nat>, start: nat, end: nat) {
    && start <= end
    && |heights| == end - start + 1
    && forall i :: 0 <= i < |heights| ==> heights[i] == start + i
  }

  /** The last `n` elements, or all of them when there are fewer. */
  function LastN<T>(s: seq<T>, n: nat): (r: seq<T>)
    ensures |r| == Min(|s|, n)
  {
    if |s| <= n then s else s[|s| - n..]
  }

  /** Trimming two pieces separately and then their concatenation is trimming once at the end. */
  lemma LastNConcat<T>(a: seq<T>, b: seq<T>, n: nat)
    ensures LastN(LastN(a, n) + LastN(b, n), n) == LastN(a + b, n)
    ensures LastN(LastN(a, n) + b, n) == LastN(a + b, n)
  {
    LastNOfSuffix(LastN(a, n), b, a[..|a| - |LastN(a, n)|], n);
    assert a[..|a| - |LastN(a, n)|] + LastN(a, n) == a;
    if |b| > n {
      var cut := |b| - n;
      LastNOfSuffix(b[cut..], [], LastN(a, n) + b[..cut], n);
      LastNOfSuffix(b[cut..], [], LastN(a, n), n);
      assert LastN(a, n) + b[..cut] + b[cut..] + [] == LastN(a, n) + b;
      assert b[cut..] + [] == b[cut..] && LastN(a, n) + b[cut..] + [] == LastN(a, n) + b[cut..];
    }
  }

  /** What lies before the last `n` elements does not matter, once there are `n` of them or nothing was dropped. */
  lemma LastNOfSuffix<T>(kept: seq<T>, more: seq<T>, dropped: seq<T>, n: nat)
    requires |kept| >= n || dropped == []
    ensures LastN(dropped + kept + more, n) == LastN(kept + more, n)
  {
    var whole, rest := dropped + kept + more, kept + more;
    if dropped == [] {
      assert whole == rest;
    } else {
      var k := |rest| - n;
      assert whole[|dropped|..] == rest;
      assert whole[|dropped| + k..] == whole[|dropped|..][k..];
    }
  }

  /** The elements of `s` that satisfy `p`, in order. */
  function Filter<T(!new)>(s: seq<T>, p: T -> bool): (r: seq<T>)
    ensures forall x :: x in r <==> x in s && p(x)
  {
    if s == [] then []
    else
      var rest := Filter(s[..|s| - 1], p);
      var last := s[|s| - 1];
      assert s == s[..|s| - 1] + [last];
      if p(last) then rest + [last] else rest
  }

  lemma {:induction false} FilterConcat<T(!new)>(a: seq<T>, b: seq<T>, p: T -> bool)
    ensures Filter(a + b, p) == Filter(a, p) + Filter(b, p)
  {
    if b == [] {
      assert a + b == a;
    } else {
      var front := b[..|b| - 1];
      assert (a + b)[..|a + b| - 1] == a + front;
      FilterConcat(a, front, p);
    }
  }

  lemma {:induction false} FilterAll<T(!new)>(s: seq<T>, p: T -> bool)
    requires forall x :: x in s ==> p(x)
    ensures Filter(s, p) == s
  {
    if s != [] {
      assert s == s[..|s| - 1] + [s[|s| - 1]];
      FilterAll(s[..|s| - 1], p);
    }
  }

  lemma {:induction false} FilterNone<T(!new)>(s: seq<T>, p: T -> bool)
    requires forall x :: x in s ==> !p(x)
    ensures Filter(s, p) == []
  {
    if s != [] {
      FilterNone(s[..|s| - 1], p);
    }
  }

  /** `a` is what is left of `b` when some of it is taken out: `kept` are the places of what stays. */
  ghost predicate IsLeftOf<T>(a: seq<T>, b: seq<T>, kept: seq<nat>) {
    && |kept| == |a|
    && (forall i :: 0 <= i < |a| ==> kept[i] < |b| && a[i] == b[kept[i]])
    && forall i, j :: 0 <= i < j < |kept| ==> kept[i] < kept[j]
  }

  /** The places that stay are those of the elements that satisfy the predicate. */
  ghost predicate KeptAre<T(!new)>(kept: seq<nat>, s: seq<T>, p: T -> bool) {
    forall k :: 0 <= k < |s| ==> (k in kept <==> p(s[k]))
  }

  /** Filtering keeps exactly what satisfies the predicate, in order and as often as it was there. */
  lemma {:induction false} FilterKeeps<T(!new)>(s: seq<T>, p: T -> bool) returns (kept: seq<nat>)
    ensures IsLeftOf(Filter(s, p), s, kept) && KeptAre(kept, s, p)
  {
    hide IsLeftOf, KeptAre;
    if s == [] {
      kept := [];
      NothingKept(p);
    } else {
      var front, last := s[..|s| - 1], s[|s| - 1];
      var before := FilterKeeps(front, p);
      KeptSnoc(Filter(front, p), front, last, before, p);
      kept := if p(last) then before + [|front|] else before;
      assert s == front + [last];
    }
  }

  lemma NothingKept<T(!new)>(p: T -> bool)
    ensures IsLeftOf(Filter([], p), [], []) && KeptAre([], [], p)
  {
  }

  lemma KeptSnoc<T(!new)>(a: seq<T>, front: seq<T>, last: T, kept: seq<nat>, p: T -> bool)
    requires IsLeftOf(a, front, kept) && KeptAre(kept, front, p)
    ensures p(last) ==> IsLeftOf(a + [last], front + [last], kept + [|front|]) && KeptAre(kept + [|front|], front + [last], p)
    ensures !p(last) ==> IsLeftOf(a, front + [last], kept) && KeptAre(kept, front + [last], p)
  {
    var s := front + [last];
    assert |front| !in kept;
    assert forall k :: 0 <= k < |front| ==> s[k] == front[k];
    forall k | 0 <= k < |s|
      ensures p(last) ==> (k in kept + [|front|] <==> p(s[k]))
    {
      assert k in kept + [|front|] <==> k in kept || k == |front|;
    }
  }

  lemma FilterHead<T(!new)>(s: seq<T>, p: T -> bool)
    requires s != []
    ensures Filter(s, p) == (if p(s[0]) then [s[0]] else []) + Filter(s[1..], p)
  {
    FilterConcat([s[0]], s[1..], p);
    assert [s[0]] + s[1..] == s && [s[0]][..0] == [];
  }

  /** Filtering by a weaker predicate first makes no difference. */
  lemma {:induction false} FilterTwice<T(!new)>(s: seq<T>, p: T -> bool, q: T -> bool)
    requires forall x :: x in s && q(x) ==> p(x)
    ensures Filter(Filter(s, p), q) == Filter(s, q)
  {
    if s != [] {
      var front, last := s[..|s| - 1], s[|s| - 1];
      FilterTwice(front, p, q);
      if p(last) {
        var kept := Filter(front, p);
        assert (kept + [last])[..|kept|] == kept;
      }
    }
  }

  /** Filtering depends only on what the predicate says about the elements. */
  lemma {:induction false} FilterSame<T(!new)>(s: seq<T>, p: T -> bool, q: T -> bool)
    requires forall x :: x in s ==> p(x) == q(x)
    ensures Filter(s, p) == Filter(s, q)
  {
    if s != [] {
      assert s[|s| - 1] in s;
      FilterSame(s[..|s| - 1], p, q);
    }
  }
}
