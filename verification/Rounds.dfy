/** How many rounds a driven operation takes, and what comes out of the last one. */
module Rounds {
  import opened Base
  import opened Cassette
  import opened Drive

  /** The cache after `n` rounds in which everything asked for was fetched from the node, and recorded if it fits. */
  ghost function CacheAfter<V>(p: Program<V>, node: string -> string, n: nat): (answers: map<string, string>)
    requires Halts(p)
    ensures Agrees(answers, node)
  {
    if n == 0 then map[]
    else
      var before := CacheAfter(p, node, n - 1);
      Recorded(before, Misses(p, RunOf(p, Cached(before))), node)
  }

  ghost function RunAt<V>(p: Program<V>, node: string -> string, n: nat): (c: History)
    requires Halts(p)
    ensures IsRun(p, Cached(CacheAfter(p, node, n)), c)
  {
    RunOf(p, Cached(CacheAfter(p, node, n)))
  }

  /** Round `n` (counting from 0) does not end in another shopping list. */
  ghost predicate Settled<V>(p: Program<V>, node: string -> string, n: nat)
    requires Halts(p)
  {
    p(RunAt(p, node, n)) != Fail(AnswerNeeded) || Misses(p, RunAt(p, node, n)) == []
  }

  /** What the direct run gives, as a driver would report it. */
  ghost predicate DirectOutcome<V>(p: Program<V>, d: History, r: Result<V, Error>) {
    match p(d)
    case Done(v) => r == Ok(v)
    case Fail(e) => r == Err(if e == AnswerNeeded then Stalled else e)
    case Ask(_) => false
  }

  /** Every reply the direct run reads is small enough to be recorded. */
  ghost predicate RepliesFit<V>(p: Program<V>, d: History, node: string -> string) {
    forall i :: 0 <= i < |d| && p(d[..i]).Ask? && !p(d[..i]).request.writes ==> Fits(node(p(d[..i]).request.body))
  }

  // ---------------------------------------------------------------- one round per distinct question

  /** The distinct bodies the direct run asks for that the cache does not hold. */
  function Unanswered<V>(p: Program<V>, d: History, answers: map<string, string>): set<string> {
    set i | 0 <= i < |d| && p(d[..i]).Ask? && !p(d[..i]).request.writes && p(d[..i]).request.body !in answers
      :: p(d[..i]).request.body
  }

  lemma {:induction false} ProperSubsetIsSmaller<T>(a: set<T>, b: set<T>, x: T)
    requires a <= b && x in b && x !in a
    ensures |a| < |b|
    decreases |a|
  {
    if a != {} {
      var y :| y in a;
      ProperSubsetIsSmaller(a - {y}, b - {y}, x);
    }
  }

  lemma RoundAnswersMore<V>(p: Program<V>, node: string -> string, d: History, n: nat)
    requires Halts(p) && RespectsSentinel(p) && IsRun(p, Live(node), d) && !Settled(p, node, n)
    requires RepliesFit(p, d, node)
    ensures |Unanswered(p, d, CacheAfter(p, node, n + 1))| < |Unanswered(p, d, CacheAfter(p, node, n))|
  {
    hide Halts, RespectsSentinel, RepliesFit, IsRun, CacheAfter, RunAt, Unanswered;
    var body := MissIsRecorded(p, node, d, n);
    FewerUnanswered(p, d, CacheAfter(p, node, n), CacheAfter(p, node, n + 1), body);
  }

  /** Knowing more, and one body of the direct run among it that was not known, leaves less to ask. */
  lemma FewerUnanswered<V>(p: Program<V>, d: History, less: map<string, string>, more: map<string, string>, body: string)
    requires less.Keys <= more.Keys && body in more && body in Unanswered(p, d, less)
    ensures |Unanswered(p, d, more)| < |Unanswered(p, d, less)|
  {
    ProperSubsetIsSmaller(Unanswered(p, d, more), Unanswered(p, d, less), body);
  }

  lemma MissIsRecorded<V>(p: Program<V>, node: string -> string, d: History, n: nat) returns (body: string)
    requires Halts(p) && RespectsSentinel(p) && IsRun(p, Live(node), d) && !Settled(p, node, n)
    requires RepliesFit(p, d, node)
    ensures var less, more := CacheAfter(p, node, n), CacheAfter(p, node, n + 1);
      less.Keys <= more.Keys && body in more && body in Unanswered(p, d, less)
  {
    var answers, c := CacheAfter(p, node, n), RunAt(p, node, n);
    hide Misses, RespectsSentinel;
    var i := FirstMiss(p, answers, node, c, d);
    body := p(d[..i]).request.body;
  }

  lemma {:induction false} UnansweredShrinks<V>(p: Program<V>, node: string -> string, d: History, n: nat)
    requires Halts(p) && RespectsSentinel(p) && IsRun(p, Live(node), d)
    requires forall m :: 0 <= m < n ==> !Settled(p, node, m)
    requires RepliesFit(p, d, node)
    ensures |Unanswered(p, d, CacheAfter(p, node, n))| + n <= |Unanswered(p, d, map[])|
  {
    hide CacheAfter, Unanswered, Settled, Halts, RespectsSentinel, RepliesFit, IsRun;
    if n == 0 {
      NothingCachedYet(p, node);
    } else {
      UnansweredShrinks(p, node, d, n - 1);
      RoundAnswersMore(p, node, d, n - 1);
    }
  }

  lemma NothingCachedYet<V>(p: Program<V>, node: string -> string)
    requires Halts(p)
    ensures CacheAfter(p, node, 0) == map[]
  {
  }

  /** Progress: the run settles within one round per distinct question of the direct run, plus one. */
  lemma SettlesByDistinctQuestions<V>(p: Program<V>, node: string -> string, d: History) returns (m: nat)
    requires Halts(p) && RespectsSentinel(p) && IsRun(p, Live(node), d)
    requires RepliesFit(p, d, node)
    ensures m <= |Unanswered(p, d, map[])| && Settled(p, node, m)
  {
    hide Unanswered, Settled, Halts, RespectsSentinel, IsRun;
    var most := |Unanswered(p, d, map[])|;
    m := 0;
    while m <= most && !Settled(p, node, m)
      invariant m <= most + 1
      invariant forall k :: 0 <= k < m ==> !Settled(p, node, k)
      decreases most + 1 - m
    {
      m := m + 1;
    }
    if m == most + 1 {
      UnansweredShrinks(p, node, d, m);
      assert false;
    }
  }

  // ---------------------------------------------------------------- one round per batch

  /** Questions `a..b` of the direct run are issued before any of their answers is looked at. */
  ghost predicate Independent<V>(p: Program<V>, d: History, a: nat, b: nat) {
    && a <= b <= |d|
    && forall h: History :: a <= |h| < b && KnowsLess(h, d[..|h|]) && h[..a] == d[..a] ==> p(h).Ask?
  }

  ghost predicate Batches<V>(p: Program<V>, d: History, cuts: seq<nat>) {
    && |cuts| > 0 && cuts[0] == 0 && cuts[|cuts| - 1] == |d|
    && forall k :: 0 <= k < |cuts| - 1 ==> Independent(p, d, cuts[k], cuts[k + 1])
  }

  /** A cache that covers the first `a` questions replays them without a hole. */
  lemma CoveredReplays<V>(p: Program<V>, answers: map<string, string>, node: string -> string, c: History, d: History, a: nat)
    requires RespectsSentinel(p) && Agrees(answers, node)
    requires IsRun(p, Cached(answers), c) && IsRun(p, Live(node), d) && Covered(p, d, answers, a)
    ensures a <= |c| && c[..a] == d[..a]
  {
    var i := 0;
    assert c[..|c|] == c && d[..|d|] == d;
    while i < a
      invariant i <= a && i <= |c| && c[..i] == d[..i]
    {
      assert p(d[..i]).Ask?;
      assert c[i] == Answered(Cached(answers), p(c[..i]).request);
      assert d[i] == Answered(Live(node), p(d[..i]).request);
      assert c[..i + 1] == c[..i] + [c[i]] && d[..i + 1] == d[..i] + [d[i]];
      i := i + 1;
    }
  }

  lemma BatchIsReached<V>(p: Program<V>, answers: map<string, string>, node: string -> string, c: History, d: History,
                          a: nat, b: nat)
    requires RespectsSentinel(p) && Agrees(answers, node)
    requires IsRun(p, Cached(answers), c) && IsRun(p, Live(node), d)
    requires Covered(p, d, answers, a) && Independent(p, d, a, b)
    ensures b <= |c| && KnowsLess(c[..b], d[..b])
  {
    CoveredReplays(p, answers, node, c, d, a);
    var i := a;
    assert c[..|c|] == c;
    while i < b
      invariant a <= i <= b && i <= |c|
    {
      CachedWalksDirect(p, answers, node, c, d, i);
      assert c[..i][..a] == d[..a];
      assert p(c[..i]).Ask?;
      i := i + 1;
    }
    CachedWalksDirect(p, answers, node, c, d, b);
  }

  /** One round answers a whole batch, however many questions are in it. */
  lemma BatchIsCovered<V>(p: Program<V>, answers: map<string, string>, node: string -> string, c: History, d: History,
                          a: nat, b: nat)
    requires RespectsSentinel(p) && Agrees(answers, node)
    requires IsRun(p, Cached(answers), c) && IsRun(p, Live(node), d)
    requires Covered(p, d, answers, a) && Independent(p, d, a, b)
    requires RepliesFit(p, d, node)
    ensures Covered(p, d, Recorded(answers, Misses(p, c), node), b)
  {
    BatchIsReached(p, answers, node, c, d, a, b);
    var more := Recorded(answers, Misses(p, c), node);
    forall i | 0 <= i < b && p(d[..i]).Ask?
      ensures p(d[..i]).request.writes || p(d[..i]).request.body in more
    {
      CachedWalksDirect(p, answers, node, c, d, i);
      assert p(c[..i]).Ask? && p(c[..i]) == p(d[..i]);
      assert c[i] == Answered(Cached(answers), p(c[..i]).request);
      assert c[i] == Needed ==> p(c[..i]).request.body in Misses(p, c);
    }
  }

  lemma {:induction false} CoveredAfter<V>(p: Program<V>, node: string -> string, d: History, cuts: seq<nat>, n: nat)
    requires Halts(p) && RespectsSentinel(p) && IsRun(p, Live(node), d) && Batches(p, d, cuts) && n < |cuts|
    requires RepliesFit(p, d, node)
    ensures Covered(p, d, CacheAfter(p, node, n), cuts[n])
  {
    if n > 0 {
      CoveredAfter(p, node, d, cuts, n - 1);
      assert Independent(p, d, cuts[n - 1], cuts[n - 1 + 1]);
      BatchIsCovered(p, CacheAfter(p, node, n - 1), node, RunAt(p, node, n - 1), d, cuts[n - 1], cuts[n]);
    }
  }

  /** An operation that issues its reads in `n` batches settles in `n + 1` rounds. */
  lemma SettlesByBatches<V>(p: Program<V>, node: string -> string, d: History, cuts: seq<nat>)
    requires Halts(p) && RespectsSentinel(p) && IsRun(p, Live(node), d) && Batches(p, d, cuts)
    requires RepliesFit(p, d, node)
    ensures Settled(p, node, |cuts| - 1)
  {
    var n := |cuts| - 1;
    CoveredAfter(p, node, d, cuts, n);
    var answers, c := CacheAfter(p, node, n), RunAt(p, node, n);
    CoveredReplays(p, answers, node, c, d, |d|);
    CachedWalksDirect(p, answers, node, c, d, |c|);
    assert d[..|d|] == d && c[..|d|] == c;
    forall i | 0 <= i < |c|
      ensures c[i] != Needed
    {
      assert d[i] == Answered(Live(node), p(d[..i]).request);
    }
    NoHoles(p, c, |c|);
    assert c[..|c|] == c;
  }

  // ---------------------------------------------------------------- the driver's loop

  /** Two programs that ask the same things and fail the same way; only the value they finish with
      may differ. This is what a salt redrawn each round may change. */
  ghost predicate Alike<V>(p: Program<V>, q: Program<V>) {
    forall h :: p(h) == q(h) || (p(h).Done? && q(h).Done?)
  }

  lemma AlikeRuns<V>(p: Program<V>, q: Program<V>, src: Source, h: History)
    requires Alike(p, q) && IsRun(p, src, h)
    ensures IsRun(q, src, h)
    ensures Misses(p, h) == Misses(q, h)
  {
    AlikeMisses(p, q, h);
  }

  lemma {:induction false} AlikeMisses<V>(p: Program<V>, q: Program<V>, h: History)
    requires Alike(p, q)
    ensures Misses(p, h) == Misses(q, h)
  {
    if h != [] {
      AlikeMisses(p, q, h[..|h| - 1]);
      assert p(h[..|h| - 1]) == q(h[..|h| - 1]) || !p(h[..|h| - 1]).Ask?;
    }
  }

  /** A round of `q` from the shared cache is a round of `p`, and a settled one is the direct run. */
  lemma SameRound<V>(p: Program<V>, q: Program<V>, node: string -> string, n: nat, d: History)
    requires Halts(p) && Halts(q) && Alike(p, q) && RespectsSentinel(q) && IsRun(p, Live(node), d)
    ensures HaltsOn(q, Cached(CacheAfter(p, node, n)))
    ensures var c := RunOf(q, Cached(CacheAfter(p, node, n)));
      && c == RunAt(p, node, n) && Misses(q, c) == Misses(p, c)
      && (Settled(p, node, n) <==> RoundResult(q, c).Err? || RoundResult(q, c).value.Ready?)
      && (Settled(p, node, n) ==>
        match RoundResult(q, c)
        case Err(e) => DirectOutcome(q, d, Err(e))
        case Ok(Ready(v)) => DirectOutcome(q, d, Ok(v))
        case Ok(Asking(_)) => false)
      && (!Settled(p, node, n) ==> RoundResult(q, c) == Ok(Asking(Misses(p, c))))
  {
    var answers := CacheAfter(p, node, n);
    assert HaltsOn(q, Cached(answers));
    var c := RunAt(p, node, n);
    AlikeRuns(p, q, Cached(answers), c);
    RunIsUnique(q, Cached(answers), c, RunOf(q, Cached(answers)));
    AlikeRuns(p, q, Live(node), d);
    CachedOutcomeIsDirect(q, answers, node, c, d);
  }

  lemma RecordedSnoc(answers: map<string, string>, bodies: seq<string>, body: string, node: string -> string)
    ensures var before := Recorded(answers, bodies, node);
      Recorded(answers, bodies + [body], node) == if Fits(node(body)) then before[body := node(body)] else before
    ensures Recorded(answers, [], node) == answers
  {
    hide Fits;
    assert (bodies + [body])[..|bodies|] == bodies;
  }

  /** Fetch everything on the list and hand it back; as documented, what `record` says is not looked at. */
  method FetchAll(answers: Answers, bodies: seq<string>, node: string -> string)
    modifies answers.cassette`answers
    ensures answers.cassette.answers == Recorded(old(answers.cassette.answers), bodies, node)
  {
    hide Recorded, Fits;
    RecordedSnoc(answers.cassette.answers, [], "", node);
    for i := 0 to |bodies|
      invariant answers.cassette.answers == Recorded(old(answers.cassette.answers), bodies[..i], node)
    {
      var _ := answers.Record(bodies[i], node(bodies[i]));
      RecordedSnoc(old(answers.cassette.answers), bodies[..i], bodies[i], node);
      assert bodies[..i + 1] == bodies[..i] + [bodies[i]];
    }
    assert bodies[..|bodies|] == bodies;
  }

  /** The loop of the module documentation, with a possibly different program every round. It asks
      until round `m` settles and then reports what the direct run of that round's program gives. Nothing
      else ever comes out of it, whatever the size of the replies. */
  method DriveLoop<V>(ps: nat -> Program<V>, node: string -> string, ghost d: History)
    returns (r: Result<V, Error>, rounds: nat)
    requires forall i :: Halts(ps(i)) && RespectsSentinel(ps(i)) && Alike(ps(0), ps(i))
    requires IsRun(ps(0), Live(node), d)
    ensures 1 <= rounds <= MAX_ROUNDS
    ensures forall m :: 0 <= m < MAX_ROUNDS && Settled(ps(0), node, m) ==>
      rounds <= m + 1 && DirectOutcome(ps(rounds - 1), d, r)
    ensures (forall m :: 0 <= m < MAX_ROUNDS ==> !Settled(ps(0), node, m)) ==> r == Err(Stalled) && rounds == MAX_ROUNDS
  {
    hide CacheAfter, Recorded, Fits, Misses, RunOf, RunAt, Settled, DirectOutcome, RoundResult, IsRun, Alike, RespectsSentinel;
    ghost var p := ps(0);
    NothingCachedYet(p, node);
    var answers := new Answers();
    while true
      invariant answers.Valid() && fresh(answers) && fresh(answers.cassette)
      invariant answers.rounds <= MAX_ROUNDS && !answers.finished
      invariant answers.cassette.answers == CacheAfter(p, node, answers.rounds)
      invariant forall m :: 0 <= m < answers.rounds ==> !Settled(p, node, m)
      decreases MAX_ROUNDS - answers.rounds
    {
      ghost var n := answers.rounds;
      var q := ps(answers.rounds);
      SameRound(p, q, node, n, d);
      var step := Advance(answers, q);
      rounds := answers.rounds;
      match step
      case Err(e) =>
        return Err(e), rounds;
      case Ok(Ready(v)) =>
        return Ok(v), rounds;
      case Ok(Asking(bodies)) =>
        CacheGrows(p, node, n);
        FetchAll(answers, bodies, node);
    }
  }

  lemma CacheGrows<V>(p: Program<V>, node: string -> string, n: nat)
    requires Halts(p)
    ensures CacheAfter(p, node, n + 1) == Recorded(CacheAfter(p, node, n), Misses(p, RunAt(p, node, n)), node)
  {
  }
}
