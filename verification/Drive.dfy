/**
  Running an operation by re-execution.

  An operation is a program that, given the answers received so far, either finishes, fails or asks
  one more question.  `Advance` runs it from the start against a cache; the theorems compare that
  with running it once, directly, against the node.
 */
module Drive {
  import opened Base
  import opened Cassette
  import opened TextBytes

  const MAX_ROUNDS: nat := 16
  const MAX_REPLY_BYTES: nat := 8 * 1024 * 1024

  datatype Error = AnswerNeeded | WriteThroughCassette | AnswersSpent | Stalled | NotReady | Genuine(code: nat)

  datatype Action<V> = Done(value: V) | Fail(error: Error) | Ask(request: Request)

  type History = seq<Answer>
  type Program<!V> = History -> Action<V>

  datatype Step<V> = Asking(bodies: seq<string>) | Ready(value: V)

  // ---------------------------------------------------------------- runs

  /** Where answers come from: a cache, or the node itself behind a transport that refuses writes. */
  datatype Source = Cached(answers: map<string, string>) | Live(node: string -> string)

  function Answered(src: Source, r: Request): Answer {
    match src
    case Cached(answers) => Lookup(answers, r)
    case Live(node) => if r.writes then WriteRefused else Reply(node(r.body))
  }

  /** `h` is every answer the program received, from its first question to its outcome. */
  ghost predicate IsRun<V>(p: Program<V>, src: Source, h: History) {
    && (forall i :: 0 <= i < |h| ==> p(h[..i]).Ask? && h[i] == Answered(src, p(h[..i]).request))
    && !p(h).Ask?
  }

  ghost predicate HaltsOn<V>(p: Program<V>, src: Source) {
    exists h :: IsRun(p, src, h)
  }

  /** The operation returns, whatever it is told. */
  ghost predicate Halts<V>(p: Program<V>) {
    forall src: Source :: HaltsOn(p, src)
  }

  ghost function RunOf<V>(p: Program<V>, src: Source): (h: History)
    requires HaltsOn(p, src)
    ensures IsRun(p, src, h)
  {
    var h :| IsRun(p, src, h);
    h
  }

  lemma {:induction false} SamePrefix<V>(p: Program<V>, src: Source, g: History, h: History, n: nat)
    requires IsRun(p, src, h) && n <= |g|
    requires forall i :: 0 <= i < |g| ==> p(g[..i]).Ask? && g[i] == Answered(src, p(g[..i]).request)
    ensures n <= |h| && g[..n] == h[..n]
  {
    assert h[..|h|] == h;
    if n > 0 {
      SamePrefix(p, src, g, h, n - 1);
      assert g[..n - 1] == h[..n - 1];
      assert g[..n] == g[..n - 1] + [g[n - 1]] && h[..n] == h[..n - 1] + [h[n - 1]];
    }
  }

  lemma RunIsUnique<V>(p: Program<V>, src: Source, g: History, h: History)
    requires IsRun(p, src, g) && IsRun(p, src, h)
    ensures g == h
  {
    SamePrefix(p, src, g, h, |g|);
    SamePrefix(p, src, h, g, |h|);
    assert g[..|g|] == g && h[..|h|] == h;
  }

  /** The shopping list of one run: unanswered bodies in the order first asked, each once. */
  function Misses<V>(p: Program<V>, h: History): (m: seq<string>)
    ensures forall b :: b in m <==> exists i :: 0 <= i < |h| && h[i] == Needed && p(h[..i]).Ask? && p(h[..i]).request.body == b
  {
    if h == [] then []
    else
      var n := |h| - 1;
      var before := Misses(p, h[..n]);
      assert forall i :: 0 <= i < n ==> h[..n][..i] == h[..i];
      if h[n] == Needed && p(h[..n]).Ask? then Noted(before, p(h[..n]).request.body) else before
  }

  // ---------------------------------------------------------------- sentinels

  /** Less is known in `g` than in `h`. */
  ghost predicate KnowsLess(g: History, h: History) {
    |g| == |h| && forall i :: 0 <= i < |g| ==> g[i] == Needed || g[i] == h[i]
  }

  /** An operation treats "not asked yet" as no information: knowing more either changes nothing
      or replaces the sentinel failure. */
  ghost predicate RespectsSentinel<V>(p: Program<V>) {
    forall g, h :: KnowsLess(g, h) ==> p(g) == Fail(AnswerNeeded) || p(g) == p(h)
  }

  ghost predicate Agrees(answers: map<string, string>, node: string -> string) {
    forall b :: b in answers ==> answers[b] == node(b)
  }

  /** A cached run walks the direct run, with holes, until it stops. */
  lemma {:induction false} CachedWalksDirect<V>(p: Program<V>, answers: map<string, string>, node: string -> string,
                                               c: History, d: History, n: nat)
    requires RespectsSentinel(p) && Agrees(answers, node)
    requires IsRun(p, Cached(answers), c) && IsRun(p, Live(node), d) && n <= |c|
    ensures n <= |d| && KnowsLess(c[..n], d[..n])
  {
    assert d[..|d|] == d;
    if n > 0 {
      CachedWalksDirect(p, answers, node, c, d, n - 1);
      assert p(c[..n - 1]).Ask?;
      assert p(d[..n - 1]) == p(c[..n - 1]);
      assert c[..n] == c[..n - 1] + [c[n - 1]] && d[..n] == d[..n - 1] + [d[n - 1]];
    }
  }

  /** Driving refines direct execution: whatever part of the node's answers the cache holds, a
      cached run that does not stop for the sentinel has the direct run's own outcome. */
  lemma CachedOutcomeIsDirect<V>(p: Program<V>, answers: map<string, string>, node: string -> string, c: History, d: History)
    requires RespectsSentinel(p) && Agrees(answers, node)
    requires IsRun(p, Cached(answers), c) && IsRun(p, Live(node), d)
    ensures p(c) == Fail(AnswerNeeded) || p(c) == p(d)
    ensures Misses(p, c) == [] ==> c == d
  {
    CachedWalksDirect(p, answers, node, c, d, |c|);
    assert c[..|c|] == c && d[..|d|] == d;
    assert |c| < |d| ==> p(d[..|c|]).Ask?;
    assert p(c) == Fail(AnswerNeeded) || p(c) == p(d[..|c|]);
    if Misses(p, c) == [] {
      assert forall i :: 0 <= i < |c| && c[i] == Needed ==> p(c[..i]).request.body in Misses(p, c);
      assert c == d[..|c|];
    }
  }

  // ---------------------------------------------------------------- the size of a reply

  /** Small enough to be recorded. */
  predicate Fits(reply: string) {
    ByteLength(reply) <= MAX_REPLY_BYTES
  }

  // ---------------------------------------------------------------- one round

  /** What is known so far, carried between rounds of one operation. */
  class Answers {
    const cassette: Cassette
    var rounds: nat
    var finished: bool

    ghost predicate Valid()
      reads this, cassette
    {
      Distinct(cassette.missing)
    }

    constructor ()
      ensures Valid() && fresh(cassette)
      ensures rounds == 0 && !finished && cassette.answers == map[]
    {
      cassette := new Cassette();
      rounds, finished := 0, false;
    }

    method Record(body: string, reply: string) returns (r: Result<(), Error>)
      modifies cassette`answers
      ensures r == if Fits(reply) then Ok(()) else Err(NotReady)
      ensures cassette.answers == if r.Ok? then old(cassette.answers)[body := reply] else old(cassette.answers)
    {
      if ByteLength(reply) > MAX_REPLY_BYTES {
        return Err(NotReady);
      }
      cassette.AnswerTo(body, reply);
      return Ok(());
    }
  }

  /** `operation(&client)`: the program run from the start with the cassette as its transport. */
  method Operate<V>(p: Program<V>, cassette: Cassette) returns (h: History)
    requires HaltsOn(p, Cached(cassette.answers)) && cassette.missing == []
    modifies cassette`missing
    ensures IsRun(p, Cached(cassette.answers), h)
    ensures cassette.missing == Misses(p, h) && Distinct(cassette.missing)
  {
    hide Misses, Distinct, IsRun, IsPartOfRun;
    h := [];
    ghost var src := Cached(cassette.answers);
    ghost var end := RunOf(p, src);
    PartStarts(p, src);
    while p(h).Ask?
      invariant IsPartOfRun(p, src, h) && |h| <= |end|
      invariant cassette.answers == old(cassette.answers)
      invariant cassette.missing == Misses(p, h) && Distinct(cassette.missing)
      decreases |end| - |h|
    {
      PartGoesOn(p, src, h, end);
      var a := cassette.Post(p(h).request);
      h := h + [a];
    }
    PartEnds(p, src, h);
  }

  /** Every answer so far is the one the source gives to the question the program asked. */
  ghost predicate IsPartOfRun<V>(p: Program<V>, src: Source, h: History) {
    forall i :: 0 <= i < |h| ==> p(h[..i]).Ask? && h[i] == Answered(src, p(h[..i]).request)
  }

  lemma PartStarts<V>(p: Program<V>, src: Source)
    ensures IsPartOfRun(p, src, []) && Misses(p, []) == [] && Distinct<string>([])
  {
  }

  lemma PartGoesOn<V>(p: Program<V>, src: Source, h: History, end: History)
    requires IsPartOfRun(p, src, h) && IsRun(p, src, end) && p(h).Ask?
    ensures var a := Answered(src, p(h).request);
      && IsPartOfRun(p, src, h + [a]) && |h| < |end|
      && Misses(p, h + [a]) == if a == Needed then Noted(Misses(p, h), p(h).request.body) else Misses(p, h)
  {
    hide Misses, Answered, IsRun;
    PartIsShorter(p, src, h, end);
    MissesSnoc(p, h, Answered(src, p(h).request));
    var more := h + [Answered(src, p(h).request)];
    assert more[..|h|] == h;
    assert forall i :: 0 <= i < |h| ==> more[..i] == h[..i];
  }

  lemma PartIsShorter<V>(p: Program<V>, src: Source, h: History, end: History)
    requires IsPartOfRun(p, src, h) && IsRun(p, src, end) && p(h).Ask?
    ensures |h| < |end|
  {
    hide Misses, Answered;
    SamePrefix(p, src, h, end, |h|);
    assert h[..|h|] == h && end[..|end|] == end;
  }

  lemma MissesSnoc<V>(p: Program<V>, h: History, a: Answer)
    requires p(h).Ask?
    ensures Misses(p, h + [a]) == if a == Needed then Noted(Misses(p, h), p(h).request.body) else Misses(p, h)
  {
    hide Noted;
    assert (h + [a])[..|h|] == h;
  }

  lemma PartEnds<V>(p: Program<V>, src: Source, h: History)
    requires IsPartOfRun(p, src, h) && !p(h).Ask?
    ensures IsRun(p, src, h)
  {
  }

  /** One round. A finished handle is refused for ever, and a sixteenth round is the last. */
  method Advance<V>(answers: Answers, p: Program<V>) returns (r: Result<Step<V>, Error>)
    requires answers.Valid() && HaltsOn(p, Cached(answers.cassette.answers))
    modifies answers, answers.cassette`missing
    ensures answers.Valid()
    ensures old(answers.finished) || old(answers.rounds) >= MAX_ROUNDS ==>
      && r == Err(if old(answers.finished) then AnswersSpent else Stalled)
      && unchanged(answers) && unchanged(answers.cassette)
    ensures !old(answers.finished) && old(answers.rounds) < MAX_ROUNDS ==>
      var c := RunOf(p, Cached(answers.cassette.answers));
      && answers.rounds == old(answers.rounds) + 1
      && r == RoundResult(p, c)
      && answers.finished == (r.Ok? && r.value.Ready?)
      && answers.cassette.missing == Misses(p, c)
      && Distinct(Misses(p, c))
  {
    if answers.finished {
      return Err(AnswersSpent);
    }
    if answers.rounds >= MAX_ROUNDS {
      return Err(Stalled);
    }
    answers.rounds := answers.rounds + 1;
    answers.cassette.ForgetMisses();
    var h := Operate(p, answers.cassette);
    RunIsUnique(p, Cached(answers.cassette.answers), h, RunOf(p, Cached(answers.cassette.answers)));
    match p(h)
    case Done(value) =>
      answers.finished := true;
      return Ok(Ready(value));
    case Fail(AnswerNeeded) =>
      if answers.cassette.missing == [] {
        return Err(Stalled);
      }
      return Ok(Asking(answers.cassette.missing));
    case Fail(other) =>
      return Err(other);
  }

  function RoundResult<V>(p: Program<V>, h: History): Result<Step<V>, Error>
    requires !p(h).Ask?
  {
    match p(h)
    case Done(value) => Ok(Ready(value))
    case Fail(e) =>
      if e != AnswerNeeded then Err(e)
      else if Misses(p, h) == [] then Err(Stalled)
      else Ok(Asking(Misses(p, h)))
  }

  /** A request that would change something is refused, whatever answers; and it is never put on the list. */
  lemma WritesAreNeverAsked<V>(p: Program<V>, src: Source, h: History)
    requires IsRun(p, src, h)
    ensures forall i :: 0 <= i < |h| && p(h[..i]).request.writes ==> h[i] == WriteRefused
    ensures forall b :: b in Misses(p, h) ==>
      exists i :: 0 <= i < |h| && !p(h[..i]).request.writes && p(h[..i]).request.body == b && h[i] == Needed
  {
    forall b | b in Misses(p, h)
      ensures exists i :: 0 <= i < |h| && !p(h[..i]).request.writes && p(h[..i]).request.body == b && h[i] == Needed
    {
      var i :| 0 <= i < |h| && h[i] == Needed && p(h[..i]).Ask? && p(h[..i]).request.body == b;
      assert h[i] == Answered(src, p(h[..i]).request);
    }
  }

  // ---------------------------------------------------------------- progress

  lemma {:induction false} MissesGrow<V>(p: Program<V>, h: History, n: nat)
    requires n <= |h|
    ensures Misses(p, h[..n]) <= Misses(p, h)
  {
    if n == |h| {
      assert h[..n] == h;
    } else {
      assert h[..|h| - 1][..n] == h[..n];
      MissesGrow(p, h[..|h| - 1], n);
    }
  }

  /** Every question the direct run asks before its `n`th is a refused write or in the cache. */
  ghost predicate Covered<V>(p: Program<V>, d: History, answers: map<string, string>, n: nat) {
    && n <= |d|
    && forall i :: 0 <= i < n && p(d[..i]).Ask? ==> p(d[..i]).request.writes || p(d[..i]).request.body in answers
  }

  /** The cache after a list was fetched from the node; what is too large is not recorded. */
  function Recorded(answers: map<string, string>, bodies: seq<string>, node: string -> string): (r: map<string, string>)
    ensures forall b :: b in r <==> b in answers || (b in bodies && Fits(node(b)))
    ensures forall b :: b in r ==> r[b] == node(b) || (b in answers && r[b] == answers[b])
  {
    if bodies == [] then answers
    else
      var before, last := Recorded(answers, bodies[..|bodies| - 1], node), bodies[|bodies| - 1];
      assert bodies == bodies[..|bodies| - 1] + [last];
      if Fits(node(last)) then before[last := node(last)] else before
  }

  /** The head of the shopping list is the first question that went unanswered. */
  lemma FirstHole<V>(p: Program<V>, src: Source, c: History) returns (i: nat)
    requires IsRun(p, src, c) && Misses(p, c) != []
    ensures i < |c| && c[i] == Needed && p(c[..i]).request.body == Misses(p, c)[0]
    ensures forall j :: 0 <= j < i ==> c[j] != Needed
  {
    assert Misses(p, c)[0] in Misses(p, c);
    i := 0;
    while c[i] != Needed
      invariant i < |c|
      invariant forall j :: 0 <= j < i ==> c[j] != Needed
      invariant exists j :: i <= j < |c| && c[j] == Needed
      decreases |c| - i
    {
      i := i + 1;
    }
    NoHoles(p, c, i);
    MissesGrow(p, c, i + 1);
    assert c[..i + 1][..i] == c[..i];
    assert Misses(p, c[..i + 1]) == [p(c[..i]).request.body];
  }

  lemma {:induction false} NoHoles<V>(p: Program<V>, c: History, n: nat)
    requires n <= |c| && forall j :: 0 <= j < n ==> c[j] != Needed
    ensures Misses(p, c[..n]) == []
  {
    if n > 0 {
      assert c[..n][..n - 1] == c[..n - 1];
      NoHoles(p, c, n - 1);
    }
  }

  /** The first thing on the shopping list is the direct run's own next question, and it is new. */
  lemma FirstMiss<V>(p: Program<V>, answers: map<string, string>, node: string -> string, c: History, d: History)
    returns (i: nat)
    requires RespectsSentinel(p) && Agrees(answers, node)
    requires IsRun(p, Cached(answers), c) && IsRun(p, Live(node), d) && Misses(p, c) != []
    ensures i < |d| && p(d[..i]).Ask? && !p(d[..i]).request.writes
    ensures p(d[..i]).request.body == Misses(p, c)[0] && p(d[..i]).request.body !in answers
    ensures Covered(p, d, answers, i)
  {
    i := FirstHole(p, Cached(answers), c);
    CachedWalksDirect(p, answers, node, c, d, i + 1);
    forall k | 0 <= k < i
      ensures c[k] == d[k]
    {
      assert c[..i + 1][k] == c[k] && d[..i + 1][k] == d[k];
    }
    hide Misses, RespectsSentinel, Agrees;
    forall j | 0 <= j <= i
      ensures c[..j] == d[..j]
    {
    }
    forall j | 0 <= j < i && p(d[..j]).Ask?
      ensures p(d[..j]).request.writes || p(d[..j]).request.body in answers
    {
      assert c[j] == Answered(Cached(answers), p(c[..j]).request);
    }
  }

  /** Nothing is asked twice: the list is free of repeats and of everything already known. */
  lemma MissesAreNew<V>(p: Program<V>, answers: map<string, string>, c: History)
    requires IsRun(p, Cached(answers), c)
    ensures forall b :: b in Misses(p, c) ==> b !in answers
  {
  }

  /** Recording one round's list answers strictly more of the direct run. */
  lemma RecordingLengthensThePrefix<V>(p: Program<V>, answers: map<string, string>, node: string -> string, c: History, d: History)
    returns (i: nat)
    requires RespectsSentinel(p) && Agrees(answers, node)
    requires IsRun(p, Cached(answers), c) && IsRun(p, Live(node), d) && Misses(p, c) != []
    ensures Covered(p, d, answers, i) && !Covered(p, d, answers, i + 1)
    ensures Fits(node(Misses(p, c)[0])) ==> Covered(p, d, Recorded(answers, Misses(p, c), node), i + 1)
  {
    i := FirstMiss(p, answers, node, c, d);
  }
}
