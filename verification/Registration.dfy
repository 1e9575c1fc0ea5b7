/**
  Whole runs of a registration against a chain that mines, drops, advances and reorganises.

  The world moves by events; the caller anchors and polls. A call makes its requests one after the
  other, and any events may happen between them, so each request is answered at its own moment.
 */
module Registration {
  import opened Base
  import opened Identity

  // ---------------------------------------------------------------- what the caller holds

  /** A call on the registration, with the answers its requests got, whatever they were. */
  datatype Call = Anchors(replies: Replies) | Polls(replies: Replies)

  /** The registration after some calls. Polling reads it; anchoring may write the anchor. */
  function Held(p: Record, calls: seq<Call>): Record {
    if calls == [] then p
    else
      var before, last := Held(p, calls[..|calls| - 1]), calls[|calls| - 1];
      if last.Anchors? then Anchored(before, last.replies).0 else before
  }

  /** The last anchoring that went through. */
  function LastAnchor(p: Record, calls: seq<Call>): (r: Option<nat>)
    ensures r.Some? ==> r.value < |calls| && calls[r.value].Anchors?
    ensures r.Some? ==> Anchored(Held(p, calls[..r.value]), calls[r.value].replies).1.Ok?
  {
    if calls == [] then None
    else
      var n := |calls| - 1;
      if calls[n].Anchors? && Anchored(Held(p, calls[..n]), calls[n].replies).1.Ok? then Some(n)
      else
        var r := LastAnchor(p, calls[..n]);
        assert r.Some? ==> calls[..n][..r.value] == calls[..r.value];
        r
  }

  /** The height and the hash two requests of an anchoring answered. */
  function AnchoringOf(r: Replies): Option<Anchoring> {
    if r.blockCount.Err? || r.blockHash(r.blockCount.value).Err? then None
    else Some(Anchoring(r.blockCount.value, r.blockHash(r.blockCount.value).value))
  }

  /** What is held at any time is what was prepared, plus what the last anchoring that went through was told. */
  lemma {:induction false} HeldKeepsEverythingElse(p: Record, calls: seq<Call>)
    ensures var last := LastAnchor(p, calls);
      Held(p, calls) == p.(anchoredAt := if last.None? then p.anchoredAt else AnchoringOf(calls[last.value].replies))
    ensures LastAnchor(p, calls).Some? ==>
      var r := calls[LastAnchor(p, calls).value].replies;
      AnchoringOf(r).Some? && !IsExpired(p, r.blockCount.value)
  {
    hide IsExpired;
    if calls != [] {
      HeldKeepsEverythingElse(p, calls[..|calls| - 1]);
      ExpiryIsKept(p, calls[..|calls| - 1]);
    }
  }

  /**
    Over any calls: an anchoring goes through exactly when the node answers its height, the commitment has
    more than three blocks left or no expiry, and the node answers the hash; what it hands out are the
    signed bytes and the txid that were prepared. Otherwise the failure is the first of the three.
   */
  lemma AnchoringHandsOut(p: Record, calls: seq<Call>, j: nat)
    requires j < |calls| && calls[j].Anchors? && p.expiryHeight <= MAX_U32
    ensures var r, result := calls[j].replies, Anchored(Held(p, calls[..j]), calls[j].replies).1;
      var soon := r.blockCount.Ok? && p.expiryHeight != 0 && r.blockCount.value + 3 >= p.expiryHeight;
      && (result.Ok? <==> r.blockCount.Ok? && !soon && r.blockHash(r.blockCount.value).Ok?)
      && (result.Ok? ==> result.value.hex == p.commitmentHex && result.value.txid == p.commitmentTxid)
      && (r.blockCount.Err? ==> result == Err(r.blockCount.error))
      && (soon ==> result == Err(CommitmentExpired(p.reservation.name, p.expiryHeight, r.blockCount.value)))
      && (r.blockCount.Ok? && !soon && r.blockHash(r.blockCount.value).Err? ==>
            result == Err(r.blockHash(r.blockCount.value).error))
  {
    hide Held;
    ExpiryIsKept(p, calls[..j]);
  }

  lemma {:induction false} ExpiryIsKept(p: Record, calls: seq<Call>)
    ensures Held(p, calls) == p.(anchoredAt := Held(p, calls).anchoredAt)
    ensures forall tip: nat :: IsExpired(Held(p, calls), tip) == IsExpired(p, tip)
  {
    if calls != [] {
      ExpiryIsKept(p, calls[..|calls| - 1]);
    }
  }

  /**
    Once a poll said expired, the registration stays refused for the rest of its life, whatever was
    called in between: every later poll that finds it unmined at that height or above says expired
    again, and every later anchoring at such a height is refused with the anchor as it was.
   */
  lemma ExpiredForGood(p: Record, calls: seq<Call>, k: nat, j: nat, script: Script)
    requires k < j < |calls| && calls[k].Polls?
    requires var said := Polled(Held(p, calls[..k]), calls[k].replies, script); said.Ok? && said.value.Expired?
    requires calls[j].replies.blockCount.Ok?
    requires calls[j].replies.blockCount.value >= Polled(Held(p, calls[..k]), calls[k].replies, script).value.tip
    ensures calls[j].Polls? && calls[j].replies.confirmations.Ok? && !Mined(calls[j].replies) ==>
      Polled(Held(p, calls[..j]), calls[j].replies, script)
        == Ok(Expired(p.expiryHeight, calls[j].replies.blockCount.value))
    ensures calls[j].Anchors? ==>
      && Anchored(Held(p, calls[..j]), calls[j].replies)
        == (Held(p, calls[..j]),
            Err(CommitmentExpired(p.reservation.name, p.expiryHeight, calls[j].replies.blockCount.value)))
      && Held(p, calls[..j + 1]) == Held(p, calls[..j])
  {
    hide Held, Polled, Anchored, IsExpired, Mined;
    var said := Polled(Held(p, calls[..k]), calls[k].replies, script).value;
    ExpiryIsKept(p, calls[..k]);
    ExpiryIsKept(p, calls[..j]);
    SaidExpired(Held(p, calls[..k]), calls[k].replies, script);
    if calls[j].Polls? {
      PollRefusesExpired(Held(p, calls[..j]), calls[j].replies, said.tip, script);
    } else {
      AnchorRefusesExpired(Held(p, calls[..j]), calls[j].replies, said.tip);
      assert calls[..j + 1][..j] == calls[..j];
      HeldNext(p, calls[..j + 1]);
    }
  }

  lemma SaidExpired(p: Record, r: Replies, script: Script)
    requires var said := Polled(p, r, script); said.Ok? && said.value.Expired?
    ensures IsExpired(p, Polled(p, r, script).value.tip)
  {
    hide Located, IsExpired;
  }

  /** An expired commitment that is not mined is reported so at that height and every higher one, whatever else the node answers. */
  lemma PollRefusesExpired(p: Record, r: Replies, tip: nat, script: Script)
    requires IsExpired(p, tip) && r.blockCount.Ok? && r.blockCount.value >= tip
    ensures r.confirmations.Ok? && !Mined(r) ==> Polled(p, r, script) == Ok(Expired(p.expiryHeight, r.blockCount.value))
  {
    hide Located;
  }

  /** And it is refused by every anchoring there, with the anchor left as it was. */
  lemma AnchorRefusesExpired(p: Record, r: Replies, tip: nat)
    requires IsExpired(p, tip) && r.blockCount.Ok? && r.blockCount.value >= tip
    ensures Anchored(p, r) == (p, Err(CommitmentExpired(p.reservation.name, p.expiryHeight, r.blockCount.value)))
  {
  }

  lemma HeldNext(p: Record, calls: seq<Call>)
    requires calls != []
    ensures var before, last := Held(p, calls[..|calls| - 1]), calls[|calls| - 1];
      Held(p, calls) == if last.Anchors? then Anchored(before, last.replies).0 else before
  {
  }

  // ---------------------------------------------------------------- the world

  /** A block, and whether it holds the commitment transaction. */
  datatype Block = Block(hash: string, holds: bool)

  /** The chain and the mempool as the node has them. */
  datatype World = World(chain: seq<Block>, pooled: bool)

  datatype Event = Relay | Drop | Mine(hash: string) | Advance(hash: string) | Reorg(keep: nat, tail: seq<Block>)

  ghost predicate Valid(w: World) {
    0 < |w.chain| <= MAX_U32 + 1
  }

  function Tip(w: World): int {
    |w.chain| - 1
  }

  /** The last block that holds the commitment. */
  function HeldAt(chain: seq<Block>): (r: Option<nat>)
    ensures r.Some? ==> r.value < |chain| && chain[r.value].holds
    ensures r.None? ==> forall i :: 0 <= i < |chain| ==> !chain[i].holds
  {
    if chain == [] then None
    else if chain[|chain| - 1].holds then Some(|chain| - 1)
    else HeldAt(chain[..|chain| - 1])
  }

  /** Consensus: a block above the recorded expiry cannot hold the commitment. */
  predicate InTime(chain: seq<Block>, expiryHeight: nat) {
    expiryHeight != 0 ==> forall i :: 0 <= i < |chain| && chain[i].holds ==> i <= expiryHeight
  }

  /** Whether the chain can go that way: from genesis on it stays, heights fit, and consensus holds. */
  predicate Reorganises(w: World, keep: nat, tail: seq<Block>, expiryHeight: nat) {
    0 < keep <= |w.chain| && keep + |tail| <= MAX_U32 + 1 && InTime(w.chain[..keep] + tail, expiryHeight)
  }

  /** One event, for a commitment of that expiry; an event that cannot happen leaves everything as it is.
      A node takes no transaction that is about to expire, and keeps one it took earlier. */
  function Next(w: World, e: Event, expiryHeight: nat): (r: World)
    requires Valid(w)
    ensures Valid(r)
  {
    match e
    case Relay => if ExpiresSoon(expiryHeight, Tip(w)) then w else w.(pooled := true)
    case Drop => w.(pooled := false)
    case Mine(hash) =>
      var chain := w.chain + [Block(hash, true)];
      if w.pooled && |chain| <= MAX_U32 + 1 && HeldAt(w.chain).None? && InTime(chain, expiryHeight)
      then World(chain, false) else w
    case Advance(hash) =>
      if |w.chain| <= MAX_U32 then w.(chain := w.chain + [Block(hash, false)]) else w
    case Reorg(keep, tail) =>
      if Reorganises(w, keep, tail, expiryHeight) then w.(chain := w.chain[..keep] + tail) else w
  }

  function After(w: World, events: seq<Event>, expiryHeight: nat): (r: World)
    requires Valid(w)
    ensures Valid(r)
  {
    if events == [] then w
    else Next(After(w, events[..|events| - 1], expiryHeight), events[|events| - 1], expiryHeight)
  }

  lemma {:induction false} HeldInTime(w: World, events: seq<Event>, expiryHeight: nat)
    requires Valid(w) && InTime(w.chain, expiryHeight)
    ensures InTime(After(w, events, expiryHeight).chain, expiryHeight)
  {
    hide HeldAt, ExpiresSoon;
    if events != [] {
      HeldInTime(w, events[..|events| - 1], expiryHeight);
    }
  }

  // ---------------------------------------------------------------- requests, each at its own moment

  function Confirmations(w: World): Option<nat> {
    var held := HeldAt(w.chain);
    if held.Some? then Some(|w.chain| - held.value) else if w.pooled then Some(0) else None
  }

  function HashAt(chain: seq<Block>, h: nat): Result<string, FlowError> {
    if h < |chain| then Ok(chain[h].hash) else Err(Node(-8))
  }

  /** The moments of one call's requests, as numbers of events that had happened; all in the order asked. */
  datatype Moments = Moments(confirmations: nat, count: nat, hash: nat, transaction: nat)

  predicate InOrder(m: Moments, events: seq<Event>) {
    m.confirmations <= m.count <= m.hash <= m.transaction <= |events|
  }

  /** The world, its history and what the commitment transaction looks like. */
  datatype Run = Run(start: World, events: seq<Event>, expiryHeight: nat, outputs: Outputs)

  ghost predicate IsRun(run: Run) {
    Valid(run.start) && InTime(run.start.chain, run.expiryHeight)
  }

  function At(run: Run, moment: nat): World
    requires Valid(run.start) && moment <= |run.events|
  {
    After(run.start, run.events[..moment], run.expiryHeight)
  }

  /** What the node answers when each request is made at its own moment. */
  function RepliesDuring(run: Run, m: Moments): Replies
    requires Valid(run.start) && InOrder(m, run.events)
  {
    var chain, last := At(run, m.hash).chain, At(run, m.transaction);
    Replies(
      Ok(Confirmations(At(run, m.confirmations))),
      Ok(Tip(At(run, m.count))),
      (h: nat) => HashAt(chain, h),
      if HeldAt(last.chain).Some? || last.pooled then Ok(run.outputs) else Err(Node(-5)))
  }

  /** Calls made during a run, every request of each answered by the world of its moment. */
  ghost predicate MadeDuring(run: Run, calls: seq<Call>, times: seq<Moments>)
    requires Valid(run.start)
  {
    && |calls| == |times|
    && forall i :: 0 <= i < |calls| ==> InOrder(times[i], run.events) && calls[i].replies == RepliesDuring(run, times[i])
  }

  /** Block hashes commit to everything before them. */
  ghost predicate HashFixesPrefix(a: seq<Block>, b: seq<Block>) {
    forall h :: 0 <= h < |a| && h < |b| && a[h].hash == b[h].hash ==> a[..h + 1] == b[..h + 1]
  }

  /** What an anchoring that went through recorded: a tip, and the hash of that very height a moment later. */
  ghost predicate AnchoredDuring(run: Run, t: Moments, a: Anchoring)
    requires Valid(run.start) && InOrder(t, run.events)
  {
    && a.height == Tip(At(run, t.count))
    && HashAt(At(run, t.hash).chain, a.height) == Ok(a.hash)
    && !ExpiresSoon(run.expiryHeight, a.height)
  }

  lemma AnchorsAreTrue(p: Record, run: Run, calls: seq<Call>, times: seq<Moments>)
    requires IsRun(run) && MadeDuring(run, calls, times) && p.expiryHeight == run.expiryHeight && p.anchoredAt == None
    ensures Held(p, calls) == p.(anchoredAt := Held(p, calls).anchoredAt)
    ensures Held(p, calls).anchoredAt.Some? <==> LastAnchor(p, calls).Some?
    ensures LastAnchor(p, calls).Some? ==>
      AnchoredDuring(run, times[LastAnchor(p, calls).value], Held(p, calls).anchoredAt.value)
  {
    hide Held, LastAnchor, After, HeldAt, ExpiresSoon;
    HeldKeepsEverythingElse(p, calls);
  }

  /**
    Registration safety, over every run and every interleaving of the world with the requests of a call:
    when a poll says ready, the commitment was in a block, no later than its expiry, at the moment the
    confirmations were asked for; the chain reached the anchored height and held the anchored hash at the
    moments those were asked for, so up to there it was the chain anchored on; the output named carries
    this reservation's script; and every other field, salt included, is the prepared one.
   */
  lemma ReadyIsSafe(p: Record, run: Run, calls: seq<Call>, times: seq<Moments>, m: Moments, script: Script, q: Record)
    requires IsRun(run) && MadeDuring(run, calls, times) && p.expiryHeight == run.expiryHeight && p.anchoredAt == None
    requires InOrder(m, run.events) && Polled(Held(p, calls), RepliesDuring(run, m), script) == Ok(Ready(q))
    ensures q == p.(commitmentVout := q.commitmentVout, anchoredAt := q.anchoredAt)
    ensures var held := HeldAt(At(run, m.confirmations).chain);
      held.Some? && (p.expiryHeight != 0 ==> held.value <= p.expiryHeight)
    ensures HeldAt(At(run, m.transaction).chain).Some? || At(run, m.transaction).pooled
    ensures run.outputs.Some? && q.commitmentVout < |run.outputs.value|
      && script(p.reservation, p.changeAddress).Ok?
      && run.outputs.value[q.commitmentVout] == Some(script(p.reservation, p.changeAddress).value)
    ensures q.anchoredAt.Some? <==> LastAnchor(p, calls).Some?
    ensures q.anchoredAt.Some? ==>
      var t, a := times[LastAnchor(p, calls).value], q.anchoredAt.value;
      var past, now := At(run, t.hash).chain, At(run, m.hash).chain;
      && AnchoredDuring(run, t, a)
      && Tip(At(run, m.count)) >= a.height
      && HashAt(now, a.height) == Ok(a.hash)
      && (HashFixesPrefix(past, now) ==> past[..a.height + 1] == now[..a.height + 1])
  {
    hide Held, LastAnchor, After, HeldAt, Located, ExpiresSoon;
    AnchorsAreTrue(p, run, calls, times);
    HeldInTime(run.start, run.events[..m.confirmations], run.expiryHeight);
    var r := RepliesDuring(run, m);
    ReadyExactlyWhen(Held(p, calls), r, script, q);
    LocatedCarriesTheCommitment(Held(p, calls), r, script);
    ConfirmationsAre(At(run, m.confirmations));
  }

  /** Whether the anchor no longer stands: the tip was below it when asked for, or its height held another hash when that was. */
  predicate AnchorMoved(p: Record, run: Run, m: Moments)
    requires Valid(run.start) && InOrder(m, run.events)
  {
    match p.anchoredAt
    case None => false
    case Some(anchor) =>
      Tip(At(run, m.count)) < anchor.height
      || !(anchor.height < |At(run, m.hash).chain| && At(run, m.hash).chain[anchor.height].hash == anchor.hash)
  }

  /**
    What each answer of a poll means, for every run and interleaving: which one it is depends on whether
    the commitment was in a block or in the mempool when the confirmations were asked for, on how many
    blocks its expiry was away when the tip was, and on whether the anchor still stood.
   */
  lemma PollIsTrue(p: Record, run: Run, m: Moments, script: Script)
    requires Valid(run.start) && InOrder(m, run.events) && p.expiryHeight == run.expiryHeight <= MAX_U32
    requires Polled(p, RepliesDuring(run, m), script).Ok?
    ensures var status, asked := Polled(p, RepliesDuring(run, m), script).value, At(run, m.confirmations);
      var held, moved := HeldAt(asked.chain).Some?, AnchorMoved(p, run, m);
      var soon := p.expiryHeight != 0 && Tip(At(run, m.count)) + 3 >= p.expiryHeight;
      && (status.Expired? <==> !held && soon)
      && (status.CommitmentGone? <==> !held && !soon && !asked.pooled)
      && (status.Waiting? <==> !held && !soon && asked.pooled && !moved)
      && (status.Reorged? <==> (held || (!soon && asked.pooled)) && moved)
      && (status.Ready? <==> held && !moved)
      && (status.Expired? ==> status == Expired(p.expiryHeight, Tip(At(run, m.count))))
  {
    hide HeldAt, Located, At;
    ConfirmationsAre(At(run, m.confirmations));
  }

  lemma ConfirmationsAre(w: World)
    ensures Confirmations(w).Some? && Confirmations(w).value >= 1 <==> HeldAt(w.chain).Some?
    ensures Confirmations(w) == Some(0) <==> HeldAt(w.chain).None? && w.pooled
  {
  }

  /** A reorganisation that takes effect and drops the block at that height. */
  predicate CutsBelow(run: Run, k: nat, height: nat)
    requires Valid(run.start) && k < |run.events|
  {
    match run.events[k]
    case Reorg(keep, tail) => keep <= height && Reorganises(At(run, k), keep, tail, run.expiryHeight)
    case _ => false
  }

  /** An event that takes effect and puts the commitment into a block. */
  predicate MinesIt(run: Run, k: nat)
    requires Valid(run.start) && k < |run.events|
  {
    match run.events[k]
    case Mine(_) => At(run, k + 1) != At(run, k)
    case Reorg(keep, tail) => HeldAt(tail).Some? && Reorganises(At(run, k), keep, tail, run.expiryHeight)
    case _ => false
  }

  predicate NeverCut(run: Run, i: nat, j: nat, height: nat)
    requires Valid(run.start) && j <= |run.events|
  {
    forall k :: i <= k < j ==> !CutsBelow(run, k, height)
  }

  predicate NeverMined(run: Run, i: nat, j: nat)
    requires Valid(run.start) && j <= |run.events|
  {
    forall k :: i <= k < j ==> !MinesIt(run, k)
  }

  /** The block at that height holds the commitment, and no other does. */
  predicate HeldOnlyAt(chain: seq<Block>, height: nat) {
    height < |chain| && forall i :: 0 <= i < |chain| ==> (chain[i].holds <==> i == height)
  }

  lemma AtNext(run: Run, k: nat)
    requires Valid(run.start) && k < |run.events|
    ensures At(run, k + 1) == Next(At(run, k), run.events[k], run.expiryHeight)
  {
    assert run.events[..k + 1][..k] == run.events[..k];
  }

  /** A block that holds the commitment stays, unless a reorganisation cuts below it. */
  lemma {:induction false} StaysHeld(run: Run, i: nat, j: nat)
    requires Valid(run.start) && i <= j <= |run.events| && HeldAt(At(run, i).chain).Some?
    requires NeverCut(run, i, j, HeldAt(At(run, i).chain).value)
    ensures var h := HeldAt(At(run, i).chain).value;
      h < |At(run, j).chain| && At(run, j).chain[h] == At(run, i).chain[h]
    ensures HeldAt(At(run, j).chain).Some?
    decreases j
  {
    hide HeldAt, ExpiresSoon, InTime, After, At;
    if i < j {
      StaysHeld(run, i, j - 1);
      AtNext(run, j - 1);
      assert !CutsBelow(run, j - 1, HeldAt(At(run, i).chain).value);
    }
  }

  lemma StepOfUnheld(run: Run, k: nat)
    requires Valid(run.start) && k < |run.events| && HeldAt(At(run, k).chain).None? && !MinesIt(run, k)
    ensures HeldAt(At(run, k + 1).chain).None?
  {
    hide HeldAt, ExpiresSoon, InTime, After, At;
    AtNext(run, k);
  }

  lemma StepOfHeld(run: Run, k: nat, height: nat)
    requires Valid(run.start) && k < |run.events| && HeldOnlyAt(At(run, k).chain, height) && !MinesIt(run, k)
    ensures CutsBelow(run, k, height) ==> HeldAt(At(run, k + 1).chain).None?
    ensures !CutsBelow(run, k, height) ==> HeldOnlyAt(At(run, k + 1).chain, height)
  {
    hide HeldAt, ExpiresSoon, InTime, After, At;
    AtNext(run, k);
  }

  /** While nothing mines it again, it is held exactly as long as no reorganisation cuts it out. */
  lemma {:induction false} HeldUntilCut(run: Run, i: nat, j: nat, height: nat)
    requires Valid(run.start) && i <= j <= |run.events|
    requires HeldOnlyAt(At(run, i).chain, height) && NeverMined(run, i, j)
    ensures NeverCut(run, i, j, height) ==> HeldOnlyAt(At(run, j).chain, height)
    ensures !NeverCut(run, i, j, height) ==> HeldAt(At(run, j).chain).None?
    decreases j
  {
    hide HeldAt, HeldOnlyAt, MinesIt, CutsBelow, After, At;
    if i < j {
      HeldUntilCut(run, i, j - 1, height);
      assert !MinesIt(run, j - 1);
      if NeverCut(run, i, j - 1, height) {
        StepOfHeld(run, j - 1, height);
      } else {
        StepOfUnheld(run, j - 1);
      }
    }
  }

  /**
    So what a poll called ready is still in the chain when it returns, if no reorganisation cut it out
    while the poll ran; and, the commitment being in one block and not mined again meanwhile, only then.
   */
  lemma ReadyStands(p: Record, run: Run, calls: seq<Call>, times: seq<Moments>, m: Moments, script: Script, q: Record)
    requires IsRun(run) && MadeDuring(run, calls, times) && p.expiryHeight == run.expiryHeight && p.anchoredAt == None
    requires InOrder(m, run.events) && Polled(Held(p, calls), RepliesDuring(run, m), script) == Ok(Ready(q))
    ensures HeldAt(At(run, m.confirmations).chain).Some?
    ensures var height := HeldAt(At(run, m.confirmations).chain).value;
      var stands, uncut := HeldAt(At(run, m.transaction).chain).Some?, NeverCut(run, m.confirmations, m.transaction, height);
      && (uncut ==> stands)
      && (HeldOnlyAt(At(run, m.confirmations).chain, height) && NeverMined(run, m.confirmations, m.transaction)
          ==> (stands <==> uncut))
  {
    hide Held, LastAnchor, After, At, HeldAt, HeldOnlyAt, NeverCut, NeverMined, Polled, HashFixesPrefix;
    ReadyIsSafe(p, run, calls, times, m, script, q);
    var height := HeldAt(At(run, m.confirmations).chain).value;
    if NeverCut(run, m.confirmations, m.transaction, height) {
      StaysHeld(run, m.confirmations, m.transaction);
    } else if HeldOnlyAt(At(run, m.confirmations).chain, height) && NeverMined(run, m.confirmations, m.transaction) {
      HeldUntilCut(run, m.confirmations, m.transaction, height);
    }
  }

  /**
    Otherwise it need not be: with a reorganisation above the anchor between the first request and the
    others, and the commitment back in the mempool, a poll says ready for one that is in no block.
   */
  lemma ReadyCanBeStale(p: Record, text: string)
    requires (p.anchoredAt == None || p.anchoredAt == Some(Anchoring(0, ""))) && p.expiryHeight == 0
    ensures var script: Script := (_, _) => Ok(text);
      var run := Run(World([Block("", false), Block(text, true)], false), [Reorg(1, []), Relay], 0, Some([Some(text)]));
      var m := Moments(0, 2, 2, 2);
      && IsRun(run)
      && Polled(p, RepliesDuring(run, m), script) == Ok(Ready(p.(commitmentVout := 0)))
      && HeldAt(At(run, 2).chain).None?
  {
    var run := Run(World([Block("", false), Block(text, true)], false), [Reorg(1, []), Relay], 0, Some([Some(text)]));
    var cut := World([Block("", false)], false);
    assert run.events[..2][..1] == [Reorg(1, [])] && run.events[..0] == [] && [Reorg(1, [])][..0] == [];
    assert run.start.chain[..1] + [] == cut.chain;
    assert After(run.start, [Reorg(1, [])], 0) == cut;
    assert At(run, 2) == cut.(pooled := true);
    assert cut.chain[..0] == [] && HeldAt(cut.chain).None?;
    assert HeldAt(run.start.chain) == Some(1);
    assert [Some(text)][..0] == [] && FirstWith([Some(text)], text) == Some(0);
  }

  // ---------------------------------------------------------------- how final "expired" is

  predicate Forward(events: seq<Event>) {
    forall i :: 0 <= i < |events| ==> !events[i].Reorg?
  }

  /** Nothing can mine it: it is past its expiry, or no node has it and none takes it any more. */
  predicate Hopeless(w: World, expiryHeight: nat) {
    && HeldAt(w.chain).None? && expiryHeight != 0
    && (Tip(w) >= expiryHeight || (!w.pooled && 0 <= Tip(w) && ExpiresSoon(expiryHeight, Tip(w))))
  }

  lemma StaysHopeless(w: World, e: Event, expiryHeight: nat)
    requires Valid(w) && Hopeless(w, expiryHeight) && !e.Reorg?
    ensures Hopeless(Next(w, e, expiryHeight), expiryHeight)
  {
    if e.Mine? {
      var chain := w.chain + [Block(e.hash, true)];
      assert chain[|chain| - 1].holds;
    } else if e.Advance? {
      var chain := w.chain + [Block(e.hash, false)];
      assert chain[..|chain| - 1] == w.chain;
    }
  }

  lemma {:induction false} HopelessForGood(w: World, events: seq<Event>, expiryHeight: nat)
    requires Valid(w) && Hopeless(w, expiryHeight) && Forward(events)
    ensures Hopeless(After(w, events, expiryHeight), expiryHeight)
  {
    hide Hopeless, Next;
    if events != [] {
      var n := |events| - 1;
      HopelessForGood(w, events[..n], expiryHeight);
      assert !events[n].Reorg?;
      StaysHopeless(After(w, events[..n], expiryHeight), events[n], expiryHeight);
    }
  }

  lemma MinableInTime(w: World, hash: string, expiryHeight: nat)
    requires Valid(w) && HeldAt(w.chain).None? && expiryHeight <= MAX_U32
    requires w.pooled && Tip(w) < expiryHeight
    ensures HeldAt(After(w, [Mine(hash)], expiryHeight).chain).Some?
  {
    hide ExpiresSoon;
    assert [Mine(hash)][..0] == [];
    var chain := w.chain + [Block(hash, true)];
    assert chain[|chain| - 1].holds;
    assert forall i :: 0 <= i < |w.chain| ==> chain[i] == w.chain[i];
  }

  /**
    "Expired" is announced three blocks early, and from confirmations read before the tip, so it is not
    final by itself. A commitment reported expired gets into a block, with no reorganisation at all,
    exactly when it had already got into one by the time the tip was read, or the node then still had
    it in its mempool and the tip was below its expiry.
   */
  lemma ExpiredIsFinalIff(p: Record, run: Run, m: Moments, script: Script)
    requires Valid(run.start) && InOrder(m, run.events) && p.expiryHeight == run.expiryHeight <= MAX_U32
    requires var said := Polled(p, RepliesDuring(run, m), script); said.Ok? && said.value.Expired?
    ensures var w := At(run, m.count);
      (exists events: seq<Event> :: Forward(events) && HeldAt(After(w, events, p.expiryHeight).chain).Some?)
      <==> HeldAt(w.chain).Some? || (w.pooled && Tip(w) < p.expiryHeight)
  {
    var w := At(run, m.count);
    ExpiredPoll(p, run, m, script);
    hide At, After, HeldAt, ExpiresSoon, Polled;
    if HeldAt(w.chain).Some? {
      AfterNothing(w, p.expiryHeight);
      assert Forward([]);
    } else if w.pooled && Tip(w) < p.expiryHeight {
      MinableInTime(w, "", p.expiryHeight);
      assert Forward([Mine("")]);
    } else {
      forall events: seq<Event> | Forward(events)
        ensures HeldAt(After(w, events, p.expiryHeight).chain).None?
      {
        HopelessForGood(w, events, p.expiryHeight);
      }
    }
  }

  lemma AfterNothing(w: World, expiryHeight: nat)
    requires Valid(w)
    ensures After(w, [], expiryHeight) == w
  {
  }

  lemma ExpiredPoll(p: Record, run: Run, m: Moments, script: Script)
    requires Valid(run.start) && InOrder(m, run.events)
    requires var said := Polled(p, RepliesDuring(run, m), script); said.Ok? && said.value.Expired?
    ensures p.expiryHeight != 0 && ExpiresSoon(p.expiryHeight, Tip(At(run, m.count)))
  {
    hide HeldAt, Located, At;
  }

  /**
    The first of the two cases happens: relayed in time and mined in time, between the two requests of
    a poll, a commitment is reported expired when it has a confirmation.
   */
  lemma ExpiredCanBeMined(p: Record, outputs: Outputs, script: Script)
    requires p.expiryHeight == 4
    ensures var run := Run(World([Block("a", false)], false), [Relay, Mine("b")], 4, outputs);
      var m := Moments(1, 2, 2, 2);
      && IsRun(run)
      && Polled(p, RepliesDuring(run, m), script) == Ok(Expired(4, 1))
      && At(run, 2) == World([Block("a", false), Block("b", true)], false)
      && Confirmations(At(run, 2)) == Some(1)
  {
    var run := Run(World([Block("a", false)], false), [Relay, Mine("b")], 4, outputs);
    var pooled := run.start.(pooled := true);
    assert run.events[..2][..1] == [Relay] && run.events[..2] == run.events && run.events[..1] == [Relay] && [Relay][..0] == [];
    assert run.start.chain[..0] == [] && HeldAt(run.start.chain).None?;
    assert At(run, 1) == pooled;
    var chain := [Block("a", false), Block("b", true)];
    assert run.start.chain + [Block("b", true)] == chain;
    assert At(run, 2) == World(chain, false);
    assert HeldAt(chain) == Some(1);
  }
}
