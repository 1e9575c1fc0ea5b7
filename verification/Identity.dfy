/**
  A pending identity registration: anchoring it, polling it, and reading a referrer's own referrers.

  Every request a call makes is made at most once, so the node's answers to one call are one set of
  replies, which need not come from one moment of the chain. Script building is a parameter.
 */
module Identity {
  import opened Base

  const EXPIRING_SOON_THRESHOLD: nat := 3

  datatype FlowError = Node(code: int) | NotReady | CommitmentExpired(name: string, expiryHeight: nat, tip: nat) | BadScript

  datatype Reservation = Reservation(name: string, parent: seq<bv8>, referral: Option<seq<bv8>>, salt: seq<bv8>)

  /** Where the chain was when the commitment was handed out. */
  datatype Anchoring = Anchoring(height: nat, hash: string)

  datatype Record = Record(
    reservation: Reservation,
    commitmentHex: string,
    commitmentTxid: string,
    commitmentVout: nat,
    registrationFee: nat,
    referralLevels: nat,
    referralChain: seq<seq<bv8>>,
    primaryAddresses: seq<string>,
    minSigs: nat,
    systemId: seq<bv8>,
    changeAddress: string,
    revocationAuthority: Option<seq<bv8>>,
    recoveryAuthority: Option<seq<bv8>>,
    anchoredAt: Option<Anchoring>,
    expiryHeight: nat)

  datatype CommitmentStatus =
    | Waiting(confirmations: nat)
    | Ready(pending: Record)
    | Reorged
    | CommitmentGone
    | Expired(expiryHeight: nat, tip: nat)

  datatype Unsent = Unsent(hex: string, txid: string)

  /** The scripts of a transaction's outputs, where they can be read; nothing when it has no output list. */
  type Outputs = Option<seq<Option<string>>>

  datatype Replies = Replies(
    confirmations: Result<Option<nat>, FlowError>,
    blockCount: Result<nat, FlowError>,
    blockHash: nat -> Result<string, FlowError>,
    transaction: Result<Outputs, FlowError>)

  /** The script a commitment pays to, from the reservation and the change address. */
  type Script = (Reservation, string) -> Result<string, FlowError>

  // ---------------------------------------------------------------- expiry

  /** Too close to its expiry for a node to take. A recorded expiry of zero means that none was recorded. */
  predicate ExpiresSoon(expiryHeight: nat, tip: nat) {
    expiryHeight != 0 && SaturatingAdd(tip, EXPIRING_SOON_THRESHOLD) >= expiryHeight
  }

  predicate IsExpired(p: Record, tip: nat) {
    ExpiresSoon(p.expiryHeight, tip)
  }

  /** Exactly from three blocks before the expiry on, also at the top of the height range. */
  lemma ExpiredFromThreeBefore(p: Record, tip: nat)
    requires p.expiryHeight <= MAX_U32
    ensures IsExpired(p, tip) <==> p.expiryHeight != 0 && tip + EXPIRING_SOON_THRESHOLD >= p.expiryHeight
  {
  }

  // ---------------------------------------------------------------- polling, as a function

  /** The first output with that script. */
  function FirstWith(scripts: seq<Option<string>>, expected: string): (r: Option<nat>)
    ensures r.Some? ==> r.value < |scripts| && scripts[r.value] == Some(expected) && Some(expected) !in scripts[..r.value]
    ensures r.None? ==> Some(expected) !in scripts
  {
    if scripts == [] then None
    else
      var n := |scripts| - 1;
      var earlier := FirstWith(scripts[..n], expected);
      assert scripts == scripts[..n] + [scripts[n]];
      if earlier.Some? then
        assert scripts[..n][..earlier.value] == scripts[..earlier.value];
        earlier
      else if scripts[n] == Some(expected) then Some(n)
      else None
  }

  function Located(p: Record, r: Replies, script: Script): Result<nat, FlowError> {
    var expected := script(p.reservation, p.changeAddress);
    if expected.Err? then Err(expected.error)
    else if r.transaction.Err? then Err(r.transaction.error)
    else if r.transaction.value.None? then Err(NotReady)
    else
      var found := FirstWith(r.transaction.value.value, expected.value);
      if found.None? || found.value > MAX_U32 then Err(NotReady) else Ok(found.value)
  }

  /** Whether the chain moved under an anchored registration, when it can be told. */
  function Moved(p: Record, r: Replies): Result<bool, FlowError> {
    match p.anchoredAt
    case None => Ok(false)
    case Some(anchor) =>
      if r.blockCount.Err? then Err(r.blockCount.error)
      else if r.blockCount.value < anchor.height then Ok(true)
      else
        match r.blockHash(anchor.height)
        case Err(e) => Err(e)
        case Ok(now) => Ok(now != anchor.hash)
  }

  predicate Mined(r: Replies) {
    r.confirmations.Ok? && r.confirmations.value.Some? && r.confirmations.value.value > 0
  }

  /** What one poll answers. */
  function Polled(p: Record, r: Replies, script: Script): Result<CommitmentStatus, FlowError> {
    if r.confirmations.Err? then Err(r.confirmations.error)
    else if (p.anchoredAt.Some? || !Mined(r)) && r.blockCount.Err? then Err(r.blockCount.error)
    else if !Mined(r) && IsExpired(p, r.blockCount.value) then Ok(Expired(p.expiryHeight, r.blockCount.value))
    else if r.confirmations.value.None? then Ok(CommitmentGone)
    else if Moved(p, r).Err? then Err(Moved(p, r).error)
    else if Moved(p, r).value then Ok(Reorged)
    else if !Mined(r) then Ok(Waiting(0))
    else if Located(p, r, script).Err? then Err(Located(p, r, script).error)
    else Ok(Ready(p.(commitmentVout := Located(p, r, script).value)))
  }

  /** A registration is ready exactly when its commitment is in a block, the chain it was anchored on
      still stands, and some output carries the commitment; and then only the output index differs. */
  lemma ReadyExactlyWhen(p: Record, r: Replies, script: Script, q: Record)
    ensures Polled(p, r, script) == Ok(Ready(q)) <==>
      && r.confirmations.Ok? && r.confirmations.value.Some? && r.confirmations.value.value >= 1
      && (p.anchoredAt.Some? ==>
            && r.blockCount.Ok? && r.blockCount.value >= p.anchoredAt.value.height
            && r.blockHash(p.anchoredAt.value.height) == Ok(p.anchoredAt.value.hash))
      && Located(p, r, script).Ok?
      && q == p.(commitmentVout := Located(p, r, script).value)
  {
    hide Located;
  }

  /** And the output named is the first that carries the script of this very reservation. */
  lemma LocatedCarriesTheCommitment(p: Record, r: Replies, script: Script)
    requires Located(p, r, script).Ok?
    ensures var vout := Located(p, r, script).value;
      && vout <= MAX_U32
      && r.transaction.Ok? && r.transaction.value.Some? && vout < |r.transaction.value.value|
      && script(p.reservation, p.changeAddress).Ok?
      && r.transaction.value.value[vout] == Some(script(p.reservation, p.changeAddress).value)
      && r.transaction.value.value[vout] !in r.transaction.value.value[..vout]
  {
    hide FirstWith;
  }

  /** Once expired and not mined, every later poll at that height or above says so again, whatever else the node answers. */
  lemma ExpiredStaysExpired(p: Record, first: Replies, later: Replies, script: Script)
    requires Polled(p, first, script).Ok? && Polled(p, first, script).value.Expired?
    requires later.confirmations.Ok? && !Mined(later)
    requires later.blockCount.Ok? && later.blockCount.value >= first.blockCount.value
    ensures Polled(p, later, script) == Ok(Expired(p.expiryHeight, later.blockCount.value))
  {
  }

  /** When the node confirms the commitment, the poll never answers expired, gone or waiting. */
  lemma MinedIsSettled(p: Record, r: Replies, script: Script)
    requires Mined(r) && Polled(p, r, script).Ok?
    ensures Polled(p, r, script).value.Ready? || Polled(p, r, script).value.Reorged?
  {
    hide Located;
  }

  // ---------------------------------------------------------------- the pending registration

  class Pending {
    const reservation: Reservation
    const commitmentHex: string
    const commitmentTxid: string
    const commitmentVout: nat
    const registrationFee: nat
    const referralLevels: nat
    const referralChain: seq<seq<bv8>>
    const primaryAddresses: seq<string>
    const minSigs: nat
    const systemId: seq<bv8>
    const changeAddress: string
    const revocationAuthority: Option<seq<bv8>>
    const recoveryAuthority: Option<seq<bv8>>
    const expiryHeight: nat
    var anchoredAt: Option<Anchoring>

    constructor (p: Record)
      ensures State() == p
    {
      reservation, commitmentHex, commitmentTxid, commitmentVout := p.reservation, p.commitmentHex, p.commitmentTxid, p.commitmentVout;
      registrationFee, referralLevels, referralChain := p.registrationFee, p.referralLevels, p.referralChain;
      primaryAddresses, minSigs, systemId, changeAddress := p.primaryAddresses, p.minSigs, p.systemId, p.changeAddress;
      revocationAuthority, recoveryAuthority := p.revocationAuthority, p.recoveryAuthority;
      anchoredAt, expiryHeight := p.anchoredAt, p.expiryHeight;
    }

    /** Everything the registration holds; a transition to the next state carries all of it over. */
    function State(): Record
      reads this`anchoredAt
    {
      Record(reservation, commitmentHex, commitmentTxid, commitmentVout, registrationFee, referralLevels, referralChain,
             primaryAddresses, minSigs, systemId, changeAddress, revocationAuthority, recoveryAuthority, anchoredAt, expiryHeight)
    }

    /** Records where the chain is and hands out the signed bytes; refuses an expired commitment without touching the anchor. */
    method Anchor(r: Replies) returns (result: Result<Unsent, FlowError>)
      modifies this`anchoredAt
      ensures (State(), result) == Anchored(old(State()), r)
    {
      if r.blockCount.Err? {
        return Err(r.blockCount.error);
      }
      var height := r.blockCount.value;
      if IsExpired(State(), height) {
        return Err(CommitmentExpired(reservation.name, expiryHeight, height));
      }
      var hash := r.blockHash(height);
      if hash.Err? {
        return Err(hash.error);
      }
      anchoredAt := Some(Anchoring(height, hash.value));
      return Ok(Unsent(commitmentHex, commitmentTxid));
    }

    method CheckForReorg(r: Replies, known: Option<nat>) returns (result: Result<bool, FlowError>)
      requires known.Some? ==> r.blockCount == Ok(known.value)
      ensures result == Moved(State(), r)
    {
      if anchoredAt.None? {
        return Ok(false);
      }
      var tip: nat;
      if known.Some? {
        tip := known.value;
      } else if r.blockCount.Err? {
        return Err(r.blockCount.error);
      } else {
        tip := r.blockCount.value;
      }
      var anchor := anchoredAt.value;
      if tip < anchor.height {
        return Ok(true);
      }
      var now := r.blockHash(anchor.height);
      if now.Err? {
        return Err(now.error);
      }
      return Ok(now.value != anchor.hash);
    }

    method LocateCommitment(r: Replies, script: Script) returns (result: Result<nat, FlowError>)
      ensures result == Located(State(), r, script)
    {
      hide FirstWith;
      var expected := script(reservation, changeAddress);
      if expected.Err? {
        return Err(expected.error);
      }
      if r.transaction.Err? {
        return Err(r.transaction.error);
      }
      if r.transaction.value.None? {
        return Err(NotReady);
      }
      var outputs := r.transaction.value.value;
      for index := 0 to |outputs|
        invariant Some(expected.value) !in outputs[..index]
      {
        if outputs[index] == Some(expected.value) {
          FirstWithIs(outputs, expected.value, index);
          return if index > MAX_U32 then Err(NotReady) else Ok(index);
        }
        assert outputs[..index + 1] == outputs[..index] + [outputs[index]];
      }
      assert outputs[..|outputs|] == outputs;
      return Err(NotReady);
    }

    method Poll(r: Replies, script: Script) returns (result: Result<CommitmentStatus, FlowError>)
      ensures result == Polled(State(), r, script)
    {
      hide Located, IsExpired;
      if r.confirmations.Err? {
        return Err(r.confirmations.error);
      }
      var confirmations := r.confirmations.value;
      var mined := confirmations.Some? && confirmations.value > 0;
      var tip: Option<nat> := None;
      if anchoredAt.Some? || !mined {
        if r.blockCount.Err? {
          return Err(r.blockCount.error);
        }
        tip := Some(r.blockCount.value);
      }
      if !mined && tip.Some? && IsExpired(State(), tip.value) {
        return Ok(Expired(expiryHeight, tip.value));
      }
      if confirmations.None? {
        return Ok(CommitmentGone);
      }
      var moved := CheckForReorg(r, tip);
      if moved.Err? {
        return Err(moved.error);
      }
      if moved.value {
        return Ok(Reorged);
      }
      if confirmations.value == 0 {
        return Ok(Waiting(confirmations.value));
      }
      var vout := LocateCommitment(r, script);
      if vout.Err? {
        return Err(vout.error);
      }
      var ready := State();
      return Ok(Ready(ready.(commitmentVout := vout.value)));
    }

    /** Polls until something other than waiting is answered, at most `maxPolls` times. */
    method WaitBlocking(maxPolls: nat, replies: nat -> Replies, script: Script)
      returns (result: Result<CommitmentStatus, FlowError>)
      ensures result == Waited(State(), maxPolls, replies, script)
    {
      hide Polled;
      for attempt := 0 to maxPolls
        invariant forall i :: 0 <= i < attempt ==> KeepsWaiting(Polled(State(), replies(i), script))
      {
        var status := Poll(replies(attempt), script);
        if !KeepsWaiting(status) {
          WaitedIs(State(), maxPolls, replies, script, attempt);
          return status;
        }
      }
      WaitedThrough(State(), maxPolls, replies, script);
      return Ok(Waiting(0));
    }
  }

  /** What anchoring leaves and answers. */
  function Anchored(p: Record, r: Replies): (Record, Result<Unsent, FlowError>) {
    if r.blockCount.Err? then (p, Err(r.blockCount.error))
    else if IsExpired(p, r.blockCount.value) then
      (p, Err(CommitmentExpired(p.reservation.name, p.expiryHeight, r.blockCount.value)))
    else
      match r.blockHash(r.blockCount.value)
      case Err(e) => (p, Err(e))
      case Ok(hash) =>
        (p.(anchoredAt := Some(Anchoring(r.blockCount.value, hash))), Ok(Unsent(p.commitmentHex, p.commitmentTxid)))
  }

  lemma FirstWithIs(scripts: seq<Option<string>>, expected: string, k: nat)
    requires k < |scripts| && scripts[k] == Some(expected) && Some(expected) !in scripts[..k]
    ensures FirstWith(scripts, expected) == Some(k)
  {
    hide FirstWith;
    var found := FirstWith(scripts, expected);
    assert forall j :: 0 <= j < k ==> scripts[j] == scripts[..k][j];
    assert found.Some?;
    assert forall j :: 0 <= j < found.value ==> scripts[j] == scripts[..found.value][j];
  }

  predicate KeepsWaiting(status: Result<CommitmentStatus, FlowError>) {
    status.Ok? && status.value.Waiting?
  }

  /** The first answer that is not a wait, among the first `maxPolls`; otherwise still waiting. */
  function Waited(p: Record, maxPolls: nat, replies: nat -> Replies, script: Script): Result<CommitmentStatus, FlowError> {
    WaitedFrom(p, 0, maxPolls, replies, script)
  }

  function WaitedFrom(p: Record, attempt: nat, maxPolls: nat, replies: nat -> Replies, script: Script): Result<CommitmentStatus, FlowError>
    decreases maxPolls - attempt
  {
    if attempt >= maxPolls then Ok(Waiting(0))
    else
      var status := Polled(p, replies(attempt), script);
      if KeepsWaiting(status) then WaitedFrom(p, attempt + 1, maxPolls, replies, script) else status
  }

  lemma {:induction false} WaitedSkips(p: Record, attempt: nat, until: nat, maxPolls: nat, replies: nat -> Replies, script: Script)
    requires attempt <= until <= maxPolls
    requires forall i :: attempt <= i < until ==> KeepsWaiting(Polled(p, replies(i), script))
    ensures WaitedFrom(p, attempt, maxPolls, replies, script) == WaitedFrom(p, until, maxPolls, replies, script)
    decreases until - attempt
  {
    hide Polled, KeepsWaiting;
    if attempt < until {
      WaitedSkips(p, attempt + 1, until, maxPolls, replies, script);
    }
  }

  lemma WaitedIs(p: Record, maxPolls: nat, replies: nat -> Replies, script: Script, k: nat)
    requires k < maxPolls && !KeepsWaiting(Polled(p, replies(k), script))
    requires forall i :: 0 <= i < k ==> KeepsWaiting(Polled(p, replies(i), script))
    ensures Waited(p, maxPolls, replies, script) == Polled(p, replies(k), script)
  {
    hide Polled, KeepsWaiting;
    WaitedSkips(p, 0, k, maxPolls, replies, script);
  }

  lemma WaitedThrough(p: Record, maxPolls: nat, replies: nat -> Replies, script: Script)
    requires forall i :: 0 <= i < maxPolls ==> KeepsWaiting(Polled(p, replies(i), script))
    ensures Waited(p, maxPolls, replies, script) == Ok(Waiting(0))
  {
    hide Polled, KeepsWaiting;
    WaitedSkips(p, 0, maxPolls, maxPolls, replies, script);
  }
}
