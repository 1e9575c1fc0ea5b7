# Verus light wallet: a verified model

This project models, in Dafny, the parts of a light wallet SDK for the Verus chain that keep state,
parse untrusted bytes or run a protocol, and proves what they are for.

- **Shielded wallet** (`Chain`, `Scan`, `Wallet`, `Recovery`, `Lifetime`, `Unspent`, `Witness`). A
  chain is a hash-linked list of blocks; note positions are counted, not reported. Whatever way a
  wallet is scanned, extended, polled, rolled back and recovered, it describes the chain it last took
  blocks from, and with a full checkpoint window it is one fresh scan of it.
- **Re-execution driver** (`Cassette`, `TextBytes`, `Drive`, `Rounds`, `DrivenFlows`). An operation is a program
  from the answers so far to its next question. Driving it against a growing cache refines running it
  directly, and finishes within bounds that are proved, also for the two concrete operations.
- **Ledger folds** (`Funding`, `History`, `HistoryLaws`, `HistoryRows`). Funding is a partition read off
  heights and bytes, history conserves value, and the order of the rows does not matter exactly when no
  gain or loss exceeds 64 bits.
- **BIP-39** (`Bits`, `Phrases`, `Bip39`, `MnemonicNumbers`). Two packing loops, one bijection, one
  number. BIP-39, section "Generating the mnemonic".
- **Wire formats** (`Proto`, `Records`, `Messages`, `Refusals`, `CompactFormats`, `Frontier`, `Grpc`,
  `LightClient`, `StatusTexts`, `TreeStates`). Decoding is a fold over records and the inverse of the server's encoding, framing is
  uniquely invertible, a frontier's count is its leaves, and a block range is never silently short. Protocol Buffers Encoding guide, gRPC-Web framing, and section 3.8 of the
  Zcash Protocol Specification.
- **End to end** (`EndToEnd`, `WholeLife`). From the bytes of truthful servers to the reference
  wallet, for one scan and for a whole life.
- **Registration and login** (`Identity`, `Registration`, `Referrals`, `Digits`, `Login`). Registration
  safety over whole runs, and an injective login message.

`Base` holds options, results, integer bounds and sequence facts. Methods follow the loops and the
mutable fields of the source and are proved equal to functions; the lemmas are about those functions.

## What is assumed

- A server is *truthful* about a chain when its frontiers, blocks and counters are those of that chain
  (`Wallet.Honest`). The source re-anchors every chunk on the server's own frontier and does not compare
  frontiers across chunks, so exactness can be claimed for such a server only.
- Different block contents below a block give a different hash (`Chain.CollisionFree`,
  `Registration.HashFixesPrefix`).
- Trial decryption, nullifiers, canonical commitments, SHA-256, PBKDF2, the Pedersen hash, script
  building, UTF-8 decoding and the parsing of node replies are parameters. The word list is a parameter
  with 2048 words in increasing order.
- The node's answers are a fixed function of the request while an operation is driven, and an
  operation halts whatever it is told. A registration makes no such assumption: each request of an
  anchoring or a poll is answered at its own moment of the run.
- Lengths are those of a 64-bit platform.

## Where the code and its documentation differ

- The documented recovery loop doubles its distance, so from a full window of 200 checkpoints it only
  ever reaches 127 blocks back: a deeper fork is given up on although its checkpoint is kept
  (`Recovery.FullWindowReach`).
- `Expired` is documented as "can never be mined". It is announced three blocks early, and a node that
  still holds the commitment can mine it until the expiry. It also goes by confirmations read before the
  tip, so a commitment mined in between is reported expired when it is in a block
  (`Registration.ExpiredCanBeMined`). `Registration.ExpiredIsFinalIff` says exactly when it is final.
- A poll reads the confirmations first and the chain later. It can say ready for a commitment that a
  reorganisation above the anchor took out of the chain in between (`Registration.ReadyCanBeStale`);
  `Registration.ReadyStands` says exactly when it still is there.
- The referral walk is documented to end at the first output that is not a payment. An unreadable
  output or a second identity output does not end it, which shows when the cap is not reached before
  (`Referrals.FollowsTheRuleIff`).
- The order of its rows can decide whether a history overflows, for token amounts the reader accepts
  (`HistoryLaws.OverflowDependsOnOrder`); no order does exactly when all gains and all losses of each
  transaction fit 64 bits (`HistoryLaws.NeverOverflowsIff`).

## Model

| member | source | states |
|---|---|---|
| Chain.DetectConcat | crates/verus-flows/src/shielded.rs:8-13 | detecting notes in two adjoining runs of outputs, the second starting at the position where the first ends, is detecting in the joined run |
| Chain.OutputAt | crates/verus-flows/src/shielded.rs:616-637 | output o of transaction t of block b lands behind exactly the leaves before it, with its height and its indices |
| Chain.PlaceOf | crates/verus-flows/src/shielded.rs:616-637 | and every leaf is some output of some transaction of some block |
| Chain.SeenIffPublished | crates/verus-flows/src/shielded.rs:616-637 | a nullifier is seen at a height exactly when some transaction of some block of that height publishes it |
| Chain.ReportsIff | crates/verus-sapling/src/scan.rs:260-292 | detection is the one report of a run of outputs that is in tree order, has every output that opens once, and nothing else |
| Chain.OutputIsReported | crates/verus-sapling/src/scan.rs:265-292 | output by output: one that opens is reported once with its height, indices, position, value, recipient and its nullifier at that position; one that does not is not reported |
| Chain.DetectedAt | crates/verus-flows/src/shielded.rs:8-13 | a reported note lies in the run and carries the height and indices of the output at its position, what that opens to, and its nullifier there |
| Chain.AgreementIsPrefix | crates/verus-flows/src/shielded.rs:15-30 | two hash-linked chains that agree on one block hash agree on everything below it, barring hash collisions |
| Scan.DetectNotes | crates/verus-flows/src/shielded.rs:656-659 | the detection pass yields exactly the notes of the run, or nothing when some commitment is not canonical |
| Scan.Flatten | crates/verus-flows/src/shielded.rs:616-637 | nullifiers and outputs come out in block, transaction, output order, which is tree order |
| Scan.CheckLinks | crates/verus-flows/src/shielded.rs:589-611 | accepts exactly blocks that continue the previous hash and each other, with one checkpoint a block |
| Scan.ScanFollowing | crates/verus-flows/src/shielded.rs:525-677 | the chunked loop returns what the recursive definition of a scan returns, errors included |
| Scan.CarriesChunk | crates/verus-flows/src/shielded.rs:612-614 | trimming the checkpoints after every chunk is trimming once at the end |
| Scan.ChunkAcceptedIff | crates/verus-flows/src/shielded.rs:546-660 | for any server, a chunk is accepted exactly when two readings of the tree before it agree, its blocks are the whole range and link up, a reported tree size is right and all commitments are canonical; reorged exactly when only the links fail to hold |
| Scan.AcceptedScanIsSized | crates/verus-flows/src/shielded.rs:546-660 | for any server, an accepted scan had both tree sizes checked on every chunk |
| Scan.ScansAreRanges | crates/verus-flows/src/shielded.rs:532-542 | no scan of an empty or backward range, nor from block 0 |
| Wallet.ScanAfter | crates/verus-flows/src/shielded.rs:480-521 | not ready below the old tip, an empty continuation at it, otherwise a scan tied to the old tip hash |
| Wallet.ScanResult.TrimCheckpoints | crates/verus-flows/src/shielded.rs:392-396 | keeps the last 200 checkpoints |
| Wallet.ScanResult.Absorb | crates/verus-flows/src/shielded.rs:206-242 | extends the stored state, ignores an idle poll, and refuses a gap or a window that does not end at its own tip, changing nothing |
| Wallet.AbsorbLeavesNoGap | crates/verus-flows/src/shielded.rs:206-242 | a tail is taken in exactly when it starts right above the tip and, unless idle, ends at its own last checkpoint; then notes, nullifiers and tip are extended by it |
| Wallet.NothingNew | crates/verus-flows/src/shielded.rs:480-521 | below the tip the wallet is told to wait, and at the tip what it gets changes nothing |
| Wallet.ScanResult.RewindTo | crates/verus-flows/src/shielded.rs:322-349 | drops exactly what lies above the height and takes the checkpoint hash as the tip, or changes nothing |
| Wallet.HonestChunk | crates/verus-flows/src/shielded.rs:554-659 | against a truthful server one chunk is accepted exactly when it continues the previous hash, and yields the reference |
| Wallet.HonestScan | crates/verus-flows/src/shielded.rs:525-677 | against a truthful server a scan of any length is the reference, wherever its 1000-block chunks fall, or is refused as reorged |
| Wallet.ReferenceReports | crates/verus-flows/src/shielded.rs:525-677 | what a fresh scan reports, output by output of the chain: height, indices, the number of leaves before it as position, value, recipient, and the nullifier at that position |
| Wallet.ReportedComesFrom | crates/verus-flows/src/shielded.rs:525-677 | and every reported note is the report of an output of the blocks scanned, in tree order |
| Wallet.AcceptedScanIsContiguous | crates/verus-flows/src/shielded.rs:8-30 | against any server, an accepted scan is one gapless, hash-linked run of the heights asked for |
| Recovery.AbsorbExtends | crates/verus-flows/src/shielded.rs:206-242 | absorbing the next piece of the same chain gives a wallet that describes the chain further up |
| Recovery.PollOnce | crates/verus-flows/src/shielded.rs:176-206 | the documented poll: scan after, then absorb |
| Recovery.OnePoll | crates/verus-flows/src/shielded.rs:206-242 | a poll of a truthful server that is ahead, level or behind, also after a rollback, keeps the wallet that of a fresh scan, with one more checkpoint for every new block up to 200 |
| Recovery.AnyCuttingIsOneScan | crates/verus-flows/src/shielded.rs:206-242 | any sequence of polls, idle and lagging ones included, gives the wallet one scan of the whole range gives, checkpoint window and all |
| Recovery.RewindKeepsDescribing | crates/verus-flows/src/shielded.rs:322-360 | a rollback succeeds exactly from the earliest rewind to the tip, and lands on what a shorter scan would hold |
| Recovery.RewindTwice | crates/verus-flows/src/shielded.rs:322-349 | for any wallet, rolling back to a and then to b is rolling back to b |
| Recovery.ShallowRewindIsRefused | crates/verus-flows/src/shielded.rs:244-300 | a wallet whose tip is not on the live chain is always refused as reorged; one on a shared block is always accepted |
| Recovery.Recover | crates/verus-flows/src/shielded.rs:259-293 | the documented recovery loop ends, succeeds exactly when a tried distance reaches the fork inside the window, and then holds a fresh scan of the live chain; otherwise the wallet still describes the old chain |
| Recovery.RecoveringIff | crates/verus-flows/src/shielded.rs:259-293 | the recovery loop succeeds exactly when a tried distance reaches the fork inside the window, and then ends on a wallet of the live chain at the tip asked for |
| Recovery.FullWindowReach | crates/verus-flows/src/shielded.rs:259-293 | with a full window of 200 the doubling search recovers exactly forks of depth 127 or less |
| Lifetime.RecoverAcross | crates/verus-flows/src/shielded.rs:259-293 | a recovery against any truthful server, finished or given up, leaves a wallet of the live chain or of the old one |
| Lifetime.StepReaches | crates/verus-flows/src/shielded.rs:176-360 | where each step takes the wallet: a poll to the height asked for exactly when it is ahead, served and on common ground, a rollback to a covered height, a recovery to the live tip exactly when the fork is in reach |
| Lifetime.LifeIsOneScan | crates/verus-flows/src/shielded.rs:176-360 | after any polls, rollbacks and recoveries in any order, against servers on changing chains, the wallet describes the chain it last took blocks from, its birthday has not moved, and with a full window it is one fresh scan of that chain |
| Lifetime.DeepForkIsGivenUp | crates/verus-flows/src/shielded.rs:259-293 | a wallet with 200 checkpoints and a truthful server whose chain forks 128 blocks below: the shared block can be rolled back to, and the recovery loop still fails |
| Unspent.UnspentAreUnseen | crates/verus-flows/src/shielded.rs:367-380 | exactly the notes whose nullifier was seen neither in the range nor before, in the order found and as often as found |
| Unspent.UnspentIff | crates/verus-flows/src/shielded.rs:367-380 | a note is unspent exactly when it was found and its nullifier is neither among those seen nor among those given |
| Unspent.UnspentOnChain | crates/verus-flows/src/shielded.rs:362-380 | for a wallet that describes a chain, exactly when it was found and no transaction of a block in the range spends it |
| Unspent.SplitAccounting | crates/verus-flows/src/shielded.rs:362-389 | the merged wallet reports the head knowing the tail nullifiers followed by the tail knowing the head nullifiers, and the balances add up |
| Unspent.SumOfUnspent | crates/verus-flows/src/shielded.rs:382-389 | the 64-bit sum, wrapping, which is the balance exactly when that fits |
| Unspent.WrappedAccounting | crates/verus-flows/src/shielded.rs:362-389 | the 64-bit sums of the two halves add up to that of the merged wallet modulo 2^64, also when they wrap |
| Witness.NoteWitness.Apply | crates/verus-flows/src/shielded.rs:801-807 | appends one block of commitments and refuses any height but the next |
| Witness.ApplyChunk | crates/verus-flows/src/shielded.rs:801-807 | every block of a chunk is applied once, in order, or the whole chunk fails |
| Witness.AppliedIff | crates/verus-flows/src/shielded.rs:801-807 | blocks are taken in exactly when their heights follow one by one, their commitments are canonical and the tree has room; then all their outputs are further leaves and the mark stays |
| Witness.WitnessNote | crates/verus-flows/src/shielded.rs:743-821 | the note is found by position in its own block and the witness advanced block by block to the anchor |
| Witness.NotePosition | crates/verus-flows/src/shielded.rs:766-785 | a scanned note lies among the leaves of its own block and is the report of the output at its position |
| Witness.ScanAndWitnessAgree | crates/verus-flows/src/shielded.rs:743-821 | for every note a scan reports, which is the report of the output at its position, the index is in range, its commitment is the note's own, and the witnessed tree holds exactly the commitments through the anchor |
| Cassette.Cassette.Post | crates/verus-rpc/src/cassette.rs:169-190 | writes are refused, known bodies answered, and each new body noted once in first-asked order |
| Cassette.Cassette.AnswerTo | crates/verus-rpc/src/cassette.rs:129-131 | records one reply and changes nothing else |
| Cassette.Cassette.ForgetMisses | crates/verus-rpc/src/cassette.rs:158-160 | clears the list of misses and keeps the answers |
| Drive.Answers.Record | crates/verus-flows/src/drive.rs:197-211 | a reply of more than 8 MiB in UTF-8 is refused with the cache unchanged |
| TextBytes.LengthIsEncoded | crates/verus-flows/src/drive.rs:203-207 | the length compared is that of the encoding in bytes from which every character is read back |
| Drive.Operate | crates/verus-flows/src/drive.rs:242-262 | running the operation against the cassette is the program's run on that cache, with its misses collected |
| Drive.Advance | crates/verus-flows/src/drive.rs:242-300 | one round: refused for ever once finished, stopped at the sixteenth, otherwise ready, a new list of questions, stalled, or the operation's own error |
| Drive.CachedOutcomeIsDirect | crates/verus-flows/src/drive.rs:98-116 | a run from any part of the node's answers that does not stop for the sentinel has the outcome of the direct run |
| Drive.MissesAreNew | crates/verus-flows/src/drive.rs:262-288 | nothing asked for is already known |
| Drive.WritesAreNeverAsked | crates/verus-rpc/src/cassette.rs:169-190 | a request that would change something is refused by whatever answers and is never put on the list |
| Drive.RecordingLengthensThePrefix | crates/verus-flows/src/drive.rs:262-288 | recording the replies to one round's questions answers strictly more of the direct run, when the first of them fits |
| Rounds.SettlesByDistinctQuestions | crates/verus-flows/src/drive.rs:122-128 | a run settles within one round per distinct question of the direct run, plus one, when the replies the direct run reads can be recorded |
| Rounds.SettlesByBatches | crates/verus-flows/src/drive.rs:86-96 | a run settles within one round per batch of mutually independent questions, plus one, under the same condition |
| Rounds.SameRound | crates/verus-flows/src/drive.rs:98-116 | a round run with a redrawn salt asks what every other round asks, and settles to the direct outcome of its own program |
| Rounds.FetchAll | crates/verus-flows/src/drive.rs:197-211 | answering the questions of a round extends the cache by exactly the replies that fit |
| Rounds.DriveLoop | crates/verus-flows/src/drive.rs:242-300 | for any node, the documented loop ends by the first settled round with the direct outcome of that round's program, or stalls at sixteen; nothing else comes out of it |
| DrivenFlows.SpendableMeaning | crates/verus-flows/src/funding.rs:136-211 | run directly, the program of requests is the funding operation |
| DrivenFlows.SpendableRespects | crates/verus-flows/src/funding.rs:284-312 | the operation never mistakes an unasked question for an answer |
| DrivenFlows.DriveSpendable | crates/verus-flows/src/funding.rs:136-166 | driven, it gives the direct result or stalls; when the replies it reads can be recorded it takes at most three rounds however many outputs there are |
| DrivenFlows.HistoryMeaning | crates/verus-flows/src/history.rs:148-157 | run directly, the program lists what the node reports, folded and sorted, and its reads are one batch |
| DrivenFlows.DriveHistory | crates/verus-flows/src/history.rs:148-157 | driven, it gives the list of a direct run or stalls; when both replies can be recorded it takes at most two rounds however many rows there are |
| Funding.ProbeCoinbaseHeights | crates/verus-flows/src/funding.rs:284-312 | probes the young outputs only, all issued before any is unwrapped, and reports the first failure |
| Funding.Classify | crates/verus-flows/src/funding.rs:166-211 | filters and loops agree with assigning every output to its one bucket |
| Funding.Spendable | crates/verus-flows/src/funding.rs:136-211 | the whole operation, in the order its errors surface |
| Funding.P2pkhIff | crates/verus-flows/src/funding.rs:314-322 | the script test accepts exactly the pay-to-key-hash scripts, byte by byte |
| Funding.SpendableIs | crates/verus-flows/src/funding.rs:136-312 | for all answers with 32-bit heights: it succeeds exactly when its reads can be answered, every output of fewer than a hundred blocks probed, and the offer fits 64 bits; then each of its lists is the reported outputs that script, height, coinbases of that height and mempool put there, in order |
| Funding.FailureIs | crates/verus-flows/src/funding.rs:136-312 | a failure is the first there is: height, outputs, an unasked mempool, the first young output whose probe failed, or an offer too large |
| Funding.BucketsPartition | crates/verus-flows/src/funding.rs:166-211 | the four classes of outputs together are the reported outputs, each as often as reported |
| Funding.BucketsConserveValue | crates/verus-flows/src/funding.rs:166-211 | the value sums of the four classes add up to the reported total |
| Funding.FundingAccountsForAll | crates/verus-flows/src/funding.rs:136-211 | the returned funding accounts for everything reported: its four lists together are the reported coins, every output is in exactly one of them, and their values add up to the reported total |
| Funding.OfferedCoinsAreSpendable | crates/verus-flows/src/funding.rs:136-211 | an output is offered exactly when its script pays to a key hash, no spending row names it, it is marked spendable, and it has a hundred blocks or no reported output of its height is a coinbase; immature exactly when one of the last two fails; younger ones were all probed |
| Funding.MempoolFailureOnlyReleases | crates/verus-flows/src/funding.rs:234-242 | a failed mempool read empties the spent bucket and can only enlarge the others |
| History.AddAll | crates/verus-flows/src/history.rs:205-221 | the inner loop adds one movement's currency values, the native one left out, in whatever order the map yields them |
| History.FoldRows | crates/verus-flows/src/history.rs:174-222 | the loop over the rows is the fold, with overflow refused |
| History.HistoryOf | crates/verus-flows/src/history.rs:143-237 | exactly the folded entries without zero currencies, strictly ordered, whatever order the hash map has |
| HistoryRows.HistoryIs | crates/verus-flows/src/history.rs:143-237 | the list in terms of its rows: ascending by height, index in the block and txid, one entry for every transaction, each holding the place of its first row, the sums over first reports of its movements, and whether it spent |
| HistoryRows.FoldsIff | crates/verus-flows/src/history.rs:195-222 | rows are refused exactly when, in the order they come in, a running sum over first reports leaves 64 bits |
| HistoryLaws.HistoryConserves | crates/verus-flows/src/history.rs:159-222 | one entry per transaction, whose nets are the sums over its distinct movements; the native currency never appears in the map |
| HistoryLaws.ReportedNets | crates/verus-flows/src/history.rs:206-227 | a currency is listed exactly when it is not native and its sum is not zero |
| HistoryLaws.HistoryIsDeterministic | crates/verus-flows/src/history.rs:143-237 | two reports of the same rows that agree, in any order and with any repeats, are the same list whenever both succeed |
| HistoryLaws.OnlyHistory | crates/verus-flows/src/history.rs:224-237 | the sorted list of the folded entries is the only history of its rows, so the hash map order cannot show |
| HistoryLaws.NeverOverflowsIff | crates/verus-flows/src/history.rs:195-220 | rows that agree succeed in every order, repeats included, exactly when for every transaction the gains and the losses over distinct movements each fit 64 bits, in the native and in every other currency |
| HistoryLaws.HistoryIsOrderFree | crates/verus-flows/src/history.rs:143-237 | rows that agree and meet that condition are reported in every order, and always as the same list |
| HistoryLaws.OverflowDependsOnOrder | crates/verus-flows/src/history.rs:195-220 | rows the reader delivers exist that overflow in one order and not in another |
| MnemonicNumbers.EncodingIsTheNumber | crates/verus-keys/src/bip39.rs:224-264 | for all five sizes, the words read to base 2048 are the entropy read to base 256 followed by the top bits of the digest, one for every four bytes |
| MnemonicNumbers.FailureIs | crates/verus-keys/src/bip39.rs:270-311 | what is wrong with a phrase and in which order: the number of words, the first unlisted word counted from one, and the checksum exactly when no entropy has these words |
| MnemonicNumbers.SeedIs | crates/verus-keys/src/bip39.rs:145-180 | the error of the phrase first, then a passphrase beyond ASCII, then the seed of both |
| Phrases.SplitsAtWhiteSpace | crates/verus-keys/src/bip39.rs:271 | whatever Unicode white space is around the words, and however much, these are the words |
| Bip39.LessIff | crates/verus-keys/src/bip39.rs:288-293 | the order searched by: the first character that differs decides, and a proper beginning comes first |
| Bip39.ReadIndex | crates/verus-keys/src/bip39.rs:247-253 | eleven bits of the buffer, big-endian, as a number |
| Bip39.MnemonicFromEntropy | crates/verus-keys/src/bip39.rs:224-264 | 32 bytes give the 24 words BIP-39 assigns to them |
| Bip39.WriteIndex | crates/verus-keys/src/bip39.rs:294-299 | sets exactly the eleven bits of one index in the buffer |
| Bip39.BinarySearch | crates/verus-keys/src/bip39.rs:285-293 | halving the sorted list finds the position of the word, or tells that it is not there |
| Bip39.FillBuffer | crates/verus-keys/src/bip39.rs:285-300 | the buffer holds the indices of all words and zeroes after, or the first unknown word is reported |
| Bip39.CheckedWords | crates/verus-keys/src/bip39.rs:270-311 | the words, or the first of the three failures |
| Bip39.MnemonicToSeed | crates/verus-keys/src/bip39.rs:159-180 | the seed is derived from the checked words rejoined by single spaces |
| Bip39.Comparison | crates/verus-keys/src/bip39.rs:302-309 | the masked byte comparison is the comparison of the checksum bits, and the buffer holds the entropy |
| Bip39.EncodedIsAccepted | crates/verus-keys/src/bip39.rs:224-311 | every entropy of the five sizes encodes to an accepted phrase that gives exactly that entropy back |
| Bip39.AcceptedIsEncoded | crates/verus-keys/src/bip39.rs:270-311 | every accepted phrase is, spacing aside, the phrase of the entropy it carries |
| Bip39.PhrasesAreDistinct | crates/verus-keys/src/bip39.rs:224-264 | different entropies have different phrases |
| Bip39.AcceptedIff | crates/verus-keys/src/bip39.rs:270-311 | a phrase is accepted exactly when its words are those of some entropy, which is then unique |
| Bip39.SpacingKeepsTheSeed | crates/verus-keys/src/bip39.rs:145-180 | whitespace does not change the seed or the error |
| Bip39.FreshPhraseHasItsSeed | crates/verus-keys/src/bip39.rs:159-264 | a freshly made phrase is hashed as the very text that was handed out |
| Bits.SetBit | crates/verus-keys/src/bip39.rs:294-297 | or-ing the shifted bit sets that bit of the buffer and no other |
| Bits.MaskComparesTopBits | crates/verus-keys/src/bip39.rs:305-309 | comparing under the mask compares the top bits |
| Bits.UnpackPack | crates/verus-keys/src/bip39.rs:246-253 | regrouping bits into eleven-bit words loses nothing |
| Bits.PackUnpack | crates/verus-keys/src/bip39.rs:285-300 | regrouping eleven-bit words into bits loses nothing |
| Proto.Reader.Varint | crates/verus-light/src/proto.rs:82-105 | reads exactly the varint at the front, or fails when there is none |
| Proto.Reader.ReadTagAt | crates/verus-light/src/proto.rs:108-117 | field number from 1 to 32 bits and wire type |
| Proto.Reader.ReadBytesAt | crates/verus-light/src/proto.rs:120-128 | exactly the announced bytes, or an error when fewer are left |
| Proto.Reader.Array | crates/verus-light/src/proto.rs:141-146 | only a payload of exactly the wanted length |
| Proto.Reader.Int32 | crates/verus-light/src/proto.rs:152-158 | the low 32 bits as two's complement |
| Proto.Reader.Skip | crates/verus-light/src/proto.rs:166-189 | moves past exactly one payload of any valid wire type |
| Proto.PutVarint | crates/verus-light/src/proto.rs:193-203 | appends the canonical encoding |
| Proto.PutVarintField | crates/verus-light/src/proto.rs:213-219 | appends one varint record, nothing for zero |
| Proto.PutBytesField | crates/verus-light/src/proto.rs:228-233 | appends one length-delimited record, nothing for the empty payload |
| Proto.PutMessageField | crates/verus-light/src/proto.rs:245-254 | appends one length-delimited record, also for the empty payload |
| Proto.VarintIsGroupSum | crates/verus-light/src/proto.rs:82-105 | accepted exactly when a front part of the input is a varint, which is then consumed, and the value is the sum of its seven-bit groups |
| Proto.VarintFits | crates/verus-light/src/proto.rs:82-105 | every accepted value fits 64 bits |
| Proto.VarintRoundTrip | crates/verus-light/src/proto.rs:82-105 | every 64-bit value is read back whatever follows, consuming exactly its 1 to 10 bytes |
| Proto.EncodingIsShortest | crates/verus-light/src/proto.rs:193-203 | other encodings are accepted, and none is shorter than the written one |
| Proto.Int32RoundTrip | crates/verus-light/src/proto.rs:148-158 | sign-extended 32-bit values survive |
| Proto.VarintFieldRoundTrip | crates/verus-light/src/proto.rs:205-219 | a written nonzero scalar reads back as that one record |
| Proto.MessageFieldRoundTrip | crates/verus-light/src/proto.rs:235-254 | a written message field reads back as that one record, also when empty |
| Proto.RecordPrefix | crates/verus-light/src/proto.rs:108-189 | a complete record reads the same whatever follows it |
| Proto.RecordIff | crates/verus-light/src/proto.rs:108-189 | for all bytes, a record is read exactly from a front part that is one: a varint of eight times a 32-bit field number plus wire type 0, 1, 2 or 5, and a varint, eight bytes, a length and as many bytes, or four bytes |
| Proto.LowSignedIs | crates/verus-light/src/proto.rs:148-158 | the 32-bit number that is the same modulo 2^32 |
| Proto.GuideExamples | crates/verus-light/src/proto.rs:193-233 | the examples of the Protocol Buffers encoding guide |
| Records.RunIsFold | crates/verus-light/src/messages.rs:239-250 | a decode loop is the fold of its update over the records, and refuses a malformed message |
| Records.RunConcat | crates/verus-light/src/messages.rs:278-306 | decoding a concatenation is decoding the first part and continuing from its value |
| Records.RunKnown | crates/verus-light/src/proto.rs:160-165 | messages whose known records correspond decode alike, whatever unknown records are between them |
| Records.InsertUnknown | crates/verus-light/src/proto.rs:160-165 | unknown records inserted at any record boundary change nothing |
| Records.RunAcceptsIff | crates/verus-light/src/messages.rs:239-250 | a message is accepted exactly when it is well formed and none of its records is refused |
| Refusals.OutputAcceptedIff | crates/verus-light/src/messages.rs:239-259 | an output is accepted exactly when its three fields are there with 32, 32 and 52 bytes every time, and holds the last of each |
| Refusals.TxAcceptedIff | crates/verus-light/src/messages.rs:278-306 | a transaction exactly when its hash and nullifiers have 32 bytes and every output in it is one |
| Refusals.BlockAcceptedIff | crates/verus-light/src/messages.rs:335-369 | a block exactly when its hashes have 32 bytes, its time 32 bits, its metadata is well formed and every transaction in it is one |
| Refusals.BlockIdAcceptedIff | crates/verus-light/src/messages.rs:37-62 | an identifier exactly when it is not empty and its hash has 32 bytes |
| Refusals.StateAcceptedIff | crates/verus-light/src/messages.rs:89-125 | a tree state exactly when it is not empty, its texts are UTF-8 and its time has 32 bits |
| Messages.DecodeOutput | crates/verus-light/src/messages.rs:239-259 | the output loop is the fold, with all three fields required |
| Messages.DecodeTx | crates/verus-light/src/messages.rs:278-306 | the transaction loop, with its nested spends and outputs, is the fold |
| Messages.DecodeBlock | crates/verus-light/src/messages.rs:335-369 | the block loop, with its transactions and metadata, is the fold |
| Messages.DecodeBlockId | crates/verus-light/src/messages.rs:37-62 | the identifier loop is the fold, and a wholly empty message is refused |
| Messages.TxIgnoresUnknown | crates/verus-light/src/messages.rs:278-306 | unknown fields of a transaction, its spends or its outputs leave it unchanged |
| Messages.BlockIgnoresUnknown | crates/verus-light/src/messages.rs:335-369 | unknown fields at any depth of a block leave it, or its refusal, unchanged |
| Messages.BlockInsertUnknown | crates/verus-light/src/messages.rs:335-369 | unknown fields inserted at any record boundary of a block leave it unchanged |
| Messages.AppendTransaction | crates/verus-light/src/messages.rs:352-381 | one more transaction field appends that transaction and its commitments, in tree order |
| Messages.ScalarIsSet | crates/verus-light/src/messages.rs:346-354 | height, time or a hash at the end of an encoded block sets that field and no other, explicit zeroes included |
| Messages.LastOneWins | crates/verus-light/src/messages.rs:345-367 | whatever lies between, such a field written again makes its earlier value as good as never sent |
| Messages.LastOneWinsEncoded | crates/verus-light/src/messages.rs:335-369 | the same for the bytes of a block |
| CompactFormats.RecordsRoundTrip | crates/verus-light/src/proto.rs:193-254 | any list of writable records is read back from its encoding |
| CompactFormats.OutputRoundTrip | fixtures/lightwalletd/compact_formats.proto:56-62 | a served output decodes to itself |
| CompactFormats.TxRoundTrip | fixtures/lightwalletd/compact_formats.proto:31-48 | a served transaction decodes to itself, with its nullifiers and outputs in order |
| CompactFormats.BlockRoundTrip | fixtures/lightwalletd/compact_formats.proto:17-30 | the canonical encoding of the fields the wallet reads decodes to the block, whatever scalars are left out because they are zero |
| CompactFormats.CarriedBlock | crates/verus-light/src/messages.rs:335-369 | every message that carries a block, with any other fields at any depth, decodes to it |
| CompactFormats.FullBlockDecodes | fixtures/lightwalletd/compact_formats.proto:17-48 | with protocol version, header and fees in their places, as a server sends it, a block decodes to itself |
| CompactFormats.StreamIsBlocks | crates/verus-light/src/messages.rs:335-369 | a stream of messages that carry blocks is, message by message, those blocks |
| Messages.HeightRoundTrip | crates/verus-light/src/messages.rs:28-62 | a height-only identifier survives exactly when the height is not zero; at zero it is refused |
| Messages.EncodeBlockRange | crates/verus-light/src/messages.rs:506-515 | writes both bounds as message fields |
| Messages.RangeCarriesBothBounds | crates/verus-light/src/messages.rs:506-515 | both bounds are on the wire in order, also at height zero |
| Messages.RangesAreDistinct | crates/verus-light/src/messages.rs:506-515 | different ranges are different requests |
| Frontier.FrontierReader.OptionalNode | crates/verus-light/src/messages.rs:189-210 | one tag byte and, when set, 32 bytes; counts the node |
| Frontier.FrontierReader.CountParents | crates/verus-light/src/messages.rs:163-167 | counts a filled parent at level i as 2^(i+1) leaves |
| Frontier.CountLeaves | crates/verus-light/src/messages.rs:149-176 | the leaf count of exactly the blobs the node-keeping parser accepts |
| Frontier.TreeReader.OptionalNode | crates/verus-sapling/src/scan.rs:187-205 | one optional node, kept |
| Frontier.FromSerialized | crates/verus-sapling/src/scan.rs:119-146 | parses exactly the blobs the counting parser accepts, consumed whole |
| Frontier.EncodedParses | crates/verus-sapling/src/scan.rs:103-146 | every frontier of at most 32 levels is read back from its encoding |
| Frontier.OneLeafIs | crates/verus-sapling/src/scan.rs:103-146 | the bytes of the frontier of one leaf |
| Frontier.ParsedIsEncoded | crates/verus-sapling/src/scan.rs:103-146 | an accepted blob is the encoding of what it parses to, so no two blobs give one frontier |
| Frontier.CountIsBounded | crates/verus-light/src/messages.rs:149-176 | no accepted blob counts more than 2^33 leaves |
| Frontier.AppendAllKeeps | crates/verus-light/src/messages.rs:136-142 | the frontier built by appending holds exactly the appended leaves: its filled parents are the roots of consecutive complete subtrees over them |
| Frontier.CountIsLeaves | crates/verus-light/src/messages.rs:136-148 | for any number of appends a 32-level tree can hold, the count of the serialization is the number of leaves, and the blob is accepted whole |
| Grpc.ParseStatus | crates/verus-light/src/grpc.rs:83-100 | the last status line decides, even when it is not a number, with the message of the last message line |
| StatusTexts.ParseIff | crates/verus-light/src/grpc.rs:91-93 | a status value is a number exactly when it is a sign that fits, leading zeroes and the decimal digits of a 32-bit number |
| StatusTexts.IgnoringCaseIff | crates/verus-light/src/grpc.rs:91-97 | names are compared letter by letter, each in either case |
| StatusTexts.StatusOfHeaders | crates/verus-light/src/grpc.rs:83-100 | of any header lines, with any spacing and line ends: the number the last status line writes, with the value of the last message line, and none when it writes no 32-bit number |
| StatusTexts.AbortedIsTen | crates/verus-light/src/grpc.rs:83-100 | the line grpc-status:10 is a status of ten |
| StatusTexts.BodyAcceptedIff | crates/verus-light/src/grpc.rs:113-181 | a body of whole frames is read exactly when every trailer is text and no message is compressed |
| StatusTexts.SuccessIff | crates/verus-light/src/client.rs:42-67 | from the bytes: messages and a trailer are a success exactly when the last status line of the trailer writes zero and the headers did not say otherwise |
| StatusTexts.HeadersDecide | crates/verus-light/src/client.rs:42-67 | messages without a trailer are a success exactly when the headers say zero |
| StatusTexts.NeverASuccess | crates/verus-light/src/client.rs:42-67 | a nonzero status in the headers is never a success, nor is a body that is not whole frames |
| Grpc.FrameRequest | crates/verus-light/src/grpc.rs:48-55 | one uncompressed message frame |
| Grpc.BigEndianIs | crates/verus-light/src/grpc.rs:48-55 | the length of a frame has its most significant byte first |
| Grpc.DecodeBody | crates/verus-light/src/grpc.rs:113-181 | all messages and the deciding status, or nothing for a malformed, compressed or non-UTF-8 frame |
| Grpc.LastStatusDecides | crates/verus-light/src/grpc.rs:165-176 | a later trailer without a status leaves an earlier status standing |
| Grpc.FramesRoundTrip | crates/verus-light/src/grpc.rs:1-9 | any list of frames is read back from its encoding |
| Grpc.FramesAreEncoded | crates/verus-light/src/grpc.rs:113-150 | a body that splits into frames is the encoding of those frames and no others |
| Grpc.BodyRoundTrip | crates/verus-light/src/grpc.rs:113-181 | uncompressed messages and UTF-8 trailers come back as payloads in order and the last status |
| Grpc.TruncationIsAnError | crates/verus-light/src/grpc.rs:106-113 | a body cut anywhere but at a frame boundary is an error, never a shorter success |
| LightClient.Call | crates/verus-light/src/client.rs:42-67 | succeeds exactly when no header status is non-zero, the frames are whole, and the deciding status is zero; every failure is reported as the first of header status, framing and trailer status |
| LightClient.FailureSays | crates/verus-light/src/client.rs:42-67 | a failed call says why: the headers' status, a body that is not whole or says nothing, or the trailer's status |
| LightClient.Unary | crates/verus-light/src/client.rs:69-76 | the message of a successful response with exactly one, and otherwise the failure or the number of messages |
| LightClient.FetchRange | crates/verus-light/src/client.rs:110-174 | succeeds exactly with the blocks of the whole range in order out of a successful response, for all 64-bit bounds and all responses, and refuses backward or oversized ranges |
| LightClient.CheckHeights | crates/verus-light/src/client.rs:141-165 | every block at its own height, with no height wrapping around |
| LightClient.HonestStreamServes | crates/verus-light/src/client.rs:42-67 | a server that streams the blocks of the range and a zero status is accepted without any header status |
| TreeStates.DecodeTreeState | crates/verus-light/src/messages.rs:89-125 | the tree state loop is the fold, with text fields checked and a wholly empty message refused |
| TreeStates.FetchTreeState | crates/verus-light/src/client.rs:92-100 | succeeds exactly with the tree state of a successful response of one message |
| TreeStates.TreeStateRoundTrip | fixtures/lightwalletd/service.proto:109-115 | a tree state is read back from its encoding, unless every field is empty and nothing was sent |
| TreeStates.StateServes | crates/verus-light/src/client.rs:69-100 | a server that answers with one tree state and a zero status is understood |
| TreeStates.HexRoundTrip | crates/verus-light/src/messages.rs:127-134 | bytes written in hexadecimal are read back |
| TreeStates.HexReadIsWritten | crates/verus-light/src/messages.rs:127-134 | what is read is what was written, but for the case of its letters; nothing else is accepted |
| Identity.Pending.Anchor | crates/verus-flows/src/identity.rs:546-579 | records the tip and hands out the bytes, or refuses an expired commitment with the anchor untouched |
| Identity.Pending.CheckForReorg | crates/verus-flows/src/identity.rs:661-686 | moved exactly when the tip is below the anchor or the hash there differs |
| Identity.Pending.LocateCommitment | crates/verus-flows/src/identity.rs:688-710 | the first output with this reservation's script |
| Identity.Pending.Poll | crates/verus-flows/src/identity.rs:604-650 | one poll, with its requests made only when needed |
| Identity.Pending.WaitBlocking | crates/verus-flows/src/identity.rs:723-742 | the first answer that is not a wait, within the allowed polls |
| Identity.WaitedIs | crates/verus-flows/src/identity.rs:723-742 | the answer is that of the first poll that does not say waiting |
| Identity.ExpiredFromThreeBefore | crates/verus-flows/src/identity.rs:219-273 | expired exactly from three blocks before a recorded expiry, also at the top of the height range |
| Identity.ReadyExactlyWhen | crates/verus-flows/src/identity.rs:604-650 | ready exactly with a confirmation, an unmoved anchor and a located output, and then only the output index changes |
| Identity.LocatedCarriesTheCommitment | crates/verus-flows/src/identity.rs:688-710 | the named output is the first that carries the script of this reservation |
| Identity.MinedIsSettled | crates/verus-flows/src/identity.rs:604-650 | a poll that is told of a confirmation never answers expired, gone or waiting |
| Registration.HeldKeepsEverythingElse | crates/verus-flows/src/identity.rs:192-213 | over any calls the registration is the prepared one plus what the last anchoring that went through was told |
| Registration.AnchoringHandsOut | crates/verus-flows/src/identity.rs:546-579 | over any calls: an anchoring goes through exactly when the node answers its height, the expiry is none or more than three blocks away, and the node answers the hash; it hands out the prepared signed bytes and txid; otherwise the first of the three failures |
| Registration.ExpiredForGood | crates/verus-flows/src/identity.rs:546-632 | once a poll said expired, every later poll that finds it unmined and every later anchoring at that height or above is refused, whatever was called in between, the anchor untouched |
| Registration.AnchorRefusesExpired | crates/verus-flows/src/identity.rs:546-579 | an expired commitment is refused at that height and every higher one, anchor untouched |
| Registration.ReadyIsSafe | crates/verus-flows/src/identity.rs:604-710 | in every run and every interleaving of the world with the single requests of a call: ready only with the commitment in a block no later than its expiry when the confirmations were asked for, the anchored height and hash still there when those were asked for, the script on the output named, all prepared fields unchanged |
| Registration.PollIsTrue | crates/verus-flows/src/identity.rs:604-650 | which answer a poll gives, in every run and interleaving: decided by where the commitment was when the confirmations were asked for, how far its expiry was when the tip was, and whether the anchor still stood |
| Registration.HeldUntilCut | crates/verus-flows/src/identity.rs:604-650 | a commitment in one block and not mined again is in the chain exactly as long as no effective reorganisation cuts below that block |
| Registration.ReadyStands | crates/verus-flows/src/identity.rs:604-650 | what a poll called ready is in the chain when the poll returns if no effective reorganisation cut it out while the poll ran, and exactly then when it was in one block and was not mined again meanwhile |
| Registration.ReadyCanBeStale | crates/verus-flows/src/identity.rs:604-650 | with a reorganisation above the anchor between its requests, a poll does say ready for a commitment in no block |
| Registration.ExpiredIsFinalIff | crates/verus-flows/src/identity.rs:312-332 | in every interleaving, a commitment reported expired gets into a block without a reorganisation exactly when it already had when the tip was read, or the node then still held it and the tip was below its expiry |
| Registration.ExpiredCanBeMined | crates/verus-flows/src/identity.rs:604-632 | relayed and mined in time between the two requests of a poll, a commitment is reported expired when it has a confirmation |
| Referrals.ReferralChain | crates/verus-flows/src/identity.rs:988-1030 | the referrer and then the collected payments, capped at the level count |
| Referrals.CollectedIs | crates/verus-flows/src/identity.rs:988-1030 | the walk collects, in order, exactly the payments behind the first identity output with nothing but payments, unreadable outputs and identities in between |
| Referrals.FollowsTheRuleIff | crates/verus-flows/src/identity.rs:976-1030 | the walk gives the chain of the documented rule exactly when the cap is reached first or no unreadable or second identity output interrupts the payments and lets them resume |
| Referrals.InterruptedRunDiffers | crates/verus-flows/src/identity.rs:976-1030 | a transaction on which the walk and the documented rule differ, for every level count of three or more |
| EndToEnd.BlocksAreTold | crates/verus-flows/src/shielded.rs:525-677 | two served blocks are the same to the wallet exactly when they agree in height, hashes, tree size and, in order, in the indices, nullifiers and outputs of their transactions |
| EndToEnd.FetchFrom | crates/verus-light/src/client.rs:110-174 | the client returns what the server serves for the range, which is at most one list of blocks |
| EndToEnd.FetchTree | crates/verus-light/src/client.rs:92-100 | the tree size the scan works with is what the two parsers make of the hexadecimal text in the reply |
| EndToEnd.StreamServes | crates/verus-light/src/client.rs:110-174 | a stream of messages that carry the blocks, whatever else is in them, with a zero status serves them |
| EndToEnd.StateHandsOver | crates/verus-light/src/client.rs:92-100 | a reply with the frontier in hexadecimal and a zero status hands over its number of leaves, by both parsers |
| EndToEnd.LeavesCount | crates/verus-flows/src/shielded.rs:8-13 | the commitment tree grows by one leaf for every output the wallet counts |
| EndToEnd.SameScan | crates/verus-flows/src/shielded.rs:525-677 | a scan uses of a server only requests of at most one chunk, and tree sizes where blocks follow |
| EndToEnd.SameOutcome | crates/verus-flows/src/shielded.rs:525-677 | so it has the same outcome on servers alike in these, whatever it starts from and however far it goes |
| EndToEnd.TruthfulBytesScan | crates/verus-flows/src/shielded.rs:525-677 | from the bytes a truthful server sends, through framing, messages, hexadecimal text and both frontier parsers: a scan that starts anywhere and follows any block is the reference wallet, or is refused as reorged, or fails past the tip |
| WholeLife.SameRecovery | crates/verus-flows/src/shielded.rs:259-293 | the recovery loop cannot tell a server of bytes from the one that knows the leaves |
| WholeLife.LifeFromBytes | crates/verus-flows/src/shielded.rs:176-360 | the same for a whole life: after any polls, rollbacks and recoveries against servers of bytes on changing chains, the wallet describes the chain it last took blocks from and with a full window is one fresh scan of it |
| Login.CountedReads | crates/verus-flows/src/login.rs:55-69 | a field is read back by its length whatever it holds and whatever follows |
| Login.MessageReads | crates/verus-flows/src/login.rs:75-83 | the message parses back to its audience and challenge |
| Login.MessageIsInjective | crates/verus-flows/src/login.rs:55-83 | equal messages mean equal requests |
| Login.PlainConcatenationIsNot | crates/verus-flows/src/login.rs:64-66 | without the lengths two different requests run together the same way |
| Login.CheckFreshness | crates/verus-flows/src/login.rs:165-179 | fresh exactly inside the window of the policy, saturation included |

## Left out

- Unspent.SplitAccounting: the sums are unbounded; `Unspent.WrappedAccounting` states the wrapping 64-bit ones, and a build that stops on overflow instead is not modelled.
- Scan.ScanFollowing: requires `to + 1000` to fit 64 bits, because the source does not check `chunk_start + SCAN_CHUNK - 1`.
- Wallet.HonestScan: a server that lies consistently is outside it, as the source says it is outside the checks.
- Witness.ScanAndWitnessAgree: the tree is the list of its leaves; Merkle paths, roots and anchors are not computed.
- Witness.WitnessNote: fetching the full output of the note after witnessing is not part of it.
- History.HistoryOf: the in-place sort of the standard library is an ordered insertion here; entries come out in the same total order.
- Proto.PutVarint: the output buffer is a sequence passed in and returned, not one updated in place.
- Proto.Reader.Varint: the groups are added rather than or-ed; they occupy disjoint bits.
- Grpc.ParseStatus: line splitting, trimming and number parsing of the standard library are functions of the model.
- TreeStates.HexRoundTrip: how the hexadecimal library reads text is a function of the model.
- Frontier.CountIsLeaves: a tree that is full is not appended to.
- Identity.Pending.WaitBlocking: sleeping between polls and the progress callback.
- Error texts everywhere: errors that differ only in their text are one error.
- Memory wiping of secrets, and the capacity of the phrase string.
- `ServerInfo`, `SendResponse` and `RawTransaction` decoding, whose loops are like those modelled.
- `received`, `full_output` and memo reading, which wrap decryption.
- `prepare_registration` up to the signed commitment, and step two of a registration: calls to transaction builders that are not part of this model.
- Salt generation: the salt is an arbitrary input.
- `verify_login` apart from its message and its freshness window: it hands over to signature recovery.
- `identity_held`, `identity_held_tokens` and `require`: filters with nothing across them.
- Sending, conversion, currency launch, offers, VDXF and identity lifecycle flows: checks in sequence before a builder.
- HTTP transports, JSON envelopes and URL checks: input and output.
