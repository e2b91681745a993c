# A verified model of nano-stacks' consensus core

nano-stacks is a small Stacks node. This project models the parts of it that decide consensus and that keep
state from one block to the next, and proves what they promise over every input, every run, or every reachable
state. It is Dafny throughout: `dafny verify dfyconfig.toml` checks all of it.

| file | subject |
|---|---|
| `PreStx.dfy`, `BitcoinSource.dfy`, `ExactReads.dfy`, `ExactRuns.dfy` | the six-block `PreStx` cache, the REST and RPC sources that walk Bitcoin with it, and exactly which of their reads are rescans |
| `Signers.dfy`, `KeySums.dfy`, `RewardSlots.dfy`, `LargestRemainder.dfy` | the apportionment of reward slots, and why it is the largest-remainder one |
| `SignerApproval.dfy`, `Checkpoint.dfy` | signature lists, quorums, checkpoint attestation |
| `Wire.dfy`, `Nakamoto.dfy`, `BlockCodec.dfy`, `BlockPrefixes.dfy`, `BlockSpellings.dfy`, `SignedHeader.dfy`, `HeaderLayout.dfy` | the block envelope, streams of blocks, blocks cut short, the bytes that decode to a block, signing preimages, block identifiers, and where each field lies |
| `TenureShape.dfy` | the tenure transactions a block may carry, and the ones a replay may skip |
| `HistoryExport.dfy` | the history a checkpoint travels with |
| `TenureLedger.dfy`, `LedgerRuns.dfy`, `CheckpointWindow.dfy` | what a node owes its miners and how much of it is kept, whole runs of that ledger, and the windows a checkpoint may carry |
| `LineProtocol.dfy`, `Executor.dfy` | the bounded line reader and the serving loop of the epoch 4 executor |
| `DepositScript.dfy` | the scripts, Merkle root and output key of an sBTC deposit |

How it is put together:

- Code that updates state is a class or a method with loops, proved equal to a specification function; the
  theorems are about that function. Specification functions are where possible stated a second way, without the
  algorithm: seats by counting who ranks ahead instead of sorting, kept rows by counting newer ones instead of
  removing old ones, authorised senders by rescanning the chain instead of caching.
- What an operation and its specification have in common is pinned by a statement that names neither: the operations a
  transaction yields by opcode, the quota of a seat by the inequality it solves, seven tenths as seven times
  the total against ten times the weight, a payout by the two rows it draws on, a decision by its three checks, a
  header by the offsets of its fields.
- Hashes, signature recovery, the virtual machine, the transaction codec and the parsers of operation fields are
  function parameters. A lemma that needs a hash to have no collision says so for the inputs it compares, never
  for the hash as a whole; one that needs the transaction codec to be decodable requires that of the codec.
- Numbers are unbounded with the source's widths written out where they bind: `u32` and `u128` overflow of weights
  and stakes, saturating fees, `u64` chain lengths.

Main results:

- **Reads are rescans exactly when they have their window.** Over any run of reads and rewinds, across
  reorganizations, failures and jumps in either direction, a successful read of either source equals a cache-free
  rescan of the last six blocks whenever the cache holds, or the walk first reads, the window of its height
  (`RunReadsAreRescans`); a careful caller's reads always do (`CarefulReadsAreRescans`). The condition is exact: without
  it the same run, with the same calls, answers and block hashes, is answered wrongly for some contents of the blocks,
  whatever the parsers of operations are, as long as they accept one
  (`RunReadsAreRescansIff`, and `AnswersAreRescansIff` on a chain that stays). For a rewound RPC source, and for one
  whose very first read failed part way, the condition is spelled out as arithmetic (`RewindExactIff`,
  `FailureExactIff`); a source that already stands on a block with its window is not harmed by a failed forward read
  (`ForwardReadKeepsReady`). What such a read answers is also said without the decoder: the operations are those of
  exactly the transactions that announce, register, commit, or act for a sender announced in reach, in their order
  (`RunReadsYield`), and a read that fails, fails for the first thing in its way (`ReadFails`).
- **Apportionment** is the one assignment of seats that gives each key its floor or one more, uses the slots, and serves
  larger remainders and then smaller keys first, under the least quota that covers the stake
  (`WeightsAreTheApportionment`, `RewardSetIs`). It conserves slots, is monotone and fair, stays within a seat and what
  rounding the quota up costs of the exact share (`WeightNearShare`), and depends only on the sums per key.
- **Quorums intersect** in two fifths of the weight; the cursor scan and the response sorter accept exactly lists of
  distinct signers with seven tenths of the weight.
- **The block codec** reads back every canonical block, and only those, alone and in streams (`DecodeInvertsEncode`,
  `StreamRecovered`), and cut short anywhere decodes to none (`CutShortRefused`). Backwards it is not exact: decoding
  overlooks the low seven bits of a transaction's version byte, so that 1 in place of 0 decodes to the same block
  (`OneForZero`). Exactly the byte strings that differ from a block's encoding in such bits decode to the block
  (`DecodesToIff`, `StreamDecodesToIff`); what decodes re-encodes to the same length, and to the same bytes if and
  only if each transaction starts with 0 or 128 (`EncodeInvertsDecode`, `StreamRewritten`). A block identifier fixes
  its header, and is computed from the bytes of the header with the signer signatures cut out (`BlockIdOfBytes`).
- **The pruned ledger pays what an unpruned one pays**, over every run with retractions in reach; and any ledger,
  with rows and effects seeded ahead of its tip or not, pays every future tenure if and only if it has a coinbase
  schedule and each tenure has its effects or its rows (`PaysForeverIff`). From that come the exact conditions of the
  startup check and of an exported checkpoint. What a ledger keeps of a tenure that started in a run is that start and
  all the fees since, saturated, and that is what it pays (`RowsAreBooked`, `BookedPayout`). The fees of a tenure are paid
  a hundred and one tenures later and at no other (`FeesPaidOnce`), and none are lost on the way (`FeesConserved`).
- **The executor** reads lines independently of chunking and accepts only blocks that form a chain. Every reply is
  explained by its line and the state its predecessors left: a block is accepted exactly when it follows the tip, is
  authenticated and commits, and a refusal names the first of these that failed (`AcceptsIff`, `ServedExplained`).

Conditions the theorems carry, because the source's guarantees rest on them:

- `PreStx.WellFormed`: a transaction identifier fixes its transaction, no transaction that announces a sender is mined
  twice in one chain (others may be, as two early coinbases are), and a transaction spends outputs of earlier ones.
  `BitcoinSource.HashesCommit`: a block hash commits to the block's ancestors.
- `BitcoinSource.Anchored`: a source that holds no block to compare with is read only while the blocks it remembers
  are on the chain, which is what invalidating at or below the fork is for.
- `BlockCodec.Reads`, of the transactions of the block at hand: each is written in at least a byte and decodes with
  whatever follows it. `BlockSpellings.ReadsSpellings`: it does so whatever the low bits of its version byte are.
  `BlockSpellings.Rewrites`: what decodes as a transaction is re-encoded as it was, but for those bits. A codec and a block
  that meet all of it: `SomeStartAtZero`. `BlockPrefixes.Settled`, where a block is cut short: what decodes as a
  transaction decodes alike with more after it.
- `ExactReads.Accepts`, where a loss is shown: the parsers accept one sponsored operation, from some outputs and sender.
- `SignerApproval.DistinctHashes`: the signer entries have distinct key hashes, which their constructor checks
  (`crates/nano-chainstate/src/nakamoto.rs:304-316`).
- `LedgerRuns.Roomy`: fewer than a hundred rows lie above any tenure whose payout is still to be derived. It holds
  when rows reach no further than a maturity window past the tip (`NearIsRoomy`), and when a checkpoint's effects
  cover its rows. The conditions for paying for ever do without it.

Where code and its comments differ, the model follows the code:

- The startup check takes a ledger without rows for a genesis start, and compares rows only with each other. A
  ledger that passes pays for ever only if it also has a schedule and is caught up with the node's tip
  (`StartupExact`). Three that pass and cannot pay: the default ledger of a node without checkpoint accounting, which
  has no schedule and so records no tenure; an empty ledger on a chain that has begun; and one whose rows stop below
  the tip (`StartupMisses`).
- The export guard refuses a hole anywhere in the window, including where no payout reads any more
  (`RefusedYetPays`). What it accepts pays exactly while the node stands no higher than the newest row
  (`CheckpointPaysIff`): the row it tolerates as missing, the last captured tenure's, has to be recorded by the node.
- The RPC source keeps its last height when it is rewound, so the walk after a deep rewind does not read the six blocks
  before it again.

## Model

| member | source | states |
|---|---|---|
| PreStx.PreStxCache.RetainWindow | crates/nano-bitcoin/src/lib.rs:50-54 | the cache keeps exactly the announcements of the last six blocks |
| PreStx.PreStxCache.InvalidateFrom | crates/nano-bitcoin/src/lib.rs:60-63 | the cache keeps exactly the announcements below a height |
| PreStx.PreStxCache.Decode | crates/nano-bitcoin/src/lib.rs:857-928 | the decoding loop computes the block and cache of the fold `DecodeBlock`; a block that does not deserialize costs only the retention |
| PreStx.ScanBlocksFinds | crates/nano-bitcoin/src/lib.rs:857-928 | the cache-free lookup finds an announcement in a range of blocks if and only if one is there |
| PreStx.LookupIsRescan | crates/nano-bitcoin/src/lib.rs:902-906 | a lookup in a cache complete for the window equals a rescan of the last six blocks and the earlier transactions of this one |
| PreStx.DecodeFirstKeepsKnown | crates/nano-bitcoin/src/lib.rs:857-928 | decoding keeps the cache invariant through every transaction of a block |
| PreStx.DecodeFirstIsRescan | crates/nano-bitcoin/src/lib.rs:857-928 | the operations of every prefix of a block are those of the rescan |
| PreStx.DecodeBlockIsRescan | crates/nano-bitcoin/src/lib.rs:857-928 | one block's decoding equals the rescan when the cache is complete for the six blocks before, and leaves the heights it keeps and its own complete |
| PreStx.RescanPrefix | crates/nano-bitcoin/src/lib.rs:857-928 | the rescan of a height depends only on the chain up to it |
| PreStx.RescanYields | crates/nano-bitcoin/src/lib.rs:867-960 | by opcode, without the decoder: a rescan holds the operations of exactly the transactions that carry the protocol, have an input and outputs that are addresses, and commit, register, announce a Stacks address, or act for a sender that their first input names and that was announced within six blocks before; in order, with their fields |
| BitcoinSource.Source.constructor | crates/nano-bitcoin/src/lib.rs:183-197 | a new source remembers nothing |
| BitcoinSource.Source.InvalidateFrom | crates/nano-bitcoin/src/lib.rs:215-225 | the whole memory after a rewind: REST forgets its height, RPC steps back to the one below, both drop what lies at or above |
| BitcoinSource.Source.CheckLastRead | crates/nano-bitcoin/src/lib.rs:231-244 | a changed hash at the last block rewinds to it and reports the reorganization; an unanswered query changes nothing |
| BitcoinSource.Source.BlockAt | crates/nano-bitcoin/src/lib.rs:247-274 | result and new memory of a read, over checking, cached answer, backward reset, priming and the walk with its failures |
| BitcoinSource.SoundElsewhere | crates/nano-bitcoin/src/lib.rs:371-384 | a sound memory stays sound on any chain that agrees up to where it reads |
| BitcoinSource.InvalidatedSound | crates/nano-bitcoin/src/lib.rs:363-369 | a rewind keeps the memory sound, about the chain below it |
| BitcoinSource.WalkSound | crates/nano-bitcoin/src/lib.rs:400-421 | a walk that decodes a block, stopped anywhere, stands soundly on the last block it decoded |
| BitcoinSource.WalkKnows | crates/nano-bitcoin/src/lib.rs:400-421 | which heights the cache held in full when the goal was decoded, and holds afterwards, exactly |
| BitcoinSource.ReadSound | crates/nano-bitcoin/src/lib.rs:386-422 | one read from any sound memory keeps it sound and, when its window is held or read first, answers the rescan of the chain it met |
| BitcoinSource.StepSound | crates/nano-bitcoin/src/lib.rs:363-422 | every read and every rewind, of any depth, keeps the invariant |
| BitcoinSource.RunSound | crates/nano-bitcoin/src/lib.rs:363-422 | the invariant holds after every prefix of every run |
| BitcoinSource.RunReadsAreRescans | crates/nano-bitcoin/src/lib.rs:386-422 | over every run of reads and rewinds on either source, across reorganizations and failures, each successful read that has its window equals a rescan of the chain of that moment |
| BitcoinSource.RunReadsYield | crates/nano-bitcoin/src/lib.rs:857-960 | over every run, a successful read that has its window returns the height, hash and time of the block, and the operations its transactions yield by opcode |
| BitcoinSource.ReadFails | crates/nano-bitcoin/src/lib.rs:386-422 | which error a read ends with, and what it remembers: the hash of the last block is not answered or has changed, or the first height of the walk that does not answer or does not deserialize |
| BitcoinSource.CarefulReadsAreRescans | crates/nano-bitcoin/src/lib.rs:386-422 | a caller that repeats failed reads, and rewinds an RPC source past no more than the block it holds, gets a rescan from every read that succeeds |
| BitcoinSource.ReadKeepsReady | crates/nano-bitcoin/src/lib.rs:386-422 | a walk that succeeds leaves the window of its block, so that any height may follow; one that fails may be repeated |
| BitcoinSource.SettledIsReady | crates/nano-bitcoin/src/lib.rs:386-422 | a source that has the window of its last block may be read at any height |
| BitcoinSource.RewindKeepsReady | crates/nano-bitcoin/src/lib.rs:215-225 | after a rewind any height may be read of a REST source, and of an RPC source that gave up one block |
| ExactReads.RanShape | crates/nano-bitcoin/src/lib.rs:363-422 | after the same calls, sources on any two chains of one length remember the same heights and are complete for the same heights |
| ExactReads.ReadyAnswerIsRescan | crates/nano-bitcoin/src/lib.rs:386-422 | after any calls, an answer that has its window is the rescan, on every chain and for all parsers |
| ExactReads.UnreadyAnswerLoses | crates/nano-bitcoin/src/lib.rs:386-422 | with any parsers that accept some operation, after any calls, an answer that lacks a height of its window is wrong on some chain |
| ExactReads.AnswersAreRescansIff | crates/nano-bitcoin/src/lib.rs:386-422 | for all such parsers, after any calls, the next answer is the rescan on every chain if and only if its window is held or read first |
| ExactReads.FreshReadIsRescan | crates/nano-bitcoin/src/lib.rs:386-422 | a fresh source, priming from six blocks back, answers the rescan |
| ExactReads.RewindIsExact | crates/nano-bitcoin/src/lib.rs:215-225 | an RPC source in any sound state, rewound to or below a fork of any depth, answers the rescan of the chain that replaced its own wherever the window is covered |
| ExactReads.RewindExactIff | crates/nano-bitcoin/src/lib.rs:215-225 | for an RPC source that has read one block, that arithmetic condition on last height, rewind and height is exact |
| ExactReads.ForwardReadKeepsReady | crates/nano-bitcoin/src/lib.rs:386-422 | a source that stands on a block with its window may, after a forward read that fails anywhere, be read at any height |
| ExactReads.FailureExactIff | crates/nano-bitcoin/src/lib.rs:386-422 | for a source whose first read failed part way, at a block that did not answer or did not deserialize, which heights are then answered correctly without a retry, exactly |
| ExactRuns.RunSight | crates/nano-bitcoin/src/lib.rs:363-422 | runs with the same calls, answers and block hashes remember the same heights and hashes and are complete for the same heights, whatever the blocks hold |
| ExactRuns.UnreadyReadLoses | crates/nano-bitcoin/src/lib.rs:386-422 | across reorganizations too, and with any parsers that accept some operation, a read that succeeds without its window is wrong in some run with the same calls, answers and hashes |
| ExactRuns.RunReadsAreRescansIff | crates/nano-bitcoin/src/lib.rs:386-422 | across reorganizations, a successful read is the rescan in every run with the same calls, answers and hashes if and only if its window is held or read first |
| BitcoinSource.WalkSucceedsIff | crates/nano-bitcoin/src/lib.rs:400-421 | a walk succeeds exactly when every height of it answers with a block that deserializes |
| BitcoinSource.ReadSucceedsIff | crates/nano-bitcoin/src/lib.rs:386-422 | a read succeeds exactly when the last block is confirmed and it is the one asked for or the walk answers |
| RewardSlots.FromRewardSlots | crates/nano-chainstate/src/nakamoto.rs:162-230 | the aggregating, sorting, handing-out method returns the whole result of the reference, which neither sorts nor loops over seats |
| RewardSlots.CheckedTotal | crates/nano-chainstate/src/nakamoto.rs:182-186 | the checked sum of the stakes, or nothing exactly on 128-bit overflow |
| RewardSlots.HandOut | crates/nano-chainstate/src/nakamoto.rs:209-217 | each of the first spare entries gains one seat and no other changes |
| RewardSlots.SeatShares | crates/nano-chainstate/src/nakamoto.rs:209-218 | handing out and re-sorting never overflows and gives every key its reference seats, in key order |
| RewardSlots.PositionIsRank | crates/nano-chainstate/src/nakamoto.rs:202-208 | the place of a key after sorting is the number of keys that come before it |
| RewardSlots.FloorsFit | crates/nano-chainstate/src/nakamoto.rs:187-201 | the floors never exceed the slots, so the saturating subtraction never saturates |
| RewardSlots.WeightsConserved | crates/nano-chainstate/src/nakamoto.rs:187-218 | the weights add up to the lesser of the slots and the floors plus one per signer |
| RewardSlots.RewardSetTotals | crates/nano-chainstate/src/nakamoto.rs:219-229 | a reward set is a valid signer set of positive weight within the slots, and holds exactly the keys of positive weight |
| RewardSlots.Fair | crates/nano-chainstate/src/nakamoto.rs:187-218 | a weight is its floor or one more; more stake never weighs less; equal stakes differ by one at most, in favour of the smaller key |
| RewardSlots.OnlySumsMatter | crates/nano-chainstate/src/nakamoto.rs:170-181 | inputs with the same total per key get the same whole result |
| RewardSlots.OrderDoesNotMatter | crates/nano-chainstate/src/nakamoto.rs:170-181 | permuting the input changes nothing |
| RewardSlots.SplittingDoesNotMatter | crates/nano-chainstate/src/nakamoto.rs:170-181 | splitting or merging entries of one key changes nothing |
| RewardSlots.SucceedsIff | crates/nano-chainstate/src/nakamoto.rs:162-230 | it succeeds exactly when there are slots and the total stake is positive and fits 128 bits; no overflow branch is reachable |
| LargestRemainder.QuotaIff | crates/nano-chainstate/src/nakamoto.rs:187 | a seat price is at least the threshold exactly when the slots at that price cover the stake |
| LargestRemainder.WeightsAreTheApportionment | crates/nano-chainstate/src/nakamoto.rs:187-218 | the weights are the one assignment that is within a seat of the floors, hands out the slots, and serves larger remainders and then smaller keys first |
| LargestRemainder.WeightNearShare | crates/nano-chainstate/src/nakamoto.rs:187-218 | a bound in stakes and slots alone: no weight is more than a seat above its exact share, nor more than a seat and the rounding of the quota below it |
| LargestRemainder.RewardSetIs | crates/nano-chainstate/src/nakamoto.rs:162-230 | for every list of stackers: the three refusals in order, or the least quota that covers the stake and the signers of that assignment, in key order |
| SignerApproval.TotalWeight | crates/nano-chainstate/src/nakamoto.rs:325-331 | the sum of the weights, or overflow exactly when it does not fit 32 bits |
| SignerApproval.ApprovalThreshold | crates/nano-chainstate/src/nakamoto.rs:334-337 | the least weight with seven tenths of the total, or overflow exactly when the total does not fit |
| SignerApproval.Verify | crates/nano-chainstate/src/nakamoto.rs:373-403 | the cursor scan accepts exactly when the signatures recover to strictly increasing entries that weigh at least seven tenths of the total, and returns that weight; an error names the first fault |
| SignerApproval.DistinctWeight | crates/nano-chainstate/src/nakamoto.rs:373-403 | an accepted weight counts each signer once |
| SignerApproval.WeightInclusion | crates/nano-chainstate/src/nakamoto.rs:325-337 | inclusion and exclusion for the weights of two sets of signers |
| SignerApproval.QuorumsIntersect | crates/nano-chainstate/src/nakamoto.rs:373-403 | any two accepted lists share signers of at least twice the threshold less the total, at least two fifths of it |
| SignerApproval.DigestIgnoresSigners | crates/nano-chainstate/src/nakamoto.rs:42-46 | what signers sign does not depend on the signer signatures |
| SignerApproval.OrderResponses | crates/nano-chainstate/src/nakamoto.rs:340-366 | it succeeds exactly when the responses come from distinct known signers with seven tenths of the weight, with an accepted list that is a permutation of them; an error names the first response at fault, or the weight |
| SignerApproval.OneArrangement | crates/nano-chainstate/src/nakamoto.rs:340-366 | permuted responses succeed alike and have the same single accepted order |
| SignerApproval.AcceptedArrangesItself | crates/nano-chainstate/src/nakamoto.rs:340-366 | a list accepted already is its own and only arrangement |
| Checkpoint.RewardSetNeedsSignatures | crates/nano-chainstate/src/nakamoto.rs:256-268 | every apportioned reward set has positive weight and refuses an empty list of signatures |
| Checkpoint.AttestCheckpoint | crates/nano-follower/src/checkpoint.rs:107-135 | a checkpoint is attested exactly when the approved header has its identifier, height and state root, with the weight of its distinct signers; height, identifier, root and signers are refused in that order, the signers with the fault of their set or of the scan |
| Checkpoint.AttestationsAgree | crates/nano-follower/src/checkpoint.rs:107-135 | two attested checkpoints with one state identifier are the same checkpoint, by whatever signer sets |
| Checkpoint.AttestationsOverlap | crates/nano-follower/src/checkpoint.rs:107-135 | two attestations by one signer set share two fifths of its weight |
| Wire.BigEndianRoundTrip | crates/nano-chainstate/src/nakamoto.rs:853-863 | a number that fits its width is read back |
| Wire.BigEndianDigit | crates/nano-chainstate/src/nakamoto.rs:931-937 | each byte of a number is its digit, the most significant first |
| Wire.Reader.TakeBytes | crates/nano-chainstate/src/nakamoto.rs:832-843 | the reader takes the next bytes or fails without moving |
| BlockCodec.ReadBlock | crates/nano-chainstate/src/nakamoto.rs:483-518 | the in-place decoder returns block, length or error of the parser `DecodePrefix` |
| BlockCodec.WriteBlock | crates/nano-chainstate/src/nakamoto.rs:522-530 | the in-place encoder writes `Encode` |
| BlockCodec.ReadHeader | crates/nano-chainstate/src/nakamoto.rs:483-505 | the header reader parses and leaves what the header parser parses and leaves |
| BlockCodec.ReadSignatures | crates/nano-chainstate/src/nakamoto.rs:869-875 | a counted list of signatures, refused before allocation when the input cannot hold it |
| BlockCodec.ReadBits | crates/nano-chainstate/src/nakamoto.rs:877-893 | a bit vector of 1 to 4000 bits, in exactly the bytes its length takes |
| BlockCodec.ReadMarkers | crates/nano-chainstate/src/nakamoto.rs:895-910 | markers only in the versions that carry them |
| BlockCodec.WriteMarkers | crates/nano-chainstate/src/nakamoto.rs:92-103 | markers are written only in the versions that carry them |
| BlockCodec.GetBitsFront | crates/nano-primitives/src/lib.rs:201-305 | a bit vector is read back from its encoding, whatever follows |
| BlockCodec.GetHeaderFront | crates/nano-chainstate/src/nakamoto.rs:62-103 | a header is read back, up to markers its version does not carry, whatever follows |
| BlockCodec.HeaderRewritten | crates/nano-chainstate/src/nakamoto.rs:62-103 | a header that parses re-encodes to the bytes it came from |
| BlockCodec.DecodeInvertsEncode | crates/nano-chainstate/src/nakamoto.rs:483-530 | decoding an encoding followed by anything gives the block and its length if and only if the block is canonical: no uncarried markers, distinct transactions, matching Merkle root |
| BlockPrefixes.EncodedOutcome | crates/nano-chainstate/src/nakamoto.rs:483-530 | what decoding makes of any encoded block, canonical or not, whatever follows: duplicate transactions, then the wrong root, then the block without uncarried markers |
| BlockPrefixes.WholeOutcome | crates/nano-chainstate/src/nakamoto.rs:473-480 | decoded as one complete block, the same, but that any byte after it is refused |
| BlockPrefixes.DecodeIgnoresRest | crates/nano-chainstate/src/nakamoto.rs:483-518 | what decodes at the front of some bytes decodes alike with more after them |
| BlockPrefixes.CutShortRefused | crates/nano-chainstate/src/nakamoto.rs:483-518 | a canonical block cut short anywhere decodes to no block |
| BlockSpellings.EncodeInvertsDecode | crates/nano-chainstate/src/nakamoto.rs:483-530 | whatever decodes re-encodes to as many bytes as were consumed, each the same but for version bytes, which keep their top bit; and to the same bytes if and only if each transaction starts with 0 or 128 |
| BlockSpellings.DecodesToIff | crates/nano-adversarial/src/lib.rs:260-272 | the byte strings that begin with a given block are exactly those that differ from its encoding in low bits of version bytes, and the block must be canonical |
| BlockSpellings.ReencodedDecodes | crates/nano-adversarial/src/lib.rs:270-272 | what was decoded, encoded again and followed by anything, decodes to the same block and length |
| BlockSpellings.VersionByteIgnored | crates/nano-codec/src/lib.rs:307-320 | any version byte may be replaced by one with the same top bit and the bytes decode to the same block; unless it is that bit alone, they are no longer its encoding |
| BlockSpellings.OneForZero | crates/nano-codec/src/lib.rs:771-777 | the failing input of an exact round trip: the first version byte 0 replaced by 1 decodes to the block and is not its encoding |
| BlockSpellings.SomeStartAtZero | crates/nano-codec/src/lib.rs:307-320 | there are a codec and a block that meet every condition of that |
| BlockCodec.DecodeBlocks | xtask/src/main.rs:2309-2394 | the stream loop terminates with the blocks before the first fault, and the fault |
| BlockCodec.StreamRecovered | xtask/src/main.rs:2309-2394 | any list of canonical blocks, encoded back to back, is recovered in full |
| BlockSpellings.StreamRewritten | xtask/src/main.rs:2309-2394 | a stream that decodes without fault is its blocks encoded back to back but for low bits of version bytes, and exactly that if and only if each transaction starts with 0 or 128 |
| BlockSpellings.StreamDecodesToIff | xtask/src/main.rs:2309-2394 | the streams that decode to a list of blocks are exactly those that differ from their encodings back to back in low bits of version bytes |
| SignedHeader.WriteSigningBytes | crates/nano-chainstate/src/nakamoto.rs:70-79 | the written preimage is `SigningBytes` |
| SignedHeader.PreimageInjective | crates/nano-chainstate/src/nakamoto.rs:70-103 | two headers have one signing preimage exactly when they agree on every field it covers |
| SignedHeader.BlockIdBindsHeader | crates/nano-chainstate/src/nakamoto.rs:54-60 | block identifiers agree exactly when the headers agree up to signer signatures and uncarried markers |
| HeaderLayout.HeaderLaid | crates/nano-chainstate/src/nakamoto.rs:62-103 | every field of an encoded header lies at its offset: the fixed fields up to byte 206, the signatures from 210, 65 bytes each, the bit vector, and five bytes a marker unless the version is 0 or 128 |
| HeaderLayout.SignedIsTheEncodingCut | crates/nano-chainstate/src/nakamoto.rs:70-79 | what is signed is the encoding without the signer signatures, and for the miner without its own |
| HeaderLayout.BlockIdOfBytes | crates/nano-chainstate/src/nakamoto.rs:40-60 | a block identifier, from the bytes of the header alone |
| HeaderLayout.ShortHeader | crates/nano-chainstate/src/nakamoto.rs:483-505 | input that ends within the fixed fields is refused for ending |
| HeaderLayout.BitsReadIff | crates/nano-chainstate/src/nakamoto.rs:877-893 | a bit vector is read exactly when it has 1 to 4000 bits and the bytes they need, and which error it is refused with |
| HeaderLayout.SignaturesReadIff | crates/nano-chainstate/src/nakamoto.rs:869-875 | a count of signatures is refused exactly when the input cannot hold them |
| HeaderLayout.MarkersReadIff | crates/nano-chainstate/src/nakamoto.rs:895-910 | a count of markers is refused exactly when the input cannot hold them |
| TenureShape.ExactlyThreeShapes | crates/nano-chainstate/src/authenticate.rs:370-442 | the checks accept exactly blocks without tenure transactions, blocks that open a tenure with a change then its coinbase, and blocks that open with a lone extension, each with its linkage |
| TenureShape.RefusedIff | crates/nano-chainstate/src/authenticate.rs:370-442 | which refusal a block gets: counts, a coinbase alone, cause, position, parent, consensus hash, previous tenure, the first that applies |
| TenureShape.CheckProblematicMarkers | crates/nano-chainstate/src/authenticate.rs:450-476 | the loop accepts exactly marker lists within the cap, strictly rising, in bounds and naming no tenure transaction; a refusal names the first marker at fault and its fault |
| TenureShape.SkippingKeepsStructure | crates/nano-chainstate/src/authenticate.rs:450-488 | deleting the marked transactions keeps the tenure transactions, in order |
| TenureShape.SkippingKeepsShape | crates/nano-chainstate/src/authenticate.rs:370-476 | deleting the marked transactions of an accepted block leaves a block the checks still accept |
| HistoryExport.CollectSuffix | xtask/src/main.rs:3776-3794 | the backwards walk finds the tenure so far, within the limit, if there is one |
| HistoryExport.FindBoundary | xtask/src/main.rs:3796-3812 | the second walk stops at the nearest earlier tenure start |
| HistoryExport.TenureUpToIff | xtask/src/main.rs:3776-3794 | walking back returns a list exactly when it is the tenure: parent-linked, of contiguous heights, and only its first block a start |
| HistoryExport.BoundaryStartsTenure | xtask/src/main.rs:3796-3812 | the boundary is the first block of the tenure that ends at the parent |
| HistoryExport.StartsAsChecked | crates/nano-chainstate/src/lib.rs:4331-4339 | a block that passes the tenure check is a start here exactly when it opens a tenure there |
| HistoryExport.VrfProofIff | crates/nano-chainstate/src/lib.rs:4215-4223 | the proof is that of the first coinbase that carries one |
| HistoryExport.ExportHistory | xtask/src/main.rs:3749-3839 | success returns an export as specified; failure means there is none, with the block at which a walk stopped and why, the wrong root, or the missing proof |
| TenureLedger.TenureAccounting.ForgetUnreadable | crates/nano-chainstate/src/lib.rs:665-672 | removing the oldest row until few enough are left keeps exactly the rows with few enough newer ones |
| TenureLedger.TenureAccounting.SeedEarnings | crates/nano-chainstate/src/lib.rs:572-575 | the whole ledger after a seeded row |
| TenureLedger.TenureAccounting.RecordEarnings | crates/nano-chainstate/src/lib.rs:639-643 | the whole ledger after a recorded tenure |
| TenureLedger.TenureAccounting.AddFees | crates/nano-chainstate/src/lib.rs:676-683 | fees count, saturating, only for the tenure whose start was seen |
| TenureLedger.TenureAccounting.RetractFrom | crates/nano-chainstate/src/lib.rs:580-595 | the whole ledger after a retraction, counting resumed in the newest surviving tenure |
| TenureLedger.TenureAccounting.StartTenure | crates/nano-chainstate/src/lib.rs:2519-2536 | a start records its own earnings when the ledger has a schedule, fails without a coinbase, and then returns what matures from the new ledger |
| TenureLedger.TenureAccounting.KnownSpan | crates/nano-chainstate/src/lib.rs:613-623 | the longest contiguous run of tenures that ends at the newest, or nothing for an empty ledger |
| TenureLedger.TenureAccounting.CheckMaturityWindow | crates/nano-follower/src/startup.rs:201-213 | a ledger passes exactly when it holds the hundred rows below its newest, or all since the first tenure |
| TenureLedger.PrunedOnce | crates/nano-chainstate/src/lib.rs:572-575 | forgetting after every row is forgetting once at the end |
| TenureLedger.PrunedIsTop | crates/nano-chainstate/src/lib.rs:665-672 | what is kept is the rows above all others, as many as the limit |
| LedgerRuns.PruningLosesNoPayout | crates/nano-chainstate/src/lib.rs:665-748 | over every run of starts, fees and retractions in reach, from any ledger with a schedule or without and with seeded rows and effects ahead of its tip, the pruned ledger's payouts equal those of a ledger that forgets nothing, failures included |
| LedgerRuns.PaysForeverIff | crates/nano-chainstate/src/lib.rs:689-748 | any ledger whatever pays every sequence of following tenures in full if and only if it has a schedule and each tenure to come has matured effects or its two rows, recorded by then and not yet forgotten |
| LedgerRuns.UnscheduledNeverPays | crates/nano-chainstate/src/lib.rs:2519-2536 | without a schedule no start is recorded, and some run of starts cannot be paid |
| LedgerRuns.AlwaysPaysMeans | crates/nano-chainstate/src/lib.rs:699-748 | paying in full is, at every start, the seeded effects, or nothing yet, or the coinbase of the matured tenure and the fees of the one before it |
| LedgerRuns.NearIsRoomy | crates/nano-chainstate/src/lib.rs:665-672 | rows that reach no further than a maturity window past the tip leave that room |
| LedgerRuns.PayableIsOwed | crates/nano-chainstate/src/lib.rs:665-748 | with fewer than a hundred rows above every tenure to be derived, forgetting drops out of that condition |
| LedgerRuns.OwedIsWindow | crates/nano-chainstate/src/lib.rs:689-748 | with no effects ahead of the tip, the condition is the last hundred and one rows |
| LedgerRuns.OwedRunPays | crates/nano-chainstate/src/lib.rs:580-748 | in a run whose retractions leave what is owed, every start is paid in full |
| LedgerRuns.RowsAreBooked | crates/nano-chainstate/src/lib.rs:580-683 | after any run from any ledger with a schedule, pruned or not, the row of a tenure that started in the run, if it is left, holds the recipient and coinbase of that start, and its fees and all fees at that tip since, saturated at 128 bits |
| LedgerRuns.BookIs | crates/nano-chainstate/src/lib.rs:580-683 | which tenures those are, and what they have: a tenure that started and that no later retraction reached, with the fees of its start and of every event while it was at the tip |
| LedgerRuns.BookedPayout | crates/nano-chainstate/src/lib.rs:699-748 | a payout in full that draws on two tenures of the run pays that coinbase and those fees |
| LedgerRuns.PayoutIs | crates/nano-chainstate/src/lib.rs:699-748 | what a tenure pays, exactly: seeded effects, nothing up to tenure 100, or the coinbase of the tenure a hundred back and the fees of the one before that; short of those rows, the failure or what is paid instead |
| LedgerRuns.FeesPaidOnce | crates/nano-chainstate/src/lib.rs:699-748 | the fees of a tenure are paid a hundred and one tenures later, and no other payout depends on them |
| LedgerRuns.CoinbasePaidOnce | crates/nano-chainstate/src/lib.rs:699-748 | the coinbase of a tenure is paid a hundred tenures later, and no other payout depends on it |
| LedgerRuns.RunPays | crates/nano-chainstate/src/lib.rs:699-748 | in a run that pays, each derived payout is the coinbase and the fees recorded for its two tenures, by the run or before it |
| LedgerRuns.FeesConserved | crates/nano-chainstate/src/lib.rs:699-748 | over such a run the fees credited add up to the fees of the tenures they belong to |
| LedgerRuns.RetractionReach | crates/nano-chainstate/src/lib.rs:580-595 | how deep a retraction an unbroken stretch of rows survives, exactly |
| LedgerRuns.FullLedgerMargin | crates/nano-chainstate/src/lib.rs:229 | a full ledger survives a retraction if and only if it is at most one maturity window deep |
| LedgerRuns.RetractInReach | crates/nano-chainstate/src/lib.rs:580-595 | a retraction that leaves what is owed makes nothing readable that the pruned ledger has forgotten |
| LedgerRuns.OwedRunInReach | crates/nano-chainstate/src/lib.rs:580-595 | a run whose retractions leave what is owed, judged by the pruned ledger alone, stays within its reach |
| LedgerRuns.StartupExact | crates/nano-follower/src/startup.rs:201-213 | a ledger that passes the startup check pays for ever if and only if it has a schedule, the tenures up to its newest row are provided for, and its rows, or matured effects, reach the node's own tip |
| LedgerRuns.StartupExactWithoutCheckpoint | crates/nano-follower/src/startup.rs:193-213 | with nothing ahead of the tip, that is a schedule, and a row at the tip or a chain that has not begun |
| LedgerRuns.StartupMisses | crates/nano-follower/src/startup.rs:193-213 | the check passes the default ledger, an empty ledger at tenure 1 and a ledger one row behind its tip, and none can pay |
| CheckpointWindow.FromCheckpoint | crates/nano-chainstate/src/lib.rs:448-496 | seeding row by row gives the newest rows of the whole checkpoint, exactly its matured effects, its start and its schedule; duplicate matured heights are refused |
| CheckpointWindow.RefuseShortWindow | xtask/src/main.rs:3868-3904 | where its 64-bit sums fit, a window is accepted exactly when it is non-empty, without holes, up to the tip and longer than the maturity; where they do not, only a build that wraps can accept |
| CheckpointWindow.RefusedWindow | xtask/src/main.rs:3868-3904 | which refusal any window gets, in a build that checks its sums and in one that wraps: no rows, the first hole, overflow, stopping short, or too few rows |
| CheckpointWindow.GuardAccepts | xtask/src/main.rs:3868-3904 | an ascending window is judged alike by a build that checks its sums and one that wraps |
| CheckpointWindow.AcceptedWindowHoldsBothRows | xtask/src/main.rs:3204-3228 | both rows that each of the next hundred payouts reads lie in an accepted window |
| CheckpointWindow.SeededMirrors | crates/nano-chainstate/src/lib.rs:448-496 | seeding forgets no row that is still to be read |
| CheckpointWindow.AcceptedWindowExact | xtask/src/main.rs:3868-3904 | a node seeded from an accepted window, at any tip and with any matured effects, pays for ever if and only if it has a schedule and is caught up |
| CheckpointWindow.CheckpointPaysIff | xtask/src/main.rs:3248-3290 | a checkpoint whose effects cover the captured tenures pays for ever if and only if it carries a schedule and its node stands no higher than the newest row of its window |
| CheckpointWindow.RefusedYetPays | xtask/src/main.rs:3868-3904 | a window with a hole that no payout reads any more is refused although it would pay |
| LineProtocol.ReadLine | crates/epoch4-consensus/src/host.rs:200-245 | however the input is chunked, result and remaining bytes are those of the specification on the raw bytes, and the buffer stays within the limit |
| LineProtocol.TerminatedLine | crates/epoch4-consensus/src/host.rs:200-245 | a terminated line is consumed through its newline: ready, too long, or an error when it is not UTF-8 |
| LineProtocol.UnterminatedLine | crates/epoch4-consensus/src/host.rs:207-244 | input that ends without a newline: a fault, too long, a clean end, or truncation |
| Executor.ServeOver | crates/epoch4-consensus/src/host.rs:82-155 | the loop greets and then writes the replies, and ends with the tip and the read fault, if any, of the specification on the raw bytes |
| Executor.AnswerInPlace | crates/epoch4-consensus/src/lib.rs:48-105 | one line's reply and the new stand, over parse errors, refusals, seeding and application |
| Executor.SuccessorIff | crates/nano-chainstate/src/nakamoto.rs:539-557 | a block follows a parent exactly when identifier, height, time and tenure link; a fault names the first that does not |
| Executor.AcceptsIff | crates/epoch4-consensus/src/lib.rs:75-105 | a block is accepted exactly when it follows the tip, is authenticated in the state at hand and commits in the state that leaves |
| Executor.DecideIs | crates/epoch4-consensus/src/lib.rs:48-105 | the whole decision: which check refuses it and with what, and the state and tip it leaves |
| Executor.ServedExplained | crates/epoch4-consensus/src/host.rs:82-155 | over every run, each reply is explained by its line and where the replies before it left the executor: too long, unparsed, unopened, a header that fails to record, or that decision |
| Executor.EveryLineAnswered | crates/epoch4-consensus/src/host.rs:82-155 | every terminated line that is too long or UTF-8 gets exactly one reply, in order, whatever came before |
| Executor.AcceptedFormAChain | crates/epoch4-consensus/src/lib.rs:75-105 | over every run the accepted blocks form a parent-linked chain from the starting tip to the final one |
| Executor.ChainRises | crates/nano-chainstate/src/nakamoto.rs:539-557 | along it timestamps rise strictly, heights by one below the 64-bit limit, and no block repeats |
| DepositScript.EncodeScriptNumber | crates/nano-bitcoin/src/sbtc.rs:117-134 | trimming and padding give the closed form of a non-negative script number |
| DepositScript.MinimalIsShortest | crates/nano-bitcoin/src/sbtc.rs:117-134 | no shorter bytes with a clear sign bit decode to the same number |
| DepositScript.GetScriptNumberFront | crates/nano-bitcoin/src/sbtc.rs:117-134 | a script number is read back, whatever follows |
| DepositScript.GetPushFront | crates/nano-bitcoin/src/sbtc.rs:86-115 | pushed data of any length is read back, whatever follows |
| DepositScript.GetCompactSizeFront | crates/nano-bitcoin/src/sbtc.rs:162-186 | a compact size is read back, whatever follows |
| DepositScript.DepositLeafInjective | crates/nano-bitcoin/src/sbtc.rs:65-77 | deposit scripts are equal exactly when key, fee and recipient are |
| DepositScript.ReclaimLeafInjective | crates/nano-bitcoin/src/sbtc.rs:79-84 | reclaim scripts are equal exactly when lock time and user script are |
| DepositScript.LeavesDiffer | crates/nano-bitcoin/src/sbtc.rs:65-84 | no deposit script is a reclaim script |
| DepositScript.LeafPreimageInjective | crates/nano-bitcoin/src/sbtc.rs:136-142 | leaf preimages are equal exactly when the scripts are |
| DepositScript.BranchPreimagePair | crates/nano-bitcoin/src/sbtc.rs:144-151 | branch preimages are equal exactly when the unordered pairs of leaves are |
| DepositScript.RootFixesDeposit | crates/nano-bitcoin/src/sbtc.rs:45-51 | with no collision among the hashes compared, the Merkle root fixes all five parameters of a deposit |
| DepositScript.MerkleRootIs | crates/nano-bitcoin/src/sbtc.rs:136-160 | the root is the tagged branch hash over the two tagged leaf hashes, the smaller first, as BIP 341 has it; there is none exactly when the data cannot be pushed |
| DepositScript.OutputKeyIs | crates/nano-bitcoin/src/sbtc.rs:34-63 | there is an output key exactly when the aggregate key is on the curve and the tweak of the root is good, and it is the tweaked internal key |
| DepositScript.OutputKeyFixesDeposit | crates/nano-bitcoin/src/sbtc.rs:34-63 | output keys are equal exactly when the deposits are, with no collision among the hashes and tweaks compared |
| DepositScript.WaterfallBytes | crates/nano-bitcoin/src/sbtc.rs:18-32 | the reclaim script and the pushed fee of a waterfall commitment, byte for byte |
| DepositScript.WaterfallKeyFixes | crates/nano-bitcoin/src/sbtc.rs:18-32 | its output key fixes the recipient and the last 32 bytes of the aggregate key |

## Left out

- PreStx.PreStxCache.Decode: a transaction index beyond 32 bits is not refused, because a Bitcoin block cannot hold that many.
- BitcoinSource.Source.BlockAt: HTTP and RPC transport and JSON are reduced to which heights answer and which answers deserialize; the chain is fixed during one call.
- BlockCodec.ReadBlock: the overflow check on the read offset is not modelled, since an offset never leaves the input.
- HistoryExport.ExportHistory: the archive is a map from identifier to block; the columns stored beside a block are not modelled.
- TenureLedger.TenureAccounting.StartTenure: Bitcoin operations and the amounts of the emission schedule are not modelled; whether there is a schedule is.
- CheckpointWindow.FromCheckpoint: JSON and the parsing of principals are not modelled.
- Executor.ServeOver: failures to write a reply, the handshake that reads the starting block, and the JSON of records are not modelled.
- DepositScript.OutputKeyFixesDeposit: the curve is a parameter: which bytes are a point or a scalar, and where a scalar moves a point.
- Signer sets from stacked amounts (`from_stacked_amounts`): a filter and a division, which the apportionment subsumes.
- The Clarity virtual machine, the MARF, sortition, transaction authentication and commit: parameters where a modelled function calls them.
- The receipts digest, decision and request records, addresses: field copying, settled by reading single branches.
- Parsers of operation fields and of addresses in outputs: parameters of the decoder.
- Release, archive and adversarial tooling, build scripts, fuzz targets, benches: not consensus logic.
