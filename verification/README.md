# NOVA protocol: a Dafny model of its core

This project models the parts of the NOVA protocol in which state, arithmetic and hashing meet, and
proves what they are for: the recovery of a secret from Shamir shares, the binding of Merkle roots,
block hashes and the account-state root, block production, synchronisation and consensus rounds as
state machines, the mempool, gossip and its coverage, the canonical transaction bytes, and the token factory.
`dafny verify dfyconfig.toml` checks all of it.

How it is built:

- Source objects that update fields are classes (`StateTree.Tree`, `Mempool.TransactionPool`,
  `NovaDb.NovaDB`, `SyncEngine.Engine`, `Consensus.ConsensusEngine`, `Producer.BlockProducer`,
  `ConsensusLoop.Loop`, `Gossip.GossipProtocol`, `TokenFactory.TokenContract`). Each method is proved
  against a function of the old state, and the theorems are about those functions.
- Hash functions, JSON and binary encodings, signing, verification, upper-casing, clocks, fresh ids
  and random coefficients are parameters. Nothing is assumed of a hash function: binding theorems end
  in "or two different strings *among those actually hashed* share a digest" (`Bytes.Collision`), for
  chains and the state tree also "or one of them hashes to the all-zero digest".
- 64-bit integers are `u64`; additions that wrap in a release build are written `WrapAdd`.
- GF(256) is computed on bytes as in the source (`Gf256`); its algebra is proved on bit records
  (`Gf256Bits`) and carried over.

Where the code and its documentation disagree, or the code falls short of what a reader may expect, the
model follows the code and states the exact condition:

- `apply_blocks` is documented to keep the blocks before an offending one and to leave the rest in the
  state before the call. The first half is `Sync.RejectionKeepsPrefix`; after a state error the second is
  true exactly when the first transfer of the failing block failed (`Sync.StateErrorKeepsPrefix`). State
  roots are never compared (`RootsNeverChecked`), stored blocks are executed again when they are sent
  again (`ReapplyInSync`), and so is a repeated last transaction (`RepeatedTail`).
- `get_block_range` is documented to stop at a missing block; the code skips it
  (`RangeStopsAtGap` has the exact condition).
- An empty store reports height 0 as its tip without holding block 0, so syncing from that tip fails
  (`TipPlanNeedsGenesis`).
- The canonical transaction bytes do not always determine the fields: `CurrencyDetermined`,
  `AddressesDetermined` and `PlainAddressesDetermined` say exactly when they determine currency and
  addresses.
- Execution never reads a transaction's nonce, on which `commit_block` relies: `CommittedOnce` and
  `ResubmittedCommits` say when a transaction is committed once, and when again.
- A non-membership proof is verified without comparing its path bits with the address
  (`ExclusionIgnoresAddress`); `ExclusionSound` has the condition under which it excludes the address.
- The quorum threshold counts validator entries, votes count addresses: finality is reachable exactly
  when the active addresses reach the threshold (`FinalityReachable`).
- Crediting a transfer wraps at 2^64; `ExecuteConserves` has the exact condition for conservation.
- `run_single_round` with several active validators cannot finalize with its own vote, but has already
  executed the selection on the state tree; `LoneVoteStalls` says exactly when that does no harm.
- The gossip digest covers the hop count, so a payload is acted on once per hop count, and again after
  an eviction (`EachHopCountActs`, `EntriesConserved`, `RepeatsBounded`).
- The additions of `compute_sync_plan` wrap for large heights and batch sizes; `PlanRightExactly` says
  when its plan is right.

## Model

| member | source | states |
|---|---|---|
| Gf256.BuildExpTable | protocol/src/identity/recovery.rs:103-119 | the loop on integers, shifting, xoring and reducing by 0x11B from 256 on, fills the 512 slots of EXP with the powers of the generator 3 |
| Gf256.BuildLogTable | protocol/src/identity/recovery.rs:122-131 | the LOG table inverts EXP on the non-zero elements |
| Gf256.PowOrder | protocol/src/identity/recovery.rs:103-119 | a positive power of 3 up to the 255th is 1 exactly if it is the 255th |
| Gf256.LogExp | protocol/src/identity/recovery.rs:122-131 | LOG and EXP are inverse both ways, so the tables miss no non-zero byte |
| Gf256.MulIsShiftMul | protocol/src/identity/recovery.rs:150-156 | table multiplication equals shift-and-xor polynomial multiplication modulo 0x11B |
| Gf256.MulAssoc | protocol/src/identity/recovery.rs:150-156 | multiplication is associative |
| Gf256.MulDistributes | protocol/src/identity/recovery.rs:138-156 | multiplication distributes over xor |
| Gf256.DivMul | protocol/src/identity/recovery.rs:160-167 | division by a non-zero element undoes multiplication by it |
| Polynomials.EvalPolynomial | protocol/src/identity/recovery.rs:173-179 | Horner's loop computes the value of the polynomial |
| Polynomials.AgreeingPolysEqual | protocol/src/identity/recovery.rs:16-21 | two polynomials of n coefficients that agree at n distinct points are equal |
| Polynomials.LagrangeInterpolateAtZero | protocol/src/identity/recovery.rs:185-210 | the double loop computes the Lagrange sum at 0 and, on distinct indices, never divides by zero |
| Polynomials.InterpolationRecovers | protocol/src/identity/recovery.rs:185-210 | interpolating at least n values of a polynomial of n coefficients gives it back at every point |
| Polynomials.InterpolantExists | protocol/src/identity/recovery.rs:16-21 | through any n points with distinct abscissas passes a polynomial of n coefficients |
| Shamir.SplitSecret | protocol/src/identity/recovery.rs:337-374 | share i has index i and, for each byte of the secret, the value at i of the polynomial with that byte as constant term; an empty secret is an error |
| Shamir.NewConfig | protocol/src/identity/recovery.rs:289-303 | a threshold below 2 and fewer shares than the threshold are refused with their errors; otherwise the configuration holds the two numbers as given |
| Shamir.RecoverSecret | protocol/src/identity/recovery.rs:400-439 | the checks in the source's order, then byte-wise interpolation at zero |
| Shamir.SplitRecoverRoundTrip | protocol/src/identity/recovery.rs:289-439 | for every secret, every 2 <= t <= n < 256 accepted by the configuration and every choice of coefficients, splitting gives n shares and any t or more of them, in any order, recover exactly the secret |
| Shamir.RecoveryRefuses | protocol/src/identity/recovery.rs:400-439 | fewer than two shares, else the first share of another length, else the first with index zero or an index used before is refused, each with its error |
| Shamir.SharesFitEverySecret | protocol/src/identity/recovery.rs:16-21 | any threshold - 1 shares fit every secret of that length with exactly one choice of coefficients |
| Merkle.MerkleRoot | protocol/src/crypto/hash.rs:212-249 | the library loops over levels and chunks refine the recursive tree, a single leaf being hashed with itself |
| Merkle.ComputeMerkleRoot | protocol/src/storage/block.rs:308-343 | the loops of the transaction root, with their own pairing of an odd node, refine the same recursive tree |
| Merkle.PathReachesRoot | protocol/src/storage/block.rs:308-343 | from the hash of any item, hashing it at each level with its neighbour, the lower position first and the last odd node with itself, ends in the root, of both kinds |
| Merkle.RootsAgree | protocol/src/crypto/hash.rs:212-249 | the two roots agree on every list except a single leaf, where they agree exactly when the leaf is the hash of itself paired with itself |
| Merkle.LeavesRootBinding | protocol/src/crypto/hash.rs:212-249 | equally long leaf lists with the same root are equal, or a collision is exhibited |
| Merkle.ItemsRootBinding | protocol/src/storage/block.rs:308-343 | lists of distinct items, of any two lengths, with the same root are equal, or a collision is exhibited |
| Merkle.DuplicatedTailSameRoot | protocol/src/crypto/hash.rs:234-238 | without distinctness the root does not bind: repeating the last of any odd number of items from three on keeps it |
| Transactions.SignableBytes | protocol/src/transaction/builder.rs:104-146 | the appending code produces the canonical encoding |
| Transactions.IdBytes | protocol/src/transaction/builder.rs:156-175 | the preimage of the id appends tagged proof and commitment to the canonical bytes |
| Transactions.CanonicalLayout | protocol/src/transaction/builder.rs:104-175 | the bytes written out field by field: order, separators, markers and length prefixes |
| Bytes.LittleEndianDigits | protocol/src/transaction/builder.rs:104-146 | byte i of an encoded integer is its i-th digit to the base 256 |
| Transactions.HexDigits | protocol/src/transaction/builder.rs:173-175 | ids are written with two lower-case hexadecimal digits a byte, the high one first |
| Transactions.SignableRoundTrip | protocol/src/transaction/builder.rs:104-146 | a decoder reads back every covered field and stops exactly at the end, for NUL-free strings and byte fields under 2^32 |
| Transactions.IdPreimageRoundTrip | protocol/src/transaction/builder.rs:156-175 | the same for the id preimage, proof and commitment included |
| Transactions.SignableInjective | protocol/src/transaction/builder.rs:104-146 | canonical bytes are equal exactly when all covered fields are, the currency by name, or itself where no custom ticker has a built-in name |
| Transactions.CurrencyNameInjective | protocol/src/transaction/types.rs:109-122 | names tell currencies apart unless a custom ticker has a built-in name |
| Transactions.CurrencyDetermined | protocol/src/transaction/builder.rs:104-146 | the bytes determine the covered fields among all encodable transactions exactly when the currency is a custom ticker without a built-in name |
| Transactions.SameHead | protocol/src/transaction/builder.rs:104-119 | equal bytes always mean equal version, equal type and equal bytes after them |
| Transactions.MovedSplit | protocol/src/transaction/builder.rs:115-122 | a NUL in an address lets the boundary between the addresses move there without changing the bytes |
| Transactions.AddressesDetermined | protocol/src/transaction/builder.rs:104-146 | the bytes determine the addresses among all transactions exactly when they split into fields at no other addresses |
| Transactions.PlainAddressesDetermined | protocol/src/transaction/builder.rs:104-146 | without payload that is exactly when neither address contains a NUL and no NUL byte of the amount, with text before it and a longer currency name behind it, can end a longer receiver |
| Transactions.IdBinding | protocol/src/transaction/builder.rs:156-175 | transactions with the same id agree on every covered field, proof and commitment, or a collision is exhibited |
| Blocks.GenesisVerifies | protocol/src/storage/block.rs:113-146 | the genesis block, at height 0 over a zero parent and without transactions, passes verification |
| Blocks.NewBlockVerifies | protocol/src/storage/block.rs:160-253 | a block built on a parent verifies, whatever signature is set afterwards, exactly unless its height wrapped to 0 over a non-zero parent hash |
| Blocks.RepeatedTailVerifies | protocol/src/storage/block.rs:224-253 | verification does not ask for distinct transactions: an odd number of them from three on verifies alike with the last repeated |
| Blocks.ValidateBlockChain | protocol/src/network/sync.rs:483-517 | dry-run validation reports the first fault in the source's order of checks, or accepts |
| Blocks.FaultIsReal | protocol/src/network/sync.rs:483-517 | a refusal names the first faulty block: the blocks before it form an accepted chain, and it has the very fault reported, with the heights reported |
| Blocks.PreimageParts | protocol/src/storage/block.rs:279-295 | where each header field stands in the hashed bytes |
| Blocks.TxRootPath | protocol/src/storage/block.rs:308-343 | the transaction root is the end of the path from the JSON of every transaction |
| Blocks.PreimageInjective | protocol/src/storage/block.rs:279-295 | the header preimage determines every field it covers |
| Blocks.TxRootBinding | protocol/src/storage/block.rs:308-343 | the same transaction root over distinct transactions means the same transactions, or the hash is broken |
| Blocks.BlockHashBinding | protocol/src/storage/block.rs:224-295 | two verified blocks with one hash agree on all covered header fields and, when distinct, on transactions, or the hash is broken |
| Blocks.ChainBinding | protocol/src/network/sync.rs:483-517 | two accepted chains from one start height with the same last hash have the same length and content at every height, or the hash is broken |
| KeyBits.GetBitIsBit | protocol/src/storage/state.rs:186-196 | the shift-and-mask bit lookup reads the key's bit string from the most significant bit |
| KeyBits.BitExact | protocol/src/storage/state.rs:186-196 | bit i of a key is the bit of weight 128 >> (i mod 8) of byte i / 8 |
| KeyBits.StorageKeyLayout | protocol/src/storage/state.rs:212-234 | a node key is the level as a big-endian u16 and the path bits down to the node, filled up with zeros to whole bytes |
| KeyBits.StorageKeyInjective | protocol/src/storage/state.rs:212-234 | node storage keys coincide exactly when level and path prefix do |
| KeyBits.ValueKeyApart | protocol/src/storage/state.rs:212-256 | keys of leaf values never meet node keys in the tree they share |
| KeyBits.FlippedBits | protocol/src/storage/state.rs:237-247 | flipping a bit of the key bytes flips exactly that bit of the path |
| StateTree.OffPathUnchanged | protocol/src/storage/state.rs:348-407 | writing one leaf changes only the nodes on its path |
| StateTree.StateRootPath | protocol/src/storage/state.rs:262-407 | along the path of any key: the leaf is the hash of key and encoded account or zeros, a node the hash of its children with the right one second, and the top node the root |
| StateTree.ReadSiblingCorrect | protocol/src/storage/state.rs:237-247 | the sibling read under the flipped byte key, or the default for a missing one, is the hash of the subtree on the other side |
| StateTree.StorePath | protocol/src/storage/state.rs:375-405 | the bottom-up loop over byte keys leaves every node on disk right for the updated map and returns the new root |
| StateTree.Tree.constructor | protocol/src/storage/state.rs:304-310 | a new tree has the root of the empty map |
| StateTree.RootOfHistory | protocol/src/storage/state.rs:21-22 | two histories of writes with the same last write under every key end in the same root; histories with one root agree at every key, or the hash is broken |
| StateTree.Tree.Get | protocol/src/storage/state.rs:329-337 | reads the account stored under the hash of the address |
| StateTree.Tree.Put | protocol/src/storage/state.rs:348-407 | updates one account and keeps every stored node, value and the root in agreement with the map |
| StateTree.Tree.GetProof | protocol/src/storage/state.rs:413-441 | returns the honest proof of what the map holds at the address |
| StateTree.VerifyProof | protocol/src/storage/state.rs:448-483 | the loop decides the recursive climb from leaf to root |
| StateTree.ProofSound | protocol/src/storage/state.rs:448-483 | an accepted inclusion proof means the account is in the map with that state; an accepted exclusion proof means no account at the position it names; or the hash is broken |
| StateTree.ExclusionSound | protocol/src/storage/state.rs:448-483 | with the address's own path bits an accepted exclusion proof excludes the address, or the hash is broken |
| StateTree.ExclusionIgnoresAddress | protocol/src/storage/state.rs:448-483 | an exclusion proof accepted for one address is accepted for every address |
| StateTree.PresentAccountExcluded | protocol/src/storage/state.rs:448-483 | hence a present account passes with the honest exclusion proof of an absent one |
| StateTree.ProofComplete | protocol/src/storage/state.rs:413-483 | the honest proof of any address is accepted and names the address's own position |
| StateTree.StateRootBinding | protocol/src/storage/state.rs:21-22 | maps with the same root agree at every key, or the hash is broken on the strings along that key's path |
| Ledger.ApplyTransfer | protocol/src/storage/state.rs:506-534 | updates the state tree by the transfer that `TransferExact` describes, self-transfers included; an error changes nothing |
| Ledger.TransferExact | protocol/src/storage/state.rs:506-534 | executes exactly when the sender is not frozen and has the amount, each refusal with its error; then the sender loses and the receiver gains the amount modulo 2^64, the nonce goes up by one and no other field or account changes |
| Ledger.OthersWithoutEffect | protocol/src/network/producer.rs:304-331 | every other kind of transaction succeeds and changes nothing |
| Ledger.ReplayBalance | protocol/src/network/sync.rs:436-453 | after a replay every balance is the old one plus what was received minus what was sent, modulo 2^64 and exactly so while the total fits 64 bits |
| Ledger.ExecuteAllBalance | protocol/src/network/producer.rs:234-267 | the same for the producer's execution, over the transactions it kept |
| Ledger.ExecuteAllResults | protocol/src/network/producer.rs:234-267 | the result of each candidate is that of executing it on what the candidates before left, and exactly those without error are kept, in order |
| Ledger.ExecuteTransaction | protocol/src/network/producer.rs:304-331 | transfers are applied, other kinds accepted without effect |
| Ledger.ExecuteConserves | protocol/src/storage/state.rs:506-534 | a transaction conserves the total balance exactly when the credit does not wrap, which it cannot while the total fits 64 bits |
| Ledger.KeptReplays | protocol/src/network/producer.rs:234-267 | strictly replaying what the producer kept fails nowhere and reaches the producer's state |
| Ledger.ReplayConserves | protocol/src/network/sync.rs:436-453 | replay conserves the total balance |
| Ledger.ReplayUnchanged | protocol/src/network/sync.rs:436-453 | a replay that succeeds leaves the accounts as they were exactly when it holds no transfer |
| Ledger.FailedReplayUnchanged | protocol/src/network/sync.rs:436-453 | a replay that fails has changed nothing exactly when its first transfer failed |
| Ledger.ExecuteAllUnchanged | protocol/src/network/producer.rs:234-267 | the producer's execution leaves the accounts as they were exactly when every candidate transfer fails on them |
| Mempool.LessTotal | protocol/src/network/mempool.rs:74-96 | the fee key order is total |
| Mempool.LessTransitive | protocol/src/network/mempool.rs:74-96 | the fee key order is transitive |
| Mempool.KeysOrderEntries | protocol/src/network/mempool.rs:74-96 | fee keys order entries by higher density, then earlier arrival, then smaller id |
| Mempool.FeePerByteExact | protocol/src/transaction/builder.rs:185-191 | the density is the fee over the size rounded down, and 0 for size 0 |
| Mempool.AddConsistent | protocol/src/network/mempool.rs:222-280 | every outcome of an add keeps entries, fee index, sender counts and limits in agreement |
| Mempool.AddErrors | protocol/src/network/mempool.rs:222-280 | when each error is returned, over the entries: id pooled, fee below the minimum, sender at its limit, or pool full and no entry of lower density |
| Mempool.AddEffect | protocol/src/network/mempool.rs:222-280 | a success enters the transaction with its time and density, at capacity in place of the entry served last, and leaves every other entry |
| Mempool.WithoutAllConsistent | protocol/src/network/mempool.rs:283-297 | removing any ids removes exactly those entries and keeps the agreement |
| Mempool.ReachableConsistent | protocol/src/network/mempool.rs:222-442 | after every sequence of calls the fee index is exactly the stored keys in order, each sender count exactly that sender's entries with no zero, and the limits hold |
| Mempool.SelectionOptimal | protocol/src/network/mempool.rs:315-329 | selection returns min(k, size) distinct pooled transactions by non-increasing density, and no choice of at most k has a larger total density |
| Mempool.SelectionOrder | protocol/src/network/mempool.rs:315-329 | selection is in order of service, and every pooled transaction not selected so far comes after those selected |
| Mempool.HoldsBestDensities | protocol/src/network/mempool.rs:222-280 | over any run of eligible adds the pool holds exactly the max_size largest densities offered |
| Mempool.TransactionPool.constructor | protocol/src/network/mempool.rs:201-208 | a new pool is the empty pool |
| Mempool.TransactionPool.AddTransaction | protocol/src/network/mempool.rs:222-280 | the checks in the source's order, eviction of the worst when full; a failed call changes nothing |
| Mempool.TransactionPool.TryEvictLowest | protocol/src/network/mempool.rs:390-415 | evicts the last entry of the index exactly when the newcomer is denser |
| Mempool.TransactionPool.DecrementSenderCount | protocol/src/network/mempool.rs:433-442 | a count that reaches zero disappears |
| Mempool.TransactionPool.Remove | protocol/src/network/mempool.rs:283-287 | removes one entry from all three structures and returns it |
| Mempool.TransactionPool.RemoveBatch | protocol/src/network/mempool.rs:293-297 | removes all given ids |
| Mempool.TransactionPool.SelectTransactions | protocol/src/network/mempool.rs:315-329 | the loop returns the first k entries of the fee index |
| Mempool.TransactionPool.Clear | protocol/src/network/mempool.rs:342-346 | empties all three structures |
| Mempool.TransactionPool.ExpireOld | protocol/src/network/mempool.rs:353-372 | removes exactly the entries older than the cutoff and counts them |
| Bytes.BigEndianOrder | protocol/src/storage/db.rs:222-235 | big-endian keys sort bytewise as the heights do |
| NovaDb.ScanIsRange | protocol/src/storage/db.rs:222-235 | a scan over the stored keys of a range in byte order yields the blocks by ascending height |
| NovaDb.RangeStopsAtGap | protocol/src/storage/db.rs:218-235 | the range stops at a gap, as documented, exactly when no stored block lies behind one |
| NovaDb.NovaDB.Put | protocol/src/storage/db.rs:153-182 | stores block, hash index, transactions and latest height |
| NovaDb.StoredReadsBack | protocol/src/storage/db.rs:153-260 | a stored block is read back by height and by hash and is the latest, its transactions by id; all else reads as before |
| NovaDb.NovaDB.GetRange | protocol/src/storage/db.rs:222-235 | returns the stored blocks of the inclusive range in order, skipping gaps |
| NovaDb.PutKeepsHashIndex | protocol/src/storage/db.rs:153-216 | a put keeps the hash index sound exactly when it neither displaces another block nor moves a hash |
| Sync.RejectionKeepsPrefix | protocol/src/network/sync.rs:357-471 | a batch rejected at block i leaves database and state exactly as applying the i blocks before it |
| Sync.StateErrorKeepsPrefix | protocol/src/network/sync.rs:357-471 | a batch stopped by a transaction of block i has stored the blocks before it, and keeps nothing of block i exactly when its first transfer failed |
| Sync.RepeatedTail | protocol/src/network/sync.rs:357-471 | applying a block with its last transaction repeated does what the block does exactly when that transaction is no transfer |
| Sync.RootsNeverChecked | protocol/src/network/sync.rs:436-471 | an accepted batch whose headers get any other state roots, linked and hashed again, is accepted with the same accounts |
| Sync.ReapplyInSync | protocol/src/network/sync.rs:357-471 | applying stored blocks up to the tip again leaves the node in sync exactly when they hold no transfer |
| Sync.ApplyIffValid | protocol/src/network/sync.rs:357-517 | for a batch that continues the tip and whose transactions execute, applying succeeds exactly when dry-run validation accepts, and otherwise fails with the fault validation reports |
| Sync.ComputeSyncPlan | protocol/src/network/sync.rs:540-559 | on every input on which the loop with wrapping additions ends, its plan; nothing to fetch gives no batch |
| Sync.PlanRightExactly | protocol/src/network/sync.rs:540-559 | the loop ends with a plan that cuts exactly the missing heights if and only if neither the end nor a cursor addition wraps and the batch size is not zero |
| Sync.PlanPartitions | protocol/src/network/sync.rs:540-559 | the plan covers the missing heights exactly, in consecutive full batches and a remainder |
| Sync.ApplyFollowsChain | protocol/src/network/sync.rs:357-471 | applying the next blocks of a good chain to a node that holds the blocks before them succeeds and stores them |
| Sync.SyncConverges | protocol/src/network/sync.rs:307-559 | a node holding any prefix that follows the plan meets no error and ends with the peer's blocks, tip and accounts, its root the one in the last header |
| SyncEngine.TipOfChain | protocol/src/network/sync.rs:286-300 | the tip reported for a stored chain is its last block; on an empty store it is height 0 although block 0 is not stored |
| SyncEngine.Engine.LocalChainTip | protocol/src/network/sync.rs:286-300 | the recorded height and its block's hash, height 0 and the genesis hash on an empty store, an error when the record dangles |
| SyncEngine.TipPlanNeedsGenesis | protocol/src/network/sync.rs:286-471 | following the plan from the local tip converges exactly when genesis is stored; from an empty store it stops with a chain gap and changes nothing |
| SyncEngine.Engine.ProcessSyncRequest | protocol/src/network/sync.rs:307-340 | serves tip, range and single-block requests from the store |
| SyncEngine.Engine.ApplyBlock | protocol/src/network/sync.rs:390-461 | one round: verify, height, parent, replay, store, in that order |
| SyncEngine.Engine.ApplyBlocks | protocol/src/network/sync.rs:357-471 | the loop refines the batch function: result, database and state on success and on every error |
| SyncEngine.AppliedStuck | protocol/src/network/sync.rs:357-471 | once stopped by an error the rest of the batch changes nothing |
| Consensus.AddValidatorSorted | protocol/src/network/consensus.rs:127-136 | the set stays ordered by descending stake |
| Consensus.AddValidatorMembers | protocol/src/network/consensus.rs:127-136 | adding adds exactly the newcomer |
| Consensus.AddValidatorPosition | protocol/src/network/consensus.rs:127-136 | a new entry goes behind everyone with at least its stake and before the rest, whose order stays |
| Consensus.ProposerByRank | protocol/src/network/consensus.rs:168-175 | the proposer of round r is the active entry with exactly r mod n active entries before it |
| Consensus.NoProposer | protocol/src/network/consensus.rs:168-175 | without an active entry no round has a proposer |
| Consensus.ProposersByStake | protocol/src/network/consensus.rs:127-175 | on a set ordered by stake round 0 has the largest active stake and the stakes do not increase over the n rounds from it |
| Consensus.ThresholdExact | protocol/src/network/consensus.rs:181-187 | the threshold is the least number above two thirds of the active entries, and 0 without any |
| Consensus.RoundRobin | protocol/src/network/consensus.rs:168-175 | in any n consecutive rounds each of the n active slots proposes exactly once |
| Consensus.CountCorrect | protocol/src/network/consensus.rs:577-634 | counting succeeds exactly when all votes for the block are valid and by distinct active validators, and then counts each once |
| Consensus.CountedExactly | protocol/src/network/consensus.rs:577-634 | a successful count counts exactly the votes for the block, in order |
| Consensus.CountFails | protocol/src/network/consensus.rs:577-634 | a failed count names the first bad vote: a repeated validator, an unknown one or a signature that does not verify, tested in that order |
| Consensus.FinalityExactly | protocol/src/network/consensus.rs:577-634 | without a bad vote a block is final exactly when its votes reach the threshold, and the refusal names both numbers; with one the refusal is that vote's |
| Consensus.VoteMessageDetermines | protocol/src/network/consensus.rs:264-291 | the signed bytes of a vote are its block hash and its round, and determine both |
| Consensus.QuorumIntersection | protocol/src/network/consensus.rs:181-187 | two finalized hashes share at least floor((n-1)/3)+1 validators with valid votes for both |
| Consensus.QuorumReachable | protocol/src/network/consensus.rs:181-187 | the votes of any n - floor((n-1)/3) distinct active validators finalize |
| Consensus.FullVoteFinality | protocol/src/network/consensus.rs:577-634 | with the valid votes of all active addresses a block is final exactly when the addresses reach the threshold |
| Consensus.FinalityReachable | protocol/src/network/consensus.rs:181-187 | some votes finalize a block exactly when the active addresses reach the threshold |
| Consensus.DistinctAddresses | protocol/src/network/consensus.rs:199-203 | with no address entered twice there is one address per active entry |
| Consensus.OneAddressNeverFinal | protocol/src/network/consensus.rs:127-136 | two or more active entries that all carry one address finalize nothing |
| Consensus.ConsensusEngine.constructor | protocol/src/network/consensus.rs:395-410 | a new engine starts at round 0, height 0 and the zero hash |
| Consensus.ConsensusEngine.SetChainState | protocol/src/network/consensus.rs:664-667 | sets next height and last hash only |
| Consensus.ConsensusEngine.FinalizeBlock | protocol/src/network/consensus.rs:577-634 | the counting loop refines the vote count; success advances hash, height and round, an error changes nothing |
| Consensus.ConsensusEngine.AdvanceRound | protocol/src/network/consensus.rs:637-641 | next round, back to the propose phase |
| Producer.ProducedLink | protocol/src/network/producer.rs:218-293 | a produced block verifies on its parent and its transactions replay strictly to the root it carries |
| Producer.ProducedSigned | protocol/src/network/producer.rs:269-293 | a produced block carries the producer's address, the clock and the transactions kept, and a signature over its hash that verifies against that address |
| Producer.ProducedDistinct | protocol/src/network/producer.rs:218-293 | a produced block never repeats a transaction, so its root binds its list |
| Producer.BlockProducer.ProduceBlock | protocol/src/network/producer.rs:218-293 | select, execute dropping failures, build and sign: the block, the result or error of each candidate, and the state tree afterwards |
| Producer.BlockProducer.CommitBlock | protocol/src/network/producer.rs:347-362 | stores the block and removes its transactions from the pool |
| ConsensusLoop.SelfVoteFinality | protocol/src/network/consensus_loop.rs:356-358 | the proposer's own vote is counted and finalizes exactly under a threshold of one |
| ConsensusLoop.StartSynced | node/src/main.rs:201-207 | a node started on its stored genesis block is in sync |
| ConsensusLoop.RoundExtends | protocol/src/network/consensus_loop.rs:292-330 | a round on our turn with one active validator completes, extends the chain by its block, reports that block with our vote and the round, and advances the round |
| ConsensusLoop.RunStaysSynced | protocol/src/network/consensus_loop.rs:227-330 | in every run of rounds and mempool calls the store stays a gap-free hash-linked chain that only grows, engine and accounts stay at its tip, and each round on our turn adds a block |
| ConsensusLoop.ChainReplays | protocol/src/network/consensus_loop.rs:292-330 | the accounts are the replay of exactly the committed transactions, and the total balance is conserved |
| ConsensusLoop.FollowerCatchesUp | protocol/src/network/sync.rs:357-559 | after any run of the validator a follower holding a prefix syncs to the same blocks and accounts, and no balance is created or lost |
| ConsensusLoop.LoneVoteStalls | protocol/src/network/consensus_loop.rs:292-330 | with several active validators a round stores nothing and leaves engine and pool alone; the node stays in sync exactly when every selected transfer fails on the tip's accounts |
| ConsensusLoop.CommittedLeavePool | protocol/src/network/producer.rs:347-362 | a completed round takes exactly the block's transactions out of the pool |
| ConsensusLoop.CommittedOnce | protocol/src/network/producer.rs:304-362 | over any run in which no stored id is submitted again every id is committed at most once |
| ConsensusLoop.ResubmittedCommits | protocol/src/network/producer.rs:304-362 | a transaction alone in the pool, stored before or not and whatever its nonce, is committed exactly when it executes |
| ConsensusLoop.Loop.IsOurTurn | protocol/src/network/consensus_loop.rs:337-349 | whether the round-robin proposer is this node |
| ConsensusLoop.Loop.GetLatestBlock | protocol/src/network/consensus_loop.rs:374-400 | the block at the recorded height, genesis on an empty store, an error when the record dangles |
| ConsensusLoop.Loop.RunSingleRound | protocol/src/network/consensus_loop.rs:292-330 | a round is exactly one step of the state machine the run theorems are about, in result and in all state |
| Gossip.TargetsCorrect | protocol/src/network/gossip.rs:310-327 | at most fanout targets, all connected, none twice, never the sender, and all others when fewer than fanout |
| Gossip.TargetsExact | protocol/src/network/gossip.rs:310-327 | the targets are the first fanout peers other than the sender, in the order of the peer list |
| Gossip.HopTaken | protocol/src/network/gossip.rs:151-172 | a message is passed on exactly when it has more than one hop to go, with one hop less and the same payload |
| Gossip.PayloadByKind | protocol/src/network/gossip.rs:273-332 | transactions go to the mempool, blocks to processing, known peers to the peer list |
| Gossip.GossipProtocol.Broadcast | protocol/src/network/gossip.rs:239-266 | marks the message seen and sends it with its hop count as given |
| Gossip.GossipProtocol.HandleMessage | protocol/src/network/gossip.rs:273-332 | a duplicate or expired message is dropped and changes nothing; any other is marked, the cache evicted, its payload acted on and, with more than one hop to go, sent with one less to the targets |
| Gossip.GossipProtocol.MaybeEvictSeenCache | protocol/src/network/gossip.rs:359-378 | over capacity the cache is cut to three quarters and no kept entry is older than a removed one |
| Gossip.GossipProtocol.EntriesByAge | protocol/src/network/gossip.rs:366-373 | lists every cache entry once, oldest first |
| Gossip.GossipProtocol.AddPeer | protocol/src/network/gossip.rs:335-340 | appends a new peer below the limit, otherwise changes nothing; peer ids stay distinct |
| Gossip.GossipProtocol.RemovePeer | protocol/src/network/gossip.rs:343-346 | drops the peer with that id |
| Gossip.RetainedCorrect | protocol/src/network/gossip.rs:343-346 | exactly the peers with another id stay |
| Gossip.RetainedOrder | protocol/src/network/gossip.rs:343-346 | and they keep their order |
| Gossip.NewestSurvives | protocol/src/network/gossip.rs:359-378 | a message just marked survives its own eviction when its time is past all others' |
| Gossip.GossipDrains | protocol/src/network/gossip.rs:151-332 | with no new broadcast every delivery order makes at most the sum over the envelopes in flight of 1 + f + ... + f^(ttl-1) deliveries, whatever caches hold or evict |
| Gossip.DeliveryEnabled | protocol/src/network/gossip.rs:273-332 | while anything is in flight any envelope of it can be delivered |
| Gossip.BroadcastCost | protocol/src/network/gossip.rs:239-266 | one broadcast costs at most f + f^2 + ... + f^ttl deliveries |
| GossipCoverage.SentExact | protocol/src/network/gossip.rs:273-332 | what a node sends: exactly what it accepts with more than one hop to go, one hop less, to its targets |
| GossipCoverage.DeliveryForwards | protocol/src/network/gossip.rs:273-332 | one delivery takes its envelope out of flight and puts in exactly the forwarded ones |
| GossipCoverage.SureTargets | protocol/src/network/gossip.rs:310-327 | the peers that are targets whoever the sender is are exactly the first fanout |
| GossipCoverage.InFlightActs | protocol/src/network/gossip.rs:273-332 | what is in flight to a node that has not seen it is acted on there by the time it is delivered, with room in the caches, or two JSON texts collide |
| GossipCoverage.BroadcastCovers | protocol/src/network/gossip.rs:239-332 | coverage: once a broadcast of a new payload has drained, in any delivery order and with room in the caches, every node on a path of at most ttl edges from the origin has acted on the payload, or two JSON texts collide |
| Gossip.ActsOnPayload | protocol/src/network/gossip.rs:273-332 | the payload is passed on exactly when the message is neither seen nor out of hops |
| Gossip.EntriesConserved | protocol/src/network/gossip.rs:273-378 | over any run a digest was acted on as often as it was evicted since, and once more if it is still cached |
| Gossip.NothingEvicted | protocol/src/network/gossip.rs:359-378 | with room for every digest that arrives nothing is evicted |
| Gossip.EachHopCountActs | protocol/src/network/gossip.rs:175-178 | over any run, whatever the cache evicts, a node acts on a payload at exactly the positive hop counts at which it arrives, or two JSON texts collide |
| Gossip.RepeatsBounded | protocol/src/network/gossip.rs:273-332 | it acts on one payload at most once per hop count and once more per eviction; with room in the cache at most ttl times |
| TokenFactory.CreateSound | contracts/src/token_factory.rs:157-188 | registration fails exactly on a taken symbol, and keeps the invariant |
| TokenFactory.MintSound | contracts/src/token_factory.rs:208-249 | mint fails exactly on a missing signature, unknown token or supply overflow, then changes nothing: it never panics and its second overflow check never fires; each failure with its error |
| TokenFactory.BurnSound | contracts/src/token_factory.rs:268-310 | burn fails exactly when signature, token, holder entry or balance is missing, then changes nothing; otherwise the supply drops by the whole amount; each failure with its error |
| TokenFactory.PerformMoves | contracts/src/token_factory.rs:157-310 | a successful call moves exactly its amount on its token and its account |
| TokenFactory.RunSound | contracts/src/token_factory.rs:157-332 | after every run from the empty factory with fresh ids each supply is the sum of the balances, symbols and tokens are one-to-one, and every balance and supply is what the successful mints and burns amount to |
| TokenFactory.RunRecords | contracts/src/token_factory.rs:157-310 | over every run with fresh ids a token is known exactly if some call registered it, and carries that request's name, decimals, type, issuer and time and its symbol in upper case; minting and burning change none of them |
| TokenFactory.TokenContract.CreateToken | contracts/src/token_factory.rs:157-188 | the new state, and the new id or the error |
| TokenFactory.TokenContract.MintTokens | contracts/src/token_factory.rs:208-249 | the same for mint, updating the supply first |
| TokenFactory.TokenContract.BurnTokens | contracts/src/token_factory.rs:268-310 | the same for burn, updating the balance first |

## Left out

- Interiors of AES-GCM, X25519, Ed25519, BLAKE3, SHA-256, Groth16 and Pedersen: parameters with the contract "verification accepts what signing made" where one is needed.
- sled storage errors, durability and (de)serialization failures; the database is four maps, and a storage error never occurs.
- libp2p, tokio, sleeping, shutdown, the HTTP API, the command line, metrics and logging.
- Interleavings inside one call: mempool, gossip and consensus objects are modelled call by call, under the source's locks.
- `propose_block`, `validate_block`, phase advancing and validator statistics of the consensus engine: no hard property beyond the round itself.
- Encryption of recovery shares and the guardian records around them.
- The credit, escrow, dispute and settlement contracts, zero-knowledge circuits, wallets and vault: easy members or foreign libraries.
- UTF-8: strings are byte strings; where it matters which of them are text, that is a parameter.
- The transaction builder's validation, and signatures of transactions: execution in the producer and in synchronisation does not check them.
- Iteration order of the hash map inside an account when it is encoded: the encoding is a function of the account value.
- The run loop's cadence and its extra delay on an empty mempool: runs are arbitrary interleavings of rounds and mempool calls.
- Sync.ComputeSyncPlan: requires that the source's loop ends; a batch size of zero or a wrapping cursor can keep it from ending.
- Transactions.PlainAddressesDetermined: for transactions without payload; with one the exact condition is the one of `AddressesDetermined`, over the payload's bytes too.
- Sync.RootsNeverChecked: for batches whose heights do not wrap past 2^64 - 1, where a block at height 0 must have a zero parent.
- TokenFactory.TokenContract.CreateToken: requires a fresh token id, which the source draws as a random UUID.
- ConsensusLoop.RunStaysSynced: rounds past height 2^64 - 1 are excluded; heights wrap there and block 0 is overwritten.
- GossipCoverage.BroadcastCovers: an edge leads to one of the first fanout peers, who are targets whoever the sender is (`SureTargets`); a peer just behind them is a target only for some senders, so paths through it are not claimed. New broadcasts and changes of peers during the run are not covered.
