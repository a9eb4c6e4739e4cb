/** Block synchronisation: applying downloaded batches, and convergence to a peer's chain. */
module Sync {
  import opened Bytes
  import opened Transactions
  import opened StateTree
  import opened Ledger
  import opened Blocks
  import opened NovaDb

  datatype Env = Env(chain: Codec, state: StateCodec)

  /** What a node persists: the block store and the account map behind its state tree. */
  datatype NodeState = NodeState(store: Store, accounts: Accounts)

  datatype SyncError =
    | Rejected(fault: ChainFault)
    | StateFailure(error: StateError)
    | NotFound(missing: u64)

  // ---- Applying a batch ----

  /** Loop state of `apply_blocks`. */
  datatype Progress = Progress(
    node: NodeState,
    applied: nat,
    executed: nat,
    prevHash: Digest,
    prevHeight: u64,
    error: Option<SyncError>)

  /** Before the loop: the parent of the first block is looked up, unless it is at height 0. */
  function Started(node: NodeState, first: u64): Progress {
    if first == 0 then Progress(node, 0, 0, ZERO_DIGEST, 0, None)
    else
      match GetBlock(node.store, first - 1)
      case None => Progress(node, 0, 0, ZERO_DIGEST, first - 1, Some(Rejected(ChainGap(first - 1, first))))
      case Some(prev) => Progress(node, 0, 0, prev.header.hash, first - 1, None)
  }

  function ApplyOne(env: Env, p: Progress, b: Block, expectedHeight: u64): Progress {
    var hd := b.header;
    var fault := Verify(env.chain, b);
    if fault.Some? then p.(error := Some(Rejected(InvalidBlock(hd.height, fault.value))))
    else if hd.height != expectedHeight then p.(error := Some(Rejected(ChainGap(expectedHeight, hd.height))))
    else if hd.parentHash != p.prevHash then p.(error := Some(Rejected(InvalidParentHash(hd.height))))
    else
      var r := ReplayFrom(env.state.hash, p.node.accounts, b.transactions);
      if r.failure.Some? then
        p.(node := p.node.(accounts := r.accounts), executed := p.executed + r.executed,
           error := Some(StateFailure(r.failure.value)))
      else
        Progress(NodeState(PutBlock(p.node.store, b), r.accounts),
                 p.applied + 1, p.executed + r.executed, hd.hash, hd.height, None)
  }

  /** After the first `n` blocks of the batch, or at the error that stopped it before. */
  function Applied(env: Env, node: NodeState, blocks: seq<Block>, n: nat): Progress
    requires blocks != [] && n <= |blocks|
  {
    if n == 0 then Started(node, blocks[0].header.height)
    else
      var p := Applied(env, node, blocks, n - 1);
      if p.error.Some? then p
      else ApplyOne(env, p, blocks[n - 1], if n == 1 then blocks[0].header.height else WrapAdd(p.prevHeight, 1))
  }

  lemma {:induction false} AppliedPrefix(env: Env, node: NodeState, blocks: seq<Block>, m: nat, n: nat)
    requires 0 < m <= |blocks| && n <= m
    ensures Applied(env, node, blocks[..m], n) == Applied(env, node, blocks, n)
  {
    hide ApplyOne;
    if n > 0 {
      AppliedPrefix(env, node, blocks, m, n - 1);
    }
  }

  /** A batch rejected for its block `i` leaves database and state exactly as the batch of the
      `i` blocks before it would by succeeding. */
  lemma {:induction false} RejectionKeepsPrefix(env: Env, node: NodeState, blocks: seq<Block>, n: nat) returns (i: nat)
    requires 0 < n <= |blocks|
    requires Applied(env, node, blocks, n).error.Some? && Applied(env, node, blocks, n).error.value.Rejected?
    ensures i < n && Applied(env, node, blocks, i + 1).error == Applied(env, node, blocks, n).error
    ensures i == 0 ==> Applied(env, node, blocks, n).node == node
    ensures i > 0 ==> var shorter := Applied(env, node, blocks[..i], i);
                      shorter.error.None? && shorter.applied == i && shorter.node == Applied(env, node, blocks, n).node
  {
    hide Verify, ReplayFrom;
    var before := Applied(env, node, blocks, n - 1);
    if before.error.Some? && n > 1 {
      i := RejectionKeepsPrefix(env, node, blocks, n - 1);
    } else {
      i := n - 1;
      AppliedCount(env, node, blocks, i);
      if i > 0 {
        AppliedPrefix(env, node, blocks, i, i);
      }
    }
  }

  lemma {:induction false} AppliedCount(env: Env, node: NodeState, blocks: seq<Block>, n: nat)
    requires blocks != [] && n <= |blocks|
    ensures Applied(env, node, blocks, n).error.None? ==> Applied(env, node, blocks, n).applied == n
    ensures n == 0 ==> Applied(env, node, blocks, n).node == node
  {
    hide Verify, ReplayFrom;
    if n > 0 {
      AppliedCount(env, node, blocks, n - 1);
    }
  }

  /** A batch stopped by a transaction of its block `i` has stored exactly the blocks before it.
      Of block `i` itself nothing remains exactly when the first transfer in it failed on the
      accounts the blocks before left. */
  lemma {:induction false} StateErrorKeepsPrefix(env: Env, node: NodeState, blocks: seq<Block>, n: nat) returns (i: nat)
    requires 0 < n <= |blocks| && forall k :: 0 <= k < |blocks| ==> |blocks[k].transactions| < U64_LIMIT
    requires Applied(env, node, blocks, n).error.Some? && Applied(env, node, blocks, n).error.value.StateFailure?
    ensures i < n && Applied(env, node, blocks, i + 1).error == Applied(env, node, blocks, n).error
    ensures var before, after := Applied(env, node, blocks, i), Applied(env, node, blocks, n);
            && before.error.None? && after.node.store == before.node.store
            && (after.node == before.node <==>
                  FirstTransferFails(env.state.hash, before.node.accounts, blocks[i].transactions))
  {
    hide Verify, ReplayFrom, FirstTransferFails;
    var before := Applied(env, node, blocks, n - 1);
    if before.error.Some? && n > 1 {
      i := StateErrorKeepsPrefix(env, node, blocks, n - 1);
    } else {
      i := n - 1;
      FailedReplayUnchanged(env.state.hash, before.node.accounts, blocks[i].transactions);
    }
  }

  // ---- A repeated last transaction ----

  /** A block with an odd number of transactions from three on verifies under the same hash with
      its last transaction repeated. Applied instead of the block, it does the same exactly when
      that transaction is no transfer; otherwise it fails, or executes the transfer twice. */
  lemma RepeatedTail(env: Env, p: Progress, b: Block, expected: u64)
    requires |b.transactions| % 2 == 1 && |b.transactions| >= 3
    requires p.error.None? && ApplyOne(env, p, b, expected).error.None?
    ensures var last := b.transactions[|b.transactions| - 1];
            var longer := b.(transactions := b.transactions + [last]);
            var q, q' := ApplyOne(env, p, b, expected), ApplyOne(env, p, longer, expected);
            && Verify(env.chain, longer) == None
            && (q'.error.None? && q'.node.accounts == q.node.accounts <==> !last.txType.Transfer?)
  {
    hide Verify, Transferred, PutBlock;
    var txs, h := b.transactions, env.state.hash;
    var last := txs[|txs| - 1];
    RepeatedTailVerifies(env.chain, b);
    assert (txs + [last])[..|txs|] == txs;
    var after := ReplayFrom(h, p.node.accounts, txs).accounts;
    if last.txType.Transfer? && Execute(h, after, last).Done? {
      ExecuteNonce(h, after, last, h(last.sender));
    }
  }

  // ---- State roots are not compared ----

  /** The block with another parent and another state root, hashed again. */
  function Rehashed(c: Codec, b: Block, parent: Digest, root: Digest): Block {
    var hd := b.header.(parentHash := parent, stateRoot := root);
    b.(header := hd.(hash := c.hash(Preimage(hd))))
  }

  /** The first `n` blocks with the state roots of `roots`, hashed and linked again. */
  function Rerooted(c: Codec, blocks: seq<Block>, roots: seq<Digest>, n: nat): (r: seq<Block>)
    requires n <= |blocks| == |roots|
    ensures |r| == n
  {
    if n == 0 then []
    else
      var before := Rerooted(c, blocks, roots, n - 1);
      var parent := if n == 1 then blocks[0].header.parentHash else before[n - 2].header.hash;
      before + [Rehashed(c, blocks[n - 1], parent, roots[n - 1])]
  }

  lemma {:induction false} RerootedPrefix(c: Codec, blocks: seq<Block>, roots: seq<Digest>, m: nat, n: nat)
    requires m <= n <= |blocks| == |roots|
    ensures Rerooted(c, blocks, roots, n)[..m] == Rerooted(c, blocks, roots, m)
  {
    hide Rehashed;
    if m < n {
      RerootedPrefix(c, blocks, roots, m, n - 1);
      var r, q := Rerooted(c, blocks, roots, n), Rerooted(c, blocks, roots, n - 1);
      assert r[..m] == q[..m];
    }
  }

  lemma ApplyIgnoresRoot(env: Env, p: Progress, p': Progress, b: Block, expected: u64, root: Digest)
    requires p.error.None? && p'.error.None? && ApplyOne(env, p, b, expected).error.None?
    requires p'.node.accounts == p.node.accounts && p'.prevHeight == p.prevHeight
    requires expected > 0 || p'.prevHash == p.prevHash
    ensures var q, q' := ApplyOne(env, p, b, expected),
                         ApplyOne(env, p', Rehashed(env.chain, b, p'.prevHash, root), expected);
            && q'.error.None? && q'.node.accounts == q.node.accounts && q'.prevHeight == q.prevHeight
            && q'.prevHash == Rehashed(env.chain, b, p'.prevHash, root).header.hash
  {
    hide ReplayFrom, TxRoot, HeaderPreimage, PutBlock;
  }

  lemma StartedHash(node: NodeState, b: Block, expected: u64, env: Env)
    requires Started(node, b.header.height).error.None? && expected == b.header.height
    requires ApplyOne(env, Started(node, b.header.height), b, expected).error.None?
    ensures Started(node, b.header.height).prevHash == b.header.parentHash
  {
    hide Verify, ReplayFrom, PutBlock;
  }

  lemma {:induction false} RerootedSteps(env: Env, node: NodeState, blocks: seq<Block>, roots: seq<Digest>, n: nat)
    requires blocks != [] && |roots| == |blocks| && n <= |blocks|
    requires blocks[0].header.height + |blocks| <= U64_LIMIT
    requires Applied(env, node, blocks, |blocks|).error.None?
    ensures var p, p' := Applied(env, node, blocks, n),
                         Applied(env, node, Rerooted(env.chain, blocks, roots, |blocks|), n);
            && p.error.None? && p'.error.None? && p'.node.accounts == p.node.accounts && p'.prevHeight == p.prevHeight
            && (n > 0 ==> p.prevHeight == blocks[0].header.height + n - 1)
            && (n > 0 ==> p'.prevHash == Rerooted(env.chain, blocks, roots, |blocks|)[n - 1].header.hash)
            && (n == 0 ==> p' == p)
  {
    hide ApplyOne, Rerooted, Rehashed;
    var blocks' := Rerooted(env.chain, blocks, roots, |blocks|);
    RerootedAt(env.chain, blocks, roots, 0);
    RehashedHeight(env.chain, blocks[0], blocks[0].header.parentHash, roots[0]);
    AppliedSoFar(env, node, blocks, n, |blocks|);
    if n > 0 {
      RerootedSteps(env, node, blocks, roots, n - 1);
      RerootedAt(env.chain, blocks, roots, n - 1);
      var p, p' := Applied(env, node, blocks, n - 1), Applied(env, node, blocks', n - 1);
      var expected := if n == 1 then blocks[0].header.height else WrapAdd(p.prevHeight, 1);
      if n == 1 {
        StartedHash(node, blocks[0], expected, env);
      }
      ApplyIgnoresRoot(env, p, p', blocks[n - 1], expected, roots[n - 1]);
      AppliedHeight(env, p, blocks[n - 1], expected);
    }
  }

  lemma RehashedHeight(c: Codec, b: Block, parent: Digest, root: Digest)
    ensures Rehashed(c, b, parent, root).header.height == b.header.height
  {}

  lemma RerootedAt(c: Codec, blocks: seq<Block>, roots: seq<Digest>, i: nat)
    requires i < |blocks| == |roots|
    ensures var r := Rerooted(c, blocks, roots, |blocks|);
            var parent := if i == 0 then blocks[0].header.parentHash else r[i - 1].header.hash;
            r[i] == Rehashed(c, blocks[i], parent, roots[i])
  {
    hide Rehashed;
    var r := Rerooted(c, blocks, roots, |blocks|);
    RerootedPrefix(c, blocks, roots, i, |blocks|);
    RerootedPrefix(c, blocks, roots, i + 1, |blocks|);
    assert r[i] == r[..i + 1][i];
    assert i > 0 ==> r[i - 1] == r[..i][i - 1];
  }

  lemma AppliedHeight(env: Env, p: Progress, b: Block, expected: u64)
    requires ApplyOne(env, p, b, expected).error.None?
    ensures ApplyOne(env, p, b, expected).prevHeight == expected
  {
    hide Verify, ReplayFrom, PutBlock;
  }

  lemma {:induction false} AppliedSoFar(env: Env, node: NodeState, blocks: seq<Block>, m: nat, n: nat)
    requires blocks != [] && m <= n <= |blocks| && Applied(env, node, blocks, n).error.None?
    ensures Applied(env, node, blocks, m).error.None?
  {
    hide ApplyOne;
    if m < n {
      AppliedSoFar(env, node, blocks, m, n - 1);
    }
  }

  /** The replayed root is never compared with the header's: put any state roots into the
      headers of an accepted batch, link and hash its blocks again, and the batch is accepted
      with the same accounts. */
  lemma RootsNeverChecked(env: Env, node: NodeState, blocks: seq<Block>, roots: seq<Digest>)
    requires blocks != [] && |roots| == |blocks| && blocks[0].header.height + |blocks| <= U64_LIMIT
    requires Applied(env, node, blocks, |blocks|).error.None?
    ensures var blocks' := Rerooted(env.chain, blocks, roots, |blocks|);
            var p, p' := Applied(env, node, blocks, |blocks|), Applied(env, node, blocks', |blocks|);
            && (forall i :: 0 <= i < |blocks| ==>
                  blocks'[i].header.stateRoot == roots[i] && blocks'[i].transactions == blocks[i].transactions)
            && p'.error.None? && p'.node.accounts == p.node.accounts
  {
    hide Applied, Rerooted;
    RerootedSteps(env, node, blocks, roots, |blocks|);
    RerootedHeaders(env.chain, blocks, roots, |blocks|);
  }

  lemma {:induction false} RerootedHeaders(c: Codec, blocks: seq<Block>, roots: seq<Digest>, n: nat)
    requires n <= |blocks| == |roots|
    ensures var r := Rerooted(c, blocks, roots, n);
            forall i :: 0 <= i < n ==>
              r[i].header.stateRoot == roots[i] && r[i].transactions == blocks[i].transactions
  {
    if n > 0 {
      RerootedHeaders(c, blocks, roots, n - 1);
    }
  }

  /** The batch continues the stored tip at height `tip`. */
  ghost predicate Continues(node: NodeState, blocks: seq<Block>, tip: u64) {
    && blocks != [] && tip + 1 < U64_LIMIT && tip in node.store.blocks
    && blocks[0].header.height == tip + 1
    && blocks[0].header.parentHash == node.store.blocks[tip].header.hash
  }

  /** Every transaction of the batch executes in turn. */
  ghost predicate AllExecute(env: Env, accounts: Accounts, blocks: seq<Block>)
    decreases |blocks|
  {
    blocks == [] ||
    (var r := ReplayFrom(env.state.hash, accounts, blocks[0].transactions);
     r.failure.None? && AllExecute(env, r.accounts, blocks[1..]))
  }

  /** The account map after the transactions of the first `n` blocks. */
  function AccountsAfter(env: Env, accounts: Accounts, blocks: seq<Block>, n: nat): Accounts
    requires n <= |blocks|
  {
    if n == 0 then accounts
    else ReplayFrom(env.state.hash, AccountsAfter(env, accounts, blocks, n - 1), blocks[n - 1].transactions).accounts
  }

  lemma {:induction false} AccountsAfterTail(env: Env, accounts: Accounts, blocks: seq<Block>, n: nat)
    requires 0 < n <= |blocks|
    ensures var first := ReplayFrom(env.state.hash, accounts, blocks[0].transactions).accounts;
            AccountsAfter(env, accounts, blocks, n) == AccountsAfter(env, first, blocks[1..], n - 1)
  {
    hide ReplayFrom;
    if n > 1 {
      AccountsAfterTail(env, accounts, blocks, n - 1);
    }
  }

  lemma {:induction false} BlockExecutes(env: Env, accounts: Accounts, blocks: seq<Block>, n: nat)
    requires AllExecute(env, accounts, blocks) && n < |blocks|
    ensures ReplayFrom(env.state.hash, AccountsAfter(env, accounts, blocks, n), blocks[n].transactions).failure.None?
    decreases n
  {
    hide ReplayFrom;
    if n > 0 {
      var first := ReplayFrom(env.state.hash, accounts, blocks[0].transactions).accounts;
      BlockExecutes(env, first, blocks[1..], n - 1);
      AccountsAfterTail(env, accounts, blocks, n);
    }
  }

  ghost predicate FaultFree(c: Codec, blocks: seq<Block>, start: u64, n: nat)
    requires n <= |blocks|
  {
    n == 0 || (FaultFree(c, blocks, start, n - 1) && BlockFault(c, blocks, start, n - 1) == None)
  }

  lemma {:induction false} FaultFreeAll(c: Codec, blocks: seq<Block>, start: u64, n: nat)
    requires n <= |blocks|
    ensures FaultFree(c, blocks, start, n) <==> forall k :: 0 <= k < n ==> BlockFault(c, blocks, start, k) == None
  {
    hide BlockFault;
    if n > 0 {
      FaultFreeAll(c, blocks, start, n - 1);
    }
  }

  function Refusal(fault: Option<ChainFault>): Option<SyncError> {
    if fault.Some? then Some(Rejected(fault.value)) else None
  }

  /** With the parent in place and replay succeeding, one round of the loop fails exactly on
      the faults that validation reports. */
  lemma ApplyOneMatchesFault(env: Env, p: Progress, blocks: seq<Block>, start: u64, i: nat, expected: u64)
    requires i < |blocks| && expected == (start + i) % U64_LIMIT
    requires p.error.None? && p.prevHash == (if i == 0 then blocks[0].header.parentHash else blocks[i - 1].header.hash)
    requires ReplayFrom(env.state.hash, p.node.accounts, blocks[i].transactions).failure.None?
    ensures ApplyOne(env, p, blocks[i], expected).error == Refusal(BlockFault(env.chain, blocks, start, i))
    ensures ApplyOne(env, p, blocks[i], expected).error.None? ==>
              var q := ApplyOne(env, p, blocks[i], expected);
              && q.prevHash == blocks[i].header.hash && q.prevHeight == expected
              && q.node.accounts == ReplayFrom(env.state.hash, p.node.accounts, blocks[i].transactions).accounts
  {
    hide ReplayFrom, Verify;
  }

  lemma {:induction false} AppliedMatchesFaults(env: Env, node: NodeState, blocks: seq<Block>, tip: u64, n: nat)
    requires Continues(node, blocks, tip) && AllExecute(env, node.accounts, blocks) && n <= |blocks|
    ensures Applied(env, node, blocks, n).error.None? <==> FaultFree(env.chain, blocks, tip + 1, n)
    ensures Applied(env, node, blocks, n).error.Some? ==>
              Applied(env, node, blocks, n).error == Refusal(FirstFault(env.chain, blocks, tip + 1, 0))
    ensures Applied(env, node, blocks, n).error.None? ==>
              var p := Applied(env, node, blocks, n);
              && p.prevHash == (if n == 0 then blocks[0].header.parentHash else blocks[n - 1].header.hash)
              && p.prevHeight == (tip + n) % U64_LIMIT
              && p.node.accounts == AccountsAfter(env, node.accounts, blocks, n)
  {
    hide ReplayFrom, ApplyOne, BlockFault, FirstFault;
    if n > 0 {
      AppliedMatchesFaults(env, node, blocks, tip, n - 1);
      var before := Applied(env, node, blocks, n - 1);
      if before.error.None? {
        WrapNext(tip + n - 1);
        BlockExecutes(env, node.accounts, blocks, n - 1);
        ApplyOneMatchesFault(env, before, blocks, tip + 1, n - 1, (tip + n) % U64_LIMIT);
        FaultFreeAll(env.chain, blocks, tip + 1, n - 1);
        if BlockFault(env.chain, blocks, tip + 1, n - 1).Some? {
          FirstFaultIs(env.chain, blocks, tip + 1, 0, n - 1);
        }
      }
    }
  }

  lemma WrapNext(a: nat)
    ensures (a + 1) % U64_LIMIT == (a % U64_LIMIT + 1) % U64_LIMIT
  {}

  /** For a batch that continues the tip and whose transactions all execute, applying it
      succeeds exactly when dry-run validation accepts it, and otherwise fails with the fault
      that validation reports. */
  lemma ApplyIffValid(env: Env, node: NodeState, blocks: seq<Block>, tip: u64)
    requires Continues(node, blocks, tip) && AllExecute(env, node.accounts, blocks)
    ensures Applied(env, node, blocks, |blocks|).error.None? <==> Accepted(env.chain, blocks, tip + 1)
    ensures Applied(env, node, blocks, |blocks|).error == Refusal(FirstFault(env.chain, blocks, tip + 1, 0))
  {
    hide Applied, BlockFault, FaultFree;
    AppliedMatchesFaults(env, node, blocks, tip, |blocks|);
    FaultFreeAll(env.chain, blocks, tip + 1, |blocks|);
  }

  // ---- Chains as production builds them ----

  /** A chain from a shared block at height 0, with the account map after each block: heights count up, hashes
      link, every block verifies, replays without failure and carries the resulting root. */
  ghost predicate GoodChain(env: Env, chain: seq<Block>, accounts: seq<Accounts>) {
    && 0 < |chain| == |accounts| <= U64_LIMIT
    && chain[0].header.height == 0
    && forall i :: 0 < i < |chain| ==> LinkedAt(env, chain, accounts, i)
  }

  ghost predicate LinkedAt(env: Env, chain: seq<Block>, accounts: seq<Accounts>, i: nat)
    requires 0 < i < |chain| == |accounts|
  {
    GoodLink(env, chain[i - 1], accounts[i - 1], chain[i], accounts[i], i)
  }

  ghost predicate GoodLink(env: Env, parent: Block, before: Accounts, b: Block, after: Accounts, height: nat) {
    && b.header.height == height
    && b.header.parentHash == parent.header.hash
    && Verify(env.chain, b) == None
    && ReplayFrom(env.state.hash, before, b.transactions) == Replay(after, |b.transactions|, None)
    && b.header.stateRoot == StateRoot(env.state, after)
  }

  /** The node stores exactly the first `n` blocks of the chain and the accounts after them. */
  ghost predicate Holds(node: NodeState, chain: seq<Block>, accounts: seq<Accounts>, n: nat)
    requires 0 < n <= |chain| == |accounts|
  {
    && (forall h: u64 :: h in node.store.blocks <==> h < n)
    && (forall h: u64 :: h < n ==> node.store.blocks[h] == chain[h])
    && node.store.latest == Some(n - 1)
    && node.accounts == accounts[n - 1]
  }

  lemma {:induction false} RangeOfChain(node: NodeState, chain: seq<Block>, accounts: seq<Accounts>, n: nat, s: nat,
                                        e: nat)
    requires 0 < n <= |chain| == |accounts| <= U64_LIMIT && Holds(node, chain, accounts, n) && s <= e <= n
    ensures BlockRange(node.store, s, e) == chain[s..e]
  {
    if s < e {
      RangeOfChain(node, chain, accounts, n, s, e - 1);
      assert chain[s..e] == chain[s..e - 1] + [chain[e - 1]];
    }
  }

  lemma HoldsNext(env: Env, node: NodeState, chain: seq<Block>, accounts: seq<Accounts>, n: nat, next: NodeState)
    requires GoodChain(env, chain, accounts) && 0 < n < |chain| && Holds(node, chain, accounts, n)
    requires next == NodeState(PutBlock(node.store, chain[n]), accounts[n])
    ensures Holds(next, chain, accounts, n + 1)
  {
    hide PutTransactions, Verify, ReplayFrom, StateRoot;
    assert LinkedAt(env, chain, accounts, n);
  }

  lemma LinkAt(env: Env, chain: seq<Block>, accounts: seq<Accounts>, i: nat)
    requires GoodChain(env, chain, accounts) && 0 < i < |chain|
    ensures GoodLink(env, chain[i - 1], accounts[i - 1], chain[i], accounts[i], i)
  {
    hide GoodLink;
    assert LinkedAt(env, chain, accounts, i);
  }

  lemma ApplyLink(env: Env, p: Progress, parent: Block, b: Block, after: Accounts, height: u64)
    requires p.error.None? && p.prevHash == parent.header.hash
    requires GoodLink(env, parent, p.node.accounts, b, after, height)
    ensures ApplyOne(env, p, b, height) ==
            Progress(NodeState(PutBlock(p.node.store, b), after), p.applied + 1, p.executed + |b.transactions|,
                     b.header.hash, height, None)
  {
    hide Verify, ReplayFrom, StateRoot, PutBlock;
  }

  /** Applying the next blocks of a good chain to a node that holds the blocks before them. */
  lemma {:induction false} ApplyFollowsChain(env: Env, node: NodeState, chain: seq<Block>, accounts: seq<Accounts>,
                                             s: nat, e: nat, n: nat)
    requires GoodChain(env, chain, accounts) && 0 < s < e <= |chain| && n <= e - s
    requires Holds(node, chain, accounts, s)
    ensures var p := Applied(env, node, chain[s..e], n);
            && p.error.None? && p.prevHash == chain[s + n - 1].header.hash && p.prevHeight == s + n - 1
            && Holds(p.node, chain, accounts, s + n)
  {
    hide GoodChain, GoodLink, Holds, ApplyOne, PutBlock, GetBlock;
    ChainLength(env, chain, accounts);
    var batch := chain[s..e];
    LinkAt(env, chain, accounts, s);
    LinkHeight(env, chain[s - 1], accounts[s - 1], chain[s], accounts[s], s);
    assert batch[0] == chain[s];
    if n == 0 {
      StoredTip(node, chain, accounts, s);
    } else {
      ApplyFollowsChain(env, node, chain, accounts, s, e, n - 1);
      var before := Applied(env, node, batch, n - 1);
      var i := s + n - 1;
      assert batch[n - 1] == chain[i];
      LinkAt(env, chain, accounts, i);
      HeldAccounts(before.node, chain, accounts, i);
      ApplyLink(env, before, chain[i - 1], chain[i], accounts[i], i);
      HoldsNext(env, before.node, chain, accounts, i, NodeState(PutBlock(before.node.store, chain[i]), accounts[i]));
    }
  }

  lemma ChainLength(env: Env, chain: seq<Block>, accounts: seq<Accounts>)
    requires GoodChain(env, chain, accounts)
    ensures 0 < |chain| == |accounts| <= U64_LIMIT
  {}

  lemma LinkHeight(env: Env, parent: Block, before: Accounts, b: Block, after: Accounts, height: nat)
    requires GoodLink(env, parent, before, b, after, height)
    ensures b.header.height == height
  {}

  lemma StoredTip(node: NodeState, chain: seq<Block>, accounts: seq<Accounts>, n: nat)
    requires 0 < n <= |chain| == |accounts| <= U64_LIMIT && Holds(node, chain, accounts, n)
    ensures GetBlock(node.store, n - 1) == Some(chain[n - 1])
  {}

  lemma HeldAccounts(node: NodeState, chain: seq<Block>, accounts: seq<Accounts>, n: nat)
    requires 0 < n <= |chain| == |accounts| && Holds(node, chain, accounts, n)
    ensures node.accounts == accounts[n - 1]
  {}

  // ---- Applying stored blocks again ----

  /** The transactions of blocks `s` to `e` of a chain. */
  function Committed(chain: seq<Block>, s: nat, e: nat): seq<Transaction>
    requires s <= e <= |chain|
    decreases e
  {
    if s == e then [] else Committed(chain, s, e - 1) + chain[e - 1].transactions
  }

  /** The node still stores the chain, and has replayed the transactions since `s` once more. */
  ghost predicate Replayed(env: Env, node: NodeState, chain: seq<Block>, s: nat, k: nat, p: Progress)
    requires s + k <= |chain| && s > 0
  {
    && p.prevHash == chain[s + k - 1].header.hash && p.prevHeight == s + k - 1
    && p.node.store.blocks == node.store.blocks
    && p.node.store.latest == (if k == 0 then node.store.latest else Some(s + k - 1))
    && ReplayFrom(env.state.hash, node.accounts, Committed(chain, s, s + k)) ==
       Replay(p.node.accounts, |Committed(chain, s, s + k)|, None)
  }

  lemma {:induction false} ReapplySteps(env: Env, node: NodeState, chain: seq<Block>, accounts: seq<Accounts>,
                                        s: nat, k: nat)
    requires GoodChain(env, chain, accounts) && Holds(node, chain, accounts, |chain|)
    requires 0 < s < |chain| && k <= |chain| - s
    ensures var p, r := Applied(env, node, chain[s..], k),
                        ReplayFrom(env.state.hash, node.accounts, Committed(chain, s, s + k));
            && (p.error.None? <==> r.failure.None?) && (p.error.None? ==> Replayed(env, node, chain, s, k, p))
  {
    hide GoodChain, GoodLink, Holds, Applied, ReplayFrom, Replayed;
    if k == 0 {
      ReapplyStart(env, node, chain, accounts, s);
    } else {
      ReapplySteps(env, node, chain, accounts, s, k - 1);
      ReapplyStep(env, node, chain, accounts, s, k - 1);
    }
  }

  lemma ReapplyStart(env: Env, node: NodeState, chain: seq<Block>, accounts: seq<Accounts>, s: nat)
    requires GoodChain(env, chain, accounts) && Holds(node, chain, accounts, |chain|) && 0 < s < |chain|
    ensures var p, r := Applied(env, node, chain[s..], 0),
                        ReplayFrom(env.state.hash, node.accounts, Committed(chain, s, s));
            p.error.None? && r.failure.None? && Replayed(env, node, chain, s, 0, p)
  {
    hide GoodChain, GoodLink, Holds, ApplyOne, ReplayFrom, GetBlock;
    ChainLength(env, chain, accounts);
    LinkAt(env, chain, accounts, s);
    LinkHeight(env, chain[s - 1], accounts[s - 1], chain[s], accounts[s], s);
    assert chain[s..][0] == chain[s];
    ReplayNothing(env.state.hash, node.accounts);
    StoredAt(node, chain, accounts, |chain|, s - 1);
  }

  lemma ReapplyStep(env: Env, node: NodeState, chain: seq<Block>, accounts: seq<Accounts>, s: nat, k: nat)
    requires GoodChain(env, chain, accounts) && Holds(node, chain, accounts, |chain|)
    requires 0 < s < |chain| && k < |chain| - s
    requires var p, r := Applied(env, node, chain[s..], k),
                         ReplayFrom(env.state.hash, node.accounts, Committed(chain, s, s + k));
             (p.error.None? <==> r.failure.None?) && (p.error.None? ==> Replayed(env, node, chain, s, k, p))
    ensures var p, r := Applied(env, node, chain[s..], k + 1),
                        ReplayFrom(env.state.hash, node.accounts, Committed(chain, s, s + k + 1));
            && (p.error.None? <==> r.failure.None?) && (p.error.None? ==> Replayed(env, node, chain, s, k + 1, p))
  {
    hide GoodChain, GoodLink, Holds, ApplyOne, ReplayFrom, GetBlock;
    ChainLength(env, chain, accounts);
    LinkAt(env, chain, accounts, s);
    LinkHeight(env, chain[s - 1], accounts[s - 1], chain[s], accounts[s], s);
    var p, i := Applied(env, node, chain[s..], k), s + k;
    assert chain[s..][0] == chain[s] && chain[s..][k] == chain[i];
    LinkAt(env, chain, accounts, i);
    StoredAt(node, chain, accounts, |chain|, i);
    if p.error.None? {
      ReplayConcat(env.state.hash, node.accounts, Committed(chain, s, i), chain[i].transactions);
      ReapplyOne(env, p, chain[i - 1], accounts[i - 1], chain[i], accounts[i], i);
    } else {
      ReplayConcatFails(env.state.hash, node.accounts, Committed(chain, s, i), chain[i].transactions);
    }
  }

  /** A stored block applied to a node that stores it: only the replay can fail. */
  lemma ReapplyOne(env: Env, p: Progress, parent: Block, old0: Accounts, b: Block, old1: Accounts, height: u64)
    requires p.error.None? && p.prevHash == parent.header.hash && GoodLink(env, parent, old0, b, old1, height)
    requires height in p.node.store.blocks && p.node.store.blocks[height] == b
    ensures var q, r := ApplyOne(env, p, b, height), ReplayFrom(env.state.hash, p.node.accounts, b.transactions);
            && (q.error.None? <==> r.failure.None?)
            && (q.error.None? ==>
                  && q.prevHash == b.header.hash && q.prevHeight == height && q.node.accounts == r.accounts
                  && q.node.store.blocks == p.node.store.blocks && q.node.store.latest == Some(height)
                  && r.executed == |b.transactions|)
  {
    hide Verify, StateRoot, PutTransactions;
    if ReplayFrom(env.state.hash, p.node.accounts, b.transactions).failure.None? {
      ReplayCount(env.state.hash, p.node.accounts, b.transactions);
    }
  }

  /** Applying stored blocks from height `s` up to the tip once more leaves the node in sync
      exactly when they hold no transfer: at or below the tip, transfers are executed twice. */
  lemma ReapplyInSync(env: Env, node: NodeState, chain: seq<Block>, accounts: seq<Accounts>, s: nat)
    requires GoodChain(env, chain, accounts) && Holds(node, chain, accounts, |chain|) && 0 < s < |chain|
    requires |Committed(chain, s, |chain|)| < U64_LIMIT
    ensures var p := Applied(env, node, chain[s..], |chain| - s);
            p.error.None? && Holds(p.node, chain, accounts, |chain|) <==> NoTransfers(Committed(chain, s, |chain|))
  {
    hide GoodChain, Applied, ReplayFrom, Committed, NoTransfers;
    ChainLength(env, chain, accounts);
    var n, h := |chain|, env.state.hash;
    var txs := Committed(chain, s, n);
    ReapplySteps(env, node, chain, accounts, s, n - s);
    if ReplayFrom(h, node.accounts, txs).failure.None? {
      ReplayUnchanged(h, node.accounts, txs);
    } else {
      TransferFailed(h, node.accounts, txs);
    }
  }

  lemma StoredAt(node: NodeState, chain: seq<Block>, accounts: seq<Accounts>, n: nat, i: u64)
    requires i < n <= |chain| == |accounts| <= U64_LIMIT && 0 < n && Holds(node, chain, accounts, n)
    ensures i in node.store.blocks && node.store.blocks[i] == chain[i] && GetBlock(node.store, i) == Some(chain[i])
  {}

  // ---- The sync plan and convergence ----

  /** The batches [start, end) from `cursor` to `end`. */
  function Plan(cursor: nat, end: nat, batch: nat): seq<(nat, nat)>
    requires batch > 0
    decreases end - cursor
  {
    if cursor >= end then []
    else
      var stop := if cursor + batch < end then cursor + batch else end;
      [(cursor, stop)] + Plan(stop, end, batch)
  }

  /** Consecutive batches from `cursor` to `end`, all of size `batch` but the last, which is
      what remains. */
  ghost predicate Partitions(plan: seq<(nat, nat)>, cursor: nat, end: nat, batch: nat) {
    && plan != [] && plan[0].0 == cursor
    && (forall k :: 0 < k < |plan| ==> plan[k].0 == plan[k - 1].1)
    && (forall k :: 0 <= k < |plan| - 1 ==> plan[k].1 == plan[k].0 + batch)
    && plan[|plan| - 1].0 < plan[|plan| - 1].1 == end <= plan[|plan| - 1].0 + batch
  }

  lemma PartitionsPrepend(rest: seq<(nat, nat)>, cursor: nat, end: nat, batch: nat)
    requires Partitions(rest, cursor + batch, end, batch)
    ensures Partitions([(cursor, cursor + batch)] + rest, cursor, end, batch)
  {
    var plan := [(cursor, cursor + batch)] + rest;
    assert forall k :: 0 < k < |plan| ==> plan[k] == rest[k - 1];
  }

  /** The plan covers exactly the missing heights, in order, each once. */
  lemma {:induction false} PlanPartitions(cursor: nat, end: nat, batch: nat)
    requires batch > 0 && cursor < end
    ensures Partitions(Plan(cursor, end, batch), cursor, end, batch)
    decreases end - cursor
  {
    if cursor + batch < end {
      hide Partitions;
      PlanPartitions(cursor + batch, end, batch);
      PartitionsPrepend(Plan(cursor + batch, end, batch), cursor, end, batch);
    } else {
      assert Plan(cursor, end, batch) == [(cursor, end)];
    }
  }

  /** The batch size is not zero and no addition of it to a cursor of the plan wraps. */
  ghost predicate NoWrap(cursor: nat, end: nat, batch: nat)
    decreases end - cursor
  {
    cursor < end ==> batch > 0 && cursor + batch < U64_LIMIT && NoWrap(cursor + batch, end, batch)
  }

  /** Where the source ends the batch that starts at `cursor`. */
  function Cut(cursor: u64, end: u64, batch: u64): u64 {
    var next := WrapAdd(cursor, batch);
    if next < end then next else end
  }

  /** The plan of the source's loop from `cursor` on, if the loop ends within `k` rounds. */
  function LoopPlan(cursor: u64, end: u64, batch: u64, k: nat): Option<seq<(nat, nat)>>
    decreases k
  {
    if cursor >= end then Some([])
    else if k == 0 then None
    else
      var stop := Cut(cursor, end, batch);
      var rest := LoopPlan(stop, end, batch, k - 1);
      if rest.None? then None else Some([(cursor, stop)] + rest.value)
  }

  lemma {:induction false} LoopPlanUnique(cursor: u64, end: u64, batch: u64, j: nat, k: nat)
    requires LoopPlan(cursor, end, batch, j).Some? && LoopPlan(cursor, end, batch, k).Some?
    ensures LoopPlan(cursor, end, batch, j) == LoopPlan(cursor, end, batch, k)
    decreases j
  {
    hide Cut;
    if cursor < end {
      LoopPlanUnique(Cut(cursor, end, batch), end, batch, j - 1, k - 1);
    }
  }

  lemma CutStep(cursor: u64, end: u64, batch: u64)
    requires cursor < end
    ensures NoWrap(cursor, end, batch) ==>
              var stop := Cut(cursor, end, batch);
              && batch > 0 && cursor < stop <= end && NoWrap(stop, end, batch)
              && Plan(cursor, end, batch) == [(cursor, stop)] + Plan(stop, end, batch)
    ensures Cut(cursor, end, batch) == cursor + batch && NoWrap(cursor + batch, end, batch) && batch > 0 ==>
              NoWrap(cursor, end, batch)
    ensures Cut(cursor, end, batch) == end ==> NoWrap(cursor, end, batch)
  {}

  lemma {:induction false} NoWrapEnds(cursor: u64, end: u64, batch: u64, k: nat)
    requires NoWrap(cursor, end, batch) && cursor < end && k >= end - cursor
    ensures batch > 0 && LoopPlan(cursor, end, batch, k) == Some(Plan(cursor, end, batch))
    decreases k
  {
    hide Cut, NoWrap, Plan;
    CutStep(cursor, end, batch);
    var stop := Cut(cursor, end, batch);
    if stop < end {
      NoWrapEnds(stop, end, batch, k - 1);
    } else {
      PlanDone(end, batch);
    }
  }

  lemma PlanDone(end: nat, batch: nat)
    requires batch > 0
    ensures Plan(end, end, batch) == []
  {}

  lemma PartitionsTail(plan: seq<(nat, nat)>, cursor: nat, stop: nat, end: nat, batch: nat)
    requires Partitions([(cursor, stop)] + plan, cursor, end, batch)
    ensures plan == [] ==> stop == end
    ensures plan != [] ==> stop == cursor + batch && stop < end && batch > 0 && Partitions(plan, stop, end, batch)
  {
    var all := [(cursor, stop)] + plan;
    assert all[0] == (cursor, stop) && forall i :: 0 <= i < |plan| ==> plan[i] == all[i + 1];
    if plan != [] {
      assert all[1].0 == all[0].1;
      PartitionsAscend(all, cursor, end, batch);
    }
  }

  lemma PartitionsAscend(plan: seq<(nat, nat)>, cursor: nat, end: nat, batch: nat)
    requires Partitions(plan, cursor, end, batch)
    ensures batch > 0 && forall k :: 0 <= k < |plan| ==> plan[k].0 < end
  {
    forall k | 0 <= k < |plan|
      ensures plan[k].0 < end
    {
      PartitionsBelow(plan, cursor, end, batch, k);
    }
  }

  lemma {:induction false} PartitionsBelow(plan: seq<(nat, nat)>, cursor: nat, end: nat, batch: nat, k: nat)
    requires Partitions(plan, cursor, end, batch) && k < |plan|
    ensures plan[k].0 < end
    decreases |plan| - k
  {
    if k < |plan| - 1 {
      PartitionsBelow(plan, cursor, end, batch, k + 1);
      assert plan[k + 1].0 == plan[k].1;
    }
  }

  lemma {:induction false} PartitionsNoWrap(cursor: u64, end: u64, batch: u64, k: nat)
    requires cursor < end && LoopPlan(cursor, end, batch, k).Some?
    requires Partitions(LoopPlan(cursor, end, batch, k).value, cursor, end, batch)
    ensures NoWrap(cursor, end, batch)
    decreases k
  {
    hide Cut, NoWrap, Partitions;
    var stop := Cut(cursor, end, batch);
    var rest := LoopPlan(stop, end, batch, k - 1).value;
    CutStep(cursor, end, batch);
    PartitionsTail(rest, cursor, stop, end, batch);
    if rest != [] {
      PartitionsNoWrap(stop, end, batch, k - 1);
    }
  }

  /** The source's loop ends with a plan that cuts exactly the missing heights into batches if
      and only if neither the end nor any cursor addition wraps past 2^64 and the batch size is
      not zero. */
  lemma PlanRightExactly(localHeight: u64, remoteHeight: u64, batch: u64)
    requires localHeight < remoteHeight
    ensures (exists k :: LoopPartitions(localHeight, remoteHeight, batch, k)) <==>
              remoteHeight + 1 < U64_LIMIT && NoWrap(localHeight + 1, remoteHeight + 1, batch)
  {
    hide LoopPlan, NoWrap, Partitions, Plan, WrapAdd;
    WrapOne(localHeight);
    WrapOne(remoteHeight);
    var start, end := localHeight + 1, remoteHeight + 1;
    if end < U64_LIMIT && NoWrap(start, end, batch) {
      NoWrapEnds(start, end, batch, end - start);
      PlanPartitions(start, end, batch);
      assert LoopPartitions(localHeight, remoteHeight, batch, end - start);
    }
    if k :| LoopPartitions(localHeight, remoteHeight, batch, k) {
      if end < U64_LIMIT {
        PartitionsNoWrap(start, end, batch, k);
      } else {
        EmptyLoop(start, batch, k);
        EmptyPlan(start, end, batch);
      }
    }
  }

  ghost predicate LoopPartitions(localHeight: u64, remoteHeight: u64, batch: u64, k: nat) {
    var p := LoopPlan(WrapAdd(localHeight, 1), WrapAdd(remoteHeight, 1), batch, k);
    p.Some? && Partitions(p.value, localHeight + 1, remoteHeight + 1, batch)
  }

  lemma EmptyLoop(cursor: u64, batch: u64, k: nat)
    ensures LoopPlan(cursor, 0, batch, k) == Some([])
  {}

  lemma EmptyPlan(cursor: nat, end: nat, batch: nat)
    ensures !Partitions([], cursor, end, batch)
  {}

  lemma WrapOne(n: u64)
    ensures WrapAdd(n, 1) == (if n + 1 == U64_LIMIT then 0 else n + 1)
  {}

  /** `compute_sync_plan`, for every input on which its loop ends. */
  method ComputeSyncPlan(localHeight: u64, remoteHeight: u64, batchSize: u64) returns (plan: seq<(nat, nat)>)
    requires localHeight < remoteHeight ==>
               exists k :: LoopPlan(WrapAdd(localHeight, 1), WrapAdd(remoteHeight, 1), batchSize, k).Some?
    ensures localHeight >= remoteHeight ==> plan == []
    ensures localHeight < remoteHeight ==>
              exists k :: LoopPlan(WrapAdd(localHeight, 1), WrapAdd(remoteHeight, 1), batchSize, k) == Some(plan)
    ensures localHeight < remoteHeight && remoteHeight + 1 < U64_LIMIT &&
            NoWrap(localHeight + 1, remoteHeight + 1, batchSize) ==>
              batchSize > 0 && plan == Plan(localHeight + 1, remoteHeight + 1, batchSize)
  {
    hide WrapAdd;
    if localHeight >= remoteHeight {
      return [];
    }
    var start := WrapAdd(localHeight, 1);
    var end := WrapAdd(remoteHeight, 1);
    plan := [];
    var cursor := start;
    ghost var all: nat :| LoopPlan(start, end, batchSize, all).Some?;
    ghost var k := all;
    while cursor < end
      invariant LoopPlan(cursor, end, batchSize, k).Some?
      invariant plan + LoopPlan(cursor, end, batchSize, k).value == LoopPlan(start, end, batchSize, all).value
      decreases k
    {
      var next := WrapAdd(cursor, batchSize);
      var batchEnd := if next < end then next else end;
      assert LoopPlan(cursor, end, batchSize, k).value ==
             [(cursor, batchEnd)] + LoopPlan(batchEnd, end, batchSize, k - 1).value;
      plan := plan + [(cursor, batchEnd)];
      cursor := batchEnd;
      k := k - 1;
    }
    assert plan + [] == plan;
    assert LoopPlan(start, end, batchSize, all) == Some(plan);
    LoopPlanRight(localHeight, remoteHeight, batchSize, all);
  }

  lemma LoopPlanRight(localHeight: u64, remoteHeight: u64, batch: u64, k: nat)
    requires localHeight < remoteHeight
    requires LoopPlan(WrapAdd(localHeight, 1), WrapAdd(remoteHeight, 1), batch, k).Some?
    ensures remoteHeight + 1 < U64_LIMIT && NoWrap(localHeight + 1, remoteHeight + 1, batch) ==>
              batch > 0 && LoopPlan(WrapAdd(localHeight, 1), WrapAdd(remoteHeight, 1), batch, k) ==
                           Some(Plan(localHeight + 1, remoteHeight + 1, batch))
  {
    hide LoopPlan, NoWrap, Plan, WrapAdd;
    WrapOne(localHeight);
    WrapOne(remoteHeight);
    var start, end := localHeight + 1, remoteHeight + 1;
    if end < U64_LIMIT && NoWrap(start, end, batch) {
      NoWrapEnds(start, end, batch, end - start);
      LoopPlanUnique(start, end, batch, k, end - start);
    }
  }

  /** The height from which a node asks for blocks. */
  function TipHeight(s: Store): u64 { if s.latest.Some? then s.latest.value else 0 }

  datatype SyncRun = SyncRun(node: NodeState, error: Option<SyncError>)

  /** Follow a plan: ask the peer for each range, apply what it returns. */
  function Follow(env: Env, node: NodeState, peer: Store, plan: seq<(nat, nat)>): SyncRun
    requires forall k :: 0 <= k < |plan| ==> plan[k].1 <= U64_LIMIT
    decreases |plan|
  {
    if plan == [] then SyncRun(node, None)
    else
      var blocks := BlockRange(peer, plan[0].0, plan[0].1);
      var p :=
        if blocks == [] then Progress(node, 0, 0, ZERO_DIGEST, 0, None) else Applied(env, node, blocks, |blocks|);
      if p.error.Some? then SyncRun(p.node, p.error) else Follow(env, p.node, peer, plan[1..])
  }

  lemma {:induction false} PlanBounds(cursor: nat, end: nat, batch: nat)
    requires batch > 0
    ensures forall k :: 0 <= k < |Plan(cursor, end, batch)| ==> Plan(cursor, end, batch)[k].1 <= end
    decreases end - cursor
  {
    if cursor < end {
      PlanBounds(if cursor + batch < end then cursor + batch else end, end, batch);
    }
  }

  lemma {:induction false} FollowConverges(env: Env, node: NodeState, peer: NodeState, chain: seq<Block>,
                                           accounts: seq<Accounts>, m: nat, batch: nat)
    requires GoodChain(env, chain, accounts) && 0 < m <= |chain| && batch > 0
    requires Holds(peer, chain, accounts, |chain|) && Holds(node, chain, accounts, m)
    requires forall k :: 0 <= k < |Plan(m, |chain|, batch)| ==> Plan(m, |chain|, batch)[k].1 <= U64_LIMIT
    ensures var run := Follow(env, node, peer.store, Plan(m, |chain|, batch));
            run.error.None? && Holds(run.node, chain, accounts, |chain|)
    decreases |chain| - m
  {
    hide Holds, Applied, GoodLink, BlockRange;
    ChainLength(env, chain, accounts);
    var n := |chain|;
    if m < n {
      var stop := if m + batch < n then m + batch else n;
      RangeOfChain(peer, chain, accounts, n, m, stop);
      ApplyFollowsChain(env, node, chain, accounts, m, stop, stop - m);
      var next := Applied(env, node, chain[m..stop], stop - m).node;
      assert Plan(m, n, batch)[1..] == Plan(stop, n, batch);
      PlanBounds(stop, n, batch);
      FollowConverges(env, next, peer, chain, accounts, stop, batch);
    }
  }

  /** Following the plan from height `k` to the tip of `node` ends without error in its blocks
      and accounts. */
  ghost predicate SyncsTo(env: Env, follower: NodeState, node: NodeState, k: nat, batch: nat)
    requires batch > 0
  {
    && node.store.latest.Some?
    && var plan := Plan(k, node.store.latest.value + 1, batch);
       && (forall i :: 0 <= i < |plan| ==> plan[i].1 <= U64_LIMIT)
       && var synced := Follow(env, follower, node.store, plan);
          && synced.error.None? && synced.node.accounts == node.accounts
          && synced.node.store.blocks == node.store.blocks && synced.node.store.latest == node.store.latest
  }

  /** Convergence. A node that holds any prefix of a peer's chain and follows the sync plan
      meets no error, ends with the peer's block at every height and the peer's tip, and its
      state root is the one in the last header. */
  lemma SyncConverges(env: Env, node: NodeState, peer: NodeState, chain: seq<Block>, accounts: seq<Accounts>,
                      m: nat, batch: nat)
    requires GoodChain(env, chain, accounts) && 0 < m <= |chain| && batch > 0
    requires Holds(peer, chain, accounts, |chain|) && Holds(node, chain, accounts, m)
    ensures SyncsTo(env, node, peer, m, batch) && peer.store.latest == Some(|chain| - 1)
    ensures |chain| > 1 ==> StateRoot(env.state, peer.accounts) == chain[|chain| - 1].header.stateRoot
  {
    hide StateRoot, Verify, ReplayFrom;
    var n := |chain|;
    PlanBounds(m, n, batch);
    FollowConverges(env, node, peer, chain, accounts, m, batch);
    var run := Follow(env, node, peer.store, Plan(m, n, batch));
    assert run.node.store.blocks.Keys == peer.store.blocks.Keys;
    if n > 1 {
      assert LinkedAt(env, chain, accounts, n - 1);
    }
  }
}
