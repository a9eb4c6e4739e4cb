/** The sync engine object: it reads and writes a block store and a state tree. */
module SyncEngine {
  import opened Bytes
  import opened Transactions
  import opened StateTree
  import opened Ledger
  import opened Blocks
  import opened NovaDb
  import opened Sync

  datatype SyncResult = SyncResult(blocksApplied: nat, transactionsExecuted: nat, finalHeight: u64,
                                   finalStateRoot: Digest)

  datatype Outcome<T> = Success(value: T) | Failure(error: SyncError)

  /** Height and hash of the latest stored block; genesis when nothing is stored. */
  function Tip(c: Codec, s: Store): Outcome<(u64, Digest)> {
    match s.latest
    case None => Success((0, Genesis(c).header.hash))
    case Some(h) => if h in s.blocks then Success((h, s.blocks[h].header.hash)) else Failure(NotFound(h))
  }

  datatype SyncRequest = GetChainTip | GetBlocks(start: u64, end: u64) | GetOneBlock(height: u64)

  datatype SyncResponse =
    | ChainTip(height: u64, blockHash: Digest)
    | BlockBatch(blocks: seq<Block>)
    | OneBlock(block: Option<Block>)
    | RequestFailed(error: SyncError)

  class Engine {
    const env: Env
    const db: NovaDB
    const tree: Tree

    constructor (env: Env, db: NovaDB, tree: Tree)
      requires tree.c == env.state
      ensures this.env == env && this.db == db && this.tree == tree
    {
      this.env := env;
      this.db := db;
      this.tree := tree;
    }

    ghost predicate Valid()
      reads this, tree
    {
      tree.c == env.state && tree.Valid()
    }

    ghost function Node(): NodeState
      reads this, db, tree
    {
      NodeState(db.View(), tree.accounts)
    }

    method LocalChainTip() returns (r: Outcome<(u64, Digest)>)
      ensures r == Tip(env.chain, db.View())
      ensures match db.latest
              case None => r == Success((0, Genesis(env.chain).header.hash))
              case Some(h) => if h in db.blocks then r == Success((h, db.blocks[h].header.hash))
                              else r == Failure(NotFound(h))
    {
      hide Genesis;
      match db.latest
      case Some(h) =>
        if h in db.blocks {
          r := Success((h, db.blocks[h].header.hash));
        } else {
          r := Failure(NotFound(h));
        }
      case None => r := Success((0, Genesis(env.chain).header.hash));
    }

    /** Serves a peer: a range request [start, end) returns the stored blocks of that range. */
    method ProcessSyncRequest(request: SyncRequest) returns (response: SyncResponse)
      ensures match request
              case GetChainTip =>
                response == (match Tip(env.chain, db.View())
                             case Success(tip) => ChainTip(tip.0, tip.1)
                             case Failure(e) => RequestFailed(e))
              case GetBlocks(start, end) => response == BlockBatch(BlockRange(db.View(), start, end))
              case GetOneBlock(h) => response == OneBlock(GetBlock(db.View(), h))
    {
      hide Tip;
      match request
      case GetChainTip =>
        var tip := LocalChainTip();
        response := if tip.Success? then ChainTip(tip.value.0, tip.value.1) else RequestFailed(tip.error);
      case GetBlocks(start, end) =>
        if start >= end {
          response := BlockBatch([]);
        } else {
          var blocks := db.GetRange(start, end - 1);
          response := BlockBatch(blocks);
        }
      case GetOneBlock(h) => response := OneBlock(GetBlock(db.View(), h));
    }

    /** Re-executes a block's transactions, stopping at the first failure. */
    method ReplayBlock(b: Block) returns (executed: nat, failure: Option<StateError>)
      requires Valid()
      modifies tree
      ensures Valid()
      ensures Replay(tree.accounts, executed, failure) == ReplayFrom(env.state.hash, old(tree.accounts), b.transactions)
    {
      hide Execute, Tree.Valid;
      executed, failure := 0, None;
      for i := 0 to |b.transactions|
        invariant Valid()
        invariant Replay(tree.accounts, executed, None) ==
                  ReplayFrom(env.state.hash, old(tree.accounts), b.transactions[..i])
      {
        assert b.transactions[..i + 1][..i] == b.transactions[..i];
        var e := ExecuteTransaction(tree, b.transactions[i]);
        if e.Some? {
          ReplayStops(env.state.hash, old(tree.accounts), b.transactions, i + 1);
          return executed, e;
        }
        executed := executed + 1;
      }
      assert b.transactions[..|b.transactions|] == b.transactions;
    }

    /** One round of the loop: verify, check height and parent, replay, store. */
    method ApplyBlock(b: Block, expectedHeight: u64, prevHash: Digest, ghost before: Progress)
      returns (executed: nat, error: Option<SyncError>)
      requires Valid() && before.node == Node() && before.prevHash == prevHash && before.error.None?
      modifies db, tree
      ensures Valid()
      ensures var p := ApplyOne(env, before, b, expectedHeight);
              Node() == p.node && error == p.error && p.executed == before.executed + executed
    {
      hide Verify, ReplayFrom, PutBlock, Tree.Valid;
      executed, error := 0, None;
      var fault := Verify(env.chain, b);
      if fault.Some? {
        error := Some(Rejected(InvalidBlock(b.header.height, fault.value)));
      } else if b.header.height != expectedHeight {
        error := Some(Rejected(ChainGap(expectedHeight, b.header.height)));
      } else if b.header.parentHash != prevHash {
        error := Some(Rejected(InvalidParentHash(b.header.height)));
      } else {
        var failure;
        executed, failure := ReplayBlock(b);
        if failure.Some? {
          error := Some(StateFailure(failure.value));
        } else {
          db.Put(b);
        }
      }
    }

    /** `apply_blocks`. On success the counters, the final height and the state root are those of
        the replayed batch; on failure database and state are wherever the batch stopped. */
    method ApplyBlocks(blocks: seq<Block>) returns (r: Outcome<SyncResult>)
      requires Valid()
      modifies db, tree
      ensures Valid()
      ensures blocks == [] ==> Node() == old(Node())
      ensures blocks == [] ==>
                match Tip(env.chain, db.View())
                case Success(tip) => r == Success(SyncResult(0, 0, tip.0, StateRoot(env.state, tree.accounts)))
                case Failure(e) => r == Failure(e)
      ensures blocks != [] ==>
                var p := Applied(env, old(Node()), blocks, |blocks|);
                && Node() == p.node
                && r == if p.error.Some? then Failure(p.error.value)
                        else Success(SyncResult(p.applied, p.executed, p.prevHeight,
                                                StateRoot(env.state, p.node.accounts)))
    {
      hide ApplyOne, StateRoot, Tip, Tree.Valid;
      if blocks == [] {
        tree.RootIsStateRoot();
        var tip := LocalChainTip();
        if tip.Failure? {
          return Failure(tip.error);
        }
        return Success(SyncResult(0, 0, tip.value.0, tree.root));
      }
      ghost var start := Node();
      var firstHeight := blocks[0].header.height;
      var prevHash: Digest := ZERO_DIGEST;
      var prevHeight: u64 := 0;
      if firstHeight != 0 {
        var prev := GetBlock(db.View(), firstHeight - 1);
        if prev.None? {
          AppliedStuck(env, start, blocks, 0);
          return Failure(Rejected(ChainGap(firstHeight - 1, firstHeight)));
        }
        prevHash := prev.value.header.hash;
        prevHeight := firstHeight - 1;
      }
      var applied, executed := 0, 0;
      for i := 0 to |blocks|
        invariant Valid()
        invariant Progress(Node(), applied, executed, prevHash, prevHeight, None) == Applied(env, start, blocks, i)
      {
        AppliedStuck(env, start, blocks, i + 1);
        var expectedHeight := if i == 0 then firstHeight else WrapAdd(prevHeight, 1);
        ghost var before := Applied(env, start, blocks, i);
        var count, error := ApplyBlock(blocks[i], expectedHeight, prevHash, before);
        if error.Some? {
          return Failure(error.value);
        }
        ApplyOneDone(env, before, blocks[i], expectedHeight);
        applied := applied + 1;
        executed := executed + count;
        prevHash := blocks[i].header.hash;
        prevHeight := blocks[i].header.height;
      }
      tree.RootIsStateRoot();
      r := Success(SyncResult(applied, executed, prevHeight, tree.root));
    }
  }

  lemma ApplyOneDone(env: Env, p: Progress, b: Block, expectedHeight: u64)
    requires p.error.None? && ApplyOne(env, p, b, expectedHeight).error.None?
    ensures var q := ApplyOne(env, p, b, expectedHeight);
            q.applied == p.applied + 1 && q.prevHash == b.header.hash && q.prevHeight == b.header.height
  {
    hide Verify, ReplayFrom, PutBlock;
  }

  lemma {:induction false} ReplayStops(h: Hash, accounts: Accounts, txs: seq<Transaction>, n: nat)
    requires n <= |txs| && ReplayFrom(h, accounts, txs[..n]).failure.Some?
    ensures ReplayFrom(h, accounts, txs) == ReplayFrom(h, accounts, txs[..n])
    decreases |txs|
  {
    hide Execute;
    if n < |txs| {
      var rest := txs[..|txs| - 1];
      assert rest[..n] == txs[..n];
      ReplayStops(h, accounts, rest, n);
    } else {
      assert txs[..n] == txs;
    }
  }

  /** Once stopped by an error, the rest of the batch changes nothing. */
  lemma {:induction false} AppliedStuck(env: Env, node: NodeState, blocks: seq<Block>, n: nat)
    requires blocks != [] && n <= |blocks|
    ensures Applied(env, node, blocks, n).error.Some? ==>
              Applied(env, node, blocks, |blocks|) == Applied(env, node, blocks, n)
    decreases |blocks| - n
  {
    hide ApplyOne;
    if n < |blocks| {
      AppliedStuck(env, node, blocks, n + 1);
    }
  }

  /** Nothing stored. */
  predicate Empty(s: Store) { s.blocks == map[] && s.latest == None }

  /** Syncing from the local tip. On a node that holds the first `m` blocks of the peer's chain
      the tip is the last of them, and the plan from it converges, exactly when the genesis
      block is among them: an empty store reports height 0 without holding block 0, so the
      first batch is rejected for the missing parent and nothing changes. */
  lemma TipPlanNeedsGenesis(env: Env, node: NodeState, peer: NodeState, chain: seq<Block>, accounts: seq<Accounts>,
                            m: nat, batch: nat)
    requires GoodChain(env, chain, accounts) && 2 <= |chain| && Holds(peer, chain, accounts, |chain|) && batch > 0
    requires if m == 0 then Empty(node.store) else m <= |chain| && Holds(node, chain, accounts, m)
    ensures var plan := Plan(TipHeight(node.store) + 1, |chain|, batch);
            && (forall k :: 0 <= k < |plan| ==> plan[k].1 <= U64_LIMIT)
            && var run := Follow(env, node, peer.store, plan);
               && (run.error.None? <==> m > 0)
               && (m > 0 ==> run.node.store.blocks == peer.store.blocks && run.node.accounts == peer.accounts)
               && (m == 0 ==> run == SyncRun(node, Some(Rejected(ChainGap(0, 1)))))
  {
    hide Tip, GoodChain, Holds, Applied, BlockRange, StateRoot, Follow, Plan;
    ChainLength(env, chain, accounts);
    if m > 0 {
      TipOfChain(env.chain, node, chain, accounts, m);
      SyncConverges(env, node, peer, chain, accounts, m, batch);
    } else {
      EmptyStoreStops(env, node, peer, chain, accounts, batch);
    }
  }

  lemma EmptyStoreStops(env: Env, node: NodeState, peer: NodeState, chain: seq<Block>, accounts: seq<Accounts>,
                        batch: nat)
    requires GoodChain(env, chain, accounts) && 2 <= |chain| && Holds(peer, chain, accounts, |chain|) && batch > 0
    requires Empty(node.store)
    ensures var plan := Plan(1, |chain|, batch);
            && (forall k :: 0 <= k < |plan| ==> plan[k].1 <= U64_LIMIT)
            && Follow(env, node, peer.store, plan) == SyncRun(node, Some(Rejected(ChainGap(0, 1))))
  {
    hide GoodChain, Holds, Applied, BlockRange, StateRoot;
    ChainLength(env, chain, accounts);
    var n := |chain|;
    PlanBounds(1, n, batch);
    var stop := if 1 + batch < n then 1 + batch else n;
    RangeOfChain(peer, chain, accounts, n, 1, stop);
    LinkAt(env, chain, accounts, 1);
    LinkHeight(env, chain[0], accounts[0], chain[1], accounts[1], 1);
    assert chain[1..stop][0] == chain[1];
    NoParent(env, node, chain[1..stop], stop - 1);
  }

  /** The tip reported for a stored chain is its last block; for an empty store it is height 0
      under the genesis hash, although block 0 is not stored. */
  lemma TipOfChain(c: Codec, node: NodeState, chain: seq<Block>, accounts: seq<Accounts>, m: nat)
    requires m <= |chain| == |accounts| <= U64_LIMIT
    requires if m == 0 then Empty(node.store) else Holds(node, chain, accounts, m)
    ensures m > 0 ==> Tip(c, node.store) == Success((m - 1, chain[m - 1].header.hash)) && TipHeight(node.store) == m - 1
    ensures m == 0 ==> Tip(c, node.store) == Success((0, Genesis(c).header.hash)) && 0 !in node.store.blocks
  {
    hide Genesis;
  }

  lemma {:induction false} NoParent(env: Env, node: NodeState, blocks: seq<Block>, n: nat)
    requires Empty(node.store) && n <= |blocks| && blocks != [] && blocks[0].header.height == 1
    ensures Applied(env, node, blocks, n).error == Some(Rejected(ChainGap(0, 1)))
    ensures Applied(env, node, blocks, n).node == node
  {
    hide ApplyOne;
    if n > 0 {
      NoParent(env, node, blocks, n - 1);
    }
  }
}
