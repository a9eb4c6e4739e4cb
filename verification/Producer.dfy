/** Block production: select, execute, build, sign, commit. */
module Producer {
  import opened Bytes
  import opened Transactions
  import opened StateTree
  import opened Ledger
  import opened Blocks
  import opened NovaDb
  import opened Mempool
  import opened Sync
  import opened Consensus

  /** Hex public key and signing function of the node. */
  datatype Keypair = Keypair(address: ByteString, sign: ByteString -> ByteString)

  ghost predicate KeyContract(verify: Verifier, keypair: Keypair) {
    forall m :: verify(keypair.address, m, keypair.sign(m))
  }

  // ---- What a round produces ----

  function IdList(txs: seq<Transaction>): (ids: seq<ByteString>)
    ensures |ids| == |txs| && forall i :: 0 <= i < |txs| ==> ids[i] == txs[i].id
  {
    seq(|txs|, i requires 0 <= i < |txs| => txs[i].id)
  }

  lemma IdListMembers(txs: seq<Transaction>)
    ensures (set id | id in IdList(txs)) == (set tx | tx in txs :: tx.id)
  {
    forall tx | tx in txs
      ensures tx.id in IdList(txs)
    {
      var i :| 0 <= i < |txs| && txs[i] == tx;
      assert IdList(txs)[i] == tx.id;
    }
    forall id | id in IdList(txs)
      ensures exists tx :: tx in txs && tx.id == id
    {
      var i :| 0 <= i < |txs| && IdList(txs)[i] == id;
      assert txs[i] in txs;
    }
  }

  /** The block built on `parent` from the transactions that executed, signed over its hash. */
  ghost function Produced(env: Env, parent: Block, run: Run, keypair: Keypair, now: u64): Block {
    var b := NewBlock(env.chain, parent, run.kept, keypair.address, StateRoot(env.state, run.accounts), now);
    b.(header := b.header.(signature := keypair.sign(b.header.hash)))
  }

  /** A produced block is a good link of the chain: it verifies, and strict replay of its
      transactions from the parent's accounts reaches exactly the root it carries. */
  lemma ProducedLink(env: Env, parent: Block, before: Accounts, candidates: seq<Transaction>, keypair: Keypair,
                     now: u64)
    requires parent.header.height + 1 < U64_LIMIT
    ensures var run := ExecuteAll(env.state.hash, before, candidates);
            GoodLink(env, parent, before, Produced(env, parent, run, keypair, now), run.accounts,
                     parent.header.height + 1)
  {
    hide Verify, ExecuteAll, ReplayFrom, StateRoot, TxRoot, HeaderPreimage;
    var run := ExecuteAll(env.state.hash, before, candidates);
    var b := NewBlock(env.chain, parent, run.kept, keypair.address, StateRoot(env.state, run.accounts), now);
    KeptReplays(env.state.hash, before, candidates);
    NewBlockVerifies(env.chain, parent, run.kept, keypair.address, StateRoot(env.state, run.accounts), now,
                     keypair.sign(b.header.hash));
  }

  /** A produced block carries the producer's address, the clock and the transactions kept, and a signature over
      its hash that verifies against that address. */
  lemma ProducedSigned(env: Env, verify: Verifier, parent: Block, run: Run, keypair: Keypair, now: u64)
    requires KeyContract(verify, keypair)
    ensures var block := Produced(env, parent, run, keypair, now);
            && verify(block.header.validator, block.header.hash, block.header.signature)
            && block.header.validator == keypair.address && block.header.timestamp == now
            && block.transactions == run.kept
  {
    hide TxRoot, StateRoot, HeaderPreimage;
  }

  ghost predicate DistinctTxIds(txs: seq<Transaction>) {
    forall i, j :: 0 <= i < j < |txs| ==> txs[i].id != txs[j].id
  }

  lemma {:induction false} KeptSubsequence(h: Hash, accounts: Accounts, txs: seq<Transaction>)
    requires DistinctTxIds(txs)
    ensures DistinctTxIds(ExecuteAll(h, accounts, txs).kept)
    ensures forall t :: t in ExecuteAll(h, accounts, txs).kept ==> t in txs
  {
    hide Execute;
    if txs != [] {
      var rest, last := txs[..|txs| - 1], txs[|txs| - 1];
      KeptSubsequence(h, accounts, rest);
      var kept := ExecuteAll(h, accounts, rest).kept;
      forall i | 0 <= i < |kept|
        ensures kept[i].id != last.id
      {
        assert kept[i] in rest;
      }
    }
  }

  /** Pool ids are unique, so a produced block never repeats a transaction: the premise under
      which its transaction root binds its transaction list. */
  lemma ProducedDistinct(env: Env, config: MempoolConfig, size: Transaction -> nat, p: Pool, k: nat, before: Accounts)
    requires Consistent(config, size, p)
    ensures Indexed(p) && NoDuplicates(ExecuteAll(env.state.hash, before, Selected(p, k)).kept)
  {
    hide Consistent, ExecuteAll, Selected, ChosenDensity, TotalDensity;
    AllIndexed(config, size, p);
    SelectionOptimal(config, size, p, k, {});
    KeptSubsequence(env.state.hash, before, Selected(p, k));
  }

  // ---- The producer ----

  datatype TxResult = TxResult(txId: ByteString, success: bool, error: Option<StateError>)

  function ResultList(txs: seq<Transaction>, results: seq<Option<StateError>>): seq<TxResult>
    requires |txs| == |results|
  {
    seq(|txs|, i requires 0 <= i < |txs| => TxResult(txs[i].id, results[i].None?, results[i]))
  }

  class BlockProducer {
    const env: Env
    const db: NovaDB
    const tree: Tree
    const mempool: TransactionPool
    const keypair: Keypair

    constructor (env: Env, db: NovaDB, tree: Tree, mempool: TransactionPool, keypair: Keypair)
      ensures this.env == env && this.db == db && this.tree == tree
      ensures this.mempool == mempool && this.keypair == keypair
    {
      this.env := env;
      this.db := db;
      this.tree := tree;
      this.mempool := mempool;
      this.keypair := keypair;
    }

    ghost predicate Valid()
      reads this, tree, mempool
    {
      tree.c == env.state && tree.Valid() && mempool.Valid()
    }

    ghost function Node(): NodeState
      reads this, db, tree
    {
      NodeState(db.View(), tree.accounts)
    }

    lemma PoolIndexed()
      requires Valid()
      ensures Indexed(mempool.View())
    {
      AllIndexed(mempool.config, mempool.size, mempool.View());
    }

    /** Select, execute dropping failures, build on the parent, sign. */
    method ProduceBlock(parent: Block, maxTxs: nat, now: u64) returns (block: Block, results: seq<TxResult>)
      requires Valid()
      modifies tree
      ensures Valid() && Indexed(mempool.View())
      ensures var run := ExecuteAll(env.state.hash, old(tree.accounts), Selected(mempool.View(), maxTxs));
              && tree.accounts == run.accounts
              && block == Produced(env, parent, run, keypair, now)
              && results == ResultList(Selected(mempool.View(), maxTxs), run.results)
              && forall i :: 0 <= i < |results| ==>
                   && results[i].txId == Selected(mempool.View(), maxTxs)[i].id && results[i].error == run.results[i]
                   && (results[i].success <==> run.results[i].None?)
    {
      hide Tree.Valid, TransactionPool.Valid, Execute, Selected, StateRoot;
      var candidates := mempool.SelectTransactions(maxTxs);
      var kept: seq<Transaction> := [];
      results := [];
      for i := 0 to |candidates|
        invariant Valid()
        invariant var run := ExecuteAll(env.state.hash, old(tree.accounts), candidates[..i]);
                  && tree.accounts == run.accounts && kept == run.kept
                  && results == ResultList(candidates[..i], run.results)
      {
        var tx := candidates[i];
        assert candidates[..i + 1][..i] == candidates[..i];
        var failure := ExecuteTransaction(tree, tx);
        if failure.None? {
          kept := kept + [tx];
        }
        results := results + [TxResult(tx.id, failure.None?, failure)];
      }
      assert candidates[..|candidates|] == candidates;
      tree.RootIsStateRoot();
      block := NewBlock(env.chain, parent, kept, keypair.address, tree.root, now);
      var signature := keypair.sign(block.header.hash);
      block := block.(header := block.header.(signature := signature));
    }

    method CommitBlock(block: Block)
      requires Valid()
      modifies db, mempool
      ensures Valid()
      ensures db.View() == PutBlock(old(db.View()), block)
      ensures mempool.View() == WithoutAll(old(mempool.View()), IdList(block.transactions))
      ensures mempool.transactions == old(mempool.transactions) - (set tx | tx in block.transactions :: tx.id)
    {
      hide Tree.Valid, TransactionPool.Valid, PutBlock, WithoutAll;
      IdListMembers(block.transactions);
      db.Put(block);
      mempool.RemoveBatch(IdList(block.transactions));
    }
  }
}
