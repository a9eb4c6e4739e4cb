/** The consensus round of a validator node, and whole runs of rounds and mempool calls. */
module ConsensusLoop {
  import opened Bytes
  import opened Transactions
  import opened StateTree
  import opened Ledger
  import opened Blocks
  import opened NovaDb
  import opened Mempool
  import opened Sync
  import opened Consensus
  import opened Producer

  // ---- Growing a chain ----

  lemma GoodChainAppend(env: Env, chain: seq<Block>, history: seq<Accounts>, b: Block, after: Accounts)
    requires GoodChain(env, chain, history) && |chain| < U64_LIMIT
    requires GoodLink(env, chain[|chain| - 1], history[|chain| - 1], b, after, |chain|)
    ensures GoodChain(env, chain + [b], history + [after])
  {
    hide GoodLink;
    var chain', history' := chain + [b], history + [after];
    forall i | 0 < i < |chain'|
      ensures LinkedAt(env, chain', history', i)
    {
      if i < |chain| {
        LinkAt(env, chain, history, i);
      }
    }
  }

  lemma HoldsAppend(env: Env, node: NodeState, chain: seq<Block>, history: seq<Accounts>, b: Block, after: Accounts)
    requires GoodChain(env, chain, history) && |chain| < U64_LIMIT && Holds(node, chain, history, |chain|)
    requires GoodLink(env, chain[|chain| - 1], history[|chain| - 1], b, after, |chain|)
    ensures Holds(NodeState(PutBlock(node.store, b), after), chain + [b], history + [after], |chain| + 1)
  {
    hide GoodLink, PutTransactions;
    var n := |chain|;
    GoodChainAppend(env, chain, history, b, after);
    assert Holds(node, chain + [b], history + [after], n);
    HoldsNext(env, node, chain + [b], history + [after], n, NodeState(PutBlock(node.store, b), after));
  }

  lemma ChainTipHeight(env: Env, chain: seq<Block>, history: seq<Accounts>)
    requires GoodChain(env, chain, history)
    ensures chain[|chain| - 1].header.height == |chain| - 1
  {
    hide Verify, ReplayFrom, StateRoot;
    if |chain| > 1 {
      LinkAt(env, chain, history, |chain| - 1);
    }
  }

  /** The accounts of a good chain are the replay of exactly its committed transactions, and
      replay creates or destroys no balance. */
  lemma {:induction false} ChainReplays(env: Env, chain: seq<Block>, history: seq<Accounts>, n: nat)
    requires GoodChain(env, chain, history) && n < |chain|
    ensures ReplayFrom(env.state.hash, history[0], Committed(chain, 1, n + 1))
         == Replay(history[n], |Committed(chain, 1, n + 1)|, None)
    ensures Total(history[0]) < U64_LIMIT ==> Total(history[n]) == Total(history[0])
  {
    hide GoodChain, Verify, StateRoot, ReplayFrom, Total;
    ChainLength(env, chain, history);
    ReplayNothing(env.state.hash, history[0]);
    if n > 0 {
      LinkAt(env, chain, history, n);
      ChainReplays(env, chain, history, n - 1);
      ReplayConcat(env.state.hash, history[0], Committed(chain, 1, n), chain[n].transactions);
    }
    if Total(history[0]) < U64_LIMIT {
      ReplayConserves(env.state.hash, history[0], Committed(chain, 1, n + 1));
    }
  }

  // ---- The consensus round ----

  datatype RoundError = MissingBlock(height: u64) | Unfinalized(error: ConsensusError)

  datatype RoundResult = Skipped | Completed(finalized: FinalizedBlock) | Errored(error: RoundError)

  datatype Latest = Parent(block: Block) | Missing(height: u64)

  function LatestBlock(c: Codec, s: Store): Latest {
    match s.latest
    case None => Parent(Genesis(c))
    case Some(h) => if h in s.blocks then Parent(s.blocks[h]) else Missing(h)
  }

  predicate OurTurn(vs: Validators, round: u64, address: ByteString) {
    var proposer := ProposerForRound(vs, round);
    proposer.Some? && proposer.value.address == address
  }

  function SelfVote(keypair: Keypair, hash: Digest, round: u64): Vote {
    Vote(keypair.address, hash, keypair.sign(VoteMessage(hash, round)), round)
  }

  lemma {:induction false} ActiveContained(vs: Validators, i: nat)
    requires i < |Active(vs)|
    ensures Contains(vs, Active(vs)[i].address)
    decreases |vs|
  {
    var rest, v := vs[..|vs| - 1], vs[|vs| - 1];
    if i < |Active(rest)| {
      ActiveContained(rest, i);
      var k :| 0 <= k < |rest| && rest[k].address == Active(rest)[i].address && rest[k].active;
      assert vs[k] == rest[k];
    }
  }

  /** A node's own vote on its turn is counted, and finalizes exactly under a threshold of one. */
  lemma SelfVoteFinality(vs: Validators, verify: Verifier, keypair: Keypair, hash: Digest, round: u64)
    requires KeyContract(verify, keypair) && OurTurn(vs, round, keypair.address)
    ensures var votes := [SelfVote(keypair, hash, round)];
            && Count(vs, verify, hash, votes).counted == votes
            && FinalityError(vs, verify, hash, votes) ==
               (if 1 < QuorumThreshold(vs) then Some(InsufficientVotes(1, QuorumThreshold(vs))) else None)
  {
    hide Active, VoteMessage;
    var vote := SelfVote(keypair, hash, round);
    ActiveContained(vs, round % |Active(vs)|);
    assert [vote][..0] == [];
  }

  // ---- The round as a step of a state machine ----

  datatype EngineState = EngineState(
    validators: Validators, round: u64, phase: Phase, nextHeight: u64, lastHash: Digest)

  datatype Machine = Machine(node: NodeState, pool: Pool, engine: EngineState)

  datatype Settings = Settings(
    env: Env, verify: Verifier, keypair: Keypair, maxTxs: nat, config: MempoolConfig, size: Transaction -> nat)

  datatype Transition = Transition(next: Machine, result: RoundResult)

  /** Execution of the selection on top of the current accounts. */
  ghost function SelectionRun(s: Settings, m: Machine): Run
    requires Indexed(m.pool)
  {
    ExecuteAll(s.env.state.hash, m.node.accounts, Selected(m.pool, s.maxTxs))
  }

  /** A block that reached finality is stored and its transactions leave the pool. */
  ghost function Commit(m: Machine, block: Block, accounts: Accounts): Machine {
    Machine(NodeState(PutBlock(m.node.store, block), accounts),
            WithoutAll(m.pool, IdList(block.transactions)),
            EngineState(m.engine.validators, WrapAdd(m.engine.round, 1), Propose,
                        WrapAdd(m.engine.nextHeight, 1), block.header.hash))
  }

  ghost function RoundStep(s: Settings, m: Machine, now: u64): Transition
    requires Indexed(m.pool)
  {
    if !OurTurn(m.engine.validators, m.engine.round, s.keypair.address) then Transition(m, Skipped)
    else
      match LatestBlock(s.env.chain, m.node.store)
      case Missing(h) => Transition(m, Errored(MissingBlock(h)))
      case Parent(parent) =>
        var run := SelectionRun(s, m);
        var block := Produced(s.env, parent, run, s.keypair, now);
        var votes := [SelfVote(s.keypair, block.header.hash, m.engine.round)];
        match FinalityError(m.engine.validators, s.verify, block.header.hash, votes)
        case Some(e) => Transition(m.(node := m.node.(accounts := run.accounts)), Errored(Unfinalized(e)))
        case None =>
          Transition(Commit(m, block, run.accounts),
                     Completed(FinalizedBlock(
                       block, Count(m.engine.validators, s.verify, block.header.hash, votes).counted, m.engine.round)))
  }

  // ---- Safety of whole runs ----

  ghost predicate DistinctBlocks(chain: seq<Block>) {
    forall i :: 0 < i < |chain| ==> NoDuplicates(chain[i].transactions)
  }

  /** The node stores exactly the chain, its accounts are the replay of the chain, the engine
      points at the tip, and the mempool's structures agree. */
  ghost predicate Synced(s: Settings, m: Machine, chain: seq<Block>, history: seq<Accounts>) {
    && GoodChain(s.env, chain, history) && DistinctBlocks(chain)
    && Holds(m.node, chain, history, |chain|)
    && m.engine.nextHeight == |chain| % U64_LIMIT
    && m.engine.lastHash == chain[|chain| - 1].header.hash
    && Consistent(s.config, s.size, m.pool)
  }

  lemma TipIsParent(s: Settings, m: Machine, chain: seq<Block>, history: seq<Accounts>)
    requires Synced(s, m, chain, history)
    ensures LatestBlock(s.env.chain, m.node.store) == Parent(chain[|chain| - 1])
    ensures m.node.accounts == history[|chain| - 1]
  {
    hide GoodLink, Genesis, DistinctBlocks, Consistent;
  }

  lemma CommitKeepsSync(s: Settings, m: Machine, chain: seq<Block>, history: seq<Accounts>, b: Block, after: Accounts)
    requires Synced(s, m, chain, history) && |chain| < U64_LIMIT
    requires GoodLink(s.env, chain[|chain| - 1], history[|chain| - 1], b, after, |chain|)
    requires NoDuplicates(b.transactions)
    ensures Synced(s, Commit(m, b, after), chain + [b], history + [after])
  {
    hide GoodLink, GoodChain, Holds, Consistent, PutBlock, WithoutAll, NoDuplicates;
    ChainLength(s.env, chain, history);
    GoodChainAppend(s.env, chain, history, b, after);
    HoldsAppend(s.env, m.node, chain, history, b, after);
    WithoutAllConsistent(s.config, s.size, m.pool, IdList(b.transactions));
    WrapNext(|chain|);
  }

  /** One round on our turn under a threshold of one: it completes, and extends the chain by
      the block it finalized. */
  lemma RoundExtends(s: Settings, m: Machine, chain: seq<Block>, history: seq<Accounts>, now: u64)
    returns (chain': seq<Block>, history': seq<Accounts>)
    requires Synced(s, m, chain, history) && KeyContract(s.verify, s.keypair) && |chain| < U64_LIMIT
    requires QuorumThreshold(m.engine.validators) <= 1
    requires OurTurn(m.engine.validators, m.engine.round, s.keypair.address)
    ensures Indexed(m.pool) && RoundStep(s, m, now).result.Completed?
    ensures chain' == chain + [RoundStep(s, m, now).result.finalized.block] && history < history'
    ensures Synced(s, RoundStep(s, m, now).next, chain', history')
    ensures var engine := RoundStep(s, m, now).next.engine;
            && engine.validators == m.engine.validators
            && engine.round == (m.engine.round + 1) % U64_LIMIT && engine.phase == Propose
    ensures var finalized := RoundStep(s, m, now).result.finalized;
            && finalized.round == m.engine.round
            && finalized.votes == [SelfVote(s.keypair, finalized.block.header.hash, m.engine.round)]
            && finalized.block.header.timestamp == now && finalized.block.header.validator == s.keypair.address
  {
    hide Synced, GoodLink, Count, FinalityError, ExecuteAll, Selected, Produced, Genesis, PutBlock, WithoutAll,
         OurTurn, QuorumThreshold, NoDuplicates, Consistent;
    SyncedParts(s, m, chain, history);
    AllIndexed(s.config, s.size, m.pool);
    TipIsParent(s, m, chain, history);
    var run, parent := SelectionRun(s, m), chain[|chain| - 1];
    var block := Produced(s.env, parent, run, s.keypair, now);
    ProducedLink(s.env, parent, m.node.accounts, Selected(m.pool, s.maxTxs), s.keypair, now);
    ProducedDistinct(s.env, s.config, s.size, m.pool, s.maxTxs, m.node.accounts);
    ProducedTransactions(s.env, parent, run, s.keypair, now);
    ProducedSigned(s.env, s.verify, parent, run, s.keypair, now);
    SelfVoteFinality(m.engine.validators, s.verify, s.keypair, block.header.hash, m.engine.round);
    CommitKeepsSync(s, m, chain, history, block, run.accounts);
    chain', history' := chain + [block], history + [run.accounts];
  }

  lemma ProducedTransactions(env: Env, parent: Block, run: Run, keypair: Keypair, now: u64)
    ensures Produced(env, parent, run, keypair, now).transactions == run.kept
  {}

  lemma SyncedParts(s: Settings, m: Machine, chain: seq<Block>, history: seq<Accounts>)
    requires Synced(s, m, chain, history)
    ensures 0 < |chain| == |history| <= U64_LIMIT && Consistent(s.config, s.size, m.pool)
    ensures chain[|chain| - 1].header.height == |chain| - 1
  {
    hide GoodLink, Holds, Consistent;
    ChainTipHeight(s.env, chain, history);
  }

  datatype Event = Round(now: u64) | Submit(tx: Transaction, now: u64) | Drop(ids: seq<ByteString>) | Flush

  ghost function Next(s: Settings, m: Machine, e: Event): Machine
    requires Consistent(s.config, s.size, m.pool)
  {
    AllIndexed(s.config, s.size, m.pool);
    match e
    case Round(now) => RoundStep(s, m, now).next
    case Submit(tx, now) => m.(pool := Add(s.config, s.size, m.pool, tx, now).pool)
    case Drop(ids) => m.(pool := WithoutAll(m.pool, ids))
    case Flush => m.(pool := EMPTY_POOL)
  }

  lemma NextConsistent(s: Settings, m: Machine, e: Event)
    requires Consistent(s.config, s.size, m.pool)
    ensures Consistent(s.config, s.size, Next(s, m, e).pool)
    ensures Next(s, m, e).engine.validators == m.engine.validators
    ensures e.Submit? || e.Drop? || e.Flush? ==> Next(s, m, e) == m.(pool := Next(s, m, e).pool)
  {
    hide Consistent, Add, WithoutAll, PutBlock, ExecuteAll, Selected, Produced, FinalityError, Count, LatestBlock,
         OurTurn;
    AllIndexed(s.config, s.size, m.pool);
    EmptyConsistent(s.config, s.size);
    match e
    case Round(now) =>
      var t := RoundStep(s, m, now);
      if t.result.Completed? {
        WithoutAllConsistent(s.config, s.size, m.pool, IdList(t.result.finalized.block.transactions));
      }
    case Submit(tx, now) => AddConsistent(s.config, s.size, m.pool, tx, now);
    case Drop(ids) => WithoutAllConsistent(s.config, s.size, m.pool, ids);
    case Flush =>
  }

  /** The machine after the events, in order. */
  ghost function After(s: Settings, m: Machine, events: seq<Event>): (r: Machine)
    requires Consistent(s.config, s.size, m.pool)
    ensures Consistent(s.config, s.size, r.pool) && r.engine.validators == m.engine.validators
  {
    if events == [] then m
    else
      var mid := After(s, m, events[..|events| - 1]);
      NextConsistent(s, mid, events[|events| - 1]);
      Next(s, mid, events[|events| - 1])
  }

  function Rounds(events: seq<Event>): nat {
    if events == [] then 0 else Rounds(events[..|events| - 1]) + (if events[|events| - 1].Round? then 1 else 0)
  }

  /** With at most one active validator the turn never passes. */
  lemma TurnIsFixed(vs: Validators, a: u64, b: u64, address: ByteString)
    requires QuorumThreshold(vs) <= 1
    ensures OurTurn(vs, a, address) == OurTurn(vs, b, address)
  {
    hide Active;
  }

  /** Safety and progress of every run with at most one active validator: the store stays a
      gap-free hash-linked chain that only grows, the engine stays at its tip, the accounts
      stay the replay of the committed transactions, and each round on our turn adds a block. */
  lemma {:induction false} RunStaysSynced(s: Settings, m: Machine, events: seq<Event>, chain: seq<Block>,
                                          history: seq<Accounts>)
    returns (chain': seq<Block>, history': seq<Accounts>)
    requires Synced(s, m, chain, history) && KeyContract(s.verify, s.keypair)
    requires QuorumThreshold(m.engine.validators) <= 1 && |chain| + Rounds(events) <= U64_LIMIT
    ensures chain <= chain' && history <= history' && Consistent(s.config, s.size, m.pool)
    ensures Synced(s, After(s, m, events), chain', history')
    ensures |chain'| == |chain| + (if OurTurn(m.engine.validators, 0, s.keypair.address) then Rounds(events) else 0)
  {
    hide Synced, Consistent, QuorumThreshold, OurTurn, RoundStep, KeyContract;
    SyncedParts(s, m, chain, history);
    if events == [] {
      chain', history' := chain, history;
    } else {
      var n := |events| - 1;
      var prefix, e := events[..n], events[n];
      chain', history' := RunStaysSynced(s, m, prefix, chain, history);
      var mid := After(s, m, prefix);
      NextConsistent(s, mid, e);
      TurnIsFixed(m.engine.validators, 0, mid.engine.round, s.keypair.address);
      if e.Round? && OurTurn(m.engine.validators, 0, s.keypair.address) {
        chain', history' := RoundExtends(s, mid, chain', history', e.now);
      } else {
        OtherStepsKeepSync(s, mid, e, chain', history');
      }
    }
  }

  /** A node started on a stored genesis block, as `main` starts it, is in sync. */
  lemma StartSynced(s: Settings, accounts: Accounts, vs: Validators)
    ensures var g := Genesis(s.env.chain);
            Synced(s, Machine(NodeState(PutBlock(Store(map[], map[], map[], None), g), accounts), EMPTY_POOL,
                              EngineState(vs, 0, Propose, 1, g.header.hash)), [g], [accounts])
  {
    hide Consistent, Genesis;
    EmptyConsistent(s.config, s.size);
    GenesisHeight(s.env.chain);
  }

  lemma GenesisHeight(c: Codec)
    ensures Genesis(c).header.height == 0
  {}

  /** End to end: after any run of the validator, a follower that held any prefix of the chain
      it started from syncs without error to the same blocks and accounts, and no balance was
      created or destroyed on the way. */
  lemma FollowerCatchesUp(s: Settings, m: Machine, events: seq<Event>, chain: seq<Block>, history: seq<Accounts>,
                          follower: NodeState, k: nat, batch: nat)
    requires Synced(s, m, chain, history) && KeyContract(s.verify, s.keypair)
    requires QuorumThreshold(m.engine.validators) <= 1 && |chain| + Rounds(events) <= U64_LIMIT
    requires 0 < k <= |chain| == |history| && Holds(follower, chain, history, k) && batch > 0
    ensures Consistent(s.config, s.size, m.pool) && SyncsTo(s.env, follower, After(s, m, events).node, k, batch)
    ensures Total(history[0]) < U64_LIMIT ==> Total(After(s, m, events).node.accounts) == Total(history[0])
  {
    hide Consistent, After, QuorumThreshold, KeyContract, GoodLink, Total, SyncsTo, StateRoot, ReplayFrom, Committed;
    var chain', history' := RunStaysSynced(s, m, events, chain, history);
    assert Holds(follower, chain', history', k);
    SyncConverges(s.env, follower, After(s, m, events).node, chain', history', k, batch);
    ChainReplays(s.env, chain', history', |chain'| - 1);
  }

  lemma OtherStepsKeepSync(s: Settings, m: Machine, e: Event, chain: seq<Block>, history: seq<Accounts>)
    requires Synced(s, m, chain, history)
    requires e.Round? ==> !OurTurn(m.engine.validators, m.engine.round, s.keypair.address)
    ensures Consistent(s.config, s.size, m.pool) && Synced(s, Next(s, m, e), chain, history)
  {
    hide Consistent, GoodChain, Holds, DistinctBlocks, OurTurn, Add, WithoutAll, SelectionRun;
    NextConsistent(s, m, e);
  }

  /** Several active validators: a node that votes alone never finalizes, so a round on our
      turn stores nothing and leaves engine and pool alone. It has already executed the
      selection, so the node stays in sync exactly when every selected transfer fails on the
      accounts of the tip. */
  lemma LoneVoteStalls(s: Settings, m: Machine, chain: seq<Block>, history: seq<Accounts>, now: u64)
    requires Synced(s, m, chain, history) && KeyContract(s.verify, s.keypair) && s.maxTxs < U64_LIMIT
    requires QuorumThreshold(m.engine.validators) > 1
    requires OurTurn(m.engine.validators, m.engine.round, s.keypair.address)
    ensures Indexed(m.pool)
    ensures RoundStep(s, m, now).result ==
            Errored(Unfinalized(InsufficientVotes(1, QuorumThreshold(m.engine.validators))))
    ensures RoundStep(s, m, now).next == m.(node := m.node.(accounts := SelectionRun(s, m).accounts))
    ensures Synced(s, RoundStep(s, m, now).next, chain, history) <==>
              AllTransfersFail(s.env.state.hash, m.node.accounts, Selected(m.pool, s.maxTxs))
  {
    hide GoodChain, DistinctBlocks, Count, FinalityError, ExecuteAll, Produced, Genesis, OurTurn, QuorumThreshold,
         Consistent,
         AllTransfersFail;
    SyncedParts(s, m, chain, history);
    AllIndexed(s.config, s.size, m.pool);
    TipIsParent(s, m, chain, history);
    var block := Produced(s.env, chain[|chain| - 1], SelectionRun(s, m), s.keypair, now);
    SelfVoteFinality(m.engine.validators, s.verify, s.keypair, block.header.hash, m.engine.round);
    ExecuteAllUnchanged(s.env.state.hash, m.node.accounts, Selected(m.pool, s.maxTxs));
  }

  /** No transaction of the block finalized in a round stays in the pool, and nothing else leaves it. */
  lemma CommittedLeavePool(s: Settings, m: Machine, now: u64)
    requires Consistent(s.config, s.size, m.pool)
    ensures Indexed(m.pool)
    ensures RoundStep(s, m, now).result.Completed? ==>
              var block := RoundStep(s, m, now).result.finalized.block;
              RoundStep(s, m, now).next.pool.transactions ==
                m.pool.transactions - (set t | t in block.transactions :: t.id)
  {
    hide Consistent, WithoutAll, PutBlock, SelectionRun, Produced, FinalityError, Count, LatestBlock, OurTurn;
    AllIndexed(s.config, s.size, m.pool);
    var t := RoundStep(s, m, now);
    if t.result.Completed? {
      var txs := t.result.finalized.block.transactions;
      WithoutAllConsistent(s.config, s.size, m.pool, IdList(txs));
      assert forall i :: 0 <= i < |txs| ==> IdList(txs)[i] == txs[i].id;
      assert IdSet(IdList(txs)) == set t | t in txs :: t.id;
    }
  }

  // ---- Committing once ----

  /** The transactions an event commits. */
  ghost function StepCommits(s: Settings, m: Machine, e: Event): seq<Transaction>
    requires Consistent(s.config, s.size, m.pool)
  {
    AllIndexed(s.config, s.size, m.pool);
    if e.Round? && RoundStep(s, m, e.now).result.Completed?
    then RoundStep(s, m, e.now).result.finalized.block.transactions
    else []
  }

  /** The transactions the events commit, in order. */
  ghost function CommittedBy(s: Settings, m: Machine, events: seq<Event>): seq<Transaction>
    requires Consistent(s.config, s.size, m.pool)
  {
    if events == [] then []
    else
      var rest := events[..|events| - 1];
      CommittedBy(s, m, rest) + StepCommits(s, After(s, m, rest), events[|events| - 1])
  }

  /** No pooled transaction is stored. */
  ghost predicate Apart(m: Machine) {
    forall id :: id in m.pool.transactions ==> id !in m.node.store.transactions
  }

  /** No transaction is submitted whose id is already stored, which a look into the database tells. */
  ghost predicate FreshSubmits(s: Settings, m: Machine, events: seq<Event>)
    requires Consistent(s.config, s.size, m.pool)
  {
    events == [] ||
    (var rest, e := events[..|events| - 1], events[|events| - 1];
     FreshSubmits(s, m, rest) && (e.Submit? ==> e.tx.id !in After(s, m, rest).node.store.transactions))
  }

  lemma {:induction false} PutTransactionsKeys(stored: map<ByteString, Transaction>, txs: seq<Transaction>)
    ensures PutTransactions(stored, txs).Keys == stored.Keys + (set t | t in txs :: t.id)
  {
    if txs != [] {
      var rest, last := txs[..|txs| - 1], txs[|txs| - 1];
      PutTransactionsKeys(stored, rest);
      assert forall t :: t in txs <==> t in rest || t == last;
    }
  }

  /** What a round commits: selected transactions, so pooled ones, of distinct ids. */
  lemma CommitsPooled(s: Settings, m: Machine, e: Event)
    requires Consistent(s.config, s.size, m.pool)
    ensures DistinctTxIds(StepCommits(s, m, e))
    ensures forall t :: t in StepCommits(s, m, e) ==> t.id in m.pool.transactions
  {
    hide Consistent, ExecuteAll, Selected, ChosenDensity, TotalDensity, Produced, FinalityError, Count, LatestBlock,
         OurTurn, PutBlock, WithoutAll, Min, FeePerByte;
    AllIndexed(s.config, s.size, m.pool);
    if e.Round? && RoundStep(s, m, e.now).result.Completed? {
      var selected, parent := Selected(m.pool, s.maxTxs), LatestBlock(s.env.chain, m.node.store);
      SelectionOptimal(s.config, s.size, m.pool, s.maxTxs, {});
      KeptSubsequence(s.env.state.hash, m.node.accounts, selected);
      ProducedTransactions(s.env, parent.block, SelectionRun(s, m), s.keypair, e.now);
    }
  }

  lemma StepApart(s: Settings, m: Machine, e: Event)
    requires Consistent(s.config, s.size, m.pool) && Apart(m)
    requires e.Submit? ==> e.tx.id !in m.node.store.transactions
    ensures Apart(Next(s, m, e))
    ensures Next(s, m, e).node.store.transactions.Keys ==
            m.node.store.transactions.Keys + (set t | t in StepCommits(s, m, e) :: t.id)
  {
    hide Consistent, Add, WithoutAll, SelectionRun, Produced, FinalityError, Count, LatestBlock, OurTurn, IdSet;
    AllIndexed(s.config, s.size, m.pool);
    match e
    case Round(now) =>
      var t := RoundStep(s, m, now);
      if t.result.Completed? {
        CommittedLeavePool(s, m, now);
        PutTransactionsKeys(m.node.store.transactions, t.result.finalized.block.transactions);
      }
    case Submit(tx, now) => AddMembers(s.config, s.size, m.pool, tx, now);
    case Drop(ids) => WithoutAllConsistent(s.config, s.size, m.pool, ids);
    case Flush =>
  }

  /** Execution never reads a nonce, so nothing but the pool keeps a transaction from being
      committed twice. Over any run in which no stored id is submitted again, every id is
      committed at most once. */
  lemma {:induction false} CommittedOnce(s: Settings, m: Machine, events: seq<Event>)
    requires Consistent(s.config, s.size, m.pool) && Apart(m) && FreshSubmits(s, m, events)
    ensures Apart(After(s, m, events)) && DistinctTxIds(CommittedBy(s, m, events))
    ensures After(s, m, events).node.store.transactions.Keys ==
            m.node.store.transactions.Keys + (set t | t in CommittedBy(s, m, events) :: t.id)
    ensures forall t :: t in CommittedBy(s, m, events) ==> t.id !in m.node.store.transactions
  {
    hide Consistent, StepCommits, Next;
    if events != [] {
      var rest, e := events[..|events| - 1], events[|events| - 1];
      var mid := After(s, m, rest);
      CommittedOnce(s, m, rest);
      CommitsPooled(s, mid, e);
      StepApart(s, mid, e);
      NextConsistent(s, mid, e);
      JoinDistinct(CommittedBy(s, m, rest), StepCommits(s, mid, e), mid.node.store.transactions.Keys);
    }
  }

  lemma JoinDistinct(a: seq<Transaction>, b: seq<Transaction>, known: set<ByteString>)
    requires DistinctTxIds(a) && DistinctTxIds(b)
    requires (forall t :: t in a ==> t.id in known) && (forall t :: t in b ==> t.id !in known)
    ensures DistinctTxIds(a + b) && forall t :: t in a + b <==> t in a || t in b
  {
    forall i, j | 0 <= i < j < |a + b|
      ensures (a + b)[i].id != (a + b)[j].id
    {
      assert i < |a| ==> a[i] in a;
      assert j >= |a| ==> b[j - |a|] in b;
    }
  }

  /** And a stored transaction that is submitted again is committed again, whatever its nonce,
      exactly when it still executes: alone in the pool, on our turn, with one validator. */
  lemma ResubmittedCommits(s: Settings, m: Machine, chain: seq<Block>, history: seq<Accounts>, tx: Transaction,
                           submitted: u64, now: u64)
    requires Synced(s, m, chain, history) && KeyContract(s.verify, s.keypair) && |chain| < U64_LIMIT
    requires QuorumThreshold(m.engine.validators) <= 1 && s.maxTxs > 0
    requires OurTurn(m.engine.validators, m.engine.round, s.keypair.address)
    requires m.pool == EMPTY_POOL && Add(s.config, s.size, m.pool, tx, submitted).error.None?
    ensures var events := [Submit(tx, submitted), Round(now)];
            && Consistent(s.config, s.size, m.pool)
            && CommittedBy(s, m, events) ==
               (if Execute(s.env.state.hash, m.node.accounts, tx).Done? then [tx] else [])
  {
    hide Synced, Consistent, Add, QuorumThreshold, OurTurn, Execute;
    var first, second := Submit(tx, submitted), Round(now);
    SyncedParts(s, m, chain, history);
    OtherStepsKeepSync(s, m, first, chain, history);
    var mid := Next(s, m, first);
    SyncedParts(s, mid, chain, history);
    NextConsistent(s, m, first);
    AloneSelected(s.config, s.size, tx, submitted, s.maxTxs);
    AloneRun(s.env.state.hash, m.node.accounts, tx);
    RoundCommitsKept(s, mid, chain, history, now);
    assert [first, second][..1] == [first] && [first][..0] == [];
    assert After(s, m, [first]) == mid;
    assert CommittedBy(s, m, [first]) == [];
  }

  lemma RoundCommitsKept(s: Settings, m: Machine, chain: seq<Block>, history: seq<Accounts>, now: u64)
    requires Synced(s, m, chain, history) && KeyContract(s.verify, s.keypair) && |chain| < U64_LIMIT
    requires QuorumThreshold(m.engine.validators) <= 1
    requires OurTurn(m.engine.validators, m.engine.round, s.keypair.address)
    ensures Consistent(s.config, s.size, m.pool) && Indexed(m.pool)
    ensures StepCommits(s, m, Round(now)) == SelectionRun(s, m).kept
  {
    hide Synced, Consistent, QuorumThreshold, OurTurn, ExecuteAll, Selected, Produced, FinalityError, Count, PutBlock,
         WithoutAll, Genesis;
    SyncedParts(s, m, chain, history);
    var chain', history' := RoundExtends(s, m, chain, history, now);
    TipIsParent(s, m, chain, history);
    ProducedTransactions(s.env, chain[|chain| - 1], SelectionRun(s, m), s.keypair, now);
  }

  lemma AloneSelected(config: MempoolConfig, size: Transaction -> nat, tx: Transaction, now: u64, k: nat)
    requires Add(config, size, EMPTY_POOL, tx, now).error.None? && k > 0
    ensures var p := Add(config, size, EMPTY_POOL, tx, now).pool;
            Indexed(p) && Selected(p, k) == [tx]
  {
    hide FeePerByte, Incremented;
    var p := Add(config, size, EMPTY_POOL, tx, now).pool;
    assert p.feeIndex == [KeyOf(Entry(tx, now, FeePerByte(size, tx)))];
  }

  lemma AloneRun(h: Hash, accounts: Accounts, tx: Transaction)
    ensures ExecuteAll(h, accounts, [tx]).kept == (if Execute(h, accounts, tx).Done? then [tx] else [])
  {
    hide Execute;
    assert [tx][..0] == [];
  }

  // ---- The loop object ----

  class Loop {
    const engine: ConsensusEngine
    const producer: BlockProducer
    const maxTxs: nat

    constructor (engine: ConsensusEngine, producer: BlockProducer, maxTxs: nat)
      ensures this.engine == engine && this.producer == producer && this.maxTxs == maxTxs
    {
      this.engine := engine;
      this.producer := producer;
      this.maxTxs := maxTxs;
    }

    ghost function Config(): Settings {
      Settings(producer.env, engine.verify, producer.keypair, maxTxs, producer.mempool.config, producer.mempool.size)
    }

    ghost function View(): Machine
      reads producer, producer.db, producer.tree, producer.mempool, engine
    {
      Machine(producer.Node(), producer.mempool.View(),
              EngineState(engine.validators, engine.currentRound, engine.currentPhase, engine.nextHeight,
                          engine.lastBlockHash))
    }

    method IsOurTurn() returns (ours: bool)
      ensures ours == OurTurn(engine.validators, engine.currentRound, producer.keypair.address)
      ensures var proposer := ProposerForRound(engine.validators, engine.currentRound);
              ours <==> proposer.Some? && proposer.value.address == producer.keypair.address
    {
      var proposer := ProposerForRound(engine.validators, engine.currentRound);
      if proposer.None? {
        return false;
      }
      ours := proposer.value.address == producer.keypair.address;
    }

    method GetLatestBlock() returns (r: Latest)
      ensures r == LatestBlock(producer.env.chain, producer.db.View())
      ensures match producer.db.latest
              case None => r == Parent(Genesis(producer.env.chain))
              case Some(h) => if h in producer.db.blocks then r == Parent(producer.db.blocks[h]) else r == Missing(h)
    {
      hide Genesis;
      var height := producer.db.latest;
      match height
      case Some(h) =>
        if h in producer.db.blocks {
          r := Parent(producer.db.blocks[h]);
        } else {
          r := Missing(h);
        }
      case None => r := Parent(Genesis(producer.env.chain));
    }

    method RunSingleRound(now: u64) returns (r: RoundResult)
      requires producer.Valid()
      modifies producer.db, producer.tree, producer.mempool, engine
      ensures producer.Valid() && old(Indexed(producer.mempool.View()))
      ensures Transition(View(), r) == old(RoundStep(Config(), View(), now))
      ensures !old(OurTurn(engine.validators, engine.currentRound, producer.keypair.address)) ==>
                r == Skipped && View() == old(View())
    {
      hide BlockProducer.Valid, TransactionPool.Valid, Tree.Valid, Genesis, OurTurn, FinalityError, Count, ExecuteAll,
           Selected, Produced, PutBlock, WithoutAll, LatestBlock;
      producer.PoolIndexed();
      var ours := IsOurTurn();
      if !ours {
        return Skipped;
      }
      var round := engine.currentRound;
      var latest := GetLatestBlock();
      match latest
      case Missing(h) => return Errored(MissingBlock(h));
      case Parent(parent) =>
        var block, _ := producer.ProduceBlock(parent, maxTxs, now);
        var vote := SelfVote(producer.keypair, block.header.hash, round);
        var finality := engine.FinalizeBlock(block, [vote]);
        match finality
        case NotFinalized(e) => return Errored(Unfinalized(e));
        case Finalized(value) =>
          producer.CommitBlock(value.block);
          return Completed(value);
    }
  }
}
