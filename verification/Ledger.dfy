/** Execution of transactions on the account map. */
module Ledger {
  import opened Bytes
  import opened Transactions
  import opened StateTree

  datatype StateError =
    | AccountFrozen(address: ByteString)
    | InsufficientBalance(have: u64, need: u64)

  datatype Executed = Done(accounts: Accounts) | Failed(error: StateError)

  function AccountOf(accounts: Accounts, key: Digest): AccountState {
    if key in accounts then accounts[key] else DEFAULT_ACCOUNT
  }

  /** `apply_transfer`: debit and bump the sender, write it, then read and credit the receiver. */
  function Transferred(h: Hash, accounts: Accounts, sender: ByteString, receiver: ByteString, amount: u64): Executed {
    var from := AccountOf(accounts, h(sender));
    if from.frozen then Failed(AccountFrozen(sender))
    else if from.balance < amount then Failed(InsufficientBalance(from.balance, amount))
    else
      var debited := accounts[h(sender) := from.(balance := from.balance - amount, nonce := WrapAdd(from.nonce, 1))];
      var to := AccountOf(debited, h(receiver));
      Done(debited[h(receiver) := to.(balance := WrapAdd(to.balance, amount))])
  }

  /** Transactions other than transfers are accepted without effect. */
  function Execute(h: Hash, accounts: Accounts, tx: Transaction): Executed {
    if tx.txType.Transfer? then Transferred(h, accounts, tx.sender, tx.receiver, tx.amount.value)
    else Done(accounts)
  }

  method ApplyTransfer(tree: Tree, sender: ByteString, receiver: ByteString, amount: u64)
    returns (failure: Option<StateError>)
    requires tree.Valid()
    modifies tree
    ensures tree.Valid()
    ensures match Transferred(tree.c.hash, old(tree.accounts), sender, receiver, amount)
            case Done(after) => failure == None && tree.accounts == after
            case Failed(e) => failure == Some(e) && tree.accounts == old(tree.accounts)
  {
    hide Tree.Valid;
    var senderState := tree.Get(sender);
    var from := if senderState.Some? then senderState.value else DEFAULT_ACCOUNT;
    if from.frozen {
      return Some(AccountFrozen(sender));
    }
    if from.balance < amount {
      return Some(InsufficientBalance(from.balance, amount));
    }
    tree.Put(sender, from.(balance := from.balance - amount, nonce := WrapAdd(from.nonce, 1)));
    var receiverState := tree.Get(receiver);
    var to := if receiverState.Some? then receiverState.value else DEFAULT_ACCOUNT;
    tree.Put(receiver, to.(balance := WrapAdd(to.balance, amount)));
    failure := None;
  }

  method ExecuteTransaction(tree: Tree, tx: Transaction) returns (failure: Option<StateError>)
    requires tree.Valid()
    modifies tree
    ensures tree.Valid()
    ensures match Execute(tree.c.hash, old(tree.accounts), tx)
            case Done(after) => failure == None && tree.accounts == after
            case Failed(e) => failure == Some(e) && tree.accounts == old(tree.accounts)
  {
    hide Tree.Valid, Transferred;
    if tx.txType.Transfer? {
      failure := ApplyTransfer(tree, tx.sender, tx.receiver, tx.amount.value);
    } else {
      failure := None;
    }
  }

  // ---- Conservation ----

  /** Sum of all native balances. */
  ghost function Total(accounts: Accounts): nat {
    if accounts == map[] then 0
    else
      var k :| k in accounts;
      accounts[k].balance + Total(accounts - {k})
  }

  lemma {:induction false} TotalRemove(accounts: Accounts, k: Digest)
    requires k in accounts
    ensures Total(accounts) == accounts[k].balance + Total(accounts - {k})
    decreases |accounts|
  {
    var j :| j in accounts && Total(accounts) == accounts[j].balance + Total(accounts - {j});
    if j != k {
      TotalRemove(accounts - {j}, k);
      TotalRemove(accounts - {k}, j);
      assert accounts - {j} - {k} == accounts - {k} - {j};
    }
  }

  lemma TotalUpdate(accounts: Accounts, k: Digest, a: AccountState)
    ensures Total(accounts[k := a]) == Total(accounts) - AccountOf(accounts, k).balance + a.balance
    ensures AccountOf(accounts, k).balance <= Total(accounts)
  {
    TotalRemove(accounts[k := a], k);
    if k in accounts {
      TotalRemove(accounts, k);
      assert accounts[k := a] - {k} == accounts - {k};
    } else {
      assert accounts[k := a] - {k} == accounts;
    }
  }

  /** The receiver's balance after the debit; the credit wraps when this plus the amount does not fit. */
  function CreditedFrom(h: Hash, accounts: Accounts, tx: Transaction): nat {
    var from := AccountOf(accounts, h(tx.sender));
    if h(tx.receiver) == h(tx.sender)
    then (if from.balance < tx.amount.value then 0 else from.balance - tx.amount.value)
    else AccountOf(accounts, h(tx.receiver)).balance
  }

  /** A transaction that executes conserves the total exactly when the credit does not overflow
      64 bits, which cannot happen while the total itself fits 64 bits. */
  lemma ExecuteConserves(h: Hash, accounts: Accounts, tx: Transaction)
    requires Execute(h, accounts, tx).Done?
    ensures Total(Execute(h, accounts, tx).accounts) == Total(accounts)
       <==> (tx.txType.Transfer? ==> CreditedFrom(h, accounts, tx) + tx.amount.value < U64_LIMIT)
    ensures Total(accounts) < U64_LIMIT ==> Total(Execute(h, accounts, tx).accounts) == Total(accounts)
  {
    hide Total;
    if tx.txType.Transfer? {
      var ks, kr, amount := h(tx.sender), h(tx.receiver), tx.amount.value;
      var from := AccountOf(accounts, ks);
      var debit := from.(balance := from.balance - amount, nonce := WrapAdd(from.nonce, 1));
      var debited := accounts[ks := debit];
      TotalUpdate(accounts, ks, debit);
      var to := AccountOf(debited, kr);
      TotalUpdate(debited, kr, to.(balance := WrapAdd(to.balance, amount)));
      assert to.balance == CreditedFrom(h, accounts, tx);
    }
  }

  // ---- Whose balance moves ----

  /** What a transaction takes from, and gives to, the account under `key` when it executes. */
  function Debit(h: Hash, tx: Transaction, key: Digest): u64 {
    if tx.txType.Transfer? && h(tx.sender) == key then tx.amount.value else 0
  }

  function Credit(h: Hash, tx: Transaction, key: Digest): u64 {
    if tx.txType.Transfer? && h(tx.receiver) == key then tx.amount.value else 0
  }

  /** A transfer executes exactly when the sender is not frozen and has the amount, and each
      refusal has its error. It then takes the amount from the sender and gives it to the
      receiver, modulo 2^64, counts the sender's nonce up, and changes no other field of any
      account; a missing account counts as an empty one. */
  lemma TransferExact(h: Hash, accounts: Accounts, tx: Transaction, key: Digest)
    requires tx.txType.Transfer?
    ensures var from, amount := AccountOf(accounts, h(tx.sender)), tx.amount.value;
            && (Execute(h, accounts, tx).Done? <==> !from.frozen && amount <= from.balance)
            && (from.frozen ==> Execute(h, accounts, tx) == Failed(AccountFrozen(tx.sender)))
            && (!from.frozen && from.balance < amount ==>
                  Execute(h, accounts, tx) == Failed(InsufficientBalance(from.balance, amount)))
    ensures Execute(h, accounts, tx).Done? ==>
              var after := Execute(h, accounts, tx).accounts;
              var a := AccountOf(accounts, key);
              && after.Keys == accounts.Keys + {h(tx.sender), h(tx.receiver)}
              && AccountOf(after, key) ==
                 a.(balance := (a.balance - Debit(h, tx, key) + Credit(h, tx, key)) % U64_LIMIT,
                    nonce := if key == h(tx.sender) then (a.nonce + 1) % U64_LIMIT else a.nonce)
    ensures key in accounts ==> AccountOf(accounts, key) == accounts[key]
    ensures key !in accounts ==> AccountOf(accounts, key) == AccountState(0, 0, map[], [], false)
  {}

  /** No other kind of transaction has an effect, or fails. */
  lemma OthersWithoutEffect(h: Hash, accounts: Accounts, tx: Transaction, key: Digest)
    requires !tx.txType.Transfer?
    ensures Execute(h, accounts, tx) == Done(accounts) && Debit(h, tx, key) == 0 && Credit(h, tx, key) == 0
  {}

  /** While the total fits 64 bits no balance wraps. */
  lemma ExecuteBalance(h: Hash, accounts: Accounts, tx: Transaction, key: Digest)
    requires Execute(h, accounts, tx).Done? && Total(accounts) < U64_LIMIT
    ensures AccountOf(Execute(h, accounts, tx).accounts, key).balance ==
            AccountOf(accounts, key).balance - Debit(h, tx, key) + Credit(h, tx, key)
  {
    hide Total;
    if tx.txType.Transfer? {
      ExecuteConserves(h, accounts, tx);
      TransferExact(h, accounts, tx, key);
    }
  }

  // ---- Skip-failures execution and strict replay ----

  datatype Run = Run(accounts: Accounts, kept: seq<Transaction>, results: seq<Option<StateError>>)

  /** The producer's loop: execute every candidate, keep those that succeed. */
  function ExecuteAll(h: Hash, accounts: Accounts, txs: seq<Transaction>): (run: Run)
    ensures |run.results| == |txs|
  {
    if txs == [] then Run(accounts, [], [])
    else
      var last := |txs| - 1;
      var before := ExecuteAll(h, accounts, txs[..last]);
      match Execute(h, before.accounts, txs[last])
      case Done(after) => Run(after, before.kept + [txs[last]], before.results + [None])
      case Failed(e) => Run(before.accounts, before.kept, before.results + [Some(e)])
  }

  datatype Replay = Replay(accounts: Accounts, executed: nat, failure: Option<StateError>)

  /** The syncing node's loop: execute in order, stop at the first failure. */
  function ReplayFrom(h: Hash, accounts: Accounts, txs: seq<Transaction>): Replay {
    if txs == [] then Replay(accounts, 0, None)
    else
      var last := |txs| - 1;
      var before := ReplayFrom(h, accounts, txs[..last]);
      if before.failure.Some? then before
      else
        match Execute(h, before.accounts, txs[last])
        case Done(after) => Replay(after, before.executed + 1, None)
        case Failed(e) => Replay(before.accounts, before.executed, Some(e))
  }

  /** Strictly replaying what the producer kept fails nowhere and reaches the producer's state. */
  lemma {:induction false} KeptReplays(h: Hash, accounts: Accounts, txs: seq<Transaction>)
    ensures var run := ExecuteAll(h, accounts, txs);
            ReplayFrom(h, accounts, run.kept) == Replay(run.accounts, |run.kept|, None)
  {
    hide Execute;
    if txs != [] {
      var last := |txs| - 1;
      KeptReplays(h, accounts, txs[..last]);
      var before := ExecuteAll(h, accounts, txs[..last]);
      var kept := before.kept + [txs[last]];
      assert kept[..|kept| - 1] == before.kept;
    }
  }

  /** A replay that succeeds conserves the total balance. */
  lemma {:induction false} ReplayConserves(h: Hash, accounts: Accounts, txs: seq<Transaction>)
    requires Total(accounts) < U64_LIMIT
    ensures Total(ReplayFrom(h, accounts, txs).accounts) == Total(accounts)
  {
    hide Execute, Total;
    if txs != [] {
      var last := |txs| - 1;
      ReplayConserves(h, accounts, txs[..last]);
      var before := ReplayFrom(h, accounts, txs[..last]);
      if before.failure.None? && Execute(h, before.accounts, txs[last]).Done? {
        ExecuteConserves(h, before.accounts, txs[last]);
      }
    }
  }

  lemma {:induction false} ReplayConcat(h: Hash, accounts: Accounts, a: seq<Transaction>, b: seq<Transaction>)
    requires ReplayFrom(h, accounts, a).failure.None?
    ensures var first := ReplayFrom(h, accounts, a);
            var second := ReplayFrom(h, first.accounts, b);
            ReplayFrom(h, accounts, a + b) == Replay(second.accounts, first.executed + second.executed, second.failure)
  {
    hide Execute;
    if b == [] {
      assert a + b == a;
    } else {
      var n := |b| - 1;
      ReplayConcat(h, accounts, a, b[..n]);
      assert (a + b)[..|a + b| - 1] == a + b[..n] && (a + b)[|a + b| - 1] == b[n];
    }
  }

  lemma {:induction false} ReplayConcatFails(h: Hash, accounts: Accounts, a: seq<Transaction>, b: seq<Transaction>)
    requires ReplayFrom(h, accounts, a).failure.Some?
    ensures ReplayFrom(h, accounts, a + b).failure.Some?
  {
    hide Execute;
    assert (a + b)[..|a|] == a;
    if ReplayFrom(h, accounts, a + b).failure.None? {
      ReplayPrefix(h, accounts, a + b, |a|);
    }
  }

  lemma ReplayNothing(h: Hash, accounts: Accounts)
    ensures ReplayFrom(h, accounts, []) == Replay(accounts, 0, None)
  {}

  /** Only transfers fail. */
  lemma TransferFailed(h: Hash, accounts: Accounts, txs: seq<Transaction>)
    requires ReplayFrom(h, accounts, txs).failure.Some?
    ensures !NoTransfers(txs)
  {
    hide ReplayFrom;
    ReplayFailure(h, accounts, txs);
  }

  // ---- Balances over runs ----

  function Spent(h: Hash, txs: seq<Transaction>, key: Digest): nat {
    if txs == [] then 0 else Spent(h, txs[..|txs| - 1], key) + Debit(h, txs[|txs| - 1], key)
  }

  function Earned(h: Hash, txs: seq<Transaction>, key: Digest): nat {
    if txs == [] then 0 else Earned(h, txs[..|txs| - 1], key) + Credit(h, txs[|txs| - 1], key)
  }

  /** After a replay every balance is the old one plus what was received minus what was sent,
      exactly so while the total fits 64 bits and modulo 2^64 in any case. */
  lemma {:induction false} ReplayBalance(h: Hash, accounts: Accounts, txs: seq<Transaction>, key: Digest)
    requires ReplayFrom(h, accounts, txs).failure.None?
    ensures var a, b := AccountOf(accounts, key), AccountOf(ReplayFrom(h, accounts, txs).accounts, key);
            && b.balance == (a.balance + Earned(h, txs, key) - Spent(h, txs, key)) % U64_LIMIT
            && (Total(accounts) < U64_LIMIT ==> b.balance == a.balance + Earned(h, txs, key) - Spent(h, txs, key))
            && b.frozen == a.frozen && b.creditLines == a.creditLines && b.balanceCommitments == a.balanceCommitments
  {
    hide Total, Execute, AccountOf, Debit, Credit;
    if txs != [] {
      var last := |txs| - 1;
      var mid := ReplayFrom(h, accounts, txs[..last]).accounts;
      ReplayBalance(h, accounts, txs[..last], key);
      StepBalance(h, mid, txs[last], key);
      ModAdd(AccountOf(accounts, key).balance + Earned(h, txs[..last], key) - Spent(h, txs[..last], key),
             Credit(h, txs[last], key) - Debit(h, txs[last], key));
      if Total(accounts) < U64_LIMIT {
        ReplayConserves(h, accounts, txs[..last]);
        ExecuteBalance(h, mid, txs[last], key);
      }
    }
  }

  lemma StepBalance(h: Hash, accounts: Accounts, tx: Transaction, key: Digest)
    requires Execute(h, accounts, tx).Done?
    ensures var a, b := AccountOf(accounts, key), AccountOf(Execute(h, accounts, tx).accounts, key);
            && b.balance == (a.balance + (Credit(h, tx, key) - Debit(h, tx, key))) % U64_LIMIT
            && b.frozen == a.frozen && b.creditLines == a.creditLines && b.balanceCommitments == a.balanceCommitments
  {
    hide Execute;
    if tx.txType.Transfer? {
      TransferExact(h, accounts, tx, key);
    } else {
      OthersWithoutEffect(h, accounts, tx, key);
    }
  }

  lemma ModAdd(n: int, k: int)
    ensures (n % U64_LIMIT + k) % U64_LIMIT == (n + k) % U64_LIMIT
  {}

  /** The same for the producer's execution, over the transactions it kept. */
  lemma ExecuteAllBalance(h: Hash, accounts: Accounts, txs: seq<Transaction>, key: Digest)
    ensures var run := ExecuteAll(h, accounts, txs);
            var a, b := AccountOf(accounts, key), AccountOf(run.accounts, key);
            && b.balance == (a.balance + Earned(h, run.kept, key) - Spent(h, run.kept, key)) % U64_LIMIT
            && (Total(accounts) < U64_LIMIT ==>
                  b.balance == a.balance + Earned(h, run.kept, key) - Spent(h, run.kept, key))
  {
    hide ExecuteAll, ReplayFrom, Total, AccountOf, Earned, Spent;
    KeptReplays(h, accounts, txs);
    ReplayBalance(h, accounts, ExecuteAll(h, accounts, txs).kept, key);
  }

  /** The result of candidate `i` is that of executing it on the accounts the candidates before
      it left, and exactly the candidates without an error are kept, in order. */
  lemma {:induction false} ExecuteAllResults(h: Hash, accounts: Accounts, txs: seq<Transaction>, i: nat)
    requires i < |txs|
    ensures var before, e := ExecuteAll(h, accounts, txs[..i]), ExecuteAll(h, accounts, txs).results[i];
            match Execute(h, before.accounts, txs[i])
            case Done(_) => e == None
            case Failed(error) => e == Some(error)
    ensures var run := ExecuteAll(h, accounts, txs);
            run.kept == Successes(txs, run.results, |txs|)
    decreases |txs|
  {
    hide Execute;
    var last := |txs| - 1;
    var rest := txs[..last];
    var run, before := ExecuteAll(h, accounts, txs), ExecuteAll(h, accounts, rest);
    SuccessesPrefix(txs, run.results, rest, before.results, last);
    if i < last {
      ExecuteAllResults(h, accounts, rest, i);
      assert rest[..i] == txs[..i];
    } else if last > 0 {
      ExecuteAllResults(h, accounts, rest, 0);
    }
  }

  /** The first `n` transactions without those that have an error. */
  function Successes(txs: seq<Transaction>, results: seq<Option<StateError>>, n: nat): seq<Transaction>
    requires n <= |txs| == |results|
  {
    if n == 0 then []
    else Successes(txs, results, n - 1) + (if results[n - 1].None? then [txs[n - 1]] else [])
  }

  lemma {:induction false} SuccessesPrefix(txs: seq<Transaction>, results: seq<Option<StateError>>,
                                           txs': seq<Transaction>, results': seq<Option<StateError>>, n: nat)
    requires n <= |txs| == |results| && n <= |txs'| == |results'|
    requires txs[..n] == txs'[..n] && results[..n] == results'[..n]
    ensures Successes(txs, results, n) == Successes(txs', results', n)
  {
    if n > 0 {
      assert txs[..n][n - 1] == txs'[..n][n - 1] && results[..n][n - 1] == results'[..n][n - 1];
      assert txs[..n - 1] == txs[..n][..n - 1] && txs'[..n - 1] == txs'[..n][..n - 1];
      assert results[..n - 1] == results[..n][..n - 1] && results'[..n - 1] == results'[..n][..n - 1];
      SuccessesPrefix(txs, results, txs', results', n - 1);
    }
  }

  // ---- When execution leaves the accounts as they were ----

  ghost predicate NoTransfers(txs: seq<Transaction>) {
    forall i :: 0 <= i < |txs| ==> !txs[i].txType.Transfer?
  }

  /** Transfers sent from the account under `key`. */
  function Sent(h: Hash, txs: seq<Transaction>, key: Digest): (n: nat)
    ensures n <= |txs|
  {
    if txs == [] then 0
    else
      var t := txs[|txs| - 1];
      Sent(h, txs[..|txs| - 1], key) + (if t.txType.Transfer? && h(t.sender) == key then 1 else 0)
  }

  lemma {:induction false} SentSome(h: Hash, txs: seq<Transaction>, i: nat)
    requires i < |txs| && txs[i].txType.Transfer?
    ensures Sent(h, txs, h(txs[i].sender)) > 0
  {
    if i < |txs| - 1 {
      SentSome(h, txs[..|txs| - 1], i);
    }
  }

  lemma ExecuteNonce(h: Hash, accounts: Accounts, tx: Transaction, key: Digest)
    requires Execute(h, accounts, tx).Done?
    ensures var bump := if tx.txType.Transfer? && h(tx.sender) == key then 1 else 0;
            AccountOf(Execute(h, accounts, tx).accounts, key).nonce == WrapAdd(AccountOf(accounts, key).nonce, bump)
  {}

  lemma WrapAddMod(n: nat, k: u64)
    ensures WrapAdd(n % U64_LIMIT, k) == (n + k) % U64_LIMIT
  {}

  /** Nonces count the transfers sent, modulo 2^64. */
  lemma {:induction false} ReplayNonce(h: Hash, accounts: Accounts, txs: seq<Transaction>, key: Digest)
    requires ReplayFrom(h, accounts, txs).failure.None?
    ensures AccountOf(ReplayFrom(h, accounts, txs).accounts, key).nonce ==
            (AccountOf(accounts, key).nonce + Sent(h, txs, key)) % U64_LIMIT
  {
    hide Execute, AccountOf, WrapAdd;
    if txs != [] {
      var last := |txs| - 1;
      ReplayNonce(h, accounts, txs[..last], key);
      ExecuteNonce(h, ReplayFrom(h, accounts, txs[..last]).accounts, txs[last], key);
      WrapAddMod(AccountOf(accounts, key).nonce + Sent(h, txs[..last], key),
                 Sent(h, txs, key) - Sent(h, txs[..last], key));
    } else {
      assert Sent(h, txs, key) == 0;
    }
  }

  /** A replay that succeeds changes nothing exactly when it holds no transfer. */
  lemma {:induction false} ReplayUnchanged(h: Hash, accounts: Accounts, txs: seq<Transaction>)
    requires ReplayFrom(h, accounts, txs).failure.None? && |txs| < U64_LIMIT
    ensures ReplayFrom(h, accounts, txs).accounts == accounts <==> NoTransfers(txs)
  {
    hide Transferred;
    if i :| 0 <= i < |txs| && txs[i].txType.Transfer? {
      SentSome(h, txs, i);
      ReplayNonce(h, accounts, txs, h(txs[i].sender));
    } else if txs != [] {
      ReplayUnchanged(h, accounts, txs[..|txs| - 1]);
    }
  }

  /** No candidate transfer executes on the given accounts. */
  ghost predicate AllTransfersFail(h: Hash, accounts: Accounts, txs: seq<Transaction>) {
    forall i :: 0 <= i < |txs| && txs[i].txType.Transfer? ==> Execute(h, accounts, txs[i]).Failed?
  }

  lemma {:induction false} NoneKept(h: Hash, accounts: Accounts, txs: seq<Transaction>)
    requires |txs| < U64_LIMIT
    ensures |ExecuteAll(h, accounts, txs).kept| <= |txs|
    ensures NoTransfers(ExecuteAll(h, accounts, txs).kept) <==> AllTransfersFail(h, accounts, txs)
  {
    hide Transferred;
    if txs != [] {
      var last := |txs| - 1;
      var before := ExecuteAll(h, accounts, txs[..last]);
      NoneKept(h, accounts, txs[..last]);
      KeptReplays(h, accounts, txs[..last]);
      ReplayUnchanged(h, accounts, before.kept);
      AllFailAppend(h, accounts, txs);
      NoTransfersAppend(before.kept, txs[last]);
    }
  }

  lemma NoTransfersAppend(txs: seq<Transaction>, t: Transaction)
    ensures NoTransfers(txs + [t]) <==> NoTransfers(txs) && !t.txType.Transfer?
  {
    assert (txs + [t])[|txs|] == t && forall i :: 0 <= i < |txs| ==> (txs + [t])[i] == txs[i];
  }

  lemma AllFailAppend(h: Hash, accounts: Accounts, txs: seq<Transaction>)
    requires txs != []
    ensures var t := txs[|txs| - 1];
            AllTransfersFail(h, accounts, txs) <==>
              (AllTransfersFail(h, accounts, txs[..|txs| - 1]) &&
               (t.txType.Transfer? ==> Execute(h, accounts, t).Failed?))
  {
    hide Execute;
    assert forall i :: 0 <= i < |txs| - 1 ==> txs[..|txs| - 1][i] == txs[i];
  }

  /** The producer's execution leaves the accounts as they were exactly when every candidate
      transfer fails on them: frozen or underfunded senders, which a caller can look up. */
  lemma ExecuteAllUnchanged(h: Hash, accounts: Accounts, txs: seq<Transaction>)
    requires |txs| < U64_LIMIT
    ensures ExecuteAll(h, accounts, txs).accounts == accounts <==> AllTransfersFail(h, accounts, txs)
  {
    hide ExecuteAll, ReplayFrom, AllTransfersFail, NoTransfers;
    KeptReplays(h, accounts, txs);
    NoneKept(h, accounts, txs);
    ReplayUnchanged(h, accounts, ExecuteAll(h, accounts, txs).kept);
  }

  lemma {:induction false} ReplayFailure(h: Hash, accounts: Accounts, txs: seq<Transaction>)
    requires ReplayFrom(h, accounts, txs).failure.Some?
    ensures var r := ReplayFrom(h, accounts, txs);
            && r.executed < |txs| && ReplayFrom(h, accounts, txs[..r.executed]) == Replay(r.accounts, r.executed, None)
            && Execute(h, r.accounts, txs[r.executed]) == Failed(r.failure.value)
  {
    hide Execute;
    var last := |txs| - 1;
    var before := ReplayFrom(h, accounts, txs[..last]);
    if before.failure.Some? {
      ReplayFailure(h, accounts, txs[..last]);
      assert txs[..last][..before.executed] == txs[..before.executed];
    } else {
      ReplayCount(h, accounts, txs[..last]);
    }
  }

  lemma {:induction false} ReplayCount(h: Hash, accounts: Accounts, txs: seq<Transaction>)
    requires ReplayFrom(h, accounts, txs).failure.None?
    ensures ReplayFrom(h, accounts, txs).executed == |txs|
  {
    hide Execute;
    if txs != [] {
      ReplayCount(h, accounts, txs[..|txs| - 1]);
    }
  }

  /** The first transfer of the list fails on the given accounts. */
  ghost predicate FirstTransferFails(h: Hash, accounts: Accounts, txs: seq<Transaction>) {
    exists i :: 0 <= i < |txs| &&
                txs[i].txType.Transfer? && NoTransfers(txs[..i]) && Execute(h, accounts, txs[i]).Failed?
  }

  /** A replay that fails has changed nothing exactly when it failed on its first transfer. */
  lemma FailedReplayUnchanged(h: Hash, accounts: Accounts, txs: seq<Transaction>)
    requires ReplayFrom(h, accounts, txs).failure.Some? && |txs| < U64_LIMIT
    ensures ReplayFrom(h, accounts, txs).accounts == accounts <==> FirstTransferFails(h, accounts, txs)
  {
    hide Transferred, ReplayFrom, NoTransfers;
    var r := ReplayFrom(h, accounts, txs);
    ReplayFailure(h, accounts, txs);
    ReplayUnchanged(h, accounts, txs[..r.executed]);
    if i :| 0 <= i < |txs| && txs[i].txType.Transfer? && NoTransfers(txs[..i]) && Execute(h, accounts, txs[i]).Failed? {
      FirstTransferIsReached(h, accounts, txs, i, r.executed);
    }
  }

  lemma FirstTransferIsReached(h: Hash, accounts: Accounts, txs: seq<Transaction>, i: nat, e: nat)
    requires i < |txs| < U64_LIMIT && e < |txs| && txs[i].txType.Transfer? && NoTransfers(txs[..i])
    requires Execute(h, accounts, txs[i]).Failed? && ReplayFrom(h, accounts, txs[..e]).failure.None?
    ensures NoTransfers(txs[..e])
  {
    hide Transferred;
    if i < e {
      var prefix := txs[..i + 1];
      assert prefix[..i] == txs[..i];
      ReplayPrefix(h, accounts, txs[..e], i + 1);
      assert txs[..e][..i + 1] == prefix;
      ReplayUnchanged(h, accounts, txs[..i]);
    } else {
      assert forall j :: 0 <= j < e ==> txs[..e][j] == txs[..i][j];
    }
  }

  lemma {:induction false} ReplayPrefix(h: Hash, accounts: Accounts, txs: seq<Transaction>, n: nat)
    requires n <= |txs| && ReplayFrom(h, accounts, txs).failure.None?
    ensures ReplayFrom(h, accounts, txs[..n]).failure.None?
  {
    hide Execute;
    if n < |txs| {
      ReplayPrefix(h, accounts, txs[..|txs| - 1], n);
      assert txs[..|txs| - 1][..n] == txs[..n];
    } else {
      assert txs[..n] == txs;
    }
  }
}
