/** The transaction pool: an id map, a fee-ordered index and per-sender counts that must
    agree after every call. The B-tree index is held as its ascending key sequence (each
    key's value is the key's own transaction id). */
module Mempool {
  import opened Bytes
  import opened Transactions

  datatype MempoolConfig = MempoolConfig(maxSize: nat, maxPerSender: nat, expirySeconds: u64, minFee: u64)

  datatype Entry = Entry(transaction: Transaction, addedAt: u64, feePerByte: u64)

  datatype MempoolError =
    | DuplicateTransaction
    | FeeTooLow(min: u64, got: u64)
    | SenderLimitExceeded(sender: ByteString, limit: nat)
    | MempoolFull(size: nat)

  /** `size` is the JSON length of the transaction. */
  function FeePerByte(size: Transaction -> nat, tx: Transaction): u64 {
    if size(tx) == 0 then 0 else tx.fee / size(tx)
  }

  /** The fee per byte is the fee over the size, rounded down; nothing for a transaction of no size. */
  lemma FeePerByteExact(size: Transaction -> nat, tx: Transaction)
    ensures size(tx) > 0 ==>
              FeePerByte(size, tx) * size(tx) <= tx.fee < (FeePerByte(size, tx) + 1) * size(tx)
    ensures size(tx) == 0 ==> FeePerByte(size, tx) == 0
  {}

  // ---- Fee keys ----

  datatype FeeKey = FeeKey(invertedFee: u64, addedAt: u64, txId: ByteString)

  predicate Less(a: FeeKey, b: FeeKey) {
    || a.invertedFee < b.invertedFee
    || (a.invertedFee == b.invertedFee && a.addedAt < b.addedAt)
    || (a.invertedFee == b.invertedFee && a.addedAt == b.addedAt && Before(a.txId, b.txId))
  }

  lemma LessTotal(a: FeeKey, b: FeeKey)
    ensures a == b || Less(a, b) || Less(b, a)
    ensures !(Less(a, b) && Less(b, a)) && !Less(a, a)
  {
    BeforeTrichotomy(a.txId, b.txId);
    BeforeTrichotomy(a.txId, a.txId);
  }

  lemma LessTransitive(a: FeeKey, b: FeeKey, c: FeeKey)
    requires Less(a, b) && Less(b, c)
    ensures Less(a, c)
  {
    if Before(a.txId, b.txId) && Before(b.txId, c.txId) {
      BeforeTransitive(a.txId, b.txId, c.txId);
    }
  }

  function KeyOf(e: Entry): FeeKey { FeeKey(U64_LIMIT - 1 - e.feePerByte, e.addedAt, e.transaction.id) }

  function Density(k: FeeKey): u64 { U64_LIMIT - 1 - k.invertedFee }

  /** Order of service: the higher density, then the earlier arrival, then the smaller id. */
  predicate Precedes(e: Entry, f: Entry) {
    || e.feePerByte > f.feePerByte
    || (e.feePerByte == f.feePerByte &&
        (e.addedAt < f.addedAt || (e.addedAt == f.addedAt && Before(e.transaction.id, f.transaction.id))))
  }

  /** The fee keys order the entries by service. */
  lemma KeysOrderEntries(e: Entry, f: Entry)
    ensures Less(KeyOf(e), KeyOf(f)) <==> Precedes(e, f)
  {}

  // ---- The ordered index ----

  ghost predicate Ascending(index: seq<FeeKey>) {
    forall i, j :: 0 <= i < j < |index| ==> Less(index[i], index[j])
  }

  function Insert(index: seq<FeeKey>, k: FeeKey): seq<FeeKey> {
    if index == [] then [k]
    else if k == index[0] then index
    else if Less(k, index[0]) then [k] + index
    else [index[0]] + Insert(index[1..], k)
  }

  function Delete(index: seq<FeeKey>, k: FeeKey): seq<FeeKey> {
    if index == [] then []
    else if k == index[0] then index[1..]
    else [index[0]] + Delete(index[1..], k)
  }

  lemma {:induction false} InsertMembers(index: seq<FeeKey>, k: FeeKey)
    ensures forall x :: x in Insert(index, k) <==> x == k || x in index
  {
    hide Less;
    if index != [] && k != index[0] && !Less(k, index[0]) {
      InsertMembers(index[1..], k);
      assert index == [index[0]] + index[1..];
    }
  }

  lemma {:induction false} InsertAscending(index: seq<FeeKey>, k: FeeKey)
    requires Ascending(index)
    ensures Ascending(Insert(index, k))
  {
    hide Less;
    if index != [] && k != index[0] {
      LessTotal(k, index[0]);
      if Less(k, index[0]) {
        forall j | 0 <= j < |index|
          ensures Less(k, index[j])
        {
          if j > 0 {
            LessTransitive(k, index[0], index[j]);
          }
        }
      } else {
        var rest := Insert(index[1..], k);
        InsertAscending(index[1..], k);
        InsertMembers(index[1..], k);
        forall j | 0 <= j < |rest|
          ensures Less(index[0], rest[j])
        {
          assert rest[j] == k || rest[j] in index[1..];
        }
      }
    }
  }

  lemma {:induction false} DeleteMembers(index: seq<FeeKey>, k: FeeKey)
    requires Ascending(index)
    ensures forall x :: x in Delete(index, k) <==> x in index && x != k
    ensures Ascending(Delete(index, k))
    ensures |Delete(index, k)| == if k in index then |index| - 1 else |index|
  {
    hide Less;
    if index != [] {
      assert index == [index[0]] + index[1..];
      forall x | x in index[1..]
        ensures x != index[0]
      {
        LessTotal(x, x);
      }
      if k != index[0] {
        DeleteMembers(index[1..], k);
        var rest := Delete(index[1..], k);
        forall j | 0 <= j < |rest|
          ensures Less(index[0], rest[j])
        {
          assert rest[j] in rest;
        }
      }
    }
  }

  // ---- Pool contents ----

  datatype Pool = Pool(transactions: map<ByteString, Entry>, feeIndex: seq<FeeKey>, senderCounts: map<ByteString, nat>)

  const EMPTY_POOL := Pool(map[], [], map[])

  ghost function IdsOf(txs: map<ByteString, Entry>, sender: ByteString): set<ByteString> {
    set id | id in txs && txs[id].transaction.sender == sender
  }

  ghost predicate IndexMatches(txs: map<ByteString, Entry>, index: seq<FeeKey>) {
    && Ascending(index)
    && (forall id :: id in txs ==> txs[id].transaction.id == id && KeyOf(txs[id]) in index)
    && (forall k :: k in index ==> k.txId in txs && KeyOf(txs[k.txId]) == k)
  }

  ghost predicate CountsMatch(txs: map<ByteString, Entry>, counts: map<ByteString, nat>) {
    && (forall s :: s in counts ==> counts[s] == |IdsOf(txs, s)| > 0)
    && (forall s :: s !in counts ==> IdsOf(txs, s) == {})
  }

  ghost predicate Consistent(config: MempoolConfig, size: Transaction -> nat, p: Pool) {
    && IndexMatches(p.transactions, p.feeIndex)
    && CountsMatch(p.transactions, p.senderCounts)
    && (forall id :: id in p.transactions ==>
          p.transactions[id].feePerByte == FeePerByte(size, p.transactions[id].transaction))
    && |p.transactions| <= config.maxSize
    && (forall s :: |IdsOf(p.transactions, s)| <= config.maxPerSender)
  }

  lemma AscendingTail(index: seq<FeeKey>)
    requires Ascending(index) && index != []
    ensures Ascending(index[1..]) && index[0] !in index[1..]
  {
    hide Less;
    LessTotal(index[0], index[0]);
  }

  lemma IndexTail(txs: map<ByteString, Entry>, index: seq<FeeKey>)
    requires IndexMatches(txs, index) && index != []
    ensures IndexMatches(txs - {index[0].txId}, index[1..])
  {
    hide Ascending;
    AscendingTail(index);
    assert forall x :: x in index <==> x == index[0] || x in index[1..];
  }

  lemma {:induction false} IndexSize(txs: map<ByteString, Entry>, index: seq<FeeKey>)
    requires IndexMatches(txs, index)
    ensures |index| == |txs|
    decreases |index|
  {
    hide Ascending;
    if index == [] {
      assert txs == map[];
    } else {
      var id := index[0].txId;
      IndexTail(txs, index);
      IndexSize(txs - {id}, index[1..]);
      assert index[0] in index;
      assert (txs - {id}).Keys == txs.Keys - {id};
    }
  }

  // ---- Inserting and removing entries ----

  function Incremented(counts: map<ByteString, nat>, sender: ByteString): map<ByteString, nat> {
    counts[sender := (if sender in counts then counts[sender] else 0) + 1]
  }

  function Decremented(counts: map<ByteString, nat>, sender: ByteString): map<ByteString, nat> {
    if sender !in counts then counts
    else if counts[sender] <= 1 then counts - {sender}
    else counts[sender := counts[sender] - 1]
  }

  function With(p: Pool, e: Entry): Pool {
    Pool(p.transactions[e.transaction.id := e], Insert(p.feeIndex, KeyOf(e)),
         Incremented(p.senderCounts, e.transaction.sender))
  }

  function Without(p: Pool, id: ByteString): Pool {
    if id !in p.transactions then p
    else
      var e := p.transactions[id];
      Pool(p.transactions - {id}, Delete(p.feeIndex, KeyOf(e)), Decremented(p.senderCounts, e.transaction.sender))
  }

  lemma WithIndex(txs: map<ByteString, Entry>, index: seq<FeeKey>, e: Entry)
    requires IndexMatches(txs, index) && e.transaction.id !in txs
    ensures IndexMatches(txs[e.transaction.id := e], Insert(index, KeyOf(e)))
  {
    hide Less, Insert;
    InsertAscending(index, KeyOf(e));
    InsertMembers(index, KeyOf(e));
  }

  lemma WithoutIndex(txs: map<ByteString, Entry>, index: seq<FeeKey>, id: ByteString)
    requires IndexMatches(txs, index) && id in txs
    ensures IndexMatches(txs - {id}, Delete(index, KeyOf(txs[id])))
  {
    hide Less, Delete;
    DeleteMembers(index, KeyOf(txs[id]));
  }

  lemma IdsOfWith(txs: map<ByteString, Entry>, e: Entry, s: ByteString)
    requires e.transaction.id !in txs
    ensures |IdsOf(txs[e.transaction.id := e], s)| == |IdsOf(txs, s)| + (if s == e.transaction.sender then 1 else 0)
  {
    var id := e.transaction.id;
    var before, after := IdsOf(txs, s), IdsOf(txs[id := e], s);
    if s == e.transaction.sender {
      assert after == before + {id} && id !in before;
    } else {
      assert after == before;
    }
  }

  lemma IdsOfWithout(txs: map<ByteString, Entry>, id: ByteString, s: ByteString)
    requires id in txs
    ensures |IdsOf(txs - {id}, s)| == |IdsOf(txs, s)| - (if s == txs[id].transaction.sender then 1 else 0)
  {
    var before, after := IdsOf(txs, s), IdsOf(txs - {id}, s);
    assert after == before - {id};
    assert id in before <==> s == txs[id].transaction.sender;
  }

  lemma NoIds(txs: map<ByteString, Entry>, s: ByteString)
    ensures IdsOf(txs, s) == {} <==> |IdsOf(txs, s)| == 0
  {}

  lemma WithCounts(txs: map<ByteString, Entry>, counts: map<ByteString, nat>, e: Entry)
    requires CountsMatch(txs, counts) && e.transaction.id !in txs
    ensures CountsMatch(txs[e.transaction.id := e], Incremented(counts, e.transaction.sender))
  {
    hide IdsOf;
    var after, counts' := txs[e.transaction.id := e], Incremented(counts, e.transaction.sender);
    forall s
      ensures s in counts' ==> counts'[s] == |IdsOf(after, s)| > 0
      ensures s !in counts' ==> IdsOf(after, s) == {}
    {
      IdsOfWith(txs, e, s);
      NoIds(txs, s);
      NoIds(after, s);
    }
  }

  lemma WithoutCounts(txs: map<ByteString, Entry>, counts: map<ByteString, nat>, id: ByteString)
    requires CountsMatch(txs, counts) && id in txs
    ensures CountsMatch(txs - {id}, Decremented(counts, txs[id].transaction.sender))
  {
    hide IdsOf;
    var after, counts' := txs - {id}, Decremented(counts, txs[id].transaction.sender);
    forall s
      ensures s in counts' ==> counts'[s] == |IdsOf(after, s)| > 0
      ensures s !in counts' ==> IdsOf(after, s) == {}
    {
      IdsOfWithout(txs, id, s);
      NoIds(txs, s);
      NoIds(after, s);
    }
  }

  lemma WithConsistent(config: MempoolConfig, size: Transaction -> nat, p: Pool, e: Entry)
    requires Consistent(config, size, p) && e.transaction.id !in p.transactions
    requires e.feePerByte == FeePerByte(size, e.transaction) && |p.transactions| < config.maxSize
    requires |IdsOf(p.transactions, e.transaction.sender)| < config.maxPerSender
    ensures Consistent(config, size, With(p, e))
  {
    hide IdsOf, IndexMatches, CountsMatch, Insert, Incremented;
    WithIndex(p.transactions, p.feeIndex, e);
    WithCounts(p.transactions, p.senderCounts, e);
    forall s
      ensures |IdsOf(With(p, e).transactions, s)| <= config.maxPerSender
    {
      IdsOfWith(p.transactions, e, s);
    }
  }

  lemma WithoutShrinks(p: Pool, id: ByteString)
    ensures |Without(p, id).transactions| == |p.transactions| - (if id in p.transactions then 1 else 0)
    ensures forall s :: |IdsOf(Without(p, id).transactions, s)| <= |IdsOf(p.transactions, s)|
  {
    hide IdsOf, Delete, Decremented;
    if id in p.transactions {
      forall s
        ensures |IdsOf(Without(p, id).transactions, s)| <= |IdsOf(p.transactions, s)|
      {
        IdsOfWithout(p.transactions, id, s);
      }
      assert (p.transactions - {id}).Keys == p.transactions.Keys - {id};
    }
  }

  lemma WithoutConsistent(config: MempoolConfig, size: Transaction -> nat, p: Pool, id: ByteString)
    requires Consistent(config, size, p)
    ensures Consistent(config, size, Without(p, id))
  {
    hide IdsOf, IndexMatches, CountsMatch, Delete, Decremented;
    if id in p.transactions {
      WithoutIndex(p.transactions, p.feeIndex, id);
      WithoutCounts(p.transactions, p.senderCounts, id);
      WithoutShrinks(p, id);
    }
  }

  // ---- Adding ----

  datatype Added = Added(error: Option<MempoolError>, pool: Pool)

  function SenderCount(p: Pool, sender: ByteString): nat {
    if sender in p.senderCounts then p.senderCounts[sender] else 0
  }

  /** The pool after making room for an incoming fee density, if it outbids the worst entry. */
  function Evicted(p: Pool, density: u64): Option<Pool> {
    if p.feeIndex == [] then None
    else
      var lowest := p.feeIndex[|p.feeIndex| - 1];
      if density <= Density(lowest) then None else Some(Without(p, lowest.txId))
  }

  function Add(config: MempoolConfig, size: Transaction -> nat, p: Pool, tx: Transaction, now: u64): Added {
    if tx.id in p.transactions then Added(Some(DuplicateTransaction), p)
    else if tx.fee < config.minFee then Added(Some(FeeTooLow(config.minFee, tx.fee)), p)
    else if SenderCount(p, tx.sender) >= config.maxPerSender then
      Added(Some(SenderLimitExceeded(tx.sender, config.maxPerSender)), p)
    else
      var density := FeePerByte(size, tx);
      var e := Entry(tx, now, density);
      if |p.transactions| < config.maxSize then Added(None, With(p, e))
      else
        match Evicted(p, density)
        case None => Added(Some(MempoolFull(config.maxSize)), p)
        case Some(room) => Added(None, With(room, e))
  }

  /** Every outcome of `add` leaves the three structures in agreement and the limits respected. */
  lemma AddConsistent(config: MempoolConfig, size: Transaction -> nat, p: Pool, tx: Transaction, now: u64)
    requires Consistent(config, size, p)
    ensures Consistent(config, size, Add(config, size, p, tx, now).pool)
    ensures Add(config, size, p, tx, now).error.Some? ==> Add(config, size, p, tx, now).pool == p
    ensures Add(config, size, p, tx, now).error.None? ==> tx.id in Add(config, size, p, tx, now).pool.transactions
  {
    hide IdsOf, IndexMatches, With, Without;
    var r := Add(config, size, p, tx, now);
    if r.error.None? {
      var e := Entry(tx, now, FeePerByte(size, tx));
      NoIds(p.transactions, tx.sender);
      assert SenderCount(p, tx.sender) == |IdsOf(p.transactions, tx.sender)|;
      if |p.transactions| < config.maxSize {
        WithConsistent(config, size, p, e);
        WithMember(p, e);
      } else {
        var lowest := p.feeIndex[|p.feeIndex| - 1];
        WithoutConsistent(config, size, p, lowest.txId);
        WithoutShrinks(p, lowest.txId);
        LastIsPooled(p);
        WithConsistent(config, size, Without(p, lowest.txId), e);
        WithMember(Without(p, lowest.txId), e);
      }
    }
  }

  lemma AddMembers(config: MempoolConfig, size: Transaction -> nat, p: Pool, tx: Transaction, now: u64)
    ensures forall id :: id in Add(config, size, p, tx, now).pool.transactions ==> id in p.transactions || id == tx.id
  {
    hide Insert, Delete, FeePerByte;
  }

  lemma WithMember(p: Pool, e: Entry)
    ensures e.transaction.id in With(p, e).transactions
  {}

  lemma LastIsPooled(p: Pool)
    requires IndexMatches(p.transactions, p.feeIndex) && p.feeIndex != []
    ensures var id := p.feeIndex[|p.feeIndex| - 1].txId;
            id in p.transactions && forall x :: x in Without(p, id).transactions ==> x in p.transactions
  {}

  /** The entry behind the last key is the one served last. */
  lemma LastServed(config: MempoolConfig, size: Transaction -> nat, p: Pool)
    requires Consistent(config, size, p) && p.feeIndex != []
    ensures var worst := p.feeIndex[|p.feeIndex| - 1].txId;
            && worst in p.transactions
            && p.transactions[worst].feePerByte == Density(p.feeIndex[|p.feeIndex| - 1])
            && (forall id :: id in p.transactions && id != worst ==>
                  Precedes(p.transactions[id], p.transactions[worst]))
  {
    hide CountsMatch, IdsOf, FeePerByte, Less, Before, Precedes;
    var last := p.feeIndex[|p.feeIndex| - 1];
    assert last in p.feeIndex;
    forall id | id in p.transactions && id != last.txId
      ensures Precedes(p.transactions[id], p.transactions[last.txId])
    {
      var i :| 0 <= i < |p.feeIndex| && p.feeIndex[i] == KeyOf(p.transactions[id]);
      KeysOrderEntries(p.transactions[id], p.transactions[last.txId]);
    }
  }

  lemma IndexEmpty(config: MempoolConfig, size: Transaction -> nat, p: Pool)
    requires Consistent(config, size, p)
    ensures p.feeIndex == [] <==> |p.transactions| == 0
  {
    IndexSize(p.transactions, p.feeIndex);
  }

  lemma CountIsIds(config: MempoolConfig, size: Transaction -> nat, p: Pool, sender: ByteString)
    requires Consistent(config, size, p)
    ensures SenderCount(p, sender) == |IdsOf(p.transactions, sender)|
  {
    hide IndexMatches, FeePerByte;
  }

  /** When each error is returned: the id is pooled, the fee is below the minimum, the sender has its full
      number of entries, or the pool is full and no entry has a lower density. */
  lemma AddErrors(config: MempoolConfig, size: Transaction -> nat, p: Pool, tx: Transaction, now: u64)
    requires Consistent(config, size, p)
    ensures Add(config, size, p, tx, now).error ==
              if tx.id in p.transactions then Some(DuplicateTransaction)
              else if tx.fee < config.minFee then Some(FeeTooLow(config.minFee, tx.fee))
              else if |IdsOf(p.transactions, tx.sender)| >= config.maxPerSender then
                Some(SenderLimitExceeded(tx.sender, config.maxPerSender))
              else if |p.transactions| >= config.maxSize && NoneBelow(p, FeePerByte(size, tx)) then
                Some(MempoolFull(config.maxSize))
              else None
  {
    hide Consistent, IdsOf, With, Without, FeePerByte, SenderCount;
    CountIsIds(config, size, p, tx.sender);
    IndexEmpty(config, size, p);
    if p.feeIndex != [] {
      LastServed(config, size, p);
    } else {
      assert p.transactions == map[];
    }
  }

  ghost predicate NoneBelow(p: Pool, density: u64) {
    forall id :: id in p.transactions ==> density <= p.transactions[id].feePerByte
  }

  /** What a successful call does: it enters the transaction, its time and its density, and when the pool was
      full it takes out the entry served last; every other entry stays. */
  lemma AddEffect(config: MempoolConfig, size: Transaction -> nat, p: Pool, tx: Transaction, now: u64)
    returns (worst: ByteString)
    requires Consistent(config, size, p) && Add(config, size, p, tx, now).error.None?
    ensures var after := Add(config, size, p, tx, now).pool.transactions;
            if |p.transactions| < config.maxSize then
              after == p.transactions[tx.id := Entry(tx, now, FeePerByte(size, tx))]
            else
              && worst in p.transactions && p.transactions[worst].feePerByte < FeePerByte(size, tx)
              && (forall id :: id in p.transactions && id != worst ==>
                    Precedes(p.transactions[id], p.transactions[worst]))
              && after == (p.transactions - {worst})[tx.id := Entry(tx, now, FeePerByte(size, tx))]
  {
    hide Consistent, Precedes, FeePerByte, Insert, Delete, SenderCount;
    worst := [];
    IndexEmpty(config, size, p);
    if |p.transactions| >= config.maxSize {
      worst := p.feeIndex[|p.feeIndex| - 1].txId;
      LastServed(config, size, p);
      WithoutTransactions(p, worst);
    }
  }

  // ---- Removing ----

  function WithoutAll(p: Pool, ids: seq<ByteString>): Pool {
    if ids == [] then p else Without(WithoutAll(p, ids[..|ids| - 1]), ids[|ids| - 1])
  }

  ghost function IdSet(ids: seq<ByteString>): set<ByteString> { set id | id in ids }

  lemma IdSetAppend(ids: seq<ByteString>, id: ByteString)
    ensures IdSet(ids + [id]) == IdSet(ids) + {id}
    ensures IdSet([]) == {}
  {}

  lemma MapMinusMinus(txs: map<ByteString, Entry>, a: set<ByteString>, id: ByteString)
    ensures txs - a - {id} == txs - (a + {id})
    ensures txs - {} == txs
  {}

  lemma WithoutTransactions(p: Pool, id: ByteString)
    ensures Without(p, id).transactions == p.transactions - {id}
  {}

  lemma {:induction false} WithoutAllConsistent(config: MempoolConfig, size: Transaction -> nat, p: Pool,
                                                ids: seq<ByteString>)
    requires Consistent(config, size, p)
    ensures Consistent(config, size, WithoutAll(p, ids))
    ensures WithoutAll(p, ids).transactions == p.transactions - IdSet(ids)
  {
    hide Consistent, Without, IdSet;
    if ids == [] {
      IdSetAppend([], []);
      MapMinusMinus(p.transactions, {}, []);
    } else {
      var rest, id := ids[..|ids| - 1], ids[|ids| - 1];
      WithoutAllConsistent(config, size, p, rest);
      WithoutConsistent(config, size, WithoutAll(p, rest), id);
      WithoutTransactions(WithoutAll(p, rest), id);
      IdSetAppend(rest, id);
      MapMinusMinus(p.transactions, IdSet(rest), id);
      assert ids == rest + [id];
    }
  }

  /** One call on the pool. `remove`, `remove_batch` and `expire_old` take some ids out. */
  ghost predicate PoolStep(config: MempoolConfig, size: Transaction -> nat, p: Pool, q: Pool) {
    || (exists tx, now :: q == Add(config, size, p, tx, now).pool)
    || (exists ids :: q == WithoutAll(p, ids))
    || q == EMPTY_POOL
  }

  lemma EmptyConsistent(config: MempoolConfig, size: Transaction -> nat)
    ensures Consistent(config, size, EMPTY_POOL)
  {
    assert forall s :: IdsOf(map[], s) == {};
  }

  /** After every sequence of calls from the empty pool the structures agree. */
  lemma {:induction false} ReachableConsistent(config: MempoolConfig, size: Transaction -> nat, run: seq<Pool>)
    requires run != [] && run[0] == EMPTY_POOL
    requires forall i :: 0 <= i < |run| - 1 ==> PoolStep(config, size, run[i], run[i + 1])
    ensures Consistent(config, size, run[|run| - 1])
  {
    hide Consistent, Add, WithoutAll;
    EmptyConsistent(config, size);
    if |run| > 1 {
      var p, q := run[|run| - 2], run[|run| - 1];
      ReachableConsistent(config, size, run[..|run| - 1]);
      assert PoolStep(config, size, p, q);
      if tx, now :| q == Add(config, size, p, tx, now).pool {
        AddConsistent(config, size, p, tx, now);
      } else if ids :| q == WithoutAll(p, ids) {
        WithoutAllConsistent(config, size, p, ids);
      }
    }
  }

  // ---- Selection ----

  function Min(a: nat, b: nat): nat { if a <= b then a else b }

  function Selected(p: Pool, maxCount: nat): (txs: seq<Transaction>)
    requires forall k :: k in p.feeIndex ==> k.txId in p.transactions
    ensures |txs| == Min(maxCount, |p.feeIndex|)
  {
    seq(Min(maxCount, |p.feeIndex|), i requires 0 <= i < Min(maxCount, |p.feeIndex|) =>
      p.transactions[p.feeIndex[i].txId].transaction)
  }

  function TotalDensity(size: Transaction -> nat, txs: seq<Transaction>): nat {
    if txs == [] then 0 else TotalDensity(size, txs[..|txs| - 1]) + FeePerByte(size, txs[|txs| - 1])
  }

  /** Total density of the indexed entries whose id is in `chosen`. */
  function ChosenDensity(index: seq<FeeKey>, chosen: set<ByteString>): nat {
    if index == [] then 0
    else
      var last := index[|index| - 1];
      ChosenDensity(index[..|index| - 1], chosen) + (if last.txId in chosen then Density(last) else 0)
  }

  function PrefixDensity(index: seq<FeeKey>, n: nat): nat
    requires n <= |index|
  {
    if n == 0 then 0 else PrefixDensity(index, n - 1) + Density(index[n - 1])
  }

  lemma {:induction false} PrefixOfPrefix(index: seq<FeeKey>, m: nat, n: nat)
    requires n <= m <= |index|
    ensures PrefixDensity(index[..m], n) == PrefixDensity(index, n)
  {
    if n > 0 {
      PrefixOfPrefix(index, m, n - 1);
    }
  }

  ghost predicate DistinctIds(index: seq<FeeKey>) {
    forall i, j :: 0 <= i < j < |index| ==> index[i].txId != index[j].txId
  }

  lemma {:induction false} ChosenIrrelevant(index: seq<FeeKey>, chosen: set<ByteString>, id: ByteString)
    requires forall k :: k in index ==> k.txId != id
    ensures ChosenDensity(index, chosen - {id}) == ChosenDensity(index, chosen)
  {
    if index != [] {
      ChosenIrrelevant(index[..|index| - 1], chosen, id);
    }
  }

  lemma DensityOrder(index: seq<FeeKey>, i: nat, j: nat)
    requires Ascending(index) && i <= j < |index|
    ensures Density(index[i]) >= Density(index[j])
  {}

  lemma DistinctIdsPrefix(index: seq<FeeKey>, n: nat)
    requires DistinctIds(index) && n < |index|
    ensures DistinctIds(index[..n]) && forall k :: k in index[..n] ==> k.txId != index[n].txId
  {}

  lemma {:induction false} GreedyOptimal(index: seq<FeeKey>, chosen: set<ByteString>, k: nat)
    requires Ascending(index) && DistinctIds(index) && |chosen| <= k
    ensures ChosenDensity(index, chosen) <= PrefixDensity(index, Min(k, |index|))
  {
    hide Ascending, DistinctIds, Density;
    if index != [] {
      var n := |index| - 1;
      var rest, last := index[..n], index[n];
      AscendingPrefix(index, n);
      DistinctIdsPrefix(index, n);
      if last.txId in chosen {
        ChosenIrrelevant(rest, chosen, last.txId);
        GreedyOptimal(rest, chosen - {last.txId}, k - 1);
        var m := Min(k - 1, n);
        PrefixOfPrefix(index, n, m);
        DensityOrder(index, m, n);
      } else {
        GreedyOptimal(rest, chosen, k);
        PrefixOfPrefix(index, n, Min(k, n));
      }
    }
  }

  lemma SelectedAt(config: MempoolConfig, size: Transaction -> nat, p: Pool, n: nat, i: nat)
    requires Consistent(config, size, p) && i < n <= |p.feeIndex|
    ensures var tx := Selected(p, n)[i];
            && tx.id == p.feeIndex[i].txId && tx.id in p.transactions && p.transactions[tx.id].transaction == tx
            && FeePerByte(size, tx) == Density(p.feeIndex[i])
  {
    hide Ascending, CountsMatch, FeePerByte, IdsOf;
    assert p.feeIndex[i] in p.feeIndex;
  }

  lemma {:induction false} SelectedTotal(config: MempoolConfig, size: Transaction -> nat, p: Pool, n: nat)
    requires Consistent(config, size, p) && n <= |p.feeIndex|
    ensures TotalDensity(size, Selected(p, n)) == PrefixDensity(p.feeIndex, n)
  {
    hide Ascending, CountsMatch, FeePerByte, IdsOf, Density;
    if n > 0 {
      SelectedTotal(config, size, p, n - 1);
      SelectedAt(config, size, p, n, n - 1);
      assert Selected(p, n)[..n - 1] == Selected(p, n - 1);
    }
  }

  lemma PooledIdsDistinct(txs: map<ByteString, Entry>, index: seq<FeeKey>)
    requires IndexMatches(txs, index)
    ensures DistinctIds(index)
  {
    hide Less;
    forall i, j | 0 <= i < j < |index|
      ensures index[i].txId != index[j].txId
    {
      assert index[i] in index && index[j] in index;
      LessTotal(index[i], index[j]);
    }
  }

  /** Selection returns min(k, size) distinct pooled transactions of non-increasing density,
      and no choice of at most k pooled transactions has a larger total density. */
  lemma SelectionOptimal(config: MempoolConfig, size: Transaction -> nat, p: Pool, k: nat, chosen: set<ByteString>)
    requires Consistent(config, size, p) && |chosen| <= k
    ensures |Selected(p, k)| == Min(k, |p.transactions|)
    ensures forall i :: 0 <= i < |Selected(p, k)| ==>
              var tx := Selected(p, k)[i]; tx.id in p.transactions && p.transactions[tx.id].transaction == tx
    ensures forall i, j :: 0 <= i < j < |Selected(p, k)| ==> Selected(p, k)[i].id != Selected(p, k)[j].id
    ensures forall i, j :: 0 <= i < j < |Selected(p, k)| ==>
              FeePerByte(size, Selected(p, k)[i]) >= FeePerByte(size, Selected(p, k)[j])
    ensures ChosenDensity(p.feeIndex, chosen) <= TotalDensity(size, Selected(p, k))
  {
    hide CountsMatch, ChosenDensity, PrefixDensity, TotalDensity, IdsOf, Ascending, FeePerByte, Density;
    var index := p.feeIndex;
    var n := Min(k, |index|);
    IndexSize(p.transactions, index);
    PooledIdsDistinct(p.transactions, index);
    GreedyOptimal(index, chosen, k);
    SelectedTotal(config, size, p, n);
    assert Selected(p, k) == Selected(p, n);
    forall i | 0 <= i < n
      ensures var tx := Selected(p, k)[i];
              tx.id == index[i].txId && tx.id in p.transactions && p.transactions[tx.id].transaction == tx &&
              FeePerByte(size, tx) == Density(index[i])
    {
      SelectedAt(config, size, p, n, i);
    }
    forall i, j | 0 <= i < j < n
      ensures Density(index[i]) >= Density(index[j])
    {
      DensityOrder(index, i, j);
    }
  }

  /** Selection is in order of service, and what is left out comes after everything selected. */
  lemma SelectionOrder(config: MempoolConfig, size: Transaction -> nat, p: Pool, k: nat, i: nat, id: ByteString)
    requires Consistent(config, size, p) && i < |Selected(p, k)| && id in p.transactions
    requires forall j :: 0 <= j <= i ==> Selected(p, k)[j].id != id
    ensures Selected(p, k)[i].id in p.transactions
    ensures Precedes(p.transactions[Selected(p, k)[i].id], p.transactions[id])
  {
    hide CountsMatch, IdsOf, FeePerByte, Less, Before, Precedes;
    var j :| 0 <= j < |p.feeIndex| && p.feeIndex[j] == KeyOf(p.transactions[id]);
    assert p.feeIndex[i] in p.feeIndex;
    assert j < |Selected(p, k)| ==> Selected(p, k)[j].id == id;
    KeysOrderEntries(p.transactions[p.feeIndex[i].txId], p.transactions[id]);
  }

  // ---- The pool holds the best densities offered ----

  function Densities(index: seq<FeeKey>): (d: seq<nat>)
    ensures |d| == |index|
  {
    seq(|index|, i requires 0 <= i < |index| => Density(index[i]))
  }

  function InsertDescending(d: seq<nat>, x: nat): (r: seq<nat>)
    ensures |r| == |d| + 1
  {
    if d == [] then [x]
    else if x > d[0] then [x] + d
    else [d[0]] + InsertDescending(d[1..], x)
  }

  function SortDescending(d: seq<nat>): (r: seq<nat>)
    ensures |r| == |d|
  {
    if d == [] then [] else InsertDescending(SortDescending(d[..|d| - 1]), d[|d| - 1])
  }

  ghost predicate Descending(d: seq<nat>) {
    forall i, j :: 0 <= i < j < |d| ==> d[i] >= d[j]
  }

  lemma {:induction false} InsertDescendingMultiset(d: seq<nat>, x: nat)
    ensures multiset(InsertDescending(d, x)) == multiset(d) + multiset{x}
  {
    if d != [] {
      assert d == [d[0]] + d[1..];
      if x <= d[0] {
        InsertDescendingMultiset(d[1..], x);
      }
    }
  }

  lemma {:induction false} InsertDescendingBounded(d: seq<nat>, x: nat, bound: nat)
    requires x <= bound && forall i :: 0 <= i < |d| ==> d[i] <= bound
    ensures forall i :: 0 <= i < |InsertDescending(d, x)| ==> InsertDescending(d, x)[i] <= bound
  {
    if d != [] && x <= d[0] {
      InsertDescendingBounded(d[1..], x, bound);
    }
  }

  lemma {:induction false} InsertDescendingCorrect(d: seq<nat>, x: nat)
    requires Descending(d)
    ensures Descending(InsertDescending(d, x))
  {
    if d != [] && x <= d[0] {
      InsertDescendingCorrect(d[1..], x);
      InsertDescendingBounded(d[1..], x, d[0]);
    }
  }

  /** `SortDescending` really sorts: descending order, same multiset. */
  lemma {:induction false} SortDescendingCorrect(d: seq<nat>)
    ensures Descending(SortDescending(d)) && multiset(SortDescending(d)) == multiset(d)
  {
    if d != [] {
      SortDescendingCorrect(d[..|d| - 1]);
      InsertDescendingCorrect(SortDescending(d[..|d| - 1]), d[|d| - 1]);
      InsertDescendingMultiset(SortDescending(d[..|d| - 1]), d[|d| - 1]);
      assert d == d[..|d| - 1] + [d[|d| - 1]];
    }
  }

  lemma {:induction false} InsertDescendingHead(d: seq<nat>, x: nat)
    requires Descending(d) && (d == [] || x >= d[0])
    ensures InsertDescending(d, x) == [x] + d
  {
    if d != [] && x == d[0] {
      InsertDescendingHead(d[1..], x);
      assert d == [d[0]] + d[1..];
    }
  }

  lemma DensitiesDescending(index: seq<FeeKey>)
    requires Ascending(index)
    ensures Descending(Densities(index))
  {}

  lemma {:induction false} DensitiesInsert(index: seq<FeeKey>, k: FeeKey)
    requires Ascending(index) && k !in index
    ensures Densities(Insert(index, k)) == InsertDescending(Densities(index), Density(k))
  {
    if index != [] {
      var d := Densities(index);
      assert d[1..] == Densities(index[1..]);
      if Less(k, index[0]) {
        DensitiesDescending(index);
        InsertDescendingHead(d, Density(k));
        assert Densities([k] + index) == [Density(k)] + d;
      } else {
        LessTotal(k, index[0]);
        DensitiesInsert(index[1..], k);
        var rest := Insert(index[1..], k);
        assert Densities([index[0]] + rest) == [d[0]] + Densities(rest);
      }
    }
  }

  lemma {:induction false} DeleteLast(index: seq<FeeKey>)
    requires Ascending(index) && index != []
    ensures Delete(index, index[|index| - 1]) == index[..|index| - 1]
  {
    hide Less;
    if |index| > 1 {
      LessTotal(index[0], index[0]);
      assert index[1..][|index| - 2] == index[|index| - 1];
      DeleteLast(index[1..]);
      assert index[..|index| - 1] == [index[0]] + index[1..][..|index| - 2];
    }
  }

  function Take(d: seq<nat>, k: nat): seq<nat> { if |d| <= k then d else d[..k] }

  /** Keeping the best k after one more offer: drop the offer, or drop the worst for it. */
  lemma {:induction false} TakeInsert(d: seq<nat>, x: nat, k: nat)
    requires Descending(d) && 0 < k <= |d|
    ensures Take(InsertDescending(d, x), k) == if x <= d[k - 1] then d[..k] else InsertDescending(d[..k - 1], x)
  {
    var r := InsertDescending(d, x);
    if x > d[0] {
      InsertDescendingHead(d[..k - 1], x);
      assert r[..k] == [x] + d[..k - 1];
    } else if k == 1 {
      assert r[..1] == [d[0]] == d[..1];
    } else {
      TakeInsert(d[1..], x, k - 1);
      assert r[..k] == [d[0]] + InsertDescending(d[1..], x)[..k - 1];
      assert d[..k] == [d[0]] + d[1..][..k - 1];
      assert d[..k - 1][1..] == d[1..][..k - 2];
    }
  }

  datatype Offer = Offer(tx: Transaction, now: u64)

  function PoolAfter(config: MempoolConfig, size: Transaction -> nat, offers: seq<Offer>): Pool {
    if offers == [] then EMPTY_POOL
    else
      var last := |offers| - 1;
      Add(config, size, PoolAfter(config, size, offers[..last]), offers[last].tx, offers[last].now).pool
  }

  /** No offer is turned away by the duplicate, minimum-fee or per-sender checks. */
  ghost predicate Eligible(config: MempoolConfig, size: Transaction -> nat, offers: seq<Offer>) {
    offers == [] ||
    var last := |offers| - 1;
    && Eligible(config, size, offers[..last])
    && var e := Add(config, size, PoolAfter(config, size, offers[..last]), offers[last].tx, offers[last].now).error;
       e.None? || e.value.MempoolFull?
  }

  function OfferedDensities(size: Transaction -> nat, offers: seq<Offer>): (d: seq<nat>)
    ensures |d| == |offers|
  {
    seq(|offers|, i requires 0 <= i < |offers| => FeePerByte(size, offers[i].tx))
  }

  lemma InsertDensities(txs: map<ByteString, Entry>, index: seq<FeeKey>, e: Entry)
    requires IndexMatches(txs, index) && e.transaction.id !in txs
    ensures Densities(Insert(index, KeyOf(e))) == InsertDescending(Densities(index), e.feePerByte)
  {
    hide Ascending, Insert, InsertDescending, Densities;
    DensitiesInsert(index, KeyOf(e));
  }

  lemma EvictDensities(txs: map<ByteString, Entry>, index: seq<FeeKey>, e: Entry)
    requires IndexMatches(txs, index) && e.transaction.id !in txs && index != []
    ensures Densities(Insert(Delete(index, index[|index| - 1]), KeyOf(e)))
         == InsertDescending(Densities(index)[..|index| - 1], e.feePerByte)
  {
    hide Ascending, Insert, InsertDescending, Delete;
    var n := |index| - 1;
    DeleteLast(index);
    AscendingPrefix(index, n);
    DensitiesInsert(index[..n], KeyOf(e));
    assert Densities(index[..n]) == Densities(index)[..n];
  }

  lemma AddDensities(config: MempoolConfig, size: Transaction -> nat, p: Pool, tx: Transaction, now: u64, all: seq<nat>)
    requires Consistent(config, size, p) && Descending(all)
    requires Densities(p.feeIndex) == Take(all, config.maxSize)
    requires var e := Add(config, size, p, tx, now).error; e.None? || e.value.MempoolFull?
    ensures Densities(Add(config, size, p, tx, now).pool.feeIndex)
         == Take(InsertDescending(all, FeePerByte(size, tx)), config.maxSize)
  {
    hide IndexMatches, CountsMatch, InsertDescending, Insert, Delete, Descending, Incremented, Decremented, FeePerByte;
    var index, k := p.feeIndex, config.maxSize;
    var e := Entry(tx, now, FeePerByte(size, tx));
    IndexSize(p.transactions, index);
    if |p.transactions| < k {
      InsertDensities(p.transactions, index, e);
    } else if k > 0 {
      LastEntry(config, size, p);
      TakeInsert(all, e.feePerByte, k);
      assert all[k - 1] == Densities(index)[k - 1] == Density(index[k - 1]);
      EvictDensities(p.transactions, index, e);
      assert Densities(index)[..k - 1] == all[..k - 1];
    }
  }

  lemma AscendingPrefix(index: seq<FeeKey>, n: nat)
    requires Ascending(index) && n <= |index|
    ensures Ascending(index[..n])
  {}

  lemma {:induction false} PoolAfterConsistent(config: MempoolConfig, size: Transaction -> nat, offers: seq<Offer>)
    ensures Consistent(config, size, PoolAfter(config, size, offers))
  {
    hide Consistent, Add;
    if offers == [] {
      EmptyConsistent(config, size);
    } else {
      var last := |offers| - 1;
      PoolAfterConsistent(config, size, offers[..last]);
      AddConsistent(config, size, PoolAfter(config, size, offers[..last]), offers[last].tx, offers[last].now);
    }
  }

  /** Over any run of eligible offers, the densities held are exactly the `maxSize` largest
      densities offered so far. */
  lemma {:induction false} HoldsBestDensities(config: MempoolConfig, size: Transaction -> nat, offers: seq<Offer>)
    requires Eligible(config, size, offers)
    ensures Densities(PoolAfter(config, size, offers).feeIndex)
         == Take(SortDescending(OfferedDensities(size, offers)), config.maxSize)
  {
    hide Consistent, Add, Densities, InsertDescending, Take;
    if offers == [] {
      NothingOffered(config);
    } else {
      var last := |offers| - 1;
      var d := OfferedDensities(size, offers);
      assert d[..last] == OfferedDensities(size, offers[..last]);
      HoldsBestDensities(config, size, offers[..last]);
      PoolAfterConsistent(config, size, offers[..last]);
      SortDescendingCorrect(d[..last]);
      AddDensities(config, size, PoolAfter(config, size, offers[..last]), offers[last].tx, offers[last].now,
                   SortDescending(d[..last]));
    }
  }

  lemma NothingOffered(config: MempoolConfig)
    ensures Densities([]) == [] && Take([], config.maxSize) == []
  {}

  // ---- The pool object ----

  class TransactionPool {
    const config: MempoolConfig
    const size: Transaction -> nat
    var transactions: map<ByteString, Entry>
    var feeIndex: seq<FeeKey>
    var senderCounts: map<ByteString, nat>

    function View(): Pool
      reads this
    {
      Pool(transactions, feeIndex, senderCounts)
    }

    ghost predicate Valid()
      reads this
    {
      Consistent(config, size, View())
    }

    constructor (config: MempoolConfig, size: Transaction -> nat)
      ensures this.config == config && this.size == size && View() == EMPTY_POOL && Valid()
    {
      this.config := config;
      this.size := size;
      this.transactions := map[];
      this.feeIndex := [];
      this.senderCounts := map[];
      EmptyConsistent(config, size);
    }

    method DecrementSenderCount(sender: ByteString)
      modifies this`senderCounts
      ensures senderCounts == Decremented(old(senderCounts), sender)
    {
      if sender in senderCounts {
        var count := senderCounts[sender];
        if count <= 1 {
          senderCounts := senderCounts - {sender};
        } else {
          senderCounts := senderCounts[sender := count - 1];
        }
      }
    }

    method TryEvictLowest(incoming: u64) returns (evicted: bool)
      requires Valid()
      modifies this
      ensures match Evicted(old(View()), incoming)
              case None => !evicted && View() == old(View())
              case Some(room) => evicted && View() == room
    {
      hide Consistent, Delete, Decremented;
      if feeIndex == [] {
        return false;
      }
      var lowest := feeIndex[|feeIndex| - 1];
      if incoming <= Density(lowest) {
        return false;
      }
      LastEntry(config, size, View());
      feeIndex := Delete(feeIndex, lowest);
      var evictedId := lowest.txId;
      if evictedId in transactions {
        var entry := transactions[evictedId];
        transactions := transactions - {evictedId};
        DecrementSenderCount(entry.transaction.sender);
      }
      evicted := true;
    }

    /** A failed call changes nothing. */
    method AddTransaction(tx: Transaction, now: u64) returns (error: Option<MempoolError>)
      requires Valid()
      modifies this
      ensures Valid()
      ensures Added(error, View()) == Add(config, size, old(View()), tx, now)
    {
      hide Consistent, Insert, Without;
      AddConsistent(config, size, View(), tx, now);
      if tx.id in transactions {
        return Some(DuplicateTransaction);
      }
      if tx.fee < config.minFee {
        return Some(FeeTooLow(config.minFee, tx.fee));
      }
      var sender := tx.sender;
      var senderCount := if sender in senderCounts then senderCounts[sender] else 0;
      if senderCount >= config.maxPerSender {
        return Some(SenderLimitExceeded(sender, config.maxPerSender));
      }
      if |transactions| >= config.maxSize {
        var evicted := TryEvictLowest(FeePerByte(size, tx));
        if !evicted {
          return Some(MempoolFull(config.maxSize));
        }
      }
      var entry := Entry(tx, now, FeePerByte(size, tx));
      transactions := transactions[tx.id := entry];
      feeIndex := Insert(feeIndex, KeyOf(entry));
      senderCounts := senderCounts[sender := (if sender in senderCounts then senderCounts[sender] else 0) + 1];
      error := None;
    }

    method Remove(id: ByteString) returns (removed: Option<Transaction>)
      requires Valid()
      modifies this
      ensures Valid() && View() == Without(old(View()), id)
      ensures removed == if id in old(transactions) then Some(old(transactions)[id].transaction) else None
    {
      hide Consistent, Delete, Decremented;
      WithoutConsistent(config, size, View(), id);
      if id !in transactions {
        return None;
      }
      var entry := transactions[id];
      transactions := transactions - {id};
      feeIndex := Delete(feeIndex, KeyOf(entry));
      DecrementSenderCount(entry.transaction.sender);
      removed := Some(entry.transaction);
    }

    method RemoveBatch(ids: seq<ByteString>)
      requires Valid()
      modifies this
      ensures Valid() && View() == WithoutAll(old(View()), ids)
      ensures transactions == old(transactions) - (set id | id in ids)
    {
      hide Consistent, Without;
      WithoutAllConsistent(config, size, View(), ids);
      for i := 0 to |ids|
        invariant Valid() && View() == WithoutAll(old(View()), ids[..i])
      {
        assert ids[..i + 1][..i] == ids[..i];
        var _ := Remove(ids[i]);
      }
      assert ids[..|ids|] == ids;
    }

    method SelectTransactions(maxCount: nat) returns (result: seq<Transaction>)
      requires Valid()
      ensures Indexed(View()) && result == Selected(View(), maxCount)
    {
      hide Consistent;
      AllIndexed(config, size, View());
      result := [];
      var i := 0;
      while i < |feeIndex| && |result| < maxCount
        invariant 0 <= i <= |feeIndex| && |result| == i <= maxCount
        invariant result == Selected(View(), i)
      {
        var id := feeIndex[i].txId;
        assert Selected(View(), i + 1) == Selected(View(), i) + [transactions[id].transaction];
        if id in transactions {
          result := result + [transactions[id].transaction];
        }
        i := i + 1;
      }
    }

    method Clear()
      modifies this
      ensures Valid() && View() == EMPTY_POOL
    {
      transactions := map[];
      feeIndex := [];
      senderCounts := map[];
      EmptyConsistent(config, size);
    }

    /** Takes out exactly the entries older than the cutoff. */
    method ExpireOld(now: u64) returns (count: nat)
      requires Valid()
      modifies this
      ensures Valid()
      ensures var cutoff := if now < config.expirySeconds then 0 else now - config.expirySeconds;
              var expired := set id | id in old(transactions) && old(transactions)[id].addedAt < cutoff;
              && transactions == old(transactions) - expired && count == |expired|
              && exists ids :: View() == WithoutAll(old(View()), ids)
    {
      hide Consistent, Without, IdSet;
      var cutoff := if now < config.expirySeconds then 0 else now - config.expirySeconds;
      var expired := set id | id in transactions && transactions[id].addedAt < cutoff;
      count := |expired|;
      var pending := expired;
      ghost var ids: seq<ByteString> := [];
      IdSetAppend(ids, []);
      while pending != {}
        invariant Valid() && pending <= expired && IdSet(ids) == expired - pending
        invariant View() == WithoutAll(old(View()), ids)
        decreases pending
      {
        var id :| id in pending;
        assert (ids + [id])[..|ids|] == ids;
        IdSetAppend(ids, id);
        var _ := Remove(id);
        ids := ids + [id];
        pending := pending - {id};
      }
      WithoutAllConsistent(config, size, old(View()), ids);
    }
  }

  ghost predicate Indexed(p: Pool) {
    forall k :: k in p.feeIndex ==> k.txId in p.transactions
  }

  lemma AllIndexed(config: MempoolConfig, size: Transaction -> nat, p: Pool)
    requires Consistent(config, size, p)
    ensures Indexed(p) && forall i :: 0 <= i < |p.feeIndex| ==> p.feeIndex[i].txId in p.transactions
  {
    hide Ascending;
    assert forall i :: 0 <= i < |p.feeIndex| ==> p.feeIndex[i] in p.feeIndex;
  }

  lemma LastEntry(config: MempoolConfig, size: Transaction -> nat, p: Pool)
    requires Consistent(config, size, p) && p.feeIndex != []
    ensures var k := p.feeIndex[|p.feeIndex| - 1];
            k.txId in p.transactions && KeyOf(p.transactions[k.txId]) == k
  {}
}
