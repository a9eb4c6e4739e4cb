/** The block store: four trees as maps. Heights are big-endian keys, so a scan in key order
    ascends (`ScanIsRange`). */
module NovaDb {
  import opened Bytes
  import opened Transactions
  import opened Blocks

  datatype Store = Store(
    blocks: map<u64, Block>,
    blockHashes: map<Digest, u64>,
    transactions: map<ByteString, Transaction>,
    latest: Option<u64>)

  function PutTransactions(m: map<ByteString, Transaction>, txs: seq<Transaction>): map<ByteString, Transaction> {
    if txs == [] then m
    else
      var last := txs[|txs| - 1];
      PutTransactions(m, txs[..|txs| - 1])[last.id := last]
  }

  function PutBlock(s: Store, b: Block): Store {
    Store(s.blocks[b.header.height := b],
          s.blockHashes[b.header.hash := b.header.height],
          PutTransactions(s.transactions, b.transactions),
          Some(b.header.height))
  }

  function GetBlock(s: Store, height: u64): Option<Block> {
    if height in s.blocks then Some(s.blocks[height]) else None
  }

  function GetBlockByHash(s: Store, hash: Digest): Option<Block> {
    if hash in s.blockHashes then GetBlock(s, s.blockHashes[hash]) else None
  }

  ghost predicate LastOfId(txs: seq<Transaction>, j: nat) {
    j < |txs| && forall k :: j < k < |txs| ==> txs[k].id != txs[j].id
  }

  lemma {:induction false} PutTransactionsAt(m: map<ByteString, Transaction>, txs: seq<Transaction>, j: nat)
    requires LastOfId(txs, j)
    ensures txs[j].id in PutTransactions(m, txs) && PutTransactions(m, txs)[txs[j].id] == txs[j]
  {
    var last := |txs| - 1;
    if j < last {
      PutTransactionsAt(m, txs[..last], j);
    }
  }

  lemma {:induction false} PutTransactionsOther(m: map<ByteString, Transaction>, txs: seq<Transaction>, id: ByteString)
    requires forall k :: 0 <= k < |txs| ==> txs[k].id != id
    ensures id in PutTransactions(m, txs) <==> id in m
    ensures id in m ==> PutTransactions(m, txs)[id] == m[id]
  {
    if txs != [] {
      PutTransactionsOther(m, txs[..|txs| - 1], id);
    }
  }

  /** A block just stored is read back by its height and by its hash and is the latest; each of its transactions is
      read back by id, the last one of that id. Other heights and ids read as before. */
  lemma StoredReadsBack(s: Store, b: Block, height: u64, j: nat, id: ByteString)
    ensures GetBlock(PutBlock(s, b), height) == if height == b.header.height then Some(b) else GetBlock(s, height)
    ensures GetBlockByHash(PutBlock(s, b), b.header.hash) == Some(b)
    ensures PutBlock(s, b).latest == Some(b.header.height)
    ensures LastOfId(b.transactions, j) ==>
              var tx := b.transactions[j];
              tx.id in PutBlock(s, b).transactions && PutBlock(s, b).transactions[tx.id] == tx
    ensures (forall k :: 0 <= k < |b.transactions| ==> b.transactions[k].id != id) ==>
              && (id in PutBlock(s, b).transactions <==> id in s.transactions)
              && (id in s.transactions ==> PutBlock(s, b).transactions[id] == s.transactions[id])
  {
    hide PutTransactions;
    var txs := b.transactions;
    if LastOfId(txs, j) {
      PutTransactionsAt(s.transactions, txs, j);
    }
    if forall k :: 0 <= k < |txs| ==> txs[k].id != id {
      PutTransactionsOther(s.transactions, txs, id);
    }
  }

  /** The stored blocks of heights `start` up to, not including, `stop`, in ascending order.
      A missing height is skipped, not a stop. */
  function BlockRange(s: Store, start: nat, stop: nat): seq<Block>
    requires stop <= U64_LIMIT
  {
    if start >= stop then []
    else BlockRange(s, start, stop - 1) + (if stop - 1 in s.blocks then [s.blocks[stop - 1]] else [])
  }

  /** Heights in the order of their big-endian keys. */
  ghost predicate KeyOrder(heights: seq<u64>) {
    forall i, j :: 0 <= i < j < |heights| ==> Before(BigEndian(heights[i], 8), BigEndian(heights[j], 8))
  }

  lemma KeyOrderAscends(heights: seq<u64>)
    requires KeyOrder(heights)
    ensures forall i, j :: 0 <= i < j < |heights| ==> heights[i] < heights[j]
  {
    hide Before, BigEndian;
    forall i, j | 0 <= i < j < |heights|
      ensures heights[i] < heights[j]
    {
      U64Width(heights[i]);
      U64Width(heights[j]);
      BigEndianOrder(heights[i], heights[j], 8);
    }
  }

  function BlocksAt(s: Store, heights: seq<u64>): seq<Block>
    requires forall h :: h in heights ==> h in s.blocks
  {
    seq(|heights|, i requires 0 <= i < |heights| => assert heights[i] in heights; s.blocks[heights[i]])
  }

  /** A scan that visits exactly the stored keys of a range, in the byte order of the keys,
      yields the blocks by ascending height. */
  lemma {:induction false} ScanIsRange(s: Store, heights: seq<u64>, start: nat, stop: nat)
    requires stop <= U64_LIMIT && KeyOrder(heights)
    requires forall h :: h in heights <==> start <= h < stop && h in s.blocks
    ensures BlocksAt(s, heights) == BlockRange(s, start, stop)
    decreases stop
  {
    hide KeyOrder;
    if start >= stop {
      if heights != [] {
        SomeMember(heights);
      }
    } else if stop - 1 in s.blocks {
      KeyOrderAscends(heights);
      var n := |heights| - 1;
      assert stop - 1 in heights;
      assert heights[n] in heights && heights[n] == stop - 1;
      assert heights == heights[..n] + [stop - 1];
      KeyOrderPrefix(heights, n);
      forall h
        ensures h in heights[..n] <==> start <= h < stop - 1 && h in s.blocks
      {
        assert h in heights <==> h in heights[..n] || h == stop - 1;
      }
      ScanIsRange(s, heights[..n], start, stop - 1);
    } else {
      ScanIsRange(s, heights, start, stop - 1);
    }
  }

  lemma SomeMember(heights: seq<u64>)
    requires heights != []
    ensures exists h :: h in heights
  {
    assert heights[0] in heights;
  }

  lemma KeyOrderPrefix(heights: seq<u64>, n: nat)
    requires n <= |heights| && KeyOrder(heights)
    ensures KeyOrder(heights[..n])
  {
    hide Before, BigEndian;
  }

  /** The stored blocks from `start` on, before `stop` and before the first missing height. */
  function UpToGap(s: Store, start: nat, stop: nat): seq<Block>
    requires stop <= U64_LIMIT
    decreases stop - start
  {
    if start >= stop || start !in s.blocks then [] else [s.blocks[start]] + UpToGap(s, start + 1, stop)
  }

  lemma {:induction false} RangeHead(s: Store, start: nat, stop: nat)
    requires start < stop <= U64_LIMIT
    ensures BlockRange(s, start, stop) ==
            (if start in s.blocks then [s.blocks[start]] else []) + BlockRange(s, start + 1, stop)
  {
    if start + 1 < stop {
      RangeHead(s, start, stop - 1);
    }
  }

  lemma {:induction false} RangeEmpty(s: Store, start: nat, stop: nat)
    requires stop <= U64_LIMIT
    ensures BlockRange(s, start, stop) == [] <==> forall k :: start <= k < stop ==> k !in s.blocks
  {
    if start < stop {
      RangeEmpty(s, start, stop - 1);
    }
  }

  ghost predicate NoGap(s: Store, start: nat, stop: nat) {
    forall h, k :: start <= h < k < stop && k in s.blocks ==> h in s.blocks
  }

  /** The range stops at a gap, as documented, exactly when no stored block lies behind one. */
  lemma {:induction false} RangeStopsAtGap(s: Store, start: nat, stop: nat)
    requires stop <= U64_LIMIT
    ensures BlockRange(s, start, stop) == UpToGap(s, start, stop) <==> NoGap(s, start, stop)
    decreases stop - start
  {
    if start < stop {
      RangeHead(s, start, stop);
      RangeEmpty(s, start, stop);
      RangeStopsAtGap(s, start + 1, stop);
      if start in s.blocks {
        var b := s.blocks[start];
        assert [b] + BlockRange(s, start + 1, stop) == [b] + UpToGap(s, start + 1, stop) <==>
               BlockRange(s, start + 1, stop) == UpToGap(s, start + 1, stop) by {
          assert ([b] + BlockRange(s, start + 1, stop))[1..] == BlockRange(s, start + 1, stop);
          assert ([b] + UpToGap(s, start + 1, stop))[1..] == UpToGap(s, start + 1, stop);
        }
      }
    }
  }

  /** The hash index finds each stored block, and nothing else. */
  ghost predicate HashIndexSound(s: Store) {
    && (forall d :: d in s.blockHashes ==>
          GetBlockByHash(s, d).Some? && GetBlockByHash(s, d).value.header.hash == d)
    && (forall h :: h in s.blocks ==>
          s.blocks[h].header.hash in s.blockHashes && s.blockHashes[s.blocks[h].header.hash] == h)
  }

  /** Storing a block keeps the hash index sound exactly when its height is free or holds a
      block of the same hash, and its hash is new or already filed under that height. */
  lemma PutKeepsHashIndex(s: Store, b: Block)
    requires HashIndexSound(s)
    ensures HashIndexSound(PutBlock(s, b))
       <==> ((b.header.height in s.blocks ==> s.blocks[b.header.height].header.hash == b.header.hash)
             && (b.header.hash in s.blockHashes ==> s.blockHashes[b.header.hash] == b.header.height))
  {
    hide PutTransactions;
    var t, h := PutBlock(s, b), b.header.height;
    if h in s.blocks && s.blocks[h].header.hash != b.header.hash {
      var stale := s.blocks[h].header.hash;
      assert stale in t.blockHashes && t.blockHashes[stale] == h;
    }
    if b.header.hash in s.blockHashes && s.blockHashes[b.header.hash] != h {
      var other := s.blockHashes[b.header.hash];
      assert other in t.blocks;
    }
  }

  class NovaDB {
    var blocks: map<u64, Block>
    var blockHashes: map<Digest, u64>
    var transactions: map<ByteString, Transaction>
    var latest: Option<u64>

    function View(): Store
      reads this
    {
      Store(blocks, blockHashes, transactions, latest)
    }

    constructor ()
      ensures View() == Store(map[], map[], map[], None)
    {
      blocks := map[];
      blockHashes := map[];
      transactions := map[];
      latest := None;
    }

    method Put(b: Block)
      modifies this
      ensures View() == PutBlock(old(View()), b)
    {
      var height := b.header.height;
      blocks := blocks[height := b];
      blockHashes := blockHashes[b.header.hash := height];
      for i := 0 to |b.transactions|
        invariant blocks == old(blocks)[height := b] && blockHashes == old(blockHashes)[b.header.hash := height]
        invariant transactions == PutTransactions(old(transactions), b.transactions[..i])
      {
        var tx := b.transactions[i];
        assert b.transactions[..i + 1][..i] == b.transactions[..i];
        transactions := transactions[tx.id := tx];
      }
      assert b.transactions[..|b.transactions|] == b.transactions;
      latest := Some(height);
    }

    /** `get_block_range`: both ends included. */
    method GetRange(start: u64, end: u64) returns (r: seq<Block>)
      ensures r == BlockRange(View(), start, end + 1)
    {
      r := [];
      var h: int := start;
      while h <= end
        invariant start <= h && (h <= end + 1 || h == start)
        invariant r == BlockRange(View(), start, if h <= end + 1 then h else end + 1)
        decreases end + 1 - h
      {
        if h in blocks {
          r := r + [blocks[h]];
        }
        h := h + 1;
      }
    }
  }
}
