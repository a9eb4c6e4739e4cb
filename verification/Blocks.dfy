/** Blocks, their hash and Merkle root, and hash-linked chains of them. */
module Blocks {
  import opened Bytes
  import opened Merkle
  import opened Transactions

  /** The primitives blocks are built on: BLAKE3 and the JSON form of a transaction. */
  datatype Codec = Codec(hash: Hash, json: Transaction -> ByteString)

  /** What is relied on about the JSON form: it is injective, and longer than the 64 bytes
      of an inner Merkle node, since the field names alone exceed that. */
  ghost predicate JsonContract(json: Transaction -> ByteString) {
    && (forall t :: |json(t)| > 64)
    && (forall t, u :: json(t) == json(u) ==> t == u)
  }

  datatype BlockHeader = BlockHeader(
    height: u64,
    hash: Digest,
    parentHash: Digest,
    timestamp: u64,
    validator: ByteString,
    stateRoot: Digest,
    txRoot: Digest,
    signature: ByteString)

  datatype Block = Block(header: BlockHeader, transactions: seq<Transaction>)

  function HeaderPreimage(height: u64, parentHash: Digest, timestamp: u64, validator: ByteString,
                          stateRoot: Digest, txRoot: Digest): ByteString
  {
    (Le64(height) + parentHash + Le64(timestamp)) + validator + (stateRoot + txRoot)
  }

  function Preimage(hd: BlockHeader): ByteString {
    HeaderPreimage(hd.height, hd.parentHash, hd.timestamp, hd.validator, hd.stateRoot, hd.txRoot)
  }

  function Jsons(c: Codec, txs: seq<Transaction>): (items: seq<ByteString>)
    ensures |items| == |txs| && forall i :: 0 <= i < |txs| ==> items[i] == c.json(txs[i])
  {
    seq(|txs|, i requires 0 <= i < |txs| => c.json(txs[i]))
  }

  function TxRoot(c: Codec, txs: seq<Transaction>): Digest {
    ItemsRoot(c.hash, Jsons(c, txs))
  }

  /** Height 0, zero parent, no transactions; the state root hashes the coinbase message. */
  function Genesis(c: Codec): Block {
    var validator := Ascii("nova:") + seq<byte>(64, _ => '0' as int);
    var stateRoot := c.hash(Ascii("ALAS/2026: The future of payments belongs to everyone"));
    var hash := c.hash(HeaderPreimage(0, ZERO_DIGEST, 0, validator, stateRoot, ZERO_DIGEST));
    Block(BlockHeader(0, hash, ZERO_DIGEST, 0, validator, stateRoot, ZERO_DIGEST, []), [])
  }

  /** `Block::new`, with the clock reading as an argument. */
  function NewBlock(c: Codec, parent: Block, txs: seq<Transaction>, validator: ByteString,
                    stateRoot: Digest, now: u64): Block
  {
    var height := WrapAdd(parent.header.height, 1);
    var parentHash := parent.header.hash;
    var txRoot := TxRoot(c, txs);
    var hash := c.hash(HeaderPreimage(height, parentHash, now, validator, stateRoot, txRoot));
    Block(BlockHeader(height, hash, parentHash, now, validator, stateRoot, txRoot, []), txs)
  }

  datatype VerifyError = HashMismatch | TxRootMismatch | GenesisParent

  function Verify(c: Codec, b: Block): Option<VerifyError> {
    if b.header.hash != c.hash(Preimage(b.header)) then Some(HashMismatch)
    else if b.header.txRoot != TxRoot(c, b.transactions) then Some(TxRootMismatch)
    else if b.header.height == 0 && b.header.parentHash != ZERO_DIGEST then Some(GenesisParent)
    else None
  }

  lemma GenesisVerifies(c: Codec)
    ensures Verify(c, Genesis(c)) == None
    ensures var hd := Genesis(c).header;
            && hd.height == 0 && hd.parentHash == ZERO_DIGEST && hd.timestamp == 0 && hd.signature == []
            && Genesis(c).transactions == []
  {}

  /** A freshly built block verifies, signed or not, unless its height wrapped to 0 over a
      parent whose hash is not zero. */
  lemma NewBlockVerifies(c: Codec, parent: Block, txs: seq<Transaction>, validator: ByteString,
                         stateRoot: Digest, now: u64, signature: ByteString)
    ensures var b := NewBlock(c, parent, txs, validator, stateRoot, now);
            Verify(c, b.(header := b.header.(signature := signature))) == None
            <==> (parent.header.height + 1 < U64_LIMIT || parent.header.hash == ZERO_DIGEST)
  {
    hide TxRoot, HeaderPreimage;
  }

  /** Verification does not ask for distinct transactions: with an odd number of them, from
      three on, the last can be repeated under the same hash. */
  lemma RepeatedTailVerifies(c: Codec, b: Block)
    requires |b.transactions| % 2 == 1 && |b.transactions| >= 3
    ensures Verify(c, b.(transactions := b.transactions + [b.transactions[|b.transactions| - 1]])) == Verify(c, b)
  {
    hide HeaderPreimage, ItemsRoot;
    var txs := b.transactions;
    var longer := txs + [txs[|txs| - 1]];
    DuplicatedTailSameRoot(c.hash, Jsons(c, txs));
    assert Jsons(c, longer) == Jsons(c, txs) + [Jsons(c, txs)[|txs| - 1]];
  }

  // ---- Chain validation ----

  datatype ChainFault =
    | InvalidBlock(height: u64, reason: VerifyError)
    | ChainGap(expected: u64, got: u64)
    | InvalidParentHash(at: u64)

  /** The checks on block `i` of a batch that should start at height `start`. */
  function BlockFault(c: Codec, blocks: seq<Block>, start: u64, i: nat): Option<ChainFault>
    requires i < |blocks|
  {
    var hd := blocks[i].header;
    var fault := Verify(c, blocks[i]);
    if fault.Some? then Some(InvalidBlock(hd.height, fault.value))
    else if hd.height != (start + i) % U64_LIMIT then Some(ChainGap((start + i) % U64_LIMIT, hd.height))
    else if i > 0 && hd.parentHash != blocks[i - 1].header.hash then Some(InvalidParentHash(hd.height))
    else None
  }

  /** The first fault from block `i` on. */
  function FirstFault(c: Codec, blocks: seq<Block>, start: u64, i: nat): (r: Option<ChainFault>)
    requires i <= |blocks|
    ensures r.None? <==> forall k :: i <= k < |blocks| ==> BlockFault(c, blocks, start, k) == None
    decreases |blocks| - i
  {
    if i == |blocks| then None
    else
      var fault := BlockFault(c, blocks, start, i);
      if fault.Some? then fault else FirstFault(c, blocks, start, i + 1)
  }

  lemma {:induction false} FirstFaultIs(c: Codec, blocks: seq<Block>, start: u64, i: nat, k: nat)
    requires i <= k < |blocks| && BlockFault(c, blocks, start, k).Some?
    requires forall j :: i <= j < k ==> BlockFault(c, blocks, start, j) == None
    ensures FirstFault(c, blocks, start, i) == BlockFault(c, blocks, start, k)
    decreases k - i
  {
    hide BlockFault;
    if i < k {
      FirstFaultIs(c, blocks, start, i + 1, k);
    }
  }

  lemma {:induction false} FirstFaultAt(c: Codec, blocks: seq<Block>, start: u64, i: nat) returns (k: nat)
    requires i <= |blocks| && FirstFault(c, blocks, start, i).Some?
    ensures i <= k < |blocks| && FirstFault(c, blocks, start, i) == BlockFault(c, blocks, start, k)
    ensures forall j :: i <= j < k ==> BlockFault(c, blocks, start, j) == None
    decreases |blocks| - i
  {
    hide BlockFault;
    k := i;
    if BlockFault(c, blocks, start, i).None? {
      k := FirstFaultAt(c, blocks, start, i + 1);
    }
  }

  /** What a refusal of a chain says is true: the blocks before the one it names form an accepted chain, and that
      block has the very fault reported. */
  lemma FaultIsReal(c: Codec, blocks: seq<Block>, start: u64) returns (k: nat)
    requires FirstFault(c, blocks, start, 0).Some?
    ensures k < |blocks| && Accepted(c, blocks[..k], start)
    ensures var hd := blocks[k].header;
            match FirstFault(c, blocks, start, 0).value
            case InvalidBlock(height, reason) =>
              && height == hd.height
              && (match reason
                  case HashMismatch => hd.hash != c.hash(Preimage(hd))
                  case TxRootMismatch => hd.txRoot != TxRoot(c, blocks[k].transactions)
                  case GenesisParent => hd.height == 0 && hd.parentHash != ZERO_DIGEST)
            case ChainGap(expected, got) => got == hd.height != expected == (start + k) % U64_LIMIT
            case InvalidParentHash(at) => at == hd.height && k > 0 && hd.parentHash != blocks[k - 1].header.hash
  {
    hide Preimage, TxRoot;
    k := FirstFaultAt(c, blocks, start, 0);
    forall j | 0 <= j < k
      ensures BlockFault(c, blocks[..k], start, j) == BlockFault(c, blocks, start, j)
    {
      assert blocks[..k][j] == blocks[j] && (j > 0 ==> blocks[..k][j - 1] == blocks[j - 1]);
    }
  }

  method ValidateBlockChain(c: Codec, blocks: seq<Block>, expectedStart: u64) returns (r: Option<ChainFault>)
    ensures r == FirstFault(c, blocks, expectedStart, 0)
  {
    for i := 0 to |blocks|
      invariant FirstFault(c, blocks, expectedStart, 0) == FirstFault(c, blocks, expectedStart, i)
    {
      var hd := blocks[i].header;
      var fault := Verify(c, blocks[i]);
      if fault.Some? {
        return Some(InvalidBlock(hd.height, fault.value));
      }
      var expectedHeight := (expectedStart + i) % U64_LIMIT;
      if hd.height != expectedHeight {
        return Some(ChainGap(expectedHeight, hd.height));
      }
      if i > 0 && hd.parentHash != blocks[i - 1].header.hash {
        return Some(InvalidParentHash(hd.height));
      }
    }
    r := None;
  }

  ghost predicate Accepted(c: Codec, blocks: seq<Block>, start: u64) {
    FirstFault(c, blocks, start, 0) == None
  }

  // ---- What a block hash binds ----

  /** Where each field stands in the hashed bytes. */
  lemma PreimageParts(hd: BlockHeader)
    ensures |Preimage(hd)| == 112 + |hd.validator|
    ensures Preimage(hd)[..8] == Le64(hd.height) && Preimage(hd)[8..40] == hd.parentHash
    ensures Preimage(hd)[40..48] == Le64(hd.timestamp)
    ensures Preimage(hd)[48..48 + |hd.validator|] == hd.validator
    ensures Preimage(hd)[48 + |hd.validator|..80 + |hd.validator|] == hd.stateRoot
    ensures Preimage(hd)[80 + |hd.validator|..] == hd.txRoot
  {
    hide Le64;
  }

  /** The transaction root is the end of the path from every transaction's JSON. */
  lemma TxRootPath(c: Codec, txs: seq<Transaction>, i: nat)
    requires i < |txs|
    ensures var leaves := LeafHashes(c.hash, Jsons(c, txs));
            leaves[i] == c.hash(c.json(txs[i])) && ClimbTo(c.hash, leaves, i, leaves[i]) == TxRoot(c, txs)
  {
    hide ClimbTo, ItemsRoot, LeafHashes, LeavesRoot;
    PathReachesRoot(c.hash, Jsons(c, txs), i);
  }

  /** One variable-length field between fixed-width ones: the preimage determines them all. */
  lemma PreimageInjective(a: BlockHeader, b: BlockHeader)
    requires Preimage(a) == Preimage(b)
    ensures a.(hash := b.hash, signature := b.signature) == b
  {
    hide Preimage, Le64;
    PreimageParts(a);
    PreimageParts(b);
    Le64Injective(a.height, b.height);
    Le64Injective(a.timestamp, b.timestamp);
  }

  /** Everything hashed to verify a block. */
  ghost function BlockInputs(c: Codec, b: Block): set<ByteString> {
    {Preimage(b.header)} + ItemsRootInputs(c.hash, Jsons(c, b.transactions))
  }

  ghost function ChainInputs(c: Codec, blocks: seq<Block>): set<ByteString> {
    set i, x | 0 <= i < |blocks| && x in BlockInputs(c, blocks[i]) :: x
  }

  lemma {:induction false} FoldIsHashed(h: Hash, level: seq<Digest>)
    requires |level| > 1
    ensures exists x :: x in FoldInputs(h, level) && h(x) == Fold(h, level)
    decreases |level|
  {
    hide PairAt, PairInputs;
    var next := NextLevel(h, level);
    if |next| == 1 {
      var x := PairAt(level, 0);
      PairInputsMember(level, 0);
      FoldSingle(h, next);
      assert x in FoldInputs(h, level) && h(x) == next[0];
    } else {
      FoldIsHashed(h, next);
    }
  }

  lemma RootIsHashed(h: Hash, items: seq<ByteString>)
    requires items != []
    ensures exists x :: x in ItemsRootInputs(h, items) && h(x) == ItemsRoot(h, items)
  {
    hide Fold, FoldInputs, LeafHashes;
    var leaves := LeafHashes(h, items);
    if |leaves| == 1 {
      assert items[0] in items;
      FoldSingle(h, leaves);
    } else {
      FoldIsHashed(h, leaves);
    }
  }

  lemma FoldSingle(h: Hash, level: seq<Digest>)
    requires |level| == 1
    ensures Fold(h, level) == level[0]
  {}

  /** Blocks of one transaction root, each with pairwise distinct transactions, carry the
      same transactions, or the hash function is broken on the strings hashed. */
  lemma TxRootBinding(c: Codec, a: seq<Transaction>, b: seq<Transaction>, all: set<ByteString>)
    requires JsonContract(c.json)
    requires NoDuplicates(a) && NoDuplicates(b) && TxRoot(c, a) == TxRoot(c, b)
    requires ItemsRootInputs(c.hash, Jsons(c, a)) + ItemsRootInputs(c.hash, Jsons(c, b)) <= all
    ensures a == b || Broken(c.hash, all)
  {
    hide ItemsRoot, ItemsRootInputs, Collision;
    var ja, jb := Jsons(c, a), Jsons(c, b);
    if a == [] && b == [] {
    } else if a == [] || b == [] {
      RootIsHashed(c.hash, if a == [] then jb else ja);
      EmptyRoot(c.hash);
    } else {
      ItemsRootBinding(c.hash, ja, jb);
      if ja == jb {
        forall i | 0 <= i < |a|
          ensures a[i] == b[i]
        {
          assert ja[i] == jb[i];
        }
      } else {
        CollisionGrows(c.hash, ItemsRootInputs(c.hash, ja) + ItemsRootInputs(c.hash, jb), all);
      }
    }
  }

  lemma EmptyRoot(h: Hash)
    ensures ItemsRoot(h, []) == ZERO_DIGEST
  {}

  // ---- What the hash of the last block of a chain binds ----

  /** Equal in every hash-covered field, and in the transactions when those are distinct. */
  ghost predicate SameContent(a: Block, b: Block) {
    && a.header.(signature := b.header.signature) == b.header
    && (NoDuplicates(a.transactions) && NoDuplicates(b.transactions) ==> a.transactions == b.transactions)
  }

  lemma BlockHashBinding(c: Codec, a: Block, b: Block, all: set<ByteString>)
    requires JsonContract(c.json)
    requires Verify(c, a) == None && Verify(c, b) == None && a.header.hash == b.header.hash
    requires BlockInputs(c, a) + BlockInputs(c, b) <= all
    ensures SameContent(a, b) || Broken(c.hash, all)
  {
    hide Preimage, TxRoot, Collision, ItemsRootInputs, NoDuplicates, Jsons;
    if !Broken(c.hash, all) {
      assert Preimage(a.header) in BlockInputs(c, a) && Preimage(b.header) in BlockInputs(c, b);
      NoCollision(c.hash, all, Preimage(a.header), Preimage(b.header));
      PreimageInjective(a.header, b.header);
      if NoDuplicates(a.transactions) && NoDuplicates(b.transactions) {
        TxRootBinding(c, a.transactions, b.transactions, all);
      }
    }
  }

  lemma AcceptedPrefix(c: Codec, blocks: seq<Block>, start: u64, n: nat)
    requires Accepted(c, blocks, start) && n <= |blocks|
    ensures Accepted(c, blocks[..n], start)
  {
    hide Verify;
    var p := blocks[..n];
    forall k | 0 <= k < n
      ensures BlockFault(c, p, start, k) == None
    {
      assert BlockFault(c, blocks, start, k) == None;
    }
  }

  lemma ChainInputsMember(c: Codec, blocks: seq<Block>, i: nat)
    requires i < |blocks|
    ensures BlockInputs(c, blocks[i]) <= ChainInputs(c, blocks)
    ensures ChainInputs(c, blocks[..i]) <= ChainInputs(c, blocks)
  {
    hide BlockInputs;
    forall x | x in ChainInputs(c, blocks[..i])
      ensures x in ChainInputs(c, blocks)
    {
      var k :| 0 <= k < i && x in BlockInputs(c, blocks[..i][k]);
      assert x in BlockInputs(c, blocks[k]);
    }
  }

  /** Two accepted chains from one start height that end in the same hash have the same
      length and the same content at every height, or the hash function is broken on the
      strings hashed to verify them. */
  lemma {:induction false} ChainBinding(c: Codec, a: seq<Block>, b: seq<Block>, start: u64, all: set<ByteString>)
    requires JsonContract(c.json)
    requires Accepted(c, a, start) && Accepted(c, b, start)
    requires 0 < |a| && 0 < |b| && start + |a| <= U64_LIMIT && start + |b| <= U64_LIMIT
    requires a[|a| - 1].header.hash == b[|b| - 1].header.hash
    requires ChainInputs(c, a) + ChainInputs(c, b) <= all
    ensures Broken(c.hash, all)
         || (|a| == |b| && forall i :: 0 <= i < |a| ==> SameContent(a[i], b[i]))
    decreases |a|
  {
    hide Verify, ChainInputs, BlockInputs, Broken, FirstFault;
    var n, m := |a| - 1, |b| - 1;
    assert BlockFault(c, a, start, n) == None && BlockFault(c, b, start, m) == None by {
      AcceptedAt(c, a, start, n);
      AcceptedAt(c, b, start, m);
    }
    ChainInputsMember(c, a, n);
    ChainInputsMember(c, b, m);
    BlockHashBinding(c, a[n], b[m], all);
    if !Broken(c.hash, all) {
      assert a[n].header.height == b[m].header.height;
      assert n == m;
      if n > 0 {
        AcceptedPrefix(c, a, start, n);
        AcceptedPrefix(c, b, start, n);
        assert a[n - 1].header.hash == b[n - 1].header.hash;
        ChainBinding(c, a[..n], b[..n], start, all);
        forall i | 0 <= i < n
          ensures SameContent(a[i], b[i])
        {
          assert a[i] == a[..n][i] && b[i] == b[..n][i];
        }
      }
    }
  }

  lemma AcceptedAt(c: Codec, blocks: seq<Block>, start: u64, i: nat)
    requires Accepted(c, blocks, start) && i < |blocks|
    ensures BlockFault(c, blocks, start, i) == None
  {}
}
