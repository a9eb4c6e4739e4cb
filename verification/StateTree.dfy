/** The sparse Merkle tree of account states: its root is a function of the account map
    alone, and its proofs say exactly what that map holds. */
module StateTree {
  import opened Bytes
  import opened KeyBits
  import opened Transactions

  datatype AccountState = AccountState(
    nonce: u64,
    balance: u64,
    balanceCommitments: map<ByteString, ByteString>,
    creditLines: seq<ByteString>,
    frozen: bool)

  const DEFAULT_ACCOUNT := AccountState(0, 0, map[], [], false)

  /** Accounts by tree key, the hash of the address. */
  type Accounts = map<Digest, AccountState>

  /** BLAKE3 and the binary form of an account state. */
  datatype StateCodec = StateCodec(
    hash: Hash,
    encode: AccountState -> ByteString,
    decode: ByteString -> Option<AccountState>)

  ghost predicate CodecContract(c: StateCodec) {
    forall a :: c.decode(c.encode(a)) == Some(a)
  }

  // ---- The tree as a function of its leaves ----

  /** Leaf hashes by full bit path. */
  type Leaves = map<Path, Digest>

  function Combine(h: Hash, left: Digest, right: Digest): Digest { h(left + right) }

  /** Hash of the subtree under a path prefix; the prefix of length 256 names a leaf. */
  ghost function NodeHash(h: Hash, leaves: Leaves, prefix: Path): Digest
    requires |prefix| <= TREE_DEPTH
    decreases TREE_DEPTH - |prefix|
  {
    if |prefix| == TREE_DEPTH then (if prefix in leaves then leaves[prefix] else ZERO_DIGEST)
    else Combine(h, NodeHash(h, leaves, prefix + [false]), NodeHash(h, leaves, prefix + [true]))
  }

  /** `DEFAULTS[level]`: the hash of an empty subtree of that height. */
  function DefaultHash(h: Hash, level: nat): Digest {
    if level == 0 then ZERO_DIGEST else Combine(h, DefaultHash(h, level - 1), DefaultHash(h, level - 1))
  }

  ghost predicate EmptyUnder(leaves: Leaves, prefix: Path) {
    forall p :: p in leaves ==> !(prefix <= p)
  }

  lemma {:induction false} EmptySubtree(h: Hash, leaves: Leaves, prefix: Path)
    requires |prefix| <= TREE_DEPTH && EmptyUnder(leaves, prefix)
    ensures NodeHash(h, leaves, prefix) == DefaultHash(h, TREE_DEPTH - |prefix|)
    decreases TREE_DEPTH - |prefix|
  {
    if |prefix| < TREE_DEPTH {
      EmptySubtree(h, leaves, prefix + [false]);
      EmptySubtree(h, leaves, prefix + [true]);
    }
  }

  /** Writing one leaf changes only the nodes on its path. */
  lemma {:induction false} OffPathUnchanged(h: Hash, leaves: Leaves, at: Path, leaf: Digest, prefix: Path)
    requires |prefix| <= TREE_DEPTH && !(prefix <= at)
    ensures NodeHash(h, leaves[at := leaf], prefix) == NodeHash(h, leaves, prefix)
    decreases TREE_DEPTH - |prefix|
  {
    if |prefix| < TREE_DEPTH {
      assert prefix <= prefix + [false] && prefix <= prefix + [true];
      OffPathUnchanged(h, leaves, at, leaf, prefix + [false]);
      OffPathUnchanged(h, leaves, at, leaf, prefix + [true]);
    }
  }

  // ---- Leaves of an account map ----

  function LeafHash(c: StateCodec, key: Digest, value: ByteString): Digest { c.hash(key + value) }

  ghost function LeavesOf(c: StateCodec, accounts: Accounts): Leaves {
    DistinctPaths(accounts);
    map k | k in accounts :: Bits(k) := LeafHash(c, k, c.encode(accounts[k]))
  }

  lemma DistinctPaths(accounts: Accounts)
    ensures forall a, b :: a in accounts && b in accounts && Bits(a) == Bits(b) ==> a == b
  {
    hide Bits;
    forall a, b | a in accounts && b in accounts && Bits(a) == Bits(b)
      ensures a == b
    {
      BitsInjective(a, b);
    }
  }

  lemma LeafAt(c: StateCodec, accounts: Accounts, key: Digest)
    ensures Bits(key) in LeavesOf(c, accounts) <==> key in accounts
    ensures key in accounts ==> LeavesOf(c, accounts)[Bits(key)] == LeafHash(c, key, c.encode(accounts[key]))
  {
    hide Bits, LeafHash;
    DistinctPaths(accounts);
    if Bits(key) in LeavesOf(c, accounts) {
      var k :| k in accounts && Bits(k) == Bits(key);
      BitsInjective(k, key);
    }
  }

  lemma LeavesOfUpdate(c: StateCodec, accounts: Accounts, key: Digest, a: AccountState)
    ensures LeavesOf(c, accounts[key := a]) == LeavesOf(c, accounts)[Bits(key) := LeafHash(c, key, c.encode(a))]
  {
    hide Bits, LeafHash;
    var l, r := LeavesOf(c, accounts[key := a]), LeavesOf(c, accounts)[Bits(key) := LeafHash(c, key, c.encode(a))];
    LeafAt(c, accounts[key := a], key);
    forall k | k in accounts
      ensures Bits(k) in l && Bits(k) in r && l[Bits(k)] == r[Bits(k)]
    {
      LeafAt(c, accounts, k);
      LeafAt(c, accounts[key := a], k);
      if Bits(k) == Bits(key) {
        BitsInjective(k, key);
      }
    }
    assert l.Keys == r.Keys;
  }

  /** The state root of an account map. It mentions no history: whatever the order of the
      writes that led to the map, the root is the same. */
  ghost function StateRoot(c: StateCodec, accounts: Accounts): Digest {
    NodeHash(c.hash, LeavesOf(c, accounts), [])
  }

  // ---- Stored nodes ----

  /** The path of the other child at `level`, counted from 1 just above the leaf. */
  function SiblingPath(path: Path, level: nat): (s: Path)
    requires |path| == TREE_DEPTH && 1 <= level <= TREE_DEPTH
    ensures |s| == TREE_DEPTH - level + 1
  {
    path[..TREE_DEPTH - level] + [!path[TREE_DEPTH - level]]
  }

  /** Every stored node holds its subtree's hash, and every node above a leaf is stored. */
  ghost predicate StoreMatches(h: Hash, leaves: Leaves, nodes: map<Path, Digest>) {
    && (forall p :: p in leaves ==> |p| == TREE_DEPTH)
    && (forall p :: p in nodes ==> |p| <= TREE_DEPTH && nodes[p] == NodeHash(h, leaves, p))
    && (forall p, i :: p in leaves && 0 <= i <= |p| ==> p[..i] in nodes)
  }

  lemma MissingNode(h: Hash, leaves: Leaves, nodes: map<Path, Digest>, prefix: Path)
    requires StoreMatches(h, leaves, nodes) && |prefix| <= TREE_DEPTH && prefix !in nodes
    ensures NodeHash(h, leaves, prefix) == DefaultHash(h, TREE_DEPTH - |prefix|)
  {
    hide NodeHash, DefaultHash;
    forall p | p in leaves
      ensures !(prefix <= p)
    {
      var q := p[..|prefix|];
      assert prefix <= p ==> q == prefix;
    }
    EmptySubtree(h, leaves, prefix);
  }

  /** One tree of the database holds the nodes and the leaf values. */
  type Disk = map<ByteString, ByteString>

  /** The disk holds exactly these nodes, by path, and these values. */
  ghost predicate OnDisk(disk: Disk, nodes: map<Path, Digest>, values: map<Digest, ByteString>) {
    && (forall k: Digest, level: nat :: level <= TREE_DEPTH ==> NodeOnDisk(disk, nodes, k, level))
    && (forall k: Digest :: ValueOnDisk(disk, values, k))
  }

  ghost predicate NodeOnDisk(disk: Disk, nodes: map<Path, Digest>, k: Digest, level: nat)
    requires level <= TREE_DEPTH
  {
    var skey, path := StorageKey(k, level), Bits(k)[..TREE_DEPTH - level];
    (skey in disk <==> path in nodes) && (skey in disk ==> disk[skey] == nodes[path])
  }

  ghost predicate ValueOnDisk(disk: Disk, values: map<Digest, ByteString>, k: Digest) {
    (ValueKey(k) in disk <==> k in values) && (k in values ==> disk[ValueKey(k)] == values[k])
  }

  lemma WriteNode(disk: Disk, nodes: map<Path, Digest>, values: map<Digest, ByteString>, key: Digest, level: nat,
                  d: Digest)
    requires level <= TREE_DEPTH && OnDisk(disk, nodes, values)
    ensures OnDisk(disk[StorageKey(key, level) := d], nodes[Bits(key)[..TREE_DEPTH - level] := d], values)
  {
    hide StorageKey, ValueKey, Bits;
    var disk', nodes' := disk[StorageKey(key, level) := d], nodes[Bits(key)[..TREE_DEPTH - level] := d];
    forall k: Digest, l: nat | l <= TREE_DEPTH
      ensures NodeOnDisk(disk', nodes', k, l)
    {
      StorageKeyInjective(k, l, key, level);
      assert NodeOnDisk(disk, nodes, k, l);
      if l != level {
        assert |Bits(k)[..TREE_DEPTH - l]| != |Bits(key)[..TREE_DEPTH - level]|;
      }
    }
    forall k: Digest
      ensures ValueOnDisk(disk', values, k)
    {
      ValueKeyApart(k, key, level);
      assert ValueOnDisk(disk, values, k);
    }
  }

  lemma WriteValue(disk: Disk, nodes: map<Path, Digest>, values: map<Digest, ByteString>, key: Digest, v: ByteString)
    requires OnDisk(disk, nodes, values)
    ensures OnDisk(disk[ValueKey(key) := v], nodes, values[key := v])
  {
    hide StorageKey, ValueKey, Bits;
    var disk', values' := disk[ValueKey(key) := v], values[key := v];
    forall k: Digest, l: nat | l <= TREE_DEPTH
      ensures NodeOnDisk(disk', nodes, k, l)
    {
      ValueKeyApart(key, k, l);
      assert NodeOnDisk(disk, nodes, k, l);
    }
    forall k: Digest
      ensures ValueOnDisk(disk', values', k)
    {
      ValueKeyApart(k, key, 0);
      assert ValueOnDisk(disk, values, k);
    }
  }

  /** The other child at `level` of the path of `key`, read under the key with that bit
      flipped; what is missing, or not a digest, is an empty subtree. */
  function ReadSibling(h: Hash, disk: Disk, key: Digest, level: nat): Digest
    requires 1 <= level <= TREE_DEPTH
  {
    var skey := StorageKey(Flipped(key, TREE_DEPTH - level), level - 1);
    if skey in disk && |disk[skey]| == 32 then disk[skey] else DefaultHash(h, level - 1)
  }

  lemma FlippedPath(key: Digest, level: nat)
    requires 1 <= level <= TREE_DEPTH
    ensures Bits(Flipped(key, TREE_DEPTH - level))[..TREE_DEPTH - level + 1] == SiblingPath(Bits(key), level)
  {
    hide Bits, Flipped;
    var n := TREE_DEPTH - level;
    forall j | 0 <= j <= n
      ensures Bits(Flipped(key, n))[j] == SiblingPath(Bits(key), level)[j]
    {
      FlippedBits(key, n, j);
    }
  }

  /** The sibling read from disk is the hash of the subtree on the other side. */
  lemma ReadSiblingCorrect(h: Hash, leaves: Leaves, disk: Disk, nodes: map<Path, Digest>, values: map<Digest,
                           ByteString>,
                           key: Digest, level: nat)
    requires StoreMatches(h, leaves, nodes) && OnDisk(disk, nodes, values) && 1 <= level <= TREE_DEPTH
    ensures ReadSibling(h, disk, key, level) == NodeHash(h, leaves, SiblingPath(Bits(key), level))
  {
    hide NodeHash, DefaultHash, Bits, StorageKey, Flipped, SiblingPath;
    var flipped := Flipped(key, TREE_DEPTH - level);
    FlippedPath(key, level);
    assert NodeOnDisk(disk, nodes, flipped, level - 1);
    var prefix := SiblingPath(Bits(key), level);
    if prefix !in nodes {
      MissingNode(h, leaves, nodes, prefix);
    }
  }

  /** A node is the combination of the child on `path` and that child's sibling. */
  lemma NodeFromChild(h: Hash, leaves: Leaves, path: Path, level: nat)
    requires |path| == TREE_DEPTH && 1 <= level <= TREE_DEPTH
    ensures var child := NodeHash(h, leaves, path[..TREE_DEPTH - level + 1]);
            var sibling := NodeHash(h, leaves, SiblingPath(path, level));
            NodeHash(h, leaves, path[..TREE_DEPTH - level]) ==
            if path[TREE_DEPTH - level] then Combine(h, sibling, child) else Combine(h, child, sibling)
  {
    hide Combine;
    var n := TREE_DEPTH - level;
    assert path[..n + 1] == path[..n] + [path[n]];
  }

  /** What the root is, along the path of any key. The leaf is the hash of key and encoded account, or zeros if
      there is none; a node is the hash of its two children, the one on the path second if the key's bit there is
      set; the node of the empty path is the root. */
  lemma StateRootPath(c: StateCodec, accounts: Accounts, key: Digest, level: nat)
    requires 1 <= level <= TREE_DEPTH
    ensures var path, leaves := Bits(key), LeavesOf(c, accounts);
            && NodeHash(c.hash, leaves, path) ==
               (if key in accounts then c.hash(key + c.encode(accounts[key])) else ZERO_DIGEST)
            && NodeHash(c.hash, leaves, path[..TREE_DEPTH - level]) ==
               PairUp(c.hash, path[TREE_DEPTH - level], NodeHash(c.hash, leaves, path[..TREE_DEPTH - level + 1]),
                      NodeHash(c.hash, leaves, SiblingPath(path, level)))
            && NodeHash(c.hash, leaves, path[..0]) == StateRoot(c, accounts)
  {
    hide Bits, LeavesOf;
    LeafAt(c, accounts, key);
    NodeFromChild(c.hash, LeavesOf(c, accounts), Bits(key), level);
    assert Bits(key)[..0] == [];
  }

  /** The hash one level up, from the node on the path and its sibling. */
  function PairUp(h: Hash, bit: bool, node: Digest, sibling: Digest): Digest {
    if bit then h(sibling + node) else h(node + sibling)
  }

  // ---- Proofs ----

  /** `siblings[i]` and `pathBits[i]` belong to level i + 1. */
  datatype MerkleProof = MerkleProof(siblings: seq<Digest>, pathBits: seq<bool>)

  predicate FullDepth(proof: MerkleProof) {
    |proof.siblings| == TREE_DEPTH && |proof.pathBits| == TREE_DEPTH
  }

  /** The two children hashed at step `i` of verification, from the bottom. */
  function StepInput(h: Hash, leaf: Digest, proof: MerkleProof, i: nat): (s: ByteString)
    requires FullDepth(proof) && 1 <= i <= TREE_DEPTH
    decreases i, 0
  {
    var current := Climb(h, leaf, proof, i - 1);
    if proof.pathBits[i - 1] then proof.siblings[i - 1] + current else current + proof.siblings[i - 1]
  }

  function Climb(h: Hash, leaf: Digest, proof: MerkleProof, i: nat): Digest
    requires FullDepth(proof) && i <= TREE_DEPTH
    decreases i, 1
  {
    if i == 0 then leaf else h(StepInput(h, leaf, proof, i))
  }

  /** Both inclusion (`Some`) and exclusion (`None`) proofs. */
  predicate Verifies(c: StateCodec, root: Digest, key: Digest, value: Option<AccountState>, proof: MerkleProof) {
    FullDepth(proof) && Climb(c.hash, StartHash(c, key, value), proof, TREE_DEPTH) == root
  }

  function StartHash(c: StateCodec, key: Digest, value: Option<AccountState>): Digest {
    if value.Some? then LeafHash(c, key, c.encode(value.value)) else ZERO_DIGEST
  }

  method VerifyProof(c: StateCodec, root: Digest, address: ByteString, value: Option<AccountState>,
                     proof: MerkleProof) returns (ok: bool)
    ensures ok == Verifies(c, root, c.hash(address), value, proof)
  {
    if |proof.siblings| != TREE_DEPTH || |proof.pathBits| != TREE_DEPTH {
      return false;
    }
    var key := c.hash(address);
    var start := if value.Some? then LeafHash(c, key, c.encode(value.value)) else DefaultHash(c.hash, 0);
    var current := start;
    for i := 0 to TREE_DEPTH
      invariant current == Climb(c.hash, start, proof, i)
    {
      var sibling := proof.siblings[i];
      var (left, right) := if proof.pathBits[i] then (sibling, current) else (current, sibling);
      current := Combine(c.hash, left, right);
    }
    ok := current == root;
  }

  /** The leaf position a proof's path bits name. */
  function PositionOf(proof: MerkleProof): (p: Path)
    requires FullDepth(proof)
    ensures |p| == TREE_DEPTH
  {
    seq(TREE_DEPTH, i requires 0 <= i < TREE_DEPTH => proof.pathBits[TREE_DEPTH - 1 - i])
  }

  ghost function HonestProof(h: Hash, leaves: Leaves, path: Path): (proof: MerkleProof)
    requires |path| == TREE_DEPTH
    ensures FullDepth(proof)
  {
    MerkleProof(
      seq<Digest>(TREE_DEPTH, i requires 0 <= i < TREE_DEPTH => NodeHash(h, leaves, SiblingPath(path, i + 1))),
      seq(TREE_DEPTH, i requires 0 <= i < TREE_DEPTH => path[TREE_DEPTH - 1 - i]))
  }

  lemma {:induction false} ClimbHonest(h: Hash, leaves: Leaves, path: Path, i: nat)
    requires |path| == TREE_DEPTH && i <= TREE_DEPTH
    ensures Climb(h, NodeHash(h, leaves, path), HonestProof(h, leaves, path), i)
         == NodeHash(h, leaves, path[..TREE_DEPTH - i])
  {
    hide NodeHash;
    if i == 0 {
      assert path[..TREE_DEPTH] == path;
    } else {
      ClimbHonest(h, leaves, path, i - 1);
      NodeFromChild(h, leaves, path, i);
    }
  }

  /** Everything hashed by verification, and by the tree along the named path. */
  ghost function ProofInputs(c: StateCodec, accounts: Accounts, key: Digest, value: Option<AccountState>,
                             proof: MerkleProof): set<ByteString>
    requires FullDepth(proof)
  {
    var leaf := StartHash(c, key, value);
    var leaves := LeavesOf(c, accounts);
    var path := PositionOf(proof);
    (set i | 1 <= i <= TREE_DEPTH :: StepInput(c.hash, leaf, proof, i)) +
    (set i | 0 <= i < TREE_DEPTH :: NodeInput(c.hash, leaves, path[..i])) +
    (set k | k in accounts && Bits(k) == path :: k + c.encode(accounts[k])) +
    (if value.Some? then {key + c.encode(value.value)} else {})
  }

  ghost function NodeInput(h: Hash, leaves: Leaves, prefix: Path): (s: ByteString)
    requires |prefix| < TREE_DEPTH
  {
    NodeHash(h, leaves, prefix + [false]) + NodeHash(h, leaves, prefix + [true])
  }

  /** A climb that reaches a tree's node started from that tree's leaf, or a collision. */
  lemma {:induction false} ClimbSound(h: Hash, leaves: Leaves, leaf: Digest, proof: MerkleProof, i: nat,
                                      inputs: set<ByteString>)
    requires FullDepth(proof) && i <= TREE_DEPTH && !Collision(h, inputs)
    requires forall k :: 1 <= k <= TREE_DEPTH ==> StepInput(h, leaf, proof, k) in inputs
    requires forall k :: 0 <= k < TREE_DEPTH ==> NodeInput(h, leaves, PositionOf(proof)[..k]) in inputs
    requires Climb(h, leaf, proof, i) == NodeHash(h, leaves, PositionOf(proof)[..TREE_DEPTH - i])
    ensures leaf == NodeHash(h, leaves, PositionOf(proof))
  {
    hide Collision, PositionOf;
    var path := PositionOf(proof);
    if i == 0 {
      assert path[..TREE_DEPTH] == path;
    } else {
      var prefix := path[..TREE_DEPTH - i];
      var x, y := StepInput(h, leaf, proof, i), NodeInput(h, leaves, prefix);
      NoCollision(h, inputs, x, y);
      var current := Climb(h, leaf, proof, i - 1);
      PositionBit(proof, TREE_DEPTH - i);
      assert path[..TREE_DEPTH - (i - 1)] == prefix + [path[TREE_DEPTH - i]];
      assert x[..32] == y[..32] && x[32..] == y[32..];
      ClimbSound(h, leaves, leaf, proof, i - 1, inputs);
    }
  }

  lemma PositionBit(proof: MerkleProof, i: nat)
    requires FullDepth(proof) && i < TREE_DEPTH
    ensures PositionOf(proof)[i] == proof.pathBits[TREE_DEPTH - 1 - i]
  {}

  /** An accepted proof started from the leaf of the tree at the position it names. */
  lemma AcceptedStart(c: StateCodec, accounts: Accounts, key: Digest, value: Option<AccountState>, proof: MerkleProof)
    requires Verifies(c, StateRoot(c, accounts), key, value, proof)
    requires !Broken(c.hash, ProofInputs(c, accounts, key, value, proof))
    ensures StartHash(c, key, value) == NodeHash(c.hash, LeavesOf(c, accounts), PositionOf(proof))
  {
    hide Collision, NodeHash, NodeInput, StepInput, Climb, LeavesOf, StartHash, PositionOf;
    var inputs := ProofInputs(c, accounts, key, value, proof);
    assert PositionOf(proof)[..0] == [];
    ClimbSound(c.hash, LeavesOf(c, accounts), StartHash(c, key, value), proof, TREE_DEPTH, inputs);
  }

  /** Proof soundness. An accepted inclusion proof, whatever its path bits, means the account
      is in the map with that state; an accepted exclusion proof means no account sits at the
      position its path bits name. Otherwise the hash function is broken on the strings hashed. */
  lemma ProofSound(c: StateCodec, accounts: Accounts, key: Digest, value: Option<AccountState>, proof: MerkleProof)
    requires CodecContract(c) && Verifies(c, StateRoot(c, accounts), key, value, proof)
    ensures Broken(c.hash, ProofInputs(c, accounts, key, value, proof))
         || (if value.Some? then key in accounts && accounts[key] == value.value
             else forall k :: k in accounts ==> Bits(k) != PositionOf(proof))
  {
    hide Collision, NodeInput, StepInput, Climb, PositionOf, Bits;
    var inputs := ProofInputs(c, accounts, key, value, proof);
    var leaves, path := LeavesOf(c, accounts), PositionOf(proof);
    if !Broken(c.hash, inputs) {
      AcceptedStart(c, accounts, key, value, proof);
      assert value.Some? ==> key + c.encode(value.value) in inputs;
      if k :| k in accounts && Bits(k) == path {
        LeafAt(c, accounts, k);
        assert k + c.encode(accounts[k]) in inputs;
        if value.Some? {
          NoCollision(c.hash, inputs, key + c.encode(value.value), k + c.encode(accounts[k]));
          LeafPreimageInjective(c, key, value.value, k, accounts[k]);
        }
      } else {
        NoLeafAt(c, accounts, path);
      }
    }
  }

  lemma NoLeafAt(c: StateCodec, accounts: Accounts, path: Path)
    requires |path| == TREE_DEPTH && forall k :: k in accounts ==> Bits(k) != path
    ensures NodeHash(c.hash, LeavesOf(c, accounts), path) == ZERO_DIGEST
  {
    hide Bits;
  }

  lemma LeafPreimageInjective(c: StateCodec, k1: Digest, a1: AccountState, k2: Digest, a2: AccountState)
    requires CodecContract(c) && k1 + c.encode(a1) == k2 + c.encode(a2)
    ensures k1 == k2 && a1 == a2
  {
    var s, t := k1 + c.encode(a1), k2 + c.encode(a2);
    assert s[..32] == k1 && t[..32] == k2 && s[32..] == c.encode(a1) && t[32..] == c.encode(a2);
  }

  /** With the address's own path bits, an accepted exclusion proof does exclude the address. */
  lemma ExclusionSound(c: StateCodec, accounts: Accounts, key: Digest, proof: MerkleProof)
    requires CodecContract(c) && Verifies(c, StateRoot(c, accounts), key, None, proof)
    requires PositionOf(proof) == Bits(key)
    ensures Broken(c.hash, ProofInputs(c, accounts, key, None, proof)) || key !in accounts
  {
    hide Bits, Broken, ProofInputs, Verifies, PositionOf;
    ProofSound(c, accounts, key, None, proof);
  }

  /** Verification never compares the path bits with the address: an exclusion proof that is
      accepted for one address is accepted for every address. */
  lemma ExclusionIgnoresAddress(c: StateCodec, root: Digest, key: Digest, other: Digest, proof: MerkleProof)
    ensures Verifies(c, root, key, None, proof) <==> Verifies(c, root, other, None, proof)
  {}

  ghost function ProofFor(c: StateCodec, accounts: Accounts, key: Digest): (proof: MerkleProof)
    ensures FullDepth(proof)
  {
    HonestProof(c.hash, LeavesOf(c, accounts), Bits(key))
  }

  function Lookup(accounts: Accounts, key: Digest): Option<AccountState> {
    if key in accounts then Some(accounts[key]) else None
  }

  /** Proof completeness: the honest proof of what the map holds is accepted, and names the
      address's own position. */
  lemma ProofComplete(c: StateCodec, accounts: Accounts, key: Digest)
    ensures Verifies(c, StateRoot(c, accounts), key, Lookup(accounts, key), ProofFor(c, accounts, key))
    ensures PositionOf(ProofFor(c, accounts, key)) == Bits(key)
  {
    hide Bits, Climb, LeafHash, LeavesOf;
    var path, leaves := Bits(key), LeavesOf(c, accounts);
    LeafAt(c, accounts, key);
    ClimbHonest(c.hash, leaves, path, TREE_DEPTH);
    assert path[..0] == [];
  }

  /** So an account that is present can still be "excluded" with the honest proof of an absent one. */
  lemma PresentAccountExcluded(c: StateCodec, accounts: Accounts, present: Digest, absent: Digest)
    requires present in accounts && absent !in accounts
    ensures Verifies(c, StateRoot(c, accounts), present, None, ProofFor(c, accounts, absent))
  {
    hide Verifies, StateRoot, ProofFor;
    ProofComplete(c, accounts, absent);
    ExclusionIgnoresAddress(c, StateRoot(c, accounts), absent, present, ProofFor(c, accounts, absent));
  }

  /** The state root commits to every account: maps with the same root agree at every key,
      or the hash function is broken on the strings along that key's path. */
  lemma StateRootBinding(c: StateCodec, a: Accounts, b: Accounts, key: Digest)
    requires CodecContract(c) && StateRoot(c, a) == StateRoot(c, b)
    ensures Lookup(a, key) == Lookup(b, key)
         || Broken(c.hash, ProofInputs(c, b, key, Lookup(a, key), ProofFor(c, a, key)))
  {
    hide Bits, Broken, ProofInputs, PositionOf, StateRoot, LeavesOf, ProofFor;
    ProofComplete(c, a, key);
    ProofSound(c, b, key, Lookup(a, key), ProofFor(c, a, key));
  }

  // ---- The stored tree ----

  lemma LeafNode(h: Hash, leaves: Leaves, path: Path)
    requires |path| == TREE_DEPTH && path in leaves
    ensures NodeHash(h, leaves, path) == leaves[path]
  {}

  lemma RootNode(c: StateCodec, accounts: Accounts, path: Path)
    ensures StateRoot(c, accounts) == NodeHash(c.hash, LeavesOf(c, accounts), path[..0])
  {
    assert path[..0] == [];
  }

  /** `nodes` is `stored` with the prefixes of `path` of length `from` and more rewritten for `leaves`. */
  ghost predicate PathRewritten(h: Hash, leaves: Leaves, stored: map<Path, Digest>, nodes: map<Path, Digest>,
                                path: Path, from: nat)
    requires from <= |path| == TREE_DEPTH
  {
    && (forall p :: p in stored ==> p in nodes)
    && (forall i :: from <= i <= TREE_DEPTH ==> path[..i] in nodes)
    && (forall p :: p in nodes ==>
          if p <= path && from <= |p| then |p| <= TREE_DEPTH && nodes[p] == NodeHash(h, leaves, p)
          else p in stored && nodes[p] == stored[p])
  }

  lemma RewriteStart(h: Hash, leaves: Leaves, stored: map<Path, Digest>, path: Path)
    requires |path| == TREE_DEPTH
    requires forall p :: p in stored ==> |p| <= TREE_DEPTH
    ensures PathRewritten(h, leaves, stored, stored[path := NodeHash(h, leaves, path)], path, TREE_DEPTH)
  {
    hide NodeHash;
    assert path[..TREE_DEPTH] == path;
    assert forall p: Path :: p <= path && TREE_DEPTH <= |p| ==> p == path;
  }

  lemma RewriteStep(h: Hash, leaves: Leaves, stored: map<Path, Digest>, nodes: map<Path, Digest>, path: Path, n: nat)
    requires n < |path| == TREE_DEPTH && PathRewritten(h, leaves, stored, nodes, path, n + 1)
    ensures PathRewritten(h, leaves, stored, nodes[path[..n] := NodeHash(h, leaves, path[..n])], path, n)
  {
    hide NodeHash;
    assert forall p: Path :: p <= path && |p| == n ==> p == path[..n];
  }

  lemma StoreAfterPut(h: Hash, before: Leaves, path: Path, leaf: Digest, stored: map<Path, Digest>,
                      nodes: map<Path, Digest>)
    requires |path| == TREE_DEPTH && StoreMatches(h, before, stored)
    requires PathRewritten(h, before[path := leaf], stored, nodes, path, 0)
    ensures StoreMatches(h, before[path := leaf], nodes)
  {
    hide NodeHash;
    var after := before[path := leaf];
    forall p | p in nodes
      ensures |p| <= TREE_DEPTH && nodes[p] == NodeHash(h, after, p)
    {
      if !(p <= path) {
        OffPathUnchanged(h, before, path, leaf, p);
      }
    }
  }

  lemma PutStep(h: Hash, before: Leaves, path: Path, leaf: Digest, level: nat, current: Digest, sibling: Digest)
    requires |path| == TREE_DEPTH && 1 <= level <= TREE_DEPTH
    requires sibling == NodeHash(h, before, SiblingPath(path, level))
    requires current == NodeHash(h, before[path := leaf], path[..TREE_DEPTH - level + 1])
    ensures (if path[TREE_DEPTH - level] then Combine(h, sibling, current) else Combine(h, current, sibling))
         == NodeHash(h, before[path := leaf], path[..TREE_DEPTH - level])
  {
    hide NodeHash, Combine;
    var n := TREE_DEPTH - level;
    assert SiblingPath(path, level)[n] != path[n];
    OffPathUnchanged(h, before, path, leaf, SiblingPath(path, level));
    NodeFromChild(h, before[path := leaf], path, level);
  }

  /** The bottom-up loop of `put`: store the new leaf hash, then every node above it. */
  method StorePath(h: Hash, ghost before: Leaves, old0: Disk, ghost stored: map<Path, Digest>,
                   ghost values: map<Digest, ByteString>, key: Digest, leaf: Digest, siblings: seq<Digest>)
    returns (disk: Disk, ghost nodes: map<Path, Digest>, root: Digest)
    requires TREE_DEPTH == |siblings| && StoreMatches(h, before, stored) && OnDisk(old0, stored, values)
    requires forall i :: 0 <= i < TREE_DEPTH ==> siblings[i] == NodeHash(h, before, SiblingPath(Bits(key), i + 1))
    ensures StoreMatches(h, before[Bits(key) := leaf], nodes) && OnDisk(disk, nodes, values)
    ensures root == NodeHash(h, before[Bits(key) := leaf], Bits(key)[..0])
  {
    hide NodeHash, Combine, PathRewritten, Bits, StorageKey, OnDisk, StoreMatches, GetBit, SiblingPath;
    ghost var path := Bits(key);
    ghost var after := before[path := leaf];
    var current := leaf;
    LeafNode(h, after, path);
    StoredPaths(h, before, stored);
    RewriteStart(h, after, stored, path);
    assert path[..TREE_DEPTH] == path;
    WriteNode(old0, stored, values, key, 0, current);
    disk := old0[StorageKey(key, 0) := current];
    nodes := stored[path := current];
    for level := 1 to TREE_DEPTH + 1
      invariant current == NodeHash(h, after, path[..TREE_DEPTH - level + 1])
      invariant PathRewritten(h, after, stored, nodes, path, TREE_DEPTH - level + 1)
      invariant OnDisk(disk, nodes, values)
    {
      var n := TREE_DEPTH - level;
      GetBitIsBit(key, n);
      var bit := GetBit(key, n);
      var sibling := siblings[level - 1];
      var (left, right) := if bit then (sibling, current) else (current, sibling);
      PutStep(h, before, path, leaf, level, current, sibling);
      current := Combine(h, left, right);
      RewriteStep(h, after, stored, nodes, path, n);
      WriteNode(disk, nodes, values, key, level, current);
      disk := disk[StorageKey(key, level) := current];
      nodes := nodes[path[..n] := current];
    }
    StoreAfterPut(h, before, path, leaf, stored, nodes);
    root := current;
  }

  lemma StoredPaths(h: Hash, leaves: Leaves, nodes: map<Path, Digest>)
    requires StoreMatches(h, leaves, nodes)
    ensures forall p :: p in nodes ==> |p| <= TREE_DEPTH
  {}

  /** What the stored fields of a tree over `accounts` satisfy. */
  ghost predicate TreeFor(c: StateCodec, accounts: Accounts, values: map<Digest, ByteString>,
                          nodes: map<Path, Digest>, root: Digest)
  {
    && CodecContract(c)
    && ValuesMatch(c, accounts, values)
    && StoreMatches(c.hash, LeavesOf(c, accounts), nodes)
    && root == StateRoot(c, accounts)
  }

  ghost predicate ValuesMatch(c: StateCodec, accounts: Accounts, values: map<Digest, ByteString>) {
    && values.Keys == accounts.Keys
    && (forall k :: k in values ==> values[k] == c.encode(accounts[k]))
  }

  lemma TreeForUpdate(c: StateCodec, accounts: Accounts, values: map<Digest, ByteString>, key: Digest,
                      state: AccountState, nodes: map<Path, Digest>, root: Digest)
    requires CodecContract(c) && ValuesMatch(c, accounts, values)
    requires var after := LeavesOf(c, accounts)[Bits(key) := LeafHash(c, key, c.encode(state))];
             StoreMatches(c.hash, after, nodes) && root == NodeHash(c.hash, after, Bits(key)[..0])
    ensures TreeFor(c, accounts[key := state], values[key := c.encode(state)], nodes, root)
  {
    hide Bits, NodeHash, LeavesOf, StateRoot, LeafHash, StoreMatches;
    LeavesOfUpdate(c, accounts, key, state);
    RootNode(c, accounts[key := state], Bits(key));
  }

  class Tree {
    const c: StateCodec
    var disk: Disk
    var root: Digest
    ghost var nodes: map<Path, Digest>
    ghost var values: map<Digest, ByteString>
    ghost var accounts: Accounts

    ghost predicate Valid()
      reads this
    {
      OnDisk(disk, nodes, values) && TreeFor(c, accounts, values, nodes, root)
    }

    /** `StateTree::new`: the root of the empty tree, whatever the database holds. */
    constructor (c: StateCodec, disk: Disk)
      ensures this.c == c && this.disk == disk
      ensures root == StateRoot(c, map[]) && accounts == map[]
      ensures CodecContract(c) && disk == map[] ==> Valid()
    {
      this.c := c;
      this.disk := disk;
      this.root := DefaultHash(c.hash, TREE_DEPTH);
      this.nodes := map[];
      this.values := map[];
      this.accounts := map[];
      assert LeavesOf(c, map[]) == map[];
      EmptySubtree(c.hash, map[], []);
    }

    lemma RootIsStateRoot()
      requires Valid()
      ensures root == StateRoot(c, accounts)
    {}

    method Get(address: ByteString) returns (r: Option<AccountState>)
      requires Valid()
      ensures r == Lookup(accounts, c.hash(address))
    {
      hide ValueKey, StoreMatches, LeavesOf, StateRoot;
      var key := c.hash(address);
      assert ValueOnDisk(disk, values, key);
      if ValueKey(key) in disk {
        r := c.decode(disk[ValueKey(key)]);
      } else {
        r := None;
      }
    }

    method Siblings(key: Digest) returns (siblings: seq<Digest>)
      requires Valid()
      ensures |siblings| == TREE_DEPTH
      ensures forall i :: 0 <= i < TREE_DEPTH ==>
                siblings[i] == NodeHash(c.hash, LeavesOf(c, accounts), SiblingPath(Bits(key), i + 1))
    {
      hide NodeHash, LeavesOf, StateRoot, Bits, OnDisk, StoreMatches, ReadSibling, SiblingPath;
      siblings := [];
      for level := 1 to TREE_DEPTH + 1
        invariant |siblings| == level - 1
        invariant forall i :: 0 <= i < level - 1 ==>
                    siblings[i] == NodeHash(c.hash, LeavesOf(c, accounts), SiblingPath(Bits(key), i + 1))
      {
        ReadSiblingCorrect(c.hash, LeavesOf(c, accounts), disk, nodes, values, key, level);
        siblings := siblings + [ReadSibling(c.hash, disk, key, level)];
      }
    }

    /** Writes one account and recomputes the 256 nodes above it from the stored siblings. */
    method Put(address: ByteString, state: AccountState)
      requires Valid()
      modifies this
      ensures Valid() && accounts == old(accounts)[c.hash(address) := state]
    {
      hide Bits, NodeHash, LeavesOf, StateRoot, LeafHash, StoreMatches, ValuesMatch, CodecContract, OnDisk, ValueKey,
           SiblingPath;
      var key := c.hash(address);
      var siblings := Siblings(key);
      var value := c.encode(state);
      var leaf := LeafHash(c, key, value);
      ghost var stored := values;
      WriteValue(disk, nodes, values, key, value);
      values := values[key := value];
      disk := disk[ValueKey(key) := value];
      disk, nodes, root := StorePath(c.hash, LeavesOf(c, accounts), disk, nodes, values, key, leaf, siblings);
      TreeForUpdate(c, accounts, stored, key, state, nodes, root);
      accounts := accounts[key := state];
    }

    method GetProof(address: ByteString) returns (proof: MerkleProof)
      requires Valid()
      ensures proof == ProofFor(c, accounts, c.hash(address))
    {
      hide Bits, NodeHash, LeavesOf, StateRoot, StoreMatches, GetBit, OnDisk;
      var key := c.hash(address);
      var siblings := Siblings(key);
      var pathBits := [];
      for level := 1 to TREE_DEPTH + 1
        invariant |pathBits| == level - 1
        invariant forall i :: 0 <= i < level - 1 ==> pathBits[i] == Bits(key)[TREE_DEPTH - 1 - i]
      {
        GetBitIsBit(key, TREE_DEPTH - level);
        pathBits := pathBits + [GetBit(key, TREE_DEPTH - level)];
      }
      proof := MerkleProof(siblings, pathBits);
      assert proof.siblings == ProofFor(c, accounts, key).siblings;
      assert proof.pathBits == ProofFor(c, accounts, key).pathBits;
    }
  }

  // ---- Histories of writes ----

  datatype Write = Write(address: ByteString, state: AccountState)

  /** The account map after the writes, in order. */
  function Written(h: Hash, writes: seq<Write>): Accounts {
    if writes == [] then map[]
    else
      var w := writes[|writes| - 1];
      Written(h, writes[..|writes| - 1])[h(w.address) := w.state]
  }

  /** What was written last under a tree key. */
  function LastWrite(h: Hash, writes: seq<Write>, key: Digest): Option<AccountState> {
    if writes == [] then None
    else
      var w := writes[|writes| - 1];
      if h(w.address) == key then Some(w.state) else LastWrite(h, writes[..|writes| - 1], key)
  }

  lemma {:induction false} WrittenLast(h: Hash, writes: seq<Write>, key: Digest)
    ensures Lookup(Written(h, writes), key) == LastWrite(h, writes, key)
  {
    if writes != [] {
      WrittenLast(h, writes[..|writes| - 1], key);
    }
  }

  /** The root is deterministic: two histories of writes that leave the same last state under
      every key end in the same root, whatever their order and length. Conversely histories
      that end in one root agree at every key, or the hash function is broken on the strings
      along that key's path. */
  lemma RootOfHistory(c: StateCodec, a: seq<Write>, b: seq<Write>, key: Digest)
    requires CodecContract(c)
    ensures (forall k :: LastWrite(c.hash, a, k) == LastWrite(c.hash, b, k)) ==>
              StateRoot(c, Written(c.hash, a)) == StateRoot(c, Written(c.hash, b))
    ensures StateRoot(c, Written(c.hash, a)) == StateRoot(c, Written(c.hash, b)) ==>
              var m, n := Written(c.hash, a), Written(c.hash, b);
              || LastWrite(c.hash, a, key) == LastWrite(c.hash, b, key)
              || Broken(c.hash, ProofInputs(c, n, key, Lookup(m, key), ProofFor(c, m, key)))
  {
    hide StateRoot, Written, LastWrite, Broken, ProofInputs, ProofFor;
    var m, n := Written(c.hash, a), Written(c.hash, b);
    WrittenLast(c.hash, a, key);
    WrittenLast(c.hash, b, key);
    if forall k :: LastWrite(c.hash, a, k) == LastWrite(c.hash, b, k) {
      forall k: Digest
        ensures Lookup(m, k) == Lookup(n, k)
      {
        WrittenLast(c.hash, a, k);
        WrittenLast(c.hash, b, k);
      }
      SameLookups(m, n);
    }
    if StateRoot(c, m) == StateRoot(c, n) {
      StateRootBinding(c, m, n, key);
    }
  }

  lemma SameLookups(m: Accounts, n: Accounts)
    requires forall k: Digest :: Lookup(m, k) == Lookup(n, k)
    ensures m == n
  {
    assert forall k :: k in m ==> Lookup(m, k).Some?;
    assert forall k :: k in n ==> Lookup(n, k).Some?;
  }
}
