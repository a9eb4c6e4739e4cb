/** The two bottom-up Merkle root loops and what an equal root says about the leaves. */
module Merkle {
  import opened Bytes

  function Pair(left: Digest, right: Digest): (s: ByteString)
    ensures |s| == 64
  {
    left + right
  }

  /** Preimage of node `i` of the next level; the odd last node is paired with itself. */
  function PairAt(level: seq<Digest>, i: nat): (s: ByteString)
    requires 2 * i < |level|
    ensures |s| == 64
  {
    Pair(level[2 * i], SecondOfPair(level, i))
  }

  function SecondOfPair(level: seq<Digest>, i: nat): Digest
    requires 2 * i < |level|
  {
    if 2 * i + 1 < |level| then level[2 * i + 1] else level[2 * i]
  }

  function NextLevel(h: Hash, level: seq<Digest>): (next: seq<Digest>)
    ensures |next| == (|level| + 1) / 2
  {
    seq<Digest>((|level| + 1) / 2, i requires 0 <= i < (|level| + 1) / 2 => h(PairAt(level, i)))
  }

  /** The root of the tree over a non-empty level. */
  function Fold(h: Hash, level: seq<Digest>): Digest
    requires level != []
    decreases |level|
  {
    if |level| == 1 then level[0] else Fold(h, NextLevel(h, level))
  }

  /** Number of levels above a level of `n` nodes. */
  function Depth(n: nat): nat {
    if n <= 1 then 0 else 1 + Depth((n + 1) / 2)
  }

  /** Everything hashed while folding a level. */
  ghost function FoldInputs(h: Hash, level: seq<Digest>): set<ByteString>
    decreases |level|
  {
    if |level| <= 1 then {}
    else PairInputs(level) + FoldInputs(h, NextLevel(h, level))
  }

  ghost function PairInputs(level: seq<Digest>): set<ByteString> {
    set i | 0 <= i < (|level| + 1) / 2 :: PairAt(level, i)
  }

  // ---- The loops ----

  /** The first `k` nodes of the next level are done. */
  ghost predicate Paired(h: Hash, level: seq<Digest>, next: seq<Digest>, k: nat) {
    |next| == k <= (|level| + 1) / 2 && next == NextLevel(h, level)[..k]
  }

  lemma PairedNext(h: Hash, level: seq<Digest>, next: seq<Digest>, left: Digest, right: Digest)
    requires Paired(h, level, next, |next|) && 2 * |next| < |level|
    requires left == level[2 * |next|] && right == SecondOfPair(level, |next|)
    ensures Paired(h, level, next + [h(Pair(left, right))], |next| + 1)
  {
    assert NextLevel(h, level)[|next|] == h(PairAt(level, |next|));
  }

  /** `merkle_root`: a single leaf is hashed with itself. */
  function LeavesRoot(h: Hash, leaves: seq<Digest>): Digest {
    if leaves == [] then ZERO_DIGEST
    else if |leaves| == 1 then h(Pair(leaves[0], leaves[0]))
    else Fold(h, leaves)
  }

  method MerkleRoot(h: Hash, leaves: seq<Digest>) returns (root: Digest)
    ensures root == LeavesRoot(h, leaves)
  {
    if leaves == [] {
      return ZERO_DIGEST;
    }
    var level := leaves;
    if |level| == 1 {
      return h(Pair(level[0], level[0]));
    }
    while |level| > 1
      invariant level != [] && Fold(h, level) == Fold(h, leaves)
      decreases |level|
    {
      var next: seq<Digest> := [];
      for k := 0 to (|level| + 1) / 2
        invariant Paired(h, level, next, k)
      {
        var chunk := level[2 * k..if 2 * k + 2 <= |level| then 2 * k + 2 else |level|];
        var left := chunk[0];
        var right := if |chunk| == 2 then chunk[1] else chunk[0];
        PairedNext(h, level, next, left, right);
        next := next + [h(Pair(left, right))];
      }
      assert next == NextLevel(h, level);
      level := next;
    }
    root := level[0];
  }

  /** `compute_merkle_root` over serialized transactions: a single leaf is the root itself. */
  function LeafHashes(h: Hash, items: seq<ByteString>): (leaves: seq<Digest>)
    ensures |leaves| == |items|
    ensures forall i :: 0 <= i < |items| ==> leaves[i] == h(items[i])
  {
    if items == [] then [] else LeafHashes(h, items[..|items| - 1]) + [h(items[|items| - 1])]
  }

  function ItemsRoot(h: Hash, items: seq<ByteString>): Digest {
    if items == [] then ZERO_DIGEST else Fold(h, LeafHashes(h, items))
  }

  method ComputeMerkleRoot(h: Hash, items: seq<ByteString>) returns (root: Digest)
    ensures root == ItemsRoot(h, items)
  {
    if items == [] {
      return ZERO_DIGEST;
    }
    var hashes: seq<Digest> := [];
    for i := 0 to |items|
      invariant hashes == LeafHashes(h, items[..i])
    {
      assert items[..i + 1][..i] == items[..i];
      hashes := hashes + [h(items[i])];
    }
    assert items[..|items|] == items;
    while |hashes| > 1
      invariant hashes != [] && Fold(h, hashes) == ItemsRoot(h, items)
      decreases |hashes|
    {
      var next: seq<Digest> := [];
      for k := 0 to (|hashes| + 1) / 2
        invariant Paired(h, hashes, next, k)
      {
        var combined: ByteString := hashes[2 * k];
        if 2 * k + 1 < |hashes| {
          combined := combined + hashes[2 * k + 1];
        } else {
          combined := combined + hashes[2 * k];
        }
        PairedNext(h, hashes, next, hashes[2 * k], SecondOfPair(hashes, k));
        next := next + [h(combined)];
      }
      assert next == NextLevel(h, hashes);
      hashes := next;
    }
    root := hashes[0];
  }

  /** The two roots are the same function of the leaf hashes, save on a single leaf, where they
      agree exactly when that leaf is a fixed point of hashing it with itself. */
  lemma RootsAgree(h: Hash, items: seq<ByteString>)
    ensures LeavesRoot(h, LeafHashes(h, items)) == ItemsRoot(h, items) <==>
              (|items| == 1 ==> h(Pair(h(items[0]), h(items[0]))) == h(items[0]))
  {
    hide LeafHashes, Pair;
  }

  // ---- Paths ----

  /** What node `i` of a level is hashed into: with its right neighbour at an even position, its
      left neighbour at an odd one, itself at an unpaired end. */
  function StepUp(h: Hash, level: seq<Digest>, i: nat, node: Digest): Digest
    requires i < |level|
  {
    if i % 2 == 1 then h(level[i - 1] + node)
    else if i + 1 < |level| then h(node + level[i + 1])
    else h(node + node)
  }

  /** The end of the path up from `node` at position `i` of a level. */
  function ClimbTo(h: Hash, level: seq<Digest>, i: nat, node: Digest): Digest
    requires i < |level|
    decreases |level|
  {
    if |level| == 1 then node else ClimbTo(h, NextLevel(h, level), i / 2, StepUp(h, level, i, node))
  }

  lemma {:induction false} PathReachesFold(h: Hash, level: seq<Digest>, i: nat)
    requires i < |level|
    ensures ClimbTo(h, level, i, level[i]) == Fold(h, level)
    ensures NextLevel(h, level)[i / 2] == StepUp(h, level, i, level[i])
    decreases |level|
  {
    assert NextLevel(h, level)[i / 2] == h(PairAt(level, i / 2));
    if |level| > 1 {
      PathReachesFold(h, NextLevel(h, level), i / 2);
    }
  }

  /** From every leaf the path of hashes, each over left then right, ends in the root, in both
      roots; one leaf is hashed with itself in the one and is the root in the other. */
  lemma PathReachesRoot(h: Hash, items: seq<ByteString>, i: nat)
    requires i < |items|
    ensures var leaves := LeafHashes(h, items);
            && leaves[i] == h(items[i])
            && ClimbTo(h, leaves, i, leaves[i]) == ItemsRoot(h, items)
            && LeavesRoot(h, leaves) ==
               (if |items| == 1 then StepUp(h, leaves, 0, leaves[0]) else ClimbTo(h, leaves, i, leaves[i]))
    ensures ItemsRoot(h, []) == ZERO_DIGEST && LeavesRoot(h, []) == ZERO_DIGEST
  {
    hide Fold, ClimbTo, LeafHashes;
    PathReachesFold(h, LeafHashes(h, items), i);
  }

  // ---- Binding ----

  lemma PairInjective(a: Digest, b: Digest, c: Digest, d: Digest)
    requires Pair(a, b) == Pair(c, d)
    ensures a == c && b == d
  {
    assert Pair(a, b)[..32] == a && Pair(a, b)[32..] == b;
    assert Pair(c, d)[..32] == c && Pair(c, d)[32..] == d;
  }

  lemma NextLevelNoDuplicates(h: Hash, level: seq<Digest>)
    requires NoDuplicates(level)
    ensures NoDuplicates(NextLevel(h, level)) || Collision(h, PairInputs(level))
  {
    var next := NextLevel(h, level);
    if i, j :| 0 <= i < j < |next| && next[i] == next[j] {
      var x, y := PairAt(level, i), PairAt(level, j);
      assert x in PairInputs(level) && y in PairInputs(level);
      assert h(x) == h(y);
      if x == y {
        PairInjective(level[2 * i], x[32..], level[2 * j], y[32..]);
      }
    }
  }

  /** Equal next levels come from equal levels, or a collision. */
  lemma NextLevelInjective(h: Hash, a: seq<Digest>, b: seq<Digest>)
    requires NextLevel(h, a) == NextLevel(h, b)
    requires |a| == |b| || (NoDuplicates(a) && NoDuplicates(b))
    ensures a == b || Collision(h, PairInputs(a) + PairInputs(b))
  {
    if !Collision(h, PairInputs(a) + PairInputs(b)) {
      var n := (|a| + 1) / 2;
      forall i | 0 <= i < n
        ensures a[2 * i] == b[2 * i] && SecondOfPair(a, i) == SecondOfPair(b, i)
      {
        assert PairAt(a, i) in PairInputs(a) && PairAt(b, i) in PairInputs(b);
        assert NextLevel(h, a)[i] == NextLevel(h, b)[i];
        PairInjective(a[2 * i], SecondOfPair(a, i), b[2 * i], SecondOfPair(b, i));
      }
      if n > 0 {
        var u, v := SecondOfPair(a, n - 1), SecondOfPair(b, n - 1);
        assert u == v;
      }
      assert |a| == |b|;
      forall k | 0 <= k < |a|
        ensures a[k] == b[k]
      {
        assert k == 2 * (k / 2) || k == 2 * (k / 2) + 1;
        assert SecondOfPair(a, k / 2) == SecondOfPair(b, k / 2);
      }
    }
  }

  /** Trees of one depth with equal roots have equal leaves, or a collision. */
  lemma {:induction false} FoldInjective(h: Hash, a: seq<Digest>, b: seq<Digest>)
    requires a != [] && b != [] && Depth(|a|) == Depth(|b|)
    requires |a| == |b| || (NoDuplicates(a) && NoDuplicates(b))
    requires Fold(h, a) == Fold(h, b)
    ensures a == b || Collision(h, FoldInputs(h, a) + FoldInputs(h, b))
    decreases |a|
  {
    if |a| > 1 {
      var all := FoldInputs(h, a) + FoldInputs(h, b);
      var a', b' := NextLevel(h, a), NextLevel(h, b);
      if |a| != |b| {
        NextLevelNoDuplicates(h, a);
        NextLevelNoDuplicates(h, b);
      }
      if Collision(h, PairInputs(a)) || Collision(h, PairInputs(b)) {
        CollisionGrows(h, if Collision(h, PairInputs(a)) then PairInputs(a) else PairInputs(b), all);
      } else {
        FoldInjective(h, a', b');
        if a' == b' {
          NextLevelInjective(h, a, b);
          if a != b {
            CollisionGrows(h, PairInputs(a) + PairInputs(b), all);
          }
        } else {
          CollisionGrows(h, FoldInputs(h, a') + FoldInputs(h, b'), all);
        }
      }
    }
  }

  /** `merkle_root` on equally many leaves: the same root means the same leaves, or a collision. */
  lemma LeavesRootBinding(h: Hash, a: seq<Digest>, b: seq<Digest>)
    requires |a| == |b| && LeavesRoot(h, a) == LeavesRoot(h, b)
    ensures a == b || Collision(h, LeavesRootInputs(h, a) + LeavesRootInputs(h, b))
  {
    if |a| == 1 {
      var x, y := Pair(a[0], a[0]), Pair(b[0], b[0]);
      if x == y {
        PairInjective(a[0], a[0], b[0], b[0]);
      }
      assert x in LeavesRootInputs(h, a) && y in LeavesRootInputs(h, b);
    } else if |a| > 1 {
      FoldInjective(h, a, b);
    }
  }

  ghost function LeavesRootInputs(h: Hash, leaves: seq<Digest>): set<ByteString> {
    if |leaves| == 1 then {Pair(leaves[0], leaves[0])} else FoldInputs(h, leaves)
  }

  // ---- Lists of any two lengths ----

  /** The level `k` steps above `level`. */
  function Up(h: Hash, level: seq<Digest>, k: nat): (up: seq<Digest>)
    decreases k
  {
    if k == 0 then level else Up(h, NextLevel(h, level), k - 1)
  }

  lemma {:induction false} UpShape(h: Hash, level: seq<Digest>, k: nat)
    requires level != [] && k <= Depth(|level|)
    ensures Up(h, level, k) != [] && Depth(|Up(h, level, k)|) == Depth(|level|) - k
    ensures Fold(h, Up(h, level, k)) == Fold(h, level)
    ensures FoldInputs(h, Up(h, level, k)) <= FoldInputs(h, level)
    ensures k > 0 ==> exists x :: x in FoldInputs(h, level) && |x| == 64 && h(x) == Up(h, level, k)[0]
    decreases k
  {
    hide PairAt, PairInputs;
    if k > 0 {
      assert NextLevel(h, level)[0] == h(PairAt(level, 0));
      PairInputsMember(level, 0);
      UpShape(h, NextLevel(h, level), k - 1);
    }
  }

  lemma PairInputsMember(level: seq<Digest>, i: nat)
    requires i < (|level| + 1) / 2
    ensures PairAt(level, i) in PairInputs(level)
  {}

  lemma {:induction false} UpNoDuplicates(h: Hash, level: seq<Digest>, k: nat)
    requires level != [] && NoDuplicates(level) && k <= Depth(|level|)
    ensures NoDuplicates(Up(h, level, k)) || Collision(h, FoldInputs(h, level))
    decreases k
  {
    hide NextLevel, PairInputs, Collision, NoDuplicates;
    if k > 0 {
      var next := NextLevel(h, level);
      NextLevelNoDuplicates(h, level);
      if NoDuplicates(next) {
        UpNoDuplicates(h, next, k - 1);
        if Collision(h, FoldInputs(h, next)) {
          CollisionGrows(h, FoldInputs(h, next), FoldInputs(h, level));
        }
      } else {
        CollisionGrows(h, PairInputs(level), FoldInputs(h, level));
      }
    }
  }

  /** Everything hashed by `compute_merkle_root`: the items and the inner nodes. */
  ghost function ItemsRootInputs(h: Hash, items: seq<ByteString>): set<ByteString> {
    (set x | x in items) + FoldInputs(h, LeafHashes(h, items))
  }

  lemma LeafHashesNoDuplicates(h: Hash, items: seq<ByteString>)
    requires NoDuplicates(items)
    ensures NoDuplicates(LeafHashes(h, items)) || Collision(h, ItemsRootInputs(h, items))
  {
    var leaves := LeafHashes(h, items);
    if i, j :| 0 <= i < j < |leaves| && leaves[i] == leaves[j] {
      assert items[i] in ItemsRootInputs(h, items) && items[j] in ItemsRootInputs(h, items);
    }
  }

  lemma ItemsBindingOrdered(h: Hash, a: seq<ByteString>, b: seq<ByteString>)
    requires a != [] && b != [] && Depth(|a|) <= Depth(|b|)
    requires NoDuplicates(a) && NoDuplicates(b)
    requires forall x :: x in a ==> |x| != 64
    requires ItemsRoot(h, a) == ItemsRoot(h, b)
    ensures a == b || Collision(h, ItemsRootInputs(h, a) + ItemsRootInputs(h, b))
  {
    hide Fold, FoldInputs, Up, Collision, NoDuplicates, LeafHashes, Depth;
    var all := ItemsRootInputs(h, a) + ItemsRootInputs(h, b);
    var la, lb := LeafHashes(h, a), LeafHashes(h, b);
    var k := Depth(|b|) - Depth(|a|);
    var up := Up(h, lb, k);
    if !Collision(h, all) {
      LeafLevelNoDuplicates(h, a, all);
      LeafLevelNoDuplicates(h, b, all);
      UpShape(h, lb, k);
      UpNoDuplicates(h, lb, k);
      if Collision(h, FoldInputs(h, lb)) {
        CollisionGrows(h, FoldInputs(h, lb), all);
      }
      FoldInjective(h, la, up);
      if la != up {
        CollisionGrows(h, FoldInputs(h, la) + FoldInputs(h, up), all);
      }
      if k > 0 {
        var x :| x in FoldInputs(h, lb) && |x| == 64 && h(x) == up[0];
        assert a[0] in a;
        NoCollision(h, all, a[0], x);
      }
      UpNone(h, lb);
      forall i | 0 <= i < |a|
        ensures a[i] == b[i]
      {
        assert a[i] in a && b[i] in b;
        NoCollision(h, all, a[i], b[i]);
      }
    }
  }

  lemma UpNone(h: Hash, level: seq<Digest>)
    ensures Up(h, level, 0) == level
  {}

  lemma LeafLevelNoDuplicates(h: Hash, items: seq<ByteString>, all: set<ByteString>)
    requires NoDuplicates(items) && ItemsRootInputs(h, items) <= all && !Collision(h, all)
    ensures NoDuplicates(LeafHashes(h, items))
  {
    hide FoldInputs, LeafHashes;
    LeafHashesNoDuplicates(h, items);
    if Collision(h, ItemsRootInputs(h, items)) {
      CollisionGrows(h, ItemsRootInputs(h, items), all);
    }
  }

  /** Two non-empty lists of pairwise distinct items, none 64 bytes long, with the same
      root are the same list, or two different hashed strings share a digest. */
  lemma ItemsRootBinding(h: Hash, a: seq<ByteString>, b: seq<ByteString>)
    requires a != [] && b != []
    requires NoDuplicates(a) && NoDuplicates(b)
    requires forall x :: x in a || x in b ==> |x| != 64
    requires ItemsRoot(h, a) == ItemsRoot(h, b)
    ensures a == b || Collision(h, ItemsRootInputs(h, a) + ItemsRootInputs(h, b))
  {
    if Depth(|a|) <= Depth(|b|) {
      ItemsBindingOrdered(h, a, b);
    } else {
      ItemsBindingOrdered(h, b, a);
    }
  }

  /** Without distinctness the root does not bind: repeating the last of any odd number of
      items from three on leaves it unchanged. */
  lemma DuplicatedTailSameRoot(h: Hash, items: seq<ByteString>)
    requires |items| % 2 == 1 && |items| >= 3
    ensures ItemsRoot(h, items + [items[|items| - 1]]) == ItemsRoot(h, items)
  {
    var longer := items + [items[|items| - 1]];
    var a, b := LeafHashes(h, items), LeafHashes(h, longer);
    forall i | 0 <= i < (|items| + 1) / 2
      ensures PairAt(a, i) == PairAt(b, i)
    {
      assert longer[2 * i] == items[2 * i];
    }
    assert NextLevel(h, a) == NextLevel(h, b);
  }
}
