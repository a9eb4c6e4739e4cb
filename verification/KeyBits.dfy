/** Tree keys as bit paths, and the byte keys under which tree nodes are stored. */
module KeyBits {
  import opened Bytes

  const TREE_DEPTH: nat := 256

  type Path = seq<bool>

  function Shr(n: nat, k: nat): (r: nat)
    ensures r <= n
  {
    if k == 0 then n else Shr(n / 2, k - 1)
  }

  function Shl(n: nat, k: nat): nat { if k == 0 then n else 2 * Shl(n, k - 1) }

  /** The `w` low bits of `n`, most significant first. */
  function BitsOf(n: nat, w: nat): (s: Path)
    ensures |s| == w
  {
    if w == 0 then [] else BitsOf(n / 2, w - 1) + [n % 2 == 1]
  }

  lemma {:induction false} BitsOfAt(n: nat, w: nat, j: nat)
    requires j < w
    ensures BitsOf(n, w)[j] == (Shr(n, w - 1 - j) % 2 == 1)
  {
    if j < w - 1 {
      BitsOfAt(n / 2, w - 1, j);
    }
  }

  lemma {:induction false} BitsOfInjective(a: nat, b: nat, w: nat)
    requires Shr(a, w) == Shr(b, w) && BitsOf(a, w) == BitsOf(b, w)
    ensures a == b
  {
    if w > 0 {
      var s, t := BitsOf(a, w), BitsOf(b, w);
      assert s[..w - 1] == BitsOf(a / 2, w - 1) && t[..w - 1] == BitsOf(b / 2, w - 1);
      assert s[w - 1] == (a % 2 == 1) && t[w - 1] == (b % 2 == 1);
      BitsOfInjective(a / 2, b / 2, w - 1);
    }
  }

  /** The top `r` of `w` bits are the bits of the number shifted right. */
  lemma {:induction false} BitsOfTop(n: nat, w: nat, r: nat)
    requires r <= w
    ensures BitsOf(n, w)[..r] == BitsOf(Shr(n, w - r), r)
  {
    if r < w {
      BitsOfTop(n / 2, w - 1, r);
      assert BitsOf(n, w)[..r] == BitsOf(n / 2, w - 1)[..r];
    }
  }

  function ByteBits(b: byte): (s: Path)
    ensures |s| == 8
  {
    BitsOf(b, 8)
  }

  /** All bits of a byte string, most significant bit of the first byte first. */
  function Bits(key: ByteString): (s: Path)
    ensures |s| == 8 * |key|
  {
    if key == [] then [] else ByteBits(key[0]) + Bits(key[1..])
  }

  lemma {:induction false} BitsSplit(key: ByteString, n: nat)
    requires n <= |key|
    ensures Bits(key) == Bits(key[..n]) + Bits(key[n..])
  {
    hide ByteBits;
    if n == 0 {
      assert key[..0] == [] && key[0..] == key;
    } else {
      BitsSplit(key[1..], n - 1);
      assert key[..n][1..] == key[1..][..n - 1] && key[1..][n - 1..] == key[n..];
    }
  }

  lemma MiddleSlice(a: Path, b: Path, c: Path)
    ensures (a + (b + c))[|a|..|a| + |b|] == b
  {}

  lemma BitsHead(key: ByteString)
    requires key != []
    ensures Bits(key) == ByteBits(key[0]) + Bits(key[1..])
  {}

  lemma BitsAt(key: ByteString, i: nat)
    requires i < |key|
    ensures Bits(key)[8 * i..8 * i + 8] == ByteBits(key[i])
  {
    hide ByteBits, Bits;
    BitsSplit(key, i);
    BitsHead(key[i..]);
    MiddleSlice(Bits(key[..i]), ByteBits(key[i]), Bits(key[i..][1..]));
  }

  /** `get_bit` of the source: bit `i`, counted from the most significant bit of byte 0. */
  predicate GetBit(key: ByteString, i: nat)
    requires i < 8 * |key|
  {
    Shr(key[i / 8], 7 - i % 8) % 2 == 1
  }

  lemma GetBitIsBit(key: ByteString, i: nat)
    requires i < 8 * |key|
    ensures GetBit(key, i) == Bits(key)[i]
  {
    hide Bits, BitsOf, Shr;
    BitsAt(key, i / 8);
    BitsOfAt(key[i / 8], 8, i % 8);
    assert Bits(key)[i] == Bits(key)[8 * (i / 8)..8 * (i / 8) + 8][i % 8];
  }

  /** The weight of each bit of a byte, the first bit the heaviest. */
  const WEIGHTS: seq<nat> := [128, 64, 32, 16, 8, 4, 2, 1]

  lemma {:induction false} ShrHalf(n: nat, k: nat)
    ensures Shr(n, k + 1) == Shr(n, k) / 2
  {
    if k > 0 {
      ShrHalf(n / 2, k - 1);
    }
  }

  lemma Halves(b: byte)
    ensures Shr(b, 0) == b && Shr(b, 1) == b / 2 && Shr(b, 2) == b / 4 && Shr(b, 3) == b / 8
    ensures Shr(b, 4) == b / 16 && Shr(b, 5) == b / 32 && Shr(b, 6) == b / 64 && Shr(b, 7) == b / 128
  {
    assert Shr(b, 0) == b;
    hide Shr;
    for k := 0 to 7
      invariant forall j :: 0 <= j < k ==> Shr(b, j + 1) == Shr(b, j) / 2
    {
      ShrHalf(b, k);
    }
    assert Shr(b, 0 + 1) == b / 2;
    assert Shr(b, 1 + 1) == b / 4;
    assert Shr(b, 2 + 1) == b / 8;
    assert Shr(b, 3 + 1) == b / 16;
    assert Shr(b, 4 + 1) == b / 32;
    assert Shr(b, 5 + 1) == b / 64;
    assert Shr(b, 6 + 1) == b / 128;
  }

  lemma ShrExact(b: byte, j: nat)
    requires j < 8
    ensures Shr(b, 7 - j) == b / WEIGHTS[j]
  {
    hide Shr;
    Halves(b);
  }

  /** Bits are counted from the most significant bit of byte 0. */
  lemma BitExact(key: ByteString, i: nat)
    requires i < 8 * |key|
    ensures Bits(key)[i] == (key[i / 8] / WEIGHTS[i % 8] % 2 == 1)
  {
    hide Bits, Shr;
    GetBitIsBit(key, i);
    ShrExact(key[i / 8], i % 8);
  }

  lemma {:induction false} ShrSmall(n: nat, k: nat)
    requires n < Shl(1, k)
    ensures Shr(n, k) == 0
  {
    if k > 0 {
      ShrSmall(n / 2, k - 1);
    }
  }

  lemma ByteFits(b: byte)
    ensures Shr(b, 8) == 0
  {
    assert Shl(1, 8) == 256;
    ShrSmall(b, 8);
  }

  lemma {:induction false} BitsInjective(a: ByteString, b: ByteString)
    requires |a| == |b| && Bits(a) == Bits(b)
    ensures a == b
  {
    hide BitsOf, Shr;
    if a != [] {
      var s, t := Bits(a), Bits(b);
      assert s[..8] == ByteBits(a[0]) && t[..8] == ByteBits(b[0]);
      assert s[8..] == Bits(a[1..]) && t[8..] == Bits(b[1..]);
      ByteFits(a[0]);
      ByteFits(b[0]);
      BitsOfInjective(a[0], b[0], 8);
      BitsInjective(a[1..], b[1..]);
      assert a == [a[0]] + a[1..] && b == [b[0]] + b[1..];
    }
  }

  // ---- Storage keys ----

  lemma {:induction false} ShlShr(n: nat, k: nat)
    ensures Shl(Shr(n, k), k) <= n
  {
    if k > 0 {
      ShlShr(n / 2, k - 1);
    }
  }

  /** `b & (0xFF << (8 - r))`: everything but the `r` top bits cleared. */
  function KeepTop(b: byte, r: nat): byte
    requires 0 < r < 8
  {
    ShlShr(b, 8 - r);
    Shl(Shr(b, 8 - r), 8 - r)
  }

  /** Level as a big-endian u16, then the first `TREE_DEPTH - level` bits of the key packed
      into bytes with the unused bits cleared. */
  function StorageKey(key: Digest, level: nat): ByteString
    requires level <= TREE_DEPTH
  {
    var bits := TREE_DEPTH - level;
    var r := bits % 8;
    [level / 256, level % 256] + (if r == 0 then key[..bits / 8] else key[..bits / 8] + [KeepTop(key[bits / 8], r)])
  }

  /** The key of a leaf's value: "v:" and the tree key. */
  function ValueKey(key: Digest): ByteString { ['v' as int, ':' as int] + key }

  /** Values and nodes share one tree of the database without meeting. */
  lemma ValueKeyApart(k1: Digest, k2: Digest, level: nat)
    requires level <= TREE_DEPTH
    ensures ValueKey(k1) != StorageKey(k2, level)
    ensures ValueKey(k1) == ValueKey(k2) <==> k1 == k2
  {
    assert ValueKey(k1)[0] == 118 && StorageKey(k2, level)[0] <= 1;
    assert ValueKey(k1)[2..] == k1 && ValueKey(k2)[2..] == k2;
  }

  /** `n ^ (1 << k)`. */
  function Flip(n: nat, k: nat): nat
    decreases k
  {
    if k == 0 then (if n % 2 == 1 then n - 1 else n + 1) else 2 * Flip(n / 2, k - 1) + n % 2
  }

  lemma {:induction false} FlipBound(n: nat, w: nat, k: nat)
    requires k < w && n < Shl(1, w)
    ensures Flip(n, k) < Shl(1, w)
    decreases k
  {
    if k > 0 {
      FlipBound(n / 2, w - 1, k - 1);
    }
  }

  lemma FlipHalves(n: nat, k: nat)
    requires k > 0
    ensures Flip(n, k) / 2 == Flip(n / 2, k - 1) && Flip(n, k) % 2 == n % 2
  {}

  lemma {:induction false} FlipBit(n: nat, w: nat, k: nat, j: nat)
    requires k < w && j < w
    ensures BitsOf(Flip(n, k), w)[j] == (BitsOf(n, w)[j] != (j == w - 1 - k))
    decreases k
  {
    if k == 0 {
      assert Flip(n, 0) / 2 == n / 2;
    } else {
      FlipHalves(n, k);
      if j < w - 1 {
        hide Flip;
        FlipBit(n / 2, w - 1, k - 1, j);
      }
    }
  }

  lemma FlipByte(b: byte, k: nat)
    requires k < 8
    ensures Flip(b, k) < 256
    ensures forall j :: 0 <= j < 8 ==> BitsOf(Flip(b, k), 8)[j] == (ByteBits(b)[j] != (j == 7 - k))
  {
    assert Shl(1, 8) == 256;
    FlipBound(b, 8, k);
    forall j | 0 <= j < 8
      ensures BitsOf(Flip(b, k), 8)[j] == (ByteBits(b)[j] != (j == 7 - k))
    {
      FlipBit(b, 8, k, j);
    }
  }

  /** The key with bit `i` flipped. */
  function Flipped(key: Digest, i: nat): Digest
    requires i < TREE_DEPTH
  {
    FlipByte(key[i / 8], 7 - i % 8);
    key[i / 8 := Flip(key[i / 8], 7 - i % 8)]
  }

  lemma FlippedBits(key: Digest, i: nat, j: nat)
    requires i < TREE_DEPTH && j < TREE_DEPTH
    ensures Bits(Flipped(key, i))[j] == (Bits(key)[j] != (j == i))
  {
    hide Bits, BitsOf, Shr, Flip;
    GetBitIsBit(key, j);
    GetBitIsBit(Flipped(key, i), j);
    FlipByte(key[i / 8], 7 - i % 8);
    BitsOfAt(key[j / 8], 8, j % 8);
    BitsOfAt(Flipped(key, i)[j / 8], 8, j % 8);
  }

  lemma {:induction false} ShlInjective(a: nat, b: nat, k: nat)
    requires Shl(a, k) == Shl(b, k)
    ensures a == b
  {
    if k > 0 {
      ShlInjective(a, b, k - 1);
    }
  }

  lemma {:induction false} ShrShr(n: nat, j: nat, k: nat)
    ensures Shr(Shr(n, j), k) == Shr(n, j + k)
  {
    if j > 0 {
      ShrShr(n / 2, j - 1, k);
    }
  }

  lemma KeepTopBits(a: byte, b: byte, r: nat)
    requires 0 < r < 8
    ensures KeepTop(a, r) == KeepTop(b, r) <==> ByteBits(a)[..r] == ByteBits(b)[..r]
  {
    hide Shr, Shl, BitsOf;
    BitsOfTop(a, 8, r);
    BitsOfTop(b, 8, r);
    if KeepTop(a, r) == KeepTop(b, r) {
      ShlInjective(Shr(a, 8 - r), Shr(b, 8 - r), 8 - r);
    }
    if ByteBits(a)[..r] == ByteBits(b)[..r] {
      ShrShr(a, 8 - r, r);
      ShrShr(b, 8 - r, r);
      ByteFits(a);
      ByteFits(b);
      BitsOfInjective(Shr(a, 8 - r), Shr(b, 8 - r), r);
    }
  }

  function Zeros(n: nat): (s: Path)
    ensures |s| == n
  {
    seq(n, _ => false)
  }

  lemma {:induction false} ShlBits(n: nat, k: nat, w: nat)
    requires k <= w
    ensures BitsOf(Shl(n, k), w) == BitsOf(n, w - k) + Zeros(k)
  {
    if k > 0 {
      ShlBits(n, k - 1, w - 1);
      assert Zeros(k) == Zeros(k - 1) + [false];
    }
  }

  lemma KeepTopExact(b: byte, r: nat)
    requires 0 < r < 8
    ensures ByteBits(KeepTop(b, r)) == ByteBits(b)[..r] + Zeros(8 - r)
  {
    hide Shr, Shl, BitsOf, Zeros;
    ShlBits(Shr(b, 8 - r), 8 - r, 8);
    BitsOfTop(b, 8, r);
  }

  /** What a node's storage key says: the level as a big-endian u16, then the bits of the path down to the node,
      filled up with zero bits to whole bytes. */
  lemma StorageKeyLayout(key: Digest, level: nat)
    requires level <= TREE_DEPTH
    ensures var s, n := StorageKey(key, level), TREE_DEPTH - level;
            && |s| == 2 + (n + 7) / 8 && s[..2] == BigEndian(level, 2)
            && Bits(s[2..]) == Bits(key)[..n] + Zeros((n + 7) / 8 * 8 - n)
  {
    hide Bits, KeepTop, Zeros, ByteBits;
    var s, n := StorageKey(key, level), TREE_DEPTH - level;
    assert BigEndian(level / 256, 1) == [] + [level / 256];
    if n % 8 == 0 {
      assert s[2..] == key[..n / 8];
      BitsSplit(key, n / 8);
      assert Zeros(0) == [];
    } else {
      assert s[2..] == key[..n / 8] + [KeepTop(key[n / 8], n % 8)];
      PackedBits(key, n);
    }
  }

  lemma PackedBits(key: Digest, n: nat)
    requires n < 256 && n % 8 != 0
    ensures Bits(key[..n / 8] + [KeepTop(key[n / 8], n % 8)]) == Bits(key)[..n] + Zeros(8 - n % 8)
  {
    hide Bits, KeepTop, Zeros, ByteBits;
    var q, last := n / 8, [KeepTop(key[n / 8], n % 8)];
    BitsSplit(key[..q] + last, q);
    assert (key[..q] + last)[..q] == key[..q] && (key[..q] + last)[q..] == last;
    BitsHead(last);
    assert Bits(last[1..]) == [];
    assert Bits(last) == ByteBits(last[0]);
    KeepTopExact(key[q], n % 8);
    PrefixBits(key, n);
  }

  lemma PrefixBits(key: Digest, n: nat)
    requires n < 256
    ensures Bits(key)[..n] == Bits(key[..n / 8]) + ByteBits(key[n / 8])[..n % 8]
  {
    hide ByteBits;
    BitsSplit(key, n / 8);
    var rest := key[n / 8..];
    assert Bits(rest) == ByteBits(rest[0]) + Bits(rest[1..]);
  }

  /** Node storage keys collide exactly when level and path prefix agree, so storing nodes
      by their bit prefix loses nothing. */
  lemma StorageKeyInjective(k1: Digest, l1: nat, k2: Digest, l2: nat)
    requires l1 <= TREE_DEPTH && l2 <= TREE_DEPTH
    ensures StorageKey(k1, l1) == StorageKey(k2, l2)
       <==> (l1 == l2 && Bits(k1)[..TREE_DEPTH - l1] == Bits(k2)[..TREE_DEPTH - l1])
  {
    hide Bits, ByteBits, KeepTop;
    var s1, s2 := StorageKey(k1, l1), StorageKey(k2, l2);
    if s1 == s2 {
      assert s1[0] == s2[0] && s1[1] == s2[1];
      assert l1 == l2;
    }
    if l1 == l2 {
      SameLevelStorageKeys(k1, k2, l1);
    }
  }

  lemma SameLevelStorageKeys(k1: Digest, k2: Digest, level: nat)
    requires level <= TREE_DEPTH
    ensures StorageKey(k1, level) == StorageKey(k2, level)
       <==> Bits(k1)[..TREE_DEPTH - level] == Bits(k2)[..TREE_DEPTH - level]
  {
    hide Bits, ByteBits, KeepTop;
    var n := TREE_DEPTH - level;
    var q, r := n / 8, n % 8;
    var s1, s2 := StorageKey(k1, level), StorageKey(k2, level);
    assert s1[2..2 + q] == k1[..q] && s2[2..2 + q] == k2[..q];
    if n == 256 {
      assert k1[..q] == k1 && k2[..q] == k2;
      assert Bits(k1)[..n] == Bits(k1) && Bits(k2)[..n] == Bits(k2);
      if Bits(k1) == Bits(k2) {
        BitsInjective(k1, k2);
      }
    } else {
      PrefixBits(k1, n);
      PrefixBits(k2, n);
      var p1, p2 := Bits(k1)[..n], Bits(k2)[..n];
      assert p1[..8 * q] == Bits(k1[..q]) && p2[..8 * q] == Bits(k2[..q]);
      assert p1[8 * q..] == ByteBits(k1[q])[..r] && p2[8 * q..] == ByteBits(k2[q])[..r];
      if p1 == p2 {
        BitsInjective(k1[..q], k2[..q]);
      }
      if r > 0 {
        KeepTopBits(k1[q], k2[q], r);
        assert s1[2 + q] == KeepTop(k1[q], r) && s2[2 + q] == KeepTop(k2[q], r);
      }
    }
  }
}
