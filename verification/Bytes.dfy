/** Byte strings, fixed-width integers, digests and optional values. */
module Bytes {

  datatype Option<T> = None | Some(value: T) {
    predicate IsFailure() { None? }
    function PropagateFailure<U>(): Option<U>
      requires None?
    {
      None
    }
    function Extract(): T
      requires Some?
    {
      value
    }
  }

  type byte = x: int | 0 <= x < 256
  type ByteString = seq<byte>

  type u64 = x: int | 0 <= x < 0x1_0000_0000_0000_0000
  const U64_LIMIT: int := 0x1_0000_0000_0000_0000

  /** Release builds wrap on overflow. */
  function WrapAdd(a: u64, b: u64): u64 { (a + b) % U64_LIMIT }

  const ZERO_DIGEST: ByteString := [
    0, 0, 0, 0, 0, 0, 0, 0, 0, 0, 0, 0, 0, 0, 0, 0,
    0, 0, 0, 0, 0, 0, 0, 0, 0, 0, 0, 0, 0, 0, 0, 0]
  type Digest = d: ByteString | |d| == 32 witness ZERO_DIGEST

  /** A hash function; every theorem holds for all of them. */
  type Hash = ByteString -> Digest

  ghost predicate NoDuplicates<T>(s: seq<T>) {
    forall i, j :: 0 <= i < j < |s| ==> s[i] != s[j]
  }

  lemma SubsetSize<T>(a: set<T>, b: set<T>)
    requires a <= b
    ensures |a| <= |b|
  {
    assert b == a + (b - a);
  }

  /** Two different inputs among `inputs` with the same digest. */
  ghost predicate Collision(h: Hash, inputs: set<ByteString>) {
    exists x, y :: x in inputs && y in inputs && x != y && h(x) == h(y)
  }

  /** A collision, or an input whose digest is the all-zero sentinel. */
  ghost predicate Broken(h: Hash, inputs: set<ByteString>) {
    Collision(h, inputs) || exists x :: x in inputs && h(x) == ZERO_DIGEST
  }

  lemma CollisionGrows(h: Hash, small: set<ByteString>, large: set<ByteString>)
    requires small <= large && Collision(h, small)
    ensures Collision(h, large)
  {}

  lemma NoCollision(h: Hash, inputs: set<ByteString>, x: ByteString, y: ByteString)
    requires !Collision(h, inputs) && x in inputs && y in inputs && h(x) == h(y)
    ensures x == y
  {}

  // ---- Little- and big-endian encodings ----

  function Power256(w: nat): nat {
    if w == 0 then 1 else 256 * Power256(w - 1)
  }

  function LittleEndian(n: nat, w: nat): (s: ByteString)
    ensures |s| == w
  {
    if w == 0 then [] else [n % 256] + LittleEndian(n / 256, w - 1)
  }

  function FromLittleEndian(s: ByteString): nat {
    if s == [] then 0 else s[0] + 256 * FromLittleEndian(s[1..])
  }

  lemma DivideTwice(n: nat, a: nat)
    requires a > 0
    ensures n / 256 / a == n / (256 * a)
  {
    var q, r := n / 256, n % 256;
    var m, t := q / a, q % a;
    assert n == 256 * a * m + (256 * t + r);
    assert 256 * t + r < 256 * a;
    QuotientIs(n, 256 * a, m, 256 * t + r);
  }

  lemma QuotientIs(n: nat, d: nat, q: nat, r: nat)
    requires n == d * q + r && r < d
    ensures n / d == q
  {
    var quotient := n / d;
    assert d * quotient <= n < d * (quotient + 1);
    if quotient > q {
      TimesMonotone(d, q + 1, quotient);
    } else if quotient < q {
      TimesMonotone(d, quotient + 1, q);
    }
  }

  lemma TimesMonotone(d: nat, a: nat, b: nat)
    requires a <= b
    ensures d * a <= d * b
  {}

  lemma {:induction false} PowerPositive(w: nat)
    ensures Power256(w) > 0
  {
    if w > 0 {
      PowerPositive(w - 1);
    }
  }

  /** The least significant byte comes first: byte `i` is the i-th digit to the base 256. */
  lemma {:induction false} LittleEndianDigits(n: nat, w: nat, i: nat)
    requires i < w
    ensures Power256(i) > 0 && LittleEndian(n, w)[i] == n / Power256(i) % 256
  {
    PowerPositive(i);
    if i > 0 {
      LittleEndianDigits(n / 256, w - 1, i - 1);
      DivideTwice(n, Power256(i - 1));
    }
  }

  lemma {:induction false} LittleEndianRoundTrip(n: nat, w: nat)
    requires n < Power256(w)
    ensures FromLittleEndian(LittleEndian(n, w)) == n
  {
    if w > 0 {
      LittleEndianRoundTrip(n / 256, w - 1);
      assert LittleEndian(n, w)[1..] == LittleEndian(n / 256, w - 1);
    }
  }

  lemma {:induction false} FromLittleEndianRoundTrip(s: ByteString)
    ensures FromLittleEndian(s) < Power256(|s|) && LittleEndian(FromLittleEndian(s), |s|) == s
  {
    if s != [] {
      FromLittleEndianRoundTrip(s[1..]);
      assert s == [s[0]] + s[1..];
    }
  }

  lemma U64Width(n: u64)
    ensures n < Power256(8)
  {
    assert Power256(8) == 256 * (256 * (256 * (256 * Power256(4))));
    assert Power256(4) == 256 * (256 * (256 * 256));
  }

  function Le64(n: u64): (s: ByteString)
    ensures |s| == 8
  {
    LittleEndian(n, 8)
  }

  lemma Le64Injective(a: u64, b: u64)
    requires Le64(a) == Le64(b)
    ensures a == b
  {
    hide LittleEndian, FromLittleEndian;
    U64Width(a);
    U64Width(b);
    LittleEndianRoundTrip(a, 8);
    LittleEndianRoundTrip(b, 8);
  }

  function BigEndian(n: nat, w: nat): (s: ByteString)
    ensures |s| == w
  {
    if w == 0 then [] else BigEndian(n / 256, w - 1) + [n % 256]
  }

  /** Strict lexicographic order. */
  predicate Before(s: ByteString, t: ByteString) {
    if t == [] then false
    else if s == [] then true
    else s[0] < t[0] || (s[0] == t[0] && Before(s[1..], t[1..]))
  }

  lemma {:induction false} BeforeTrichotomy(s: ByteString, t: ByteString)
    ensures s == t || Before(s, t) || Before(t, s)
    ensures !(Before(s, t) && Before(t, s)) && !Before(s, s)
  {
    if s != [] && t != [] {
      BeforeTrichotomy(s[1..], t[1..]);
      BeforeTrichotomy(s[1..], s[1..]);
      assert s == [s[0]] + s[1..] && t == [t[0]] + t[1..];
    } else if s != [] {
      BeforeTrichotomy(s[1..], s[1..]);
    }
  }

  lemma {:induction false} BeforeTransitive(s: ByteString, t: ByteString, u: ByteString)
    requires Before(s, t) && Before(t, u)
    ensures Before(s, u)
  {
    if s != [] && s[0] == t[0] == u[0] {
      BeforeTransitive(s[1..], t[1..], u[1..]);
    }
  }

  lemma {:induction false} BeforeAppend(s: ByteString, t: ByteString, x: byte, y: byte)
    requires |s| == |t|
    ensures Before(s + [x], t + [y]) <==> Before(s, t) || (s == t && x < y)
  {
    if s != [] {
      assert (s + [x])[1..] == s[1..] + [x] && (t + [y])[1..] == t[1..] + [y];
      BeforeAppend(s[1..], t[1..], x, y);
      assert s == [s[0]] + s[1..] && t == [t[0]] + t[1..];
    }
  }

  /** Big-endian keys of one width sort bytewise exactly as the numbers do, so a range
      scan over a byte-ordered tree visits block heights in ascending order. */
  lemma {:induction false} BigEndianOrder(a: nat, b: nat, w: nat)
    requires a < Power256(w) && b < Power256(w)
    ensures Before(BigEndian(a, w), BigEndian(b, w)) <==> a < b
    ensures BigEndian(a, w) == BigEndian(b, w) <==> a == b
  {
    if w > 0 {
      BigEndianOrder(a / 256, b / 256, w - 1);
      BeforeAppend(BigEndian(a / 256, w - 1), BigEndian(b / 256, w - 1), a % 256, b % 256);
      var s, t := BigEndian(a, w), BigEndian(b, w);
      assert s[..w - 1] == BigEndian(a / 256, w - 1) && t[..w - 1] == BigEndian(b / 256, w - 1);
      assert s[w - 1] == a % 256 && t[w - 1] == b % 256;
    }
  }
}
