/** GF(2^8) with modulus x^8 + x^4 + x^3 + x + 1 (0x11B), the field of section 4.2 of FIPS
    197, bit by bit: shift-and-xor multiplication, and the powers of the generator 3. */
module Gf256Bits {

  /** A byte as its eight bits, `b0` the least significant. */
  datatype Elem = E(b0: bool, b1: bool, b2: bool, b3: bool, b4: bool, b5: bool, b6: bool, b7: bool)

  const Zero := E(false, false, false, false, false, false, false, false)
  const One := E(true, false, false, false, false, false, false, false)

  /** The number with low bit `b` and remaining bits `rest`. */
  function Push(b: bool, rest: nat): nat { (if b then 1 else 0) + 2 * rest }

  lemma PushInjective(x: bool, m: nat, y: bool, n: nat)
    requires Push(x, m) == Push(y, n)
    ensures x == y && m == n
  {}

  function ToNat(a: Elem): nat {
    Push(a.b0, Push(a.b1, Push(a.b2, Push(a.b3, Push(a.b4, Push(a.b5, Push(a.b6, Push(a.b7, 0))))))))
  }

  function OfNat(n: nat): Elem {
    var n1 := n / 2; var n2 := n1 / 2; var n3 := n2 / 2; var n4 := n3 / 2;
    var n5 := n4 / 2; var n6 := n5 / 2; var n7 := n6 / 2;
    E(n % 2 == 1, n1 % 2 == 1, n2 % 2 == 1, n3 % 2 == 1, n4 % 2 == 1, n5 % 2 == 1, n6 % 2 == 1, n7 % 2 == 1)
  }

  lemma ToNatBound(a: Elem)
    ensures ToNat(a) < 256
  {
    var a6 := Push(a.b6, Push(a.b7, 0));
    var a4 := Push(a.b4, Push(a.b5, a6));
    var a2 := Push(a.b2, Push(a.b3, a4));
    assert a6 < 4 && a4 < 16 && a2 < 64;
  }

  lemma ToNatInjective(a: Elem, b: Elem)
    requires ToNat(a) == ToNat(b)
    ensures a == b
  {
    hide Push;
    var p7, q7 := Push(a.b7, 0), Push(b.b7, 0);
    var p6, q6 := Push(a.b6, p7), Push(b.b6, q7);
    var p5, q5 := Push(a.b5, p6), Push(b.b5, q6);
    var p4, q4 := Push(a.b4, p5), Push(b.b4, q5);
    var p3, q3 := Push(a.b3, p4), Push(b.b3, q4);
    var p2, q2 := Push(a.b2, p3), Push(b.b2, q3);
    var p1, q1 := Push(a.b1, p2), Push(b.b1, q2);
    PushInjective(a.b0, p1, b.b0, q1);
    PushInjective(a.b1, p2, b.b1, q2);
    PushInjective(a.b2, p3, b.b2, q3);
    PushInjective(a.b3, p4, b.b3, q4);
    PushInjective(a.b4, p5, b.b4, q5);
    PushInjective(a.b5, p6, b.b5, q6);
    PushInjective(a.b6, p7, b.b6, q7);
    PushInjective(a.b7, 0, b.b7, 0);
  }

  lemma PushHalf(n: nat)
    ensures Push(n % 2 == 1, n / 2) == n
  {}

  lemma OfNatToNat(n: nat)
    requires n < 256
    ensures ToNat(OfNat(n)) == n
  {
    hide Push;
    var n1 := n / 2; var n2 := n1 / 2; var n3 := n2 / 2; var n4 := n3 / 2;
    var n5 := n4 / 2; var n6 := n5 / 2; var n7 := n6 / 2;
    PushHalf(n); PushHalf(n1); PushHalf(n2); PushHalf(n3);
    PushHalf(n4); PushHalf(n5); PushHalf(n6); PushHalf(n7);
  }

  function Add(a: Elem, b: Elem): Elem {
    E(a.b0 != b.b0, a.b1 != b.b1, a.b2 != b.b2, a.b3 != b.b3,
      a.b4 != b.b4, a.b5 != b.b5, a.b6 != b.b6, a.b7 != b.b7)
  }

  lemma AddComm(a: Elem, b: Elem)
    ensures Add(a, b) == Add(b, a)
  {}

  lemma AddAssoc(a: Elem, b: Elem, c: Elem)
    ensures Add(Add(a, b), c) == Add(a, Add(b, c))
  {}

  lemma AddZero(a: Elem)
    ensures Add(a, Zero) == a
    ensures Add(Zero, a) == a
    ensures Add(a, a) == Zero
  {}

  lemma AddSwap(p: Elem, q: Elem, r: Elem, s: Elem)
    ensures Add(Add(p, q), Add(r, s)) == Add(Add(p, r), Add(q, s))
  {}

  // ---- Reference multiplication: shift and xor, one bit of `b` at a time ----

  /** Multiplication by x: shift left, and xor 0x1B when the top bit falls out. */
  function XTime(a: Elem): Elem {
    E(a.b7, a.b0 != a.b7, a.b1, a.b2 != a.b7, a.b3 != a.b7, a.b4, a.b5, a.b6)
  }

  function Half(b: Elem): Elem { E(b.b1, b.b2, b.b3, b.b4, b.b5, b.b6, b.b7, false) }

  function Keep(b: bool, a: Elem): Elem { if b then a else Zero }

  function ShiftXor(a: Elem, b: Elem, bits: nat): Elem
    decreases bits, b
  {
    if bits == 0 then Zero
    else Add(Keep(b.b0, a), XTime(ShiftXor(a, Half(b), bits - 1)))
  }

  function ShiftMul(a: Elem, b: Elem): Elem { ShiftXor(a, b, 8) }

  /** Multiplication by the generator 3 = x + 1. */
  function Triple(v: Elem): Elem { Add(XTime(v), v) }

  lemma XTimeLinear(a: Elem, b: Elem)
    ensures XTime(Add(a, b)) == Add(XTime(a), XTime(b))
  {}

  lemma TripleLinear(a: Elem, b: Elem)
    ensures Triple(Add(a, b)) == Add(Triple(a), Triple(b))
  {
    hide Add, XTime;
    XTimeLinear(a, b);
    AddSwap(XTime(a), XTime(b), a, b);
  }

  lemma TripleXTime(a: Elem)
    ensures XTime(Triple(a)) == Triple(XTime(a))
  {
    hide Add, XTime;
    XTimeLinear(XTime(a), a);
  }

  lemma TripleKeep(a: Elem, k: bool)
    ensures Keep(k, Triple(a)) == Triple(Keep(k, a))
  {}

  lemma TripleZero()
    ensures Triple(Zero) == Zero
  {}

  lemma TripleNonZero(a: Elem)
    requires a != Zero
    ensures Triple(a) != Zero
  {}

  lemma KeepLinear(b: Elem, c: Elem, a: Elem)
    ensures Keep(Add(b, c).b0, a) == Add(Keep(b.b0, a), Keep(c.b0, a))
    ensures Half(Add(b, c)) == Add(Half(b), Half(c))
  {}

  lemma {:induction false} ShiftXorTriple(x: Elem, y: Elem, bits: nat)
    ensures ShiftXor(Triple(x), y, bits) == Triple(ShiftXor(x, y, bits))
    decreases bits
  {
    hide Add, Triple, XTime, Half, Keep;
    if bits == 0 {
      TripleZero();
    } else {
      var rest := ShiftXor(x, Half(y), bits - 1);
      ShiftXorTriple(x, Half(y), bits - 1);
      TripleXTime(rest);
      TripleKeep(x, y.b0);
      TripleLinear(Keep(y.b0, x), XTime(rest));
    }
  }

  lemma {:induction false} ShiftXorDistributes(a: Elem, b: Elem, c: Elem, bits: nat)
    ensures ShiftXor(a, Add(b, c), bits) == Add(ShiftXor(a, b, bits), ShiftXor(a, c, bits))
    decreases bits
  {
    hide Add, XTime, Half, Keep;
    if bits == 0 {
      AddZero(Zero);
    } else {
      var p, q := ShiftXor(a, Half(b), bits - 1), ShiftXor(a, Half(c), bits - 1);
      ShiftXorDistributes(a, Half(b), Half(c), bits - 1);
      KeepLinear(b, c, a);
      XTimeLinear(p, q);
      AddSwap(Keep(b.b0, a), Keep(c.b0, a), XTime(p), XTime(q));
    }
  }

  function Halved(y: Elem, times: nat): Elem
    decreases times
  {
    if times == 0 then y else Halved(Half(y), times - 1)
  }

  lemma Rebuild(y: Elem)
    ensures Add(Keep(y.b0, One), XTime(Half(y))) == y
  {}

  lemma {:induction false} ShiftXorOne(y: Elem, bits: nat)
    requires Halved(y, bits) == Zero
    ensures ShiftXor(One, y, bits) == y
    decreases bits
  {
    hide Add, XTime, Half, Keep;
    if bits > 0 {
      ShiftXorOne(Half(y), bits - 1);
      Rebuild(y);
    }
  }

  lemma ShiftMulOne(y: Elem)
    ensures ShiftMul(One, y) == y
  {
    hide ShiftXor;
    assert Halved(Half(Half(Half(Half(y)))), 4) == Zero;
    ShiftXorOne(y, 8);
  }

  // ---- Powers of the generator ----

  function Pow(i: nat): Elem {
    if i == 0 then One else Triple(Pow(i - 1))
  }

  lemma {:induction false} PowNonZero(i: nat)
    ensures Pow(i) != Zero
  {
    hide Triple;
    if i > 0 {
      PowNonZero(i - 1);
      TripleNonZero(Pow(i - 1));
    }
  }

  lemma {:induction false} PowAdd(i: nat, j: nat)
    ensures ShiftMul(Pow(i), Pow(j)) == Pow(i + j)
  {
    hide Triple, ShiftXor;
    if i == 0 {
      ShiftMulOne(Pow(j));
    } else {
      ShiftXorTriple(Pow(i - 1), Pow(j), 8);
      PowAdd(i - 1, j);
    }
  }


  /** Squaring, which is linear in characteristic 2. */
  function Square(a: Elem): Elem {
    E((a.b0 != a.b4) != a.b6,
      (a.b4 != a.b6) != a.b7,
      a.b1 != a.b5,
      ((a.b4 != a.b5) != a.b6) != a.b7,
      (a.b2 != a.b4) != a.b7,
      a.b5 != a.b6,
      a.b3 != a.b5,
      a.b6 != a.b7)
  }

  lemma XorSwap(p: bool, q: bool, r: bool, s: bool)
    ensures ((p != q) != (r != s)) == ((p != r) != (q != s))
  {}

  lemma SquareLinear(a: Elem, b: Elem)
    ensures Square(Add(a, b)) == Add(Square(a), Square(b))
  {
    XorSwap(a.b0, b.b0, a.b4, b.b4);
    XorSwap(a.b0 != a.b4, b.b0 != b.b4, a.b6, b.b6);
    XorSwap(a.b4, b.b4, a.b6, b.b6);
    XorSwap(a.b4 != a.b6, b.b4 != b.b6, a.b7, b.b7);
    XorSwap(a.b1, b.b1, a.b5, b.b5);
    XorSwap(a.b4, b.b4, a.b5, b.b5);
    XorSwap(a.b4 != a.b5, b.b4 != b.b5, a.b6, b.b6);
    XorSwap((a.b4 != a.b5) != a.b6, (b.b4 != b.b5) != b.b6, a.b7, b.b7);
    XorSwap(a.b2, b.b2, a.b4, b.b4);
    XorSwap(a.b2 != a.b4, b.b2 != b.b4, a.b7, b.b7);
    XorSwap(a.b5, b.b5, a.b6, b.b6);
    XorSwap(a.b3, b.b3, a.b5, b.b5);
    XorSwap(a.b6, b.b6, a.b7, b.b7);
  }

  lemma SquareXTime(v: Elem)
    ensures Square(XTime(v)) == XTime(XTime(Square(v)))
  {}

  /** Tripling twice multiplies by x^2 + 1. */
  lemma TripleTwice(v: Elem)
    ensures Triple(Triple(v)) == Add(XTime(XTime(v)), v)
  {
    hide Add, XTime;
    var x := XTime(v);
    XTimeLinear(x, v);
    AddAssoc(XTime(x), x, Add(x, v));
    AddAssoc(x, x, v);
    AddZero(x);
    AddZero(v);
  }

  lemma SquareTriple(v: Elem)
    ensures Square(Triple(v)) == Triple(Triple(Square(v)))
  {
    hide Add, XTime, Square;
    SquareLinear(XTime(v), v);
    SquareXTime(v);
    TripleTwice(Square(v));
  }

  lemma {:induction false} PowDouble(i: nat)
    ensures Pow(2 * i) == Square(Pow(i))
  {
    hide Triple, Square;
    if i == 0 {
      assert Square(One) == One by { SquareOne(); }
    } else {
      PowDouble(i - 1);
      SquareTriple(Pow(i - 1));
      assert Pow(2 * i) == Triple(Pow(2 * i - 1));
    }
  }

  lemma SquareOne()
    ensures Square(One) == One
  {}

  lemma PowOdd(i: nat)
    ensures Pow(2 * i + 1) == Triple(Square(Pow(i)))
  {
    hide Triple, Square;
    PowDouble(i);
  }

  /** Number of elements of the field. */
  const FIELD_SIZE: nat := 256

  function OddPower(v: Elem): Elem { Triple(Square(v)) }

  /** The powers of 3 along the binary expansions of 255, 85 and 51. */
  lemma PowerValues()
    ensures var p15 := OddPower(OddPower(OddPower(OddPower(One))));
            p15 != One && OddPower(OddPower(OddPower(OddPower(p15)))) == One
    ensures OddPower(Square(OddPower(Square(OddPower(Square(OddPower(One))))))) != One
    ensures OddPower(OddPower(Square(Square(OddPower(OddPower(One)))))) != One
  {}

  /** The order of 3 divides the number of non-zero elements. */
  lemma FullOrder(n: nat)
    requires n + 1 == FIELD_SIZE
    ensures Pow(n) == One
  {
    hide Square, Triple;
    PowerValues();
    PowStart();
    PowOdd(0); PowOdd(1); PowOdd(3); PowOdd(7);
    PowOdd(15); PowOdd(31); PowOdd(63); PowOdd(127);
  }

  /** It divides none of the maximal proper divisors 85, 51 and 15. */
  lemma MaximalDivisors(d: nat, p: nat)
    requires (p == 3 || p == 5 || p == 17) && d * p + 1 == FIELD_SIZE
    ensures Pow(d) != One
  {
    hide Square, Triple;
    PowerValues();
    PowStart();
    PowOdd(0);
    if p == 3 {
      PowDouble(1); PowOdd(2); PowDouble(5); PowOdd(10); PowDouble(21); PowOdd(42);
    } else if p == 5 {
      PowOdd(1); PowDouble(3); PowDouble(6); PowOdd(12); PowOdd(25);
    } else {
      PowOdd(1); PowOdd(3); PowOdd(7);
    }
  }

  lemma {:induction false} PowMultiple(e: nat, k: nat)
    requires Pow(e) == One
    ensures Pow(e * k) == One
  {
    hide Pow, ShiftMul;
    if k == 0 {
      PowStart();
      assert e * k == 0;
    } else {
      PowMultiple(e, k - 1);
      assert e * k == e + e * (k - 1);
      PowAdd(e, e * (k - 1));
      ShiftMulOne(One);
    }
  }

  lemma {:induction false} LeastPeriod(d: nat) returns (e: nat)
    requires 0 < d && Pow(d) == One
    ensures 0 < e <= d && Pow(e) == One
    ensures forall k | 0 < k < e :: Pow(k) != One
  {
    hide Pow;
    if k :| 0 < k < d && Pow(k) == One {
      e := LeastPeriod(k);
    } else {
      e := d;
    }
  }

  lemma PeriodDivides(e: nat, n: nat)
    requires 0 < e && Pow(e) == One && n + 1 == FIELD_SIZE
    ensures Pow(n % e) == One
  {
    hide Pow, ShiftMul;
    FullOrder(n);
    PowMultiple(e, n / e);
    PowAdd(e * (n / e), n % e);
    ShiftMulOne(Pow(n % e));
  }

  lemma ProperDivisor(e: nat, q: nat) returns (k: nat, p: nat)
    requires e * q + 1 == FIELD_SIZE && q != 1
    ensures (p == 3 || p == 5 || p == 17) && e * k * p + 1 == FIELD_SIZE
  {
    if e <= 15 {
      assert e == 1 || e == 3 || e == 5 || e == 15;
      k, p := 15 / e, 17;
    } else {
      assert e * q == 255;
      assert q >= 16 ==> e * q >= 16 * q;
      assert q == 3 || q == 5 || q == 15;
      k, p := if q == 15 then 3 else 1, if q == 3 then 3 else 5;
    }
  }

  /** Every exponent 0 < d < 255 gives a power different from 1. */
  lemma PowOrder(d: nat)
    requires 0 < d && d + 1 < FIELD_SIZE
    ensures Pow(d) != One
  {
    hide Pow, ShiftMul;
    if Pow(d) == One {
      var e := LeastPeriod(d);
      var n := FIELD_SIZE - 1;
      PeriodDivides(e, n);
      var q := n / e;
      assert n == e * q + n % e;
      assert e * q == n;
      assert q != 1;
      var k, p := ProperDivisor(e, q);
      PowMultiple(e, k);
      MaximalDivisors(e * k, p);
    }
  }

  lemma PowInjective(i: nat, j: nat)
    requires i < j && j + 1 < FIELD_SIZE
    ensures Pow(i) != Pow(j)
  {
    hide Pow, ShiftMul;
    var n := FIELD_SIZE - 1;
    FullOrder(n);
    PowAdd(n - j, i);
    PowAdd(n - j, j);
    PowOrder(n - j + i);
  }

  // ---- The 255 powers exhaust the non-zero elements ----

  function PowersBelow(n: nat): set<nat> {
    if n == 0 then {} else PowersBelow(n - 1) + {ToNat(Pow(n - 1))}
  }

  lemma {:induction false} PowersBelowMembers(n: nat, x: nat)
    ensures x in PowersBelow(n) <==> exists i :: 0 <= i < n && x == ToNat(Pow(i))
  {
    hide ToNat, Pow;
    if n > 0 {
      PowersBelowMembers(n - 1, x);
      assert x == ToNat(Pow(n - 1)) ==> exists i :: 0 <= i < n && x == ToNat(Pow(i));
    }
  }

  lemma {:induction false} PowersBelowSize(n: nat)
    requires n <= 255
    ensures |PowersBelow(n)| == n
  {
    hide ToNat, Pow;
    if n > 0 {
      PowersBelowSize(n - 1);
      var x := ToNat(Pow(n - 1));
      PowersBelowMembers(n - 1, x);
      if i :| 0 <= i < n - 1 && x == ToNat(Pow(i)) {
        ToNatInjective(Pow(i), Pow(n - 1));
        PowInjective(i, n - 1);
      }
    }
  }

  lemma {:induction false} BoundedSetSize(s: set<nat>, n: nat)
    requires forall x :: x in s ==> 1 <= x <= n
    ensures |s| <= n
  {
    if n == 0 {
      assert s == {};
    } else {
      BoundedSetSize(s - {n}, n - 1);
      assert |s - {n}| >= |s| - 1;
    }
  }

  lemma ToNatZero(a: Elem)
    ensures ToNat(a) == 0 <==> a == Zero
  {
    hide ToNat;
    assert ToNat(Zero) == 0 by { OfNatToNat(0); ToNatOfZero(); }
    if ToNat(a) == 0 {
      ToNatInjective(a, Zero);
    }
  }

  lemma ToNatOfZero()
    ensures OfNat(0) == Zero
  {}

  lemma LogExists(a: Elem) returns (i: nat)
    requires a != Zero
    ensures i + 1 < FIELD_SIZE && Pow(i) == a
  {
    hide ToNat, Pow;
    var x, n := ToNat(a), FIELD_SIZE - 1;
    var all := PowersBelow(n);
    PowersBelowSize(n);
    if x !in all {
      forall y | y in all + {x}
        ensures 1 <= y <= n
      {
        PowersBelowMembers(n, y);
        var b: Elem :| y == ToNat(b) && b != Zero by {
          if y == x {
            assert y == ToNat(a);
          } else {
            var k :| 0 <= k < n && y == ToNat(Pow(k));
            PowNonZero(k);
          }
        }
        ToNatBound(b);
        ToNatZero(b);
      }
      assert |all + {x}| == n + 1;
      BoundedSetSize(all + {x}, n);
    }
    PowersBelowMembers(n, x);
    i :| 0 <= i < n && x == ToNat(Pow(i));
    ToNatInjective(a, Pow(i));
  }

  lemma {:induction false} ShiftXorZero(b: Elem, bits: nat)
    ensures ShiftXor(Zero, b, bits) == Zero
    decreases bits
  {
    if bits > 0 {
      ShiftXorZero(Half(b), bits - 1);
    }
  }

  lemma {:induction false} ShiftXorNone(a: Elem, bits: nat)
    ensures ShiftXor(a, Zero, bits) == Zero
    decreases bits
  {
    if bits > 0 {
      ShiftXorNone(a, bits - 1);
    }
  }

  lemma OfNatOfToNat(a: Elem)
    ensures OfNat(ToNat(a)) == a
  {
    hide OfNat, ToNat;
    ToNatBound(a);
    OfNatToNat(ToNat(a));
    ToNatInjective(OfNat(ToNat(a)), a);
  }

  lemma PowStart()
    ensures Pow(0) == One && ToNat(One) == 1
  {}

  // ---- Exclusive or, and multiplication by the generator, on integers ----

  /** Bitwise exclusive or of integers. */
  function Xor(m: nat, n: nat): nat
    decreases m + n
  {
    if m + n == 0 then 0 else Push(m % 2 != n % 2, Xor(m / 2, n / 2))
  }

  lemma XorPush(x: bool, m: nat, y: bool, n: nat)
    ensures Xor(Push(x, m), Push(y, n)) == Push(x != y, Xor(m, n))
  {
    var a, b := Push(x, m), Push(y, n);
    assert a / 2 == m && b / 2 == n && a % 2 == (if x then 1 else 0) && b % 2 == (if y then 1 else 0);
    assert Xor(0, 0) == 0;
  }

  const MODULUS: nat := 0x11B

  /** The step of the table loop on 16-bit integers. */
  function IntegerStep(val: nat): nat {
    var shifted := Xor(2 * val, val);
    if shifted >= 256 then Xor(shifted, MODULUS) else shifted
  }

  lemma ToNatHalf(a: Elem)
    ensures ToNat(a) == Push(a.b0, ToNat(Half(a)))
  {
    assert Push(false, 0) == 0;
  }

  /** Addition of elements is exclusive or of the integers they stand for. */
  lemma {:induction false} AddIsXor(a: Elem, b: Elem, bits: nat)
    requires Halved(a, bits) == Zero && Halved(b, bits) == Zero
    ensures Xor(ToNat(a), ToNat(b)) == ToNat(Add(a, b))
    decreases bits
  {
    hide Push, Half, ToNat, Xor, Add;
    if bits == 0 {
      ToNatZero(Zero);
      XorZero();
      AddZero(Zero);
    } else {
      AddIsXor(Half(a), Half(b), bits - 1);
      KeepLinear(a, b, Zero);
      AddLowBit(a, b);
      ToNatHalf(a);
      ToNatHalf(b);
      ToNatHalf(Add(a, b));
      XorPush(a.b0, ToNat(Half(a)), b.b0, ToNat(Half(b)));
    }
  }

  lemma AddLowBit(a: Elem, b: Elem)
    ensures Add(a, b).b0 == (a.b0 != b.b0)
  {}

  lemma XorZero()
    ensures Xor(0, 0) == 0
  {}

  lemma ByteXor(a: Elem, b: Elem)
    ensures Xor(ToNat(a), ToNat(b)) == ToNat(Add(a, b))
  {
    hide Xor, ToNat, Add;
    assert Halved(Half(Half(Half(Half(a)))), 4) == Zero;
    assert Halved(Half(Half(Half(Half(b)))), 4) == Zero;
    AddIsXor(a, b, 8);
  }

  lemma TopBit(a: Elem)
    ensures ToNat(a) >= 128 <==> a.b7
  {
    var a4 := Push(a.b4, Push(a.b5, Push(a.b6, Push(a.b7, 0))));
    var a2 := Push(a.b2, Push(a.b3, a4));
    assert a4 >= 8 <==> a.b7;
    assert a2 >= 32 <==> a.b7;
  }

  /** The modulus without its low bit. */
  const MODULUS_HALF := E(true, false, true, true, false, false, false, true)

  lemma TripleLow(a: Elem)
    ensures Triple(a).b0 == (a.b0 != a.b7) && Add(a, Half(a)).b7 == a.b7
    ensures MODULUS == Push(true, ToNat(MODULUS_HALF))
  {}

  lemma TripleHigh(a: Elem)
    ensures Half(Triple(a)) == Add(Add(a, Half(a)), Keep(a.b7, MODULUS_HALF))
  {}

  /** The integer step multiplies by the generator: it shifts, xors, and on a result of 256 or
      more xors the modulus 0x11B. */
  lemma IntegerStepIsTriple(a: Elem)
    ensures IntegerStep(ToNat(a)) == ToNat(Triple(a))
  {
    hide Add, Half, Xor, ToNat, Triple;
    var v, mixed := ToNat(a), Add(a, Half(a));
    TripleLow(a);
    TripleHigh(a);
    AddZero(mixed);
    ToNatHalf(a);
    XorPush(false, v, a.b0, ToNat(Half(a)));
    ByteXor(a, Half(a));
    TopBit(mixed);
    if a.b7 {
      XorPush(a.b0, ToNat(mixed), true, ToNat(MODULUS_HALF));
      ByteXor(mixed, MODULUS_HALF);
    }
    ToNatHalf(Triple(a));
  }
}
