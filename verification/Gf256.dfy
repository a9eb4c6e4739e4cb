/** GF(2^8) on bytes, as the source computes it: addition is exclusive or, multiplication
    goes through log/exp tables of the generator 3, filled by loops. */
module Gf256 {
  import opened Bytes
  import B = Gf256Bits

  /** What the operations on bits say of bytes. */
  lemma AddBits(a: byte, b: byte)
    ensures B.Xor(a, b) == B.ToNat(B.Add(B.OfNat(a), B.OfNat(b))) < 256
  {
    hide B.Xor, B.ToNat, B.OfNat, B.Add;
    B.OfNatToNat(a);
    B.OfNatToNat(b);
    B.ByteXor(B.OfNat(a), B.OfNat(b));
    B.ToNatBound(B.Add(B.OfNat(a), B.OfNat(b)));
  }

  lemma StepBits(a: byte)
    ensures B.IntegerStep(a) == B.ToNat(B.Triple(B.OfNat(a))) < 256
  {
    hide B.IntegerStep, B.ToNat, B.OfNat, B.Triple;
    B.OfNatToNat(a);
    B.IntegerStepIsTriple(B.OfNat(a));
    B.ToNatBound(B.Triple(B.OfNat(a)));
  }

  function Add(a: byte, b: byte): byte {
    AddBits(a, b);
    B.Xor(a, b)
  }

  lemma AddAssoc(a: byte, b: byte, c: byte)
    ensures Add(Add(a, b), c) == Add(a, Add(b, c))
  {
    hide B.Xor, B.ToNat, B.OfNat, B.Add;
    var x, y, z := B.OfNat(a), B.OfNat(b), B.OfNat(c);
    AddBits(a, b);
    AddBits(b, c);
    AddBits(Add(a, b), c);
    AddBits(a, Add(b, c));
    B.OfNatOfToNat(B.Add(x, y));
    B.OfNatOfToNat(B.Add(y, z));
    B.AddAssoc(x, y, z);
  }

  lemma AddComm(a: byte, b: byte)
    ensures Add(a, b) == Add(b, a)
  {
    hide B.Xor, B.ToNat, B.OfNat, B.Add;
    AddBits(a, b);
    AddBits(b, a);
    B.AddComm(B.OfNat(a), B.OfNat(b));
  }

  /** Zero is neutral, and every byte is its own opposite and has no other. */
  lemma AddZero(a: byte)
    ensures Add(a, 0) == a && Add(0, a) == a && Add(a, a) == 0
  {
    hide B.Xor, B.ToNat, B.OfNat, B.Add;
    var x := B.OfNat(a);
    AddBits(a, 0);
    AddBits(0, a);
    AddBits(a, a);
    B.OfNatToNat(a);
    B.ToNatOfZero();
    B.ToNatZero(B.Zero);
    B.AddZero(x);
  }

  lemma AddCancel(a: byte, b: byte)
    requires Add(a, b) == 0
    ensures a == b
  {
    hide Add;
    AddAssoc(a, b, b);
    AddZero(a);
    AddZero(b);
  }

  lemma AddSwap(p: byte, q: byte, r: byte, s: byte)
    ensures Add(Add(p, q), Add(r, s)) == Add(Add(p, r), Add(q, s))
  {
    hide Add;
    AddAssoc(p, q, Add(r, s));
    AddAssoc(q, r, s);
    AddComm(q, r);
    AddAssoc(r, q, s);
    AddAssoc(p, r, Add(q, s));
  }

  // ---- Powers of the generator, and the tables ----

  function Pow(i: nat): byte {
    if i == 0 then 1
    else
      StepBits(Pow(i - 1));
      B.IntegerStep(Pow(i - 1))
  }

  lemma {:induction false} PowBits(i: nat)
    ensures Pow(i) == B.ToNat(B.Pow(i)) && B.OfNat(Pow(i)) == B.Pow(i) && Pow(i) != 0
  {
    hide B.IntegerStep, B.ToNat, B.OfNat, B.Triple;
    B.PowStart();
    if i > 0 {
      PowBits(i - 1);
      StepBits(Pow(i - 1));
    }
    B.OfNatOfToNat(B.Pow(i));
    B.PowNonZero(i);
    B.ToNatZero(B.Pow(i));
  }

  /** Number of elements of the field. */
  const FIELD_SIZE := B.FIELD_SIZE

  /** 3 has order exactly 255. */
  lemma PowOrder(d: nat)
    requires 0 < d < FIELD_SIZE
    ensures Pow(d) == 1 <==> d + 1 == FIELD_SIZE
  {
    hide B.Pow, B.ToNat, Pow;
    PowBits(d);
    B.PowStart();
    if d + 1 == FIELD_SIZE {
      B.FullOrder(d);
    } else {
      B.PowOrder(d);
      if Pow(d) == 1 {
        B.ToNatInjective(B.Pow(d), B.One);
      }
    }
  }

  /** Every non-zero byte is exactly one of the first 255 powers. */
  lemma LogUnique(a: byte)
    requires a != 0
    ensures exists i :: 0 <= i < FIELD_SIZE - 1 && Pow(i) == a
    ensures forall i, j | 0 <= i < FIELD_SIZE - 1 && 0 <= j < FIELD_SIZE - 1 && Pow(i) == a && Pow(j) == a :: i == j
  {
    hide Pow, B.Pow, B.ToNat, B.OfNat;
    B.OfNatToNat(a);
    B.ToNatZero(B.OfNat(a));
    var k := B.LogExists(B.OfNat(a));
    PowBits(k);
    forall i, j | 0 <= i < j < FIELD_SIZE - 1
      ensures Pow(i) != Pow(j)
    {
      PowBits(i);
      PowBits(j);
      B.PowInjective(i, j);
    }
  }

  /** Slot `a` of the log table; slot 0 stays 0. */
  function Log(a: byte): (i: nat)
    ensures i < 255 && (a != 0 ==> Pow(i) == a)
  {
    if a == 0 then 0
    else
      LogUnique(a);
      var i :| 0 <= i < FIELD_SIZE - 1 && Pow(i) == a;
      i
  }

  lemma LogZero()
    ensures Log(0) == 0
  {}

  /** Slot `i` of the exp table. */
  function Exp(i: nat): byte {
    if i < 255 then Pow(i) else if i < 510 then Pow(i - 255) else 0
  }

  /** LOG and EXP are inverse, both ways. */
  lemma LogExp(a: byte, i: nat)
    requires i < 255
    ensures Log(Exp(i)) == i
    ensures a != 0 ==> Exp(Log(a)) == a
  {
    hide Pow, Log;
    PowBits(i);
    LogUnique(Pow(i));
  }

  method BuildExpTable() returns (table: array<byte>)
    ensures fresh(table) && table.Length == 512
    ensures forall i :: 0 <= i < 512 ==> table[i] == Exp(i)
  {
    hide B.Xor, Pow;
    PowNext(0);
    table := new byte[512](_ => 0);
    var val := 1;
    var i := 0;
    while i < 255
      invariant 0 <= i <= 255 && val == Pow(i)
      invariant forall k :: 0 <= k < i ==> table[k] == Pow(k)
      invariant forall k :: 0 <= k < i ==> table[k + 255] == Pow(k)
      invariant forall k :: 510 <= k < 512 ==> table[k] == 0
    {
      table[i] := val;
      table[i + 255] := val;
      PowNext(i);
      val := B.Xor(2 * val, val);
      if val >= 256 {
        val := B.Xor(val, B.MODULUS);
      }
      i := i + 1;
    }
    table[255] := table[0];
    forall k | 255 <= k < 510
      ensures table[k] == Pow(k - 255)
    {
      assert table[k] == table[(k - 255) + 255];
    }
  }

  lemma PowNext(i: nat)
    ensures Pow(0) == 1 && Pow(i + 1) == B.IntegerStep(Pow(i))
  {}

  /** Slot `a` of the log table after the first `n` rounds of its loop. */
  ghost predicate Logged(a: byte, n: nat, entry: nat) {
    entry == if a != 0 && Log(a) < n then Log(a) else 0
  }

  lemma LoggedNext(a: byte, i: nat, entry: nat)
    requires i < 255 && Logged(a, i, entry)
    ensures Logged(a, i + 1, if a == Pow(i) then i else entry)
  {
    hide Pow, Log;
    PowBits(i);
    LogUnique(Pow(i));
  }

  method BuildLogTable() returns (table: array<nat>)
    ensures fresh(table) && table.Length == 256
    ensures forall a: byte :: table[a] == Log(a)
  {
    hide Pow, Log;
    var exp := BuildExpTable();
    table := new nat[256](_ => 0);
    var i := 0;
    while i < 255
      invariant 0 <= i <= 255
      invariant forall k :: 0 <= k < 512 ==> exp[k] == Exp(k)
      invariant forall a: byte :: Logged(a, i, table[a])
    {
      ghost var before := table[..];
      table[exp[i]] := i;
      forall a: byte
        ensures Logged(a, i + 1, table[a])
      {
        LoggedNext(a, i, before[a]);
      }
      i := i + 1;
    }
    LogZero();
  }

  // ---- Field operations ----

  function Mul(a: byte, b: byte): byte {
    if a == 0 || b == 0 then 0 else Exp(Log(a) + Log(b))
  }

  /** The source asserts `b != 0`. */
  function Div(a: byte, b: byte): byte
    requires b != 0
  {
    if a == 0 then 0 else Exp(255 + Log(a) - Log(b))
  }

  lemma ExpPow(i: nat)
    requires i < 510
    ensures Exp(i) == Pow(i)
  {
    hide Pow, B.Pow, B.ShiftMul;
    if i >= 255 {
      B.FullOrder(255);
      B.PowAdd(255, i - 255);
      B.ShiftMulOne(B.Pow(i - 255));
      PowBits(i);
      PowBits(i - 255);
    }
  }

  /** Table multiplication is multiplication of polynomials modulo 0x11B. */
  lemma MulIsShiftMul(a: byte, b: byte)
    ensures Mul(a, b) == B.ToNat(B.ShiftMul(B.OfNat(a), B.OfNat(b)))
  {
    hide Pow, Exp, Log, B.Pow, B.ShiftXor, B.ToNat, B.OfNat;
    B.ToNatOfZero();
    B.ToNatZero(B.Zero);
    if a == 0 {
      B.ShiftXorZero(B.OfNat(b), 8);
    } else if b == 0 {
      B.ShiftXorNone(B.OfNat(a), 8);
    } else {
      PowBits(Log(a));
      PowBits(Log(b));
      B.PowAdd(Log(a), Log(b));
      ExpPow(Log(a) + Log(b));
      PowBits(Log(a) + Log(b));
    }
  }

  lemma MulPow(i: nat, j: nat)
    ensures Mul(Pow(i), Pow(j)) == Pow(i + j)
  {
    hide Pow, Mul, B.Pow, B.ShiftMul;
    PowBits(i);
    PowBits(j);
    PowBits(i + j);
    MulIsShiftMul(Pow(i), Pow(j));
    B.PowAdd(i, j);
  }

  lemma MulOne(a: byte)
    ensures Mul(a, 1) == a
  {
    hide Mul, Log;
    if a == 0 {
      MulZero(1);
    } else {
      MulPow(Log(a), 0);
    }
  }

  lemma MulZero(c: byte)
    ensures Mul(c, 0) == 0 && Mul(0, c) == 0
  {}

  lemma MulNonZero(a: byte, b: byte)
    requires a != 0 && b != 0
    ensures Mul(a, b) != 0
  {
    hide Mul, Pow, Log;
    MulPow(Log(a), Log(b));
    PowBits(Log(a) + Log(b));
  }

  lemma MulComm(a: byte, b: byte)
    ensures Mul(a, b) == Mul(b, a)
  {
    hide Log, Exp;
  }

  lemma MulAssoc(a: byte, b: byte, c: byte)
    ensures Mul(Mul(a, b), c) == Mul(a, Mul(b, c))
  {
    hide Mul, Pow, Log;
    if a == 0 || b == 0 || c == 0 {
      MulZero(a);
      MulZero(b);
      MulZero(c);
      MulZero(Mul(a, b));
      MulZero(Mul(b, c));
    } else {
      var i, j, k := Log(a), Log(b), Log(c);
      MulPow(i, j);
      MulPow(j, k);
      MulPow(i + j, k);
      MulPow(i, j + k);
    }
  }

  lemma MulDistributes(a: byte, b: byte, c: byte)
    ensures Mul(a, Add(b, c)) == Add(Mul(a, b), Mul(a, c))
    ensures Mul(Add(b, c), a) == Add(Mul(b, a), Mul(c, a))
  {
    hide Mul, B.Add, B.Xor, B.ShiftXor, B.OfNat, B.ToNat;
    var x, y, z := B.OfNat(a), B.OfNat(b), B.OfNat(c);
    MulIsShiftMul(a, Add(b, c));
    MulIsShiftMul(a, b);
    MulIsShiftMul(a, c);
    AddBits(b, c);
    AddBits(Mul(a, b), Mul(a, c));
    B.OfNatOfToNat(B.Add(y, z));
    B.OfNatOfToNat(B.ShiftMul(x, y));
    B.OfNatOfToNat(B.ShiftMul(x, z));
    B.ShiftXorDistributes(x, y, z, 8);
    MulComm(Add(b, c), a);
    MulComm(b, a);
    MulComm(c, a);
  }

  lemma DivMul(a: byte, b: byte)
    requires b != 0
    ensures Mul(Div(a, b), b) == a
  {
    hide Mul, Pow, Log, Exp;
    if a == 0 {
      MulZero(b);
    } else {
      var d := 255 + Log(a) - Log(b);
      ExpPow(d);
      MulPow(d, Log(b));
      MulPow(255, Log(a));
      PowOrder(255);
      MulComm(1, a);
      MulOne(a);
    }
  }
}
