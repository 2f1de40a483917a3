/** The C `int` of the interpreter: 32-bit two's complement. Mathematical
    integers are unbounded in Dafny, so every place where the C code can leave
    the range of `int` is written out here as an explicit wrap-around. */
module MachineInt {

  const INT_MIN: int := -0x8000_0000
  const INT_MAX: int := 0x7fff_ffff
  const TWO_32: int := 0x1_0000_0000

  type Int32 = x: int | INT_MIN <= x <= INT_MAX

  /** Reduction modulo 2^32 into the signed range: what a 32-bit machine
      keeps of a result that overflowed. */
  function Wrap(x: int): (r: Int32)
    ensures (r - x) % TWO_32 == 0
    ensures INT_MIN <= x <= INT_MAX ==> r == x
  {
    var m := x % TWO_32;
    if m <= INT_MAX then m else m - TWO_32
  }

  /** The truth values of the language: -1 for true, 0 for false. */
  function Truth(b: bool): (r: Int32)
    ensures b <==> r != 0
    ensures r == 0 || r == -1
  {
    if b then -1 else 0
  }

  /** C's `/` and `div()`: the quotient rounded toward zero. A nonzero
      quotient is negative exactly when the operands' signs differ, and a
      dividend smaller than the divisor in magnitude gives 0. */
  function TruncDiv(x: int, y: int): (q: int)
    requires y != 0
    ensures q != 0 ==> (q < 0 <==> (x < 0) != (y < 0))
    ensures (if x < 0 then -x else x) < (if y < 0 then -y else y) ==> q == 0
  {
    var ax := if x < 0 then -x else x;
    var ay := if y < 0 then -y else y;
    SmallQuotient(ax, ay);
    var q := ax / ay;
    if (x < 0) == (y < 0) then q else -q
  }

  /** C's `%` and `div().rem`: the remainder that goes with TruncDiv. It
      differs from the dividend by a multiple of the divisor, and is the
      dividend itself when that is smaller than the divisor in magnitude. */
  function TruncRem(x: int, y: int): (r: int)
    requires y != 0
    ensures (x - r) % y == 0
    ensures (if x < 0 then -x else x) < (if y < 0 then -y else y) ==> r == x
  {
    var q := TruncDiv(x, y);
    MultipleMod(q, y);
    x - q * y
  }

  /** A dividend below the divisor has quotient 0. */
  lemma SmallQuotient(ax: int, ay: int)
    requires 0 <= ax && 0 < ay
    ensures ax < ay ==> ax / ay == 0
  {
    var q := ax / ay;
    assert ax == q * ay + ax % ay && 0 <= ax % ay < ay;
    if ax < ay && q != 0 {
      assert q >= 1;
      MulAtLeast(q, ay);
    }
  }

  /** A multiple of y leaves no remainder. */
  lemma MultipleMod(q: int, y: int)
    requires y != 0
    ensures (q * y) % y == 0
  {
    var m := q * y;
    var k := m / y;
    assert m == k * y + m % y;
    assert (q - k) * y == m % y;
    if q != k {
      var ay := if y < 0 then -y else y;
      if q - k > 0 {
        MulAtLeast(q - k, ay);
      } else {
        MulAtLeast(k - q, ay);
      }
      assert false;
    }
  }

  /** A positive multiple of a positive number is at least that number. */
  lemma MulAtLeast(n: int, ay: int)
    requires n >= 1 && ay >= 1
    ensures n * ay >= ay
  {
    assert n * ay == (n - 1) * ay + ay;
  }

  /** The division law of C99 6.5.5: quotient toward zero, remainder with the
      sign of the dividend and smaller than the divisor in magnitude. */
  lemma TruncDivision(x: int, y: int)
    requires y != 0
    ensures x == TruncDiv(x, y) * y + TruncRem(x, y)
    ensures 0 <= x ==> 0 <= TruncRem(x, y) < (if y < 0 then -y else y)
    ensures x < 0 ==> -(if y < 0 then -y else y) < TruncRem(x, y) <= 0
  {
    var ax := if x < 0 then -x else x;
    var ay := if y < 0 then -y else y;
    var q := ax / ay;
    RemainderLaw(x, y, ax, ay, q);
    assert TruncDiv(x, y) == (if (x < 0) == (y < 0) then q else -q);
  }

  /** The arithmetic behind TruncDivision, on the magnitudes alone. */
  lemma RemainderLaw(x: int, y: int, ax: int, ay: int, q: int)
    requires y != 0 && ax == (if x < 0 then -x else x) && ay == (if y < 0 then -y else y) && q == ax / ay
    ensures var d := if (x < 0) == (y < 0) then q else -q;
      && (0 <= x ==> 0 <= x - d * y < ay)
      && (x < 0 ==> -ay < x - d * y <= 0)
  {
    assert ax == q * ay + ax % ay;
    if (x < 0) == (y < 0) {
      if x < 0 {
        assert x - q * y == -(ax - q * ay);
      } else {
        assert x - q * y == ax - q * ay;
      }
    } else {
      if x < 0 {
        assert x - (-q) * y == -(ax - q * ay);
      } else {
        assert x - (-q) * y == ax - q * ay;
      }
    }
  }

  /** The bit pattern of a C `int`, read as an unsigned number below 2^32. */
  function Unsigned(x: Int32): (u: nat)
    ensures u < TWO_32
  {
    if x < 0 then x + TWO_32 else x
  }

  /** The C `int` whose bit pattern is the unsigned number u. */
  function Signed(u: nat): Int32
    requires u < TWO_32
  {
    if u <= INT_MAX then u else u - TWO_32
  }

  /** Bitwise and, or and exclusive or of the low n bits of a and b, one bit
      position at a time from the least significant. */
  function AndBits(a: nat, b: nat, n: nat): (r: nat)
    ensures r < Pow2(n)
  {
    if n == 0 then 0 else (if a % 2 == 1 && b % 2 == 1 then 1 else 0) + 2 * AndBits(a / 2, b / 2, n - 1)
  }

  function OrBits(a: nat, b: nat, n: nat): (r: nat)
    ensures r < Pow2(n)
  {
    if n == 0 then 0 else (if a % 2 == 1 || b % 2 == 1 then 1 else 0) + 2 * OrBits(a / 2, b / 2, n - 1)
  }

  function XorBits(a: nat, b: nat, n: nat): (r: nat)
    ensures r < Pow2(n)
  {
    if n == 0 then 0 else (if (a % 2 == 1) != (b % 2 == 1) then 1 else 0) + 2 * XorBits(a / 2, b / 2, n - 1)
  }

  function NotBits(a: nat, n: nat): (r: nat)
    ensures r < Pow2(n)
  {
    if n == 0 then 0 else (if a % 2 == 1 then 0 else 1) + 2 * NotBits(a / 2, n - 1)
  }

  lemma {:induction false} Pow2Add(a: nat, b: nat)
    ensures Pow2(a + b) == Pow2(a) * Pow2(b)
  {
    if a > 0 {
      Pow2Add(a - 1, b);
    }
  }

  lemma Pow2Of32()
    ensures Pow2(32) == TWO_32
  {
    assert Pow2(4) == 16;
    Pow2Add(4, 4);
    Pow2Add(8, 8);
    Pow2Add(16, 16);
  }

  /** Bit k of the unsigned number u. */
  function BitOf(u: nat, k: nat): bool
  {
    if k == 0 then u % 2 == 1 else BitOf(u / 2, k - 1)
  }

  /** Bit k (0 the least significant, 31 the sign) of a C `int`. */
  function Bit(x: Int32, k: nat): bool
  {
    BitOf(Unsigned(x), k)
  }

  lemma UnsignedSigned(u: nat)
    requires u < TWO_32
    ensures Unsigned(Signed(u)) == u
  {
  }

  lemma {:induction false} AndBitsBit(a: nat, b: nat, n: nat, k: nat)
    requires k < n
    ensures BitOf(AndBits(a, b, n), k) == (BitOf(a, k) && BitOf(b, k))
  {
    if k > 0 {
      AndBitsBit(a / 2, b / 2, n - 1, k - 1);
    }
  }

  lemma {:induction false} OrBitsBit(a: nat, b: nat, n: nat, k: nat)
    requires k < n
    ensures BitOf(OrBits(a, b, n), k) == (BitOf(a, k) || BitOf(b, k))
  {
    if k > 0 {
      OrBitsBit(a / 2, b / 2, n - 1, k - 1);
    }
  }

  lemma {:induction false} XorBitsBit(a: nat, b: nat, n: nat, k: nat)
    requires k < n
    ensures BitOf(XorBits(a, b, n), k) == (BitOf(a, k) != BitOf(b, k))
  {
    if k > 0 {
      XorBitsBit(a / 2, b / 2, n - 1, k - 1);
    }
  }

  /** C's `x & y`, `x | y`, `x ^ y` and `~x` on 32-bit patterns: each bit
      of the result is the and, or or exclusive or of the operands' bits at
      the same position. */
  function BitAnd(x: Int32, y: Int32): (r: Int32)
    ensures forall k :: 0 <= k < 32 ==> Bit(r, k) == (Bit(x, k) && Bit(y, k))
  {
    Pow2Of32();
    var u := AndBits(Unsigned(x), Unsigned(y), 32);
    UnsignedSigned(u);
    forall k | 0 <= k < 32
      ensures BitOf(u, k) == (Bit(x, k) && Bit(y, k))
    {
      AndBitsBit(Unsigned(x), Unsigned(y), 32, k);
    }
    Signed(u)
  }

  function BitOr(x: Int32, y: Int32): (r: Int32)
    ensures forall k :: 0 <= k < 32 ==> Bit(r, k) == (Bit(x, k) || Bit(y, k))
  {
    Pow2Of32();
    var u := OrBits(Unsigned(x), Unsigned(y), 32);
    UnsignedSigned(u);
    forall k | 0 <= k < 32
      ensures BitOf(u, k) == (Bit(x, k) || Bit(y, k))
    {
      OrBitsBit(Unsigned(x), Unsigned(y), 32, k);
    }
    Signed(u)
  }

  function BitXor(x: Int32, y: Int32): (r: Int32)
    ensures forall k :: 0 <= k < 32 ==> Bit(r, k) == (Bit(x, k) != Bit(y, k))
  {
    Pow2Of32();
    var u := XorBits(Unsigned(x), Unsigned(y), 32);
    UnsignedSigned(u);
    forall k | 0 <= k < 32
      ensures BitOf(u, k) == (Bit(x, k) != Bit(y, k))
    {
      XorBitsBit(Unsigned(x), Unsigned(y), 32, k);
    }
    Signed(u)
  }

  /** Complementing every bit is, in two's complement, -x - 1 (so `~0` is the
      language's true, -1). */
  function BitNot(x: Int32): (r: Int32)
    ensures r + x == -1
  {
    Pow2Of32();
    NotBitsComplement(Unsigned(x), 32);
    Signed(NotBits(Unsigned(x), 32))
  }

  lemma {:induction false} NotBitsComplement(a: nat, n: nat)
    requires a < Pow2(n)
    ensures NotBits(a, n) == Pow2(n) - 1 - a
  {
    if n > 0 {
      NotBitsComplement(a / 2, n - 1);
    }
  }

  lemma {:induction false} AndAllOnes(a: nat, n: nat)
    requires a < Pow2(n)
    ensures AndBits(a, Pow2(n) - 1, n) == a
  {
    if n > 0 {
      var m := Pow2(n) - 1;
      assert m % 2 == 1 && m / 2 == Pow2(n - 1) - 1;
      AndAllOnes(a / 2, n - 1);
    }
  }

  lemma {:induction false} OrZero(a: nat, n: nat)
    requires a < Pow2(n)
    ensures OrBits(a, 0, n) == a
  {
    if n > 0 {
      OrZero(a / 2, n - 1);
    }
  }

  lemma {:induction false} XorSame(a: nat, n: nat)
    ensures XorBits(a, a, n) == 0
  {
    if n > 0 {
      XorSame(a / 2, n - 1);
    }
  }

  /** -1 (all bits set) is the identity of `&`, 0 that of `|`, and `^` of a
      value with itself clears every bit. */
  lemma BitIdentities(x: Int32)
    ensures BitAnd(x, -1) == x
    ensures BitOr(x, 0) == x
    ensures BitXor(x, x) == 0
  {
    Pow2Of32();
    AndAllOnes(Unsigned(x), 32);
    OrZero(Unsigned(x), 32);
    XorSame(Unsigned(x), 32);
  }

  /** The magnitude of v. */
  function Abs(v: int): nat
  {
    if v < 0 then -v else v
  }

  function Pow2(n: nat): (r: nat)
    ensures r >= 1
  {
    if n == 0 then 1 else 2 * Pow2(n - 1)
  }

  /** `x << n` for the operands check_shift_operands lets through
      (0 <= x, 0 <= n < 32); bits shifted past bit 31 are lost. */
  function ShiftLeft(x: Int32, n: int): (r: Int32)
    requires 0 <= x && 0 <= n < 32
    ensures (r - x * Pow2(n)) % TWO_32 == 0
    ensures x * Pow2(n) <= INT_MAX ==> r == x * Pow2(n)
  {
    Wrap(x * Pow2(n))
  }

  /** `x >> n` for 0 <= x, 0 <= n < 32. */
  function ShiftRight(x: Int32, n: int): (r: Int32)
    requires 0 <= x && 0 <= n < 32
    ensures 0 <= r <= x
  {
    var d := Pow2(n);
    DivisionShrinks(x, d);
    var q: int := x / d;
    assert 0 <= q <= x;
    q
  }

  /** The magnitude of a truncated quotient is the quotient of the
      magnitudes. */
  lemma TruncDivMagnitude(x: int, y: int)
    requires y != 0
    ensures Abs(TruncDiv(x, y)) == Abs(x) / Abs(y)
  {
    DivisionShrinks(Abs(x), Abs(y));
    assert TruncDiv(x, y) == Abs(x) / Abs(y) || TruncDiv(x, y) == -(Abs(x) / Abs(y));
  }

  lemma DivisionShrinks(x: nat, d: nat)
    requires d >= 1
    ensures 0 <= x / d <= x
  {
    var q := x / d;
    assert x == q * d + x % d;
    MulMonotone(q, 1, d);
  }

  /** Multiplying by a larger factor gives a larger product. */
  lemma {:induction false} MulMonotone(q: nat, a: nat, b: nat)
    requires a <= b
    ensures q * a <= q * b
    decreases b - a
  {
    if a < b {
      MulMonotone(q, a, b - 1);
      assert q * b == q * (b - 1) + q;
    }
  }
}
