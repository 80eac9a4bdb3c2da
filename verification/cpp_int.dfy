/** The fragment of C++ `int` arithmetic the benchmark relies on: the 32-bit
    range, `/` and `%` truncating toward zero, the arithmetic right shift
    and bitwise XOR on two's-complement values.  Everything is stated on
    Dafny's unbounded `int`, whose `/` and `%` are Euclidean, so the C++
    operators are written out explicitly for every sign combination. */
module CppInt {

  const INT_MIN: int := -0x8000_0000
  const INT_MAX: int := 0x7fff_ffff

  /** A value of C++ type `int` (32-bit two's complement). */
  type Int32 = x: int | INT_MIN <= x <= INT_MAX

  function Abs(x: int): nat {
    if x < 0 then -x else x
  }

  /** Euclidean division by a positive divisor is determined by quotient and
      remainder: the uniqueness every division fact below is reduced to. */
  lemma DivModUnique(x: int, d: int, q: int, r: int)
    requires 0 < d && 0 <= r < d && x == d * q + r
    ensures x / d == q && x % d == r
  {
    var q', r' := x / d, x % d;
    assert x == d * q' + r';
    if q > q' {
      MulAtLeast(d, q - q');
    } else if q < q' {
      MulAtLeast(d, q' - q);
    }
  }

  lemma MulAtLeast(d: int, k: int)
    requires 0 < d && 1 <= k
    ensures d * k >= d
  {
    assert d * k == d + d * (k - 1);
  }

  /** C++ `a / b`: the quotient truncated toward zero.  Its magnitude is
      the floor of the magnitudes' quotient and it is negative exactly when
      it is non-zero and the operands' signs differ. */
  function Quot(a: int, b: int): (q: int)
    requires b != 0
    ensures Abs(q) == Abs(a) / Abs(b)
    ensures q < 0 <==> q != 0 && (a < 0) != (b < 0)
  {
    DivNonNegative(Abs(a), Abs(b));
    var m := Abs(a) / Abs(b);
    if (a < 0) == (b < 0) then m else -m
  }

  lemma DivNonNegative(x: int, d: int)
    requires 0 <= x && 0 < d
    ensures 0 <= x / d
  {
  }

  /** C++ `a % b`: the remainder left by `Quot`, which takes the sign of the
      dividend and may therefore be negative. */
  function Rem(a: int, b: int): (r: int)
    requires b != 0
    ensures a == b * Quot(a, b) + r
    ensures Abs(r) < Abs(b)
    ensures r != 0 ==> (r < 0 <==> a < 0)
  {
    QuotRemainder(a, b);
    a - b * Quot(a, b)
  }

  lemma QuotRemainder(a: int, b: int)
    requires b != 0
    ensures Abs(a - b * Quot(a, b)) < Abs(b)
    ensures a - b * Quot(a, b) != 0 ==> (a - b * Quot(a, b) < 0 <==> a < 0)
  {
    var x: int, d: int := Abs(a), Abs(b);
    var q := Quot(a, b);
    SignedProduct(b, q);
    EuclidParts(x, d);
    if a >= 0 {
      assert b * q == d * (x / d);
    } else {
      assert b * q == -(d * (x / d));
    }
  }

  /** A product is the product of the magnitudes, negated when exactly one
      factor is negative. */
  lemma SignedProduct(b: int, q: int)
    ensures b * q == if (b < 0) == (q < 0) then Abs(b) * Abs(q) else -(Abs(b) * Abs(q))
  {
  }

  lemma EuclidParts(x: int, d: int)
    requires 0 < d
    ensures x == d * (x / d) + x % d && 0 <= x % d < d
  {
  }

  /** For a non-negative dividend and a positive divisor the C++ operators
      agree with Dafny's Euclidean ones. */
  lemma QuotRemNonNegative(a: int, b: int)
    requires 0 <= a && 0 < b
    ensures Quot(a, b) == a / b && Rem(a, b) == a % b
    ensures 0 <= Rem(a, b) < b
  {
  }

  /** A multiple of `b` leaves no C++ remainder. */
  lemma {:induction false} RemOfMultiple(i: int, b: int)
    requires 0 <= i && 0 < b
    ensures Quot(i * b, b) == i
    ensures Rem(i * b, b) == 0
  {
    DivModUnique(i * b, b, i, 0);
  }

  function Pow2(n: nat): (p: nat)
    ensures p >= 1
  {
    if n == 0 then 1 else 2 * Pow2(n - 1)
  }

  /** C++ `x >> n` on a signed `int`: an arithmetic shift, which rounds toward
      negative infinity, i.e. Dafny's `/` by the positive `Pow2(n)`. */
  function ShiftRight(x: int, n: nat): (r: int)
    ensures r < 0 <==> x < 0
    ensures 0 <= x ==> r == Quot(x, Pow2(n))
  {
    FloorDivSign(x, Pow2(n));
    x / Pow2(n)
  }

  lemma FloorDivSign(x: int, p: int)
    requires 0 < p
    ensures x / p < 0 <==> x < 0
  {
    assert x == p * (x / p) + x % p;
  }

  /** Bit `i` of the two's-complement representation of `x`; for negative
      `x` this reads the infinite sign extension. */
  predicate Bit(x: int, i: nat) {
    (x / Pow2(i)) % 2 == 1
  }

  lemma DivDouble(x: int, p: int)
    requires 0 < p
    ensures x / (2 * p) == (x / 2) / p
  {
    var h := x / 2;
    var q := h / p;
    assert x == 2 * h + x % 2;
    assert h == p * q + h % p;
    assert x == (2 * p) * q + (2 * (h % p) + x % 2);
    DivModUnique(x, 2 * p, q, 2 * (h % p) + x % 2);
  }

  /** Bit `i + 1` of `x` is bit `i` of `x / 2`. */
  lemma BitShift(x: int, i: nat)
    ensures Bit(x, i + 1) == Bit(x / 2, i)
  {
    DivDouble(x, Pow2(i));
  }

  /** `-x - 1` is `~x`: every bit flips. */
  lemma ComplementBits(x: int, i: nat)
    ensures Bit(-x - 1, i) == !Bit(x, i)
  {
    var p := Pow2(i);
    var q, r := x / p, x % p;
    assert x == p * q + r;
    assert -x - 1 == p * (-q - 1) + (p - 1 - r);
    DivModUnique(-x - 1, p, -q - 1, p - 1 - r);
  }

  /** XOR of two naturals, built bit by bit from the least significant end. */
  function NatXor(a: nat, b: nat): nat
    decreases a + b
  {
    if a == 0 && b == 0 then 0
    else 2 * NatXor(a / 2, b / 2) + (if a % 2 == b % 2 then 0 else 1)
  }

  /** The lowest bit of the XOR is the exclusive or of the lowest bits; the
      remaining bits are the XOR of the halves. */
  lemma NatXorHalf(a: nat, b: nat)
    ensures NatXor(a, b) % 2 == (if a % 2 == b % 2 then 0 else 1)
    ensures NatXor(a, b) / 2 == NatXor(a / 2, b / 2)
  {
    if a == 0 && b == 0 {
      assert NatXor(a / 2, b / 2) == 0;
    }
  }

  lemma {:induction false} NatXorBits(a: nat, b: nat, i: nat)
    ensures Bit(NatXor(a, b), i) == (Bit(a, i) != Bit(b, i))
    decreases i
  {
    NatXorHalf(a, b);
    if i == 0 {
      assert Pow2(0) == 1;
    } else {
      var x := NatXor(a, b);
      BitShift(x, i - 1);
      BitShift(a, i - 1);
      BitShift(b, i - 1);
      NatXorBits(a / 2, b / 2, i - 1);
    }
  }

  /** XOR of two values below `2^k` stays below `2^k`. */
  lemma {:induction false} NatXorBound(a: nat, b: nat, k: nat)
    requires a < Pow2(k) && b < Pow2(k)
    ensures NatXor(a, b) < Pow2(k)
    decreases k
  {
    if a == 0 && b == 0 {
    } else if k == 0 {
    } else {
      NatXorBound(a / 2, b / 2, k - 1);
    }
  }

  /** C++ `a ^ b` on two's-complement integers of any width, reduced to
      `NatXor` through `~x == -x - 1`, `~a ^ ~b == a ^ b` and
      `~a ^ b == ~(a ^ b)`. */
  function Xor(a: int, b: int): (r: int)
    ensures r < 0 <==> (a < 0) != (b < 0)
  {
    if a >= 0 && b >= 0 then NatXor(a, b)
    else if a < 0 && b < 0 then NatXor(-a - 1, -b - 1)
    else if a < 0 then -(NatXor(-a - 1, b) as int) - 1
    else -(NatXor(a, -b - 1) as int) - 1
  }

  /** `Xor` is bitwise exclusive or, sign bits included. */
  lemma XorBits(a: int, b: int, i: nat)
    ensures Bit(Xor(a, b), i) == (Bit(a, i) != Bit(b, i))
  {
    if a >= 0 && b >= 0 {
      NatXorBits(a, b, i);
    } else if a < 0 && b < 0 {
      NatXorBits(-a - 1, -b - 1, i);
      ComplementBits(a, i);
      ComplementBits(b, i);
    } else if a < 0 {
      NatXorBits(-a - 1, b, i);
      ComplementBits(a, i);
      ComplementBits(NatXor(-a - 1, b), i);
    } else {
      NatXorBits(a, -b - 1, i);
      ComplementBits(b, i);
      ComplementBits(NatXor(a, -b - 1), i);
    }
  }

  /** The XOR of two `int`s is again an `int`: the unbounded model agrees
      with 32-bit hardware XOR on the whole `int` range. */
  lemma XorInt32(a: Int32, b: Int32)
    ensures INT_MIN <= Xor(a, b) <= INT_MAX
  {
    var x: int, y: int := a, b;
    Pow2Of31();
    if x >= 0 && y >= 0 {
      NatXorBound(x, y, 31);
    } else if x < 0 && y < 0 {
      NatXorBound(-x - 1, -y - 1, 31);
    } else if x < 0 {
      NatXorBound(-x - 1, y, 31);
    } else {
      NatXorBound(x, -y - 1, 31);
    }
  }

  lemma Pow2Of31()
    ensures Pow2(31) == INT_MAX + 1
  {
    assert Pow2(8) == 0x100;
    assert Pow2(16) == 0x1_0000;
    assert Pow2(24) == 0x100_0000;
  }
}
