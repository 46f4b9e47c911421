/** Powers of two and the division facts the limb arithmetic relies on. */
module Arith {

  /** unit_division: one more than the largest 32-bit limb. */
  const BASE: nat := 0x1_0000_0000

  function Pow2(n: nat): (r: nat)
    ensures r > 0
  {
    if n == 0 then 1 else 2 * Pow2(n - 1)
  }

  lemma {:induction false} Pow2Add(a: nat, b: nat)
    ensures Pow2(a + b) == Pow2(a) * Pow2(b)
  {
    if a > 0 {
      Pow2Add(a - 1, b);
      assert Pow2(a + b) == 2 * Pow2(a - 1 + b);
      assert 2 * (Pow2(a - 1) * Pow2(b)) == (2 * Pow2(a - 1)) * Pow2(b);
    }
  }

  lemma {:induction false} Pow2Monotone(a: nat, b: nat)
    requires a <= b
    ensures Pow2(a) <= Pow2(b)
  {
    if a < b {
      Pow2Monotone(a, b - 1);
    }
  }

  lemma Pow2Base()
    ensures Pow2(8) == 256
    ensures Pow2(16) == 0x1_0000
    ensures Pow2(32) == BASE
  {
    assert Pow2(4) == 16;
    assert Pow2(8) == 256 by { Pow2Add(4, 4); }
    assert Pow2(16) == 0x1_0000 by { Pow2Add(8, 8); }
    Pow2Add(16, 16);
  }

  /** A shift by b bits and the complementary shift by 32 - b bits make up one limb. */
  lemma Pow2Split(b: nat)
    requires b <= 32
    ensures Pow2(b) * Pow2(32 - b) == BASE
  {
    Pow2Add(b, 32 - b);
    Pow2Base();
  }

  lemma MulAtLeast(x: int, b: int)
    requires x >= 1 && b >= 0
    ensures x * b >= b
  {
    var y := x - 1;
    assert x * b == y * b + b;
  }

  lemma MulGapAtLeast(x: int, y: int, b: int)
    requires x > y && b >= 0
    ensures x * b - y * b >= b
  {
    MulAtLeast(x - y, b);
    assert (x - y) * b == x * b - y * b;
  }

  lemma MulDistrib(a: int, r: int, p: int, v: int)
    ensures a * (r + p * v) == a * r + (a * p) * v
  {
  }

  lemma MulAssoc(a: int, b: int, c: int)
    ensures (a * b) * c == a * (b * c)
  {
  }

  lemma MulMonotone(x: nat, y: nat, b: nat)
    requires x <= y
    ensures x * b <= y * b
  {
    assert y * b == x * b + (y - x) * b;
  }

  lemma MulStrictBound(x: nat, b: nat, y: nat)
    requires x < b
    ensures x * y <= (b - 1) * y
  {
    MulMonotone(x, b - 1, y);
  }

  /** Euclidean division is characterised by its quotient and remainder. */
  lemma DivUnique(a: int, b: int, q: int, r: int)
    requires b > 0 && 0 <= r < b && a == q * b + r
    ensures a / b == q && a % b == r
  {
    var q0, r0 := a / b, a % b;
    assert a == q0 * b + r0;
    if q > q0 {
      MulGapAtLeast(q, q0, b);
      assert false;
    } else if q < q0 {
      MulGapAtLeast(q0, q, b);
      assert false;
    }
  }

  /** The low part and the high part of a positional split are its remainder and quotient. */
  lemma DivOfSplit(v: int, lo: int, p: int, hi: int)
    requires p > 0 && 0 <= lo < p && v == lo + p * hi
    ensures v / p == hi && v % p == lo
  {
    DivUnique(v, p, hi, lo);
  }

  /** A larger top digit outweighs any lower part. */
  lemma TopDigitDominates(la: int, lb: int, p: int, da: int, db: int, q: int, h: int)
    requires p > 0 && 0 <= la && 0 <= lb < p && da > db
    requires q * h >= 0
    ensures la + p * da + q * h > lb + p * db + q * h
  {
    MulGapAtLeast(da, db, p);
  }

  lemma DivDiv(a: nat, b: nat, c: nat)
    requires b > 0 && c > 0
    ensures a / b / c == a / (b * c)
  {
    var q, r := a / (b * c), a % (b * c);
    assert a == q * (b * c) + r;
    var s, t := r / b, r % b;
    assert r == s * b + t;
    assert a == (q * c + s) * b + t;
    DivUnique(a, b, q * c + s, t);
    DivBound(r, b, c);
    DivUnique(a / b, c, q, s);
  }

  lemma MulDivCancel(q: nat, b: nat)
    requires b > 0
    ensures (q * b) / b == q && (q * b) % b == 0
  {
    DivUnique(q * b, b, q, 0);
  }

  /** Adding a multiple of b moves the quotient by that multiple and leaves the remainder. */
  lemma DivAddMultiple(x: nat, b: nat, m: nat)
    requires b > 0
    ensures (x + b * m) / b == x / b + m
    ensures (x + b * m) % b == x % b
  {
    DivUnique(x + b * m, b, x / b + m, x % b);
  }

  lemma DivBound(x: nat, b: nat, c: nat)
    requires b > 0 && x < b * c
    ensures x / b < c
  {
    assert x >= (x / b) * b;
    if x / b >= c {
      MulMonotone(c, x / b, b);
      assert false;
    }
  }

  lemma ParityOfEvenShift(x: nat, m: nat)
    ensures (x + 2 * m) % 2 == x % 2
  {
    DivAddMultiple(x, 2, m);
  }

  /** x / 2^k splits into the bit k and the part above it. */
  lemma Pow2DivStep(x: nat, k: nat)
    ensures x / Pow2(k) == 2 * (x / Pow2(k + 1)) + (x / Pow2(k)) % 2
  {
    DivDiv(x, Pow2(k), 2);
    assert Pow2(k + 1) == Pow2(k) * 2;
  }
}
