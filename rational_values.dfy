// The value-level meaning of rational_number: a pair (n, d) of integer
// values, what normalize makes of it, and what the arithmetic and comparison
// operators compute, with the properties that connect them to fractions.
module RationalValues {
  import opened Arith
  import opened Integers
  import opened IntegerDivision
  import opened IntegerGcd

  // ---------------------------------------------------------------------------
  // Classification (rational_number.h:54-80)
  // ---------------------------------------------------------------------------

  predicate NaNValues(n: int, d: int) { n == 0 && d == 0 }

  predicate InfinityValues(n: int, d: int) { n != 0 && d == 0 }

  predicate PositiveInfValues(n: int, d: int) { n > 0 && d == 0 }

  predicate NegativeInfValues(n: int, d: int) { n < 0 && d == 0 }

  predicate ZeroValues(n: int, d: int) { n == 0 && d != 0 }

  /** A rational in lowest terms with a positive denominator. */
  predicate Reduced(n: int, d: int)
  {
    d > 0 && GcdNat(Abs(n), d) == 1
  }

  /** Every pair with d >= 0 is exactly one of NaN, +inf, -inf, zero or a
      nonzero finite value. */
  lemma Classification(n: int, d: int)
    requires d >= 0
    ensures NaNValues(n, d) || PositiveInfValues(n, d) || NegativeInfValues(n, d) || ZeroValues(n, d) || (n != 0 && d > 0)
    ensures InfinityValues(n, d) <==> PositiveInfValues(n, d) || NegativeInfValues(n, d)
    ensures !(NaNValues(n, d) && InfinityValues(n, d)) && !(ZeroValues(n, d) && (NaNValues(n, d) || InfinityValues(n, d)))
    ensures !(PositiveInfValues(n, d) && NegativeInfValues(n, d))
  {
  }

  // ---------------------------------------------------------------------------
  // normalize (rational_number.cpp:5-24) and reduction (rational_number.h:193-198)
  // ---------------------------------------------------------------------------

  /** normalize: 0/d becomes 0/1; n/0 becomes +-1/0; 0/0 stays; otherwise the
      sign moves to the numerator and both are divided by their gcd. */
  function NormalizeValues(n: int, d: int): (int, int)
  {
    if n == 0 && d != 0 then (0, 1)
    else if d == 0 && n != 0 then (if n < 0 then -1 else 1, 0)
    else if n == 0 && d == 0 then (0, 0)
    else
      GcdPositive(Abs(n), Abs(d));
      var g := GcdNat(Abs(n), Abs(d));
      (if (n < 0) != (d < 0) then -(Abs(n) / g) else Abs(n) / g, Abs(d) / g)
  }

  lemma ExactQuotient(a: int, g: int)
    requires g > 0 && a % g == 0
    ensures a == g * (a / g)
  {
  }

  /** x == g * (h * k) makes x a multiple of g * h. */
  lemma MultipleOfProduct(x: int, g: int, h: int, k: int)
    requires g > 0 && h > 0 && x == g * (h * k)
    ensures x % (g * h) == 0
  {
    MulAssoc(g, h, k);
    MulAtLeast(h, g);
    MultipleOf(x, g * h, k);
  }

  /** A positive g that is a multiple of g * h forces h == 1. */
  lemma FactorIsOne(g: int, h: int)
    requires g > 0 && h > 0 && g % (g * h) == 0
    ensures h == 1
  {
    if h > 1 {
      MulGapAtLeast(g, h);
      QuotientRemainder(g, g * h, 0, g);
    }
  }

  /** If a == g a1 and b == g b1 with g their gcd, a1 and b1 are coprime. */
  lemma QuotientsCoprime(a: nat, b: nat, g: nat, a1: nat, b1: nat)
    requires g > 0 && a == g * a1 && b == g * b1 && (a1 > 0 || b1 > 0)
    requires GcdNat(a, b) == g
    ensures GcdNat(a1, b1) == 1
  {
    GcdDividesBoth(a1, b1);
    var h := GcdNat(a1, b1);
    ExactQuotient(a1, h);
    ExactQuotient(b1, h);
    MultipleOfProduct(a, g, h, a1 / h);
    MultipleOfProduct(b, g, h, b1 / h);
    MulAtLeast(h, g);
    GcdGreatest(a, b, g * h);
    FactorIsOne(g, h);
  }

  /** Dividing both arguments by their gcd leaves coprime quotients. */
  lemma QuotientsOfGcd(a: nat, b: nat, g: nat)
    requires (a > 0 || b > 0) && g > 0 && g == GcdNat(a, b) && a % g == 0 && b % g == 0
    ensures GcdNat(a / g, b / g) == 1
  {
    var a1: nat, b1: nat := a / g, b / g;
    ExactQuotient(a, g);
    ExactQuotient(b, g);
    QuotientsCoprime(a, b, g, a1, b1);
  }

  lemma MulGapAtLeast(g: int, h: int)
    requires g > 0 && h > 1
    ensures g * h > g
  {
    assert g * h == g + g * (h - 1);
  }

  /** The sign cases of normalize: the result has the ratio of its input. */
  lemma SignedRatio(n: int, d: int, a: int, b: int, g: int, a1: int, b1: int)
    requires n != 0 && d != 0 && a == Abs(n) && b == Abs(d) && g > 0
    requires a == g * a1 && b == g * b1
    ensures (if (n < 0) != (d < 0) then -a1 else a1) * d == n * b1
  {
    assert a1 * b == a * b1 by {
      MulAssoc(g, a1, b1);
      MulAssoc(g, b1, a1);
    }
    if n < 0 && d < 0 {
      assert a1 * d == -(a1 * b) && n * b1 == -(a * b1);
    } else if n < 0 {
      assert (-a1) * d == -(a1 * b) && n * b1 == -(a * b1);
    } else if d < 0 {
      assert (-a1) * d == a1 * b;
    }
  }

  /** For a nonzero denominator normalize gives lowest terms with a positive
      denominator, and the same fraction: r.0 / r.1 == n / d. */
  lemma NormalizeCorrect(n: int, d: int)
    requires d != 0
    ensures Reduced(NormalizeValues(n, d).0, NormalizeValues(n, d).1)
    ensures NormalizeValues(n, d).0 * d == n * NormalizeValues(n, d).1
  {
    if n == 0 {
      assert GcdNat(0, 1) == GcdNat(1, 0);
    } else {
      var a, b := Abs(n), Abs(d);
      GcdDividesBoth(a, b);
      var g := GcdNat(a, b);
      QuotientsOfGcd(a, b, g);
      ExactQuotient(a, g);
      ExactQuotient(b, g);
      SignedRatio(n, d, a, b, g, a / g, b / g);
      assert b / g > 0;
    }
  }

  /** normalize leaves an already normalized pair alone. */
  lemma NormalizeIdempotent(n: int, d: int)
    ensures NormalizeValues(NormalizeValues(n, d).0, NormalizeValues(n, d).1) == NormalizeValues(n, d)
  {
    var r := NormalizeValues(n, d);
    if n != 0 && d != 0 {
      NormalizeCorrect(n, d);
      var a, b := Abs(n), Abs(d);
      GcdDividesBoth(a, b);
      var g := GcdNat(a, b);
      ExactQuotient(a, g);
      assert a / g > 0;
      assert r.0 != 0;
      assert GcdNat(Abs(r.0), Abs(r.1)) == 1;
    }
  }

  /** n/0 normalizes to +-1/0 and 0/0 stays 0/0. */
  lemma NormalizeOfInfinite(n: int)
    ensures NormalizeValues(n, 0) == (if n < 0 then (-1, 0) else if n > 0 then (1, 0) else (0, 0))
    ensures InfinityValues(n, 0) ==> InfinityValues(NormalizeValues(n, 0).0, NormalizeValues(n, 0).1)
    ensures NormalizeValues(n, 0).0 < 0 <==> n < 0
  {
  }

  // ---------------------------------------------------------------------------
  // Common denominators (rational_number.h:84-86 and the comparisons)
  // ---------------------------------------------------------------------------

  /** lhs_num and rhs_num: each numerator scaled to lcm_res = lcm(d1, d2). */
  function Scaled(n1: int, d1: int, n2: int, d2: int): (int, int)
    requires d1 > 0 && d2 > 0
  {
    var l := LcmOf(d1, d2);
    (TruncDiv(l, d1) * n1, TruncDiv(l, d2) * n2)
  }

  /** The arithmetic of a common denominator on plain integers:
      d1 == g a, d2 == g b and l == a d2. */
  lemma CommonDenominator(d1: int, d2: int, g: int, a: int, b: int, l: int, n1: int, n2: int)
    requires g > 0 && d1 == g * a && d2 == g * b && l == a * d2
    ensures l == b * d1 && l == a * d2 && l * g == d1 * d2
    ensures (b * n1) * g == n1 * d2 && (a * n2) * g == n2 * d1
  {
    MulAssoc(a, g, b);
    MulAssoc(g, a, b);
    MulAssoc(d1, b, g);
    MulAssoc(b, n1, g);
    MulAssoc(n1, b, g);
    MulAssoc(a, n2, g);
    MulAssoc(n2, a, g);
  }

  /** The common denominator lcm(d1, d2) is g times smaller than d1 * d2, and
      the scaled numerators are g times smaller than the cross products. */
  lemma ScaledFacts(n1: int, d1: int, n2: int, d2: int)
    requires d1 > 0 && d2 > 0
    ensures GcdNat(d1, d2) > 0 && LcmOf(d1, d2) > 0
    ensures LcmOf(d1, d2) * GcdNat(d1, d2) == d1 * d2
    ensures Scaled(n1, d1, n2, d2).0 * GcdNat(d1, d2) == n1 * d2
    ensures Scaled(n1, d1, n2, d2).1 * GcdNat(d1, d2) == n2 * d1
  {
    GcdDividesBoth(d1, d2);
    var g := GcdNat(d1, d2);
    ExactQuotient(d1, g);
    ExactQuotient(d2, g);
    var a, b := d1 / g, d2 / g;
    var l := LcmOf(d1, d2);
    assert l == a * d2;
    CommonDenominator(d1, d2, g, a, b, l, n1, n2);
    assert a > 0 && b > 0;
    MulAtLeast(a, d2);
    QuotientRemainder(l, d1, b, 0);
    QuotientRemainder(l, d2, a, 0);
  }

  lemma ScaleOrder(x: int, y: int, g: int)
    requires g > 0
    ensures x < y <==> x * g < y * g
    ensures x == y <==> x * g == y * g
  {
    if x < y {
      assert y * g - x * g == (y - x) * g;
    } else if y < x {
      assert x * g - y * g == (x - y) * g;
    }
  }

  /** The scaled numerators compare as the fractions do. */
  lemma ScaledOrder(n1: int, d1: int, n2: int, d2: int)
    requires d1 > 0 && d2 > 0
    ensures Scaled(n1, d1, n2, d2).0 < Scaled(n1, d1, n2, d2).1 <==> n1 * d2 < n2 * d1
    ensures Scaled(n1, d1, n2, d2).0 == Scaled(n1, d1, n2, d2).1 <==> n1 * d2 == n2 * d1
  {
    ScaledFacts(n1, d1, n2, d2);
    ScaleOrder(Scaled(n1, d1, n2, d2).0, Scaled(n1, d1, n2, d2).1, GcdNat(d1, d2));
  }

  // ---------------------------------------------------------------------------
  // Arithmetic (rational_number.h:82-108, 162-186)
  // ---------------------------------------------------------------------------

  /** operator+: NaN when either operand is NaN or infinite; otherwise the
      scaled numerators added over lcm(d1, d2), normalized. */
  function SumValues(n1: int, d1: int, n2: int, d2: int): (int, int)
    requires d1 >= 0 && d2 >= 0
  {
    if d1 == 0 || d2 == 0 then (0, 0)
    else
      var s := Scaled(n1, d1, n2, d2);
      NormalizeValues(s.0 + s.1, LcmOf(d1, d2))
  }

  /** operator-: as operator+ with the scaled numerators subtracted. */
  function DifferenceValues(n1: int, d1: int, n2: int, d2: int): (int, int)
    requires d1 >= 0 && d2 >= 0
  {
    if d1 == 0 || d2 == 0 then (0, 0)
    else
      var s := Scaled(n1, d1, n2, d2);
      NormalizeValues(s.0 - s.1, LcmOf(d1, d2))
  }

  /** operator* and operator*=: numerators and denominators multiplied. */
  function ProductValues(n1: int, d1: int, n2: int, d2: int): (int, int)
  {
    NormalizeValues(n1 * n2, d1 * d2)
  }

  /** operator/ and operator/=: multiplied crosswise. */
  function QuotientValues(n1: int, d1: int, n2: int, d2: int): (int, int)
  {
    NormalizeValues(n1 * d2, d1 * n2)
  }

  /** From r.0 / l == s / l and (s / l) == t / m by the factor g, r.0 / r.1 == t / m. */
  lemma RatioThroughScale(r0: int, r1: int, l: int, s: int, g: int, t: int, m: int)
    requires r0 * l == s * r1 && s * g == t && l * g == m
    ensures r0 * m == t * r1
  {
    calc {
      r0 * m;
      r0 * (l * g);
      { MulAssoc(r0, l, g); }
      (r0 * l) * g;
      (s * r1) * g;
      { MulAssoc(s, r1, g); MulAssoc(s, g, r1); }
      (s * g) * r1;
    }
  }

  lemma ScaleSum(s0: int, s1: int, g: int, x: int, y: int)
    requires s0 * g == x && s1 * g == y
    ensures (s0 + s1) * g == x + y && (s0 - s1) * g == x - y
  {
  }

  /** Normalizing numerator s over the common denominator l, which the
      factor g turns into t over m, gives the fraction t / m in lowest terms. */
  lemma NormalizeScaled(s: int, l: int, g: int, t: int, m: int)
    requires l > 0 && s * g == t && l * g == m
    ensures Reduced(NormalizeValues(s, l).0, NormalizeValues(s, l).1)
    ensures NormalizeValues(s, l).0 * m == t * NormalizeValues(s, l).1
  {
    NormalizeCorrect(s, l);
    var r := NormalizeValues(s, l);
    RatioThroughScale(r.0, r.1, l, s, g, t, m);
  }

  /** The sum of two finite fractions is n1/d1 + n2/d2 in lowest terms. */
  lemma SumIsFractionSum(n1: int, d1: int, n2: int, d2: int)
    requires d1 > 0 && d2 > 0
    ensures Reduced(SumValues(n1, d1, n2, d2).0, SumValues(n1, d1, n2, d2).1)
    ensures SumValues(n1, d1, n2, d2).0 * (d1 * d2) == (n1 * d2 + n2 * d1) * SumValues(n1, d1, n2, d2).1
  {
    ScaledFacts(n1, d1, n2, d2);
    var s := Scaled(n1, d1, n2, d2);
    var g := GcdNat(d1, d2);
    ScaleSum(s.0, s.1, g, n1 * d2, n2 * d1);
    NormalizeScaled(s.0 + s.1, LcmOf(d1, d2), g, n1 * d2 + n2 * d1, d1 * d2);
  }

  /** The difference of two finite fractions is n1/d1 - n2/d2 in lowest terms. */
  lemma DifferenceIsFractionDifference(n1: int, d1: int, n2: int, d2: int)
    requires d1 > 0 && d2 > 0
    ensures Reduced(DifferenceValues(n1, d1, n2, d2).0, DifferenceValues(n1, d1, n2, d2).1)
    ensures DifferenceValues(n1, d1, n2, d2).0 * (d1 * d2) == (n1 * d2 - n2 * d1) * DifferenceValues(n1, d1, n2, d2).1
  {
    ScaledFacts(n1, d1, n2, d2);
    var s := Scaled(n1, d1, n2, d2);
    var g := GcdNat(d1, d2);
    ScaleSum(s.0, s.1, g, n1 * d2, n2 * d1);
    NormalizeScaled(s.0 - s.1, LcmOf(d1, d2), g, n1 * d2 - n2 * d1, d1 * d2);
  }

  /** The product of two finite fractions is (n1 n2)/(d1 d2) in lowest terms. */
  lemma ProductIsFractionProduct(n1: int, d1: int, n2: int, d2: int)
    requires d1 > 0 && d2 > 0
    ensures Reduced(ProductValues(n1, d1, n2, d2).0, ProductValues(n1, d1, n2, d2).1)
    ensures ProductValues(n1, d1, n2, d2).0 * (d1 * d2) == (n1 * n2) * ProductValues(n1, d1, n2, d2).1
  {
    MulAtLeast(d1, d2);
    NormalizeCorrect(n1 * n2, d1 * d2);
  }

  /** Dividing by a nonzero finite fraction multiplies by its inverse; dividing
      a nonzero value by zero gives an infinity, and 0 / 0 gives NaN. */
  lemma QuotientIsFractionQuotient(n1: int, d1: int, n2: int, d2: int)
    requires d1 > 0 && d2 > 0
    ensures n2 != 0 ==> Reduced(QuotientValues(n1, d1, n2, d2).0, QuotientValues(n1, d1, n2, d2).1)
    ensures n2 != 0 ==> QuotientValues(n1, d1, n2, d2).0 * (d1 * n2) == (n1 * d2) * QuotientValues(n1, d1, n2, d2).1
    ensures n2 == 0 && n1 != 0 ==> InfinityValues(QuotientValues(n1, d1, n2, d2).0, QuotientValues(n1, d1, n2, d2).1)
    ensures n2 == 0 && n1 == 0 ==> NaNValues(QuotientValues(n1, d1, n2, d2).0, QuotientValues(n1, d1, n2, d2).1)
  {
    if n2 != 0 {
      assert d1 * n2 != 0;
      NormalizeCorrect(n1 * d2, d1 * n2);
    } else {
      assert d1 * n2 == 0;
      if n1 != 0 {
        assert n1 * d2 != 0;
      }
    }
  }

  /** With its own alias as right operand, operator/= multiplies the
      numerator first and then reads the new numerator as the divisor's. */
  function SelfQuotientAsWritten(n: int, d: int): (int, int)
  {
    NormalizeValues(n * d, d * (n * d))
  }

  /** 2/3 /= itself gives 1/3 instead of 1. */
  lemma SelfQuotientExample()
    ensures SelfQuotientAsWritten(2, 3) == (1, 3)
    ensures QuotientValues(2, 3, 2, 3) == (1, 1)
  {
    assert GcdNat(6, 18) == 6 by {
      assert GcdNat(6, 18) == GcdNat(18, 6) == GcdNat(6, 0);
    }
    assert GcdNat(6, 6) == 6 by {
      assert GcdNat(6, 6) == GcdNat(6, 0);
    }
  }

  // ---------------------------------------------------------------------------
  // Comparisons (rational_number.h:114-160)
  // ---------------------------------------------------------------------------

  /** operator>: false with NaN, when the left side is -inf or the right side
      is +inf; true when the left side is +inf or the right side is -inf;
      otherwise the scaled numerators are compared. */
  predicate GreaterValues(n1: int, d1: int, n2: int, d2: int)
    requires d1 >= 0 && d2 >= 0
  {
    if NaNValues(n1, d1) || NaNValues(n2, d2) || NegativeInfValues(n1, d1) || PositiveInfValues(n2, d2) then false
    else if (PositiveInfValues(n1, d1) && !PositiveInfValues(n2, d2)) || (NegativeInfValues(n2, d2) && !NegativeInfValues(n1, d1)) then true
    else if InfinityValues(n1, d1) || InfinityValues(n2, d2) then false
    else Scaled(n1, d1, n2, d2).0 > Scaled(n1, d1, n2, d2).1
  }

  /** operator< mirrors operator>. */
  predicate LessValues(n1: int, d1: int, n2: int, d2: int)
    requires d1 >= 0 && d2 >= 0
  {
    if NaNValues(n1, d1) || NaNValues(n2, d2) || PositiveInfValues(n1, d1) || NegativeInfValues(n2, d2) then false
    else if (NegativeInfValues(n1, d1) && !NegativeInfValues(n2, d2)) || (PositiveInfValues(n2, d2) && !PositiveInfValues(n1, d1)) then true
    else if InfinityValues(n1, d1) || InfinityValues(n2, d2) then false
    else Scaled(n1, d1, n2, d2).0 < Scaled(n1, d1, n2, d2).1
  }

  /** operator==: false with NaN or an infinity, otherwise the scaled numerators are equal. */
  predicate EqualValues(n1: int, d1: int, n2: int, d2: int)
    requires d1 >= 0 && d2 >= 0
  {
    if d1 == 0 || d2 == 0 then false
    else Scaled(n1, d1, n2, d2).0 == Scaled(n1, d1, n2, d2).1
  }

  /** operator<=. */
  predicate LessEqValues(n1: int, d1: int, n2: int, d2: int)
    requires d1 >= 0 && d2 >= 0
  {
    if NaNValues(n1, d1) || NaNValues(n2, d2) || PositiveInfValues(n1, d1) || NegativeInfValues(n2, d2) then false
    else if (NegativeInfValues(n1, d1) && !NegativeInfValues(n2, d2)) || (PositiveInfValues(n2, d2) && !PositiveInfValues(n1, d1)) then true
    else if InfinityValues(n1, d1) || InfinityValues(n2, d2) then false
    else !GreaterValues(n1, d1, n2, d2)
  }

  /** operator>=. */
  predicate GreaterEqValues(n1: int, d1: int, n2: int, d2: int)
    requires d1 >= 0 && d2 >= 0
  {
    if NaNValues(n1, d1) || NaNValues(n2, d2) || NegativeInfValues(n1, d1) || PositiveInfValues(n2, d2) then false
    else if (PositiveInfValues(n1, d1) && !PositiveInfValues(n2, d2)) || (NegativeInfValues(n2, d2) && !NegativeInfValues(n1, d1)) then true
    else if InfinityValues(n1, d1) || InfinityValues(n2, d2) then false
    else !LessValues(n1, d1, n2, d2)
  }

  /** operator!=: true with NaN, false with an infinity, otherwise not ==. */
  predicate NotEqualValues(n1: int, d1: int, n2: int, d2: int)
    requires d1 >= 0 && d2 >= 0
  {
    if NaNValues(n1, d1) || NaNValues(n2, d2) then true
    else if InfinityValues(n1, d1) || InfinityValues(n2, d2) then false
    else !EqualValues(n1, d1, n2, d2)
  }

  /** On finite values the comparisons are the order of the fractions. */
  lemma FiniteOrder(n1: int, d1: int, n2: int, d2: int)
    requires d1 > 0 && d2 > 0
    ensures GreaterValues(n1, d1, n2, d2) <==> n1 * d2 > n2 * d1
    ensures LessValues(n1, d1, n2, d2) <==> n1 * d2 < n2 * d1
    ensures EqualValues(n1, d1, n2, d2) <==> n1 * d2 == n2 * d1
    ensures LessEqValues(n1, d1, n2, d2) <==> n1 * d2 <= n2 * d1
    ensures GreaterEqValues(n1, d1, n2, d2) <==> n1 * d2 >= n2 * d1
    ensures NotEqualValues(n1, d1, n2, d2) <==> n1 * d2 != n2 * d1
  {
    ScaledOrder(n1, d1, n2, d2);
  }

  /** > and < are converses of each other, infinities and NaN included. */
  lemma GreaterIsConverseOfLess(n1: int, d1: int, n2: int, d2: int)
    requires d1 >= 0 && d2 >= 0
    ensures GreaterValues(n1, d1, n2, d2) <==> LessValues(n2, d2, n1, d1)
    ensures GreaterEqValues(n1, d1, n2, d2) <==> LessEqValues(n2, d2, n1, d1)
  {
    if d1 > 0 && d2 > 0 {
      FiniteOrder(n1, d1, n2, d2);
      FiniteOrder(n2, d2, n1, d1);
    }
  }

  /** +inf is above every value but +inf and NaN; -inf below every value
      but -inf and NaN; NaN is unordered. */
  lemma InfinityOrder(n: int, d: int)
    requires d >= 0
    ensures !NaNValues(n, d) && !PositiveInfValues(n, d) ==> GreaterValues(1, 0, n, d)
    ensures !NaNValues(n, d) && !NegativeInfValues(n, d) ==> LessValues(-1, 0, n, d)
    ensures !GreaterValues(0, 0, n, d) && !LessValues(0, 0, n, d) && !EqualValues(0, 0, n, d)
    ensures NotEqualValues(0, 0, n, d)
  {
  }

  /** operator> as written compares lcm_res, not lhs_num, with rhs_num. */
  predicate GreaterAsWrittenValues(n1: int, d1: int, n2: int, d2: int)
    requires d1 >= 0 && d2 >= 0
  {
    if NaNValues(n1, d1) || NaNValues(n2, d2) || NegativeInfValues(n1, d1) || PositiveInfValues(n2, d2) then false
    else if (PositiveInfValues(n1, d1) && !PositiveInfValues(n2, d2)) || (NegativeInfValues(n2, d2) && !NegativeInfValues(n1, d1)) then true
    else if InfinityValues(n1, d1) || InfinityValues(n2, d2) then false
    else LcmOf(d1, d2) > Scaled(n1, d1, n2, d2).1
  }

  /** operator< as written compares lcm_res, not lhs_num, with rhs_num. */
  predicate LessAsWrittenValues(n1: int, d1: int, n2: int, d2: int)
    requires d1 >= 0 && d2 >= 0
  {
    if NaNValues(n1, d1) || NaNValues(n2, d2) || PositiveInfValues(n1, d1) || NegativeInfValues(n2, d2) then false
    else if (NegativeInfValues(n1, d1) && !NegativeInfValues(n2, d2)) || (PositiveInfValues(n2, d2) && !PositiveInfValues(n1, d1)) then true
    else if InfinityValues(n1, d1) || InfinityValues(n2, d2) then false
    else LcmOf(d1, d2) < Scaled(n1, d1, n2, d2).1
  }

  /** operator== as written compares lcm_res, not lhs_num, with rhs_num. */
  predicate EqualAsWrittenValues(n1: int, d1: int, n2: int, d2: int)
    requires d1 >= 0 && d2 >= 0
  {
    if d1 == 0 || d2 == 0 then false
    else LcmOf(d1, d2) == Scaled(n1, d1, n2, d2).1
  }

  /** As written, 0 > 1/2, not 0 < 1/2, and 1/2 != 1/2. */
  lemma ComparisonAsWrittenExample()
    ensures GreaterAsWrittenValues(0, 1, 1, 2) && !GreaterValues(0, 1, 1, 2)
    ensures !LessAsWrittenValues(0, 1, 1, 2) && LessValues(0, 1, 1, 2)
    ensures !EqualAsWrittenValues(1, 2, 1, 2) && EqualValues(1, 2, 1, 2)
  {
    assert GcdNat(1, 2) == 1 by {
      assert GcdNat(1, 2) == GcdNat(2, 1) == GcdNat(1, 0);
    }
    assert GcdNat(2, 2) == 2 by {
      assert GcdNat(2, 2) == GcdNat(2, 0);
    }
    assert LcmOf(1, 2) == 2 && LcmOf(2, 2) == 2;
    FiniteOrder(0, 1, 1, 2);
    FiniteOrder(1, 2, 1, 2);
    assert TruncDiv(2, 2) == 1 && TruncDiv(2, 1) == 2;
  }
}
