// gcd (Euclid's algorithm on integer values) and lcm.
module IntegerGcd {
  import opened Arith
  import opened Limbs
  import opened Integers
  import LimbCompare
  import IntegerArith
  import IntegerDivision

  /** Euclid's greatest common divisor of two naturals. */
  function GcdNat(a: nat, b: nat): nat
    decreases b
  {
    if b == 0 then a else GcdNat(b, a % b)
  }

  /** What gcd returns: 0 when either argument is 0, otherwise the greatest
      common divisor of the magnitudes. */
  function GcdOf(a: int, b: int): nat
  {
    if a == 0 || b == 0 then 0 else GcdNat(Abs(a), Abs(b))
  }

  /** What lcm returns: the magnitude of the other argument when one is 0,
      otherwise |a| / gcd(a, b) * |b|. */
  function LcmOf(a: int, b: int): nat
  {
    if a == 0 then Abs(b)
    else if b == 0 then Abs(a)
    else
      GcdPositive(Abs(a), Abs(b));
      NatProduct(Abs(a) / GcdNat(Abs(a), Abs(b)), Abs(b))
  }

  /** The product of two naturals, as a natural. */
  function NatProduct(x: nat, y: nat): (r: nat)
    ensures r == x * y
  {
    x * y
  }

  lemma MultipleOf(x: int, d: int, k: int)
    requires d > 0 && x == d * k
    ensures x % d == 0
  {
    DivOfSplit(x, 0, d, k);
  }

  /** Sums and multiples of multiples of d are multiples of d. */
  lemma MultipleSum(x: int, y: int, k: int, d: int)
    requires d > 0 && x % d == 0 && y % d == 0
    ensures (x + k * y) % d == 0
  {
    var xq, yq := x / d, y / d;
    assert x == d * xq && y == d * yq;
    assert x + k * y == d * (xq + k * yq) by {
      assert k * (d * yq) == d * (k * yq);
    }
    MultipleOf(x + k * y, d, xq + k * yq);
  }

  lemma {:induction false} GcdPositive(a: nat, b: nat)
    requires a > 0 || b > 0
    ensures GcdNat(a, b) > 0
    decreases b
  {
    if b > 0 {
      GcdPositive(b, a % b);
    }
  }

  /** gcd divides both arguments. */
  lemma {:induction false} GcdDividesBoth(a: nat, b: nat)
    requires a > 0 || b > 0
    ensures GcdNat(a, b) > 0 && a % GcdNat(a, b) == 0 && b % GcdNat(a, b) == 0
    decreases b
  {
    GcdPositive(a, b);
    var g := GcdNat(a, b);
    if b == 0 {
      MultipleOf(a, a, 1);
      MultipleOf(0, a, 0);
    } else {
      GcdDividesBoth(b, a % b);
      assert a == a % b + (a / b) * b;
      MultipleSum(a % b, b, a / b, g);
    }
  }

  /** Every common divisor of the arguments divides gcd. */
  lemma {:induction false} GcdGreatest(a: nat, b: nat, d: nat)
    requires d > 0 && a % d == 0 && b % d == 0
    ensures GcdNat(a, b) % d == 0
    decreases b
  {
    if b > 0 {
      assert a % b == a + (-(a / b)) * b;
      MultipleSum(a, b, -(a / b), d);
      GcdGreatest(b, a % b, d);
    }
  }

  /** gcd does not depend on the order of its arguments. */
  lemma GcdSwap(a: nat, b: nat)
    ensures GcdNat(a, b) == GcdNat(b, a)
  {
    if a < b {
      DivOfSplit(a, a, b, 0);
    } else if b < a {
      DivOfSplit(b, b, a, 0);
    }
  }

  lemma GcdSelf(a: nat)
    ensures GcdNat(a, a) == a
  {
    if a > 0 {
      DivOfSplit(a, 0, a, 1);
    }
  }

  /** gcd(first, second): 0 when either is 0, |first| when the two are equal,
      otherwise Euclid's loop on the magnitudes, larger first. */
  method Gcd(first: Integer, second: Integer) returns (g: Integer)
    requires Valid(first) && Valid(second)
    ensures Canonical(g) && Value(g) == GcdOf(Value(first), Value(second))
  {
    if Integers.IsZero(first) || Integers.IsZero(second) {
      return Integer([], false);
    }
    ValZeroIffEmpty(first.mag);
    ValZeroIffEmpty(second.mag);
    var same := Equal(first, second);
    if same {
      GcdSelf(Val(first.mag));
      return AbsValue(first);
    }
    var m: Integer;
    var n: Integer;
    var ge := LimbCompare.GreaterEq(first.mag, second.mag);
    LimbCompare.MagLessIsNumeric(second.mag, first.mag);
    LimbCompare.MagTrichotomy(first.mag, second.mag);
    if ge {
      m := AbsValue(first);
      n := AbsValue(second);
    } else {
      m := AbsValue(second);
      n := AbsValue(first);
    }
    GcdSwap(Val(first.mag), Val(second.mag));
    g := Euclid(m, n);
  }

  /** One step of Euclid's algorithm, with the remainder operator% gives on
      non-negative operands. */
  lemma EuclidStep(m: Integer, n: Integer, r: Integer)
    requires !m.negative && !n.negative && Val(n.mag) > 0
    requires Value(r) == IntegerDivision.TruncRem(Value(m), Value(n))
    requires Canonical(r)
    ensures !r.negative && Val(r.mag) < Val(n.mag)
    ensures GcdNat(Val(m.mag), Val(n.mag)) == GcdNat(Val(n.mag), Val(r.mag))
  {
    ValZeroIffEmpty(r.mag);
    assert Val(r.mag) == Val(m.mag) % Val(n.mag);
  }

  /** The loop of gcd: r = m % n; while (r) { m = n; n = r; r = m % n; }. */
  method Euclid(m0: Integer, n0: Integer) returns (g: Integer)
    requires Canonical(m0) && Canonical(n0) && !m0.negative && !n0.negative && Val(n0.mag) > 0
    ensures Canonical(g) && !g.negative && Val(g.mag) == GcdNat(Val(m0.mag), Val(n0.mag))
  {
    var m, n := m0, n0;
    var res := IntegerDivision.Mod(m, n);
    var r := res.value;
    EuclidStep(m, n, r);
    while ToBool(r)
      invariant Canonical(n) && Canonical(r) && !n.negative && !r.negative
      invariant Val(n.mag) > 0 && Val(r.mag) < Val(n.mag)
      invariant GcdNat(Val(n.mag), Val(r.mag)) == GcdNat(Val(m0.mag), Val(n0.mag))
      decreases Val(r.mag)
    {
      m := n;
      n := r;
      res := IntegerDivision.Mod(m, n);
      r := res.value;
      EuclidStep(m, n, r);
    }
    g := n;
  }

  /** lcm(first, second): the other argument's magnitude when gcd is 0,
      otherwise |first / gcd * second|. */
  method Lcm(first: Integer, second: Integer) returns (l: Integer)
    requires Valid(first) && Valid(second)
    ensures Canonical(l) && Value(l) == LcmOf(Value(first), Value(second))
  {
    var gcdRes := Gcd(first, second);
    if Value(first) != 0 && Value(second) != 0 {
      GcdPositive(Abs(Value(first)), Abs(Value(second)));
    }
    if Integers.IsZero(gcdRes) {
      if Integers.IsZero(first) {
        return AbsValue(second);
      }
      return AbsValue(first);
    }
    var q := IntegerDivision.Div(first, gcdRes);
    var p := IntegerArith.Mul(q.value, second);
    l := AbsValue(p);
    ghost var a, b := Value(first), Value(second);
    GcdDividesBoth(Abs(a), Abs(b));
    AbsTruncProduct(a, Value(gcdRes), b);
  }

  lemma AbsTruncProduct(a: int, g: int, b: int)
    requires g > 0
    ensures Abs(IntegerDivision.TruncDiv(a, g) * b) == (Abs(a) / g) * Abs(b)
  {
    var q := Abs(a) / g;
    var t := IntegerDivision.TruncDiv(a, g);
    assert Abs(t) == q;
    AbsOfProduct(t, b);
  }

  lemma AbsOfProduct(t: int, b: int)
    ensures Abs(t * b) == Abs(t) * Abs(b)
  {
    if t < 0 && b < 0 {
      assert t * b == (-t) * (-b);
    } else if t < 0 {
      assert t * b == -((-t) * b);
    } else if b < 0 {
      assert t * b == -(t * (-b));
    }
  }

  /** The result of lcm on nonzero arguments is a common multiple of both, and
      times gcd it is the product of the magnitudes. */
  lemma LcmProperties(a: int, b: int)
    requires a != 0 && b != 0
    ensures LcmOf(a, b) * GcdOf(a, b) == Abs(a) * Abs(b)
    ensures LcmOf(a, b) % Abs(a) == 0 && LcmOf(a, b) % Abs(b) == 0
  {
    var x, y := Abs(a), Abs(b);
    var g := GcdNat(x, y);
    GcdDividesBoth(x, y);
    var xg, yg := x / g, y / g;
    assert x == g * xg && y == g * yg;
    assert LcmOf(a, b) == xg * y;
    assert xg * y * g == x * y by {
      MulAssoc(xg, y, g);
      MulAssoc(xg, g, y);
    }
    assert xg * y == x * yg by {
      MulAssoc(xg, g, yg);
      MulAssoc(g, xg, yg);
    }
    MultipleOf(xg * y, x, yg);
    MultipleOf(xg * y, y, xg);
  }
}
