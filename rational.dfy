// rational_number: a numerator and a denominator, both arbitrary-precision
// integers, which normalize keeps in lowest terms with the sign on the
// numerator.  A zero denominator stands for +inf, -inf (nonzero numerator)
// or NaN (zero numerator).
module Rationals {
  import opened Limbs
  import opened Integers
  import IntegerArith
  import IntegerDivision
  import IntegerGcd
  import opened RationalValues

  /** reduction on values: after the sign step of normalize, dividing by the
      gcd gives the result normalize promises. */
  lemma ReductionMatchesNormalize(n: int, d: int)
    requires n != 0 && d != 0
    ensures var n1 := if (n < 0) != (d < 0) then -(Abs(n) as int) else Abs(n) as int;
      IntegerGcd.GcdOf(n1, Abs(d)) > 0 &&
      (IntegerDivision.TruncDiv(n1, IntegerGcd.GcdOf(n1, Abs(d))),
       IntegerDivision.TruncDiv(Abs(d), IntegerGcd.GcdOf(n1, Abs(d)))) == NormalizeValues(n, d)
    ensures NormalizeValues(n, d).1 > 0
  {
    IntegerGcd.GcdPositive(Abs(n), Abs(d));
    NormalizeCorrect(n, d);
  }

  class Rational {
    var denominator: Integer
    var numerator: Integer

    /** The numerator's value. */
    function Num(): int
      reads this
    {
      Value(numerator)
    }

    /** The denominator's value. */
    function Den(): int
      reads this
    {
      Value(denominator)
    }

    /** Both parts are well-formed integers. */
    ghost predicate PartsValid()
      reads this
    {
      Integers.Valid(numerator) && Integers.Valid(denominator)
    }

    /** What every public operation keeps: well-formed parts and a denominator
        that is never negative. */
    ghost predicate Valid()
      reads this
    {
      PartsValid() && Den() >= 0
    }

    /** rational_number() (rational_number.h:15): 0/1. */
    constructor ()
      ensures Valid() && Num() == 0 && Den() == 1
    {
      var one := FromNative(1);
      denominator := one;
      numerator := Integer([], false);
    }

    /** rational_number(const integer&) (rational_number.h:16-17): num/1,
        without normalize. */
    constructor FromInteger(num: Integer)
      requires Integers.Valid(num)
      ensures Valid() && numerator == num && Den() == 1
    {
      var one := FromNative(1);
      denominator := one;
      numerator := num;
    }

    /** rational_number(numerator, denominator) (rational_number.h:18-21):
        both parts stored, then normalize. */
    constructor FromPair(num: Integer, den: Integer)
      requires Integers.Valid(num) && Integers.Valid(den)
      ensures Valid() && (Num(), Den()) == NormalizeValues(Value(num), Value(den))
    {
      numerator := num;
      denominator := den;
      new;
      Normalize();
    }

    /** positive_inf() (rational_number.h:42-44): 1/0. */
    static method PositiveInf() returns (r: Rational)
      ensures fresh(r) && r.Valid() && PositiveInfValues(r.Num(), r.Den())
    {
      var one := FromNative(1);
      var zero := FromNative(0);
      r := new Rational.FromPair(one, zero);
    }

    /** negative_inf() (rational_number.h:46-48): -1/0. */
    static method NegativeInf() returns (r: Rational)
      ensures fresh(r) && r.Valid() && NegativeInfValues(r.Num(), r.Den())
    {
      var minusOne := FromNative(-1);
      var zero := FromNative(0);
      r := new Rational.FromPair(minusOne, zero);
    }

    /** NaN() (rational_number.h:50-52): 0/0. */
    static method NaN() returns (r: Rational)
      ensures fresh(r) && r.Valid() && NaNValues(r.Num(), r.Den())
    {
      var zero := FromNative(0);
      r := new Rational.FromPair(zero, zero);
    }

    // -------------------------------------------------------------------------
    // Queries (rational_number.h:54-80, 110-112)
    // -------------------------------------------------------------------------

    /** is_NaN (rational_number.h:54-56). */
    function IsNaN(): (b: bool)
      reads this
      ensures PartsValid() ==> (b <==> NaNValues(Num(), Den()))
    {
      Integers.IsZero(numerator) && Integers.IsZero(denominator)
    }

    /** is_infinity (rational_number.h:58-60). */
    function IsInfinity(): (b: bool)
      reads this
      ensures PartsValid() ==> (b <==> InfinityValues(Num(), Den()))
    {
      !Integers.IsZero(numerator) && Integers.IsZero(denominator)
    }

    /** is_negative (rational_number.h:62-64): the signs of the parts differ
        and the numerator is not zero.  On a finite value, or one with an
        unsigned denominator, that is the value being below zero. */
    function IsNegative(): (b: bool)
      reads this
      ensures Valid() && (Den() != 0 || !denominator.negative) ==> (b <==> Num() < 0)
    {
      ValZeroIffEmpty(numerator.mag);
      (Integers.IsNegative(numerator) != Integers.IsNegative(denominator)) && !Integers.IsZero(numerator)
    }

    /** is_negative_inf (rational_number.h:66-68). */
    function IsNegativeInf(): (b: bool)
      reads this
      ensures PartsValid() ==> (b <==> NegativeInfValues(Num(), Den()))
    {
      ValZeroIffEmpty(numerator.mag);
      IsInfinity() && Integers.IsNegative(numerator)
    }

    /** is_positive_inf (rational_number.h:70-72). */
    function IsPositiveInf(): (b: bool)
      reads this
      ensures PartsValid() ==> (b <==> PositiveInfValues(Num(), Den()))
    {
      ValZeroIffEmpty(numerator.mag);
      IsInfinity() && !Integers.IsNegative(numerator)
    }

    /** is_zero (rational_number.h:74-76). */
    function IsZero(): (b: bool)
      reads this
      ensures PartsValid() ==> (b <==> ZeroValues(Num(), Den()))
    {
      Integers.IsZero(numerator) && !Integers.IsZero(denominator)
    }

    /** operator bool (rational_number.h:78-80): true for everything but
        zero, infinities and NaN included. */
    function ToBool(): (b: bool)
      reads this
      ensures PartsValid() ==> (b <==> !ZeroValues(Num(), Den()))
    {
      !IsZero()
    }

    /** operator! as written (rational_number.h:110-112): it returns
        !is_zero(), so it always agrees with operator bool. */
    function NotAsWritten(): (b: bool)
      reads this
      ensures b == ToBool()
      ensures PartsValid() ==> (b <==> !ZeroValues(Num(), Den()))
    {
      !IsZero()
    }

    /** operator! as intended: true exactly for zero, the negation of
        operator bool. */
    function Not(): (b: bool)
      reads this
      ensures b == !ToBool()
      ensures PartsValid() ==> (b <==> ZeroValues(Num(), Den()))
    {
      IsZero()
    }

    // -------------------------------------------------------------------------
    // normalize (rational_number.cpp:5-24) and reduction (rational_number.h:193-198)
    // -------------------------------------------------------------------------

    /** normalize: 0/d becomes 0/1 (the numerator is left as it is), n/0 keeps
        the numerator's sign on magnitude 1, 0/0 is left alone; otherwise the
        sign moves to the numerator and reduction divides out the gcd. */
    method Normalize()
      requires PartsValid()
      modifies this
      ensures Valid() && (Num(), Den()) == NormalizeValues(old(Num()), old(Den()))
    {
      ValOfSingle(1);
      if Integers.IsZero(numerator) && !Integers.IsZero(denominator) {
        // set_one_sign_unchange, then the sign cleared
        denominator := Integer([1], false);
        return;
      }
      if Integers.IsZero(denominator) && !Integers.IsZero(numerator) {
        numerator := Integer([1], numerator.negative);
        return;
      }
      if Integers.IsZero(numerator) && Integers.IsZero(denominator) {
        return;
      }
      SignAndReduce();
    }

    /** The last step of normalize, on two nonzero parts: the sign moves to
        the numerator, then reduction. */
    method SignAndReduce()
      requires PartsValid() && Num() != 0 && Den() != 0
      modifies this
      ensures Valid() && (Num(), Den()) == NormalizeValues(old(Num()), old(Den()))
    {
      ghost var n, d := Num(), Den();
      MoveSign();
      ghost var n1, d1 := Num(), Den();
      ghost var r := NormalizeValues(n, d);
      ReductionMatchesNormalize(n, d);
      ghost var g := IntegerGcd.GcdOf(n1, d1);
      assert g > 0 && IntegerDivision.TruncDiv(n1, g) == r.0 && IntegerDivision.TruncDiv(d1, g) == r.1;
      Reduction();
      assert Num() == r.0 && Den() == r.1 && r.1 > 0;
    }

    /** The sign step of normalize: the numerator is negative exactly when the
        signs of the parts differ, the denominator is unsigned. */
    method MoveSign()
      requires PartsValid() && Num() != 0 && Den() != 0
      modifies this
      ensures PartsValid()
      ensures Num() == (if (old(Num()) < 0) != (old(Den()) < 0) then -(Abs(old(Num())) as int) else Abs(old(Num())) as int)
      ensures Den() == Abs(old(Den()))
    {
      ValZeroIffEmpty(numerator.mag);
      ValZeroIffEmpty(denominator.mag);
      if Integers.IsNegative(numerator) != Integers.IsNegative(denominator) {
        numerator := numerator.(negative := true);
        denominator := denominator.(negative := false);
      } else {
        numerator := numerator.(negative := false);
        denominator := denominator.(negative := false);
      }
    }

    /** reduction: both parts divided by their gcd, unless the gcd is 0. */
    method Reduction()
      requires PartsValid()
      modifies this
      ensures PartsValid()
      ensures IntegerGcd.GcdOf(old(Num()), old(Den())) == 0 ==> Num() == old(Num()) && Den() == old(Den())
      ensures IntegerGcd.GcdOf(old(Num()), old(Den())) != 0 ==>
        Num() == IntegerDivision.TruncDiv(old(Num()), IntegerGcd.GcdOf(old(Num()), old(Den()))) &&
        Den() == IntegerDivision.TruncDiv(old(Den()), IntegerGcd.GcdOf(old(Num()), old(Den())))
    {
      var factor := IntegerGcd.Gcd(numerator, denominator);
      if Integers.IsZero(factor) {
        return;
      }
      var d := IntegerDivision.Div(denominator, factor);
      denominator := d.value;
      var n := IntegerDivision.Div(numerator, factor);
      numerator := n.value;
    }

    // -------------------------------------------------------------------------
    // Arithmetic (rational_number.h:82-108, 162-186)
    // -------------------------------------------------------------------------

    /** lcm_res, lhs_num and rhs_num of the binary operators: the common
        denominator lcm(d1, d2) and each numerator scaled to it. */
    method CommonDenominator(rhs: Rational) returns (lcmRes: Integer, lhsNum: Integer, rhsNum: Integer)
      requires Valid() && rhs.Valid() && Den() > 0 && rhs.Den() > 0
      ensures Canonical(lcmRes) && Canonical(lhsNum) && Canonical(rhsNum)
      ensures Value(lcmRes) == IntegerGcd.LcmOf(Den(), rhs.Den())
      ensures (Value(lhsNum), Value(rhsNum)) == Scaled(Num(), Den(), rhs.Num(), rhs.Den())
    {
      lcmRes := IntegerGcd.Lcm(denominator, rhs.denominator);
      var lq := IntegerDivision.Div(lcmRes, denominator);
      lhsNum := IntegerArith.Mul(lq.value, numerator);
      var rq := IntegerDivision.Div(lcmRes, rhs.denominator);
      rhsNum := IntegerArith.Mul(rq.value, rhs.numerator);
    }

    /** operator+ (rational_number.h:82-90). */
    method Add(rhs: Rational) returns (r: Rational)
      requires Valid() && rhs.Valid()
      ensures fresh(r) && r.Valid()
      ensures (r.Num(), r.Den()) == SumValues(Num(), Den(), rhs.Num(), rhs.Den())
    {
      if IsNaN() || rhs.IsNaN() || IsInfinity() || rhs.IsInfinity() {
        r := NaN();
        return;
      }
      var lcmRes, lhsNum, rhsNum := CommonDenominator(rhs);
      var sum := IntegerArith.Add(lhsNum, rhsNum);
      r := new Rational.FromPair(sum, lcmRes);
      NormalizeIdempotent(Value(sum), Value(lcmRes));
      r.Normalize();
    }

    /** operator- (rational_number.h:96-104). */
    method Sub(rhs: Rational) returns (r: Rational)
      requires Valid() && rhs.Valid()
      ensures fresh(r) && r.Valid()
      ensures (r.Num(), r.Den()) == DifferenceValues(Num(), Den(), rhs.Num(), rhs.Den())
    {
      if IsNaN() || rhs.IsNaN() || IsInfinity() || rhs.IsInfinity() {
        r := NaN();
        return;
      }
      var lcmRes, lhsNum, rhsNum := CommonDenominator(rhs);
      var diff := IntegerArith.Sub(lhsNum, rhsNum);
      r := new Rational.FromPair(diff, lcmRes);
      NormalizeIdempotent(Value(diff), Value(lcmRes));
      r.Normalize();
    }

    /** operator= (rational_number.h:28-33): both parts copied. */
    method Assign(other: Rational)
      modifies this
      ensures numerator == old(other.numerator) && denominator == old(other.denominator)
    {
      var n, d := other.numerator, other.denominator;
      numerator := n;
      denominator := d;
    }

    /** operator+= (rational_number.h:92-94): the sum assigned to this. */
    method AddAssign(rhs: Rational)
      requires Valid() && rhs.Valid()
      modifies this
      ensures Valid() && (Num(), Den()) == SumValues(old(Num()), old(Den()), old(rhs.Num()), old(rhs.Den()))
    {
      var t := Add(rhs);
      Assign(t);
    }

    /** operator-= (rational_number.h:106-108): the difference assigned to this. */
    method SubAssign(rhs: Rational)
      requires Valid() && rhs.Valid()
      modifies this
      ensures Valid() && (Num(), Den()) == DifferenceValues(old(Num()), old(Den()), old(rhs.Num()), old(rhs.Den()))
    {
      var t := Sub(rhs);
      Assign(t);
    }

    /** operator* (rational_number.h:162-166). */
    method Mul(rhs: Rational) returns (r: Rational)
      requires Valid() && rhs.Valid()
      ensures fresh(r) && r.Valid()
      ensures (r.Num(), r.Den()) == ProductValues(Num(), Den(), rhs.Num(), rhs.Den())
    {
      var n := IntegerArith.Mul(numerator, rhs.numerator);
      var d := IntegerArith.Mul(denominator, rhs.denominator);
      r := new Rational.FromPair(n, d);
      NormalizeIdempotent(Value(n), Value(d));
      r.Normalize();
    }

    /** operator*= (rational_number.h:168-173).  With rhs an alias of this the
        numerator is updated first, but the denominator step reads only the
        denominator, so the result is the product either way. */
    method MulAssign(rhs: Rational)
      requires Valid() && rhs.Valid()
      modifies this
      ensures Valid() && (Num(), Den()) == ProductValues(old(Num()), old(Den()), old(rhs.Num()), old(rhs.Den()))
    {
      numerator := IntegerArith.Mul(numerator, rhs.numerator);
      denominator := IntegerArith.Mul(denominator, rhs.denominator);
      Normalize();
    }

    /** operator/ (rational_number.h:175-179). */
    method Div(rhs: Rational) returns (r: Rational)
      requires Valid() && rhs.Valid()
      ensures fresh(r) && r.Valid()
      ensures (r.Num(), r.Den()) == QuotientValues(Num(), Den(), rhs.Num(), rhs.Den())
    {
      var n := IntegerArith.Mul(numerator, rhs.denominator);
      var d := IntegerArith.Mul(denominator, rhs.numerator);
      r := new Rational.FromPair(n, d);
      NormalizeIdempotent(Value(n), Value(d));
      r.Normalize();
    }

    /** operator/= as written (rational_number.h:181-186): with rhs an alias
        of this, the denominator is multiplied by the numerator already
        multiplied by the denominator. */
    method DivAssignAsWritten(rhs: Rational)
      requires Valid() && rhs.Valid()
      modifies this
      ensures Valid()
      ensures rhs != this ==> (Num(), Den()) == QuotientValues(old(Num()), old(Den()), old(rhs.Num()), old(rhs.Den()))
      ensures rhs == this ==> (Num(), Den()) == SelfQuotientAsWritten(old(Num()), old(Den()))
    {
      numerator := IntegerArith.Mul(numerator, rhs.denominator);
      denominator := IntegerArith.Mul(denominator, rhs.numerator);
      Normalize();
    }

    /** operator/= as intended: the divisor's parts are read before this
        changes, so x /= x is 1 for a nonzero finite x. */
    method DivAssign(rhs: Rational)
      requires Valid() && rhs.Valid()
      modifies this
      ensures Valid() && (Num(), Den()) == QuotientValues(old(Num()), old(Den()), old(rhs.Num()), old(rhs.Den()))
    {
      var rn, rd := rhs.numerator, rhs.denominator;
      numerator := IntegerArith.Mul(numerator, rd);
      denominator := IntegerArith.Mul(denominator, rn);
      Normalize();
    }

    // -------------------------------------------------------------------------
    // Comparisons (rational_number.h:114-160)
    // -------------------------------------------------------------------------

    /** operator> as intended: lhs_num > rhs_num on finite values. */
    method Greater(rhs: Rational) returns (b: bool)
      requires Valid() && rhs.Valid()
      ensures b == GreaterValues(Num(), Den(), rhs.Num(), rhs.Den())
    {
      if IsNaN() || rhs.IsNaN() || IsNegativeInf() || rhs.IsPositiveInf() {
        return false;
      }
      if (IsPositiveInf() && !rhs.IsPositiveInf()) || (rhs.IsNegativeInf() && !IsNegativeInf()) {
        return true;
      }
      if IsInfinity() || rhs.IsInfinity() {
        return false;
      }
      var lcmRes, lhsNum, rhsNum := CommonDenominator(rhs);
      b := Integers.Greater(lhsNum, rhsNum);
    }

    /** operator> as written (rational_number.h:114-122): lcm_res > rhs_num. */
    method GreaterAsWritten(rhs: Rational) returns (b: bool)
      requires Valid() && rhs.Valid()
      ensures b == GreaterAsWrittenValues(Num(), Den(), rhs.Num(), rhs.Den())
    {
      if IsNaN() || rhs.IsNaN() || IsNegativeInf() || rhs.IsPositiveInf() {
        return false;
      }
      if (IsPositiveInf() && !rhs.IsPositiveInf()) || (rhs.IsNegativeInf() && !IsNegativeInf()) {
        return true;
      }
      if IsInfinity() || rhs.IsInfinity() {
        return false;
      }
      var lcmRes, lhsNum, rhsNum := CommonDenominator(rhs);
      b := Integers.Greater(lcmRes, rhsNum);
    }

    /** operator< as intended: lhs_num < rhs_num on finite values. */
    method Less(rhs: Rational) returns (b: bool)
      requires Valid() && rhs.Valid()
      ensures b == LessValues(Num(), Den(), rhs.Num(), rhs.Den())
    {
      if IsNaN() || rhs.IsNaN() || IsPositiveInf() || rhs.IsNegativeInf() {
        return false;
      }
      if (IsNegativeInf() && !rhs.IsNegativeInf()) || (rhs.IsPositiveInf() && !IsPositiveInf()) {
        return true;
      }
      if IsInfinity() || rhs.IsInfinity() {
        return false;
      }
      var lcmRes, lhsNum, rhsNum := CommonDenominator(rhs);
      b := Integers.Less(lhsNum, rhsNum);
    }

    /** operator< as written (rational_number.h:124-132): lcm_res < rhs_num. */
    method LessAsWritten(rhs: Rational) returns (b: bool)
      requires Valid() && rhs.Valid()
      ensures b == LessAsWrittenValues(Num(), Den(), rhs.Num(), rhs.Den())
    {
      if IsNaN() || rhs.IsNaN() || IsPositiveInf() || rhs.IsNegativeInf() {
        return false;
      }
      if (IsNegativeInf() && !rhs.IsNegativeInf()) || (rhs.IsPositiveInf() && !IsPositiveInf()) {
        return true;
      }
      if IsInfinity() || rhs.IsInfinity() {
        return false;
      }
      var lcmRes, lhsNum, rhsNum := CommonDenominator(rhs);
      b := Integers.Less(lcmRes, rhsNum);
    }

    /** operator== as intended: lhs_num == rhs_num on finite values. */
    method Equal(rhs: Rational) returns (b: bool)
      requires Valid() && rhs.Valid()
      ensures b == EqualValues(Num(), Den(), rhs.Num(), rhs.Den())
    {
      if IsNaN() || rhs.IsNaN() || IsInfinity() || rhs.IsInfinity() {
        return false;
      }
      var lcmRes, lhsNum, rhsNum := CommonDenominator(rhs);
      b := Integers.Equal(lhsNum, rhsNum);
    }

    /** operator== as written (rational_number.h:134-140): lcm_res == rhs_num. */
    method EqualAsWritten(rhs: Rational) returns (b: bool)
      requires Valid() && rhs.Valid()
      ensures b == EqualAsWrittenValues(Num(), Den(), rhs.Num(), rhs.Den())
    {
      if IsNaN() || rhs.IsNaN() || IsInfinity() || rhs.IsInfinity() {
        return false;
      }
      var lcmRes, lhsNum, rhsNum := CommonDenominator(rhs);
      b := Integers.Equal(lcmRes, rhsNum);
    }

    /** operator<= (rational_number.h:142-147), over the corrected operator>. */
    method LessEq(rhs: Rational) returns (b: bool)
      requires Valid() && rhs.Valid()
      ensures b == LessEqValues(Num(), Den(), rhs.Num(), rhs.Den())
    {
      if IsNaN() || rhs.IsNaN() || IsPositiveInf() || rhs.IsNegativeInf() {
        return false;
      }
      if (IsNegativeInf() && !rhs.IsNegativeInf()) || (rhs.IsPositiveInf() && !IsPositiveInf()) {
        return true;
      }
      if IsInfinity() || rhs.IsInfinity() {
        return false;
      }
      var gt := Greater(rhs);
      b := !gt;
    }

    /** operator>= (rational_number.h:149-154), over the corrected operator<. */
    method GreaterEq(rhs: Rational) returns (b: bool)
      requires Valid() && rhs.Valid()
      ensures b == GreaterEqValues(Num(), Den(), rhs.Num(), rhs.Den())
    {
      if IsNaN() || rhs.IsNaN() || IsNegativeInf() || rhs.IsPositiveInf() {
        return false;
      }
      if (IsPositiveInf() && !rhs.IsPositiveInf()) || (rhs.IsNegativeInf() && !IsNegativeInf()) {
        return true;
      }
      if IsInfinity() || rhs.IsInfinity() {
        return false;
      }
      var lt := Less(rhs);
      b := !lt;
    }

    /** operator!= (rational_number.h:156-160), over the corrected operator==. */
    method NotEqual(rhs: Rational) returns (b: bool)
      requires Valid() && rhs.Valid()
      ensures b == NotEqualValues(Num(), Den(), rhs.Num(), rhs.Den())
    {
      if IsNaN() || rhs.IsNaN() {
        return true;
      }
      if IsInfinity() || rhs.IsInfinity() {
        return false;
      }
      var eq := Equal(rhs);
      b := !eq;
    }
  }
}
