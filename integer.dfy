/**
 * The signed integer (integer.h): a sign flag over a magnitude held in a limb
 * container.  The representation is valid when the magnitude is normalized
 * and canonical when, in addition, zero carries no sign; integer::normalize
 * establishes both, but opposite(), the shifts and the bitwise operators can
 * leave a negative zero behind.
 */
module Integers {
  import opened Arith
  import opened Limbs
  import opened LimbBitwise
  import LimbCompare
  import LimbShift

  datatype Integer = Integer(mag: seq<Limb>, negative: bool)

  /** Why an operation fails where the source throws. */
  datatype Error = DivisionByZero | InvalidFormat

  datatype Result<T> = Success(value: T) | Failure(error: Error)

  /** The signed value a representation stands for; a negative zero is 0. */
  function Value(x: Integer): int
  {
    if x.negative then -(Val(x.mag) as int) else Val(x.mag)
  }

  predicate Valid(x: Integer)
  {
    Normalized(x.mag)
  }

  predicate Canonical(x: Integer)
  {
    Valid(x) && (x.negative ==> |x.mag| > 0)
  }

  function Abs(n: int): nat
  {
    if n < 0 then -n else n
  }

  /** Each integer has exactly one canonical representation. */
  lemma CanonicalUnique(x: Integer, y: Integer)
    requires Canonical(x) && Canonical(y) && Value(x) == Value(y)
    ensures x == y
  {
    ValZeroIffEmpty(x.mag);
    ValZeroIffEmpty(y.mag);
    ValInjective(x.mag, y.mag);
  }

  /** The canonical form of every integer value. */
  lemma CanonicalExists(n: int) returns (x: Integer)
    ensures Canonical(x) && Value(x) == n
  {
    var m := Trimmed(FromNat(Abs(n)));
    x := Integer(m, n < 0);
    ValZeroIffEmpty(m);
  }

  /** The little-endian limbs of n, possibly with trailing zeros trimmed away later. */
  function FromNat(n: nat): (r: seq<Limb>)
    ensures Val(r) == n
    decreases n
  {
    if n == 0 then [] else
      var t := FromNat(n / BASE);
      ValCons(n % BASE, t);
      [n % BASE] + t
  }

  /**
   * integer::normalize (integer.h:26-29): drop the high zero limbs, then clear
   * the sign of zero.
   */
  method NormalizeSigned(x: Integer) returns (r: Integer)
    ensures Canonical(r) && Value(r) == Value(x)
    ensures r.mag == Trimmed(x.mag)
    ensures r.negative <==> x.negative && Val(x.mag) != 0
  {
    var m := Normalize(x.mag);
    ValZeroIffEmpty(m);
    r := Integer(m, x.negative);
    if Limbs.IsZero(m) {
      r := r.(negative := false);
    }
  }

  /**
   * The native-integer constructors (integer.h:38-48), collapsed into one: the
   * magnitude is built from |n| as a one- or two-limb container and the sign
   * is set for a negative n.  The range is that of long long and unsigned long
   * long, without the minimum long long, whose negation overflows.
   */
  method FromNative(n: int) returns (r: Integer)
    requires -0x7FFF_FFFF_FFFF_FFFF <= n <= 0xFFFF_FFFF_FFFF_FFFF
    ensures Canonical(r) && Value(r) == n
  {
    var m := FromDoubleUnit(if n < 0 then -n else n);
    r := Integer(m, n < 0);
  }

  // ---------------------------------------------------------------------------
  // Queries (integer.h:77-129)

  /** is_zero (integer.h:88-90): the magnitude is empty, whatever the sign. */
  function IsZero(x: Integer): (b: bool)
    ensures Valid(x) ==> (b <==> Value(x) == 0)
  {
    Limbs.IsZero(x.mag)
  }

  /** operator bool (integer.h:77-79). */
  function ToBool(x: Integer): (b: bool)
    ensures Valid(x) ==> (b <==> Value(x) != 0)
  {
    !IsZero(x)
  }

  /** is_one (integer.h:92-94): magnitude 1 and no sign. */
  function IsOne(x: Integer): (b: bool)
    ensures b ==> Value(x) == 1
    ensures Valid(x) && Value(x) == 1 ==> b
  {
    Limbs.IsOne(x.mag) && !x.negative
  }

  /** is_one_abs (integer.h:97-99). */
  function IsOneAbs(x: Integer): (b: bool)
    ensures b ==> Abs(Value(x)) == 1
    ensures Valid(x) && Abs(Value(x)) == 1 ==> b
  {
    Limbs.IsOne(x.mag)
  }

  /** is_negative (integer.h:123-125): the sign flag, which a negative zero also carries. */
  function IsNegative(x: Integer): (b: bool)
    ensures Canonical(x) ==> (b <==> Value(x) < 0)
  {
    ValZeroIffEmpty(x.mag);
    x.negative
  }

  /** is_positive (integer.h:127-129). */
  function IsPositive(x: Integer): (b: bool)
    ensures Valid(x) ==> (b <==> Value(x) > 0)
  {
    !x.negative && !IsZero(x)
  }

  /** abs() / make_abs() (integer.h:102-104, 112-115): the magnitude without a sign. */
  function AbsValue(x: Integer): (r: Integer)
    ensures Value(r) == Abs(Value(x)) && r.mag == x.mag
    ensures Valid(x) ==> Canonical(r)
  {
    Integer(x.mag, false)
  }

  /** opposite() / make_opposite() (integer.h:107-109, 117-121): the sign flipped, without normalizing. */
  function Opposite(x: Integer): (r: Integer)
    ensures Value(r) == -Value(x) && r.mag == x.mag
    ensures Valid(x) ==> Valid(r)
    ensures Canonical(x) && Value(x) != 0 ==> Canonical(r)
  {
    ValZeroIffEmpty(x.mag);
    Integer(x.mag, !x.negative)
  }

  /** The opposite of zero is a negative zero: valid, but not canonical. */
  lemma OppositeOfZero()
    ensures Valid(Opposite(Integer([], false)))
    ensures !Canonical(Opposite(Integer([], false)))
    ensures Opposite(Opposite(Integer([], false))) == Integer([], false)
  {
  }

  // ---------------------------------------------------------------------------
  // Comparisons (integer.h:131-163)

  /** operator== (integer.h:131-133): the same magnitude and the same sign flag. */
  method Equal(x: Integer, y: Integer) returns (r: bool)
    ensures r <==> x == y
    ensures Canonical(x) && Canonical(y) ==> (r <==> Value(x) == Value(y))
  {
    var sameMag := LimbCompare.Equal(x.mag, y.mag);
    r := sameMag && x.negative == y.negative;
    if Canonical(x) && Canonical(y) && Value(x) == Value(y) {
      CanonicalUnique(x, y);
    }
  }

  /** operator!= (integer.h:135-137). */
  method NotEqual(x: Integer, y: Integer) returns (r: bool)
    ensures r <==> x != y
    ensures Canonical(x) && Canonical(y) ==> (r <==> Value(x) != Value(y))
  {
    var eq := Equal(x, y);
    r := !eq;
  }

  /**
   * The order operator> computes on any two integers, negative zeros included:
   * the sign flag decides first, then the magnitudes, in reverse for negatives.
   */
  predicate SignFirstGreater(x: Integer, y: Integer)
  {
    if x.negative != y.negative then !x.negative
    else if x.negative then LimbCompare.MagLess(x.mag, y.mag)
    else LimbCompare.MagLess(y.mag, x.mag)
  }

  /** On canonical integers the sign rules of operator> and operator< give the numeric order. */
  lemma SignedOrder(x: Integer, y: Integer)
    requires Canonical(x) && Canonical(y)
    ensures SignFirstGreater(x, y) <==> Value(x) > Value(y)
    ensures x.negative != y.negative ==> (Value(x) > Value(y) <==> !x.negative)
    ensures !x.negative && !y.negative ==> (Value(x) > Value(y) <==> LimbCompare.MagLess(y.mag, x.mag))
    ensures x.negative && y.negative ==> (Value(x) > Value(y) <==> LimbCompare.MagLess(x.mag, y.mag))
  {
    ValZeroIffEmpty(x.mag);
    ValZeroIffEmpty(y.mag);
    LimbCompare.MagLessIsNumeric(x.mag, y.mag);
    LimbCompare.MagLessIsNumeric(y.mag, x.mag);
  }

  /**
   * operator> (integer.h:139-146): a non-negative flag beats a negative one;
   * with equal flags the magnitudes compare, in reverse for negatives.
   */
  method Greater(x: Integer, y: Integer) returns (r: bool)
    ensures x.negative != y.negative ==> (r <==> !x.negative)
    ensures x.negative == y.negative ==>
      (r <==> if x.negative then LimbCompare.MagLess(x.mag, y.mag) else LimbCompare.MagLess(y.mag, x.mag))
    ensures r <==> SignFirstGreater(x, y)
    ensures Canonical(x) && Canonical(y) ==> (r <==> Value(x) > Value(y))
  {
    if x.negative != y.negative {
      r := !x.negative;
    } else if x.negative {
      r := LimbCompare.Less(x.mag, y.mag);
    } else {
      r := LimbCompare.Greater(x.mag, y.mag);
    }
    if Canonical(x) && Canonical(y) {
      SignedOrder(x, y);
    }
  }

  /** operator< (integer.h:148-155): the mirror of operator>. */
  method Less(x: Integer, y: Integer) returns (r: bool)
    ensures x.negative != y.negative ==> (r <==> x.negative)
    ensures x.negative == y.negative ==>
      (r <==> if x.negative then LimbCompare.MagLess(y.mag, x.mag) else LimbCompare.MagLess(x.mag, y.mag))
    ensures r <==> SignFirstGreater(y, x)
    ensures Canonical(x) && Canonical(y) ==> (r <==> Value(x) < Value(y))
  {
    if x.negative != y.negative {
      r := x.negative;
    } else if x.negative {
      r := LimbCompare.Greater(x.mag, y.mag);
    } else {
      r := LimbCompare.Less(x.mag, y.mag);
    }
    if Canonical(x) && Canonical(y) {
      SignedOrder(y, x);
    }
  }

  /** operator>= (integer.h:157-159): not less. */
  method GreaterEq(x: Integer, y: Integer) returns (r: bool)
    ensures r <==> !SignFirstGreater(y, x)
    ensures Canonical(x) && Canonical(y) ==> (r <==> Value(x) >= Value(y))
  {
    var lt := Less(x, y);
    r := !lt;
  }

  /** operator<= (integer.h:161-163): not greater. */
  method LessEq(x: Integer, y: Integer) returns (r: bool)
    ensures r <==> !SignFirstGreater(x, y)
    ensures Canonical(x) && Canonical(y) ==> (r <==> Value(x) <= Value(y))
  {
    var gt := Greater(x, y);
    r := !gt;
  }

  /**
   * A negative zero and zero have the same value, yet the flag-first order
   * puts 0 above -0: 0 > -0 and -0 < 0 hold, -0 >= 0 and 0 <= -0 do not.
   */
  lemma SignedZeroOrderExample()
    ensures Value(Integer([], false)) == Value(Integer([], true))
    ensures SignFirstGreater(Integer([], false), Integer([], true))
    ensures !SignFirstGreater(Integer([], true), Integer([], false))
  {
  }

  // ---------------------------------------------------------------------------
  // Shifts (integer.h:165-181): the magnitude shifts and the sign flag stays,
  // so a right shift truncates toward zero and can leave a negative zero.

  /** operator>>= (integer.h:165-168). */
  method ShiftRightAssign(x: Integer, k: nat) returns (r: Integer)
    ensures r.negative == x.negative
    ensures Val(r.mag) == Val(x.mag) / Pow2(k)
    ensures Valid(x) ==> Valid(r)
  {
    var m := LimbShift.ShiftRightAssign(x.mag, k);
    r := Integer(m, x.negative);
  }

  /** operator>> (integer.h:170-172). */
  method ShiftRight(x: Integer, k: nat) returns (r: Integer)
    ensures r.negative == x.negative
    ensures Val(r.mag) == Val(x.mag) / Pow2(k)
    ensures Valid(x) ==> Valid(r)
  {
    var m := LimbShift.ShiftRight(x.mag, k);
    r := Integer(m, x.negative);
  }

  /** operator<<= (integer.h:174-177). */
  method ShiftLeftAssign(x: Integer, k: nat) returns (r: Integer)
    ensures r.negative == x.negative
    ensures Value(r) == Value(x) * Pow2(k)
    ensures Valid(r)
  {
    var m := LimbShift.ShiftLeftAssign(x.mag, k);
    r := Integer(m, x.negative);
  }

  /** operator<< (integer.h:179-181). */
  method ShiftLeft(x: Integer, k: nat) returns (r: Integer)
    ensures r.negative == x.negative
    ensures Value(r) == Value(x) * Pow2(k)
    ensures Valid(r)
  {
    var m := LimbShift.ShiftLeft(x.mag, k);
    r := Integer(m, x.negative);
  }

  // ---------------------------------------------------------------------------
  // Bitwise operators (integer.h:183-213): the container operator on the
  // magnitudes, and a sign combined from the two flags.

  /** operator| and |= (integer.h:184-192): the sign is the or of the flags. */
  method BitOr(x: Integer, y: Integer) returns (r: Integer)
    ensures r.mag == OrSpec(x.mag, y.mag)
    ensures r.negative <==> x.negative || y.negative
    ensures Valid(x) && Valid(y) ==> Valid(r)
    ensures Val(r.mag) >= Val(x.mag) && Val(r.mag) >= Val(y.mag)
  {
    var m := Or(x.mag, y.mag);
    OrSpecProperties(x.mag, y.mag);
    OrSpecProperties(y.mag, x.mag);
    r := Integer(m, x.negative || y.negative);
  }

  /** operator& and &= (integer.h:195-203): the sign is the and of the flags. */
  method BitAnd(x: Integer, y: Integer) returns (r: Integer)
    ensures r.mag == Trimmed(AndSpec(x.mag, y.mag))
    ensures r.negative <==> x.negative && y.negative
    ensures Valid(r)
    ensures Val(r.mag) <= Val(x.mag) && Val(r.mag) <= Val(y.mag)
  {
    var m := And(x.mag, y.mag);
    AndSpecProperties(x.mag, y.mag);
    AndSpecProperties(y.mag, x.mag);
    r := Integer(m, x.negative && y.negative);
  }

  /** operator^ and ^= as written (integer.h:206-214): the untrimmed container xor. */
  method BitXorAsWritten(x: Integer, y: Integer) returns (r: Integer)
    ensures r.mag == XorSpec(x.mag, y.mag)
    ensures r.negative <==> x.negative != y.negative
  {
    var m := Xor(x.mag, y.mag);
    r := Integer(m, x.negative != y.negative);
  }

  /** operator^ with the magnitude normalized, which the rest of the model relies on. */
  method BitXor(x: Integer, y: Integer) returns (r: Integer)
    ensures r.mag == Trimmed(XorSpec(x.mag, y.mag))
    ensures r.negative <==> x.negative != y.negative
    ensures Valid(r)
    ensures Val(r.mag) == Val(XorSpec(x.mag, y.mag))
  {
    var m := XorNormalized(x.mag, y.mag);
    r := Integer(m, x.negative != y.negative);
  }

  /** Xor with the same operand twice gives the magnitude back. */
  lemma BitXorInvolution(x: Integer, y: Integer)
    ensures Val(XorSpec(Trimmed(XorSpec(x.mag, y.mag)), y.mag)) == Val(x.mag)
  {
    var t := XorSpec(x.mag, y.mag);
    var u := Trimmed(t);
    XorTrimInvariant(t, y.mag);
    XorSpecInvolution(x.mag, y.mag);
  }

  /** Trimming zero limbs off one operand does not change the value of an xor. */
  lemma XorTrimInvariant(t: seq<Limb>, b: seq<Limb>)
    ensures Val(XorSpec(Trimmed(t), b)) == Val(XorSpec(t, b))
  {
    var u := Trimmed(t);
    var n := Max(|t|, |b|);
    var e := XorSpec(u, b) + Zeros(n - Max(|u|, |b|));
    assert forall i :: 0 <= i < n ==> e[i] == XorSpec(t, b)[i] by {
      forall i | 0 <= i < n
        ensures e[i] == XorSpec(t, b)[i]
      {
        if i < Max(|u|, |b|) {
          assert At(u, i) == At(t, i);
        } else {
          assert At(t, i) == 0 && At(b, i) == 0;
          LimbXorFacts(0, 0);
        }
      }
    }
    assert e == XorSpec(t, b);
    ValTrailingZeros(XorSpec(u, b), n - Max(|u|, |b|));
  }
}
