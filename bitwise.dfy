/**
 * Limb-wise or, and, xor of limb containers (integer_container.cpp:81-126).
 * Each builds a fresh container by push_back: or and xor walk the common
 * prefix and then copy the tail of the longer operand; and keeps only the
 * common prefix and normalizes.
 */
module LimbBitwise {
  import opened Arith
  import opened Limbs

  // ---------------------------------------------------------------------------
  // Bitwise operators on n-bit unsigned numbers, defined bit by bit from the
  // least significant bit up.

  function OrBits(x: nat, y: nat, n: nat): nat
  {
    if n == 0 then 0
    else (if x % 2 == 1 || y % 2 == 1 then 1 else 0) + 2 * OrBits(x / 2, y / 2, n - 1)
  }

  function AndBits(x: nat, y: nat, n: nat): nat
  {
    if n == 0 then 0
    else (if x % 2 == 1 && y % 2 == 1 then 1 else 0) + 2 * AndBits(x / 2, y / 2, n - 1)
  }

  function XorBits(x: nat, y: nat, n: nat): nat
  {
    if n == 0 then 0
    else (if (x % 2 == 1) != (y % 2 == 1) then 1 else 0) + 2 * XorBits(x / 2, y / 2, n - 1)
  }

  lemma {:induction false} HalfBelow(x: nat, n: nat)
    requires n > 0 && x < Pow2(n)
    ensures x / 2 < Pow2(n - 1)
  {
    DivBound(x, 2, Pow2(n - 1));
  }

  lemma {:induction false} BitsBound(x: nat, y: nat, n: nat)
    ensures OrBits(x, y, n) < Pow2(n)
    ensures AndBits(x, y, n) < Pow2(n)
    ensures XorBits(x, y, n) < Pow2(n)
  {
    if n > 0 {
      BitsBound(x / 2, y / 2, n - 1);
    }
  }

  lemma {:induction false} OrBitsFacts(x: nat, y: nat, n: nat)
    requires x < Pow2(n)
    ensures OrBits(x, 0, n) == x
    ensures OrBits(x, y, n) == OrBits(y, x, n)
    ensures OrBits(x, x, n) == x
    ensures OrBits(x, y, n) >= x
    ensures x != 0 ==> OrBits(x, y, n) != 0
  {
    if n > 0 {
      HalfBelow(x, n);
      OrBitsFacts(x / 2, y / 2, n - 1);
      assert 0 / 2 == 0;
    }
  }

  lemma {:induction false} AndBitsFacts(x: nat, y: nat, n: nat)
    requires x < Pow2(n)
    ensures AndBits(x, y, n) == AndBits(y, x, n)
    ensures AndBits(x, x, n) == x
    ensures AndBits(x, y, n) <= x
  {
    if n > 0 {
      HalfBelow(x, n);
      AndBitsFacts(x / 2, y / 2, n - 1);
    }
  }

  lemma {:induction false} XorBitsFacts(x: nat, y: nat, n: nat)
    requires x < Pow2(n)
    ensures XorBits(x, 0, n) == x
    ensures XorBits(x, y, n) == XorBits(y, x, n)
    ensures XorBits(x, x, n) == 0
    ensures XorBits(XorBits(x, y, n), y, n) == x
  {
    if n > 0 {
      HalfBelow(x, n);
      XorBitsFacts(x / 2, y / 2, n - 1);
      assert 0 / 2 == 0;
      var low := if (x % 2 == 1) != (y % 2 == 1) then 1 else 0;
      var rest := XorBits(x / 2, y / 2, n - 1);
      DivOfSplit(XorBits(x, y, n), low, 2, rest);
    }
  }

  /** unit_t | unit_t: the 32-bit bitwise or. */
  function LimbOr(x: Limb, y: Limb): Limb
  {
    BitsBound(x, y, UNIT_BIT);
    Pow2Base();
    OrBits(x, y, UNIT_BIT)
  }

  /** unit_t & unit_t: the 32-bit bitwise and. */
  function LimbAnd(x: Limb, y: Limb): Limb
  {
    BitsBound(x, y, UNIT_BIT);
    Pow2Base();
    AndBits(x, y, UNIT_BIT)
  }

  /** unit_t ^ unit_t: the 32-bit bitwise exclusive or. */
  function LimbXor(x: Limb, y: Limb): Limb
  {
    BitsBound(x, y, UNIT_BIT);
    Pow2Base();
    XorBits(x, y, UNIT_BIT)
  }

  lemma LimbOrFacts(x: Limb, y: Limb)
    ensures LimbOr(x, 0) == x && LimbOr(x, y) == LimbOr(y, x)
    ensures x != 0 ==> LimbOr(x, y) != 0
    ensures LimbOr(x, x) == x
    ensures LimbOr(x, y) >= x
  {
    Pow2Base();
    OrBitsFacts(x, y, UNIT_BIT);
  }

  lemma LimbAndFacts(x: Limb, y: Limb)
    ensures LimbAnd(x, y) == LimbAnd(y, x)
    ensures LimbAnd(x, x) == x
    ensures LimbAnd(x, y) <= x
  {
    Pow2Base();
    AndBitsFacts(x, y, UNIT_BIT);
  }

  lemma LimbXorFacts(x: Limb, y: Limb)
    ensures LimbXor(x, 0) == x && LimbXor(x, y) == LimbXor(y, x)
    ensures LimbXor(x, x) == 0
    ensures LimbXor(LimbXor(x, y), y) == x
  {
    Pow2Base();
    XorBitsFacts(x, y, UNIT_BIT);
  }

  // ---------------------------------------------------------------------------
  // Single bits

  /** Bit q of x. */
  predicate Bit(x: nat, q: nat)
  {
    (x / Pow2(q)) % 2 == 1
  }

  /** The limb 1U << p. */
  function Mask(p: nat): (r: Limb)
    requires p < UNIT_BIT
    ensures r == Pow2(p)
  {
    Pow2Monotone(p + 1, UNIT_BIT);
    Pow2Base();
    Pow2(p)
  }

  lemma BitLow(x: nat)
    ensures Bit(x, 0) == (x % 2 == 1)
  {
  }

  lemma BitHalf(x: nat, q: nat)
    ensures Bit(x, q + 1) == Bit(x / 2, q)
  {
    DivDiv(x, 2, Pow2(q));
    assert Pow2(q + 1) == 2 * Pow2(q);
  }

  lemma BitOfZero(q: nat)
    ensures !Bit(0, q)
  {
  }

  lemma {:induction false} BitOfOr(x: nat, y: nat, n: nat, q: nat)
    requires q < n
    ensures Bit(OrBits(x, y, n), q) == (Bit(x, q) || Bit(y, q))
  {
    var v := OrBits(x, y, n);
    var low := if x % 2 == 1 || y % 2 == 1 then 1 else 0;
    DivOfSplit(v, low, 2, OrBits(x / 2, y / 2, n - 1));
    if q > 0 {
      BitHalf(v, q - 1);
      BitHalf(x, q - 1);
      BitHalf(y, q - 1);
      BitOfOr(x / 2, y / 2, n - 1, q - 1);
    }
  }

  lemma {:induction false} BitOfAnd(x: nat, y: nat, n: nat, q: nat)
    requires q < n
    ensures Bit(AndBits(x, y, n), q) == (Bit(x, q) && Bit(y, q))
  {
    var v := AndBits(x, y, n);
    var low := if x % 2 == 1 && y % 2 == 1 then 1 else 0;
    DivOfSplit(v, low, 2, AndBits(x / 2, y / 2, n - 1));
    if q > 0 {
      BitHalf(v, q - 1);
      BitHalf(x, q - 1);
      BitHalf(y, q - 1);
      BitOfAnd(x / 2, y / 2, n - 1, q - 1);
    }
  }

  lemma {:induction false} BitOfXor(x: nat, y: nat, n: nat, q: nat)
    requires q < n
    ensures Bit(XorBits(x, y, n), q) == (Bit(x, q) != Bit(y, q))
  {
    var v := XorBits(x, y, n);
    var low := if (x % 2 == 1) != (y % 2 == 1) then 1 else 0;
    DivOfSplit(v, low, 2, XorBits(x / 2, y / 2, n - 1));
    if q > 0 {
      BitHalf(v, q - 1);
      BitHalf(x, q - 1);
      BitHalf(y, q - 1);
      BitOfXor(x / 2, y / 2, n - 1, q - 1);
    }
  }

  /** 2^p has exactly bit p set. */
  lemma {:induction false} BitOfPow2(p: nat, q: nat)
    ensures Bit(Pow2(p), q) == (p == q)
  {
    if q > 0 {
      BitHalf(Pow2(p), q - 1);
      if p == 0 {
        BitOfZero(q - 1);
      } else {
        assert Pow2(p) / 2 == Pow2(p - 1);
        BitOfPow2(p - 1, q - 1);
      }
    }
  }

  /** 2^n - 1 has exactly the bits below n set; unit_max is 2^32 - 1. */
  lemma {:induction false} BitOfLowMask(n: nat, q: nat)
    ensures Bit(Pow2(n) - 1, q) == (q < n)
  {
    if q > 0 {
      BitHalf(Pow2(n) - 1, q - 1);
      if n == 0 {
        BitOfZero(q - 1);
      } else {
        DivOfSplit(Pow2(n) - 1, 1, 2, Pow2(n - 1) - 1);
        BitOfLowMask(n - 1, q - 1);
      }
    }
  }

  /** A number below 2^n with no bit set below n is zero. */
  lemma {:induction false} NoBitsIsZero(v: nat, n: nat)
    requires v < Pow2(n)
    requires forall q :: 0 <= q < n ==> !Bit(v, q)
    ensures v == 0
  {
    if n > 0 {
      HalfBelow(v, n);
      forall q | 0 <= q < n - 1
        ensures !Bit(v / 2, q)
      {
        BitHalf(v, q);
      }
      NoBitsIsZero(v / 2, n - 1);
      assert !Bit(v, 0);
    }
  }

  /** bit_modifier::get (integer_container.h:64-66): (1U << pos) & unit is nonzero exactly when bit pos is set. */
  lemma GetIsBit(x: Limb, p: nat)
    requires p < UNIT_BIT
    ensures (LimbAnd(Mask(p), x) != 0) == Bit(x, p)
  {
    var v := LimbAnd(Mask(p), x);
    BitOfAnd(Mask(p), x, UNIT_BIT, p);
    BitOfPow2(p, p);
    if !Bit(x, p) {
      forall q | 0 <= q < UNIT_BIT
        ensures !Bit(v, q)
      {
        BitOfAnd(Mask(p), x, UNIT_BIT, q);
        BitOfPow2(p, q);
      }
      Pow2Base();
      NoBitsIsZero(v, UNIT_BIT);
    } else if v == 0 {
      BitOfZero(p);
    }
  }

  /**
   * bit_modifier::set_value (integer_container.h:81-88): or with 1U << pos to
   * set, and with (1U << pos) ^ unit_max to clear.
   */
  function SetLimbBit(x: Limb, p: nat, b: bool): Limb
    requires p < UNIT_BIT
  {
    if b then LimbOr(x, Mask(p)) else LimbAnd(x, LimbXor(Mask(p), UNIT_MAX))
  }

  /** set_value(b) makes bit pos equal to b and leaves every other bit of the limb as it was. */
  lemma SetLimbBitSpec(x: Limb, p: nat, b: bool, q: nat)
    requires p < UNIT_BIT && q < UNIT_BIT
    ensures Bit(SetLimbBit(x, p, b), q) == (if q == p then b else Bit(x, q))
  {
    BitOfPow2(p, q);
    if b {
      BitOfOr(x, Mask(p), UNIT_BIT, q);
    } else {
      Pow2Base();
      BitOfAnd(x, LimbXor(Mask(p), UNIT_MAX), UNIT_BIT, q);
      BitOfXor(Mask(p), UNIT_MAX, UNIT_BIT, q);
      BitOfLowMask(UNIT_BIT, q);
    }
  }

  // ---------------------------------------------------------------------------
  // Reference definitions over whole containers

  function Max(a: nat, b: nat): nat
  {
    if a < b then b else a
  }

  function Min(a: nat, b: nat): nat
  {
    if a < b then a else b
  }

  /** The zero-extended limb-wise or over the longer length. */
  function OrSpec(a: seq<Limb>, b: seq<Limb>): seq<Limb>
  {
    seq(Max(|a|, |b|), i requires 0 <= i => LimbOr(At(a, i), At(b, i)))
  }

  /** The limb-wise and over the shorter length, before normalization. */
  function AndSpec(a: seq<Limb>, b: seq<Limb>): seq<Limb>
  {
    seq(Min(|a|, |b|), i requires 0 <= i < Min(|a|, |b|) => LimbAnd(a[i], b[i]))
  }

  /** The zero-extended limb-wise xor over the longer length, untrimmed. */
  function XorSpec(a: seq<Limb>, b: seq<Limb>): seq<Limb>
  {
    seq(Max(|a|, |b|), i requires 0 <= i => LimbXor(At(a, i), At(b, i)))
  }

  /** Limb-wise no larger means no larger value. */
  lemma {:induction false} ValLimbwiseLe(s: seq<Limb>, t: seq<Limb>)
    requires |s| == |t| && forall i :: 0 <= i < |s| ==> s[i] <= t[i]
    ensures Val(s) <= Val(t)
  {
    if |s| > 0 {
      ValLimbwiseLe(s[1..], t[1..]);
    }
  }

  /** Zero-extension to length n does not change the value. */
  lemma ValExtend(a: seq<Limb>, n: nat)
    requires |a| <= n
    ensures Val(seq(n, i requires 0 <= i => At(a, i))) == Val(a)
  {
    var e := seq(n, i requires 0 <= i => At(a, i));
    assert e == a + Zeros(n - |a|);
    ValTrailingZeros(a, n - |a|);
  }

  /** Or keeps normalization, commutes, is idempotent and is at least either operand. */
  lemma OrSpecProperties(a: seq<Limb>, b: seq<Limb>)
    ensures Normalized(a) && Normalized(b) ==> Normalized(OrSpec(a, b))
    ensures OrSpec(a, b) == OrSpec(b, a)
    ensures OrSpec(a, a) == a
    ensures OrSpec(a, []) == a
    ensures Val(OrSpec(a, b)) >= Val(a)
  {
    OrSpecCommutes(a, b);
    OrSpecIdentities(a);
    if Normalized(a) && Normalized(b) {
      OrSpecNormalized(a, b);
    }
    OrSpecAtLeast(a, b);
  }

  lemma OrSpecCommutes(a: seq<Limb>, b: seq<Limb>)
    ensures OrSpec(a, b) == OrSpec(b, a)
  {
    var r := OrSpec(a, b);
    forall i | 0 <= i < |r|
      ensures r[i] == OrSpec(b, a)[i]
    {
      LimbOrFacts(At(a, i), At(b, i));
    }
  }

  lemma OrSpecIdentities(a: seq<Limb>)
    ensures OrSpec(a, a) == a && OrSpec(a, []) == a
  {
    forall i | 0 <= i < |a|
      ensures OrSpec(a, a)[i] == a[i] && OrSpec(a, [])[i] == a[i]
    {
      LimbOrFacts(a[i], a[i]);
      LimbOrFacts(a[i], 0);
    }
  }

  lemma OrSpecNormalized(a: seq<Limb>, b: seq<Limb>)
    requires Normalized(a) && Normalized(b)
    ensures Normalized(OrSpec(a, b))
  {
    var r := OrSpec(a, b);
    if |r| > 0 {
      var top := |r| - 1;
      if |a| == |r| {
        LimbOrFacts(a[top], At(b, top));
      } else {
        LimbOrFacts(b[top], At(a, top));
        LimbOrFacts(At(a, top), b[top]);
      }
    }
  }

  lemma OrSpecAtLeast(a: seq<Limb>, b: seq<Limb>)
    ensures Val(OrSpec(a, b)) >= Val(a)
  {
    var r := OrSpec(a, b);
    forall i | 0 <= i < |r|
      ensures At(a, i) <= r[i]
    {
      LimbOrFacts(At(a, i), At(b, i));
    }
    var e := seq(|r|, i requires 0 <= i => At(a, i));
    ValExtend(a, |r|);
    ValLimbwiseLe(e, r);
  }

  /** And commutes, is idempotent and is at most either operand. */
  lemma AndSpecProperties(a: seq<Limb>, b: seq<Limb>)
    ensures AndSpec(a, b) == AndSpec(b, a)
    ensures AndSpec(a, a) == a
    ensures Val(AndSpec(a, b)) <= Val(a)
  {
    var r := AndSpec(a, b);
    forall i | 0 <= i < |r|
      ensures r[i] == AndSpec(b, a)[i] && r[i] <= a[i]
    {
      LimbAndFacts(a[i], b[i]);
      LimbAndFacts(b[i], a[i]);
    }
    forall i | 0 <= i < |a|
      ensures AndSpec(a, a)[i] == a[i]
    {
      LimbAndFacts(a[i], a[i]);
    }
    ValLimbwiseLe(r, a[..|r|]);
    ValSplit(a, |r|);
  }

  /** Xor commutes and xor of a container with itself is all zero limbs. */
  lemma XorSpecProperties(a: seq<Limb>, b: seq<Limb>)
    ensures XorSpec(a, b) == XorSpec(b, a)
    ensures XorSpec(a, a) == Zeros(|a|)
  {
    var r := XorSpec(a, b);
    forall i | 0 <= i < |r|
      ensures r[i] == XorSpec(b, a)[i]
    {
      LimbXorFacts(At(a, i), At(b, i));
    }
    forall i | 0 <= i < |a|
      ensures XorSpec(a, a)[i] == 0
    {
      LimbXorFacts(a[i], a[i]);
    }
  }

  /** Xor is its own inverse: xor-ing with b twice gives back the value of a. */
  lemma XorSpecInvolution(a: seq<Limb>, b: seq<Limb>)
    ensures Val(XorSpec(XorSpec(a, b), b)) == Val(a)
  {
    var r := XorSpec(a, b);
    var rr := XorSpec(r, b);
    var e := seq(|rr|, i requires 0 <= i => At(a, i));
    forall i | 0 <= i < |rr|
      ensures rr[i] == e[i]
    {
      LimbXorFacts(At(a, i), At(b, i));
    }
    assert rr == e;
    ValExtend(a, |rr|);
  }

  // ---------------------------------------------------------------------------
  // The operators

  /** operator| (integer_container.cpp:81-97). */
  method Or(a: seq<Limb>, b: seq<Limb>) returns (r: seq<Limb>)
    ensures r == OrSpec(a, b)
  {
    r := [];
    var i := 0;
    while i < Min(|a|, |b|)
      invariant 0 <= i <= Min(|a|, |b|)
      invariant r == OrSpec(a, b)[..i]
    {
      r := r + [LimbOr(a[i], b[i])];
      i := i + 1;
    }
    while i < |a|
      invariant Min(|a|, |b|) <= i <= Max(|a|, |b|)
      invariant r == OrSpec(a, b)[..i]
    {
      LimbOrFacts(a[i], 0);
      r := r + [a[i]];
      i := i + 1;
    }
    while i < |b|
      invariant Min(|a|, |b|) <= i <= Max(|a|, |b|)
      invariant i >= |a|
      invariant r == OrSpec(a, b)[..i]
    {
      LimbOrFacts(b[i], 0);
      LimbOrFacts(0, b[i]);
      r := r + [b[i]];
      i := i + 1;
    }
  }

  /** operator& (integer_container.cpp:99-108). */
  method And(a: seq<Limb>, b: seq<Limb>) returns (r: seq<Limb>)
    ensures r == Trimmed(AndSpec(a, b))
  {
    r := [];
    var n := Min(|a|, |b|);
    var i := 0;
    while i < n
      invariant 0 <= i <= n
      invariant r == AndSpec(a, b)[..i]
    {
      assert AndSpec(a, b)[..i + 1] == AndSpec(a, b)[..i] + [LimbAnd(a[i], b[i])];
      r := r + [LimbAnd(a[i], b[i])];
      i := i + 1;
    }
    assert r == AndSpec(a, b);
    r := Normalize(r);
  }

  /** operator^ as written (integer_container.cpp:110-126): no normalization at the end. */
  method Xor(a: seq<Limb>, b: seq<Limb>) returns (r: seq<Limb>)
    ensures r == XorSpec(a, b)
  {
    r := [];
    var i := 0;
    while i < Min(|a|, |b|)
      invariant 0 <= i <= Min(|a|, |b|)
      invariant r == XorSpec(a, b)[..i]
    {
      r := r + [LimbXor(a[i], b[i])];
      i := i + 1;
    }
    while i < |a|
      invariant Min(|a|, |b|) <= i <= Max(|a|, |b|)
      invariant r == XorSpec(a, b)[..i]
    {
      LimbXorFacts(a[i], 0);
      r := r + [a[i]];
      i := i + 1;
    }
    while i < |b|
      invariant Min(|a|, |b|) <= i <= Max(|a|, |b|)
      invariant i >= |a|
      invariant r == XorSpec(a, b)[..i]
    {
      LimbXorFacts(b[i], 0);
      LimbXorFacts(0, b[i]);
      r := r + [b[i]];
      i := i + 1;
    }
  }

  /** The xor of a container with itself comes out as [0], which is not normalized. */
  lemma XorLeavesTrailingZero()
    ensures XorSpec([1], [1]) == [0]
    ensures !Normalized(XorSpec([1], [1]))
  {
    LimbXorFacts(1, 1);
  }

  /** operator^ followed by the normalization it leaves out; the integer layer uses this one. */
  method XorNormalized(a: seq<Limb>, b: seq<Limb>) returns (r: seq<Limb>)
    ensures r == Trimmed(XorSpec(a, b))
    ensures Normalized(r)
  {
    r := Xor(a, b);
    r := Normalize(r);
  }
}
