/**
 * The magnitude container (integer_container): an unsigned number stored as a
 * little-endian sequence of 32-bit limbs, limb 0 least significant.  The
 * abstraction function is Val(s) = sum of s[i] * 2^(32 i).  A sequence is
 * normalized when it has no trailing zero limb, so zero is the empty sequence.
 */
module Limbs {
  import opened Arith

  /** unit_bit */
  const UNIT_BIT: nat := 32
  /** unit_max */
  const UNIT_MAX: nat := 0xFFFF_FFFF

  /** unit_t: an unsigned 32-bit limb. */
  type Limb = x: int | 0 <= x < BASE
  /** double_unit_t values that arise from two limbs. */
  type DoubleLimb = x: int | 0 <= x < BASE * BASE

  function LimbPow(k: nat): (r: nat)
    ensures r > 0
  {
    if k == 0 then 1 else BASE * LimbPow(k - 1)
  }

  /** The number a limb sequence stands for. */
  function Val(s: seq<Limb>): nat
  {
    if |s| == 0 then 0 else s[0] + BASE * Val(s[1..])
  }

  /** No trailing (most significant) zero limb. */
  predicate Normalized(s: seq<Limb>)
  {
    |s| == 0 || s[|s| - 1] != 0
  }

  function Zeros(n: nat): (r: seq<Limb>)
    ensures |r| == n && forall i :: 0 <= i < n ==> r[i] == 0
  {
    seq(n, _ => 0)
  }

  /** The limb at index i, zero-extended past the end. */
  function At(s: seq<Limb>, i: nat): Limb
  {
    if i < |s| then s[i] else 0
  }

  // ---------------------------------------------------------------------------
  // Facts about Val

  lemma LimbPowIsPow2(k: nat)
    ensures LimbPow(k) == Pow2(32 * k)
  {
    if k > 0 {
      LimbPowIsPow2(k - 1);
      Pow2Base();
      Pow2Add(32, 32 * (k - 1));
    }
  }

  lemma {:induction false} LimbPowMonotone(a: nat, b: nat)
    requires a <= b
    ensures LimbPow(a) <= LimbPow(b)
  {
    if a < b {
      LimbPowMonotone(a, b - 1);
    }
  }

  lemma {:induction false} ValAppend(s: seq<Limb>, x: Limb)
    ensures Val(s + [x]) == Val(s) + LimbPow(|s|) * x
  {
    if |s| > 0 {
      assert (s + [x])[1..] == s[1..] + [x];
      ValAppend(s[1..], x);
      assert BASE * (LimbPow(|s| - 1) * x) == LimbPow(|s|) * x;
    }
  }

  lemma {:induction false} ValConcat(s: seq<Limb>, t: seq<Limb>)
    ensures Val(s + t) == Val(s) + LimbPow(|s|) * Val(t)
  {
    if |s| > 0 {
      assert (s + t)[1..] == s[1..] + t;
      ValConcat(s[1..], t);
      var rest, p, vt := Val(s[1..]), LimbPow(|s| - 1), Val(t);
      assert Val(s + t) == s[0] + BASE * Val(s[1..] + t);
      MulDistrib(BASE, rest, p, vt);
    } else {
      assert s + t == t;
    }
  }

  lemma ValSplit(s: seq<Limb>, i: nat)
    requires i <= |s|
    ensures Val(s) == Val(s[..i]) + LimbPow(i) * Val(s[i..])
  {
    assert s == s[..i] + s[i..];
    ValConcat(s[..i], s[i..]);
  }

  lemma ValPrefixStep(s: seq<Limb>, i: nat)
    requires i < |s|
    ensures Val(s[..i + 1]) == Val(s[..i]) + LimbPow(i) * s[i]
  {
    assert s[..i + 1] == s[..i] + [s[i]];
    ValAppend(s[..i], s[i]);
  }

  lemma ValCons(x: Limb, t: seq<Limb>)
    ensures Val([x] + t) == x + BASE * Val(t)
  {
    assert ([x] + t)[1..] == t;
  }

  lemma {:induction false} ValBound(s: seq<Limb>)
    ensures Val(s) < LimbPow(|s|)
  {
    if |s| > 0 {
      ValBound(s[1..]);
      MulMonotone(Val(s[1..]) + 1, LimbPow(|s| - 1), BASE);
    }
  }

  /** A normalized non-empty sequence is at least BASE^(n-1). */
  lemma ValLowerBound(s: seq<Limb>)
    requires Normalized(s) && |s| > 0
    ensures Val(s) >= LimbPow(|s| - 1)
  {
    var n := |s| - 1;
    ValPrefixStep(s, n);
    assert s[..n + 1] == s;
    MulAtLeast(s[n], LimbPow(n));
  }

  lemma ValZeroIffEmpty(s: seq<Limb>)
    ensures Normalized(s) ==> (Val(s) == 0 <==> |s| == 0)
  {
    if |s| > 0 && Normalized(s) {
      ValLowerBound(s);
    }
  }

  /** On normalized sequences a shorter one is strictly smaller. */
  lemma ValShorterIsSmaller(a: seq<Limb>, b: seq<Limb>)
    requires Normalized(b) && |a| < |b|
    ensures Val(a) < Val(b)
  {
    ValBound(a);
    ValLowerBound(b);
    LimbPowMonotone(|a|, |b| - 1);
  }

  lemma {:induction false} ValZeros(n: nat)
    ensures Val(Zeros(n)) == 0
  {
    if n > 0 {
      assert Zeros(n)[1..] == Zeros(n - 1);
      ValZeros(n - 1);
    }
  }

  lemma ValZerosPrefix(n: nat, s: seq<Limb>)
    ensures Val(Zeros(n) + s) == LimbPow(n) * Val(s)
  {
    ValConcat(Zeros(n), s);
    ValZeros(n);
  }

  lemma ValTrailingZeros(s: seq<Limb>, n: nat)
    ensures Val(s + Zeros(n)) == Val(s)
  {
    ValConcat(s, Zeros(n));
    ValZeros(n);
  }

  /** Val(s) / BASE^i keeps the limbs from index i on. */
  lemma ValDropLow(s: seq<Limb>, i: nat)
    requires i <= |s|
    ensures Val(s[i..]) == Val(s) / LimbPow(i)
    ensures Val(s[..i]) == Val(s) % LimbPow(i)
  {
    var lo, p, hi := Val(s[..i]), LimbPow(i), Val(s[i..]);
    ValSplit(s, i);
    ValBound(s[..i]);
    DivOfSplit(Val(s), lo, p, hi);
  }

  /** The value of s as the limbs below i, limb i, and the limbs above i. */
  lemma ValAroundLimb(s: seq<Limb>, i: nat)
    requires i < |s|
    ensures Val(s) == Val(s[..i]) + LimbPow(i) * s[i] + LimbPow(i + 1) * Val(s[i + 1..])
  {
    ValSplit(s, i + 1);
    ValPrefixStep(s, i);
  }

  /** Two sequences that agree above index i and differ at i are ordered by that limb. */
  lemma ValTopDifference(a: seq<Limb>, b: seq<Limb>, i: nat)
    requires |a| == |b| && i < |a|
    requires a[i + 1..] == b[i + 1..]
    requires a[i] > b[i]
    ensures Val(a) > Val(b)
  {
    ValAroundLimb(a, i);
    ValAroundLimb(b, i);
    ValBound(b[..i]);
    TopDigitDominates(Val(a[..i]), Val(b[..i]), LimbPow(i), a[i], b[i], LimbPow(i + 1), Val(a[i + 1..]));
  }

  /** Different normalized sequences stand for different numbers. */
  lemma ValInjective(a: seq<Limb>, b: seq<Limb>)
    requires Normalized(a) && Normalized(b) && Val(a) == Val(b)
    ensures a == b
  {
    if |a| < |b| {
      ValShorterIsSmaller(a, b);
    } else if |b| < |a| {
      ValShorterIsSmaller(b, a);
    } else if a != b {
      var i := TopDifference(a, b);
      if a[i] > b[i] {
        ValTopDifference(a, b, i);
      } else {
        ValTopDifference(b, a, i);
      }
    }
  }

  /** The most significant index at which two equal-length sequences differ. */
  lemma TopDifference(a: seq<Limb>, b: seq<Limb>) returns (i: nat)
    requires |a| == |b| && a != b
    ensures i < |a| && a[i] != b[i] && a[i + 1..] == b[i + 1..]
  {
    var j := |a|;
    assert a[..j] == a && b[..j] == b;
    while a[j - 1] == b[j - 1]
      invariant 0 < j <= |a|
      invariant a[j..] == b[j..]
      invariant a[..j] != b[..j]
      decreases j
    {
      assert a[..j] == a[..j - 1] + [a[j - 1]] && b[..j] == b[..j - 1] + [b[j - 1]];
      assert a[j - 1..] == [a[j - 1]] + a[j..] && b[j - 1..] == [b[j - 1]] + b[j..];
      j := j - 1;
    }
    i := j - 1;
    assert a[i + 1..] == a[j..];
  }

  lemma ValUpdate(s: seq<Limb>, i: nat, x: Limb)
    requires i < |s|
    ensures Val(s[i := x]) + LimbPow(i) * s[i] == Val(s) + LimbPow(i) * x
  {
    var t := s[i := x];
    ValSplit(s, i + 1);
    ValSplit(t, i + 1);
    ValPrefixStep(s, i);
    ValPrefixStep(t, i);
    assert t[..i] == s[..i] && t[i + 1..] == s[i + 1..];
  }

  lemma ValOfSingle(x: Limb)
    ensures Val([x]) == x
  {
    ValCons(x, []);
  }

  // ---------------------------------------------------------------------------
  // normalize

  /** The sequence with its trailing zero limbs removed. */
  function Trimmed(s: seq<Limb>): (r: seq<Limb>)
    ensures Normalized(r)
    ensures |r| <= |s| && r == s[..|r|]
    ensures forall i :: |r| <= i < |s| ==> s[i] == 0
    ensures Val(r) == Val(s)
    ensures Normalized(s) ==> r == s
  {
    if |s| > 0 && s[|s| - 1] == 0 then
      var t := s[..|s| - 1];
      ValAppend(t, 0);
      assert t + [0] == s;
      Trimmed(t)
    else
      s
  }

  lemma TrimmedIdempotent(s: seq<Limb>)
    ensures Trimmed(Trimmed(s)) == Trimmed(s)
  {
  }

  /** normalize(): pops trailing zero limbs (integer_container.h:42-46). */
  method Normalize(s: seq<Limb>) returns (r: seq<Limb>)
    ensures r == Trimmed(s)
  {
    r := s;
    while |r| > 0 && r[|r| - 1] == 0
      invariant |r| <= |s| && r == s[..|r|]
      invariant Trimmed(r) == Trimmed(s)
    {
      r := r[..|r| - 1];
    }
  }

  // ---------------------------------------------------------------------------
  // high_bit, low_bit, combine_bit

  /** high_bit: the upper limb of a double-width value, v >> 32. */
  function HighBit(v: DoubleLimb): Limb
  {
    v / BASE
  }

  /** low_bit: the truncating cast to a limb, v mod 2^32. */
  function LowBit(v: DoubleLimb): Limb
  {
    v % BASE
  }

  /** combine_bit: (high << 32) | low; the two parts occupy disjoint bits, so the or is a sum. */
  function CombineBit(high: Limb, low: Limb): (v: DoubleLimb)
    ensures HighBit(v) == high && LowBit(v) == low
  {
    DivUnique(high * BASE + low, BASE, high, low);
    MulMonotone(high, BASE - 1, BASE);
    high * BASE + low
  }

  lemma CombineSplit(v: DoubleLimb)
    ensures CombineBit(HighBit(v), LowBit(v)) == v
  {
  }

  // ---------------------------------------------------------------------------
  // Constructors and predicates

  /** integer_container(unit_t): one limb, then normalize. */
  method FromUnit(num: Limb) returns (r: seq<Limb>)
    ensures Normalized(r) && Val(r) == num
    ensures num == 0 <==> r == []
  {
    r := Normalize([num]);
    ValOfSingle(num);
    ValZeroIffEmpty(r);
  }

  /** integer_container(double_unit_t): { low_bit, high_bit }, then normalize. */
  method FromDoubleUnit(num: DoubleLimb) returns (r: seq<Limb>)
    ensures Normalized(r) && Val(r) == num
    ensures num == 0 <==> r == []
    ensures |r| <= 2
  {
    var low, high := LowBit(num), HighBit(num);
    r := Normalize([low, high]);
    ValCons(low, [high]);
    ValOfSingle(high);
    ValZeroIffEmpty(r);
  }

  /** is_zero: the container is empty. */
  function IsZero(s: seq<Limb>): (b: bool)
    ensures b <==> |s| == 0
    ensures Normalized(s) ==> (b <==> Val(s) == 0)
  {
    ValZeroIffEmpty(s);
    |s| == 0
  }

  /** is_one: the container is exactly { 1 }. */
  function IsOne(s: seq<Limb>): (b: bool)
    ensures b ==> Val(s) == 1
    ensures Normalized(s) && Val(s) == 1 ==> b
  {
    if |s| == 1 then ValOfSingle(s[0]); s[0] == 1
    else
      if |s| > 1 && Normalized(s) then ValLowerBound(s); LimbPowMonotone(1, |s| - 1); false
      else false
  }
}
