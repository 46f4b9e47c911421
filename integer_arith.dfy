/**
 * Addition, subtraction, multiplication, increment and decrement of signed
 * integers (integer.cpp:33-128, 172-219 and integer.h:216-291, 338-388).  The
 * magnitude routines ripple a carry or a borrow through the limbs from the
 * least significant one up; the signed operators choose between them by the
 * sign flags.
 */
module IntegerArith {
  import opened Arith
  import opened Limbs
  import opened Integers
  import LimbCompare

  /** The value of the limbs of a below index i (all of a when i is past its end). */
  function Low(a: seq<Limb>, i: nat): nat
  {
    if i <= |a| then Val(a[..i]) else Val(a)
  }

  lemma LowStep(a: seq<Limb>, i: nat)
    ensures Low(a, i + 1) == Low(a, i) + LimbPow(i) * At(a, i)
  {
    if i < |a| {
      ValPrefixStep(a, i);
    } else {
      assert a[..|a|] == a;
    }
  }

  lemma LowFull(a: seq<Limb>, i: nat)
    requires |a| <= i
    ensures Low(a, i) == Val(a)
  {
    assert a[..|a|] == a;
  }

  // ---------------------------------------------------------------------------
  // abs_add

  lemma CarryStep(vr: int, va: int, vb: int, l: int, c: int, ai: int, bi: int, y: int, c2: int)
    requires vr + l * c == va + vb
    requires y + BASE * c2 == ai + bi + c
    ensures vr + l * y + (l * BASE) * c2 == (va + l * ai) + (vb + l * bi)
  {
    assert l * (y + BASE * c2) == l * y + (l * BASE) * c2;
    assert l * (ai + bi + c) == l * ai + l * bi + l * c;
  }

  /** Writing limb i of the sum keeps "done limbs + carry == the two prefixes". */
  lemma AddPrefixStep(m: seq<Limb>, m2: seq<Limb>, i: nat, y: Limb, c: int, c2: int, a: seq<Limb>, b: seq<Limb>)
    requires i <= |m| && i < |m2| && m2[..i] == m[..i] && m2[i] == y
    requires Val(m[..i]) + LimbPow(i) * c == Low(a, i) + Low(b, i)
    requires y + BASE * c2 == At(a, i) + At(b, i) + c
    ensures Val(m2[..i + 1]) + LimbPow(i + 1) * c2 == Low(a, i + 1) + Low(b, i + 1)
  {
    ValPrefixStep(m2, i);
    LowStep(a, i);
    LowStep(b, i);
    CarryStep(Val(m[..i]), Low(a, i), Low(b, i), LimbPow(i), c, At(a, i), At(b, i), y, c2);
  }

  /**
   * abs_add (integer.cpp:33-58): |x| + |o| by ripple carry over the common
   * limbs, then the rest of x in place, then the rest of o appended, then the
   * final carry; integer::normalize clears the sign of a zero sum.
   */
  method AbsAdd(x: Integer, o: Integer) returns (r: Integer)
    ensures Canonical(r)
    ensures Val(r.mag) == Val(x.mag) + Val(o.mag)
    ensures r.negative <==> x.negative && Val(r.mag) != 0
  {
    var m, advance, i := AddCommonLimbs(x.mag, o.mag);
    m, advance, i := CarryThroughRest(x.mag, o.mag, m, advance, i);
    m, advance, i := AppendRestOfOther(x.mag, o.mag, m, advance, i);
    LowFull(x.mag, i);
    LowFull(o.mag, i);
    ValAppend(m, advance);
    r := NormalizeSigned(Integer(m + [advance], x.negative));
  }

  /** The state of abs_add after limb i: the limbs written so far and the
      carry make up the low i limbs of both operands. */
  ghost predicate AddState(m: seq<Limb>, advance: Limb, i: nat, a: seq<Limb>, b: seq<Limb>)
  {
    i <= |m| && advance <= 1 && Val(m[..i]) + LimbPow(i) * advance == Low(a, i) + Low(b, i)
  }

  /** The first loop of abs_add: the limbs both operands have. */
  method AddCommonLimbs(a: seq<Limb>, b: seq<Limb>) returns (m: seq<Limb>, advance: Limb, i: nat)
    ensures |m| == |a| && AddState(m, advance, i, a, b) && m[i..] == a[i..]
    ensures i == |a| || i == |b|
  {
    m := a;
    advance := 0;
    i := 0;
    while i < |m| && i < |b|
      invariant i <= |m| == |a| && i <= |b|
      invariant m[i..] == a[i..]
      invariant AddState(m, advance, i, a, b)
    {
      var unitAdd: DoubleLimb := m[i] + b[i] + advance;
      var y := LowBit(unitAdd);
      var c := HighBit(unitAdd);
      AddPrefixStep(m, m[i := y], i, y, advance, c, a, b);
      m := m[i := y];
      advance := c;
      i := i + 1;
    }
  }

  /** The second loop of abs_add: the carry through the rest of the longer x. */
  method CarryThroughRest(a: seq<Limb>, b: seq<Limb>, m0: seq<Limb>, advance0: Limb, i0: nat)
    returns (m: seq<Limb>, advance: Limb, i: nat)
    requires |m0| == |a| && AddState(m0, advance0, i0, a, b) && m0[i0..] == a[i0..]
    requires i0 == |a| || i0 >= |b|
    ensures |m| == |a| == i && AddState(m, advance, i, a, b)
  {
    m, advance, i := m0, advance0, i0;
    while i < |m|
      invariant i0 <= i <= |m| == |a|
      invariant i == |a| || i >= |b|
      invariant m[i..] == a[i..]
      invariant AddState(m, advance, i, a, b)
    {
      var unitAdd: DoubleLimb := m[i] + advance;
      var y := LowBit(unitAdd);
      var c := HighBit(unitAdd);
      AddPrefixStep(m, m[i := y], i, y, advance, c, a, b);
      m := m[i := y];
      advance := c;
      i := i + 1;
    }
  }

  /** The third loop of abs_add: the rest of the longer o, appended. */
  method AppendRestOfOther(a: seq<Limb>, b: seq<Limb>, m0: seq<Limb>, advance0: Limb, i0: nat)
    returns (m: seq<Limb>, advance: Limb, i: nat)
    requires |m0| == |a| == i0 && AddState(m0, advance0, i0, a, b)
    ensures |m| == i && i >= |a| && i >= |b| && advance <= 1
    ensures Val(m) + LimbPow(i) * advance == Low(a, i) + Low(b, i)
  {
    m, advance, i := m0, advance0, i0;
    assert m[..i] == m;
    while i < |b|
      invariant |a| <= i && |m| == i
      invariant advance <= 1
      invariant Val(m) + LimbPow(i) * advance == Low(a, i) + Low(b, i)
    {
      var unitAdd: DoubleLimb := b[i] + advance;
      var y := LowBit(unitAdd);
      var c := HighBit(unitAdd);
      assert (m + [y])[..i] == m[..i];
      assert m[..i] == m;
      AddPrefixStep(m, m + [y], i, y, advance, c, a, b);
      assert (m + [y])[..i + 1] == m + [y];
      m := m + [y];
      advance := c;
      i := i + 1;
    }
  }

  // ---------------------------------------------------------------------------
  // abs_sub_abs

  lemma BorrowStep(vr: int, va: int, vb: int, l: int, c: int, ai: int, bi: int, y: int, c2: int)
    requires vr + vb == va + l * c
    requires y + bi + c == ai + BASE * c2
    ensures (vr + l * y) + (vb + l * bi) == (va + l * ai) + (l * BASE) * c2
  {
    assert l * (y + bi + c) == l * y + l * bi + l * c;
    assert l * (ai + BASE * c2) == l * ai + (l * BASE) * c2;
  }

  /** Writing limb i of the difference keeps "done limbs + b's prefix == a's prefix + borrow". */
  lemma SubPrefixStep(m: seq<Limb>, m2: seq<Limb>, i: nat, y: Limb, c: int, c2: int, a: seq<Limb>, b: seq<Limb>)
    requires i < |m| == |m2| && m2 == m[i := y]
    requires Val(m[..i]) + Low(b, i) == Low(a, i) + LimbPow(i) * c
    requires y + At(b, i) + c == At(a, i) + BASE * c2
    ensures Val(m2[..i + 1]) + Low(b, i + 1) == Low(a, i + 1) + LimbPow(i + 1) * c2
  {
    assert m2[..i] == m[..i];
    ValPrefixStep(m2, i);
    LowStep(a, i);
    LowStep(b, i);
    BorrowStep(Val(m[..i]), Low(a, i), Low(b, i), LimbPow(i), c, At(a, i), At(b, i), y, c2);
  }

  /** The second loop of abs_sub_abs, corrected: the borrow runs through the limbs of x above o. */
  method PropagateBorrow(x: seq<Limb>, o: seq<Limb>, m0: seq<Limb>, i0: nat, borrow0: Limb) returns (m: seq<Limb>, borrow: Limb)
    requires |o| == i0 <= |m0| == |x| && m0[i0..] == x[i0..] && borrow0 <= 1
    requires Val(m0[..i0]) + Low(o, i0) == Low(x, i0) + LimbPow(i0) * borrow0
    ensures |m| == |x| && borrow <= 1
    ensures Val(m) + Val(o) == Val(x) + LimbPow(|x|) * borrow
  {
    m, borrow := m0, borrow0;
    var i := i0;
    while i < |m|
      invariant |o| <= i <= |m| == |x|
      invariant m[i..] == x[i..]
      invariant borrow <= 1
      invariant Val(m[..i]) + Low(o, i) == Low(x, i) + LimbPow(i) * borrow
    {
      var y: Limb;
      var c: Limb;
      if m[i] < borrow {
        y, c := BASE + m[i] - borrow, 1;
      } else {
        y, c := m[i] - borrow, 0;
      }
      SubPrefixStep(m, m[i := y], i, y, borrow, c, x, o);
      m := m[i := y];
      borrow := c;
      i := i + 1;
    }
    assert m[..i] == m;
    LowFull(x, i);
    LowFull(o, i);
  }

  /**
   * abs_sub_abs (integer.cpp:60-93) with the two defects corrected: the borrow
   * test compares x[i] with o[i] + borrow without 32-bit wrap-around, and the
   * second loop advances its index.  The source asserts |x| >= |o| in the
   * container order.
   */
  method AbsSubAbs(x: Integer, o: Integer) returns (r: Integer)
    requires Valid(x)
    requires x.mag == o.mag || LimbCompare.MagLess(o.mag, x.mag)
    ensures Canonical(r)
    ensures Val(r.mag) == Val(x.mag) - Val(o.mag)
    ensures r.negative <==> x.negative && Val(r.mag) != 0
  {
    if |o.mag| < |x.mag| {
      ValShorterIsSmaller(o.mag, x.mag);
    }
    var m, borrow, i := SubCommonLimbs(x.mag, o.mag);
    m, borrow := PropagateBorrow(x.mag, o.mag, m, i, borrow);
    ValBound(m);
    r := NormalizeSigned(Integer(m, x.negative));
  }

  /** The first loop of abs_sub_abs: the limbs of the subtrahend, with the
      borrow carried from limb to limb. */
  method SubCommonLimbs(a: seq<Limb>, b: seq<Limb>) returns (m: seq<Limb>, borrow: Limb, i: nat)
    requires |b| <= |a|
    ensures i == |b| && |m| == |a| && m[i..] == a[i..] && borrow <= 1
    ensures Val(m[..i]) + Low(b, i) == Low(a, i) + LimbPow(i) * borrow
  {
    m := a;
    borrow := 0;
    i := 0;
    while i < |b|
      invariant i <= |b| <= |m| == |a|
      invariant m[i..] == a[i..]
      invariant borrow <= 1
      invariant Val(m[..i]) + Low(b, i) == Low(a, i) + LimbPow(i) * borrow
    {
      var y: Limb;
      var c: Limb;
      if m[i] < b[i] + borrow {
        y, c := BASE + m[i] - b[i] - borrow, 1;
      } else {
        y, c := m[i] - b[i] - borrow, 0;
      }
      SubPrefixStep(m, m[i := y], i, y, borrow, c, a, b);
      m := m[i := y];
      borrow := c;
      i := i + 1;
    }
  }

  /**
   * One limb of the first loop of abs_sub_abs as written (integer.cpp:68-77):
   * other[i] + borrow is a unit_t sum, which wraps to 0 when other[i] is
   * unit_max and borrow is 1; the else branch then subtracts with unit_t
   * wrap-around and clears the borrow.
   */
  function SubLimbAsWritten(xi: Limb, oi: Limb, borrow: Limb): (Limb, Limb)
  {
    if xi < (oi + borrow) % BASE then ((BASE + xi - oi - borrow) % BASE, 1)
    else ((xi - oi - borrow) % BASE, 0)
  }

  /** The first loop of abs_sub_abs as written, over the limbs of o; the limbs of x above are left as they are. */
  function FirstLoopAsWritten(x: seq<Limb>, o: seq<Limb>, borrow: Limb): (r: seq<Limb>)
    requires |o| <= |x|
    ensures |r| == |x|
  {
    if |o| == 0 then x
    else
      var step := SubLimbAsWritten(x[0], o[0], borrow);
      [step.0] + FirstLoopAsWritten(x[1..], o[1..], step.1)
  }

  /**
   * The lost borrow: 2^65 - (2^65 - 2^32 + 1) is unit_max, but the written
   * loop drops the borrow at the middle limb and leaves 2^64 + unit_max.
   */
  lemma LostBorrowExample()
    ensures FirstLoopAsWritten([0, 0, 2], [1, UNIT_MAX, 1], 0) == [UNIT_MAX, 0, 1]
    ensures Val([0, 0, 2]) - Val([1, UNIT_MAX, 1]) == UNIT_MAX
    ensures Val([UNIT_MAX, 0, 1]) != UNIT_MAX
  {
    LostBorrowLoop();
    ValCons(2, []);
    ValCons(0, [2]);
    ValCons(0, [0, 2]);
    ValCons(1, []);
    ValCons(UNIT_MAX, [1]);
    ValCons(1, [UNIT_MAX, 1]);
    ValCons(0, [1]);
    ValCons(UNIT_MAX, [0, 1]);
  }

  /** The written first loop on 2^65 - (2^65 - 2^32 + 1), limb by limb. */
  lemma LostBorrowLoop()
    ensures FirstLoopAsWritten([0, 0, 2], [1, UNIT_MAX, 1], 0) == [UNIT_MAX, 0, 1]
  {
    var x: seq<Limb> := [0, 0, 2];
    var o: seq<Limb> := [1, UNIT_MAX, 1];
    assert x[1..] == [0, 2] && x[1..][1..] == [2] && x[1..][1..][1..] == [];
    assert o[1..] == [UNIT_MAX, 1] && o[1..][1..] == [1] && o[1..][1..][1..] == [];
    assert SubLimbAsWritten(0, 1, 0) == (UNIT_MAX, 1);
    assert SubLimbAsWritten(0, UNIT_MAX, 1) == (0, 0);
    assert SubLimbAsWritten(2, 1, 0) == (1, 0);
    assert FirstLoopAsWritten([2], [1], 0) == [1];
    assert FirstLoopAsWritten([0, 2], [UNIT_MAX, 1], 1) == [0, 1];
  }

  /**
   * One pass of the second loop of abs_sub_abs as written (integer.cpp:79-90):
   * the limb and the borrow are updated but the index i is not advanced.
   */
  function SecondLoopStepAsWritten(m: seq<Limb>, i: nat, borrow: Limb): (seq<Limb>, nat, Limb)
    requires i < |m|
  {
    if m[i] < borrow then (m[i := BASE + m[i] - borrow], i, 1)
    else (m[i := m[i] - borrow], i, 0)
  }

  /** The state of the written second loop after n passes. */
  function SecondLoopAfter(m: seq<Limb>, i: nat, borrow: Limb, n: nat): (seq<Limb>, nat, Limb)
    requires i < |m|
    decreases n
  {
    if n == 0 then (m, i, borrow)
    else
      var s := SecondLoopStepAsWritten(m, i, borrow);
      assert |s.0| == |m|;
      SecondLoopAfter(s.0, s.1, s.2, n - 1)
  }

  /** Once entered, the written second loop keeps its guard i < size() true after any number of passes. */
  lemma {:induction false} SecondLoopNeverExits(m: seq<Limb>, i: nat, borrow: Limb, n: nat)
    requires i < |m|
    ensures SecondLoopAfter(m, i, borrow, n).1 == i
    ensures |SecondLoopAfter(m, i, borrow, n).0| == |m|
    decreases n
  {
    if n > 0 {
      var s := SecondLoopStepAsWritten(m, i, borrow);
      SecondLoopNeverExits(s.0, s.1, s.2, n - 1);
    }
  }

  /**
   * abs_sub (integer.cpp:95-104): |x| - |o| when |x| >= |o|; otherwise
   * |o| - |x| with the sign of x flipped.
   */
  method AbsSub(x: Integer, o: Integer) returns (r: Integer)
    requires Valid(x) && Valid(o)
    ensures Canonical(r)
    ensures Val(r.mag) == Abs(Val(x.mag) - Val(o.mag))
    ensures Val(o.mag) <= Val(x.mag) ==> (r.negative <==> x.negative && Val(r.mag) != 0)
    ensures Val(o.mag) > Val(x.mag) ==> (r.negative <==> !x.negative)
  {
    var ge := LimbCompare.GreaterEq(x.mag, o.mag);
    LimbCompare.MagLessIsNumeric(o.mag, x.mag);
    LimbCompare.MagLessIsNumeric(x.mag, o.mag);
    LimbCompare.MagTrichotomy(x.mag, o.mag);
    if ge {
      r := AbsSubAbs(x, o);
      return;
    }
    var tmp := AbsSubAbs(o, x);
    r := tmp.(negative := !x.negative);
  }

  // ---------------------------------------------------------------------------
  // Signed addition and subtraction

  /**
   * operator+ and += (integer.cpp:172-185, integer.h:218-223): equal signs add
   * the magnitudes, different signs subtract them.
   */
  method Add(x: Integer, o: Integer) returns (r: Integer)
    requires Valid(x) && Valid(o)
    ensures Canonical(r)
    ensures Value(r) == Value(x) + Value(o)
  {
    if x.negative == o.negative {
      r := AbsAdd(x, o);
    } else {
      r := AbsSub(x, o);
    }
  }

  /** operator- and -= (integer.cpp:187-200, integer.h:227-232). */
  method Sub(x: Integer, o: Integer) returns (r: Integer)
    requires Valid(x) && Valid(o)
    ensures Canonical(r)
    ensures Value(r) == Value(x) - Value(o)
  {
    if x.negative == o.negative {
      r := AbsSub(x, o);
    } else {
      r := AbsAdd(x, o);
    }
  }

  // ---------------------------------------------------------------------------
  // Multiplication

  lemma LimbProductBound(a: Limb, b: Limb, c: Limb)
    ensures a * b + c < BASE * BASE
  {
    MulStrictBound(a, BASE, b);
    MulStrictBound(b, BASE, BASE - 1);
    assert (BASE - 1) * b <= (BASE - 1) * (BASE - 1);
  }

  lemma MulCarryStep(vm: int, vx: int, l: int, c: int, xi: int, u: int, y: int, c2: int)
    requires vm + l * c == vx * u
    requires y + BASE * c2 == xi * u + c
    ensures vm + l * y + (l * BASE) * c2 == (vx + l * xi) * u
  {
    assert l * (y + BASE * c2) == l * y + (l * BASE) * c2;
    assert l * (xi * u + c) == (l * xi) * u + l * c;
    assert (vx + l * xi) * u == vx * u + (l * xi) * u;
  }

  lemma MulPrefixStep(m: seq<Limb>, x: seq<Limb>, i: nat, u: Limb, c: int, y: Limb, c2: int)
    requires |m| == i < |x|
    requires Val(m) + LimbPow(i) * c == Val(x[..i]) * u
    requires y + BASE * c2 == x[i] * u + c
    ensures Val(m + [y]) + LimbPow(i + 1) * c2 == Val(x[..i + 1]) * u
  {
    ValAppend(m, y);
    ValPrefixStep(x, i);
    MulCarryStep(Val(m), Val(x[..i]), LimbPow(i), c, x[i], u, y, c2);
  }

  /**
   * abs_mult_unit (integer.cpp:116-128): |x| * u limb by limb with a carry;
   * the final carry is always appended, so the result has one limb more than
   * x and is not normalized (zero comes out as { 0 }).
   */
  method AbsMultUnit(x: Integer, u: Limb) returns (r: Integer)
    ensures |r.mag| == |x.mag| + 1
    ensures Val(r.mag) == Val(x.mag) * u
    ensures !r.negative
  {
    var m: seq<Limb> := [];
    var advance: Limb := 0;
    var i := 0;
    while i < |x.mag|
      invariant i <= |x.mag| && |m| == i
      invariant Val(m) + LimbPow(i) * advance == Val(x.mag[..i]) * u
    {
      LimbProductBound(x.mag[i], u, advance);
      var inRes: DoubleLimb := x.mag[i] * u + advance;
      var y := LowBit(inRes);
      var c := HighBit(inRes);
      MulPrefixStep(m, x.mag, i, u, advance, y, c);
      m := m + [y];
      advance := c;
      i := i + 1;
    }
    assert x.mag[..i] == x.mag;
    ValAppend(m, advance);
    r := Integer(m + [advance], false);
  }

  lemma MulAccumStep(a: int, v: int, l: int, d: int)
    ensures a * v + l * (a * d) == a * (v + l * d)
  {
  }

  /**
   * abs_mult (integer.cpp:106-114): the sum over the limbs o[i] of
   * |x| * o[i] moved up by i limbs; += on two non-negative values is abs_add.
   */
  method AbsMult(x: Integer, o: Integer) returns (r: Integer)
    ensures Canonical(r) && !r.negative
    ensures Val(r.mag) == Val(x.mag) * Val(o.mag)
  {
    r := Integer([], false);
    var i := 0;
    while i < |o.mag|
      invariant i <= |o.mag|
      invariant Canonical(r) && !r.negative
      invariant Val(r.mag) == Val(x.mag) * Val(o.mag[..i])
    {
      var res := AbsMultUnit(x, o.mag[i]);
      ValZerosPrefix(i, res.mag);
      res := res.(mag := Zeros(i) + res.mag);
      ValPrefixStep(o.mag, i);
      MulAccumStep(Val(x.mag), Val(o.mag[..i]), LimbPow(i), o.mag[i]);
      r := AbsAdd(r, res);
      i := i + 1;
    }
    assert o.mag[..i] == o.mag;
  }

  lemma SignedProduct(a: nat, b: nat, na: bool, nb: bool)
    ensures (if na then -(a as int) else a) * (if nb then -(b as int) else b)
         == (if na != nb then -(a * b) else a * b)
  {
    if na && nb {
      assert (-(a as int)) * (-(b as int)) == a * b;
    } else if na {
      assert (-(a as int)) * b == -(a * b);
    } else if nb {
      assert a * (-(b as int)) == -(a * b);
    }
  }

  /**
   * operator* and *= (integer.cpp:202-219, integer.h:236-239): zero if either
   * side is zero, a copy of the other magnitude when one side is +1 or -1,
   * abs_mult otherwise; the sign is the exclusive or of the flags.
   */
  method Mul(x: Integer, o: Integer) returns (r: Integer)
    requires Valid(x) && Valid(o)
    ensures Canonical(r)
    ensures Value(r) == Value(x) * Value(o)
  {
    SignedProduct(Val(x.mag), Val(o.mag), x.negative, o.negative);
    if Integers.IsZero(x) || Integers.IsZero(o) {
      return Integer([], false);
    }
    ValZeroIffEmpty(x.mag);
    ValZeroIffEmpty(o.mag);
    if IsOneAbs(x) {
      return Integer(o.mag, x.negative != o.negative);
    }
    if IsOneAbs(o) {
      return Integer(x.mag, x.negative != o.negative);
    }
    var p := AbsMult(x, o);
    MulAtLeast(Val(x.mag), Val(o.mag));
    r := p.(negative := x.negative != o.negative);
  }

  // ---------------------------------------------------------------------------
  // Increment and decrement

  /**
   * abs_self_incre (integer.h:338-361): limbs equal to unit_max become 0 until
   * one can be incremented; if none can, a limb 1 is appended.
   */
  method AbsSelfIncre(s: seq<Limb>) returns (r: seq<Limb>)
    ensures Val(r) == Val(s) + 1
    ensures |r| == if forall j :: 0 <= j < |s| ==> s[j] == UNIT_MAX then |s| + 1 else |s|
    ensures Normalized(s) ==> Normalized(r)
  {
    r := s;
    var index := 0;
    var guardRes := false;
    while index < |r| && !guardRes
      invariant index <= |r| == |s|
      invariant forall j :: 0 <= j < index ==> s[j] == UNIT_MAX && r[j] == 0
      invariant !guardRes ==> r[index..] == s[index..] && Val(r) + LimbPow(index) == Val(s) + 1
      invariant guardRes ==> index < |s| && s[index] != UNIT_MAX && r[index] == s[index] + 1
      invariant guardRes ==> r[index + 1..] == s[index + 1..] && Val(r) == Val(s) + 1
      decreases |r| - index, !guardRes
    {
      if r[index] == UNIT_MAX {
        CarryThrough(r, s, index);
        r := r[index := 0];
        index := index + 1;
      } else {
        CarryEnds(r, s, index);
        r := r[index := r[index] + 1];
        guardRes := true;
      }
    }
    if !guardRes {
      ValAppend(r, 1);
      r := r + [1];
    }
  }

  /** A limb equal to unit_max becomes 0 and the carry moves up a limb. */
  lemma CarryThrough(r: seq<Limb>, s: seq<Limb>, i: nat)
    requires i < |r| == |s| && r[i..] == s[i..] && r[i] == UNIT_MAX
    requires Val(r) + LimbPow(i) == Val(s) + 1
    ensures r[i := 0][i + 1..] == s[i + 1..]
    ensures Val(r[i := 0]) + LimbPow(i + 1) == Val(s) + 1
  {
    assert r[i := 0][i + 1..] == r[i + 1..];
    assert r[i + 1..] == r[i..][1..];
    ValUpdate(r, i, 0);
    CarryWeight(Val(r), Val(r[i := 0]), Val(s), LimbPow(i));
  }

  lemma CarryWeight(vr: int, vr2: int, vs: int, l: int)
    requires vr2 + l * UNIT_MAX == vr && vr + l == vs + 1
    ensures vr2 + BASE * l == vs + 1
  {
  }

  /** A limb below unit_max absorbs the carry. */
  lemma CarryEnds(r: seq<Limb>, s: seq<Limb>, i: nat)
    requires i < |r| == |s| && r[i..] == s[i..] && r[i] != UNIT_MAX
    requires Val(r) + LimbPow(i) == Val(s) + 1
    ensures r[i := r[i] + 1][i + 1..] == s[i + 1..]
    ensures Val(r[i := r[i] + 1]) == Val(s) + 1
  {
    assert r[i := r[i] + 1][i + 1..] == r[i + 1..];
    assert r[i + 1..] == r[i..][1..];
    ValUpdate(r, i, r[i] + 1);
    CarryAbsorbed(Val(r), Val(r[i := r[i] + 1]), Val(s), LimbPow(i), r[i]);
  }

  lemma CarryAbsorbed(vr: int, vr2: int, vs: int, l: int, d: int)
    requires vr2 + l * d == vr + l * (d + 1) && vr + l == vs + 1
    ensures vr2 == vs + 1
  {
  }

  /**
   * abs_self_decre (integer.h:364-388): limbs equal to 0 become unit_max until
   * one can be decremented, then integer::normalize.  The source asserts a
   * nonzero value in debug builds, but operator++ reaches it with a negative
   * zero, which normalizes to +0.
   */
  method AbsSelfDecre(x: Integer) returns (r: Integer)
    requires Valid(x)
    ensures Canonical(r)
    ensures Val(x.mag) > 0 ==> Val(r.mag) + 1 == Val(x.mag)
    ensures Val(x.mag) > 0 ==> (r.negative <==> x.negative && Val(r.mag) != 0)
    ensures Val(x.mag) == 0 ==> r == Integer([], false)
  {
    ValZeroIffEmpty(x.mag);
    var m := DecrementLimbs(x.mag);
    r := NormalizeSigned(Integer(m, x.negative));
  }

  /** The loop of abs_self_decre: the low zero limbs become unit_max and the
      first nonzero limb is decremented; an empty sequence stays empty. */
  method DecrementLimbs(s: seq<Limb>) returns (m: seq<Limb>)
    ensures |m| == |s|
    ensures Val(s) > 0 ==> Val(m) + 1 == Val(s)
  {
    m := s;
    var index := 0;
    var guardRes := false;
    while index < |m| && !guardRes
      invariant index <= |m| == |s|
      invariant !guardRes ==> m[index..] == s[index..] && Val(m) + 1 == Val(s) + LimbPow(index)
      invariant guardRes ==> Val(m) + 1 == Val(s)
      decreases |m| - index, !guardRes
    {
      if m[index] == 0 {
        BorrowThrough(m, s, index);
        m := m[index := UNIT_MAX];
        index := index + 1;
      } else {
        BorrowEnds(m, s, index);
        m := m[index := m[index] - 1];
        guardRes := true;
      }
    }
    if !guardRes {
      ValBound(m);
    }
  }

  /** A zero limb becomes unit_max and the borrow moves up a limb. */
  lemma BorrowThrough(m: seq<Limb>, s: seq<Limb>, i: nat)
    requires i < |m| == |s| && m[i..] == s[i..] && m[i] == 0
    requires Val(m) + 1 == Val(s) + LimbPow(i)
    ensures m[i := UNIT_MAX][i + 1..] == s[i + 1..]
    ensures Val(m[i := UNIT_MAX]) + 1 == Val(s) + LimbPow(i + 1)
  {
    assert m[i := UNIT_MAX][i + 1..] == m[i + 1..];
    assert m[i + 1..] == m[i..][1..];
    ValUpdate(m, i, UNIT_MAX);
    BorrowWeight(Val(m), Val(m[i := UNIT_MAX]), Val(s), LimbPow(i));
  }

  /** A nonzero limb absorbs the borrow. */
  lemma BorrowEnds(m: seq<Limb>, s: seq<Limb>, i: nat)
    requires i < |m| && m[i] != 0
    requires Val(m) + 1 == Val(s) + LimbPow(i)
    ensures Val(m[i := m[i] - 1]) + 1 == Val(s)
  {
    ValUpdate(m, i, m[i] - 1);
    BorrowAbsorbed(Val(m), Val(m[i := m[i] - 1]), Val(s), LimbPow(i), m[i]);
  }

  lemma BorrowAbsorbed(vm: int, vm2: int, vx: int, l: int, d: int)
    requires vm2 + l * d == vm + l * (d - 1) && vm + 1 == vx + l
    ensures vm2 + 1 == vx
  {
  }

  lemma BorrowWeight(vm: int, vm2: int, vx: int, l: int)
    requires vm2 == vm + l * UNIT_MAX && vm + 1 == vx + l
    ensures vm2 + 1 == vx + BASE * l
  {
  }

  /**
   * Prefix ++ (integer.h:255-264): a non-negative value increments its
   * magnitude, a negative one decrements it, then integer::normalize.
   */
  method Increment(x: Integer) returns (r: Integer)
    requires Valid(x)
    ensures Canonical(r)
    ensures Canonical(x) ==> Value(r) == Value(x) + 1
    ensures x == Integer([], true) ==> r == Integer([], false)
  {
    ValZeroIffEmpty(x.mag);
    if !x.negative {
      var m := AbsSelfIncre(x.mag);
      r := Integer(m, false);
    } else {
      r := AbsSelfDecre(x);
    }
    r := NormalizeSigned(r);
  }

  /** ++ on a negative zero, as written: the value stays 0 instead of becoming 1. */
  method IncrementOfNegativeZero() returns (r: Integer)
    ensures r == Integer([], false)
    ensures Value(r) != Value(Integer([], true)) + 1
  {
    r := Increment(Integer([], true));
  }

  /**
   * Prefix ++ as intended: a negative zero is treated as zero and incremented,
   * so every valid integer goes up by exactly 1.
   */
  method IncrementIntended(x: Integer) returns (r: Integer)
    requires Valid(x)
    ensures Canonical(r)
    ensures Value(r) == Value(x) + 1
  {
    ValZeroIffEmpty(x.mag);
    if !x.negative || Integers.IsZero(x) {
      var m := AbsSelfIncre(x.mag);
      r := Integer(m, false);
    } else {
      r := AbsSelfDecre(x);
    }
    r := NormalizeSigned(r);
  }

  /**
   * Prefix -- (integer.h:272-285): a positive value decrements its magnitude,
   * zero (of either sign) becomes -1, a negative value increments its
   * magnitude, then integer::normalize.
   */
  method Decrement(x: Integer) returns (r: Integer)
    requires Valid(x)
    ensures Canonical(r)
    ensures Value(r) == Value(x) - 1
  {
    ValZeroIffEmpty(x.mag);
    if !x.negative && !Integers.IsZero(x) {
      r := AbsSelfDecre(x);
    } else if Integers.IsZero(x) {
      ValOfSingle(1);
      r := Integer(x.mag + [1], true);
    } else {
      var m := AbsSelfIncre(x.mag);
      r := Integer(m, x.negative);
    }
    r := NormalizeSigned(r);
  }
}
