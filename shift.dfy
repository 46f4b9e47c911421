/**
 * Bit shifts of the limb container (integer_container.cpp:41-79 and the
 * copying forms in integer_container.h:504-519).  A shift by k bits drops or
 * inserts k / 32 whole limbs and moves the remaining k % 32 bits across limb
 * boundaries through the carry variables last_bit and now_bit.
 */
module LimbShift {
  import opened Arith
  import opened Limbs

  /** One limb of operator>>=: its high bits move down, the low bits of the limb above come in on top. */
  lemma ShiftRightStep(x: int, last: int, p: int, q: int, v: int)
    requires p > 0 && q > 0 && p * q == BASE && 0 <= x < BASE && 0 <= last < p
    ensures 0 <= x / p + last * q < BASE
    ensures p * ((x / p + last * q) + BASE * v) + x % p == x + BASE * (p * v + last)
  {
    DivBound(x, p, q);
    MulStrictBound(last, p, q);
    var d, m := x / p, x % p;
    assert x == p * d + m;
    ShiftRightRegroup(d, last, p, q, v);
  }

  lemma ShiftRightRegroup(d: int, last: int, p: int, q: int, v: int)
    requires p * q == BASE
    ensures p * (d + last * q + BASE * v) == p * d + BASE * last + BASE * (p * v)
  {
    calc {
      p * (d + last * q + BASE * v);
      p * d + p * (last * q) + p * (BASE * v);
      { MulAssoc(p, last, q); MulAssoc(p, BASE, v); }
      p * d + (p * q) * last + BASE * (p * v);
    }
  }

  /** One limb of operator<<=: the low bits move up within the limb, the top bits carry out. */
  lemma ShiftLeftStep(x: int, h: int, p: int, q: int)
    requires p > 0 && q > 0 && p * q == BASE && 0 <= x < BASE && 0 <= h < p
    ensures 0 <= (x * p) % BASE + h < BASE
    ensures x / q < p
    ensures (x * p) % BASE + BASE * (x / q) == x * p
  {
    DivBound(x, q, p);
    var d, m := x / q, x % q;
    assert x == q * d + m;
    MulStrictBound(m, q, p);
    assert x * p == m * p + BASE * d;
    DivOfSplit(x * p, m * p, BASE, d);
  }

  lemma ShiftLeftInvStep(vr: int, vs: int, l: int, h: int, y: int, x: int, p: int, hi: int)
    requires vr + l * h == vs * p && y + BASE * hi == x * p + h
    ensures vr + l * y + (BASE * l) * hi == (vs + l * x) * p
  {
    assert l * (y + BASE * hi) == l * y + (BASE * l) * hi;
    assert l * (x * p + h) == (l * x) * p + l * h;
  }

  /** A shift by at least the container's width leaves nothing. */
  lemma WideShiftIsZero(s: seq<Limb>, k: nat)
    requires k >= UNIT_BIT * |s|
    ensures Val(s) / Pow2(k) == 0
  {
    ValBound(s);
    LimbPowIsPow2(|s|);
    Pow2Monotone(UNIT_BIT * |s|, k);
    DivOfSplit(Val(s), Val(s), Pow2(k), 0);
  }

  /** Dropping min(k / 32, size) limbs and then shifting by k % 32 bits divides by 2^k. */
  lemma DropThenShift(s: seq<Limb>, k: nat)
    ensures var d := if k / UNIT_BIT < |s| then k / UNIT_BIT else |s|;
      Val(s[d..]) / Pow2(k % UNIT_BIT) == Val(s) / Pow2(k)
  {
    var d := if k / UNIT_BIT < |s| then k / UNIT_BIT else |s|;
    var sh := k % UNIT_BIT;
    if k / UNIT_BIT < |s| {
      var v, e := Val(s), UNIT_BIT * d;
      assert e + sh == k;
      ValDropLow(s, d);
      LimbPowIsPow2(d);
      assert Val(s[d..]) == v / Pow2(e);
      DivDiv(v, Pow2(e), Pow2(sh));
      Pow2Add(e, sh);
    } else {
      assert s[d..] == [];
      WideShiftIsZero(s, k);
    }
  }

  /**
   * The limb walk of operator>>= for 0 < sh < 32 (integer_container.cpp:46-55):
   * from the most significant limb down, each limb keeps x / 2^sh and receives
   * the low sh bits of the limb above.  In the source, now_bit =
   * x & (unit_max >> (32 - sh)) is x mod 2^sh, x >>= sh is x / 2^sh,
   * last_bit <<= 32 - sh cannot overflow because last_bit < 2^sh, and the two
   * parts occupy disjoint bits so the closing or is a sum.
   */
  method ShiftRightLimbs(t: seq<Limb>, sh: nat) returns (r: seq<Limb>)
    requires 0 < sh < UNIT_BIT
    ensures |r| == |t|
    ensures Val(r) == Val(t) / Pow2(sh)
  {
    var p, q := Pow2(sh), Pow2(UNIT_BIT - sh);
    Pow2Split(sh);
    r := t;
    var last := 0;
    var i: int := |r| - 1;
    while i >= 0
      invariant -1 <= i < |r| == |t|
      invariant r[..i + 1] == t[..i + 1]
      invariant 0 <= last < p
      invariant p * Val(r[i + 1..]) + last == Val(t[i + 1..])
      decreases i
    {
      var x := r[i];
      var nowBit := x % p;
      var y := x / p + last * q;
      ShiftRightLimbStep(r, t, i, p, q, last, y, nowBit);
      r := r[i := y];
      last := nowBit;
      i := i - 1;
    }
    ShiftRightFinish(r, t, p, last);
  }

  /** When the walk reaches the bottom limb, the low bits left over are the remainder. */
  lemma ShiftRightFinish(r: seq<Limb>, t: seq<Limb>, p: int, last: int)
    requires p > 0 && 0 <= last < p
    requires p * Val(r[0..]) + last == Val(t[0..])
    ensures Val(r) == Val(t) / p
  {
    assert r == r[0..] && t == t[0..];
    DivOfSplit(Val(t), last, p, Val(r));
  }

  /** One iteration of the limb walk of operator>>=, stated on the limb sequences alone. */
  lemma ShiftRightLimbStep(r: seq<Limb>, t: seq<Limb>, i: nat, p: int, q: int, last: int, y: int, low: int)
    requires i < |r| == |t| && r[..i + 1] == t[..i + 1]
    requires p > 0 && q > 0 && p * q == BASE && 0 <= last < p
    requires y == r[i] / p + last * q && low == r[i] % p
    requires p * Val(r[i + 1..]) + last == Val(t[i + 1..])
    ensures 0 <= y < BASE && 0 <= low < p
    ensures r[i := y][..i] == t[..i]
    ensures p * Val(r[i := y][i..]) + low == Val(t[i..])
  {
    assert r[i] == t[i] by { assert r[..i + 1][i] == t[..i + 1][i]; }
    ShiftRightStep(r[i], last, p, q, Val(r[i + 1..]));
    ShiftRightInvStep(r, t, i, y, p, last, low);
    assert r[i := y][..i] == r[..i + 1][..i];
  }

  lemma ShiftRightInvStep(r: seq<Limb>, t: seq<Limb>, i: nat, y: int, p: int, last: int, low: int)
    requires i < |r| == |t| && 0 <= y < BASE
    requires p * ((y + BASE * Val(r[i + 1..]))) + low == t[i] + BASE * (p * Val(r[i + 1..]) + last)
    requires p * Val(r[i + 1..]) + last == Val(t[i + 1..])
    ensures p * Val(r[i := y][i..]) + low == Val(t[i..])
  {
    var r2 := r[i := y];
    assert r2[i + 1..] == r[i + 1..];
    assert r2[i..] == [y] + r[i + 1..];
    assert t[i..] == [t[i]] + t[i + 1..];
    ValCons(y, r[i + 1..]);
    ValCons(t[i], t[i + 1..]);
  }

  /**
   * operator>>=(bit) (integer_container.cpp:41-58): erase the low whole limbs,
   * return at once when bit % 32 == 0, otherwise walk the remaining limbs and
   * normalize.
   */
  method ShiftRightAssign(s: seq<Limb>, k: nat) returns (r: seq<Limb>)
    ensures Val(r) == Val(s) / Pow2(k)
    ensures Normalized(s) || k % UNIT_BIT != 0 ==> Normalized(r)
    ensures k >= UNIT_BIT * |s| ==> r == []
  {
    var sh := k % UNIT_BIT;
    var drop := if k / UNIT_BIT < |s| then k / UNIT_BIT else |s|;
    r := s[drop..];
    DropThenShift(s, k);
    if k >= UNIT_BIT * |s| {
      WideShiftIsZero(s, k);
    }
    if sh == 0 {
      return;
    }
    r := ShiftRightLimbs(r, sh);
    r := Normalize(r);
    if k >= UNIT_BIT * |s| {
      ValZeroIffEmpty(r);
    }
  }

  /**
   * The limb walk of operator<<= for 0 < sh < 32 (integer_container.cpp:65-75):
   * from the least significant limb up, each limb becomes (x << sh) truncated to
   * 32 bits plus the top sh bits of the limb below; the last top bits are pushed
   * as a new limb.  In the source, now_bit = x & (unit_max << (32 - sh)) keeps
   * the top sh bits in place, last_bit >>= 32 - sh brings them down, and the
   * two parts occupy disjoint bits so the or is a sum.
   */
  method ShiftLeftLimbs(s: seq<Limb>, sh: nat) returns (r: seq<Limb>)
    requires 0 < sh < UNIT_BIT
    ensures |r| == |s| + 1
    ensures Val(r) == Val(s) * Pow2(sh)
  {
    var p, q := Pow2(sh), Pow2(UNIT_BIT - sh);
    Pow2Split(sh);
    r := s;
    var last := 0;
    var i := 0;
    while i < |r|
      invariant 0 <= i <= |r| == |s|
      invariant r[i..] == s[i..]
      invariant 0 <= last / q < p
      invariant Val(r[..i]) + LimbPow(i) * (last / q) == Val(s[..i]) * p
    {
      var x := r[i];
      var nowBit := (x / q) * q;
      ShiftLeftStep(x, last / q, p, q);
      var y := (x * p) % BASE + last / q;
      ShiftLeftInvStepSeq(r, s, i, y, p, last / q, x / q);
      MulDivCancel(x / q, q);
      r := r[i := y];
      last := nowBit;
      i := i + 1;
    }
    assert r[..i] == r && s[..i] == s;
    ValAppend(r, last / q);
    r := r + [last / q];
  }

  lemma ShiftLeftInvStepSeq(r: seq<Limb>, s: seq<Limb>, i: nat, y: int, p: int, h: int, hi: int)
    requires i < |r| == |s| && 0 <= y < BASE && r[i..] == s[i..]
    requires Val(r[..i]) + LimbPow(i) * h == Val(s[..i]) * p
    requires y + BASE * hi == s[i] * p + h
    ensures r[i := y][i + 1..] == s[i + 1..]
    ensures Val(r[i := y][..i + 1]) + LimbPow(i + 1) * hi == Val(s[..i + 1]) * p
  {
    var r2 := r[i := y];
    assert r2[..i] == r[..i];
    assert r2[i + 1..] == s[i + 1..];
    ValPrefixStep(r2, i);
    ValPrefixStep(s, i);
    ShiftLeftInvStep(Val(r[..i]), Val(s[..i]), LimbPow(i), h, y, s[i], p, hi);
  }

  /**
   * operator<<=(bit) (integer_container.cpp:60-79): the limb walk when
   * bit % 32 != 0, then bit / 32 zero limbs inserted at the bottom, then
   * normalize.
   */
  method ShiftLeftAssign(s: seq<Limb>, k: nat) returns (r: seq<Limb>)
    ensures Val(r) == Val(s) * Pow2(k)
    ensures Normalized(r)
  {
    var sh := k % UNIT_BIT;
    var ins := k / UNIT_BIT;
    r := s;
    if sh != 0 {
      r := ShiftLeftLimbs(r, sh);
    }
    ValZerosPrefix(ins, r);
    r := Zeros(ins) + r;
    ShiftSplit(Val(s), k);
    r := Normalize(r);
  }

  /** 2^k is BASE^(k / 32) times 2^(k % 32). */
  lemma ShiftSplit(v: int, k: nat)
    ensures v * Pow2(k) == LimbPow(k / UNIT_BIT) * (v * Pow2(k % UNIT_BIT))
  {
    var ins, sh := k / UNIT_BIT, k % UNIT_BIT;
    var a, b := LimbPow(ins), Pow2(sh);
    assert Pow2(k) == a * b by {
      LimbPowIsPow2(ins);
      Pow2Add(UNIT_BIT * ins, sh);
      assert UNIT_BIT * ins + sh == k;
    }
    MulRotate(v, a, b);
  }

  lemma MulRotate(v: int, a: int, b: int)
    ensures v * (a * b) == a * (v * b)
  {
    MulAssoc(v, a, b);
    MulAssoc(a, v, b);
  }

  /** operator>>(bit) (integer_container.h:504-508): a copy without the dropped limbs, shifted in place by bit % 32. */
  method ShiftRight(s: seq<Limb>, k: nat) returns (r: seq<Limb>)
    ensures Val(r) == Val(s) / Pow2(k)
    ensures Normalized(s) || k % UNIT_BIT != 0 ==> Normalized(r)
    ensures k >= UNIT_BIT * |s| ==> r == []
  {
    var drop := if k / UNIT_BIT < |s| then k / UNIT_BIT else |s|;
    r := ShiftRightAssign(s[drop..], k % UNIT_BIT);
    DropThenShift(s, k);
    if k >= UNIT_BIT * |s| {
      assert s[drop..] == [];
    }
  }

  /** operator<<(bit) (integer_container.h:512-519): a copy with bit / 32 zero limbs below, shifted in place by bit % 32. */
  method ShiftLeft(s: seq<Limb>, k: nat) returns (r: seq<Limb>)
    ensures Val(r) == Val(s) * Pow2(k)
    ensures Normalized(r)
  {
    var ins := k / UNIT_BIT;
    var t := Zeros(ins) + s;
    r := ShiftLeftAssign(t, k % UNIT_BIT);
    ValZerosPrefix(ins, s);
    ShiftSplit(Val(s), k);
    MulAssoc(LimbPow(ins), Val(s), Pow2(k % UNIT_BIT));
  }
}
