// Division of integers: make_div_unit (schoolbook division by one limb),
// make_div (bit-by-bit long division driven by bit iterators), abs_div,
// abs_mod, and the signed operators / and %.
module IntegerDivision {
  import opened Arith
  import opened Limbs
  import opened LimbBitwise
  import opened BitIter
  import opened Integers
  import LimbCompare
  import IntegerArith

  // ---------------------------------------------------------------------------
  // make_div_unit
  // ---------------------------------------------------------------------------

  /** One step of the top-down division by a single limb d: the running
      remainder dv is shifted up by one limb and the next limb xi is brought in. */
  lemma DivUnitStep(xi: nat, dv: nat, d: nat, q: nat, v: nat, w: nat, qi: nat, r: int)
    requires 0 < d < BASE && xi < BASE && dv < d && v == q * d + dv
    requires w == dv * BASE + xi && qi == w / d && r == w - qi * d
    ensures qi < BASE && 0 <= r < d
    ensures (qi + BASE * q) * d + r == xi + BASE * v
  {
    MulStrictBound(dv, d, BASE);
    assert w < d * BASE;
    DivBound(w, d, BASE);
    assert r == w % d;
    calc {
      (qi + BASE * q) * d + r;
      qi * d + (BASE * q) * d + r;
      w + (BASE * q) * d;
      { MulAssoc(BASE, q, d); }
      dv * BASE + xi + BASE * (q * d);
      xi + BASE * (q * d + dv);
    }
  }

  /** Quotient and remainder are determined by a == q * b + r, 0 <= r < b. */
  lemma QuotientRemainder(a: int, b: int, q: int, r: int)
    requires 0 <= r < b && a == q * b + r
    ensures a / b == q && a % b == r
  {
    DivOfSplit(a, r, b, q);
  }

  /** make_div_unit(rhs): quotient and remainder of |x| by the limb d. */
  method MakeDivUnit(x: Integer, d: Limb) returns (q: Integer, rem: Limb)
    requires d != 0
    ensures Canonical(q) && !q.negative
    ensures Val(q.mag) * d + rem == Val(x.mag) && rem < d
    ensures Val(q.mag) == Val(x.mag) / d && rem == Val(x.mag) % d
  {
    var ret: seq<Limb> := Zeros(|x.mag|);
    var dv: nat := 0;
    var i := |x.mag|;
    while i > 0
      invariant 0 <= i <= |x.mag| && |ret| == |x.mag|
      invariant dv < d
      invariant Val(x.mag[i..]) == Val(ret[i..]) * d + dv
    {
      i := i - 1;
      var w := dv * BASE + x.mag[i];
      var qi := w / d;
      var r := w - qi * d;
      DivUnitStep(x.mag[i], dv, d, Val(ret[i + 1..]), Val(x.mag[i + 1..]), w, qi, r);
      ghost var tail := ret[i + 1..];
      ret := ret[i := qi];
      dv := r;
      assert ret[i..] == [qi] + tail;
      assert x.mag[i..] == [x.mag[i]] + x.mag[i + 1..];
      ValCons(qi, tail);
      ValCons(x.mag[i], x.mag[i + 1..]);
    }
    assert ret[0..] == ret && x.mag[0..] == x.mag;
    q := NormalizeSigned(Integer(ret, false));
    rem := dv;
    QuotientRemainder(Val(x.mag), d, Val(q.mag), rem);
  }

  // ---------------------------------------------------------------------------
  // Bit facts used by make_div
  // ---------------------------------------------------------------------------

  /** Bit k of a multiple of 2^(k+1) is clear. */
  lemma EvenMultipleBit(qv: nat, k: nat)
    ensures !Bit(qv * Pow2(k + 1), k)
  {
    var v := qv * Pow2(k + 1);
    assert v == 0 + Pow2(k) * (2 * qv);
    DivOfSplit(v, 0, Pow2(k), 2 * qv);
  }

  /** Or-ing in a bit that is clear adds its weight. */
  lemma {:induction false} OrAddsClearBit(x: nat, p: nat, n: nat)
    requires x < Pow2(n) && p < n && !Bit(x, p)
    ensures OrBits(x, Pow2(p), n) == x + Pow2(p)
  {
    HalfBelow(x, n);
    if p == 0 {
      OrBitsFacts(x / 2, 0, n - 1);
    } else {
      assert Pow2(p) == 2 * Pow2(p - 1);
      assert Pow2(p) / 2 == Pow2(p - 1) && Pow2(p) % 2 == 0;
      BitHalf(x, p - 1);
      OrAddsClearBit(x / 2, p - 1, n - 1);
    }
  }

  /** Two limbs with the same 32 bits are equal. */
  lemma SameBitsEqual(x: Limb, y: Limb)
    requires forall q :: 0 <= q < UNIT_BIT ==> Bit(x, q) == Bit(y, q)
    ensures x == y
  {
    Pow2Base();
    BitsBound(x, y, UNIT_BIT);
    forall q | 0 <= q < UNIT_BIT
      ensures !Bit(XorBits(x, y, UNIT_BIT), q)
    {
      BitOfXor(x, y, UNIT_BIT, q);
    }
    NoBitsIsZero(XorBits(x, y, UNIT_BIT), UNIT_BIT);
    LimbXorFacts(x, y);
    LimbXorFacts(y, 0);
  }

  /** Writing bit 0 of an even limb adds the written bit. */
  lemma SetLowBitOfEven(x: Limb, b: bool)
    requires x % 2 == 0
    ensures SetLimbBit(x, 0, b) == x + (if b then 1 else 0)
  {
    Pow2Base();
    if b {
      OrAddsClearBit(x, 0, UNIT_BIT);
    } else {
      forall q | 0 <= q < UNIT_BIT
        ensures Bit(SetLimbBit(x, 0, false), q) == Bit(x, q)
      {
        SetLimbBitSpec(x, 0, false, q);
      }
      SameBitsEqual(SetLimbBit(x, 0, false), x);
    }
  }

  /** The parity of a limb sequence is the parity of its lowest limb. */
  lemma ValParity(s: seq<Limb>)
    requires |s| > 0
    ensures Val(s) % 2 == s[0] % 2
  {
    var m := 0x8000_0000 * Val(s[1..]);
    assert Val(s) == s[0] + 2 * m;
    DivAddMultiple(s[0], 2, m);
  }

  // ---------------------------------------------------------------------------
  // make_div
  // ---------------------------------------------------------------------------

  lemma BitLengthMonotone(m: nat, n: nat)
    requires m <= n
    ensures BitLength(m) <= BitLength(n)
  {
    BitLengthBounds(n);
    BitLengthAtMost(m, BitLength(n));
  }

  /** Size facts that make_div relies on when |o| <= |x| and o != 0. */
  lemma DivisionSizes(x: seq<Limb>, o: seq<Limb>)
    requires Normalized(x) && Normalized(o) && 0 < Val(o) <= Val(x)
    ensures 0 < |o| <= |x|
    ensures UNIT_BIT * (|o| - 1) < BitLength(Val(o)) <= BitLength(Val(x)) <= UNIT_BIT * |x|
  {
    if |x| < |o| {
      ValShorterIsSmaller(x, o);
    }
    BitLengthMonotone(Val(o), Val(x));
    ValBound(x);
    LimbPowIsPow2(|x|);
    BitLengthAtMost(Val(x), UNIT_BIT * |x|);
    BitLengthOfVal(o);
    assert BitLength(o[|o| - 1]) >= 1;
  }

  /** The first window of the dividend holds fewer than twice the divisor. */
  lemma WindowBound(a: nat, b: nat, t: nat)
    requires 0 < b && t + BitLength(b) == BitLength(a)
    ensures a / Pow2(t) < 2 * b
  {
    var w := BitLength(b);
    BitLengthBounds(a);
    BitLengthBounds(b);
    Pow2Add(t, w);
    DivBound(a, Pow2(t), Pow2(w));
    assert Pow2(w) == 2 * Pow2(w - 1);
  }

  /** The copy of limbs [p.it, e.it) (and the limb at e when e.pos != 0),
      shifted right by p.pos: the dividend's bits from offset p upwards. */
  method DividendWindow(x: seq<Limb>, e: BitPos, p: BitPos) returns (im: Integer)
    requires Normalized(x) && |x| > 0
    requires ValidPos(e) && Offset(e) == UNIT_BIT * (|x| - 1) + BitLength(x[|x| - 1])
    requires ValidPos(p) && 0 <= Offset(p) <= Offset(e)
    ensures Valid(im) && !im.negative
    ensures Val(im.mag) == Val(x) / Pow2(Offset(p))
  {
    Pow2Base();
    BitLengthAtMost(x[|x| - 1], UNIT_BIT);
    assert BitLength(x[|x| - 1]) >= 1;
    assert e.pos != 0 ==> e.it == |x| - 1;
    assert e.pos == 0 ==> e.it == |x|;
    var m: seq<Limb> := [];
    var it := p.it;
    while it != e.it
      invariant p.it <= it <= e.it
      invariant m == x[p.it..it]
    {
      m := m + [x[it]];
      it := it + 1;
    }
    if e.pos != 0 {
      m := m + [x[e.it]];
    }
    assert m == x[p.it..];
    im := ShiftRightAssign(Integer(m, false), p.pos);
    ValDropLow(x, p.it);
    DivDiv(Val(x), LimbPow(p.it), Pow2(p.pos));
    LimbPowIsPow2(p.it);
    Pow2Add(UNIT_BIT * p.it, p.pos);
  }

  /** Bit k of the partial quotient buffer is clear before it is set. */
  lemma QuotientBitClear(before: seq<Limb>, k: nat, qv: nat)
    requires k / UNIT_BIT < |before| && Val(before) == qv * Pow2(k + 1)
    ensures !Bit(before[k / UNIT_BIT], k % UNIT_BIT)
  {
    ValBitInLimb(before, k / UNIT_BIT, k % UNIT_BIT);
    EvenMultipleBit(qv, k);
  }

  lemma WeightedAdd(l: int, y0: int, p: int, pk: int, va: int, vb: int, qv: int)
    requires va + l * y0 == vb + l * (y0 + p) && l * p == pk && vb == qv * (2 * pk)
    ensures va == (2 * qv + 1) * pk
  {
  }

  /** Adding 2^k to the buffer through the limb that holds bit k. */
  lemma QuotientBitValue(before: seq<Limb>, k: nat, qv: nat, y: Limb)
    requires k / UNIT_BIT < |before| && Val(before) == qv * Pow2(k + 1)
    requires y == before[k / UNIT_BIT] + Pow2(k % UNIT_BIT)
    ensures Val(before[k / UNIT_BIT := y]) == (2 * qv + 1) * Pow2(k)
  {
    var i := k / UNIT_BIT;
    var p := k % UNIT_BIT;
    ValUpdate(before, i, y);
    LimbPowIsPow2(i);
    Pow2Add(UNIT_BIT * i, p);
    DoubleWeight(qv, k);
    WeightedAdd(LimbPow(i), before[i], Pow2(p), Pow2(k), Val(before[i := y]), Val(before), qv);
  }

  lemma DoubleWeight(qv: nat, k: nat)
    ensures qv * Pow2(k + 1) == (2 * qv) * Pow2(k) == qv * (2 * Pow2(k))
  {
    assert Pow2(k + 1) == 2 * Pow2(k);
  }

  /** *res_apply = true: sets bit k of the quotient buffer, which is clear. */
  method SetQuotientBit(ret: array<Limb>, k: nat, ghost qv: nat)
    requires k / UNIT_BIT < ret.Length
    requires Val(ret[..]) == qv * Pow2(k + 1)
    modifies ret
    ensures Val(ret[..]) == (2 * qv + 1) * Pow2(k)
  {
    ghost var before := ret[..];
    var bm := new BitModifier(ret, k / UNIT_BIT, k);
    bm.SetValue(true);
    ghost var x := before[k / UNIT_BIT];
    QuotientBitClear(before, k, qv);
    Pow2Base();
    OrAddsClearBit(x, k % UNIT_BIT, UNIT_BIT);
    QuotientBitValue(before, k, qv, x + Pow2(k % UNIT_BIT));
  }

  /** *(im_int.bit_begin()) = bit, on an even remainder, with the bit kept
      when the remainder has no limb to hold it. */
  method SetLowBit(s: seq<Limb>, bit: bool) returns (r: seq<Limb>)
    requires Normalized(s) && Val(s) % 2 == 0
    ensures Normalized(r) && Val(r) == Val(s) + (if bit then 1 else 0)
  {
    if |s| == 0 {
      r := if bit then [1] else [];
      ValOfSingle(1);
      return;
    }
    var storage := new Limb[|s|](j requires 0 <= j < |s| => s[j]);
    var bm := new BitModifier(storage, 0, 0);
    bm.SetValue(bit);
    r := storage[..];
    ValParity(s);
    SetLowBitOfEven(s[0], bit);
    assert r == s[0 := s[0] + (if bit then 1 else 0)];
    ValUpdate(s, 0, s[0] + (if bit then 1 else 0));
  }

  /** *(im_int.bit_begin()) = bit as written: on an empty remainder the write
      lands beyond the end of the vector and the value stays 0. */
  method SetLowBitAsWritten(s: seq<Limb>, bit: bool) returns (r: seq<Limb>)
    requires Normalized(s) && Val(s) % 2 == 0
    ensures |s| == 0 ==> r == []
    ensures |s| > 0 ==> Normalized(r) && Val(r) == Val(s) + (if bit then 1 else 0)
  {
    if |s| == 0 {
      return s;
    }
    r := SetLowBit(s, bit);
  }

  /** im_int <<= 1; *(im_int.bit_begin()) = *--tmp_it; */
  method PullBit(im: Integer, x: seq<Limb>, tmpIt: BitIterator) returns (r: Integer)
    requires Valid(im) && !im.negative && tmpIt.Valid()
    requires 0 < Offset(tmpIt.Position()) <= UNIT_BIT * |x|
    modifies tmpIt
    ensures tmpIt.Valid() && tmpIt.Position() == FromOffset(Offset(old(tmpIt.Position())) - 1)
    ensures Valid(r) && !r.negative
    ensures Val(r.mag) == 2 * Val(im.mag) + (if Bit(Val(x), Offset(tmpIt.Position())) then 1 else 0)
  {
    var shifted := ShiftLeftAssign(im, 1);
    tmpIt.Decrement();
    ghost var o := Offset(old(tmpIt.Position())) - 1;
    OffsetRoundTrip(Begin, o);
    DerefIsValueBit(x, o);
    var bit := Deref(x, tmpIt.Position());
    assert Val(shifted.mag) == 2 * Val(im.mag) by {
      assert Pow2(1) == 2;
    }
    assert Val(shifted.mag) % 2 == 0;
    var low := SetLowBit(shifted.mag, bit);
    r := Integer(low, false);
  }

  /** The arithmetic of one round of the long division. */
  lemma LongDivisionStep(a: nat, b: nat, k: nat, qv: nat, rem: nat, rem2: nat, bit: nat)
    requires rem + b * qv == a / Pow2(k + 1) && rem < b
    requires bit == (if Bit(a, k) then 1 else 0) && rem2 == 2 * rem + bit
    ensures rem2 + 2 * b * qv == a / Pow2(k) && rem2 < 2 * b
  {
    Pow2DivStep(a, k);
  }

  /** Deciding one quotient bit: subtract the divisor when it fits. */
  lemma DecideBit(c: int, b: int, qv: int, r: int, r2: int, qv2: int, fits: bool)
    requires 0 <= r < 2 * b && r + 2 * b * qv == c
    requires fits <==> r >= b
    requires r2 == (if fits then r - b else r) && qv2 == (if fits then 2 * qv + 1 else 2 * qv)
    ensures 0 <= r2 < b && r2 + b * qv2 == c
  {
  }

  /** Before the round for quotient bit k: the remainder window im and the
      quotient bits qv found so far account for a / 2^k. */
  ghost predicate Partial(a: nat, b: nat, k: nat, qv: nat, im: nat, ret: nat)
  {
    im + 2 * b * qv == a / Pow2(k) && im < 2 * b && ret == qv * Pow2(k + 1)
  }

  /** After the round for bit 0: qv is the quotient and im the remainder. */
  ghost predicate Done(a: nat, b: nat, qv: nat, im: nat, ret: nat)
  {
    im + b * qv == a && im < b && ret == qv
  }

  /** One pass of make_div's do-while loop: decide quotient bit k, subtract
      the divisor when it fits, and bring down bit k - 1 of the dividend. */
  method DivisionRound(x: Integer, o: Integer, im: Integer, ret: array<Limb>, tmpIt: BitIterator,
                       k: nat, ghost qv: nat) returns (im2: Integer, ghost qv2: nat)
    requires Valid(o) && Valid(im) && !im.negative && 0 < Val(o.mag)
    requires k / UNIT_BIT < ret.Length && k < UNIT_BIT * |x.mag|
    requires tmpIt.Valid() && tmpIt.Position() == FromOffset(k)
    requires Partial(Val(x.mag), Val(o.mag), k, qv, Val(im.mag), Val(ret[..]))
    modifies ret, tmpIt
    ensures Valid(im2) && !im2.negative && tmpIt.Valid()
    ensures k > 0 ==> tmpIt.Position() == FromOffset(k - 1)
    ensures k > 0 ==> Partial(Val(x.mag), Val(o.mag), k - 1, qv2, Val(im2.mag), Val(ret[..]))
    ensures k == 0 ==> Done(Val(x.mag), Val(o.mag), qv2, Val(im2.mag), Val(ret[..]))
  {
    ghost var a := Val(x.mag);
    ghost var b := Val(o.mag);
    var ge := LimbCompare.GreaterEq(im.mag, o.mag);
    LimbCompare.MagLessIsNumeric(o.mag, im.mag);
    if Val(im.mag) == b {
      ValInjective(im.mag, o.mag);
    }
    im2 := im;
    if ge {
      SetQuotientBit(ret, k, qv);
      im2 := IntegerArith.AbsSubAbs(im, o);
      qv2 := 2 * qv + 1;
    } else {
      DoubleWeight(qv, k);
      qv2 := 2 * qv;
    }
    DecideBit(a / Pow2(k), b, qv, Val(im.mag), Val(im2.mag), qv2, ge);
    if k > 0 {
      ghost var before := Val(im2.mag);
      im2 := PullBit(im2, x.mag, tmpIt);
      OffsetRoundTrip(Begin, k);
      LongDivisionStep(a, b, k - 1, qv2, before, Val(im2.mag), if Bit(a, k - 1) then 1 else 0);
    }
  }

  /** The start of make_div: the divisor's bit width, the dividend's bit
      end, the bit position tmp_it of the first window, and the window itself. */
  method DivisionStart(x: Integer, o: Integer) returns (start: BitPos, im: Integer)
    requires Valid(x) && Valid(o) && 0 < Val(o.mag) <= Val(x.mag)
    ensures ValidPos(start) && Offset(start) == BitLength(Val(x.mag)) - BitLength(Val(o.mag))
    ensures 0 <= Offset(start) < UNIT_BIT * (|x.mag| - |o.mag| + 1)
    ensures Offset(start) < UNIT_BIT * |x.mag|
    ensures Valid(im) && !im.negative
    ensures Val(im.mag) == Val(x.mag) / Pow2(Offset(start)) && Val(im.mag) < 2 * Val(o.mag)
  {
    DivisionSizes(x.mag, o.mag);
    var oEnd := BitEnd(o.mag);
    var width := Diff(oEnd, Begin);
    var myBitEnd := BitEnd(x.mag);
    start := Minus(myBitEnd, width as nat);
    ghost var t := BitLength(Val(x.mag)) - BitLength(Val(o.mag));
    OffsetRoundTrip(Begin, t);
    im := DividendWindow(x.mag, myBitEnd, start);
    WindowBound(Val(x.mag), Val(o.mag), t);
  }

  /** make_div: long division of |x| by |o| one quotient bit at a time, from
      the top bit of the first window down to bit 0. */
  method MakeDiv(x: Integer, o: Integer) returns (q: Integer, rem: Integer)
    requires Valid(x) && Valid(o) && 0 < Val(o.mag) <= Val(x.mag)
    ensures Canonical(q) && !q.negative && Canonical(rem) && !rem.negative
    ensures Val(q.mag) * Val(o.mag) + Val(rem.mag) == Val(x.mag)
    ensures Val(rem.mag) < Val(o.mag)
    ensures Val(q.mag) == Val(x.mag) / Val(o.mag) && Val(rem.mag) == Val(x.mag) % Val(o.mag)
  {
    ghost var a := Val(x.mag);
    ghost var b := Val(o.mag);
    var start, im := DivisionStart(x, o);
    var n := |x.mag| - |o.mag| + 1;
    var ret := new Limb[n](_ => 0);
    assert ret[..] == Zeros(n);
    ValZeros(n);
    var k := Diff(start, Begin);
    var tmpIt := new BitIterator(start.it, start.pos);
    OffsetRoundTrip(start, 0);
    ghost var qv: nat := 0;
    assert Partial(a, b, k, qv, Val(im.mag), Val(ret[..]));
    while k >= 0
      invariant k < UNIT_BIT * n && k < UNIT_BIT * |x.mag| && ret.Length == n
      invariant tmpIt.Valid()
      invariant k >= 0 ==> tmpIt.Position() == FromOffset(k)
      invariant Valid(im) && !im.negative
      invariant k >= 0 ==> Partial(a, b, k, qv, Val(im.mag), Val(ret[..]))
      invariant k < 0 ==> Done(a, b, qv, Val(im.mag), Val(ret[..]))
      decreases k + 1
    {
      im, qv := DivisionRound(x, o, im, ret, tmpIt, k, qv);
      k := k - 1;
    }
    q := NormalizeSigned(Integer(ret[..], false));
    rem := NormalizeSigned(im);
    assert Val(q.mag) == qv;
    QuotientRemainder(a, b, qv, Val(rem.mag));
  }

  /** The input that shows the lost bit in make_div: dividing 2^33 + 1 by
      2^32, the first window (bits 33..1 of the dividend) equals the divisor,
      so the remainder becomes empty; the bit then brought down is 1, and the
      true remainder is 1.  SetLowBitAsWritten drops that bit on the empty
      remainder and make_div returns remainder 0. */
  lemma LostBitExample()
    ensures BitLength(Pow2(33) + 1) == 34 && BitLength(Pow2(32)) == 33
    ensures (Pow2(33) + 1) / Pow2(34 - 33) == Pow2(32)
    ensures Bit(Pow2(33) + 1, 0)
    ensures (Pow2(33) + 1) / Pow2(32) == 2 && (Pow2(33) + 1) % Pow2(32) == 1
  {
    Pow2Base();
    assert Pow2(33) == 2 * BASE;
    assert Pow2(34) == 4 * BASE;
    BitLengthUnique(Pow2(33) + 1, 34);
    BitLengthUnique(Pow2(32), 33);
    DivOfSplit(Pow2(33) + 1, 1, Pow2(32), 2);
  }

  // ---------------------------------------------------------------------------
  // abs_div, abs_mod and the signed operators
  // ---------------------------------------------------------------------------

  /** abs_div: |x| / |o| by the short path, make_div_unit or make_div. */
  method AbsDiv(x: Integer, o: Integer) returns (r: Integer)
    requires Valid(x) && Valid(o) && Val(o.mag) != 0
    ensures Canonical(r) && !r.negative
    ensures Val(r.mag) == Val(x.mag) / Val(o.mag)
  {
    var lt := LimbCompare.Less(x.mag, o.mag);
    if lt {
      LimbCompare.MagLessIsNumeric(x.mag, o.mag);
      QuotientRemainder(Val(x.mag), Val(o.mag), 0, Val(x.mag));
      return Integer([], false);
    }
    if |o.mag| == 1 {
      SingleLimb(o.mag);
      var q, rem := MakeDivUnit(x, o.mag[0]);
      return q;
    }
    LimbCompare.MagLessIsNumeric(x.mag, o.mag);
    var q, rem := MakeDiv(x, o);
    r := q;
  }

  lemma SingleLimb(s: seq<Limb>)
    requires |s| == 1
    ensures Val(s) == s[0]
  {
    assert s == [s[0]];
    ValOfSingle(s[0]);
  }

  /** abs_mod: |x| % |o|; when |x| < |o| the dividend is returned with its sign. */
  method AbsMod(x: Integer, o: Integer) returns (r: Integer)
    requires Valid(x) && Valid(o) && Val(o.mag) != 0
    ensures Valid(r) && Val(r.mag) == Val(x.mag) % Val(o.mag)
    ensures r.negative ==> r == x
  {
    var lt := LimbCompare.Less(x.mag, o.mag);
    if lt {
      LimbCompare.MagLessIsNumeric(x.mag, o.mag);
      QuotientRemainder(Val(x.mag), Val(o.mag), 0, Val(x.mag));
      return x;
    }
    if |o.mag| == 1 {
      SingleLimb(o.mag);
      var q, rem := MakeDivUnit(x, o.mag[0]);
      var m := FromUnit(rem);
      return Integer(m, false);
    }
    LimbCompare.MagLessIsNumeric(x.mag, o.mag);
    var q, rem := MakeDiv(x, o);
    r := rem;
  }

  /** The C++ quotient of built-in integers: truncated toward zero. */
  function TruncDiv(a: int, b: int): int
    requires b != 0
  {
    var q := Abs(a) / Abs(b);
    if (a < 0) != (b < 0) then -q else q
  }

  /** The C++ remainder of built-in integers: it takes the dividend's sign. */
  function TruncRem(a: int, b: int): int
    requires b != 0
  {
    var m := Abs(a) % Abs(b);
    if a < 0 then -m else m
  }

  /** Truncated quotient and remainder recompose the dividend, the remainder
      is smaller than the divisor, and it never has the opposite sign. */
  lemma DivisionIdentity(a: int, b: int)
    requires b != 0
    ensures TruncDiv(a, b) * b + TruncRem(a, b) == a
    ensures Abs(TruncRem(a, b)) < Abs(b)
    ensures TruncRem(a, b) != 0 ==> (TruncRem(a, b) < 0 <==> a < 0)
    ensures Abs(TruncDiv(a, b)) * Abs(b) <= Abs(a)
  {
    var aa, bb := Abs(a), Abs(b);
    var q, m := aa / bb, aa % bb;
    QuotientRemainderExist(aa, bb);
    SignedRecompose(a, b, aa, bb, q, m);
  }

  lemma QuotientRemainderExist(a: nat, b: nat)
    requires b > 0
    ensures a == (a / b) * b + a % b && 0 <= a % b < b
  {
  }

  lemma SignedRecompose(a: int, b: int, aa: nat, bb: nat, q: int, m: int)
    requires b != 0 && aa == Abs(a) && bb == Abs(b) && aa == q * bb + m && 0 <= m < bb && 0 <= q
    ensures (if (a < 0) != (b < 0) then -q else q) * b + (if a < 0 then -m else m) == a
    ensures q * bb <= aa
  {
    if b < 0 {
      assert (-q) * b == q * bb && q * b == -(q * bb);
    } else {
      assert q * b == q * bb;
    }
  }

  lemma DivideZero(b: int)
    requires b != 0
    ensures TruncDiv(0, b) == 0 && TruncRem(0, b) == 0 && ModSignAsWritten(0, b) == 0
  {
    QuotientRemainder(0, Abs(b), 0, 0);
  }

  /** The truncated quotient and remainder of two nonzero integers, in terms
      of their magnitudes and signs. */
  lemma TruncOfIntegers(x: Integer, o: Integer)
    requires Valid(x) && Valid(o) && Val(x.mag) != 0 && Val(o.mag) != 0
    ensures TruncDiv(Value(x), Value(o)) == (if x.negative != o.negative then -(Val(x.mag) / Val(o.mag)) else Val(x.mag) / Val(o.mag))
    ensures TruncRem(Value(x), Value(o)) == (if x.negative then -(Val(x.mag) % Val(o.mag)) else Val(x.mag) % Val(o.mag))
    ensures ModSignAsWritten(Value(x), Value(o)) == (if x.negative != o.negative then -(Val(x.mag) % Val(o.mag)) else Val(x.mag) % Val(o.mag))
  {
    assert Abs(Value(x)) == Val(x.mag) && Abs(Value(o)) == Val(o.mag);
    assert Value(x) < 0 <==> x.negative;
    assert Value(o) < 0 <==> o.negative;
  }

  /** operator/: Failure(DivisionByZero) for a zero divisor (the source throws
      std::domain_error); otherwise the truncated quotient. */
  method Div(x: Integer, o: Integer) returns (res: Result<Integer>)
    requires Valid(x) && Valid(o)
    ensures res.Failure? <==> Value(o) == 0
    ensures res.Failure? ==> res.error == DivisionByZero
    ensures res.Success? ==> Canonical(res.value) && Value(res.value) == TruncDiv(Value(x), Value(o))
  {
    if Integers.IsZero(o) {
      return Failure(DivisionByZero);
    }
    if Integers.IsZero(x) {
      DivideZero(Value(o));
      return Success(Integer([], false));
    }
    ValZeroIffEmpty(x.mag);
    TruncOfIntegers(x, o);
    if IsOneAbs(o) {
      return Success(Integer(x.mag, x.negative != o.negative));
    }
    var q := AbsDiv(x, o);
    q := q.(negative := x.negative != o.negative);
    q := NormalizeSigned(q);
    return Success(q);
  }

  /** operator% as intended: the remainder takes the dividend's sign, so that
      (x / o) * o + x % o == x. */
  method Mod(x: Integer, o: Integer) returns (res: Result<Integer>)
    requires Valid(x) && Valid(o)
    ensures res.Failure? <==> Value(o) == 0
    ensures res.Failure? ==> res.error == DivisionByZero
    ensures res.Success? ==> Canonical(res.value) && Value(res.value) == TruncRem(Value(x), Value(o))
  {
    if Integers.IsZero(o) {
      return Failure(DivisionByZero);
    }
    if Integers.IsZero(x) {
      DivideZero(Value(o));
      return Success(Integer([], false));
    }
    TruncOfIntegers(x, o);
    if IsOneAbs(o) {
      QuotientRemainder(Val(x.mag), Val(o.mag), Val(x.mag), 0);
      return Success(Integer([], false));
    }
    var m := AbsMod(x, o);
    m := m.(negative := x.negative);
    m := NormalizeSigned(m);
    return Success(m);
  }

  /** The sign operator% gives its result as written: negative when exactly
      one operand is negative. */
  function ModSignAsWritten(a: int, b: int): int
    requires b != 0
  {
    var m := Abs(a) % Abs(b);
    if (a < 0) != (b < 0) then -m else m
  }

  /** operator% as written: the remainder's sign is the exclusive or of the
      operands' signs. */
  method ModAsWritten(x: Integer, o: Integer) returns (res: Result<Integer>)
    requires Valid(x) && Valid(o)
    ensures res.Failure? <==> Value(o) == 0
    ensures res.Success? ==> Canonical(res.value) && Value(res.value) == ModSignAsWritten(Value(x), Value(o))
  {
    if Integers.IsZero(o) {
      return Failure(DivisionByZero);
    }
    if Integers.IsZero(x) {
      DivideZero(Value(o));
      return Success(Integer([], false));
    }
    TruncOfIntegers(x, o);
    if IsOneAbs(o) {
      QuotientRemainder(Val(x.mag), Val(o.mag), Val(x.mag), 0);
      return Success(Integer([], false));
    }
    var m := AbsMod(x, o);
    m := m.(negative := x.negative != o.negative);
    m := NormalizeSigned(m);
    return Success(m);
  }

  /** With 7 and -2 the quotient is -3, and the remainder as written is -1,
      so quotient * divisor + remainder gives 5 instead of 7. */
  lemma ModSignBreaksIdentity()
    ensures TruncDiv(7, -2) == -3 && ModSignAsWritten(7, -2) == -1
    ensures TruncDiv(7, -2) * -2 + ModSignAsWritten(7, -2) != 7
    ensures TruncDiv(7, -2) * -2 + TruncRem(7, -2) == 7
  {
    assert Abs(7) / Abs(-2) == 3 && Abs(7) % Abs(-2) == 1;
  }
}
