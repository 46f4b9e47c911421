/**
 * Bit-level access to a limb container (integer_container.h:49-418 and
 * 542-590): the bit_modifier bound to one limb, and the bit iterators, which
 * are a (limb index, bit position) pair with pos kept in [0, 32).  The
 * const_bit_iterator and the bit_iterator share their arithmetic; they differ
 * only in what dereferencing yields (a bool, or a bit_modifier).
 */
module BitIter {
  import opened Arith
  import opened Limbs
  import opened LimbBitwise

  /** An iterator position: limb index it and bit pos within that limb. */
  datatype BitPos = BitPos(it: int, pos: int)

  predicate ValidPos(p: BitPos)
  {
    0 <= p.pos < UNIT_BIT
  }

  /** The bit index a position stands for, counted from bit 0 of limb 0. */
  function Offset(p: BitPos): int
  {
    p.it * UNIT_BIT + p.pos
  }

  /** The position of bit index o. */
  function FromOffset(o: int): BitPos
  {
    BitPos(o / UNIT_BIT, o % UNIT_BIT)
  }

  lemma OffsetRoundTrip(p: BitPos, o: int)
    ensures ValidPos(p) ==> FromOffset(Offset(p)) == p
    ensures ValidPos(FromOffset(o)) && Offset(FromOffset(o)) == o
  {
    if ValidPos(p) {
      DivOfSplit(Offset(p), p.pos, UNIT_BIT, p.it);
    }
  }

  /** bit_begin(): bit 0 of limb 0 (integer_container.h:543-553). */
  const Begin: BitPos := BitPos(0, 0)

  /** operator+(bit) (integer_container.h:183-187, 334-338): a copy advanced by bit positions through +=. */
  function Plus(p: BitPos, bit: nat): (r: BitPos)
    requires ValidPos(p)
    ensures r == FromOffset(Offset(p) + bit)
  {
    var itAdvance := bit / UNIT_BIT;
    var bitAdvance := bit % UNIT_BIT;
    var r := if p.pos + bitAdvance >= UNIT_BIT
      then BitPos(p.it + itAdvance + 1, p.pos + bitAdvance - UNIT_BIT)
      else BitPos(p.it + itAdvance, p.pos + bitAdvance);
    OffsetRoundTrip(r, 0);
    r
  }

  /** operator-(bit) (integer_container.h:200-204, 351-355): a copy moved back by bit positions through -=. */
  function Minus(p: BitPos, bit: nat): (r: BitPos)
    requires ValidPos(p)
    ensures r == FromOffset(Offset(p) - bit)
  {
    var itAdvance := bit / UNIT_BIT;
    var bitAdvance := bit % UNIT_BIT;
    var r := if p.pos - bitAdvance < 0
      then BitPos(p.it - itAdvance - 1, p.pos - bitAdvance + UNIT_BIT)
      else BitPos(p.it - itAdvance, p.pos - bitAdvance);
    OffsetRoundTrip(r, 0);
    r
  }

  /** operator-(iterator) (integer_container.h:206-208, 357-359). */
  function Diff(a: BitPos, b: BitPos): (d: int)
    ensures d == Offset(a) - Offset(b)
  {
    (a.it - b.it) * UNIT_BIT + (a.pos - b.pos)
  }

  /** operator< (integer_container.h:226-228): limb index first, then bit position. */
  predicate PosLess(a: BitPos, b: BitPos)
  {
    a.it < b.it || (a.it == b.it && a.pos < b.pos)
  }

  /** The iterator order is the order of the bit indices. */
  lemma PosLessIsOffsetOrder(a: BitPos, b: BitPos)
    requires ValidPos(a) && ValidPos(b)
    ensures PosLess(a, b) <==> Offset(a) < Offset(b)
    ensures a == b <==> Offset(a) == Offset(b)
  {
    OffsetRoundTrip(a, 0);
    OffsetRoundTrip(b, 0);
    if a.it < b.it {
      assert a.it * UNIT_BIT + UNIT_BIT <= b.it * UNIT_BIT;
    } else if a.it > b.it {
      assert b.it * UNIT_BIT + UNIT_BIT <= a.it * UNIT_BIT;
    }
  }

  /** (x + k) - x == k, and x + k - k == x. */
  lemma PlusMinusRoundTrip(p: BitPos, k: nat)
    requires ValidPos(p)
    ensures Diff(Plus(p, k), p) == k
    ensures Minus(Plus(p, k), k) == p
  {
    OffsetRoundTrip(p, Offset(p) + k);
    OffsetRoundTrip(p, Offset(p));
  }

  /** The iterator objects, whose ++, --, += and -= update it and pos in place. */
  class BitIterator {
    var it: int
    var pos: int

    /** bit_iterator(it, pos): the position is reduced modulo unit_bit (integer_container.h:115, 267). */
    constructor (base: int, p: nat)
      ensures it == base && pos == p % UNIT_BIT
      ensures Valid()
    {
      it := base;
      pos := p % UNIT_BIT;
    }

    predicate Valid()
      reads this
    {
      0 <= pos < UNIT_BIT
    }

    function Position(): BitPos
      reads this
    {
      BitPos(it, pos)
    }

    /** Prefix ++ (integer_container.h:144-149, 295-300): pos wraps to 0 and moves to the next limb. */
    method Increment()
      requires Valid()
      modifies this
      ensures Valid()
      ensures Position() == FromOffset(Offset(old(Position())) + 1)
    {
      pos := (pos + 1) % UNIT_BIT;
      if pos == 0 {
        it := it + 1;
      }
      OffsetRoundTrip(Position(), 0);
    }

    /** Prefix -- (integer_container.h:158-164, 309-315): from pos 0 it moves to bit 31 of the previous limb. */
    method Decrement()
      requires Valid()
      modifies this
      ensures Valid()
      ensures Position() == FromOffset(Offset(old(Position())) - 1)
    {
      var wasZero := pos == 0;
      pos := pos - 1;
      if wasZero {
        it := it - 1;
        pos := UNIT_BIT - 1;
      }
      OffsetRoundTrip(Position(), 0);
    }

    /** operator+= (integer_container.h:172-181, 323-332). */
    method AddAssign(bit: nat)
      requires Valid()
      modifies this
      ensures Valid()
      ensures Position() == FromOffset(Offset(old(Position())) + bit)
    {
      var itAdvance := bit / UNIT_BIT;
      var bitAdvance := bit % UNIT_BIT;
      it := it + itAdvance;
      pos := pos + bitAdvance;
      if pos >= UNIT_BIT {
        it := it + 1;
        pos := pos - UNIT_BIT;
      }
      OffsetRoundTrip(Position(), 0);
    }

    /** operator-= (integer_container.h:189-198, 340-349). */
    method SubAssign(bit: nat)
      requires Valid()
      modifies this
      ensures Valid()
      ensures Position() == FromOffset(Offset(old(Position())) - bit)
    {
      var itAdvance := bit / UNIT_BIT;
      var bitAdvance := bit % UNIT_BIT;
      it := it - itAdvance;
      pos := pos - bitAdvance;
      if pos < 0 {
        it := it - 1;
        pos := pos + UNIT_BIT;
      }
      OffsetRoundTrip(Position(), 0);
    }
  }

  /** ++ followed by -- restores the iterator (and -- followed by ++ too). */
  lemma StepRoundTrip(p: BitPos)
    requires ValidPos(p)
    ensures FromOffset(Offset(FromOffset(Offset(p) + 1)) - 1) == p
    ensures FromOffset(Offset(FromOffset(Offset(p) - 1)) + 1) == p
  {
    OffsetRoundTrip(p, Offset(p) + 1);
    OffsetRoundTrip(p, Offset(p) - 1);
  }

  // ---------------------------------------------------------------------------
  // Dereferencing

  /** const_bit_iterator::operator* (integer_container.h:210-212): (1U << pos) & *it. */
  function Deref(s: seq<Limb>, p: BitPos): bool
    requires ValidPos(p) && 0 <= p.it < |s|
  {
    LimbAnd(Mask(p.pos), s[p.it]) != 0
  }

  /** operator[](bit) (integer_container.h:214-216): the bit bit positions further on. */
  function Subscript(s: seq<Limb>, p: BitPos, bit: nat): bool
    requires ValidPos(p) && 0 <= Plus(p, bit).it < |s|
  {
    Deref(s, Plus(p, bit))
  }

  /** Adding a multiple of 2 p to x leaves the parity of x / p unchanged. */
  lemma EvenMultipleKeepsParity(x: nat, w: nat, p: nat, h: nat)
    requires p > 0 && p * (2 * h) == BASE
    ensures (x + BASE * w) / p % 2 == x / p % 2
  {
    var m := h * w;
    assert BASE * w == p * (2 * m) by {
      MulAssoc(p, 2 * h, w);
      MulAssoc(2, h, w);
    }
    DivAddMultiple(x, p, 2 * m);
    ParityOfEvenShift(x / p, m);
  }

  /** Adding whole limbs above x leaves bit pos of x unchanged. */
  lemma HigherLimbsKeepBit(x: nat, w: nat, pos: nat)
    requires pos < UNIT_BIT
    ensures (x + BASE * w) / Pow2(pos) % 2 == x / Pow2(pos) % 2
  {
    var p, h := Pow2(pos), Pow2(UNIT_BIT - pos - 1);
    Pow2Split(pos);
    assert Pow2(UNIT_BIT - pos) == 2 * h;
    EvenMultipleKeepsParity(x, w, p, h);
  }

  /** Bit pos of limb i is bit 32 i + pos of the value. */
  lemma ValBitInLimb(s: seq<Limb>, i: nat, pos: nat)
    requires i < |s| && pos < UNIT_BIT
    ensures Bit(s[i], pos) == Bit(Val(s), UNIT_BIT * i + pos)
  {
    var v := Val(s);
    var t := Val(s[i..]);
    var w := Val(s[i + 1..]);
    ValDropLow(s, i);
    LimbPowIsPow2(i);
    assert t == v / Pow2(UNIT_BIT * i);
    DivDiv(v, Pow2(UNIT_BIT * i), Pow2(pos));
    Pow2Add(UNIT_BIT * i, pos);
    assert v / Pow2(UNIT_BIT * i + pos) == t / Pow2(pos);
    assert s[i..] == [s[i]] + s[i + 1..];
    ValCons(s[i], s[i + 1..]);
    HigherLimbsKeepBit(s[i], w, pos);
  }

  /** *(bit_begin() + k) is bit k of the value, for every k inside the container. */
  lemma DerefIsValueBit(s: seq<Limb>, k: nat)
    requires k < UNIT_BIT * |s|
    ensures 0 <= Plus(Begin, k).it < |s|
    ensures Subscript(s, Begin, k) == Bit(Val(s), k)
  {
    var p := Plus(Begin, k);
    assert p == BitPos(k / UNIT_BIT, k % UNIT_BIT);
    GetIsBit(s[p.it], p.pos);
    ValBitInLimb(s, p.it, p.pos);
  }

  // ---------------------------------------------------------------------------
  // bit_end

  /** The number of significant bits: 0 for zero, otherwise the highest set bit index + 1. */
  function BitLength(n: nat): nat
  {
    if n == 0 then 0 else 1 + BitLength(n / 2)
  }

  lemma {:induction false} BitLengthBounds(n: nat)
    ensures n < Pow2(BitLength(n))
    ensures n > 0 ==> Pow2(BitLength(n) - 1) <= n
  {
    if n > 0 {
      BitLengthBounds(n / 2);
    }
  }

  lemma {:induction false} BitLengthUnique(n: nat, len: nat)
    requires len > 0 && Pow2(len - 1) <= n < Pow2(len)
    ensures BitLength(n) == len
  {
    if len > 1 {
      DivBound(n, 2, Pow2(len - 1));
      BitLengthUnique(n / 2, len - 1);
    }
  }

  lemma {:induction false} BitLengthAtMost(n: nat, m: nat)
    requires n < Pow2(m)
    ensures BitLength(n) <= m
  {
    if n > 0 {
      HalfBelow(n, m);
      BitLengthAtMost(n / 2, m - 1);
    }
  }

  /** A top digit between lower and upper bounds the whole number between l * lower and l * upper. */
  lemma TopDigitBounds(lo: int, l: int, top: int, lower: int, upper: int)
    requires 0 <= lo < l && 0 <= lower <= top < upper
    ensures l * lower <= lo + l * top < l * upper
  {
    MulMonotone(lower, top, l);
    MulMonotone(top + 1, upper, l);
    assert (top + 1) * l == top * l + l;
  }

  /** The bit length of a normalized container is fixed by its size and its top limb. */
  lemma BitLengthOfVal(s: seq<Limb>)
    requires Normalized(s) && |s| > 0
    ensures BitLength(Val(s)) == UNIT_BIT * (|s| - 1) + BitLength(s[|s| - 1])
  {
    var m := |s| - 1;
    var top: int := s[m];
    var b := BitLength(top);
    BitLengthBounds(top);
    assert s[..m + 1] == s;
    ValPrefixStep(s, m);
    ValBound(s[..m]);
    var l := LimbPow(m);
    LimbPowIsPow2(m);
    TopDigitBounds(Val(s[..m]), l, top, Pow2(b - 1), Pow2(b));
    Pow2Add(UNIT_BIT * m, b - 1);
    Pow2Add(UNIT_BIT * m, b);
    BitLengthUnique(Val(s), UNIT_BIT * m + b);
  }

  /**
   * bit_end() / bit_cend() (integer_container.h:556-586): one past the highest
   * set bit, found by shifting a copy of the top limb right until it is zero;
   * a full top limb moves the iterator to the next limb.
   */
  method BitEnd(s: seq<Limb>) returns (r: BitPos)
    ensures ValidPos(r)
    ensures |s| > 0 ==> Offset(r) == UNIT_BIT * (|s| - 1) + BitLength(s[|s| - 1])
    ensures Normalized(s) ==> Diff(r, Begin) == BitLength(Val(s))
  {
    if |s| == 0 {
      return BitPos(|s|, 0);
    }
    var byteIt := |s| - 1;
    var bitIt := 0;
    var tmp := s[byteIt];
    while tmp != 0
      invariant bitIt + BitLength(tmp) == BitLength(s[byteIt])
      decreases tmp
    {
      tmp := tmp / 2;
      bitIt := bitIt + 1;
    }
    Pow2Base();
    BitLengthAtMost(s[byteIt], UNIT_BIT);
    if bitIt >= UNIT_BIT {
      byteIt := byteIt + 1;
      bitIt := bitIt - UNIT_BIT;
    }
    r := BitPos(byteIt, bitIt % UNIT_BIT);
    if Normalized(s) {
      BitLengthOfVal(s);
    }
  }

  // ---------------------------------------------------------------------------
  // bit_modifier

  /**
   * bit_modifier (integer_container.h:50-89): a reference to one limb of a
   * container's storage together with a bit position reduced modulo unit_bit.
   */
  class BitModifier {
    const limbs: array<Limb>
    const index: nat
    const pos: nat

    constructor (storage: array<Limb>, i: nat, p: nat)
      requires i < storage.Length
      ensures limbs == storage && index == i && pos == p % UNIT_BIT
      ensures Valid()
    {
      limbs := storage;
      index := i;
      pos := p % UNIT_BIT;
    }

    predicate Valid()
    {
      index < limbs.Length && pos < UNIT_BIT
    }

    /** get() (integer_container.h:64-66). */
    function Get(): (b: bool)
      requires Valid()
      reads limbs
      ensures b == Bit(limbs[index], pos)
    {
      GetIsBit(limbs[index], pos);
      LimbAnd(Mask(pos), limbs[index]) != 0
    }

    /** set_value(bit) (integer_container.h:81-88): only the bound limb changes, and only in bit pos. */
    method SetValue(bit: bool)
      requires Valid()
      modifies limbs
      ensures limbs[..] == old(limbs[..])[index := SetLimbBit(old(limbs[index]), pos, bit)]
      ensures Get() == bit
      ensures forall q :: 0 <= q < UNIT_BIT && q != pos ==> Bit(limbs[index], q) == Bit(old(limbs[index]), q)
    {
      ghost var before := limbs[index];
      if bit {
        limbs[index] := LimbOr(limbs[index], Mask(pos));
      } else {
        limbs[index] := LimbAnd(limbs[index], LimbXor(Mask(pos), UNIT_MAX));
      }
      SetLimbBitSpec(before, pos, bit, pos);
      forall q | 0 <= q < UNIT_BIT && q != pos
        ensures Bit(limbs[index], q) == Bit(before, q)
      {
        SetLimbBitSpec(before, pos, bit, q);
      }
    }
  }
}
