/**
 * Magnitude comparison of limb containers (integer_container.cpp:6-39 and the
 * derived operators in integer_container.h:486-500).  The container orders by
 * length first and then by the most significant differing limb; on normalized
 * containers this is the numeric order of the values.
 */
module LimbCompare {
  import opened Arith
  import opened Limbs

  /** The order the container implements: shorter is smaller, equal lengths compare by value. */
  predicate MagLess(a: seq<Limb>, b: seq<Limb>)
  {
    |a| < |b| || (|a| == |b| && Val(a) < Val(b))
  }

  /** Equal-length containers with equal values are identical, normalized or not. */
  lemma SameLengthInjective(a: seq<Limb>, b: seq<Limb>)
    requires |a| == |b| && Val(a) == Val(b)
    ensures a == b
  {
    if a != b {
      var i := TopDifference(a, b);
      if a[i] > b[i] {
        ValTopDifference(a, b, i);
      } else {
        ValTopDifference(b, a, i);
      }
    }
  }

  /** On normalized containers the container order is the numeric order. */
  lemma MagLessIsNumeric(a: seq<Limb>, b: seq<Limb>)
    requires Normalized(a) && Normalized(b)
    ensures MagLess(a, b) <==> Val(a) < Val(b)
  {
    if |a| < |b| {
      ValShorterIsSmaller(a, b);
    } else if |b| < |a| {
      ValShorterIsSmaller(b, a);
    }
  }

  /** Exactly one of a < b, a == b, a > b holds, for any pair of containers. */
  lemma MagTrichotomy(a: seq<Limb>, b: seq<Limb>)
    ensures MagLess(a, b) || a == b || MagLess(b, a)
    ensures !(MagLess(a, b) && MagLess(b, a))
    ensures MagLess(a, b) || MagLess(b, a) ==> a != b
  {
    if |a| == |b| && Val(a) == Val(b) {
      SameLengthInjective(a, b);
    }
  }

  /** operator==: same size and the same limb at every index (integer_container.cpp:6-17). */
  method Equal(a: seq<Limb>, b: seq<Limb>) returns (r: bool)
    ensures r <==> a == b
    ensures Normalized(a) && Normalized(b) ==> (r <==> Val(a) == Val(b))
  {
    if Normalized(a) && Normalized(b) && Val(a) == Val(b) {
      ValInjective(a, b);
    }
    if |a| == |b| {
      var i := 0;
      while i < |a|
        invariant 0 <= i <= |a|
        invariant a[..i] == b[..i]
      {
        if a[i] != b[i] {
          return false;
        }
        assert a[..i + 1] == a[..i] + [a[i]] && b[..i + 1] == b[..i] + [b[i]];
        i := i + 1;
      }
      assert a == a[..i] && b == b[..i];
      return true;
    }
    return false;
  }

  /** operator>: length first, then limbs from the most significant down (integer_container.cpp:19-28). */
  method Greater(a: seq<Limb>, b: seq<Limb>) returns (r: bool)
    ensures r <==> MagLess(b, a)
  {
    if |a| > |b| {
      return true;
    }
    if |a| < |b| {
      return false;
    }
    var i: int := |a| - 1;
    while i >= 0
      invariant -1 <= i < |a|
      invariant forall j :: i < j < |a| ==> a[j] == b[j]
      decreases i
    {
      assert a[i + 1..] == b[i + 1..];
      if a[i] > b[i] {
        ValTopDifference(a, b, i);
        return true;
      } else if a[i] < b[i] {
        ValTopDifference(b, a, i);
        return false;
      }
      i := i - 1;
    }
    assert a == b;
    return false;
  }

  /** operator<: the mirror of operator> (integer_container.cpp:30-39). */
  method Less(a: seq<Limb>, b: seq<Limb>) returns (r: bool)
    ensures r <==> MagLess(a, b)
  {
    if |a| > |b| {
      return false;
    }
    if |a| < |b| {
      return true;
    }
    var i: int := |a| - 1;
    while i >= 0
      invariant -1 <= i < |a|
      invariant forall j :: i < j < |a| ==> a[j] == b[j]
      decreases i
    {
      assert a[i + 1..] == b[i + 1..];
      if a[i] < b[i] {
        ValTopDifference(b, a, i);
        return true;
      } else if a[i] > b[i] {
        ValTopDifference(a, b, i);
        return false;
      }
      i := i - 1;
    }
    assert a == b;
    return false;
  }

  /** operator>=: the negation of operator< (integer_container.h:490-492). */
  method GreaterEq(a: seq<Limb>, b: seq<Limb>) returns (r: bool)
    ensures r <==> (a == b || MagLess(b, a))
  {
    var lt := Less(a, b);
    MagTrichotomy(a, b);
    r := !lt;
  }

  /** operator<=: the negation of operator> (integer_container.h:494-496). */
  method LessEq(a: seq<Limb>, b: seq<Limb>) returns (r: bool)
    ensures r <==> (a == b || MagLess(a, b))
  {
    var gt := Greater(a, b);
    MagTrichotomy(a, b);
    r := !gt;
  }
}
