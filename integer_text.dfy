// Decimal text for integers: the std::string constructor and ToString.
module IntegerText {
  import opened Limbs
  import opened Integers
  import IntegerArith
  import IntegerDivision

  predicate IsDigit(c: char)
  {
    '0' <= c <= '9'
  }

  predicate AllDigits(s: string)
  {
    forall i :: 0 <= i < |s| ==> IsDigit(s[i])
  }

  function DigitValue(c: char): nat
    requires IsDigit(c)
  {
    c as int - '0' as int
  }

  function DigitChar(d: nat): (c: char)
    requires d < 10
    ensures IsDigit(c) && DigitValue(c) == d
  {
    (d + '0' as int) as char
  }

  /** The number a string of decimal digits denotes, most significant first. */
  function DigitsValue(s: string): nat
    requires AllDigits(s)
  {
    if |s| == 0 then 0 else 10 * DigitsValue(s[..|s| - 1]) + DigitValue(s[|s| - 1])
  }

  /** The shortest decimal digit string of n, most significant first. */
  function DecimalDigits(n: nat): string
  {
    if n < 10 then [DigitChar(n)] else DecimalDigits(n / 10) + [DigitChar(n % 10)]
  }

  /** Length of the optional leading sign of the string constructor. */
  function SignLength(s: string): nat
  {
    if |s| > 0 && (s[0] == '+' || s[0] == '-') then 1 else 0
  }

  /** The value the string constructor gives an accepted string. */
  function TextValue(s: string): int
    requires AllDigits(s[SignLength(s)..])
  {
    var v: int := DigitsValue(s[SignLength(s)..]);
    if |s| > 0 && s[0] == '-' then -v else v
  }

  function Reversed(s: string): (r: string)
    ensures |r| == |s|
  {
    if |s| == 0 then [] else [s[|s| - 1]] + Reversed(s[..|s| - 1])
  }

  /** integer(const std::string&): an optional '+' or '-', then decimal digits;
      any other character is InvalidFormat (the source throws
      std::invalid_argument).  The source reads the first character without
      checking for it, so the string must not be empty. */
  method Parse(str: string) returns (res: Result<Integer>)
    requires |str| > 0
    ensures res.Success? <==> AllDigits(str[SignLength(str)..])
    ensures res.Failure? ==> res.error == InvalidFormat
    ensures res.Success? ==> Canonical(res.value)
    ensures res.Success? ==> Value(res.value) == TextValue(str)
  {
    var i := 0;
    var tmpNeg := false;
    if str[i] == '+' {
      tmpNeg := false;
      i := i + 1;
    } else if str[i] == '-' {
      tmpNeg := true;
      i := i + 1;
    }
    var start := i;
    var tmp := Integer([], false);
    while i < |str|
      invariant start <= i <= |str| && start == SignLength(str)
      invariant AllDigits(str[start..i])
      invariant !tmp.negative && Val(tmp.mag) == DigitsValue(str[start..i])
    {
      if str[i] < '0' || str[i] > '9' {
        assert !IsDigit(str[start..][i - start]);
        return Failure(InvalidFormat);
      }
      DigitsValueStep(str, start, i);
      tmp := IntegerArith.AbsMultUnit(tmp, 10);
      var digit := FromNative(str[i] as int - '0' as int);
      // operator+= with two non-negative operands is abs_add
      tmp := IntegerArith.AbsAdd(tmp, digit);
      i := i + 1;
    }
    assert str[start..i] == str[SignLength(str)..];
    var r := NormalizeSigned(Integer(tmp.mag, tmpNeg));
    return Success(r);
  }

  /** Reading one more digit multiplies the value so far by ten and adds it. */
  lemma DigitsValueStep(s: string, start: nat, i: nat)
    requires start <= i < |s| && AllDigits(s[start..i]) && IsDigit(s[i])
    ensures AllDigits(s[start..i + 1])
    ensures DigitsValue(s[start..i + 1]) == 10 * DigitsValue(s[start..i]) + DigitValue(s[i])
  {
    var t := s[start..i + 1];
    assert t[..|t| - 1] == s[start..i] && t[|t| - 1] == s[i];
    assert forall k :: 0 <= k < |t| ==> t[k] == if k < i - start then s[start..i][k] else s[i];
  }

  /** ToString: "0" for zero; otherwise the decimal digits of the magnitude,
      found lowest first by make_div_unit(10), with '-' in front of a negative
      value, then reversed. */
  method ToString(x: Integer) returns (s: string)
    requires Valid(x)
    ensures s == (if x.negative && Val(x.mag) != 0 then "-" else "") + DecimalDigits(Val(x.mag))
  {
    var tmp := Integer(x.mag, false);
    if Integers.IsZero(x) {
      return "0";
    }
    var ret: string := [];
    while !Integers.IsZero(tmp)
      invariant Valid(tmp) && !tmp.negative
      invariant Val(tmp.mag) > 0 ==> DecimalDigits(Val(x.mag)) == DecimalDigits(Val(tmp.mag)) + Reversed(ret)
      invariant Val(tmp.mag) == 0 ==> DecimalDigits(Val(x.mag)) == Reversed(ret)
      decreases Val(tmp.mag)
    {
      var q, r := IntegerDivision.MakeDivUnit(tmp, 10);
      ReversedAppend(ret, DigitChar(r));
      ret := ret + [DigitChar(r)];
      tmp := q;
    }
    if x.negative {
      ReversedAppend(ret, '-');
      ret := ret + ['-'];
    }
    s := Reversed(ret);
  }

  lemma ReversedAppend(s: string, c: char)
    ensures Reversed(s + [c]) == [c] + Reversed(s)
  {
    assert (s + [c])[..|s|] == s;
  }

  lemma {:induction false} DecimalDigitsAreDigits(n: nat)
    ensures |DecimalDigits(n)| > 0 && AllDigits(DecimalDigits(n))
    ensures DigitsValue(DecimalDigits(n)) == n
    ensures |DecimalDigits(n)| > 1 ==> DecimalDigits(n)[0] != '0'
    decreases n
  {
    var s := DecimalDigits(n);
    if n < 10 {
      assert s[..0] == [];
    } else {
      DecimalDigitsAreDigits(n / 10);
      var h := DecimalDigits(n / 10);
      assert s[..|s| - 1] == h;
      if |h| == 1 {
        assert h == [DigitChar(n / 10)];
      }
      assert s[0] == h[0];
    }
  }

  lemma {:induction false} LeadingDigitPositive(s: string)
    requires |s| > 0 && AllDigits(s) && s[0] != '0'
    ensures DigitsValue(s) > 0
    decreases |s|
  {
    if |s| > 1 {
      LeadingDigitPositive(s[..|s| - 1]);
    }
  }

  /** A digit string without a leading zero is the decimal form of its value. */
  lemma {:induction false} DigitsRoundTrip(s: string)
    requires |s| > 0 && AllDigits(s) && (|s| == 1 || s[0] != '0')
    ensures DecimalDigits(DigitsValue(s)) == s
    decreases |s|
  {
    var n := DigitsValue(s);
    var init := s[..|s| - 1];
    if |s| == 1 {
      assert init == [];
      assert DigitsValue(init) == 0;
      assert n == DigitValue(s[0]);
      assert s == [DigitChar(n)];
    } else {
      LeadingDigitPositive(init);
      DigitsRoundTrip(init);
      assert n / 10 == DigitsValue(init) && n % 10 == DigitValue(s[|s| - 1]);
      assert s == init + [s[|s| - 1]];
    }
  }

  /** The text ToString produces is accepted by the string constructor and
      denotes the same value. */
  lemma TextRoundTrip(x: Integer)
    requires Canonical(x)
    ensures var s := (if x.negative && Val(x.mag) != 0 then "-" else "") + DecimalDigits(Val(x.mag));
      AllDigits(s[SignLength(s)..]) && TextValue(s) == Value(x)
  {
    var n := Val(x.mag);
    DecimalDigitsAreDigits(n);
    var s := (if x.negative && n != 0 then "-" else "") + DecimalDigits(n);
    if x.negative && n != 0 {
      assert s[SignLength(s)..] == DecimalDigits(n);
    } else {
      assert IsDigit(DecimalDigits(n)[0]);
      assert s[SignLength(s)..] == DecimalDigits(n);
    }
  }
}
