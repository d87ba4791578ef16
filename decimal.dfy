/** Decimal digit strings and the double-and-add pass with which both
    big-number headers convert binary to decimal. */
module Decimal {
  import opened Arith
  import opened Words

  predicate IsDigit(c: char)
  {
    '0' <= c <= '9'
  }

  function DigitVal(c: char): (d: nat)
    requires IsDigit(c)
    ensures d < 10
  {
    c as int - '0' as int
  }

  function DigitChar(d: nat): (c: char)
    requires d < 10
    ensures IsDigit(c) && DigitVal(c) == d
  {
    ('0' as int + d) as char
  }

  predicate AllDigits(s: seq<char>)
  {
    forall i :: 0 <= i < |s| ==> IsDigit(s[i])
  }

  /** The number a digit string denotes, most significant digit first. */
  function DVal(s: seq<char>): (v: nat)
    requires AllDigits(s)
    ensures v < Pow10(|s|)
  {
    if |s| == 0 then
      0
    else
      assert AllDigits(s[1..]) by {
        assert forall i :: 0 <= i < |s| - 1 ==> s[1..][i] == s[i + 1];
      }
      var rest := DVal(s[1..]);
      JoinFields(DigitVal(s[0]), rest, 10, Pow10(|s| - 1));
      DigitVal(s[0]) * Pow10(|s| - 1) + rest
  }

  /** The shortest decimal representation of v: no leading zeros, and "0" for zero. */
  function DecimalString(v: nat): (s: string)
    ensures |s| >= 1 && AllDigits(s)
    ensures DVal(s) == v
    ensures |s| == 1 || s[0] != '0'
  {
    if v < 10 then
      [DigitChar(v)]
    else
      var front := DecimalString(v / 10);
      DValSnoc(front, DigitChar(v % 10));
      front + [DigitChar(v % 10)]
  }

  /** Appending a digit multiplies by ten and adds it. */
  lemma {:induction false} DValSnoc(s: seq<char>, c: char)
    requires AllDigits(s) && IsDigit(c)
    ensures AllDigits(s + [c])
    ensures DVal(s + [c]) == DVal(s) * 10 + DigitVal(c)
  {
    assert AllDigits(s + [c]) by {
      assert forall i :: 0 <= i < |s| ==> (s + [c])[i] == s[i];
    }
    if |s| > 0 {
      assert (s + [c])[1..] == s[1..] + [c];
      assert AllDigits(s[1..]) by {
        assert forall i :: 0 <= i < |s| - 1 ==> s[1..][i] == s[i + 1];
      }
      DValSnoc(s[1..], c);
      assert Pow10(|s|) == 10 * Pow10(|s| - 1);
      var sc := s + [c];
      assert sc[0] == s[0];
      SnocAlgebra(DigitVal(s[0]), Pow10(|s| - 1), Pow10(|s|), DVal(s[1..]), DigitVal(c),
                  DVal(s[1..] + [c]), DVal(s), DVal(sc));
    }
  }

  lemma {:induction false} SnocAlgebra(d: int, p: int, p10: int, rest: int, e: int, restNew: int, v: int, vNew: int)
    requires p10 == 10 * p && restNew == rest * 10 + e
    requires v == d * p + rest && vNew == d * p10 + restNew
    ensures vNew == v * 10 + e
  {
  }

  /** A leading '0' does not change the value. */
  lemma {:induction false} DValDropZero(s: seq<char>)
    requires AllDigits(s) && |s| >= 1 && s[0] == '0'
    ensures AllDigits(s[1..]) && DVal(s) == DVal(s[1..])
  {
    assert forall i :: 0 <= i < |s| - 1 ==> s[1..][i] == s[i + 1];
  }

  /** A digit string with no leading zero (or the single digit "0") is the
      shortest representation of its value. */
  lemma {:induction false} CanonicalIsDecimalString(s: seq<char>)
    requires AllDigits(s) && |s| >= 1
    requires |s| == 1 || s[0] != '0'
    ensures s == DecimalString(DVal(s))
    decreases |s|
  {
    if |s| == 1 {
      assert Pow10(0) == 1;
      assert DVal(s) == DigitVal(s[0]);
    } else {
      var front, last := s[..|s| - 1], s[|s| - 1];
      assert s == front + [last];
      assert AllDigits(front) by {
        assert forall i :: 0 <= i < |front| ==> front[i] == s[i];
      }
      DValSnoc(front, last);
      assert front[0] == s[0];
      CanonicalIsDecimalString(front);
      var v := DVal(s);
      DivModUnique(v, 10, DVal(front), DigitVal(last));
      DValAtLeast(front);
      assert v >= 10;
      assert DigitChar(v % 10) == last;
    }
  }

  /** A digit string of length n >= 2 without a leading zero is at least 10^(n-1). */
  lemma {:induction false} DValAtLeast(s: seq<char>)
    requires AllDigits(s) && |s| >= 1 && (|s| == 1 || s[0] != '0')
    ensures |s| >= 2 ==> DVal(s) >= Pow10(|s| - 1)
  {
    if |s| >= 2 {
      MulAtLeast(DigitVal(s[0]), Pow10(|s| - 1));
    }
  }

  /** Skipping leading zeros, but never the last digit, yields the
      shortest representation of the value. */
  lemma {:induction false} StripLeadingZeros(s: seq<char>, i: nat)
    requires AllDigits(s) && i < |s|
    requires forall k :: 0 <= k < i ==> s[k] == '0'
    requires i == |s| - 1 || s[i] != '0'
    ensures AllDigits(s[i..])
    ensures s[i..] == DecimalString(DVal(s))
    decreases i
  {
    assert AllDigits(s[i..]) by {
      assert forall k :: 0 <= k < |s| - i ==> s[i..][k] == s[i + k];
    }
    if i == 0 {
      assert s[0..] == s;
      CanonicalIsDecimalString(s);
    } else {
      DValDropZero(s);
      var t := s[1..];
      assert forall k :: 0 <= k < i - 1 ==> t[k] == s[k + 1];
      StripLeadingZeros(t, i - 1);
      assert t[i - 1..] == s[i..];
    }
  }

  /** Enough decimal digits for any number below 2^bits: 2^bits < 10^(bits/3 + 1). */
  lemma {:induction false} DigitsSuffice(bits: nat, digits: nat)
    requires digits == bits / 3 + 1
    ensures Pow2(bits) < Pow10(digits)
  {
    Pow2Le(bits, 3 * (bits / 3 + 1));
    Pow2BelowPow10(bits / 3 + 1);
  }

  /** The leading digit and the rest of a window str[j..m]. */
  lemma {:induction false} DValWindow(s: seq<char>, j: nat, m: nat)
    requires j < m <= |s| && AllDigits(s[j..m])
    ensures IsDigit(s[j]) && AllDigits(s[j + 1..m])
    ensures DVal(s[j..m]) == DigitVal(s[j]) * Pow10(m - j - 1) + DVal(s[j + 1..m])
  {
    assert s[j..m][0] == s[j];
    assert s[j..m][1..] == s[j + 1..m];
  }

  /** One pass of bn2string's inner loop: from the last digit slot str[m-1]
      to the first, every digit is doubled and the carry added, starting
      with `bit`.  The digits then hold twice their old value plus bit, less
      the carry out of the first digit, and nothing outside str[..m] moves. */
  method DoubleDigits(str: array<char>, m: nat, bit: Bit) returns (carry: Bit)
    requires m <= str.Length && AllDigits(str[..m])
    modifies str
    ensures AllDigits(str[..m]) && str[m..] == old(str[m..])
    ensures DVal(str[..m]) + carry * Pow10(m) == 2 * DVal(old(str[..m])) + bit
  {
    ghost var o := str[..];
    carry := bit;
    var j: int := m - 1;
    while j >= 0
      invariant -1 <= j < m
      invariant str[..j + 1] == o[..j + 1] && str[m..] == o[m..]
      invariant AllDigits(str[j + 1..m])
      invariant DVal(str[j + 1..m]) + carry * Pow10(m - j - 1) == 2 * DVal(o[j + 1..m]) + bit
      decreases j
    {
      assert str[j] == o[..j + 1][j] && o[..m][j] == o[j];
      var t := str[j] as int + (str[j] as int - '0' as int) + carry;
      ghost var cin := carry;
      carry := if t > '9' as int then 1 else 0;
      if carry == 1 {
        t := t - 10;
      }
      ghost var before := str[..];
      str[j] := t as char;
      DoubleDigitStep(o, before, j, m, cin, bit, t as char, carry);
      assert str[..] == before[j := t as char];
      j := j - 1;
    }
    assert str[..m] == str[0..m] && o[..m] == o[0..m];
  }

  /** The inductive step of DoubleDigits: writing the doubled digit at slot j
      extends the invariant from str[j+1..m] to str[j..m]. */
  lemma {:induction false} DoubleDigitStep(o: seq<char>, s: seq<char>, j: nat, m: nat, cin: Bit, bit: Bit, c: char, cout: Bit)
    requires j < m <= |s| == |o|
    requires AllDigits(o[..m]) && s[..j + 1] == o[..j + 1]
    requires AllDigits(s[j + 1..m])
    requires DVal(s[j + 1..m]) + cin * Pow10(m - j - 1) == 2 * DVal(o[j + 1..m]) + bit
    requires IsDigit(o[j]) && IsDigit(c) && DigitVal(c) + 10 * cout == 2 * DigitVal(o[j]) + cin
    ensures AllDigits(s[j := c][j + 1..m]) && s[j := c][j + 1..m] == s[j + 1..m]
    ensures AllDigits(s[j := c][j..m])
    ensures DVal(s[j := c][j..m]) + cout * Pow10(m - j) == 2 * DVal(o[j..m]) + bit
  {
    var s' := s[j := c];
    assert s'[j + 1..m] == s[j + 1..m];
    assert AllDigits(s'[j..m]) by {
      assert forall k :: 0 <= k < m - j ==> s'[j..m][k] == s'[j + k];
    }
    assert AllDigits(o[j..m]) by {
      assert forall k :: 0 <= k < m - j ==> o[j..m][k] == o[..m][j + k];
    }
    DValWindow(s', j, m);
    DValWindow(o, j, m);
    DoubleAlgebra(DigitVal(o[j]), DigitVal(c), cin, cout, DVal(s[j + 1..m]), Pow10(m - j - 1), Pow10(m - j),
                  DVal(o[j + 1..m]), bit);
  }

  lemma {:induction false} DoubleAlgebra(d: int, e: int, cin: int, cout: int, rest: int, p: int, p10: int, oldRest: int, bit: int)
    requires e + 10 * cout == 2 * d + cin && p10 == 10 * p
    requires rest + cin * p == 2 * oldRest + bit
    ensures (e * p + rest) + cout * p10 == 2 * (d * p + oldRest) + bit
  {
    assert (e + 10 * cout) * p == (2 * d + cin) * p;
  }

  /** A string of '0' characters denotes zero. */
  lemma {:induction false} DValAllZeros(s: seq<char>)
    requires forall k :: 0 <= k < |s| ==> s[k] == '0'
    ensures AllDigits(s) && DVal(s) == 0
  {
    if |s| > 0 {
      DValAllZeros(s[1..]);
      DValDropZero(s);
    }
  }
}
