/**
 * Go's `strconv.Atoi` on a 64-bit platform, and the decimal formatting it
 * inverts. `Atoi` accepts an optional `+` or `-` sign followed by one or
 * more ASCII digits (leading zeros allowed, no underscores, no white space)
 * whose value fits in a signed 64-bit integer; anything else is an error.
 */
module Strconv {
  import opened Wrappers

  const MinInt64: int := -0x8000_0000_0000_0000
  const MaxInt64: int := 0x7FFF_FFFF_FFFF_FFFF

  predicate IsDigit(c: char) {
    '0' <= c <= '9'
  }

  /** One or more ASCII digits and nothing else. */
  predicate IsDecimal(s: string) {
    |s| > 0 && forall k :: 0 <= k < |s| ==> IsDigit(s[k])
  }

  function DigitValue(c: char): nat
    requires IsDigit(c)
  {
    c as int - '0' as int
  }

  /** The value of a run of digits, most significant first. */
  function DigitsValue(ds: string): nat
    requires forall k :: 0 <= k < |ds| ==> IsDigit(ds[k])
  {
    if |ds| == 0 then 0 else DigitsValue(ds[..|ds| - 1]) * 10 + DigitValue(ds[|ds| - 1])
  }

  predicate InInt64(v: int) {
    MinInt64 <= v <= MaxInt64
  }

  /** `strconv.Atoi`: the value when `s` is a well-formed decimal integer in range, nothing otherwise. */
  function Atoi(s: string): (r: Option<int>)
    ensures r.Some? ==> InInt64(r.value)
  {
    if |s| > 0 && (s[0] == '+' || s[0] == '-') then
      var ds := s[1..];
      if IsDecimal(ds) then
        var v: int := if s[0] == '-' then -(DigitsValue(ds) as int) else DigitsValue(ds);
        if InInt64(v) then Some(v) else None
      else None
    else if IsDecimal(s) then
      var v: int := DigitsValue(s);
      if InInt64(v) then Some(v) else None
    else None
  }

  function DigitChar(d: nat): (c: char)
    requires d < 10
    ensures IsDigit(c) && DigitValue(c) == d
  {
    ('0' as int + d) as char
  }

  /** The shortest decimal representation of `n`. */
  function FormatNat(n: nat): (s: string)
    ensures IsDecimal(s)
    decreases n
  {
    if n < 10 then [DigitChar(n)] else FormatNat(n / 10) + [DigitChar(n % 10)]
  }

  /** `strconv.Itoa`: a `-` for negative values, then the digits of the magnitude. */
  function Itoa(v: int): string {
    if v < 0 then "-" + FormatNat(-v) else FormatNat(v)
  }

  lemma {:induction false} FormatNatValue(n: nat)
    ensures DigitsValue(FormatNat(n)) == n
    decreases n
  {
    if n >= 10 {
      var s := FormatNat(n);
      assert s[..|s| - 1] == FormatNat(n / 10);
      FormatNatValue(n / 10);
    }
  }

  /** Every integer a 64-bit `int` can hold is read back from its decimal form. */
  lemma AtoiItoa(v: int)
    requires InInt64(v)
    ensures Atoi(Itoa(v)) == Some(v)
  {
    var s := Itoa(v);
    if v < 0 {
      FormatNatValue(-v);
      assert s[1..] == FormatNat(-v);
    } else {
      FormatNatValue(v);
    }
  }

  /** Outside the 64-bit range the formatted value is refused: the parse reports a range error. */
  lemma AtoiOutOfRange(v: int)
    requires !InInt64(v)
    ensures Atoi(Itoa(v)) == None
  {
    var s := Itoa(v);
    if v < 0 {
      FormatNatValue(-v);
      assert s[1..] == FormatNat(-v);
    } else {
      FormatNatValue(v);
    }
  }

  /**
   * A character that is neither a digit nor a sign in the first position
   * makes the parse fail; so do the empty string and a lone sign.
   */
  lemma AtoiRejectsNonDigit(s: string, i: nat)
    requires i < |s| && !IsDigit(s[i])
    requires i > 0 || (s[0] != '+' && s[0] != '-')
    ensures Atoi(s) == None
  {
    if |s| > 0 && (s[0] == '+' || s[0] == '-') {
      assert s[1..][i - 1] == s[i];
    }
  }

  lemma AtoiRejectsEmpty(s: string)
    requires s == [] || s == "+" || s == "-"
    ensures Atoi(s) == None
  {
  }

  /** A successful parse never comes from a string other than sign-and-digits. */
  lemma AtoiShape(s: string)
    requires Atoi(s).Some?
    ensures IsDecimal(s) || (|s| > 1 && (s[0] == '+' || s[0] == '-') && IsDecimal(s[1..]))
  {
  }

  /** Leading zeros do not change the value read. */
  lemma {:induction false} LeadingZero(ds: string)
    requires forall k :: 0 <= k < |ds| ==> IsDigit(ds[k])
    ensures DigitsValue("0" + ds) == DigitsValue(ds)
  {
    if |ds| > 0 {
      var s := "0" + ds;
      assert s[..|s| - 1] == "0" + ds[..|ds| - 1];
      LeadingZero(ds[..|ds| - 1]);
    }
  }

  lemma AtoiLeadingZero(s: string)
    requires IsDecimal(s)
    ensures Atoi("0" + s) == Atoi(s)
  {
    LeadingZero(s);
    assert IsDecimal("0" + s);
  }

  /** A leading `+` is accepted and changes nothing. */
  lemma AtoiPlus(ds: string)
    requires IsDecimal(ds)
    ensures Atoi("+" + ds) == Atoi(ds)
  {
    assert ("+" + ds)[1..] == ds;
  }

  /** Leading zeros after a `-` do not change the value either. */
  lemma AtoiNegativeLeadingZero(ds: string)
    requires IsDecimal(ds)
    ensures Atoi("-0" + ds) == Atoi("-" + ds)
  {
    LeadingZero(ds);
    assert ("-0" + ds)[1..] == "0" + ds;
    assert ("-" + ds)[1..] == ds;
    assert IsDecimal("0" + ds);
  }
}
