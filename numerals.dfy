/**
 * Decimal text of integers: `str(n)` as the progress tracker writes it, and
 * the plain decimal reading of a configuration value by `int(...)`.
 */
module Numerals {
  import opened Wrappers

  predicate IsDigit(c: char) { '0' <= c <= '9' }

  /** A non-empty run of ASCII digits. */
  predicate IsDigits(s: string) {
    s != [] && forall k :: 0 <= k < |s| ==> IsDigit(s[k])
  }

  function DigitChar(d: nat): (c: char)
    requires d < 10
    ensures IsDigit(c) && c as int - '0' as int == d
  {
    ('0' as int + d) as char
  }

  /** The digits of a natural number, most significant first, without
      leading zeros. */
  function Digits(n: nat): (s: string)
    ensures IsDigits(s)
  {
    if n < 10 then [DigitChar(n)] else Digits(n / 10) + [DigitChar(n % 10)]
  }

  /** The digits are canonical: no leading zero, and a lone "0" only for 0. */
  lemma {:induction false} DigitsCanonical(n: nat)
    ensures |Digits(n)| > 1 ==> Digits(n)[0] != '0'
    ensures n == 0 <==> Digits(n) == "0"
  {
    if n >= 10 {
      DigitsCanonical(n / 10);
      assert Digits(n)[0] == Digits(n / 10)[0];
      assert |Digits(n)| > 1;
    }
  }

  /** The value of a run of digits, read most significant first. */
  function ValueOf(s: string): nat
    requires forall k :: 0 <= k < |s| ==> IsDigit(s[k])
  {
    if s == [] then 0
    else
      assert IsDigit(s[|s| - 1]);
      10 * ValueOf(s[..|s| - 1]) + (s[|s| - 1] as int - '0' as int)
  }

  /** `str(n)` for an integer `n`: a minus sign for negative numbers, then
      the digits of its magnitude. */
  function Decimal(n: int): (s: string)
    ensures s != [] && (s[0] == '-' <==> n < 0)
  {
    if n < 0 then "-" + Digits(-n) else Digits(n)
  }

  /** Reads an optional minus sign followed by at least one digit; any other
      text is refused. */
  function ParseDecimal(s: string): (r: Option<int>)
    ensures r.Some? <==> IsDigits(s) || (|s| >= 2 && s[0] == '-' && IsDigits(s[1..]))
    ensures r.Some? && s[0] == '-' ==> r.value <= 0
    ensures r.Some? && s[0] != '-' ==> r.value >= 0
  {
    if IsDigits(s) then Some(ValueOf(s))
    else if |s| >= 2 && s[0] == '-' && IsDigits(s[1..]) then Some(-(ValueOf(s[1..]) as int))
    else None
  }

  /** Reading back the digits of `n` yields `n`. */
  lemma {:induction false} DigitsRoundTrip(n: nat)
    ensures ValueOf(Digits(n)) == n
  {
    if n >= 10 {
      DigitsRoundTrip(n / 10);
      var s := Digits(n);
      assert s[..|s| - 1] == Digits(n / 10);
    }
  }

  /** The status file round trip: parsing `str(n)` as a decimal gives `n`. */
  lemma {:induction false} DecimalRoundTrip(n: int)
    ensures ParseDecimal(Decimal(n)) == Some(n)
  {
    if n < 0 {
      var d := Digits(-n);
      DigitsRoundTrip(-n);
      assert Decimal(n) == "-" + d;
      assert !IsDigit(Decimal(n)[0]);
      assert Decimal(n)[1..] == d;
    } else {
      DigitsRoundTrip(n);
    }
  }

  /** A run of `k` zero digits. */
  function Zeros(k: nat): (z: string)
    ensures |z| == k && forall i :: 0 <= i < k ==> z[i] == '0'
  {
    seq(k, _ => '0')
  }

  /** Zero digits alone are worth nothing. */
  lemma {:induction false} ValueOfZeros(k: nat)
    ensures ValueOf(Zeros(k)) == 0
  {
    if k > 0 {
      assert Zeros(k)[..k - 1] == Zeros(k - 1);
      ValueOfZeros(k - 1);
    }
  }

  /** Leading zero digits do not change the value of a run of digits. */
  lemma {:induction false} ValueOfLeadingZeros(k: nat, s: string)
    requires forall i :: 0 <= i < |s| ==> IsDigit(s[i])
    ensures ValueOf(Zeros(k) + s) == ValueOf(s)
    decreases |s|
  {
    var t := Zeros(k) + s;
    if s == [] {
      assert t == Zeros(k);
      ValueOfZeros(k);
    } else {
      assert t[..|t| - 1] == Zeros(k) + s[..|s| - 1];
      assert t[|t| - 1] == s[|s| - 1];
      ValueOfLeadingZeros(k, s[..|s| - 1]);
    }
  }

  /** `int()` ignores leading zeros, with or without a minus sign: "007"
      reads as 7 and "-0" as 0. */
  lemma {:induction false} ParseLeadingZeros(k: nat, n: nat)
    ensures ParseDecimal(Zeros(k) + Digits(n)) == Some(n)
    ensures ParseDecimal("-" + Zeros(k) + Digits(n)) == Some(-(n as int))
  {
    var t := Zeros(k) + Digits(n);
    assert IsDigits(t) by {
      assert forall i :: 0 <= i < |t| ==> t[i] == if i < k then '0' else Digits(n)[i - k];
    }
    ValueOfLeadingZeros(k, Digits(n));
    DigitsRoundTrip(n);
    var u := "-" + Zeros(k) + Digits(n);
    assert u == "-" + t && u[1..] == t && !IsDigit(u[0]);
  }

  /** Distinct numbers have distinct decimal texts, so the status file
      determines the page it records. */
  lemma {:induction false} DecimalInjective(m: int, n: int)
    requires Decimal(m) == Decimal(n)
    ensures m == n
  {
    DecimalRoundTrip(m);
    DecimalRoundTrip(n);
  }
}
