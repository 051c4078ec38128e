/** Decimal text for integers: the zero-padded numbers in the minor-surname
    names (format spec `06`) and the parse of a year out of a file name
    (Python's int() on a string). */
module Decimal {
  import opened Wrappers

  predicate IsDigit(c: char) {
    '0' <= c <= '9'
  }

  predicate AllDigits(s: string) {
    forall i :: 0 <= i < |s| ==> IsDigit(s[i])
  }

  function DigitChar(d: nat): (c: char)
    requires d < 10
    ensures IsDigit(c) && DigitValue(c) == d
  {
    (d + '0' as int) as char
  }

  function DigitValue(c: char): (d: nat)
    requires IsDigit(c)
    ensures d < 10
  {
    c as int - '0' as int
  }

  /** The shortest decimal text of n (str(n) for a non-negative int). */
  function Digits(n: nat): (s: string)
    ensures 1 <= |s| && AllDigits(s)
    ensures s[0] == '0' ==> n == 0
  {
    if n < 10 then [DigitChar(n)] else Digits(n / 10) + [DigitChar(n % 10)]
  }

  /** The value of a string of decimal digits, most significant first. */
  function ValueOf(s: string): nat
    requires AllDigits(s)
  {
    if s == [] then 0 else ValueOf(s[..|s| - 1]) * 10 + DigitValue(s[|s| - 1])
  }

  function Zeros(k: nat): (s: string)
    ensures |s| == k && forall i :: 0 <= i < k ==> s[i] == '0'
  {
    seq(k, _ => '0')
  }

  /** f'{n:0w}' for a non-negative n: the decimal text of n, left-padded with
      zeros to at least w characters, never truncated. */
  function PadDigits(n: nat, width: nat): string {
    var s := Digits(n);
    if |s| < width then Zeros(width - |s|) + s else s
  }

  /** A string of decimal digits as a natural number; None for anything else. */
  function ParseNat(s: string): (r: Option<nat>)
    ensures r.Some? <==> s != [] && AllDigits(s)
  {
    if s != [] && AllDigits(s) then Some(ValueOf(s)) else None
  }

  /** Python's int() on a string: an optional sign, then one or more decimal
      digits, leading zeros allowed. */
  function ParseInt(s: string): (r: Option<int>)
    ensures r.Some? <==> (ParseNat(s).Some? || (|s| > 1 && (s[0] == '-' || s[0] == '+') && ParseNat(s[1..]).Some?))
    ensures |s| > 0 && s[0] == '-' && r.Some? ==> r.value <= 0
    ensures |s| > 0 && s[0] != '-' && r.Some? ==> r.value >= 0
  {
    if |s| > 0 && s[0] == '-' then
      match ParseNat(s[1..])
      case Some(v) => Some(-(v as int))
      case None => None
    else if |s| > 0 && s[0] == '+' then
      match ParseNat(s[1..])
      case Some(v) => Some(v)
      case None => None
    else
      match ParseNat(s)
      case Some(v) => Some(v)
      case None => None
  }

  /** Reading back the decimal text of n gives n. */
  lemma {:induction false} ValueOfDigits(n: nat)
    ensures ValueOf(Digits(n)) == n
  {
    if n >= 10 {
      var s := Digits(n);
      assert s[..|s| - 1] == Digits(n / 10);
      ValueOfDigits(n / 10);
    }
  }

  /** Leading zeros do not change the value of a digit string. */
  lemma {:induction false} ValueOfLeadingZeros(k: nat, s: string)
    requires AllDigits(s)
    ensures AllDigits(Zeros(k) + s) && ValueOf(Zeros(k) + s) == ValueOf(s)
  {
    var t := Zeros(k) + s;
    if s == [] {
      assert t == Zeros(k);
      AllZerosValue(k);
    } else {
      var init := s[..|s| - 1];
      assert t[..|t| - 1] == Zeros(k) + init;
      ValueOfLeadingZeros(k, init);
    }
  }

  lemma {:induction false} AllZerosValue(k: nat)
    ensures ValueOf(Zeros(k)) == 0
  {
    if k > 0 {
      assert Zeros(k)[..k - 1] == Zeros(k - 1);
      AllZerosValue(k - 1);
    }
  }

  /** Round trip of the minor-surname numbering: the zero-padded text is
      all digits, exactly max(width, |str(n)|) long, and parses back to n. */
  lemma PadDigitsRoundTrip(n: nat, width: nat)
    ensures |PadDigits(n, width)| == if |Digits(n)| < width then width else |Digits(n)|
    ensures ParseNat(PadDigits(n, width)) == Some(n)
  {
    ValueOfDigits(n);
    if |Digits(n)| < width {
      ValueOfLeadingZeros(width - |Digits(n)|, Digits(n));
    }
  }

  /** int(str(n)) == n and int('-' + str(n)) == -n. */
  lemma ParseIntDigits(n: nat)
    ensures ParseInt(Digits(n)) == Some(n)
    ensures ParseInt("-" + Digits(n)) == Some(-(n as int))
  {
    ValueOfDigits(n);
    assert ("-" + Digits(n))[1..] == Digits(n);
  }
}
