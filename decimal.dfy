/**
 * Decimal rendering and parsing of integers as the Go library does it:
 * fmt's "%d" verb and strconv.ParseInt(s, 10, 64).
 */
module Decimal {
  import opened Results

  const Int64Min: int := -0x8000_0000_0000_0000
  const Int64Max: int := 0x7FFF_FFFF_FFFF_FFFF

  predicate IsDigit(c: char) {
    '0' <= c <= '9'
  }

  predicate AllDigits(s: string) {
    forall i :: 0 <= i < |s| ==> IsDigit(s[i])
  }

  function DigitChar(d: nat): (c: char)
    requires d < 10
    ensures IsDigit(c) && c as int - '0' as int == d
  {
    ('0' as int + d) as char
  }

  /** The base-10 digits of n, most significant first, with no leading zero. */
  function Digits(n: nat): (s: string)
    ensures AllDigits(s)
    ensures (|s| == 1) == (n < 10) && |s| >= 1
    ensures |s| > 1 ==> s[0] != '0'
  {
    if n < 10 then [DigitChar(n)] else Digits(n / 10) + [DigitChar(n % 10)]
  }

  /** fmt.Sprintf("%d", n). */
  function FormatInt(n: int): (s: string)
    ensures |s| >= 1
    ensures s[0] == '-' <==> n < 0
  {
    if n < 0 then "-" + Digits(-n) else Digits(n)
  }

  /** The number a string of decimal digits denotes (leading zeros allowed). */
  function DigitsValue(s: string): nat
    requires AllDigits(s)
  {
    if s == [] then 0 else 10 * DigitsValue(s[..|s| - 1]) + (s[|s| - 1] as int - '0' as int)
  }

  /**
   * strconv.ParseInt(s, 10, 64): an optional '+' or '-', then one or more
   * decimal digits, and a value that fits in 64 bits; None is the error.
   */
  function ParseInt64(s: string): (r: Option<int>)
    ensures r.Some? ==> Int64Min <= r.value <= Int64Max
    ensures r.Some? ==> |s| > 0 && (IsDigit(s[0]) || s[0] == '+' || s[0] == '-')
  {
    if s == [] then None
    else
      var body := if s[0] == '+' || s[0] == '-' then s[1..] else s;
      if body == [] || !AllDigits(body) then None
      else
        var v: int := if s[0] == '-' then 0 - DigitsValue(body) else DigitsValue(body);
        if Int64Min <= v <= Int64Max then Some(v) else None
  }

  lemma {:induction false} DigitsValueOfDigits(n: nat)
    ensures DigitsValue(Digits(n)) == n
  {
    if n >= 10 {
      var d := Digits(n);
      assert d[..|d| - 1] == Digits(n / 10);
      DigitsValueOfDigits(n / 10);
    }
  }

  /** Parsing what "%d" printed gives the number back, for every 64-bit value. */
  lemma FormatParseRoundTrip(n: int)
    requires Int64Min <= n <= Int64Max
    ensures ParseInt64(FormatInt(n)) == Some(n)
  {
    var s := FormatInt(n);
    if n < 0 {
      var d := Digits(-n);
      assert s == "-" + d;
      assert s[0] == '-' && s[1..] == d;
      DigitsValueOfDigits(-n);
    } else {
      assert s == Digits(n);
      assert IsDigit(s[0]);
      DigitsValueOfDigits(n);
    }
  }

  /** The leading digit of a three-digit status code is its hundreds digit. */
  lemma ThreeDigitLeading(code: int)
    requires 100 <= code <= 999
    ensures FormatInt(code)[0] == '2' <==> 200 <= code <= 299
  {
    assert Digits(code) == Digits(code / 10) + [DigitChar(code % 10)];
    assert Digits(code / 10) == Digits(code / 100) + [DigitChar(code / 10 % 10)];
    assert Digits(code / 100) == [DigitChar(code / 100)];
  }
}
