/** 32-bit signed integers as C# sees them: the `int.TryParse` reading of a
    decimal string, its decimal rendering, and unchecked wrap-around. */
module Int32Text {
  import opened Wrappers
  import opened Text

  const MinInt32: int := -0x8000_0000
  const MaxInt32: int := 0x7FFF_FFFF
  const Modulus: int := 0x1_0000_0000

  predicate InRange(n: int) {
    MinInt32 <= n <= MaxInt32
  }

  /** Unchecked C# arithmetic: the Int32 that is congruent to `n` modulo 2^32. */
  function Wrap(n: int): (r: int)
    ensures InRange(r)
    ensures (n - r) % Modulus == 0
    ensures InRange(n) ==> r == n
  {
    (n - MinInt32) % Modulus + MinInt32
  }

  function DigitValue(c: char): (d: nat)
    requires IsDigit(c)
    ensures d < 10
  {
    c as int - '0' as int
  }

  function DigitChar(d: nat): (c: char)
    requires d < 10
    ensures IsDigit(c) && DigitValue(c) == d
  {
    ('0' as int + d) as char
  }

  /** The number a string of decimal digits denotes. */
  function DigitsValue(s: string): nat
    requires AllDigits(s)
  {
    if |s| == 0 then 0
    else DigitsValue(s[..|s| - 1]) * 10 + DigitValue(s[|s| - 1])
  }

  /** Shortest decimal rendering of a natural number. */
  function NatToDigits(n: nat): (s: string)
    ensures |s| >= 1 && AllDigits(s)
  {
    if n < 10 then [DigitChar(n)] else NatToDigits(n / 10) + [DigitChar(n % 10)]
  }

  /** Decimal rendering of an integer, with a leading `-` when negative. */
  function ToString(n: int): string {
    if n < 0 then "-" + NatToDigits(-n) else NatToDigits(n)
  }

  /** `int.TryParse`: an optional sign followed by one or more decimal digits
      whose value fits in 32 bits; anything else is rejected. */
  function TryParse(s: string): (r: Option<int>)
    ensures r.Some? ==> InRange(r.value)
    ensures r.Some? ==> |s| >= 1 && IsDigit(s[|s| - 1])
    ensures r.Some? && IsDigit(s[0]) ==> AllDigits(s) && r.value == DigitsValue(s)
    ensures r.Some? && !IsDigit(s[0]) ==> (s[0] == '-' || s[0] == '+') && AllDigits(s[1..])
    ensures |s| >= 1 && (s[0] == '-' || s[0] == '+') && AllDigits(s[1..]) && |s| >= 2 ==>
              var v: int := if s[0] == '-' then 0 - DigitsValue(s[1..]) as int else DigitsValue(s[1..]);
              r == if InRange(v) then Some(v) else None
    ensures |s| >= 1 && AllDigits(s) ==>
              r == if InRange(DigitsValue(s)) then Some(DigitsValue(s)) else None
  {
    var signed := |s| > 0 && (s[0] == '-' || s[0] == '+');
    var body := if signed then s[1..] else s;
    if |body| == 0 || !AllDigits(body) then None
    else
      var v: int := if signed && s[0] == '-' then 0 - DigitsValue(body) as int else DigitsValue(body);
      if InRange(v) then Some(v) else None
  }

  lemma {:induction false} DigitsValueOfNatToDigits(n: nat)
    ensures DigitsValue(NatToDigits(n)) == n
  {
    if n >= 10 {
      var s := NatToDigits(n);
      DigitsValueOfNatToDigits(n / 10);
      assert s[..|s| - 1] == NatToDigits(n / 10);
    }
  }

  /** Parsing the decimal rendering of an Int32 gives the number back. */
  lemma TryParseToString(n: int)
    requires InRange(n)
    ensures TryParse(ToString(n)) == Some(n)
  {
    if n < 0 {
      var d := NatToDigits(-n);
      DigitsValueOfNatToDigits(-n);
      assert 0 - DigitsValue(d) as int == n;
      NegativeReadsBack(d);
    } else {
      DigitsValueOfNatToDigits(n);
      DigitsReadBack(NatToDigits(n));
    }
  }

  /** Digits alone whose value is an Int32. */
  lemma DigitsReadBack(d: string)
    requires |d| >= 1 && AllDigits(d) && InRange(DigitsValue(d))
    ensures TryParse(d) == Some(DigitsValue(d))
  {}

  /** A minus sign before digits whose value, negated, is an Int32. */
  lemma NegativeReadsBack(d: string)
    requires |d| >= 1 && AllDigits(d) && InRange(0 - DigitsValue(d) as int)
    ensures TryParse("-" + d) == Some(0 - DigitsValue(d) as int)
  {
    var s := "-" + d;
    assert s[0] == '-' && s[1..] == d;
  }
}
