/** The `ls` use case's size parameter: a unit name followed by a product
    of integer factors, such as `MB2*512`. */
module SizeParameter {
  import opened Wrappers
  import Text
  import Int32Text
  import Parameters

  datatype SizeUnit = KB | MB | GB | TB | PB | EB | ZB | YB

  /** The enumeration's member names, as `Enum.Parse` matches them. */
  function UnitName(u: SizeUnit): (r: string)
    ensures |r| == 2 && r[1] == 'B' && !Text.IsDigit(r[0]) && r[0] != '*'
  {
    match u
    case KB => "kB"
    case MB => "MB"
    case GB => "GB"
    case TB => "TB"
    case PB => "PB"
    case EB => "EB"
    case ZB => "ZB"
    case YB => "YB"
  }

  /** The members in declaration order. */
  const Units: seq<SizeUnit> := [KB, MB, GB, TB, PB, EB, ZB, YB]

  lemma AllUnitsListed()
    ensures forall u :: u in Units
  {
    forall u: SizeUnit ensures u in Units {
      match u
      case KB => assert Units[0] == u;
      case MB => assert Units[1] == u;
      case GB => assert Units[2] == u;
      case TB => assert Units[3] == u;
      case PB => assert Units[4] == u;
      case EB => assert Units[5] == u;
      case ZB => assert Units[6] == u;
      case YB => assert Units[7] == u;
    }
  }

  /** The case-folded first letter of a unit's name, which tells the
      units apart. */
  function Key(u: SizeUnit): char {
    match u
    case KB => 'k'
    case MB => 'm'
    case GB => 'g'
    case TB => 't'
    case PB => 'p'
    case EB => 'e'
    case ZB => 'z'
    case YB => 'y'
  }

  lemma KeyOfName(u: SizeUnit)
    ensures Text.FoldChar(UnitName(u)[0]) == Key(u)
  {}

  datatype Size = Size(value: int, unit: SizeUnit)

  const ConversionFailure := Parameters.OtherException("UseCaseLs.SizeConversionException")

  /** `IndexOfAny` with the ten decimal digits. */
  function FirstDigit(s: string): (r: int)
    ensures -1 <= r < |s|
    ensures r == -1 <==> forall i :: 0 <= i < |s| ==> !Text.IsDigit(s[i])
    ensures r >= 0 ==> Text.IsDigit(s[r]) && forall i :: 0 <= i < r ==> !Text.IsDigit(s[i])
  {
    if |s| == 0 then -1
    else if Text.IsDigit(s[0]) then 0
    else
      var k := FirstDigit(s[1..]);
      assert forall i :: 1 <= i < |s| ==> s[i] == s[1..][i - 1];
      if k < 0 then -1 else k + 1
  }

  /** The first member of `us` whose name equals `s` ignoring case. */
  function FindUnit(us: seq<SizeUnit>, s: string): (r: Option<SizeUnit>)
    ensures r.Some? <==> exists u :: u in us && Text.EqualsIgnoreCase(UnitName(u), s)
    ensures r.Some? ==> r.value in us && Text.EqualsIgnoreCase(UnitName(r.value), s)
  {
    if |us| == 0 then None
    else if Text.EqualsIgnoreCase(UnitName(us[0]), s) then Some(us[0])
    else
      var r := FindUnit(us[1..], s);
      assert forall u :: u in us ==> u == us[0] || u in us[1..];
      r
  }

  /** `Enum.Parse(typeof(SizeUnit), s, true)` for a text without digits:
      the member whose name equals `s` ignoring case. */
  function ParseUnit(s: string): (r: Option<SizeUnit>)
    ensures r.Some? <==> exists u :: Text.EqualsIgnoreCase(UnitName(u), s)
    ensures r.Some? ==> Text.EqualsIgnoreCase(UnitName(r.value), s)
  {
    AllUnitsListed();
    FindUnit(Units, s)
  }

  /** The factor loop: the running product starts at 1 and is multiplied
      by each factor with unchecked 32-bit wrap-around; a factor that is
      not an Int32 stops the loop. */
  function Product(factors: seq<string>): (r: Option<int>)
    ensures r.Some? <==> forall i :: 0 <= i < |factors| ==> Int32Text.TryParse(factors[i]).Some?
    ensures r.Some? ==> Int32Text.InRange(r.value)
    decreases |factors|
  {
    if |factors| == 0 then Some(1)
    else
      var init := factors[..|factors| - 1];
      var f := Int32Text.TryParse(factors[|factors| - 1]);
      var p := Product(init);
      assert forall i :: 0 <= i < |init| ==> init[i] == factors[i];
      if p.None? || f.None? then None
      else Some(Int32Text.Wrap(p.value * f.value))
  }

  /** SizeParameter.convert: the unit is the text before the first digit
      (a one-letter unit gets `B` appended), the value the product of the
      `*`-separated factors after it. */
  function Convert(s: string): (r: Result<Size, Parameters.ConversionError>)
    ensures r.Failure? ==> r.error == ConversionFailure
    ensures FirstDigit(s) < 0 ==> r.Failure?
  {
    var k := FirstDigit(s);
    if k < 0 then Failure(ConversionFailure) else ConvertParts(s[..k], s[k..])
  }

  /** The conversion once the text is cut into the unit and the factors. */
  function ConvertParts(unitString: string, valueString: string): (r: Result<Size, Parameters.ConversionError>)
    ensures r.Failure? ==> r.error == ConversionFailure
  {
    match ParseUnit(if |unitString| == 1 then unitString + "B" else unitString)
    case None => Failure(ConversionFailure)
    case Some(unit) =>
      match Product(Text.Split(valueString, '*'))
      case None => Failure(ConversionFailure)
      case Some(v) => Success(Size(v, unit))
  }

  /** The conversion with `Size` seen as a reference type: `None` plays
      the null, which a successful conversion never gives. */
  function ConvertReference(s: string): (r: Result<Option<Size>, Parameters.ConversionError>)
    ensures r.Success? <==> Convert(s).Success?
    ensures r.Success? ==> r.value == Some(Convert(s).value)
    ensures r.Failure? ==> r.error == ConversionFailure
  {
    match Convert(s)
    case Success(v) => Success(Some(v))
    case Failure(e) => Failure(e)
  }

  /** The three-argument constructor: the given default (possibly null)
      until a size is set. */
  function SizeParameter(isRequired: bool, usageName: string, defaultValue: Option<Size>)
    : (p: Parameters.Parameter<Option<Size>>)
    ensures p.Value() == defaultValue && p.stored.None? && p.constraints == []
    ensures p.isRequired == isRequired && p.usageName == usageName
  {
    Parameters.NewParameter(ConvertReference, isRequired, usageName, defaultValue)
  }

  /** The two-argument constructor: the default is `default(Size)`, which
      is null for the class `Size`. */
  function SizeParameterWithoutDefault(isRequired: bool, usageName: string)
    : (p: Parameters.Parameter<Option<Size>>)
    ensures p.Value().None? && p.stored.None? && p.constraints == []
    ensures p.isRequired == isRequired && p.usageName == usageName
  {
    SizeParameter(isRequired, usageName, None)
  }

  // ----- Facts about the conversion -----

  /** Setting a size parameter succeeds exactly when the text converts, and
      then holds the converted size, never null; a failure leaves the
      parameter, and its possibly null default, as it was. */
  lemma SizeParameterSetValue(p: Parameters.Parameter<Option<Size>>, s: string)
    requires p.convert == ConvertReference
    ensures var r := p.SetValue(s);
      && (r.1.None? <==> Convert(s).Success?)
      && (r.1.None? ==> r.0.Value() == Some(Convert(s).value))
      && (r.1.Some? ==> r.0 == p && r.1.value == ConversionFailure)
  {}

  /** Int32 values equal modulo 2^32 are equal. */
  lemma CongruentInRange(x: int, y: int)
    requires Int32Text.InRange(x) && Int32Text.InRange(y) && (x - y) % Int32Text.Modulus == 0
    ensures x == y
  {}

  /** Wrapping after each multiplication is wrapping the exact product. */
  lemma WrapMultiply(a: int, b: int)
    ensures Int32Text.Wrap(Int32Text.Wrap(a) * b) == Int32Text.Wrap(a * b)
  {
    var w := Int32Text.Wrap(a);
    var k := ExactQuotient(a - w);
    ScaledDifference(a, w, b, k);
    var x := Int32Text.Wrap(w * b);
    var y := Int32Text.Wrap(a * b);
    var kx := ExactQuotient(w * b - x);
    var ky := ExactQuotient(a * b - y);
    var c := ky - kx - k * b;
    assert x - y == c * Int32Text.Modulus;
    MultipleHasNoRemainder(c);
    CongruentInRange(x, y);
  }

  /** The quotient of a multiple of 2^32. */
  lemma ExactQuotient(d: int) returns (q: int)
    requires d % Int32Text.Modulus == 0
    ensures d == q * Int32Text.Modulus
  {
    q := d / Int32Text.Modulus;
  }

  lemma MultipleHasNoRemainder(c: int)
    ensures (c * Int32Text.Modulus) % Int32Text.Modulus == 0
  {}

  lemma ScaledDifference(a: int, w: int, b: int, k: int)
    requires a - w == k * Int32Text.Modulus
    ensures a * b - w * b == (k * b) * Int32Text.Modulus
  {
    calc {
      a * b - w * b;
      (a - w) * b;
      (k * Int32Text.Modulus) * b;
      (k * b) * Int32Text.Modulus;
    }
  }

  /** Every factor is an Int32 in decimal. */
  predicate AllFactorsParse(factors: seq<string>) {
    forall i :: 0 <= i < |factors| ==> Int32Text.TryParse(factors[i]).Some?
  }

  /** The factors' values. */
  function FactorValues(factors: seq<string>): (vs: seq<int>)
    requires AllFactorsParse(factors)
    ensures |vs| == |factors|
    ensures forall i :: 0 <= i < |factors| ==> Some(vs[i]) == Int32Text.TryParse(factors[i])
    decreases |factors|
  {
    if |factors| == 0 then []
    else
      var init := factors[..|factors| - 1];
      assert forall i :: 0 <= i < |init| ==> init[i] == factors[i];
      FactorValues(init) + [Int32Text.TryParse(factors[|factors| - 1]).value]
  }

  /** The exact product of the factors' values. */
  function ExactProduct(vs: seq<int>): int {
    if |vs| == 0 then 1 else ExactProduct(vs[..|vs| - 1]) * vs[|vs| - 1]
  }

  /** The loop's result is the exact product of the factors, wrapped once
      to 32 bits. */
  lemma {:induction false} ProductIsWrappedProduct(factors: seq<string>)
    requires AllFactorsParse(factors)
    ensures Product(factors) == Some(Int32Text.Wrap(ExactProduct(FactorValues(factors))))
    decreases |factors|
  {
    if |factors| > 0 {
      var init := factors[..|factors| - 1];
      assert AllFactorsParse(init) by {
        assert forall i :: 0 <= i < |init| ==> init[i] == factors[i];
      }
      ProductIsWrappedProduct(init);
      var vs := FactorValues(factors);
      assert vs == FactorValues(init) + [vs[|vs| - 1]];
      assert vs[..|vs| - 1] == FactorValues(init);
      WrapMultiply(ExactProduct(FactorValues(init)), vs[|vs| - 1]);
    }
  }

  /** A unit name followed by the decimal digits of a non-negative Int32
      converts to that size. */
  lemma ConvertReadsBack(u: SizeUnit, n: int)
    requires 0 <= n <= Int32Text.MaxInt32
    ensures Convert(UnitName(u) + Int32Text.ToString(n)) == Success(Size(n, u))
  {
    var digits := Int32Text.ToString(n);
    UnitAndDigits(UnitName(u), digits, u);
    Int32Text.TryParseToString(n);
    SingleFactor(digits);
  }

  /** The one-letter abbreviation of a unit (`k`, `M`, ...) followed by
      the digits of a non-negative Int32 converts to that size too. */
  lemma ConvertReadsBackAbbreviated(u: SizeUnit, n: int)
    requires 0 <= n <= Int32Text.MaxInt32
    ensures Convert([UnitName(u)[0]] + Int32Text.ToString(n)) == Success(Size(n, u))
  {
    var digits := Int32Text.ToString(n);
    assert [UnitName(u)[0]] + "B" == UnitName(u);
    UnitAndDigits([UnitName(u)[0]], digits, u);
    Int32Text.TryParseToString(n);
    SingleFactor(digits);
  }

  /** A text of digits has one factor, itself. */
  lemma SingleFactor(digits: string)
    requires Text.AllDigits(digits)
    requires Int32Text.TryParse(digits).Some?
    ensures Product(Text.Split(digits, '*')) == Some(Int32Text.TryParse(digits).value)
  {
    assert '*' !in digits by {
      assert forall i :: 0 <= i < |digits| ==> Text.IsDigit(digits[i]);
    }
    SplitWithoutSeparator(digits, '*');
    var parts := [digits];
    assert parts[..0] == [];
  }

  /** A text without the separator splits into itself alone. */
  lemma SplitWithoutSeparator(s: string, sep: char)
    requires sep !in s
    ensures Text.Split(s, sep) == [s]
  {
    Text.SplitJoin([s], sep);
  }

  /** A digit-free unit text before a run of digits: the digits start
      right after the unit, and the unit is found. */
  lemma UnitAndDigits(unit: string, digits: string, u: SizeUnit)
    requires 1 <= |unit| <= 2 && forall i :: 0 <= i < |unit| ==> !Text.IsDigit(unit[i])
    requires (if |unit| == 1 then unit + "B" else unit) == UnitName(u)
    requires |digits| >= 1 && Text.AllDigits(digits)
    ensures var s := unit + digits;
      && FirstDigit(s) == |unit| && s[..|unit|] == unit && s[|unit|..] == digits
      && ParseUnit(if |unit| == 1 then unit + "B" else unit) == Some(u)
  {
    var s := unit + digits;
    assert Text.IsDigit(s[|unit|]);
    assert forall i :: 0 <= i < |unit| ==> s[i] == unit[i];
    assert s[..|unit|] == unit && s[|unit|..] == digits;
    UnitNamesDistinct(u);
  }

  /** Only a unit's own name matches it ignoring case. */
  lemma UnitNamesDistinct(u: SizeUnit)
    ensures ParseUnit(UnitName(u)) == Some(u)
  {
    var r := ParseUnit(UnitName(u));
    assert Text.EqualsIgnoreCase(UnitName(u), UnitName(u));
    var v := r.value;
    FoldedHeadsAgree(UnitName(v), UnitName(u));
    KeyOfName(u);
    KeyOfName(v);
    KeyInjective(u, v);
  }

  lemma FoldedHeadsAgree(a: string, b: string)
    requires Text.EqualsIgnoreCase(a, b) && |a| >= 1
    ensures Text.FoldChar(a[0]) == Text.FoldChar(b[0])
  {
    assert Text.Fold(a)[0] == Text.Fold(b)[0];
  }

  lemma KeyInjective(u: SizeUnit, v: SizeUnit)
    requires Key(u) == Key(v)
    ensures u == v
  {}

  /** A text that starts with a digit has an empty unit and fails. */
  lemma LeadingDigitFails(s: string)
    requires |s| >= 1 && Text.IsDigit(s[0])
    ensures Convert(s) == Failure(ConversionFailure)
  {
    assert FirstDigit(s) == 0;
  }

  /** An empty factor, from `**` or a trailing `*`, makes the conversion
      fail. */
  lemma EmptyFactorFails(factors: seq<string>, i: int)
    requires 0 <= i < |factors| && factors[i] == ""
    ensures Product(factors).None?
  {
    assert Int32Text.TryParse(factors[i]).None?;
  }

  /** The unit text ends at the first digit. */
  lemma UnitEndsAtFirstDigit(unit: string, rest: string)
    requires forall i :: 0 <= i < |unit| ==> !Text.IsDigit(unit[i])
    requires |rest| >= 1 && Text.IsDigit(rest[0])
    ensures var s := unit + rest;
      FirstDigit(s) == |unit| && s[..|unit|] == unit && s[|unit|..] == rest
  {
    var s := unit + rest;
    assert s[|unit|] == rest[0];
    assert forall i :: 0 <= i < |unit| ==> s[i] == unit[i];
    assert s[..|unit|] == unit && s[|unit|..] == rest;
  }

  /** A recognised unit text followed by `*`-separated Int32 factors
      converts to the exact product of the factors, wrapped to 32 bits, in
      that unit. */
  lemma ConvertIsWrappedProduct(unit: string, rest: string, u: SizeUnit)
    requires forall i :: 0 <= i < |unit| ==> !Text.IsDigit(unit[i])
    requires |rest| >= 1 && Text.IsDigit(rest[0])
    requires ParseUnit(if |unit| == 1 then unit + "B" else unit) == Some(u)
    requires AllFactorsParse(Text.Split(rest, '*'))
    ensures Convert(unit + rest) ==
            Success(Size(Int32Text.Wrap(ExactProduct(FactorValues(Text.Split(rest, '*')))), u))
  {
    var fs := Text.Split(rest, '*');
    assert Convert(unit + rest) == ConvertParts(unit, rest) by {
      UnitEndsAtFirstDigit(unit, rest);
    }
    ProductIsWrappedProduct(fs);
    ConvertPartsValue(unit, rest, u);
  }

  lemma ConvertPartsValue(unit: string, rest: string, u: SizeUnit)
    requires ParseUnit(if |unit| == 1 then unit + "B" else unit) == Some(u)
    requires Product(Text.Split(rest, '*')).Some?
    ensures ConvertParts(unit, rest) == Success(Size(Product(Text.Split(rest, '*')).value, u))
  {}
}
