/** Option parameters: a conversion from the command-line text to a value
    of type T, a default used until a value is set, and constraints that
    are checked on request. */
module Parameters {
  import opened Wrappers
  import Int32Text

  /** Why a conversion failed: a library parameter error carrying the
      offending text and a message, or an exception of some other type that
      the parser does not translate. */
  datatype ConversionError =
    | ParameterError(parameterValue: string, message: string)
    | OtherException(typeName: string)

  /** `stored` holds the converted value once `SetValue` has succeeded; it
      plays the part of the `value` and `isValueValid` fields together. */
  datatype Parameter<!T> = Parameter(
    convert: string -> Result<T, ConversionError>,
    defaultValue: T,
    isRequired: bool,
    usageName: string,
    constraints: seq<T -> bool>,
    stored: Option<T>)
  {
    /** The converted value if one has been set, the default otherwise. */
    function Value(): T {
      if stored.Some? then stored.value else defaultValue
    }

    /** Converts `s` and keeps the result; when the conversion fails the
        parameter is returned untouched together with the error. */
    function SetValue(s: string): (r: (Parameter<T>, Option<ConversionError>))
      ensures r.1.None? <==> convert(s).Success?
      ensures r.1.None? ==> r.0.Value() == convert(s).value && r.0.stored.Some?
      ensures r.1.Some? ==> r.0 == this && r.1.value == convert(s).error
      ensures r.0.convert == convert && r.0.defaultValue == defaultValue
      ensures r.0.isRequired == isRequired && r.0.usageName == usageName
      ensures r.0.constraints == constraints
    {
      match convert(s)
      case Success(v) => (this.(stored := Some(v)), None)
      case Failure(e) => (this, Some(e))
    }

    /** Appends a constraint; nothing else changes. */
    function AddConstraint(c: T -> bool): (r: Parameter<T>)
      ensures |r.constraints| == |constraints| + 1
      ensures r.constraints[..|constraints|] == constraints && r.constraints[|constraints|] == c
      ensures r.Value() == Value() && r.stored == stored && r.isRequired == isRequired
    {
      this.(constraints := constraints + [c])
    }
  }

  /** Constructor: no value set yet, no constraints. */
  function NewParameter<T>(convert: string -> Result<T, ConversionError>, isRequired: bool,
                           usageName: string, defaultValue: T): (p: Parameter<T>)
    ensures p.Value() == defaultValue && p.stored.None? && p.constraints == []
    ensures p.isRequired == isRequired && p.usageName == usageName
  {
    Parameter(convert, defaultValue, isRequired, usageName, [], None)
  }

  /** Whether every constraint accepts the current value, checked in the
      order the constraints were added; true when there are none. */
  method CheckConstraints<T>(p: Parameter<T>) returns (ok: bool)
    ensures ok <==> forall i :: 0 <= i < |p.constraints| ==> p.constraints[i](p.Value())
  {
    var v := p.Value();
    var i := 0;
    while i < |p.constraints|
      invariant 0 <= i <= |p.constraints|
      invariant forall j :: 0 <= j < i ==> p.constraints[j](v)
    {
      if !p.constraints[i](v) {
        return false;
      }
      i := i + 1;
    }
    return true;
  }

  function StringConvert(s: string): Result<string, ConversionError> {
    Success(s)
  }

  /** StringParameter: the text is the value; the default is "" unless given. */
  function StringParameter(isRequired: bool, usageName: string, defaultValue: string := ""): Parameter<string> {
    NewParameter(StringConvert, isRequired, usageName, defaultValue)
  }

  /** IntParameter's conversion: `int.TryParse`, failing with a bare
      `System.Exception` (not a parameter error). */
  function IntConvert(s: string): Result<int, ConversionError> {
    match Int32Text.TryParse(s)
    case Some(n) => Success(n)
    case None => Failure(OtherException("System.Exception"))
  }

  /** IntParameter: decimal Int32 values; the default is 0 unless given. */
  function IntParameter(isRequired: bool, usageName: string, defaultValue: int := 0): Parameter<int> {
    NewParameter(IntConvert, isRequired, usageName, defaultValue)
  }

  // ----- Facts about parameters -----

  /** Default until set, then last set wins. */
  lemma LastSetWins<T>(p: Parameter<T>, a: string, b: string)
    requires p.convert(a).Success? && p.convert(b).Success?
    ensures p.SetValue(a).0.Value() == p.convert(a).value
    ensures p.SetValue(a).0.SetValue(b).0.Value() == p.convert(b).value
  {}

  /** A failed conversion after a successful one keeps the earlier value. */
  lemma FailedSetKeepsValue<T>(p: Parameter<T>, a: string, b: string)
    requires p.convert(a).Success? && p.convert(b).Failure?
    ensures p.SetValue(a).0.SetValue(b).0.Value() == p.convert(a).value
  {}

  /** A string parameter holds exactly the text it was given. */
  lemma StringParameterIsIdentity(isRequired: bool, usageName: string, s: string)
    ensures StringParameter(isRequired, usageName).Value() == ""
    ensures StringParameter(isRequired, usageName).SetValue(s).1.None?
    ensures StringParameter(isRequired, usageName).SetValue(s).0.Value() == s
  {}

  /** An integer parameter accepts exactly the strings `int.TryParse`
      accepts, and then holds their value; its default is 0. */
  lemma IntParameterParses(isRequired: bool, usageName: string, s: string)
    ensures IntParameter(isRequired, usageName).Value() == 0
    ensures IntParameter(isRequired, usageName).SetValue(s).1.None? <==> Int32Text.TryParse(s).Some?
    ensures Int32Text.TryParse(s).Some? ==>
              IntParameter(isRequired, usageName).SetValue(s).0.Value() == Int32Text.TryParse(s).value
    ensures Int32Text.TryParse(s).None? ==>
              IntParameter(isRequired, usageName).SetValue(s).1 == Some(OtherException("System.Exception"))
  {}
}
