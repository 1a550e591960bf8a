/** Why a parse stops, independent of revision, and how each revision
    reports it: the classic library wraps almost everything in a
    ParseException with a message, the typed library throws option
    exceptions that carry the option name written as on the command line. */
module ParseErrors {
  import opened Wrappers
  import Tokens

  datatype Failure =
    | Tokenizer(error: Tokens.CreateError)
    | ForbiddenParameter(unparsedText: string)
    | InvalidParameter(unparsedText: string, name: string, parameterValue: string, message: string)
    | Uncaught(typeName: string)
    | LastTokenNull
    | NullReference
    | MissingParameter(name: string)
    | MissingOption(name: string)

  /** What escapes `Parse` in the classic revision. */
  datatype ClassicError = ClassicParseException(message: string) | ClassicEscaped(typeName: string)

  const NullReferenceType := "System.NullReferenceException"

  function ClassicException(f: Failure): (r: ClassicError)
    ensures r.ClassicEscaped? <==> f.Uncaught? || f.NullReference?
    ensures f.Uncaught? ==> r == ClassicEscaped(f.typeName)
  {
    match f
    case Tokenizer(e) => ClassicParseException(Tokens.CreateErrorMessage(e))
    case ForbiddenParameter(u) => ClassicParseException("Option: " + u + " can't have a parameter.")
    case InvalidParameter(u, _, _, _) => ClassicParseException("Parameter of option: " + u + " is invalid.")
    case Uncaught(t) => ClassicEscaped(t)
    case LastTokenNull => ClassicParseException("Internal error: lastParsedToken is null.")
    case NullReference => ClassicEscaped(NullReferenceType)
    case MissingParameter(n) => ClassicParseException("Missing argument for option: " + n)
    case MissingOption(n) => ClassicParseException("Option: " + n + " is required but not specified.")
  }

  // ----- The typed revision -----

  /** The OptionName setter: a name already starting with `-` is kept, a
      one-character name gets `-`, any other name gets `--`. */
  function OptionName(name: string): (r: string)
    ensures |r| >= 1 && r[0] == '-'
    ensures |name| >= 1 && name[0] == '-' ==> r == name
    ensures !(|name| >= 1 && name[0] == '-') ==>
              r == (if |name| == 1 then "-" else "--") + name
  {
    if |name| >= 1 && name[0] == '-' then name
    else if |name| == 1 then "-" + name
    else "--" + name
  }

  /** The inner parameter error of an OptionParameterException. */
  datatype InnerParameter = InnerParameter(parameterValue: string, message: string)

  datatype TypedError =
    | TypedParseException(message: string)
    | OptionMissingException(optionName: string)
    | ParameterMissingException(optionName: string)
    | OptionParameterException(optionName: string, inner: Option<InnerParameter>)
    | TypedEscaped(typeName: string)
  {
    predicate IsOptionException() {
      OptionMissingException? || ParameterMissingException? || OptionParameterException?
    }

    /** The Message property of each exception. */
    function Message(): string
      requires !TypedEscaped?
    {
      match this
      case TypedParseException(m) => m
      case OptionMissingException(n) => "Required option " + n + " is missing"
      case ParameterMissingException(n) => "Required parameter of " + n + " is missing"
      case OptionParameterException(n, inner) =>
        "Invalid " + n + " parameter" + (if inner.Some? then ": " + inner.value.message else "")
    }

    /** OptionParameterException.ParameterValue: the inner exception's
        text, or "" without one. */
    function ParameterValue(): (r: string)
      requires OptionParameterException?
      ensures inner.None? ==> r == ""
      ensures inner.Some? ==> r == inner.value.parameterValue
    {
      if inner.Some? then inner.value.parameterValue else ""
    }
  }

  function TypedException(f: Failure): (r: TypedError)
    ensures r.IsOptionException() <==> f.InvalidParameter? || f.MissingParameter? || f.MissingOption?
    ensures r.TypedEscaped? <==> f.Uncaught? || f.NullReference?
    ensures r.IsOptionException() ==> |r.optionName| >= 1 && r.optionName[0] == '-'
    ensures r.OptionParameterException? ==>
              f.InvalidParameter? && r.inner == Some(InnerParameter(f.parameterValue, f.message)) && r.ParameterValue() == f.parameterValue
  {
    match f
    case Tokenizer(e) => TypedParseException(Tokens.CreateErrorMessage(e))
    case ForbiddenParameter(u) => TypedParseException("Option: " + u + " can't have a parameter.")
    case InvalidParameter(_, n, v, m) => OptionParameterException(OptionName(n), Some(InnerParameter(v, m)))
    case Uncaught(t) => TypedEscaped(t)
    case LastTokenNull => TypedParseException("Internal error: lastParsedToken is null.")
    case NullReference => TypedEscaped(NullReferenceType)
    case MissingParameter(n) => ParameterMissingException(OptionName(n))
    case MissingOption(n) => OptionMissingException(OptionName(n))
  }

  // ----- Facts about the reports -----

  /** Normalising twice changes nothing. */
  lemma OptionNameIdempotent(name: string)
    ensures OptionName(OptionName(name)) == OptionName(name)
  {}

  /** The normalised form of a registered name, typed back on the command
      line as an argument of its own, is read as that very option, with or
      without a parameter; only a one-character name with the accepted
      final line feed is rejected as an illegal option instead. */
  lemma OptionNameReadsBack(n: string, view: Tokens.OptionView)
    requires Tokens.IsAcceptedName(n) && n in view
    ensures var r := Tokens.Create(OptionName(n), view);
      if |n| == 2 && n[1] == '\n' then r == Failure(Tokens.IllegalOption(OptionName(n)))
      else
        && r.Success? && |r.value| == 1 && r.value[0].IsOptionToken()
        && r.value[0].name == n && r.value[0].parameter.None?
  {
    AcceptedNameStart(n);
    if |n| == 1 {
      assert OptionName(n) == ['-', n[0]] && n == [n[0]];
      Tokens.ShortNameReadsBack(n[0], view);
    } else {
      assert OptionName(n) == "--" + n;
      Tokens.AcceptedLongNames(n, view);
      if Tokens.IsLongName(n) {
        Tokens.LongOptionReadsBack(n, None, view);
        assert "--" + n + "" == "--" + n;
      }
    }
  }

  /** An accepted name starts with a name character, so never with `-`. */
  lemma AcceptedNameStart(n: string)
    requires Tokens.IsAcceptedName(n)
    ensures |n| >= 1 && Tokens.NameStart(n[0])
  {
    if !Tokens.IsValidName(n) {
      assert n[0] == n[..|n| - 1][0];
    }
  }

  /** A fixed prefix and suffix around a text determine the text. */
  lemma AffixInjective(p: string, x: string, y: string, q: string)
    requires p + x + q == p + y + q
    ensures x == y
  {
    var a := p + x + q;
    assert |x| == |y|;
    assert x == a[|p|..|p| + |x|];
    assert y == (p + y + q)[|p|..|p| + |y|];
  }

  /** Different accepted names normalise to different option names. */
  lemma OptionNameInjective(n: string, m: string)
    requires Tokens.IsAcceptedName(n) && Tokens.IsAcceptedName(m)
    requires OptionName(n) == OptionName(m)
    ensures n == m
  {
    AcceptedNameStart(n);
    AcceptedNameStart(m);
    var a := OptionName(n);
    if |n| == 1 && |m| == 1 {
      assert n == a[1..];
    } else if |n| >= 2 && |m| >= 2 {
      assert n == a[2..];
    }
  }

  /** A missing required option is reported under the name it was
      registered with in both revisions, so different names give different
      reports. */
  lemma MissingOptionReportsName(n: string, m: string)
    requires n != m
    ensures ClassicException(MissingOption(n)) != ClassicException(MissingOption(m))
    ensures Tokens.IsAcceptedName(n) && Tokens.IsAcceptedName(m) ==>
              TypedException(MissingOption(n)).Message() != TypedException(MissingOption(m)).Message()
  {
    if ClassicException(MissingOption(n)) == ClassicException(MissingOption(m)) {
      AffixInjective("Option: ", n, m, " is required but not specified.");
    }
    if Tokens.IsAcceptedName(n) && Tokens.IsAcceptedName(m) {
      var a := OptionName(n);
      var b := OptionName(m);
      if TypedException(MissingOption(n)).Message() == TypedException(MissingOption(m)).Message() {
        AffixInjective("Required option ", a, b, " is missing");
        OptionNameInjective(n, m);
      }
    }
  }
}
