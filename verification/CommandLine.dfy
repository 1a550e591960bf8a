/** The command line: option registration and the three-phase parse of the
    argument list. Options of one command line share the value type T;
    option state changes (presence, parameter values) are returned in a new
    state rather than made in place. */
module CommandLine {
  import opened Wrappers
  import opened Tokens
  import opened Options
  import opened ParseErrors

  /** Reading options, waiting for the parameter of the last option, or
      collecting everything as program arguments (after `--`). */
  datatype Phase = OptionPhase | WaitingForArgument | ProgramArgumentPhase

  datatype CommandLine<!T> = CommandLine(
    reg: Registry,
    opts: seq<Opt<T>>,
    phase: Phase,
    arguments: seq<string>,
    usageDescription: Option<string>)

  /** Every registered name leads to an option. */
  predicate Linked<T>(cl: CommandLine<T>) {
    forall n :: n in cl.reg.index ==> cl.reg.index[n] < |cl.opts|
  }

  predicate Valid<T>(cl: CommandLine<T>) {
    Options.Valid(cl.reg) && Linked(cl)
  }

  /** A fresh command line: no options, option phase, no arguments. */
  function New<T>(): (cl: CommandLine<T>)
    ensures Valid(cl) && cl.phase == OptionPhase && cl.arguments == [] && cl.opts == []
    ensures forall n :: !ContainsName(cl.reg, n)
  {
    CommandLine(EmptyRegistry, [], OptionPhase, [], None)
  }

  /** The option registered under `n`. */
  function OptionOf<T>(cl: CommandLine<T>, n: string): Opt<T>
    requires Linked(cl) && n in cl.reg.index
  {
    cl.opts[cl.reg.index[n]]
  }

  /** The registry as the tokenizer sees it. */
  function View<T>(cl: CommandLine<T>): (v: OptionView)
    requires Linked(cl)
    ensures forall n :: n in v <==> n in cl.reg.index
    ensures forall n :: n in v ==> v[n] == OptionOf(cl, n).HasParameter()
  {
    map n | n in cl.reg.index :: cl.opts[cl.reg.index[n]].HasParameter()
  }

  // ----- Configuration -----

  /** AddOption: the option gets the next handle and is kept whether or not
      its names are accepted, since names indexed before a rejected one
      still lead to it. */
  function AddOption<T>(cl: CommandLine<T>, o: Opt<T>, names: seq<Option<string>>)
    : (r: (CommandLine<T>, Option<ConfigError>))
    requires Valid(cl)
    ensures Valid(r.0)
    ensures r.0.opts == cl.opts + [o] && r.0.phase == cl.phase && r.0.arguments == cl.arguments
    ensures r.1.None? <==> |names| >= 1 && Fresh(cl.reg.index, names)
    ensures r.1.None? ==> forall i :: 0 <= i < |names| ==>
              names[i].Some? && names[i].value in r.0.reg.index && OptionOf(r.0, names[i].value) == o
    ensures forall n :: n in cl.reg.index ==> n in r.0.reg.index && OptionOf(r.0, n) == OptionOf(cl, n)
    ensures r.0.usageDescription == cl.usageDescription
    ensures r.1.None? ==>
              && r.0.reg.synonyms == cl.reg.synonyms[names[0].value := Values(names)]
              && r.0.reg.order == cl.reg.order + [names[0].value]
    ensures r.1.Some? ==> r.0.reg.synonyms == cl.reg.synonyms && r.0.reg.order == cl.reg.order
    ensures |names| == 0 ==> r.1 == Some(NoNames) && r.0.reg == cl.reg
    ensures r.1.Some? && |names| >= 1 ==>
              exists j :: 0 <= j < |names| && StoppedAt(cl.reg.index, names, j, r.0.reg.index, r.1.value)
    ensures forall n :: n in r.0.reg.index && n !in cl.reg.index ==> OptionOf(r.0, n) == o
  {
    var id := |cl.opts|;
    AddPreservesValid(cl.reg, id, names);
    var added := Add(cl.reg, id, names);
    var cl' := cl.(reg := added.registry, opts := cl.opts + [o]);
    if added.Added? then
      forall i | 0 <= i < |names| ensures added.registry.index[names[i].value] == id {
        assert names[i].value !in cl.reg.index;
      }
      (cl', None)
    else
      (cl', Some(added.error))
  }

  /** AddOption with a single short name. */
  function AddShortOption<T>(cl: CommandLine<T>, o: Opt<T>, shortName: char)
    : (r: (CommandLine<T>, Option<ConfigError>))
    requires Valid(cl)
    ensures Valid(r.0)
    ensures r.1.None? <==> Tokens.IsValidName([shortName]) && [shortName] !in cl.reg.index
    ensures r.1.None? ==>
              && [shortName] in r.0.reg.index && OptionOf(r.0, [shortName]) == o
              && ListUniqueNames(r.0.reg) == ListUniqueNames(cl.reg) + [[shortName]]
  {
    AddOption(cl, o, [Some([shortName])])
  }

  /** AddOption with a short and a long name. */
  function AddShortLongOption<T>(cl: CommandLine<T>, o: Opt<T>, shortName: char, longName: Option<string>)
    : (r: (CommandLine<T>, Option<ConfigError>))
    requires Valid(cl)
    ensures Valid(r.0)
    ensures r.1.None? <==>
              && Tokens.IsValidName([shortName]) && [shortName] !in cl.reg.index
              && longName.Some? && Tokens.IsAcceptedName(longName.value) && longName.value !in cl.reg.index
              && longName.value != [shortName]
    ensures r.1.None? ==>
              && [shortName] in r.0.reg.index && OptionOf(r.0, [shortName]) == o
              && longName.value in r.0.reg.index && OptionOf(r.0, longName.value) == o
  {
    var names := [Some([shortName]), longName];
    FreshPair(cl.reg.index, [shortName], longName);
    var r := AddOption(cl, o, names);
    assert names[0] == Some([shortName]) && names[1] == longName;
    r
  }

  // ----- Parsing -----

  /** The state after a step, the token the step parsed last (`None` for
      the null token), and the failure that ended the parse, if any. */
  datatype Run<!T> = Run(cl: CommandLine<T>, last: Option<Token>, failure: Option<Failure>)

  /** Two states with the same registry and the same option configuration:
      only presence, parameter values, phase and arguments may differ. */
  predicate SameConfig<T>(a: CommandLine<T>, b: CommandLine<T>) {
    && a.reg == b.reg && |a.opts| == |b.opts| && a.usageDescription == b.usageDescription
    && forall i :: 0 <= i < |a.opts| ==>
         && a.opts[i].HasParameter() == b.opts[i].HasParameter()
         && a.opts[i].IsParameterRequired() == b.opts[i].IsParameterRequired()
         && a.opts[i].isRequired == b.opts[i].isRequired
         && a.opts[i].usageText == b.opts[i].usageText
         && a.opts[i].ParameterUsageName() == b.opts[i].ParameterUsageName()
  }

  /** Presence is never withdrawn. */
  predicate KeepsPresence<T>(a: CommandLine<T>, b: CommandLine<T>)
    requires |a.opts| == |b.opts|
  {
    forall i :: 0 <= i < |a.opts| && a.opts[i].isPresent ==> b.opts[i].isPresent
  }

  /** A token whose option the state can find. */
  predicate Known<T>(cl: CommandLine<T>, t: Token) {
    t.IsOptionToken() ==> t.name in cl.reg.index
  }

  predicate KnownLast<T>(cl: CommandLine<T>, last: Option<Token>) {
    last.Some? ==> Known(cl, last.value)
  }

  /** The failure setOptionValue reports for an option's SetValue error. */
  function ValueFailure(t: Token, e: SetValueError): (f: Failure)
    requires t.IsOptionToken()
    ensures e.ForbiddenParameter? <==> f.ForbiddenParameter?
    ensures e.ConversionFailed? && e.error.OtherException? <==> f.Uncaught?
  {
    match e
    case ForbiddenParameter => ParseErrors.ForbiddenParameter(t.unparsedText)
    case ConversionFailed(ParameterError(v, m)) => InvalidParameter(t.unparsedText, t.name, v, m)
    case ConversionFailed(OtherException(ty)) => Uncaught(ty)
  }

  /** setOptionValue: hands `value` to the token's option. */
  function SetOptionValue<T>(cl: CommandLine<T>, t: Token, value: string): (r: (CommandLine<T>, Option<Failure>))
    requires Linked(cl) && t.IsOptionToken() && t.name in cl.reg.index
    ensures SameConfig(cl, r.0) && KeepsPresence(cl, r.0)
    ensures r.0.phase == cl.phase && r.0.arguments == cl.arguments
    ensures r.1.None? <==> OptionOf(cl, t.name).SetValue(value).1.None?
    ensures r.1.None? ==> OptionOf(r.0, t.name) == OptionOf(cl, t.name).SetValue(value).0
    ensures r.1.Some? ==> r.0 == cl && r.1 == Some(ValueFailure(t, OptionOf(cl, t.name).SetValue(value).1.value))
    ensures forall i :: 0 <= i < |cl.opts| && i != cl.reg.index[t.name] ==> r.0.opts[i] == cl.opts[i]
  {
    var id := cl.reg.index[t.name];
    var (o', err) := cl.opts[id].SetValue(value);
    if err.Some? then (cl, Some(ValueFailure(t, err.value)))
    else (cl.(opts := cl.opts[id := o']), None)
  }

  /** One iteration of parseOption's token loop. */
  function ProcessToken<T>(cl: CommandLine<T>, t: Token): (r: Run<T>)
    requires Linked(cl) && Known(cl, t)
    ensures SameConfig(cl, r.cl) && KeepsPresence(cl, r.cl) && r.last == Some(t)
    ensures t.DivisionToken? ==> r == Run(cl.(phase := ProgramArgumentPhase), Some(t), None)
    ensures t.ProgramArgumentToken? ==> r == Run(cl.(arguments := cl.arguments + [t.programArgument]), Some(t), None)
    ensures t.IsOptionToken() ==> r.cl.arguments == cl.arguments && OptionOf(r.cl, t.name).isPresent
    ensures t.IsOptionToken() && t.parameter.None? ==>
              && r.failure.None?
              && r.cl.phase == (if OptionOf(cl, t.name).HasParameter() then WaitingForArgument else cl.phase)
    ensures t.IsOptionToken() && t.parameter.Some? ==>
              && r.cl.phase == cl.phase
              && (r.failure.None? <==> OptionOf(cl, t.name).SetValue(t.parameter.value).1.None?)
  {
    match t
    case DivisionToken(_) => Run(cl.(phase := ProgramArgumentPhase), Some(t), None)
    case ProgramArgumentToken(_, a) => Run(cl.(arguments := cl.arguments + [a]), Some(t), None)
    case _ => ProcessOptionToken(cl, t)
  }

  /** ProcessToken for an option token: the option is marked present, then
      it waits for its parameter or is handed the inline one. */
  function ProcessOptionToken<T>(cl: CommandLine<T>, t: Token): (r: Run<T>)
    requires Linked(cl) && t.IsOptionToken() && t.name in cl.reg.index
    ensures SameConfig(cl, r.cl) && KeepsPresence(cl, r.cl) && r.last == Some(t)
    ensures r.cl.arguments == cl.arguments && OptionOf(r.cl, t.name).isPresent
    ensures t.parameter.None? ==>
              && r.failure.None?
              && r.cl.phase == (if OptionOf(cl, t.name).HasParameter() then WaitingForArgument else cl.phase)
    ensures t.parameter.Some? ==>
              && r.cl.phase == cl.phase
              && (r.failure.None? <==> OptionOf(cl, t.name).SetValue(t.parameter.value).1.None?)
  {
    var id := cl.reg.index[t.name];
    var cl1 := cl.(opts := cl.opts[id := cl.opts[id].MarkPresent()]);
    if t.parameter.None? then
      if cl1.opts[id].HasParameter() then Run(cl1.(phase := WaitingForArgument), Some(t), None)
      else Run(cl1, Some(t), None)
    else
      var (cl2, err) := SetOptionValue(cl1, t, t.parameter.value);
      Run(cl2, Some(t), err)
  }

  /** parseOption's token loop: tokens in order, stopping at the first
      failure; `last` is the token parsed last. */
  function ProcessTokens<T>(cl: CommandLine<T>, ts: seq<Token>, last: Option<Token>): (r: Run<T>)
    requires Linked(cl) && forall k :: 0 <= k < |ts| ==> Known(cl, ts[k])
    ensures SameConfig(cl, r.cl) && KeepsPresence(cl, r.cl)
    ensures KnownLast(cl, last) ==> KnownLast(cl, r.last)
    ensures r.failure.None? && |ts| >= 1 ==> r.last == Some(ts[|ts| - 1])
    ensures |ts| == 0 ==> r == Run(cl, last, None)
    decreases |ts|
  {
    if |ts| == 0 then Run(cl, last, None)
    else
      var r := ProcessToken(cl, ts[0]);
      if r.failure.Some? then r
      else
        assert r.cl.reg == cl.reg;
        forall k | 0 <= k < |ts| - 1 ensures Known(r.cl, ts[1..][k]) {
          assert ts[1..][k] == ts[k + 1] && Known(cl, ts[k + 1]);
        }
        ProcessTokens(r.cl, ts[1..], r.last)
  }

  /** parseOption: tokenizes `arg` and processes its tokens. */
  function ParseOption<T>(cl: CommandLine<T>, arg: string): (r: Run<T>)
    requires Linked(cl)
    ensures SameConfig(cl, r.cl) && KeepsPresence(cl, r.cl)
    ensures Create(arg, View(cl)).Failure? ==> r == Run(cl, None, Some(Tokenizer(Create(arg, View(cl)).error)))
    ensures KnownLast(cl, r.last)
    ensures r.failure.None? ==> r.last.Some? && r.last.value.unparsedText == arg
  {
    match Create(arg, View(cl))
    case Failure(e) => Run(cl, None, Some(Tokenizer(e)))
    case Success(ts) => ProcessTokens(cl, ts, None)
  }

  /** parseWaitingForArgument: a pending required parameter takes the
      argument whatever it looks like; otherwise the argument is parsed
      afresh in the option phase. */
  function ParseWaiting<T>(cl: CommandLine<T>, last: Option<Token>, arg: string): (r: Run<T>)
    requires Linked(cl) && KnownLast(cl, last)
    ensures SameConfig(cl, r.cl) && KeepsPresence(cl, r.cl)
    ensures last.None? ==> r == Run(cl, None, Some(LastTokenNull))
    ensures last.Some? && PendingRequired(cl, last.value) ==>
              && r.last.None? && r.cl.phase == OptionPhase && r.cl.arguments == cl.arguments
              && (var (cl', f) := SetOptionValue(cl, last.value, arg); r.failure == f && r.cl == cl'.(phase := OptionPhase))
    ensures last.Some? && !PendingRequired(cl, last.value) ==> r == ParseOption(cl.(phase := OptionPhase), arg)
  {
    if last.None? then Run(cl, None, Some(LastTokenNull))
    else
      var cl1 := cl.(phase := OptionPhase);
      if PendingRequired(cl, last.value) then
        var (cl2, err) := SetOptionValue(cl1, last.value, arg);
        Run(cl2, None, err)
      else ParseOption(cl1, arg)
  }

  /** The last token is an option whose parameter is required. */
  predicate PendingRequired<T>(cl: CommandLine<T>, t: Token)
    requires Linked(cl) && Known(cl, t)
  {
    t.IsOptionToken() && OptionOf(cl, t.name).IsParameterRequired()
  }

  /** One iteration of Parse's argument loop, chosen by the phase. */
  function Step<T>(cl: CommandLine<T>, last: Option<Token>, arg: string): (r: Run<T>)
    requires Linked(cl) && KnownLast(cl, last)
    ensures SameConfig(cl, r.cl) && KeepsPresence(cl, r.cl) && KnownLast(r.cl, r.last)
    ensures cl.phase == ProgramArgumentPhase ==> r == Run(cl.(arguments := cl.arguments + [arg]), last, None)
    ensures r.cl.arguments == cl.arguments || r.cl.arguments == cl.arguments + [arg]
  {
    match cl.phase
    case OptionPhase => StepArguments(cl, arg); ParseOption(cl, arg)
    case WaitingForArgument =>
      StepArguments(cl.(phase := OptionPhase), arg);
      ParseWaiting(cl, last, arg)
    case ProgramArgumentPhase => Run(cl.(arguments := cl.arguments + [arg]), last, None)
  }

  /** Parsing one argument in the option phase collects at most that
      argument. */
  lemma StepArguments<T>(cl: CommandLine<T>, arg: string)
    requires Linked(cl)
    ensures var r := ParseOption(cl, arg);
      r.cl.arguments == cl.arguments || r.cl.arguments == cl.arguments + [arg]
  {
    var c := Create(arg, View(cl));
    if c.Success? {
      var ts := c.value;
      if exists k :: 0 <= k < |ts| && ts[k].ProgramArgumentToken? {
        assert ts == [ProgramArgumentToken(arg, arg)];
      } else {
        NoArgumentTokens(cl, ts, None);
      }
    }
  }

  /** Tokens with no plain argument among them collect nothing. */
  lemma {:induction false} NoArgumentTokens<T>(cl: CommandLine<T>, ts: seq<Token>, last: Option<Token>)
    requires Linked(cl) && forall k :: 0 <= k < |ts| ==> Known(cl, ts[k]) && !ts[k].ProgramArgumentToken?
    ensures ProcessTokens(cl, ts, last).cl.arguments == cl.arguments
    decreases |ts|
  {
    if |ts| >= 1 {
      var r := ProcessToken(cl, ts[0]);
      if r.failure.None? {
        NoArgumentTokens(r.cl, ts[1..], r.last);
      }
    }
  }

  /** Parse's argument loop, stopping at the first failure. */
  function Feed<T>(cl: CommandLine<T>, last: Option<Token>, args: seq<string>): (r: Run<T>)
    requires Linked(cl) && KnownLast(cl, last)
    ensures SameConfig(cl, r.cl) && KeepsPresence(cl, r.cl) && KnownLast(r.cl, r.last)
    ensures exists extra :: r.cl.arguments == cl.arguments + extra && Subsequence(extra, args)
    decreases |args|
  {
    if |args| == 0 then
      assert cl.arguments == cl.arguments + [];
      Run(cl, last, None)
    else
      var r := Step(cl, last, args[0]);
      if r.failure.Some? then
        FeedCollects(cl, r, args, []);
        r
      else
        var r' := Feed(r.cl, r.last, args[1..]);
        var extra :| r'.cl.arguments == r.cl.arguments + extra && Subsequence(extra, args[1..]);
        FeedCollects(cl, r, args, extra);
        var all := r.cl.arguments[|cl.arguments|..] + extra;
        AppendAssociates(cl.arguments, r.cl.arguments[|cl.arguments|..], extra);
        ConfigChain(cl, r.cl, r'.cl);
        r'
  }

  lemma AppendAssociates(x: seq<string>, y: seq<string>, z: seq<string>)
    ensures (x + y) + z == x + (y + z)
  {}

  /** Configuration and presence are kept along a chain of states. */
  lemma ConfigChain<T>(a: CommandLine<T>, b: CommandLine<T>, c: CommandLine<T>)
    requires SameConfig(a, b) && KeepsPresence(a, b) && SameConfig(b, c) && KeepsPresence(b, c)
    ensures SameConfig(a, c) && KeepsPresence(a, c)
  {}

  /** `a` occurs in `b` in order, possibly with gaps. */
  predicate Subsequence(a: seq<string>, b: seq<string>)
    decreases |b|
  {
    if a == [] then true
    else if b == [] then false
    else if a[0] == b[0] then Subsequence(a[1..], b[1..])
    else Subsequence(a, b[1..])
  }

  lemma {:induction false} SubsequenceDrop(a: seq<string>, b: seq<string>)
    requires |a| >= 1 && Subsequence(a, b)
    ensures Subsequence(a[1..], b)
    decreases |b|, 1
  {
    if a[0] != b[0] {
      SubsequenceDrop(a, b[1..]);
    }
    SubsequenceSkip(a[1..], b[0], b[1..]);
  }

  lemma {:induction false} SubsequenceSkip(a: seq<string>, x: string, b: seq<string>)
    requires Subsequence(a, b)
    ensures Subsequence(a, [x] + b)
    decreases |b|, 2
  {
    assert ([x] + b)[1..] == b;
    if a != [] && a[0] == x {
      SubsequenceDrop(a, b);
    }
  }

  /** The step's own argument, if collected, followed by a subsequence of
      the rest, is a subsequence of the whole list. */
  lemma FeedCollects<T>(cl: CommandLine<T>, r: Run<T>, args: seq<string>, extra: seq<string>)
    requires |args| >= 1
    requires r.cl.arguments == cl.arguments || r.cl.arguments == cl.arguments + [args[0]]
    requires Subsequence(extra, args[1..])
    ensures |cl.arguments| <= |r.cl.arguments|
    ensures r.cl.arguments == cl.arguments + r.cl.arguments[|cl.arguments|..]
    ensures Subsequence(r.cl.arguments[|cl.arguments|..] + extra, args)
  {
    assert args == [args[0]] + args[1..];
    var mine := r.cl.arguments[|cl.arguments|..];
    if r.cl.arguments == cl.arguments {
      assert mine + extra == extra;
      SubsequenceSkip(extra, args[0], args[1..]);
    } else {
      assert mine + extra == [args[0]] + extra;
      assert (mine + extra)[1..] == extra;
    }
  }

  /** checkParserFinalState: ending while waiting is an error only when
      the pending parameter is required; with no usable last token the
      check itself dereferences null. */
  function CheckParserFinalState<T>(cl: CommandLine<T>, last: Option<Token>): (r: Option<Failure>)
    requires Linked(cl) && KnownLast(cl, last)
    ensures cl.phase != WaitingForArgument ==> r.None?
    ensures r.Some? ==> r == Some(NullReference) || (last.Some? && last.value.IsOptionToken() && r == Some(MissingParameter(last.value.name)))
    ensures cl.phase == WaitingForArgument && last.Some? && last.value.IsOptionToken() ==>
              (r.Some? <==> OptionOf(cl, last.value.name).IsParameterRequired())
  {
    if cl.phase != WaitingForArgument then None
    else if last.None? || !last.value.IsOptionToken() then Some(NullReference)
    else if OptionOf(cl, last.value.name).IsParameterRequired() then Some(MissingParameter(last.value.name))
    else None
  }

  /** The first of `names` whose option is required but absent. */
  function FirstMissing<T>(cl: CommandLine<T>, names: seq<string>): (r: Option<string>)
    requires Linked(cl) && forall i :: 0 <= i < |names| ==> names[i] in cl.reg.index
    ensures r.None? <==> forall i :: 0 <= i < |names| ==> Satisfied(cl, names[i])
    ensures r.Some? ==> exists i :: 0 <= i < |names| && names[i] == r.value && !Satisfied(cl, names[i]) &&
                          forall j :: 0 <= j < i ==> Satisfied(cl, names[j])
  {
    if |names| == 0 then None
    else if !Satisfied(cl, names[0]) then Some(names[0])
    else
      var r := FirstMissing(cl, names[1..]);
      assert forall i :: 1 <= i < |names| ==> names[i] == names[1..][i - 1];
      if r.Some? then
        var i :| 0 <= i < |names[1..]| && names[1..][i] == r.value && !Satisfied(cl, names[1..][i]) &&
                 forall j :: 0 <= j < i ==> Satisfied(cl, names[1..][j]);
        assert names[i + 1] == r.value;
        r
      else r
  }

  /** The option under `n` is optional or present. */
  predicate Satisfied<T>(cl: CommandLine<T>, n: string)
    requires Linked(cl) && n in cl.reg.index
  {
    !(OptionOf(cl, n).isRequired && !OptionOf(cl, n).isPresent)
  }

  /** checkRequiredOptions: the first option, in registration order, that
      is required but absent, reported under its first name. */
  function CheckRequiredOptions<T>(cl: CommandLine<T>): (r: Option<Failure>)
    requires Valid(cl)
    ensures r.None? <==> forall i :: 0 <= i < |cl.reg.order| ==> Satisfied(cl, cl.reg.order[i])
    ensures r.Some? ==> (r.value.MissingOption? &&
              exists i :: 0 <= i < |cl.reg.order| && cl.reg.order[i] == r.value.name &&
                !Satisfied(cl, cl.reg.order[i]) && forall j :: 0 <= j < i ==> Satisfied(cl, cl.reg.order[j]))
  {
    var m := FirstMissing(cl, ListUniqueNames(cl.reg));
    if m.Some? then Some(MissingOption(m.value)) else None
  }

  /** Parse: the argument loop, then the final-state check, then the
      required-options check. The state reached so far is returned even
      when a failure ends the parse, since the option objects keep every
      change made before the exception. The phase and the collected
      arguments carry over into a later call. What a whole run does is
      stated by the lemmas of ParseFacts: ParseReportsFirstMissing for the
      required options, ParseDivision and ProgramPhaseVerbatim for the
      program arguments, EndWhileWaiting and ParseAgainWhileWaiting for a
      pending parameter. */
  function Parse<T>(cl: CommandLine<T>, args: seq<string>): (r: (CommandLine<T>, Option<Failure>))
    requires Valid(cl)
    ensures Valid(r.0) && SameConfig(cl, r.0) && KeepsPresence(cl, r.0)
    ensures exists extra :: r.0.arguments == cl.arguments + extra && Subsequence(extra, args)
  {
    var run := Feed(cl, None, args);
    if run.failure.Some? then (run.cl, run.failure)
    else
      var f := CheckParserFinalState(run.cl, run.last);
      if f.Some? then (run.cl, f)
      else (run.cl, CheckRequiredOptions(run.cl))
  }

  function GetArguments<T>(cl: CommandLine<T>): seq<string> {
    cl.arguments
  }
}
