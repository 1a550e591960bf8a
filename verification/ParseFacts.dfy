/** Properties of the parse loop: what each phase does with an argument,
    how a pending parameter is treated, and what the end checks report. */
module ParseFacts {
  import opened Wrappers
  import opened Tokens
  import Options
  import opened ParseErrors
  import opened CommandLine
  import Parameters

  /** After `--` every remaining argument is collected verbatim, in order,
      whatever it looks like. */
  lemma {:induction false} ProgramPhaseVerbatim<T>(cl: CommandLine<T>, last: Option<Token>, args: seq<string>)
    requires Linked(cl) && KnownLast(cl, last) && cl.phase == ProgramArgumentPhase
    ensures Feed(cl, last, args) == Run(cl.(arguments := cl.arguments + args), last, None)
    decreases |args|
  {
    if |args| >= 1 {
      var cl1 := cl.(arguments := cl.arguments + [args[0]]);
      ProgramPhaseVerbatim(cl1, last, args[1..]);
      assert cl1.arguments + args[1..] == cl.arguments + args;
    }
  }

  /** `--` read in the option phase switches to the program-argument
      phase, and the rest of the list becomes program arguments. */
  lemma DivisionStartsProgramArguments<T>(cl: CommandLine<T>, last: Option<Token>, rest: seq<string>)
    requires Linked(cl) && KnownLast(cl, last) && cl.phase == OptionPhase
    ensures Feed(cl, last, ["--"] + rest) ==
              Run(cl.(phase := ProgramArgumentPhase, arguments := cl.arguments + rest), Some(DivisionToken("--")), None)
  {
    DivisionIsFirst(View(cl));
    var cl1 := cl.(phase := ProgramArgumentPhase);
    assert Step(cl, last, "--") == Run(cl1, Some(DivisionToken("--")), None);
    assert (["--"] + rest)[1..] == rest;
    ProgramPhaseVerbatim(cl1, Some(DivisionToken("--")), rest);
  }

  /** Parse of `--` followed by anything: only the required-options check
      can fail, and the state is the old one with the rest collected. */
  lemma ParseDivision<T>(cl: CommandLine<T>, rest: seq<string>)
    requires Valid(cl) && cl.phase == OptionPhase
    ensures Parse(cl, ["--"] + rest).0 == cl.(phase := ProgramArgumentPhase, arguments := cl.arguments + rest)
    ensures Parse(cl, ["--"] + rest).1.None? <==>
              forall i :: 0 <= i < |cl.reg.order| ==> Satisfied(cl, cl.reg.order[i])
  {
    var cl' := cl.(phase := ProgramArgumentPhase, arguments := cl.arguments + rest);
    var p := Parse(cl, ["--"] + rest);
    assert p.0 == cl' && p.1 == CheckRequiredOptions(cl') by {
      DivisionStartsProgramArguments(cl, None, rest);
    }
    SameOptionsSameSatisfied(cl, cl');
  }

  /** Whether an option is satisfied depends only on the options. */
  lemma SameOptionsSameSatisfied<T>(cl: CommandLine<T>, cl': CommandLine<T>)
    requires Linked(cl) && cl'.opts == cl.opts && cl'.reg == cl.reg
    ensures Linked(cl')
    ensures forall n :: n in cl.reg.index ==> Satisfied(cl', n) == Satisfied(cl, n)
  {}

  /** In the option phase an argument that is neither `--`, illegal, nor
      shaped like an option is collected as a program argument. */
  lemma PlainArgumentCollected<T>(cl: CommandLine<T>, last: Option<Token>, arg: string)
    requires Linked(cl) && KnownLast(cl, last) && cl.phase == OptionPhase
    requires IsPlain(arg)
    ensures Step(cl, last, arg) ==
              Run(cl.(arguments := cl.arguments + [arg]), Some(ProgramArgumentToken(arg, arg)), None)
  {
    PlainArgumentVerbatim(arg, View(cl));
  }

  /** A run of plain arguments in the option phase is collected whole. */
  lemma {:induction false} PlainArgumentsCollected<T>(cl: CommandLine<T>, last: Option<Token>, args: seq<string>)
    requires Linked(cl) && KnownLast(cl, last) && cl.phase == OptionPhase
    requires forall i :: 0 <= i < |args| ==> IsPlain(args[i])
    ensures Feed(cl, last, args).failure.None?
    ensures Feed(cl, last, args).cl == cl.(arguments := cl.arguments + args)
    decreases |args|
  {
    if |args| >= 1 {
      PlainArgumentCollected(cl, last, args[0]);
      var cl1 := cl.(arguments := cl.arguments + [args[0]]);
      assert forall i :: 0 <= i < |args| - 1 ==> args[1..][i] == args[i + 1];
      PlainArgumentsCollected(cl1, Some(ProgramArgumentToken(args[0], args[0])), args[1..]);
      AppendAssociates(cl.arguments, [args[0]], args[1..]);
      assert [args[0]] + args[1..] == args;
    }
  }

  /** A step that does not fail hands its state and last token to the
      rest of the list. */
  lemma FeedCons<T>(cl: CommandLine<T>, last: Option<Token>, arg: string, rest: seq<string>)
    requires Linked(cl) && KnownLast(cl, last) && Step(cl, last, arg).failure.None?
    ensures var r := Step(cl, last, arg);
      Feed(cl, last, [arg] + rest) == Feed(r.cl, r.last, rest)
  {
    assert ([arg] + rest)[1..] == rest;
  }

  /** A list of one argument is that argument's step. */
  lemma FeedSingle<T>(cl: CommandLine<T>, last: Option<Token>, arg: string)
    requires Linked(cl) && KnownLast(cl, last)
    ensures Feed(cl, last, [arg]) == Step(cl, last, arg)
  {
    assert [arg][1..] == [];
  }

  /** In the option phase an argument is the processing of its tokens. */
  lemma SingleArgumentTokens<T>(cl: CommandLine<T>, arg: string, ts: seq<Token>)
    requires Linked(cl) && cl.phase == OptionPhase
    requires Create(arg, View(cl)) == Success(ts)
    ensures forall k :: 0 <= k < |ts| ==> Known(cl, ts[k])
    ensures Step(cl, None, arg) == ProcessTokens(cl, ts, None)
  {}

  /** A token that does not fail hands the rest of the list to the next
      iteration. */
  lemma ProcessTokensStep<T>(cl: CommandLine<T>, ts: seq<Token>, last: Option<Token>)
    requires Linked(cl) && |ts| >= 1 && forall k :: 0 <= k < |ts| ==> Known(cl, ts[k])
    requires ProcessToken(cl, ts[0]).failure.None?
    ensures var r := ProcessToken(cl, ts[0]);
      && (forall k :: 0 <= k < |ts| - 1 ==> Known(r.cl, ts[1..][k]))
      && ProcessTokens(cl, ts, last) == ProcessTokens(r.cl, ts[1..], r.last)
  {
    var r := ProcessToken(cl, ts[0]);
    assert r.cl.reg == cl.reg;
    forall k | 0 <= k < |ts| - 1 ensures Known(r.cl, ts[1..][k]) {
      assert ts[1..][k] == ts[k + 1] && Known(cl, ts[k + 1]);
    }
  }

  /** A list of one token is that token's iteration. */
  lemma ProcessTokensSingle<T>(cl: CommandLine<T>, t: Token, last: Option<Token>)
    requires Linked(cl) && Known(cl, t)
    ensures ProcessTokens(cl, [t], last) == ProcessToken(cl, t)
  {
    assert [t][0] == t && [t][1..] == [];
  }

  /** In the option phase an argument read as a single token is that
      token's step. */
  lemma SingleTokenStep<T>(cl: CommandLine<T>, last: Option<Token>, arg: string, t: Token)
    requires Linked(cl) && KnownLast(cl, last) && cl.phase == OptionPhase
    requires Create(arg, View(cl)) == Success([t])
    ensures Known(cl, t) && Step(cl, last, arg) == ProcessToken(cl, t)
  {
    assert [t][0] == t;
    assert ProcessTokens(cl, [t], None) == ProcessToken(cl, t);
  }

  /** An option token carrying a parameter: a flag refuses it under the
      token's text; a parameterised option that accepts it holds the
      converted value. */
  lemma OptionParameterStep<T>(cl: CommandLine<T>, t: Token)
    requires Linked(cl) && Known(cl, t) && t.IsOptionToken() && t.parameter.Some?
    ensures var r := ProcessToken(cl, t);
      && r.cl.phase == cl.phase && r.cl.arguments == cl.arguments
      && (OptionOf(cl, t.name).SimpleOption? ==> r.failure == Some(ParseErrors.ForbiddenParameter(t.unparsedText)))
      && (OptionOf(cl, t.name).ParameterOption? ==>
            && (r.failure.None? <==> OptionOf(cl, t.name).parameter.convert(t.parameter.value).Success?)
            && (r.failure.None? ==>
                  OptionOf(r.cl, t.name).Value() == Options.Given(OptionOf(cl, t.name).parameter.convert(t.parameter.value).value)))
  {
    var id := cl.reg.index[t.name];
    var cl1 := cl.(opts := cl.opts[id := cl.opts[id].MarkPresent()]);
    assert OptionOf(cl1, t.name) == cl.opts[id].MarkPresent();
  }

  /** An option token whose parameter the option's conversion rejects with
      an exception of type `ty` ends the step with that exception,
      untranslated. */
  lemma ConversionExceptionEscapes<T>(cl: CommandLine<T>, t: Token, ty: string)
    requires Linked(cl) && Known(cl, t) && t.IsOptionToken() && t.parameter.Some?
    requires OptionOf(cl, t.name).ParameterOption?
    requires OptionOf(cl, t.name).parameter.convert(t.parameter.value) == Failure(Parameters.OtherException(ty))
    ensures ProcessToken(cl, t).failure == Some(Uncaught(ty))
  {
    var id := cl.reg.index[t.name];
    var cl1 := cl.(opts := cl.opts[id := cl.opts[id].MarkPresent()]);
    assert OptionOf(cl1, t.name) == cl.opts[id].MarkPresent();
  }

  /** A pending required parameter takes the next argument as it is, even
      when that argument is `--` or looks like an option; the phase returns
      to options, the last token becomes null, nothing is collected. */
  lemma RequiredParameterTakesNextArgument<T>(cl: CommandLine<T>, t: Token, arg: string)
    requires Linked(cl) && cl.phase == WaitingForArgument
    requires t.IsOptionToken() && t.name in cl.reg.index && OptionOf(cl, t.name).IsParameterRequired()
    ensures var r := Step(cl, Some(t), arg);
      && r.cl.phase == OptionPhase && r.last.None? && r.cl.arguments == cl.arguments
      && (r.failure.None? <==> OptionOf(cl, t.name).parameter.convert(arg).Success?)
      && (r.failure.None? ==> OptionOf(r.cl, t.name).Value() == Options.Given(OptionOf(cl, t.name).parameter.convert(arg).value))
      && (r.failure.Some? ==> r.cl == cl.(phase := OptionPhase))
  {
  }

  /** A pending optional parameter never takes the next argument: that
      argument is parsed afresh, so a plain one is collected and the
      option keeps its value. */
  lemma OptionalParameterLeavesNextArgument<T>(cl: CommandLine<T>, t: Token, arg: string)
    requires Linked(cl) && cl.phase == WaitingForArgument
    requires t.IsOptionToken() && t.name in cl.reg.index && !OptionOf(cl, t.name).IsParameterRequired()
    ensures Step(cl, Some(t), arg) == ParseOption(cl.(phase := OptionPhase), arg)
    ensures IsPlain(arg) ==> Step(cl, Some(t), arg).cl == cl.(phase := OptionPhase, arguments := cl.arguments + [arg])
  {
    var cl1 := cl.(phase := OptionPhase);
    if IsPlain(arg) {
      PlainArgumentCollected(cl1, None, arg);
    }
  }

  /** A pending optional parameter is transparent to a non-empty rest of
      the list: it is parsed as though the option had been given without
      one. (An empty rest leaves the parser waiting.) */
  lemma PendingOptionalTransparent<T>(cl: CommandLine<T>, t: Token, args: seq<string>)
    requires Linked(cl) && cl.phase == WaitingForArgument && |args| >= 1
    requires t.IsOptionToken() && t.name in cl.reg.index && !OptionOf(cl, t.name).IsParameterRequired()
    ensures Feed(cl, Some(t), args) == Feed(cl.(phase := OptionPhase), None, args)
  {
    OptionalParameterLeavesNextArgument(cl, t, args[0]);

  }

  /** `--name=value` for a registered long name hands exactly `value` to
      the option: a flag refuses it, a parameterised option converts it. */
  lemma LongOptionWithValue<T>(cl: CommandLine<T>, last: Option<Token>, n: string, v: string)
    requires Linked(cl) && KnownLast(cl, last) && cl.phase == OptionPhase
    requires IsLongName(n) && n in cl.reg.index
    ensures var arg := "--" + n + "=" + v;
      var r := Step(cl, last, arg);
      && r.cl.phase == OptionPhase && r.cl.arguments == cl.arguments
      && (OptionOf(cl, n).SimpleOption? ==> r.failure == Some(ParseErrors.ForbiddenParameter(arg)))
      && (OptionOf(cl, n).ParameterOption? ==>
            && (r.failure.None? <==> OptionOf(cl, n).parameter.convert(v).Success?)
            && (r.failure.None? ==> OptionOf(r.cl, n).Value() == Options.Given(OptionOf(cl, n).parameter.convert(v).value)))
  {
    var arg := "--" + n + "=" + v;
    var t := LongOptionToken(arg, n, Some(v));
    assert Create(arg, View(cl)) == Success([t]) by {
      LongOptionReadsBack(n, Some(v), View(cl));
      Text.ConcatAssociates("--" + n, "=", v);
    }
    ParameterTokenStep(cl, last, arg, t);
  }

  /** An argument read as one option token with a parameter: the step is
      that token's, with the facts of OptionParameterStep. */
  lemma ParameterTokenStep<T>(cl: CommandLine<T>, last: Option<Token>, arg: string, t: Token)
    requires Linked(cl) && KnownLast(cl, last) && cl.phase == OptionPhase
    requires Create(arg, View(cl)) == Success([t]) && t.IsOptionToken() && t.parameter.Some?
    ensures t.name in cl.reg.index
    ensures var r := Step(cl, last, arg);
      && r.cl.phase == cl.phase && r.cl.arguments == cl.arguments
      && (OptionOf(cl, t.name).SimpleOption? ==> r.failure == Some(ParseErrors.ForbiddenParameter(t.unparsedText)))
      && (OptionOf(cl, t.name).ParameterOption? ==>
            && (r.failure.None? <==> OptionOf(cl, t.name).parameter.convert(t.parameter.value).Success?)
            && (r.failure.None? ==>
                  OptionOf(r.cl, t.name).Value() == Options.Given(OptionOf(cl, t.name).parameter.convert(t.parameter.value).value)))
  {
    SingleTokenStep(cl, last, arg, t);
    OptionParameterStep(cl, t);
  }

  /** `--name` for a registered long name marks the option present and,
      when it has a parameter, waits for it. */
  lemma LongOptionAlone<T>(cl: CommandLine<T>, last: Option<Token>, n: string)
    requires Linked(cl) && KnownLast(cl, last) && cl.phase == OptionPhase
    requires IsLongName(n) && n in cl.reg.index
    ensures var r := Step(cl, last, "--" + n);
      && r.failure.None? && r.last == Some(LongOptionToken("--" + n, n, None))
      && OptionOf(r.cl, n).isPresent && r.cl.arguments == cl.arguments
      && r.cl.phase == (if OptionOf(cl, n).HasParameter() then WaitingForArgument else OptionPhase)
  {
    var arg := "--" + n;
    var t := LongOptionToken(arg, n, None);
    assert Create(arg, View(cl)) == Success([t]) by {
      LongOptionReadsBack(n, None, View(cl));
      assert "--" + n + "" == arg;
    }
    SingleTokenStep(cl, last, arg, t);
  }

  /** A parse that ends while a required parameter is pending reports it
      under the option's name as written; an optional one is not an error. */
  lemma EndWhileWaiting<T>(cl: CommandLine<T>, t: Token)
    requires Linked(cl) && cl.phase == WaitingForArgument && t.IsOptionToken() && t.name in cl.reg.index
    ensures CheckParserFinalState(cl, Some(t)) ==
              if OptionOf(cl, t.name).IsParameterRequired() then Some(MissingParameter(t.name)) else None
  {}

  /** Phase carries over between calls: a second Parse that starts while
      waiting has no last token, so its first argument is an internal
      error and an empty list dereferences null. */
  lemma ParseAgainWhileWaiting<T>(cl: CommandLine<T>, args: seq<string>)
    requires Valid(cl) && cl.phase == WaitingForArgument
    ensures |args| >= 1 ==> Parse(cl, args) == (cl, Some(LastTokenNull))
    ensures |args| == 0 ==> Parse(cl, args) == (cl, Some(NullReference))
  {}

  /** With every required option present and no pending parameter, Parse
      succeeds; the first unsatisfied option in registration order is
      reported otherwise. */
  lemma ParseReportsFirstMissing<T>(cl: CommandLine<T>, args: seq<string>)
    requires Valid(cl)
    requires Feed(cl, None, args).failure.None? && Feed(cl, None, args).cl.phase != WaitingForArgument
    ensures var c := Parse(cl, args).0;
      && (Parse(cl, args).1.None? <==> forall i :: 0 <= i < |c.reg.order| ==> Satisfied(c, c.reg.order[i]))
      && (Parse(cl, args).1.Some? ==> Parse(cl, args).1 == CheckRequiredOptions(c))
  {}
}
