/** The library's own parse examples, stated for any command line
    configured the way each example configures it. */
module Scenarios {
  import opened Wrappers
  import opened Tokens
  import Options
  import opened Parameters
  import opened ParseErrors
  import opened CommandLine
  import opened ParseFacts
  import Text
  import Int32Text

  /** `n` is a flag (an option without parameter). */
  predicate IsFlag<T>(cl: CommandLine<T>, n: string)
    requires Linked(cl)
  {
    n in cl.reg.index && OptionOf(cl, n).SimpleOption?
  }

  /** `n` has a string parameter, required or not as `required` says. */
  ghost predicate HasStringParameter(cl: CommandLine<string>, n: string, required: bool)
    requires Linked(cl)
  {
    && n in cl.reg.index && OptionOf(cl, n).ParameterOption?
    && OptionOf(cl, n).parameter.isRequired == required
    && forall s :: OptionOf(cl, n).parameter.convert(s) == StringConvert(s)
  }

  /** `n` has an IntParameter-style parameter. */
  ghost predicate HasIntParameter(cl: CommandLine<int>, n: string, required: bool)
    requires Linked(cl)
  {
    && n in cl.reg.index && OptionOf(cl, n).ParameterOption?
    && OptionOf(cl, n).parameter.isRequired == required
    && forall s :: OptionOf(cl, n).parameter.convert(s) == IntConvert(s)
  }

  /** How `-abcd` is cut when a and b take no parameter and c takes one. */
  lemma AbcdTokens(v: OptionView)
    requires "a" in v && !v["a"] && "b" in v && !v["b"] && "c" in v && v["c"]
    ensures Create("-abcd", v) == Success([ShortOptionToken("-abcd", "a", None),
                                           ShortOptionToken("-abcd", "b", None),
                                           ShortOptionToken("-abcd", "c", Some("d"))])
  {
    var arg := "-abcd";
    assert arg[1] == 'a' && arg[2] == 'b' && arg[3] == 'c' && [arg[1]] == "a" && [arg[2]] == "b" && [arg[3]] == "c";
    assert arg[4..] == "d";
    assert Cluster(arg, 3, v) == Success([ShortOptionToken(arg, "c", Some("d"))]);
    assert Cluster(arg, 2, v) == Success([ShortOptionToken(arg, "b", None)] + Cluster(arg, 3, v).value);
    assert Cluster(arg, 1, v) == Success([ShortOptionToken(arg, "a", None)] + Cluster(arg, 2, v).value);
    assert MatchesShortOption(arg) && !MatchesIllegalOption(arg) && arg != "--";
    assert [ShortOptionToken(arg, "a", None)] + ([ShortOptionToken(arg, "b", None)] + [ShortOptionToken(arg, "c", Some("d"))])
        == [ShortOptionToken(arg, "a", None), ShortOptionToken(arg, "b", None), ShortOptionToken(arg, "c", Some("d"))];
  }

  /** A flag token marks its option present and leaves every other
      option, the phase and the arguments alone. */
  lemma FlagToken<T>(cl: CommandLine<T>, t: Token)
    requires Linked(cl) && t.IsOptionToken() && t.parameter.None? && t.name in cl.reg.index
    requires OptionOf(cl, t.name).SimpleOption?
    ensures var r := ProcessToken(cl, t);
      && r.failure.None? && r.cl.phase == cl.phase && r.cl.arguments == cl.arguments && r.cl.reg == cl.reg
      && r.cl.opts == cl.opts[cl.reg.index[t.name] := OptionOf(cl, t.name).(isPresent := true)]
  {}

  /** A token carrying a parameter its option converts without error. */
  lemma ParameterToken<T>(cl: CommandLine<T>, t: Token)
    requires Linked(cl) && t.IsOptionToken() && t.parameter.Some? && t.name in cl.reg.index
    requires OptionOf(cl, t.name).ParameterOption?
    requires OptionOf(cl, t.name).parameter.convert(t.parameter.value).Success?
    ensures var r := ProcessToken(cl, t);
      && r.failure.None? && r.cl.phase == cl.phase && r.cl.arguments == cl.arguments && r.cl.reg == cl.reg
      && OptionOf(r.cl, t.name).isPresent
      && OptionOf(r.cl, t.name).Value() == Options.Given(OptionOf(cl, t.name).parameter.convert(t.parameter.value).value)
      && forall i :: 0 <= i < |cl.opts| && i != cl.reg.index[t.name] ==> r.cl.opts[i] == cl.opts[i]
  {}

  /** Three tokens are processed one after another. */
  lemma ThreeTokens<T>(cl: CommandLine<T>, t0: Token, t1: Token, t2: Token)
    requires Linked(cl) && Known(cl, t0) && Known(cl, t1) && Known(cl, t2)
    requires ProcessToken(cl, t0).failure.None?
    requires ProcessToken(ProcessToken(cl, t0).cl, t1).failure.None?
    ensures ProcessTokens(cl, [t0, t1, t2], None) ==
              ProcessToken(ProcessToken(ProcessToken(cl, t0).cl, t1).cl, t2)
  {
    var ts := [t0, t1, t2];
    var r1 := ProcessToken(cl, t0);
    assert ts[0] == t0 && ts[1..] == [t1, t2];
    ProcessTokensStep(cl, ts, None);
    var r2 := ProcessToken(r1.cl, t1);
    assert [t1, t2][0] == t1 && [t1, t2][1..] == [t2];
    ProcessTokensStep(r1.cl, [t1, t2], r1.last);
    ProcessTokensSingle(r2.cl, t2, r2.last);
  }

  /** `-abcd` with flags a and b and a string option c: all three are
      present and c holds "d". */
  lemma ClusterWithTrailingParameter(cl: CommandLine<string>)
    requires Linked(cl) && cl.phase == OptionPhase
    requires IsFlag(cl, "a") && IsFlag(cl, "b") && HasStringParameter(cl, "c", true)
    ensures var r := Feed(cl, None, ["-abcd"]);
      && r.failure.None? && r.cl.phase == OptionPhase && r.cl.arguments == cl.arguments
      && OptionOf(r.cl, "a").isPresent && OptionOf(r.cl, "b").isPresent && OptionOf(r.cl, "c").isPresent
      && OptionOf(r.cl, "c").Value() == Options.Given("d")
  {
    var arg := "-abcd";
    AbcdTokens(View(cl));
    var t0 := ShortOptionToken(arg, "a", None);
    var t1 := ShortOptionToken(arg, "b", None);
    var t2 := ShortOptionToken(arg, "c", Some("d"));
    var ia, ib, ic := cl.reg.index["a"], cl.reg.index["b"], cl.reg.index["c"];
    assert ic != ia && ic != ib;
    var r1 := ProcessToken(cl, t0);
    var r2 := ProcessToken(r1.cl, t1);
    assert r2.failure.None? && r2.cl.phase == OptionPhase && r2.cl.arguments == cl.arguments && r2.cl.reg == cl.reg
        && r2.cl.opts[ic] == cl.opts[ic] && r2.cl.opts[ia].isPresent && r2.cl.opts[ib].isPresent by {
      FlagToken(cl, t0);
      FlagToken(r1.cl, t1);
    }
    var r3 := ProcessToken(r2.cl, t2);
    assert r3.failure.None? && r3.cl.phase == OptionPhase && r3.cl.arguments == cl.arguments
        && r3.cl.opts[ia].isPresent && r3.cl.opts[ib].isPresent && r3.cl.opts[ic].isPresent
        && r3.cl.opts[ic].Value() == Options.Given("d") by {
      assert cl.opts[ic].parameter.convert("d") == Success("d");
      ParameterToken(r2.cl, t2);
    }
    assert Feed(cl, None, [arg]) == r3 by {
      SingleArgumentTokens(cl, arg, [t0, t1, t2]);
      ThreeTokens(cl, t0, t1, t2);
      FeedSingle(cl, None, arg);
    }
  }

  /** `-fa` with only f registered: a is not defined. */
  lemma UndefinedInCluster<T>(cl: CommandLine<T>)
    requires Linked(cl) && cl.phase == OptionPhase
    requires IsFlag(cl, "f") && "a" !in cl.reg.index
    ensures Feed(cl, None, ["-fa"]).failure == Some(Tokenizer(UndefinedOption("a")))
  {
    var arg := "-fa";
    assert [arg[1]] == "f" && [arg[2]] == "a";
    assert Create(arg, View(cl)) == Failure(UndefinedOption("a"));
  }

  /** `-xV...` for a parameterised short option x: one token with the
      rest as its parameter. */
  lemma InlineTokens(v: OptionView, x: char, rest: string)
    requires [x] in v && v[[x]] && NameStart(x) && |rest| >= 1
    ensures var arg := ['-', x] + rest;
      Create(arg, v) == Success([ShortOptionToken(arg, [x], Some(rest))])
  {
    var arg := ['-', x] + rest;
    assert arg[1] == x && arg[2..] == rest;
    assert MatchesShortOption(arg) && !MatchesIllegalOption(arg) && arg != "--";
  }

  /** A text ending in a letter is no integer. */
  lemma IntConvertRejects(s: string)
    requires |s| >= 1 && s[|s| - 1] == 'a'
    ensures IntConvert(s) == Failure(OtherException("System.Exception"))
  {
    assert !Text.IsDigit('a');
  }

  lemma Parse233()
    ensures Int32Text.TryParse("233") == Some(233)
  {
    Int32Text.TryParseToString(233);
    assert Int32Text.ToString(233) == "233";
  }

  /** `-i233` with an integer option i: i holds 233. */
  lemma InlineIntParameter(cl: CommandLine<int>, required: bool)
    requires Linked(cl) && cl.phase == OptionPhase && HasIntParameter(cl, "i", required)
    ensures var r := Feed(cl, None, ["-i233"]);
      r.failure.None? && OptionOf(r.cl, "i").Value() == Options.Given(233) && OptionOf(r.cl, "i").isPresent
  {
    var arg := "-i233";
    var t := ShortOptionToken(arg, "i", Some("233"));
    InlineTokens(View(cl), 'i', "233");
    assert ['-', 'i'] + "233" == arg;
    Parse233();
    SingleTokenStep(cl, None, arg, t);
  }

  /** `-iaaa`: the integer conversion throws a bare exception, which the
      parser does not translate. */
  lemma InvalidIntEscapes(cl: CommandLine<int>)
    requires Linked(cl) && cl.phase == OptionPhase && HasIntParameter(cl, "i", true)
    ensures Feed(cl, None, ["-iaaa"]).failure == Some(Uncaught("System.Exception"))
    ensures ClassicException(Uncaught("System.Exception")) == ClassicEscaped("System.Exception")
  {
    var arg := "-iaaa";
    var t := ShortOptionToken(arg, "i", Some("aaa"));
    InlineTokens(View(cl), 'i', "aaa");
    assert [arg[0], arg[1]] + "aaa" == arg;
    IntConvertRejects("aaa");
    SingleTokenStep(cl, None, arg, t);
    ConversionExceptionEscapes(cl, t, "System.Exception");
    FeedSingle(cl, None, arg);
  }

  /** `-i` alone: a required parameter is reported missing; an optional
      one leaves the default. */
  lemma ShortOptionWithoutParameter(cl: CommandLine<int>, required: bool)
    requires Valid(cl) && cl.phase == OptionPhase && HasIntParameter(cl, "i", required)
    ensures required ==> Parse(cl, ["-i"]).1 == Some(MissingParameter("i"))
    ensures !required ==> OptionOf(Parse(cl, ["-i"]).0, "i").Value() == OptionOf(cl, "i").Value()
    ensures OptionOf(Parse(cl, ["-i"]).0, "i").isPresent
  {
    var t := ShortOptionToken("-i", "i", None);
    assert ['-', 'i'] == "-i" && ['i'] == "i";
    PendingShortOption(cl, 'i');
    FeedSingle(cl, None, "-i");
    var run := Feed(cl, None, ["-i"]);
    assert run.last == Some(t) && run.failure.None? && run.cl.phase == WaitingForArgument;
    EndWhileWaiting(run.cl, t);
  }

  /** Arguments with no option shape are all collected, in order. */
  lemma OnlyProgramArguments<T>(cl: CommandLine<T>)
    requires Linked(cl) && cl.phase == OptionPhase
    ensures Feed(cl, None, ["334", "28", "a"]).cl.arguments == cl.arguments + ["334", "28", "a"]
  {
    var args := ["334", "28", "a"];
    assert IsPlain(args[0]) && IsPlain(args[1]) && IsPlain(args[2]);
    PlainArgumentsCollected(cl, None, args);
  }

  /** `-x` alone for a registered x: one token without parameter. */
  lemma ShortAloneTokens(v: OptionView, x: char)
    requires [x] in v && NameStart(x)
    ensures Create(['-', x], v) == Success([ShortOptionToken(['-', x], [x], None)])
  {
    var arg := ['-', x];
    assert MatchesShortOption(arg) && !MatchesIllegalOption(arg) && arg != "--";
    assert [arg[1]] == [x];
    assert Cluster(arg, 2, v) == Success([]);
    assert [ShortOptionToken(arg, [x], None)] + [] == [ShortOptionToken(arg, [x], None)];
  }

  /** `-x` for a parameterised option: present, and waiting. */
  lemma PendingShortOption<T>(cl: CommandLine<T>, x: char)
    requires Linked(cl) && cl.phase == OptionPhase && [x] in cl.reg.index && NameStart(x)
    requires OptionOf(cl, [x]).ParameterOption?
    ensures Step(cl, None, ['-', x]) ==
              Run(cl.(opts := cl.opts[cl.reg.index[[x]] := OptionOf(cl, [x]).(isPresent := true)], phase := WaitingForArgument),
                  Some(ShortOptionToken(['-', x], [x], None)), None)
  {
    var t := ShortOptionToken(['-', x], [x], None);
    ShortAloneTokens(View(cl), x);
    SingleTokenStep(cl, None, ['-', x], t);
  }

  /** `-x` for an optional-parameter option at the head of a list hands
      the pending state to the rest of the list. */
  lemma OptionalShortPending<T>(cl: CommandLine<T>, x: char, rest: seq<string>)
    requires Linked(cl) && cl.phase == OptionPhase && [x] in cl.reg.index && NameStart(x)
    requires OptionOf(cl, [x]).ParameterOption?
    ensures var cl1 := cl.(opts := cl.opts[cl.reg.index[[x]] := OptionOf(cl, [x]).(isPresent := true)],
                           phase := WaitingForArgument);
      && Linked(cl1)
      && Feed(cl, None, [['-', x]] + rest) == Feed(cl1, Some(ShortOptionToken(['-', x], [x], None)), rest)
  {
    var t := ShortOptionToken(['-', x], [x], None);
    var cl1 := cl.(opts := cl.opts[cl.reg.index[[x]] := OptionOf(cl, [x]).(isPresent := true)], phase := WaitingForArgument);
    assert Step(cl, None, ['-', x]) == Run(cl1, Some(t), None) by { PendingShortOption(cl, x); }
    FeedCons(cl, None, ['-', x], rest);
  }

  /** While an optional parameter is pending, a run of plain arguments is
      collected whole and the option phase resumes. */
  lemma PendingThenArguments<T>(cl: CommandLine<T>, t: Token, rest: seq<string>)
    requires Linked(cl) && cl.phase == WaitingForArgument
    requires |rest| >= 1 && forall i :: 0 <= i < |rest| ==> IsPlain(rest[i])
    requires t.IsOptionToken() && t.name in cl.reg.index && !OptionOf(cl, t.name).IsParameterRequired()
    ensures Feed(cl, Some(t), rest).failure.None?
    ensures Feed(cl, Some(t), rest).cl == cl.(phase := OptionPhase, arguments := cl.arguments + rest)
  {
    PendingOptionalTransparent(cl, t, rest);
    PlainArgumentsCollected(cl.(phase := OptionPhase), None, rest);
  }

  /** `-i 334 28 a` with an optional parameter, and generally `-x`
      followed by plain arguments: none of them is taken as the parameter,
      all are collected, and x keeps its value. */
  lemma OptionalShortThenArguments<T>(cl: CommandLine<T>, x: char, rest: seq<string>)
    requires Linked(cl) && cl.phase == OptionPhase && [x] in cl.reg.index && NameStart(x)
    requires OptionOf(cl, [x]).ParameterOption? && !OptionOf(cl, [x]).IsParameterRequired()
    requires |rest| >= 1 && forall i :: 0 <= i < |rest| ==> IsPlain(rest[i])
    ensures var r := Feed(cl, None, [['-', x]] + rest);
      && r.failure.None? && r.cl.arguments == cl.arguments + rest
      && OptionOf(r.cl, [x]).isPresent && OptionOf(r.cl, [x]).Value() == OptionOf(cl, [x]).Value()
  {
    var t := ShortOptionToken(['-', x], [x], None);
    var cl1 := cl.(opts := cl.opts[cl.reg.index[[x]] := OptionOf(cl, [x]).(isPresent := true)], phase := WaitingForArgument);
    OptionalShortPending(cl, x, rest);
    PendingThenArguments(cl1, t, rest);
  }
}
