/** The tokenizer: classification of one raw command-line argument into
    division, clustered short options, a long option or a plain argument,
    and the validation of option names. */
module Tokens {
  import opened Wrappers
  import opened Text

  datatype TokenType = Division | ShortOption | LongOption | ProgramArgument {
    /** Short and long options are options; the other kinds are not. */
    predicate IsOption() {
      ShortOption? || LongOption?
    }
  }

  /** One token produced from an argument; `unparsedText` is always the
      whole argument it was cut from. */
  datatype Token =
    | DivisionToken(unparsedText: string)
    | ShortOptionToken(unparsedText: string, name: string, parameter: Option<string>)
    | LongOptionToken(unparsedText: string, name: string, parameter: Option<string>)
    | ProgramArgumentToken(unparsedText: string, programArgument: string)
  {
    function Type(): TokenType {
      match this
      case DivisionToken(_) => Division
      case ShortOptionToken(_, _, _) => ShortOption
      case LongOptionToken(_, _, _) => LongOption
      case ProgramArgumentToken(_, _) => ProgramArgument
    }

    predicate IsOptionToken() {
      ShortOptionToken? || LongOptionToken?
    }
  }

  /** What the tokenizer needs to know of the option registry: every
      registered name, mapped to whether its option has a parameter. */
  type OptionView = map<string, bool>

  datatype CreateError = IllegalOption(argument: string) | UndefinedOption(name: string)

  function CreateErrorMessage(e: CreateError): string {
    match e
    case IllegalOption(a) => "Ilegal option: " + a
    case UndefinedOption(n) => "Option: " + n + " is not defined."
  }

  datatype NameError = NullName | InvalidName(name: string)

  function NameErrorMessage(e: NameError): string {
    match e
    case NullName => "An Option name can not be null."
    case InvalidName(n) => "Option name: " + n + " is invalid"
  }

  // Character classes of the name patterns: `[^-=\s]` and `[^=\s]`.
  predicate NameStart(c: char) { c != '-' && c != '=' && !IsWhitespace(c) }
  predicate NameRest(c: char) { c != '=' && !IsWhitespace(c) }

  /** `[^-=\s]+` covering the whole text. */
  predicate ShortNameBody(n: string) {
    |n| >= 1 && forall i :: 0 <= i < |n| ==> NameStart(n[i])
  }

  /** `[^-=\s][^=\s]+` covering the whole text. */
  predicate LongNameBody(n: string) {
    |n| >= 2 && NameStart(n[0]) && forall i :: 1 <= i < |n| ==> NameRest(n[i])
  }

  /** `^[^-=\s]+$`. Without the multi-line option `$` also matches before a
      line feed that ends the text, so one trailing line feed is accepted. */
  predicate MatchesShortName(n: string) {
    || ShortNameBody(n)
    || (|n| >= 1 && n[|n| - 1] == '\n' && ShortNameBody(n[..|n| - 1]))
  }

  /** `^[^-=\s][^=\s]+$`, with the same trailing line feed accepted. */
  predicate MatchesLongName(n: string) {
    || LongNameBody(n)
    || (|n| >= 1 && n[|n| - 1] == '\n' && LongNameBody(n[..|n| - 1]))
  }

  /** `^-[^-=\s]+` (an unanchored tail, so only a prefix is tested) */
  predicate MatchesShortOption(a: string) {
    |a| >= 2 && a[0] == '-' && NameStart(a[1])
  }

  /** `^--[^-=\s][^=\s]+` followed by anything */
  predicate MatchesLongOption(a: string) {
    |a| >= 4 && a[0] == '-' && a[1] == '-' && NameStart(a[2]) && NameRest(a[3])
  }

  /** `(^--[^-=\s]$)|(^--(-)+)`: a one-character long option, also with a
      final line feed that `$` lets through, or three or more dashes. */
  predicate MatchesIllegalOption(a: string) {
    || (|a| == 3 && a[0] == '-' && a[1] == '-' && NameStart(a[2]))
    || (|a| == 4 && a[0] == '-' && a[1] == '-' && NameStart(a[2]) && a[3] == '\n')
    || (|a| >= 3 && a[0] == '-' && a[1] == '-' && a[2] == '-')
  }

  /** The documented rule for option names: non-empty, not starting with
      `-`, `=` or whitespace, and free of `=` and whitespace. */
  predicate IsValidName(n: string) {
    |n| >= 1 && n[0] != '-' && forall i :: 0 <= i < |n| ==> NameRest(n[i])
  }

  /** The names registration lets through: a valid name, or a valid name
      followed by one line feed that ends it. */
  predicate IsAcceptedName(n: string) {
    || IsValidName(n)
    || (|n| >= 2 && n[|n| - 1] == '\n' && IsValidName(n[..|n| - 1]))
  }

  /** The two name patterns together accept exactly the accepted names. */
  lemma NamePatternsAcceptValidNames(n: string)
    ensures MatchesLongName(n) || MatchesShortName(n) <==> IsAcceptedName(n)
  {
    if |n| >= 2 {
      assert ShortNameBody(n) ==> LongNameBody(n);
    }
    if |n| >= 3 && n[|n| - 1] == '\n' {
      var m := n[..|n| - 1];
      assert ShortNameBody(m) ==> LongNameBody(m);
    }
  }

  /** A valid name with a line feed appended is accepted, although the line
      feed is whitespace and the name no longer valid. */
  lemma TrailingLineFeedAccepted(n: string)
    requires IsValidName(n)
    ensures IsAcceptedName(n + "\n") && !IsValidName(n + "\n")
  {
    assert (n + "\n")[..|n|] == n;
    assert !NameRest((n + "\n")[|n|]);
  }

  /** An accepted name that `--` turns into a long option: two or more
      characters, the second one a name character. Of the accepted names of
      two or more characters, only a character followed by the final line
      feed falls outside. */
  predicate IsLongName(n: string) {
    IsAcceptedName(n) && |n| >= 2 && NameRest(n[1])
  }

  /** Registration-time check of a (possibly null) option name. */
  function CheckName(name: Option<string>): (r: Outcome<NameError>)
    ensures r.Pass? <==> name.Some? && IsAcceptedName(name.value)
    ensures name.None? ==> r == Fail(NullName)
    ensures r.Fail? && name.Some? ==> r == Fail(InvalidName(name.value))
  {
    match name
    case None => Fail(NullName)
    case Some(n) =>
      NamePatternsAcceptValidNames(n);
      if MatchesLongName(n) || MatchesShortName(n) then Pass else Fail(InvalidName(n))
  }

  /** Short options clustered in `arg` from position `i` on: each character
      is one option; the first one that takes a parameter absorbs the rest
      of the argument as its parameter and ends the cluster. */
  function Cluster(arg: string, i: nat, view: OptionView): (r: Result<seq<Token>, CreateError>)
    requires 1 <= i <= |arg|
    ensures r.Success? ==> (i < |arg| <==> |r.value| >= 1)
    ensures r.Success? ==> forall k :: 0 <= k < |r.value| ==>
              && r.value[k].ShortOptionToken? && r.value[k].unparsedText == arg
              && |r.value[k].name| == 1 && r.value[k].name in view
    decreases |arg| - i
  {
    if i == |arg| then Success([])
    else
      var n := [arg[i]];
      if n !in view then Failure(UndefinedOption(n))
      else if view[n] then
        Success([ShortOptionToken(arg, n, if i + 1 < |arg| then Some(arg[i + 1..]) else None)])
      else
        var rest :- Cluster(arg, i + 1, view);
        Success([ShortOptionToken(arg, n, None)] + rest)
  }

  /** A long option cut at its first `=`: the name lies between `--` and
      the `=`, the parameter after it; with no `=` there is no parameter. */
  function SplitLong(arg: string): (r: (string, Option<string>))
    requires |arg| >= 2 && arg[0] == '-' && arg[1] == '-'
    ensures '=' !in r.0
    ensures r.1.None? <==> '=' !in arg
    ensures arg == "--" + r.0 + (if r.1.Some? then "=" + r.1.value else "")
  {
    var k := IndexOf(arg, '=');
    if k >= 0 then
      assert k >= 2 by {
        assert arg[k] == '=';
      }
      var name := arg[2..k];
      assert '=' !in name by {
        assert forall m :: 0 <= m < |name| ==> name[m] == arg[..k][m + 2];
      }
      assert arg == "--" + name + "=" + arg[k + 1..];
      (name, Some(arg[k + 1..]))
    else
      assert arg == "--" + arg[2..];
      (arg[2..], None)
  }

  /** Token.Create: the tokens of one raw argument. */
  function Create(arg: string, view: OptionView): (r: Result<seq<Token>, CreateError>)
    ensures r.Success? ==> |r.value| >= 1
    ensures r.Success? ==> forall k :: 0 <= k < |r.value| ==> r.value[k].unparsedText == arg
    ensures r.Success? ==> forall k :: 0 <= k < |r.value| && r.value[k].IsOptionToken() ==>
                             r.value[k].name in view
    ensures r.Success? && (exists k :: 0 <= k < |r.value| && r.value[k].DivisionToken?) ==>
              arg == "--" && r.value == [DivisionToken(arg)]
    ensures r.Success? && (exists k :: 0 <= k < |r.value| && r.value[k].ProgramArgumentToken?) ==>
              r.value == [ProgramArgumentToken(arg, arg)]
    ensures r.Success? && MatchesShortOption(arg) ==> forall k :: 0 <= k < |r.value| ==> r.value[k].ShortOptionToken?
  {
    if arg == "--" then Success([DivisionToken(arg)])
    else if MatchesIllegalOption(arg) then Failure(IllegalOption(arg))
    else if MatchesShortOption(arg) then
      Cluster(arg, 1, view)
    else if MatchesLongOption(arg) then
      var (name, parameter) := SplitLong(arg);
      if name !in view then Failure(UndefinedOption(name))
      else Success([LongOptionToken(arg, name, parameter)])
    else Success([ProgramArgumentToken(arg, arg)])
  }

  // ----- Facts about the tokenizer -----

  /** Concatenation of the option names of a token list. */
  function Names(ts: seq<Token>): string {
    if ts == [] then "" else (if ts[0].IsOptionToken() then ts[0].name else "") + Names(ts[1..])
  }

  /** The inline parameter of a token, or "" when it has none. */
  function InlineText(t: Token): string {
    if t.IsOptionToken() && t.parameter.Some? then t.parameter.value else ""
  }

  /** Exactly `--` is a division, whatever is registered. */
  lemma DivisionIsFirst(view: OptionView)
    ensures Create("--", view) == Success([DivisionToken("--")])
  {}

  /** `--x`, `--x` followed by a line feed, and anything starting with
      `---` are rejected outright. */
  lemma IllegalOptionsRejected(arg: string, view: OptionView)
    requires || (|arg| == 3 && arg[..2] == "--" && NameStart(arg[2]))
             || (|arg| == 4 && arg[..2] == "--" && NameStart(arg[2]) && arg[3] == '\n')
             || (|arg| >= 3 && arg[..3] == "---")
    ensures Create(arg, view) == Failure(IllegalOption(arg))
  {
    assert arg[0] == '-' && arg[1] == '-';
  }

  /** `--x=v` matches no option pattern and is a plain argument. */
  lemma OneCharLongWithValueIsPlain(x: char, v: string, view: OptionView)
    requires NameStart(x)
    ensures Create("--" + [x] + "=" + v, view) == Success([ProgramArgumentToken("--" + [x] + "=" + v, "--" + [x] + "=" + v)])
  {
    var a := "--" + [x] + "=" + v;
    assert a[0] == '-' && a[1] == '-' && a[2] == x && a[3] == '=';
  }

  /** The cluster stops at position `j`: every earlier character is a
      registered parameterless option and `arg[j]` is not registered. */
  predicate Blocked(arg: string, view: OptionView, i: nat, j: nat)
    requires i <= j < |arg|
  {
    && [arg[j]] !in view
    && forall k :: i <= k < j ==> [arg[k]] in view && !view[[arg[k]]]
  }

  lemma {:induction false} ClusterUndefined(arg: string, i: nat, view: OptionView)
    requires 1 <= i <= |arg|
    ensures Cluster(arg, i, view).Failure? <==> exists j :: i <= j < |arg| && Blocked(arg, view, i, j)
    ensures forall j :: i <= j < |arg| && Blocked(arg, view, i, j) ==>
              Cluster(arg, i, view) == Failure(UndefinedOption([arg[j]]))
    decreases |arg| - i
  {
    if i < |arg| {
      var n := [arg[i]];
      if n !in view {
        assert Blocked(arg, view, i, i);
      } else if view[n] {
        forall j | i <= j < |arg|
          ensures !Blocked(arg, view, i, j)
        {
          if j > i {
            assert !(n in view && !view[n]);
          }
        }
      } else {
        ClusterUndefined(arg, i + 1, view);
        forall j | i <= j < |arg|
          ensures Blocked(arg, view, i, j) <==> j > i && Blocked(arg, view, i + 1, j)
        {
        }
        var i1 := i + 1;
        if exists j :: i1 <= j < |arg| && Blocked(arg, view, i1, j) {
          var j :| i1 <= j < |arg| && Blocked(arg, view, i1, j);
          assert Blocked(arg, view, i, j);
        }
      }
    }
  }

  /** A short-option argument is rejected exactly when its cluster meets an
      unregistered character before any parameterised one, and the error
      names that character. */
  lemma ShortClusterUndefined(arg: string, view: OptionView)
    requires MatchesShortOption(arg)
    ensures Create(arg, view).Failure? <==> exists j :: 1 <= j < |arg| && Blocked(arg, view, 1, j)
    ensures forall j :: 1 <= j < |arg| && Blocked(arg, view, 1, j) ==>
              Create(arg, view) == Failure(UndefinedOption([arg[j]]))
  {
    ClusterUndefined(arg, 1, view);
  }

  lemma {:induction false} ClusterRoundTrip(arg: string, i: nat, view: OptionView)
    requires 1 <= i < |arg|
    requires Cluster(arg, i, view).Success?
    ensures var ts := Cluster(arg, i, view).value;
      |ts| >= 1 && Names(ts) + InlineText(ts[|ts| - 1]) == arg[i..]
    decreases |arg| - i
  {
    var n := [arg[i]];
    var ts := Cluster(arg, i, view).value;
    if view[n] || i + 1 == |arg| {
      var p := if view[n] && i + 1 < |arg| then Some(arg[i + 1..]) else None;
      assert ts == [ShortOptionToken(arg, n, p)];
      assert arg[i..] == n + InlineText(ShortOptionToken(arg, n, p)) by {
        if p.Some? {
          assert arg[i..] == n + arg[i + 1..];
        }
      }
      NamesSingle(ShortOptionToken(arg, n, p));
    } else {
      ClusterRoundTrip(arg, i + 1, view);
      ClusterFlagUnfolds(arg, i, view);
      ClusterFlagStep(arg, i, Cluster(arg, i + 1, view).value, ts);
    }
  }

  /** The inductive step of ClusterRoundTrip: a flag at `i` puts its name
      in front of what the rest of the cluster spells. */
  lemma ClusterFlagStep(arg: string, i: nat, rest: seq<Token>, ts: seq<Token>)
    requires i + 1 < |arg| && |rest| >= 1 && ts == [ShortOptionToken(arg, [arg[i]], None)] + rest
    requires Names(rest) + InlineText(rest[|rest| - 1]) == arg[i + 1..]
    ensures |ts| >= 1 && Names(ts) + InlineText(ts[|ts| - 1]) == arg[i..]
  {
    SliceCons(arg, i);
    NamesCons(ShortOptionToken(arg, [arg[i]], None), rest, arg[i + 1..], ts);
  }

  /** Cluster's flag branch. */
  lemma ClusterFlagUnfolds(arg: string, i: nat, view: OptionView)
    requires 1 <= i && i + 1 < |arg| && [arg[i]] in view && !view[[arg[i]]]
    requires Cluster(arg, i + 1, view).Success?
    ensures Cluster(arg, i, view) == Success([ShortOptionToken(arg, [arg[i]], None)] + Cluster(arg, i + 1, view).value)
  {}

  lemma SliceCons(s: string, i: nat)
    requires i < |s|
    ensures s[i..] == [s[i]] + s[i + 1..]
  {}

  lemma NamesSingle(t: Token)
    requires t.IsOptionToken()
    ensures Names([t]) + InlineText([t][0]) == t.name + InlineText(t)
  {
    assert [t][1..] == [];
  }

  /** A flag token in front of a token list puts its name in front of the
      list's names-and-inline-text. */
  lemma NamesCons(t: Token, rest: seq<Token>, tail: string, ts: seq<Token>)
    requires t.IsOptionToken() && |rest| >= 1 && ts == [t] + rest
    requires Names(rest) + InlineText(rest[|rest| - 1]) == tail
    ensures |ts| >= 1 && Names(ts) + InlineText(ts[|ts| - 1]) == t.name + tail
  {
    assert ts[0] == t && ts[1..] == rest && ts[|ts| - 1] == rest[|rest| - 1];
    assert Names(ts) == t.name + Names(rest);
    Text.ConcatAssociates(t.name, Names(rest), InlineText(rest[|rest| - 1]));
  }

  /** Cluster round trip: the option names in order, followed by the last
      token's inline parameter, spell the argument without its `-`. */
  lemma ShortClusterRoundTrip(arg: string, view: OptionView)
    requires MatchesShortOption(arg)
    requires Create(arg, view).Success?
    ensures var ts := Create(arg, view).value;
      Names(ts) + InlineText(ts[|ts| - 1]) == arg[1..]
  {
    ClusterRoundTrip(arg, 1, view);
  }

  lemma {:induction false} ClusterOnlyLastParameterised(arg: string, i: nat, view: OptionView)
    requires 1 <= i < |arg|
    requires Cluster(arg, i, view).Success?
    ensures var ts := Cluster(arg, i, view).value;
      forall k :: 0 <= k < |ts| - 1 ==> !view[ts[k].name] && ts[k].parameter.None?
    decreases |arg| - i
  {
    var n := [arg[i]];
    if !view[n] && i + 1 < |arg| {
      var ts := Cluster(arg, i, view).value;
      var rest := Cluster(arg, i + 1, view).value;
      ClusterOnlyLastParameterised(arg, i + 1, view);
      assert ts == [ShortOptionToken(arg, n, None)] + rest;
      assert forall k :: 1 <= k < |ts| ==> ts[k] == rest[k - 1];
    }
  }

  lemma {:induction false} ClusterLastParameter(arg: string, i: nat, view: OptionView)
    requires 1 <= i < |arg|
    requires Cluster(arg, i, view).Success?
    ensures var ts := Cluster(arg, i, view).value;
      |ts| >= 1 &&
      (ts[|ts| - 1].parameter.Some? ==> view[ts[|ts| - 1].name] && ts[|ts| - 1].parameter.value != "")
    decreases |arg| - i
  {
    var n := [arg[i]];
    if !view[n] && i + 1 < |arg| {
      var ts := Cluster(arg, i, view).value;
      var rest := Cluster(arg, i + 1, view).value;
      ClusterLastParameter(arg, i + 1, view);
      assert ts == [ShortOptionToken(arg, n, None)] + rest;
      assert ts[|ts| - 1] == rest[|rest| - 1];
    }
  }

  /** Cluster shape: only the last token may name a parameterised option; a
      parameter is present only when characters follow that option, so an
      option at the very end gets no parameter rather than "". */
  lemma ShortClusterShape(arg: string, view: OptionView)
    requires MatchesShortOption(arg)
    requires Create(arg, view).Success?
    ensures var ts := Create(arg, view).value;
      && (forall k :: 0 <= k < |ts| ==> ts[k].ShortOptionToken? && |ts[k].name| == 1 && ts[k].name in view)
      && (forall k :: 0 <= k < |ts| - 1 ==> !view[ts[k].name] && ts[k].parameter.None?)
      && (ts[|ts| - 1].parameter.Some? ==> view[ts[|ts| - 1].name] && ts[|ts| - 1].parameter.value != "")
      && (ts[|ts| - 1].parameter.None? ==> Names(ts) == arg[1..])
  {
    ClusterOnlyLastParameterised(arg, 1, view);
    ClusterLastParameter(arg, 1, view);
    ClusterRoundTrip(arg, 1, view);
  }

  /** Long option splitting: the name runs from after `--` to the first `=`
      and the parameter is everything after it; without `=` there is no
      parameter. The name must be registered. */
  lemma LongOptionSplit(arg: string, view: OptionView)
    requires MatchesLongOption(arg)
    ensures var r := Create(arg, view);
      && (r.Success? ==>
            && |r.value| == 1 && r.value[0].LongOptionToken?
            && '=' !in r.value[0].name
            && (r.value[0].parameter.None? <==> '=' !in arg)
            && arg == "--" + r.value[0].name +
                 (if r.value[0].parameter.Some? then "=" + r.value[0].parameter.value else ""))
      && (r.Failure? ==> (r.error.UndefinedOption? && r.error.name !in view && '=' !in r.error.name &&
            exists rest :: arg == "--" + r.error.name + rest && (rest == "" || rest[0] == '=')))
  {
    assert arg != "--" && !MatchesIllegalOption(arg) && !MatchesShortOption(arg);
    var (name, parameter) := SplitLong(arg);
    var rest := if parameter.Some? then "=" + parameter.value else "";
    assert arg == "--" + name + rest;
    assert rest == "" || rest[0] == '=';
  }

  /** Not `--`, not illegal, and shaped like neither kind of option. */
  predicate IsPlain(arg: string) {
    arg != "--" && !MatchesIllegalOption(arg) && !MatchesShortOption(arg) && !MatchesLongOption(arg)
  }

  /** A plain argument is one program-argument token carried verbatim. */
  lemma PlainArgumentVerbatim(arg: string, view: OptionView)
    requires IsPlain(arg)
    ensures Create(arg, view) == Success([ProgramArgumentToken(arg, arg)])
  {}

  /** Cutting at the first `=` is unambiguous. */
  lemma CutAtEquals(x: string, rx: string, y: string, ry: string)
    requires '=' !in x && '=' !in y
    requires (rx == "" || rx[0] == '=') && (ry == "" || ry[0] == '=')
    requires x + rx == y + ry
    ensures x == y && rx == ry
  {
    var s := x + rx;
    assert x == s[..|x|] && y == s[..|y|];
    assert rx == s[|x|..] && ry == s[|y|..];
  }

  /** `--name...` with a long name is classified as a long option. */
  lemma LongArgClassified(n: string, rest: string)
    requires IsLongName(n)
    ensures var arg := "--" + n + rest;
      arg != "--" && !MatchesIllegalOption(arg) && !MatchesShortOption(arg) && MatchesLongOption(arg)
  {
    var arg := "--" + n + rest;
    assert arg[2] == n[0] && arg[3] == n[1];
  }

  lemma CutAfterDashes(x: string, rx: string, y: string, ry: string)
    requires '=' !in x && '=' !in y
    requires (rx == "" || rx[0] == '=') && (ry == "" || ry[0] == '=')
    requires "--" + x + rx == "--" + y + ry
    ensures x == y && rx == ry
  {
    var s := "--" + x + rx;
    assert s[2..] == x + rx by {
      assert s == "--" + (x + rx);
    }
    assert s[2..] == y + ry by {
      assert s == "--" + (y + ry);
    }
    CutAtEquals(x, rx, y, ry);
  }

  /** `--` then an `=`-free name then nothing or `=...` is cut back into
      that name and the text after the `=`. */
  lemma SplitLongParts(n: string, rest: string)
    requires '=' !in n && (rest == "" || rest[0] == '=')
    ensures SplitLong("--" + n + rest) == (n, if rest == "" then None else Some(rest[1..]))
  {
    var arg := "--" + n + rest;
    var (name, p) := SplitLong(arg);
    var rest' := if p.Some? then "=" + p.value else "";
    CutAfterDashes(name, rest', n, rest);
    if p.Some? {
      assert p.value == rest'[1..];
    }
  }

  lemma SplitLongOf(n: string, v: Option<string>)
    requires IsLongName(n)
    ensures var arg := "--" + n + (if v.Some? then "=" + v.value else "");
      MatchesLongOption(arg) && SplitLong(arg) == (n, v)
  {
    var rest := if v.Some? then "=" + v.value else "";
    LongArgClassified(n, rest);
    AcceptedNameLacksEquals(n);
    SplitLongParts(n, rest);
    if v.Some? {
      assert rest[1..] == v.value;
    }
  }

  /** A registered long name written as `--name`, or as `--name=value`, is
      read back as that option with no parameter, or with exactly `value`. */
  lemma LongOptionReadsBack(n: string, v: Option<string>, view: OptionView)
    requires IsLongName(n) && n in view
    ensures var arg := "--" + n + (if v.Some? then "=" + v.value else "");
      Create(arg, view) == Success([LongOptionToken(arg, n, v)])
  {
    LongArgClassified(n, if v.Some? then "=" + v.value else "");
    SplitLongOf(n, v);
  }

  /** A registered one-character name written as `-x` is read back as that
      option alone, whether or not it takes a parameter. */
  lemma ShortNameReadsBack(c: char, view: OptionView)
    requires NameStart(c) && [c] in view
    ensures Create(['-', c], view) == Success([ShortOptionToken(['-', c], [c], None)])
  {
    var a := ['-', c];
    assert a[1] == c && [a[1]] == [c];
    assert a != "--" && !MatchesIllegalOption(a) && MatchesShortOption(a);
    assert Create(a, view) == Cluster(a, 1, view);
    if !view[[c]] {
      assert Cluster(a, 2, view) == Success([]);
      assert Cluster(a, 1, view) == Success([ShortOptionToken(a, [c], None)] + []);
      assert [ShortOptionToken(a, [c], None)] + [] == [ShortOptionToken(a, [c], None)];
    } else {
      assert !(1 + 1 < |a|);
      assert Cluster(a, 1, view) == Success([ShortOptionToken(a, [c], None)]);
    }
  }

  /** No accepted name holds an `=`. */
  lemma AcceptedNameLacksEquals(n: string)
    requires IsAcceptedName(n)
    ensures '=' !in n
  {
    if !IsValidName(n) {
      var m := n[..|n| - 1];
      assert forall k :: 0 <= k < |m| ==> NameRest(m[k]);
      assert n == m + "\n";
    } else {
      assert forall k :: 0 <= k < |n| ==> NameRest(n[k]);
    }
  }

  /** An accepted name of two or more characters is a long name, except
      one character followed by the final line feed; `--` in front of that
      one is an illegal option. */
  lemma AcceptedLongNames(n: string, view: OptionView)
    requires IsAcceptedName(n) && |n| >= 2
    ensures IsLongName(n) <==> !(|n| == 2 && n[1] == '\n')
    ensures !IsLongName(n) ==> Create("--" + n, view) == Failure(IllegalOption("--" + n))
  {
    if !IsValidName(n) && |n| >= 3 {
      assert n[1] == n[..|n| - 1][1];
    }
    if !IsLongName(n) {
      var a := "--" + n;
      assert a[0] == '-' && a[1] == '-' && a[2] == n[0] && a[3] == n[1];
      assert NameStart(n[..|n| - 1][0]);
    }
  }
}
