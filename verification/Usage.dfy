/** The usage text: the program's description, then one block per option
    in registration order, each block listing the option's names with its
    parameter on one line and its wrapped usage text below. */
module Usage {
  import opened Wrappers
  import Text
  import Tokens
  import Options
  import opened ParseErrors
  import opened CommandLine
  import Wrap

  const Indent := Wrap.Indent
  const NewLine := Wrap.NewLine

  /** formatShortOption and formatLongOption: one dash before a
      one-character name, two before any other. */
  function RenderName(name: string): (r: string)
    ensures Tokens.IsAcceptedName(name) ==> r == OptionName(name)
  {
    if |name| == 1 then "-" + name else "--" + name
  }

  /** The separator written between the last name and the parameter: a
      space after a short name, `=` after a long one. */
  function ParameterSeparator(name: string): (sep: string)
    ensures |sep| == 1 && sep[0] != '['
  {
    if |name| == 1 then " " else "="
  }

  /** formatParameter: nothing for an option without a parameter; else the
      separator and the usage name, bracketed when the parameter is
      optional. */
  function FormatParameter<T>(sep: string, o: Options.Opt<T>): (r: string)
    ensures !o.HasParameter() ==> r == ""
    ensures o.HasParameter() && sep != "" ==> r != ""
  {
    if !o.HasParameter() then ""
    else if !o.IsParameterRequired() then "[" + sep + o.ParameterUsageName() + "]"
    else sep + o.ParameterUsageName()
  }

  /** Reads a formatted parameter back: its usage name and whether it is
      required. Only a text made of the separator and a usage name, or of
      those in brackets, is read; anything else gives `None`. */
  function ReadParameter(s: string, sep: string): (r: Option<(string, bool)>)
    ensures r.Some? ==> s == if r.value.1 then sep + r.value.0 else "[" + sep + r.value.0 + "]"
  {
    if |s| >= |sep| + 2 && s[..1 + |sep|] == "[" + sep && s[|s| - 1] == ']' then
      var u := s[1 + |sep|..|s| - 1];
      assert s == s[..1 + |sep|] + u + [s[|s| - 1]];
      Some((u, false))
    else if s != "" && |s| >= |sep| && s[..|sep|] == sep then
      assert s == s[..|sep|] + s[|sep|..];
      Some((s[|sep|..], true))
    else None
  }

  /** The name loop of formatNames from position `i`: each name, then a
      comma and a space before the next one, or the parameter and the line
      end after the last one. */
  function NamesFrom<T>(names: seq<string>, i: nat, o: Options.Opt<T>): string
    requires i <= |names|
    decreases |names| - i
  {
    if i == |names| then ""
    else
      var name := names[i];
      RenderName(name)
      + (if i + 1 < |names| then ", " else LineEnd(names, o))
      + NamesFrom(names, i + 1, o)
  }

  /** formatNames: the indent, then the name loop. An empty name list
      leaves the indent alone, without a line end. */
  function FormatNames<T>(names: seq<string>, o: Options.Opt<T>): string {
    Indent + NamesFrom(names, 0, o)
  }

  function RenderNames(names: seq<string>): (r: seq<string>)
    ensures |r| == |names| && forall i :: 0 <= i < |names| ==> r[i] == RenderName(names[i])
  {
    if |names| == 0 then []
    else
      var r := [RenderName(names[0])] + RenderNames(names[1..]);
      assert forall i :: 1 <= i < |names| ==> names[i] == names[1..][i - 1];
      r
  }

  /** The names line as a reader sees it: the rendered names separated by
      commas, the last name's parameter, the line end. */
  function NamesLine<T>(names: seq<string>, o: Options.Opt<T>): string
    requires |names| >= 1
  {
    Indent + Text.Join(RenderNames(names), ", ") + LineEnd(names, o)
  }

  /** What follows the last name: its parameter and the line end. */
  function LineEnd<T>(names: seq<string>, o: Options.Opt<T>): string
    requires |names| >= 1
  {
    FormatParameter(ParameterSeparator(names[|names| - 1]), o) + NewLine
  }

  /** `u` is a first name whose option is registered. */
  predicate Listed<T>(cl: CommandLine<T>, u: string) {
    u in cl.reg.synonyms && u in cl.reg.index && cl.reg.index[u] < |cl.opts|
  }

  /** The option registered under the listed first name `u`. */
  function OptionAt<T>(cl: CommandLine<T>, u: string): (o: Options.Opt<T>)
    requires Listed(cl, u)
    ensures Linked(cl) ==> o == OptionOf(cl, u)
  {
    cl.opts[cl.reg.index[u]]
  }

  /** One option's block: the names line, the wrapped usage text, and an
      empty line. */
  function Block<T>(cl: CommandLine<T>, u: string): string
    requires Listed(cl, u)
  {
    var o := OptionAt(cl, u);
    FormatNames(Options.FindSynonymsByName(cl.reg, u), o) + Wrap.FormatAsWritten(o.usageText) + NewLine + NewLine
  }

  /** The blocks of the options listed in `us`, in that order. */
  function Blocks<T>(cl: CommandLine<T>, us: seq<string>): string
    requires forall i :: 0 <= i < |us| ==> Listed(cl, us[i])
    decreases |us|
  {
    if |us| == 0 then "" else Blocks(cl, us[..|us| - 1]) + Block(cl, us[|us| - 1])
  }

  /** Every first name in the registration order leads to its option and
      synonyms; a valid command line always satisfies this. */
  predicate AllListed<T>(cl: CommandLine<T>) {
    forall i :: 0 <= i < |cl.reg.order| ==> Listed(cl, cl.reg.order[i])
  }

  lemma ValidAllListed<T>(cl: CommandLine<T>)
    requires Valid(cl)
    ensures AllListed(cl)
  {
    assert forall i :: 0 <= i < |cl.reg.order| ==> cl.reg.order[i] in cl.reg.synonyms;
  }

  /** GetUsage: the description (nothing when it is null), an empty line,
      then the blocks of all options in the order they were added. */
  function GetUsage<T>(cl: CommandLine<T>): string
    requires AllListed(cl)
  {
    cl.usageDescription.GetOr("") + NewLine + NewLine + Blocks(cl, Options.ListUniqueNames(cl.reg))
  }

  // ----- Facts about the usage text -----

  /** The usage text opens with the description and an empty line; with no
      options that is all of it. */
  lemma UsageStartsWithDescription<T>(cl: CommandLine<T>)
    requires AllListed(cl)
    ensures var d := cl.usageDescription.GetOr("");
      && |GetUsage(cl)| >= |d| + 2 && GetUsage(cl)[..|d| + 2] == d + "\n\n"
      && (cl.reg.order == [] ==> GetUsage(cl) == d + "\n\n")
  {
    var d := cl.usageDescription.GetOr("");
    var rest := Blocks(cl, Options.ListUniqueNames(cl.reg));
    assert GetUsage(cl) == (d + "\n\n") + rest;
  }

  /** The formatted parameter gives back the usage name and whether the
      parameter is required, and nothing for an option without one. */
  lemma ParameterReadsBack<T>(name: string, o: Options.Opt<T>)
    ensures var sep := ParameterSeparator(name);
      ReadParameter(FormatParameter(sep, o), sep) ==
        if o.HasParameter() then Some((o.ParameterUsageName(), o.IsParameterRequired())) else None
  {
    var sep := ParameterSeparator(name);
    var r := FormatParameter(sep, o);
    if o.HasParameter() {
      if o.IsParameterRequired() {
        assert r[0] == sep[0] && r[|sep|..] == o.ParameterUsageName();
      } else {
        assert r[1 + |sep|..|r| - 1] == o.ParameterUsageName();
      }
    }
  }

  /** A text missing its separator or its closing bracket is not read as a
      parameter. */
  lemma ReadParameterRejectsMalformed()
    ensures ReadParameter("[?NAME?", "=") == None
    ensures ReadParameter("?NAME", " ") == None
  {
    var a, b := "[?NAME?", "?NAME";
    assert a[..2][1] == '?' != "[="[1];
    assert a[..1][0] == '[' != "="[0];
    assert b[..1][0] == '?' != " "[0];
  }

  /** The loop from a name before the last equals the reference layout of
      the names from there on. */
  lemma {:induction false} NamesFromJoins<T>(names: seq<string>, i: nat, o: Options.Opt<T>)
    requires i < |names|
    ensures NamesFrom(names, i, o) ==
            Text.Join(RenderNames(names[i..]), ", ") + LineEnd(names, o)
    decreases |names| - i
  {
    var rs := RenderNames(names[i..]);
    if i + 1 == |names| {
      assert rs == [RenderName(names[i])];
      assert NamesFrom(names, i, o) == RenderName(names[i]) + LineEnd(names, o) + NamesFrom(names, i + 1, o);
    } else {
      NamesFromJoins(names, i + 1, o);
      var rs' := RenderNames(names[i + 1..]);
      assert names[i..][1..] == names[i + 1..];
      assert rs == [RenderName(names[i])] + rs';
      Text.JoinCons(RenderName(names[i]), rs', ", ");
      assert NamesFrom(names, i, o) == RenderName(names[i]) + ", " + NamesFrom(names, i + 1, o);
      Text.ConcatAssociates(RenderName(names[i]) + ", ", Text.Join(rs', ", "), LineEnd(names, o));
    }
  }

  /** formatNames lists every name in order with the last name's parameter,
      on one line; with no names it writes the indent alone. */
  lemma FormatNamesListsNames<T>(names: seq<string>, o: Options.Opt<T>)
    ensures |names| == 0 ==> FormatNames(names, o) == Indent
    ensures |names| >= 1 ==> FormatNames(names, o) == NamesLine(names, o)
  {
    if |names| >= 1 {
      NamesFromJoins(names, 0, o);
      assert names[0..] == names;
    }
  }

  /** The names line of an option with a parameter ends in the parameter
      written after the last name: behind a space when that name is short,
      behind `=` when it is long, and in brackets when the parameter is
      optional. */
  lemma NamesLineSeparator<T>(names: seq<string>, o: Options.Opt<T>)
    requires |names| >= 1 && o.HasParameter()
    ensures var last := names[|names| - 1];
      var sep := if |last| == 1 then " " else "=";
      var u := o.ParameterUsageName();
      FormatNames(names, o) == Indent + Text.Join(RenderNames(names), ", ")
        + (if o.IsParameterRequired() then sep + u else "[" + sep + u + "]") + NewLine
  {
    FormatNamesListsNames(names, o);
  }

  /** A valid name is rendered without line feeds. */
  lemma RenderedNameLacksLineFeed(n: string)
    requires Tokens.IsValidName(n)
    ensures '\n' !in RenderName(n)
  {
    assert forall k :: 0 <= k < |n| ==> Tokens.NameRest(n[k]);
  }

  /** A valid name followed by the line feed registration accepts puts a
      line feed into its rendered form, so its names line is broken. */
  lemma LineFeedNameBreaksLine(n: string)
    requires Tokens.IsValidName(n)
    ensures Tokens.IsAcceptedName(n + "\n") && '\n' in RenderName(n + "\n")
  {
    Tokens.TrailingLineFeedAccepted(n);
    var r := RenderName(n + "\n");
    assert r[|r| - 1] == '\n';
  }

  /** For valid names and a usage name without line feeds, the names line
      holds exactly one line feed: its last character. */
  lemma NamesLineIsOneLine<T>(names: seq<string>, o: Options.Opt<T>)
    requires |names| >= 1 && forall i :: 0 <= i < |names| ==> Tokens.IsValidName(names[i])
    requires '\n' !in o.ParameterUsageName()
    ensures var line := FormatNames(names, o);
      |line| >= 1 && line[|line| - 1] == '\n' && '\n' !in line[..|line| - 1]
  {
    FormatNamesListsNames(names, o);
    var rs := RenderNames(names);
    forall i | 0 <= i < |rs| ensures '\n' !in rs[i] {
      RenderedNameLacksLineFeed(names[i]);
    }
    var j := Text.Join(rs, ", ");
    Text.NotInJoin(rs, ", ", '\n');
    var p := FormatParameter(ParameterSeparator(names[|names| - 1]), o);
    ParameterLacksLineFeed(ParameterSeparator(names[|names| - 1]), o);
    assert FormatNames(names, o) == Indent + j + (p + NewLine);
    EndsWithOnlyLineFeed(Indent, j, p, FormatNames(names, o));
  }

  lemma ParameterLacksLineFeed<T>(sep: string, o: Options.Opt<T>)
    requires '\n' !in sep && '\n' !in o.ParameterUsageName()
    ensures '\n' !in FormatParameter(sep, o)
  {}

  /** Three pieces free of line feeds, then a line feed. */
  lemma EndsWithOnlyLineFeed(a: string, b: string, c: string, line: string)
    requires '\n' !in a && '\n' !in b && '\n' !in c && line == a + b + (c + NewLine)
    ensures |line| >= 1 && line[|line| - 1] == '\n' && '\n' !in line[..|line| - 1]
  {
    assert line[..|line| - 1] == a + b + c;
  }

  /** A name as it appears in the usage text, typed on the command line as
      an argument of its own, selects that option; only a one-character
      name with the accepted final line feed is an illegal option instead. */
  lemma RenderedNameReadsBack<T>(cl: CommandLine<T>, n: string)
    requires Valid(cl) && n in cl.reg.index
    ensures var r := Tokens.Create(RenderName(n), View(cl));
      if |n| == 2 && n[1] == '\n' then r == Failure(Tokens.IllegalOption(RenderName(n)))
      else
        && r.Success? && |r.value| == 1 && r.value[0].IsOptionToken()
        && r.value[0].name == n && r.value[0].parameter.None?
  {
    OptionNameReadsBack(n, View(cl));
  }

  /** Blocks depend only on the names and options they list. */
  lemma {:induction false} BlocksAgree<T>(a: CommandLine<T>, b: CommandLine<T>, us: seq<string>)
    requires forall i :: 0 <= i < |us| ==>
               && Listed(a, us[i]) && Listed(b, us[i])
               && a.reg.synonyms[us[i]] == b.reg.synonyms[us[i]] && OptionAt(a, us[i]) == OptionAt(b, us[i])
    ensures Blocks(a, us) == Blocks(b, us)
    decreases |us|
  {
    if |us| > 0 {
      BlocksAgree(a, b, us[..|us| - 1]);
    }
  }

  /** One more first name at the end of the list, with the earlier ones
      unchanged, appends its block. */
  lemma BlocksAppend<T>(cl: CommandLine<T>, cl': CommandLine<T>, us: seq<string>, first: string)
    requires forall i :: 0 <= i < |us| ==>
               && Listed(cl, us[i]) && Listed(cl', us[i])
               && cl.reg.synonyms[us[i]] == cl'.reg.synonyms[us[i]] && OptionAt(cl, us[i]) == OptionAt(cl', us[i])
    requires Listed(cl', first)
    ensures Blocks(cl', us + [first]) == Blocks(cl, us) + Block(cl', first)
  {
    BlocksAgree(cl, cl', us);
    assert (us + [first])[..|us|] == us;
  }

  /** The usage text after registering one more first name, the earlier
      options and names unchanged, is the usage text before and one block. */
  lemma UsageAppendsBlock<T>(cl: CommandLine<T>, cl': CommandLine<T>, first: string)
    requires AllListed(cl) && Listed(cl', first)
    requires cl'.reg.order == cl.reg.order + [first] && cl'.usageDescription == cl.usageDescription
    requires forall i :: 0 <= i < |cl.reg.order| ==>
               && Listed(cl', cl.reg.order[i])
               && cl.reg.synonyms[cl.reg.order[i]] == cl'.reg.synonyms[cl.reg.order[i]]
               && OptionAt(cl, cl.reg.order[i]) == OptionAt(cl', cl.reg.order[i])
    ensures AllListed(cl') && GetUsage(cl') == GetUsage(cl) + Block(cl', first)
  {
    var us := cl.reg.order;
    assert forall i :: 0 <= i < |cl'.reg.order| ==> Listed(cl', cl'.reg.order[i]) by {
      forall i | 0 <= i < |cl'.reg.order| ensures Listed(cl', cl'.reg.order[i]) {
        if i < |us| {
          assert cl'.reg.order[i] == us[i];
        }
      }
    }
    BlocksAppend(cl, cl', us, first);
  }

  /** After a successful AddOption the new first name is listed last and
      the earlier first names keep their synonyms and options. */
  lemma AddOptionKeepsEarlier<T>(cl: CommandLine<T>, o: Options.Opt<T>, names: seq<Option<string>>)
    requires Valid(cl) && AddOption(cl, o, names).1.None?
    ensures var cl' := AddOption(cl, o, names).0;
      && Listed(cl', names[0].value)
      && cl'.reg.order == cl.reg.order + [names[0].value] && cl'.usageDescription == cl.usageDescription
      && forall i :: 0 <= i < |cl.reg.order| ==>
           && Listed(cl', cl.reg.order[i])
           && cl.reg.synonyms[cl.reg.order[i]] == cl'.reg.synonyms[cl.reg.order[i]]
           && OptionAt(cl, cl.reg.order[i]) == OptionAt(cl', cl.reg.order[i])
  {
    var cl' := AddOption(cl, o, names).0;
    var us := cl.reg.order;
    var u := names[0].value;
    assert u !in cl.reg.index;
    ValidAllListed(cl);
    forall i | 0 <= i < |us|
      ensures && Listed(cl', us[i])
              && cl.reg.synonyms[us[i]] == cl'.reg.synonyms[us[i]]
              && OptionAt(cl, us[i]) == OptionAt(cl', us[i])
    {
      var v := us[i];
      assert Listed(cl, v);
      assert v != u;
      assert v in cl'.reg.index && OptionOf(cl', v) == OptionOf(cl, v);
    }
  }

  /** A successful AddOption appends exactly one block, for the new option
      under its names, to the usage text. */
  lemma UsageGrowsByOneBlock<T>(cl: CommandLine<T>, o: Options.Opt<T>, names: seq<Option<string>>)
    requires Valid(cl) && AddOption(cl, o, names).1.None?
    ensures var cl' := AddOption(cl, o, names).0;
      && Listed(cl', names[0].value) && AllListed(cl) && AllListed(cl')
      && GetUsage(cl') == GetUsage(cl) + Block(cl', names[0].value)
      && Block(cl', names[0].value) ==
           FormatNames(Options.Values(names), o) + Wrap.FormatAsWritten(o.usageText) + NewLine + NewLine
  {
    var r := AddOption(cl, o, names);
    AddOptionKeepsEarlier(cl, o, names);
    ValidAllListed(cl);
    UsageAppendsBlock(cl, r.0, names[0].value);
  }
}
