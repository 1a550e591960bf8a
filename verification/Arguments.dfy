/** The older single-argument classifier: one raw argument becomes one
    argument record (division, short option, long option or program
    argument), without consulting any registered names. */
module Arguments {
  import opened Wrappers
  import Text
  import Tokens

  datatype ArgumentType = Division | ShortOption | LongOption | ProgramArgument
  {
    predicate IsOption() {
      ShortOption? || LongOption?
    }
  }

  /** `None` stands for a field left null. */
  datatype Argument = Argument(
    argType: ArgumentType,
    unparsedText: string,
    name: Option<string>,
    parameter: Option<string>,
    programArgument: Option<string>)

  /** `[a-zA-Z0-9-]` */
  predicate IsLongNameChar(c: char) {
    Text.IsAsciiAlnum(c) || c == '-'
  }

  /** `[a-zA-Z0-9]` covering the whole text. */
  predicate ShortNameBody(s: string) {
    |s| == 1 && Text.IsAsciiAlnum(s[0])
  }

  /** `[a-zA-Z0-9][a-zA-Z0-9-]+` covering the whole text. */
  predicate LongNameBody(s: string) {
    |s| >= 2 && Text.IsAsciiAlnum(s[0]) && forall i :: 1 <= i < |s| ==> IsLongNameChar(s[i])
  }

  /** IsShortNameValid, `^[a-zA-Z0-9]$`: `$` also matches before a line
      feed that ends the text, so one trailing line feed is accepted. */
  predicate IsShortNameValid(s: string) {
    ShortNameBody(s) || (|s| >= 1 && s[|s| - 1] == '\n' && ShortNameBody(s[..|s| - 1]))
  }

  /** IsLongNameValid, `^[a-zA-Z0-9][a-zA-Z0-9-]+$`, with the same trailing
      line feed accepted. */
  predicate IsLongNameValid(s: string) {
    LongNameBody(s) || (|s| >= 1 && s[|s| - 1] == '\n' && LongNameBody(s[..|s| - 1]))
  }

  /** `^-[a-zA-Z0-9][.]*`: unanchored at the end, so only the first two
      characters matter. */
  predicate MatchesShortArgument(a: string) {
    |a| >= 2 && a[0] == '-' && Text.IsAsciiAlnum(a[1])
  }

  /** `^--[a-zA-Z0-9][a-zA-Z0-9-]+(=[.]*)?`: unanchored at the end, so only
      the first four characters matter. */
  predicate MatchesLongArgument(a: string) {
    |a| >= 4 && a[0] == '-' && a[1] == '-' && Text.IsAsciiAlnum(a[2]) && IsLongNameChar(a[3])
  }

  /** Argument.Create: the tests run in the order division, short, long. */
  function Create(a: string): (r: Argument)
    ensures r.unparsedText == a
    ensures r.argType.Division? <==> a == "--"
    ensures r.argType.ShortOption? <==> a != "--" && MatchesShortArgument(a)
    ensures r.argType.LongOption? <==> a != "--" && !MatchesShortArgument(a) && MatchesLongArgument(a)
    ensures r.argType.Division? ==> r.name.None? && r.parameter.None? && r.programArgument.None?
    ensures r.argType.ShortOption? ==>
              && r.name == Some([a[1]]) && r.programArgument.None?
              && r.parameter == (if |a| > 2 then Some(a[2..]) else None)
    ensures r.argType.LongOption? ==>
              && r.name.Some? && r.programArgument.None? && '=' !in r.name.value
              && (r.parameter.None? <==> '=' !in a)
              && a == "--" + r.name.value + (if r.parameter.Some? then "=" + r.parameter.value else "")
    ensures r.argType.ProgramArgument? ==>
              r.programArgument == Some(a) && r.name.None? && r.parameter.None?
  {
    if a == "--" then
      Argument(Division, a, None, None, None)
    else if MatchesShortArgument(a) then
      Argument(ShortOption, a, Some([a[1]]), if |a| > 2 then Some(a[2..]) else None, None)
    else if MatchesLongArgument(a) then
      var (n, p) := Tokens.SplitLong(a);
      Argument(LongOption, a, Some(n), p, None)
    else
      Argument(ProgramArgument, a, None, None, Some(a))
  }

  // ----- Facts about the classifier -----

  /** `-x` followed by anything is the short option x with that text as
      its parameter (none when nothing follows). */
  lemma ShortArgumentReadsBack(c: char, p: string)
    requires Text.IsAsciiAlnum(c)
    ensures var r := Create(['-', c] + p);
      && r.argType == ShortOption && r.name == Some([c])
      && r.parameter == (if p == "" then None else Some(p))
  {
    var a := ['-', c] + p;
    assert a[1] == c && a[2..] == p;
  }

  /** `--name...` with a valid long name is classified as a long option. */
  lemma LongArgumentClassified(n: string, rest: string)
    requires IsLongNameValid(n)
    ensures var a := "--" + n + rest;
      a != "--" && !MatchesShortArgument(a) && MatchesLongArgument(a)
  {
    var a := "--" + n + rest;
    if !LongNameBody(n) {
      var m := n[..|n| - 1];
      assert n[0] == m[0] && n[1] == m[1];
    }
    assert a[1] == '-' && a[2] == n[0] && a[3] == n[1];
  }

  /** A valid long name holds no `=`. */
  lemma LongNameLacksEquals(n: string)
    requires IsLongNameValid(n)
    ensures '=' !in n
  {
    if LongNameBody(n) {
      assert forall i :: 1 <= i < |n| ==> IsLongNameChar(n[i]);
    } else {
      var m := n[..|n| - 1];
      assert forall i :: 1 <= i < |m| ==> IsLongNameChar(m[i]);
      assert n == m + "\n";
    }
  }

  /** Both name checks accept a valid name followed by a line feed. */
  lemma TrailingLineFeedValid(c: char, n: string)
    requires Text.IsAsciiAlnum(c) && LongNameBody(n)
    ensures IsShortNameValid([c, '\n']) && IsLongNameValid(n + "\n")
  {
    assert [c, '\n'][..1] == [c];
    assert (n + "\n")[..|n|] == n;
  }

  /** `--name` and `--name=value` for a valid long name give that name and
      value back. */
  lemma LongArgumentReadsBack(n: string, v: Option<string>)
    requires IsLongNameValid(n)
    ensures var r := Create("--" + n + (if v.Some? then "=" + v.value else ""));
      && r.argType == LongOption && r.name == Some(n) && r.parameter == v
  {
    var rest := if v.Some? then "=" + v.value else "";
    var a := "--" + n + rest;
    LongArgumentClassified(n, rest);
    LongNameLacksEquals(n);
    Tokens.SplitLongParts(n, rest);
    if v.Some? {
      assert rest[1..] == v.value;
    }
  }

  /** The one-character long form `--v` is not a long option: the long-name
      pattern wants two or more characters, so it falls through to a
      program argument. */
  lemma OneCharacterLongIsProgramArgument(c: char)
    requires Text.IsAsciiAlnum(c)
    ensures Create(['-', '-', c]) == Argument(ProgramArgument, ['-', '-', c], None, None, Some(['-', '-', c]))
  {}

  /** A long argument whose name is not valid past the fourth character is
      still a long option: only its start is matched. */
  lemma LongArgumentMatchesPrefixOnly(n: string)
    requires |n| >= 2 && Text.IsAsciiAlnum(n[0]) && IsLongNameChar(n[1]) && '=' !in n
    ensures Create("--" + n).argType == LongOption && Create("--" + n).name == Some(n)
  {
    var a := "--" + n;
    assert a[1] == '-' && a[2] == n[0] && a[3] == n[1];
    assert '=' !in a by {
      assert forall i :: 2 <= i < |a| ==> a[i] == n[i - 2];
    }
    assert a == "--" + a[2..];
  }

  /** No name is both a valid short name and a valid long name. */
  lemma ShortAndLongNamesDisjoint(s: string)
    ensures !(IsShortNameValid(s) && IsLongNameValid(s))
  {}
}
