/** The word wrap of an option's usage text: the text is cut at spaces
    into words, and words are laid out on lines indented by eight spaces
    that stay within the 79 columns left of the terminal's own wrap. */
module Wrap {
  import Text

  const Indent := "    "
  const DoubleIndent := Indent + Indent
  /** Environment.NewLine, fixed to a line feed. */
  const NewLine := "\n"
  const MaxWidth := 80

  /** The words after the first, appended to a line whose length the
      formatter believes to be `pos`. A word that would end past column
      MaxWidth - 1 starts a new line. After such a break the formatter as
      written counts one column too many (the space it did not write);
      `asWritten` selects that count, otherwise the true line length is
      kept. */
  function WrapWords(words: seq<string>, pos: int, asWritten: bool): string
    decreases |words|
  {
    if |words| == 0 then ""
    else
      var w := words[0];
      var next := pos + |w| + 1;
      if next > MaxWidth - 1 then
        NewLine + DoubleIndent + w + WrapWords(words[1..], |DoubleIndent| + |w| + (if asWritten then 1 else 0), asWritten)
      else
        " " + w + WrapWords(words[1..], next, asWritten)
  }

  /** formatOptionUsage with either position count: the first word opens the
      first line whatever its length. */
  function FormatWith(text: string, asWritten: bool): string {
    var words := Text.Split(text, ' ');
    DoubleIndent + words[0] + WrapWords(words[1..], |DoubleIndent| + |words[0]|, asWritten)
  }

  /** formatOptionUsage as the source writes it; this is the formatter the
      usage text uses. */
  function FormatAsWritten(text: string): string {
    FormatWith(text, true)
  }

  /** formatOptionUsage with the line position kept exact after a break:
      the corrected formatter. */
  function FormatOptionUsage(text: string): string {
    FormatWith(text, false)
  }

  // ----- The layout: which words share a line -----

  /** The words of `current` (the line being filled, believed to be `pos`
      long) and of `rest`, grouped into lines by the same decisions
      WrapWords makes. */
  function LayoutFrom(rest: seq<string>, current: seq<string>, pos: int, asWritten: bool): (ls: seq<seq<string>>)
    requires |current| >= 1
    ensures |ls| >= 1 && forall i :: 0 <= i < |ls| ==> |ls[i]| >= 1
    ensures ls[0][0] == current[0]
    decreases |rest|
  {
    if |rest| == 0 then [current]
    else
      var w := rest[0];
      var next := pos + |w| + 1;
      if next > MaxWidth - 1 then
        [current] + LayoutFrom(rest[1..], [w], |DoubleIndent| + |w| + (if asWritten then 1 else 0), asWritten)
      else
        LayoutFrom(rest[1..], current + [w], next, asWritten)
  }

  function Layout(text: string, asWritten: bool): (ls: seq<seq<string>>)
    ensures |ls| >= 1 && forall i :: 0 <= i < |ls| ==> |ls[i]| >= 1
  {
    var words := Text.Split(text, ' ');
    LayoutFrom(words[1..], [words[0]], |DoubleIndent| + |words[0]|, asWritten)
  }

  /** A line as printed: the indent, then its words separated by spaces. */
  function RenderLine(line: seq<string>): string {
    DoubleIndent + Text.Join(line, " ")
  }

  function RenderLines(ls: seq<seq<string>>): (r: seq<string>)
    ensures |r| == |ls| && forall i :: 0 <= i < |ls| ==> r[i] == RenderLine(ls[i])
  {
    seq(|ls|, i requires 0 <= i < |ls| => RenderLine(ls[i]))
  }

  /** All words of all lines, in order. */
  function Flatten(ls: seq<seq<string>>): seq<string> {
    if |ls| == 0 then [] else ls[0] + Flatten(ls[1..])
  }

  /** A printed line with the indent dropped (the text of the line). */
  function Dedent(line: string): string {
    if |line| >= |DoubleIndent| then line[|DoubleIndent|..] else line
  }

  /** Undoing the wrap: the lines without their indent, joined by single
      spaces. */
  function Unwrap(s: string): string {
    var lines := Text.Split(s, '\n');
    Text.Join(seq(|lines|, i requires 0 <= i < |lines| => Dedent(lines[i])), " ")
  }

  // ----- The formatted text is the rendered layout -----

  /** One line break, seen on both sides: the printed text of the current
      line, a line feed and the rest is the join of the current line and
      the rendered lines of the rest. */
  lemma BreakStep(current: seq<string>, w: string, more: string, tail: seq<seq<string>>)
    requires |tail| >= 1
    requires RenderLine([w]) + more == Text.Join(RenderLines(tail), NewLine)
    ensures RenderLine(current) + (NewLine + DoubleIndent + w + more) ==
            Text.Join(RenderLines([current] + tail), NewLine)
  {
    assert Text.Join([w], " ") == w;
    assert RenderLines([current] + tail) == [RenderLine(current)] + RenderLines(tail);
    Text.JoinCons(RenderLine(current), RenderLines(tail), NewLine);
  }

  lemma {:induction false} WrapRendersLayout(rest: seq<string>, current: seq<string>, pos: int, asWritten: bool)
    requires |current| >= 1
    ensures RenderLine(current) + WrapWords(rest, pos, asWritten) ==
            Text.Join(RenderLines(LayoutFrom(rest, current, pos, asWritten)), NewLine)
    decreases |rest|
  {
    if |rest| == 0 {
      assert RenderLines([current]) == [RenderLine(current)];
    } else {
      var w := rest[0];
      var next := pos + |w| + 1;
      if next > MaxWidth - 1 {
        var p := |DoubleIndent| + |w| + (if asWritten then 1 else 0);
        WrapRendersLayout(rest[1..], [w], p, asWritten);
        BreakStep(current, w, WrapWords(rest[1..], p, asWritten), LayoutFrom(rest[1..], [w], p, asWritten));
      } else {
        WrapRendersLayout(rest[1..], current + [w], next, asWritten);
        Text.JoinSnoc(current, w, " ");
      }
    }
  }

  /** formatOptionUsage prints the layout, one line per group of words. */
  lemma FormatRendersLayout(text: string, asWritten: bool)
    ensures FormatWith(text, asWritten) == Text.Join(RenderLines(Layout(text, asWritten)), NewLine)
  {
    var words := Text.Split(text, ' ');
    WrapRendersLayout(words[1..], [words[0]], |DoubleIndent| + |words[0]|, asWritten);
    assert Text.Join([words[0]], " ") == words[0];
  }

  // ----- Properties of the layout -----

  /** No word is lost, added or reordered. */
  lemma {:induction false} LayoutKeepsWords(rest: seq<string>, current: seq<string>, pos: int, asWritten: bool)
    requires |current| >= 1
    ensures Flatten(LayoutFrom(rest, current, pos, asWritten)) == current + rest
    decreases |rest|
  {
    if |rest| > 0 {
      var w := rest[0];
      var next := pos + |w| + 1;
      if next > MaxWidth - 1 {
        var p := |DoubleIndent| + |w| + (if asWritten then 1 else 0);
        LayoutKeepsWords(rest[1..], [w], p, asWritten);
        var ls := [current] + LayoutFrom(rest[1..], [w], p, asWritten);
        assert ls[1..] == LayoutFrom(rest[1..], [w], p, asWritten);
        assert [w] + rest[1..] == rest;
      } else {
        LayoutKeepsWords(rest[1..], current + [w], next, asWritten);
        assert current + [w] + rest[1..] == current + rest;
      }
    }
  }

  /** Every line that holds two or more words ends at or before column
      MaxWidth - 1. */
  predicate WithinWidth(ls: seq<seq<string>>) {
    forall i :: 0 <= i < |ls| && |ls[i]| >= 2 ==> |RenderLine(ls[i])| <= MaxWidth - 1
  }

  /** The layout keeps to the width as long as the position the formatter
      keeps is never below the true line length. */
  lemma {:induction false} LayoutWithinWidth(rest: seq<string>, current: seq<string>, pos: int, asWritten: bool)
    requires |current| >= 1
    requires pos >= |RenderLine(current)|
    requires |current| >= 2 ==> |RenderLine(current)| <= MaxWidth - 1
    ensures WithinWidth(LayoutFrom(rest, current, pos, asWritten))
    decreases |rest|
  {
    if |rest| > 0 {
      var w := rest[0];
      var next := pos + |w| + 1;
      if next > MaxWidth - 1 {
        var p := |DoubleIndent| + |w| + (if asWritten then 1 else 0);
        assert Text.Join([w], " ") == w;
        LayoutWithinWidth(rest[1..], [w], p, asWritten);
        var tail := LayoutFrom(rest[1..], [w], p, asWritten);
        var ls := [current] + tail;
        assert LayoutFrom(rest, current, pos, asWritten) == ls;
        assert forall i :: 1 <= i < |ls| ==> ls[i] == tail[i - 1];
      } else {
        Text.JoinSnoc(current, w, " ");
        LayoutWithinWidth(rest[1..], current + [w], next, asWritten);
      }
    }
  }

  /** Each line is followed by a line whose first word would not have
      fitted after it. */
  predicate Greedy(ls: seq<seq<string>>)
    requires forall i :: 0 <= i < |ls| ==> |ls[i]| >= 1
  {
    forall i :: 0 <= i < |ls| - 1 ==> |RenderLine(ls[i])| + 1 + |ls[i + 1][0]| > MaxWidth - 1
  }

  /** With the exact count the layout is greedy. */
  lemma {:induction false} ExactLayoutIsGreedy(rest: seq<string>, current: seq<string>, pos: int)
    requires |current| >= 1
    requires pos == |RenderLine(current)|
    ensures Greedy(LayoutFrom(rest, current, pos, false))
    decreases |rest|
  {
    if |rest| > 0 {
      var w := rest[0];
      var next := pos + |w| + 1;
      if next > MaxWidth - 1 {
        var p := |DoubleIndent| + |w|;
        assert Text.Join([w], " ") == w;
        ExactLayoutIsGreedy(rest[1..], [w], p);
        var tail := LayoutFrom(rest[1..], [w], p, false);
        var ls := [current] + tail;
        assert LayoutFrom(rest, current, pos, false) == ls;
        assert ls[0] == current && ls[1][0] == w;
        assert forall i :: 1 <= i < |ls| ==> ls[i] == tail[i - 1];
      } else {
        Text.JoinSnoc(current, w, " ");
        ExactLayoutIsGreedy(rest[1..], current + [w], next);
      }
    }
  }

  // ----- The printed lines -----

  /** No word of any line contains `c`. */
  predicate LinesLack(c: char, ls: seq<seq<string>>) {
    forall i, j :: 0 <= i < |ls| && 0 <= j < |ls[i]| ==> c !in ls[i][j]
  }

  /** A character in none of the words is in none of the laid-out words. */
  lemma {:induction false} LayoutLacks(rest: seq<string>, current: seq<string>, pos: int, asWritten: bool, c: char)
    requires |current| >= 1
    requires forall j :: 0 <= j < |current| ==> c !in current[j]
    requires forall j :: 0 <= j < |rest| ==> c !in rest[j]
    ensures LinesLack(c, LayoutFrom(rest, current, pos, asWritten))
    decreases |rest|
  {
    if |rest| > 0 {
      var w := rest[0];
      var next := pos + |w| + 1;
      if next > MaxWidth - 1 {
        var p := |DoubleIndent| + |w| + (if asWritten then 1 else 0);
        LayoutLacks(rest[1..], [w], p, asWritten, c);
        var tail := LayoutFrom(rest[1..], [w], p, asWritten);
        var ls := [current] + tail;
        assert LayoutFrom(rest, current, pos, asWritten) == ls;
        assert forall i :: 1 <= i < |ls| ==> ls[i] == tail[i - 1];
      } else {
        LayoutLacks(rest[1..], current + [w], next, asWritten, c);
      }
    }
  }

  /** For a text without line feeds, the line feeds of the formatted text
      are exactly the breaks of the layout: splitting at them gives the
      rendered lines back. */
  lemma FormattedLines(text: string, asWritten: bool)
    requires '\n' !in text
    ensures Text.Split(FormatWith(text, asWritten), '\n') == RenderLines(Layout(text, asWritten))
  {
    var words := Text.Split(text, ' ');
    var ls := Layout(text, asWritten);
    FormatRendersLayout(text, asWritten);
    Text.SplitPiecesLack(text, ' ', '\n');
    LayoutLacks(words[1..], [words[0]], |DoubleIndent| + |words[0]|, asWritten, '\n');
    var rs := RenderLines(ls);
    forall i | 0 <= i < |rs| ensures '\n' !in rs[i] {
      Text.NotInJoin(ls[i], " ", '\n');
    }
    Text.SplitJoin(rs, '\n');
  }

  /** Joining the joins of non-empty groups is joining all their members. */
  lemma {:induction false} JoinOfJoins(ls: seq<seq<string>>, sep: string)
    requires |ls| >= 1 && forall i :: 0 <= i < |ls| ==> |ls[i]| >= 1
    ensures Text.Join(seq(|ls|, i requires 0 <= i < |ls| => Text.Join(ls[i], sep)), sep) == Text.Join(Flatten(ls), sep)
    decreases |ls|
  {
    var js := seq(|ls|, i requires 0 <= i < |ls| => Text.Join(ls[i], sep));
    if |ls| > 1 {
      JoinOfJoins(ls[1..], sep);
      var js1 := seq(|ls[1..]|, i requires 0 <= i < |ls[1..]| => Text.Join(ls[1..][i], sep));
      assert js[1..] == js1;
      assert |Flatten(ls[1..])| >= 1 by {
        FlattenLength(ls[1..]);
      }
      Text.JoinAppend(ls[0], Flatten(ls[1..]), sep);
    } else {
      assert Flatten(ls) == ls[0] + Flatten(ls[1..]);
      assert ls[0] + [] == ls[0];
    }
  }

  /** A non-empty group makes the flattening non-empty. */
  lemma FlattenLength(ls: seq<seq<string>>)
    requires |ls| >= 1 && |ls[0]| >= 1
    ensures |Flatten(ls)| >= |ls[0]|
  {}

  /** Unwrapping the formatted text of a text without line feeds gives the
      text back: the wrap only turns spaces into line breaks and indents. */
  lemma UnwrapRestores(text: string, asWritten: bool)
    requires '\n' !in text
    ensures Unwrap(FormatWith(text, asWritten)) == text
  {
    var words := Text.Split(text, ' ');
    var ls := Layout(text, asWritten);
    FormattedLines(text, asWritten);
    var lines := Text.Split(FormatWith(text, asWritten), '\n');
    var ds := seq(|lines|, i requires 0 <= i < |lines| => Dedent(lines[i]));
    var js := seq(|ls|, i requires 0 <= i < |ls| => Text.Join(ls[i], " "));
    assert ds == js;
    JoinOfJoins(ls, " ");
    LayoutKeepsWords(words[1..], [words[0]], |DoubleIndent| + |words[0]|, asWritten);
    assert [words[0]] + words[1..] == words;
    Text.JoinSplit(text, ' ');
  }

  // ----- The formatter as a whole -----

  /** With either count, every printed line of two or more words ends by
      column MaxWidth - 1; only a single over-long word can pass it. */
  lemma FormatWithinWidth(text: string, asWritten: bool)
    ensures WithinWidth(Layout(text, asWritten))
  {
    var words := Text.Split(text, ' ');
    assert Text.Join([words[0]], " ") == words[0];
    LayoutWithinWidth(words[1..], [words[0]], |DoubleIndent| + |words[0]|, asWritten);
  }

  /** The corrected formatter is greedy: a line is only broken when the
      next word would not have fitted on it. */
  lemma FormatIsGreedy(text: string)
    ensures Greedy(Layout(text, false))
  {
    var words := Text.Split(text, ' ');
    assert Text.Join([words[0]], " ") == words[0];
    ExactLayoutIsGreedy(words[1..], [words[0]], |DoubleIndent| + |words[0]|);
  }

  /** Three space-free words joined by single spaces split back into
      those words. */
  lemma ThreeWords(w0: string, w1: string, w2: string)
    requires ' ' !in w0 && ' ' !in w1 && ' ' !in w2
    ensures Text.Split(w0 + " " + w1 + " " + w2, ' ') == [w0, w1, w2]
  {
    var parts := [w0, w1, w2];
    forall i | 0 <= i < |parts| ensures ' ' !in parts[i] {}
    Text.SplitJoin(parts, ' ');
    JoinThree(w0, w1, w2);
  }

  lemma JoinThree(w0: string, w1: string, w2: string)
    ensures Text.Join([w0, w1, w2], " ") == w0 + " " + w1 + " " + w2
  {
    assert [w0, w1, w2] == [w0] + [w1, w2] && [w1, w2] == [w1] + [w2];
    Text.JoinCons(w1, [w2], " ");
    Text.JoinCons(w0, [w1, w2], " ");
  }

  lemma AsWrittenLayoutOfThree(w0: string, w1: string, w2: string)
    requires |w0| == 70 && |w1| == 1 && |w2| == 69
    ensures LayoutFrom([w1, w2], [w0], 78, true) == [[w0], [w1], [w2]]
  {
    assert [w1, w2][1..] == [w2] && [w2][1..] == [];
    assert LayoutFrom([w2], [w1], 10, true) == [[w1]] + LayoutFrom([], [w2], 77, true);
  }

  lemma ExactLayoutOfThree(w0: string, w1: string, w2: string)
    requires |w0| == 70 && |w1| == 1 && |w2| == 69
    ensures LayoutFrom([w1, w2], [w0], 78, false) == [[w0], [w1, w2]]
  {
    assert [w1, w2][1..] == [w2] && [w2][1..] == [] && [w1] + [w2] == [w1, w2];
    assert LayoutFrom([w2], [w1], 9, false) == LayoutFrom([], [w1, w2], 79, false);
  }

  /** Three words that fill the first line to column 78, then one letter,
      then a 69-letter word. The formatter as written breaks before the
      last word although the second line would have been 79 long; the
      corrected formatter keeps it on the second line. */
  lemma AsWrittenWrapsEarly(w0: string, w1: string, w2: string)
    requires |w0| == 70 && |w1| == 1 && |w2| == 69
    requires ' ' !in w0 && ' ' !in w1 && ' ' !in w2
    ensures var text := w0 + " " + w1 + " " + w2;
      && Layout(text, true) == [[w0], [w1], [w2]]
      && !Greedy(Layout(text, true))
      && Layout(text, false) == [[w0], [w1, w2]]
      && |RenderLine([w1, w2])| == MaxWidth - 1
  {
    var text := w0 + " " + w1 + " " + w2;
    ThreeWords(w0, w1, w2);
    assert [w0, w1, w2][1..] == [w1, w2];
    AsWrittenLayoutOfThree(w0, w1, w2);
    ExactLayoutOfThree(w0, w1, w2);
    var ls := Layout(text, true);
    assert Text.Join([w1], " ") == w1;
    assert |RenderLine(ls[1])| + 1 + |ls[2][0]| == MaxWidth - 1;
    Text.JoinCons(w1, [w2], " ");
  }

  /** For a text without line feeds, every printed line starts with the
      double indent, and a line holding a space (two or more words) ends by
      column MaxWidth - 1. */
  lemma DescriptionLinesBounded(text: string, asWritten: bool)
    requires '\n' !in text
    ensures var lines := Text.Split(FormatWith(text, asWritten), '\n');
      forall i :: 0 <= i < |lines| ==>
        && |lines[i]| >= |DoubleIndent| && lines[i][..|DoubleIndent|] == DoubleIndent
        && (' ' in Dedent(lines[i]) ==> |lines[i]| <= MaxWidth - 1)
  {
    var words := Text.Split(text, ' ');
    var ls := Layout(text, asWritten);
    FormattedLines(text, asWritten);
    FormatWithinWidth(text, asWritten);
    LayoutLacks(words[1..], [words[0]], |DoubleIndent| + |words[0]|, asWritten, ' ');
    var lines := RenderLines(ls);
    forall i | 0 <= i < |lines|
      ensures |lines[i]| >= |DoubleIndent| && lines[i][..|DoubleIndent|] == DoubleIndent
      ensures ' ' in Dedent(lines[i]) ==> |lines[i]| <= MaxWidth - 1
    {
      assert Dedent(lines[i]) == Text.Join(ls[i], " ");
      if |ls[i]| == 1 {
        assert Text.Join(ls[i], " ") == ls[i][0];
      }
    }
  }
}
