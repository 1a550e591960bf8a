/** The `touch` use case's time-stamp constraint: the pattern
    `^((\d\d)?\d\d)?(\d){8}(\.\d\d)?$`, that is `[[CC]YY]MMDDhhmm[.ss]`. */
module TimeConstraint {
  import Text

  // ----- The pattern, piece by piece -----

  /** `((\d\d)?\d\d)?`: nothing, or two or four digits. */
  predicate CenturyYear(s: string) {
    s == "" || ((|s| == 2 || |s| == 4) && Text.AllDigits(s))
  }

  /** `(\d){8}` */
  predicate MonthDayTime(s: string) {
    |s| == 8 && Text.AllDigits(s)
  }

  /** `(\.\d\d)?`: nothing, or a dot and two digits. */
  predicate Seconds(s: string) {
    s == "" || (|s| == 3 && s[0] == '.' && Text.AllDigits(s[1..]))
  }

  /** The three groups in a row, covering the whole text. */
  predicate PatternMatches(p: string) {
    exists i, j :: 0 <= i <= j <= |p| && CenturyYear(p[..i]) && MonthDayTime(p[i..j]) && Seconds(p[j..])
  }

  /** `Regex.IsMatch` with the pattern anchored by `^` and `$`. Without the
      multi-line option `$` also matches before a line feed that ends the
      text, so one trailing line feed is accepted. */
  predicate IsMatch(p: string) {
    || PatternMatches(p)
    || (|p| >= 1 && p[|p| - 1] == '\n' && PatternMatches(p[..|p| - 1]))
  }

  // ----- The time-stamp shape -----

  /** 8, 10 or 12 digits. */
  predicate DigitsPart(s: string) {
    (|s| == 8 || |s| == 10 || |s| == 12) && Text.AllDigits(s)
  }

  /** A stamp: the digits, optionally followed by a dot and two digits. */
  predicate Stamp(p: string) {
    || DigitsPart(p)
    || (|p| >= 3 && DigitsPart(p[..|p| - 3]) && p[|p| - 3] == '.' && Text.AllDigits(p[|p| - 2..]))
  }

  /** TimeConstraint.IsValid, decided from the shape of the text. */
  function IsValid(p: string): (r: bool)
    ensures r <==> IsMatch(p)
  {
    PatternIsStamp(p);
    if |p| >= 1 && p[|p| - 1] == '\n' then
      PatternIsStamp(p[..|p| - 1]);
      Stamp(p) || Stamp(p[..|p| - 1])
    else Stamp(p)
  }

  // ----- Facts about the constraint -----

  /** Digits of a slice of a digit string. */
  lemma DigitsSlice(s: string, i: int, j: int)
    requires Text.AllDigits(s) && 0 <= i <= j <= |s|
    ensures Text.AllDigits(s[i..j])
  {
    assert forall k :: 0 <= k < j - i ==> s[i..j][k] == s[i + k];
  }

  /** The digits part as the pattern's first two groups. */
  lemma DigitsPartMatches(d: string)
    requires DigitsPart(d)
    ensures CenturyYear(d[..|d| - 8]) && MonthDayTime(d[|d| - 8..])
  {
    DigitsSlice(d, 0, |d| - 8);
    DigitsSlice(d, |d| - 8, |d|);
  }

  /** The two groups before the seconds make a digits part. */
  lemma GroupsMakeDigitsPart(d: string, i: int)
    requires 0 <= i <= |d| && CenturyYear(d[..i]) && MonthDayTime(d[i..])
    ensures DigitsPart(d)
  {
    assert d == d[..i] + d[i..];
    forall k | 0 <= k < |d| ensures Text.IsDigit(d[k]) {
      if k < i {
        assert d[k] == d[..i][k];
      } else {
        assert d[k] == d[i..][k - i];
      }
    }
  }

  /** The pattern accepts exactly the stamps. */
  lemma PatternIsStamp(p: string)
    ensures PatternMatches(p) <==> Stamp(p)
  {
    if PatternMatches(p) {
      var i, j :| 0 <= i <= j <= |p| && CenturyYear(p[..i]) && MonthDayTime(p[i..j]) && Seconds(p[j..]);
      var d := p[..j];
      assert d[..i] == p[..i] && d[i..] == p[i..j];
      GroupsMakeDigitsPart(d, i);
      if p[j..] != "" {
        assert j == |p| - 3 && p[..|p| - 3] == d;
        assert p[|p| - 3] == p[j..][0];
        assert p[|p| - 2..] == p[j..][1..];
      } else {
        assert p == d;
      }
    }
    if Stamp(p) {
      if DigitsPart(p) {
        DigitsPartMatches(p);
        var i := |p| - 8;
        assert p[..i] == p[..i] && p[i..|p|] == p[|p| - 8..] && p[|p|..] == "";
      } else {
        var d := p[..|p| - 3];
        DigitsPartMatches(d);
        var i := |d| - 8;
        var j := |d|;
        assert p[..i] == d[..i] && p[i..j] == d[|d| - 8..];
        assert p[j..][1..] == p[|p| - 2..];
      }
    }
  }

  /** A text of digits alone is accepted exactly when it has 8, 10 or 12
      of them: 9, 11, 13 or more are rejected. */
  lemma DigitsAcceptedByLength(p: string)
    requires Text.AllDigits(p)
    ensures IsValid(p) <==> |p| == 8 || |p| == 10 || |p| == 12
  {
    if |p| >= 3 {
      assert Text.IsDigit(p[|p| - 3]);
    }
  }

  /** The empty text is rejected. */
  lemma EmptyRejected()
    ensures !IsValid("")
  {}

  /** A dotted suffix is accepted only as a dot followed by exactly two
      digits. */
  lemma SecondsNeedTwoDigits(d: string, suffix: string)
    requires DigitsPart(d) && |suffix| >= 1 && suffix[0] == '.'
    requires suffix[|suffix| - 1] != '\n'
    ensures IsValid(d + suffix) <==> |suffix| == 3 && Text.AllDigits(suffix[1..])
  {
    var p := d + suffix;
    assert p[|p| - 1] == suffix[|suffix| - 1];
    if |suffix| == 3 {
      assert p[..|p| - 3] == d && p[|p| - 3] == '.' && p[|p| - 2..] == suffix[1..];
    }
    if IsValid(p) {
      assert !DigitsPart(p) by {
        assert p[|d|] == '.';
      }
      assert p[|p| - 2..] == suffix[1..];
    }
  }

  /** `$` lets one line feed end an accepted stamp. */
  lemma TrailingLineFeedAccepted(p: string)
    requires Stamp(p)
    ensures IsValid(p + "\n")
  {
    assert (p + "\n")[..|p|] == p;
  }
}
