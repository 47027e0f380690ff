/** The unit check of the settings form: preg_match of the pattern
    \b(sec|second|min|minute|hour|week|month|year)s?\b against the normalised
    expiry string, without the /u modifier, so \b is the ASCII word boundary. */
module TimeUnitPattern {

  /** The unit vocabulary, in the order the alternation lists it. */
  const TimeIntervals: seq<string> :=
    ["sec", "second", "min", "minute", "hour", "week", "month", "year"]

  /** A character of \w: ASCII letter, digit or underscore. */
  predicate IsWordChar(c: char) {
    ('a' <= c <= 'z') || ('A' <= c <= 'Z') || ('0' <= c <= '9') || c == '_'
  }

  /** A word character sits at position i; outside the string there is none. */
  predicate WordCharAt(s: string, i: int) {
    0 <= i < |s| && IsWordChar(s[i])
  }

  /** \b holds at position i when exactly one of the characters on either
      side of it is a word character. */
  predicate IsBoundary(s: string, i: int) {
    WordCharAt(s, i - 1) != WordCharAt(s, i)
  }

  /** The pattern matches starting at i with token `tok`, followed by an `s`
      when `plural`, and a word boundary before and after. */
  predicate UnitAt(s: string, i: int, tok: string, plural: bool) {
    var end := i + |tok| + (if plural then 1 else 0);
    && 0 <= i
    && end <= |s|
    && s[i..i + |tok|] == tok
    && (plural ==> s[i + |tok|] == 's')
    && IsBoundary(s, i)
    && IsBoundary(s, end)
  }

  /** What preg_match reports: some position, alternative and choice for the
      optional `s` makes the whole pattern match. Backtracking tries all of
      them, so the match exists exactly when such a choice exists. */
  ghost predicate MatchesUnitPattern(s: string) {
    exists i, k, plural :: 0 <= k < |TimeIntervals| && UnitAt(s, i, TimeIntervals[k], plural)
  }

  /** Some token of `toks`, singular or plural, matches at position i. */
  function SomeTokenAt(s: string, i: int, toks: seq<string>): (b: bool)
    ensures b <==> exists k, plural :: 0 <= k < |toks| && UnitAt(s, i, toks[k], plural)
    decreases |toks|
  {
    if |toks| == 0 then false
    else
      var rest := SomeTokenAt(s, i, toks[1..]);
      assert forall k :: 1 <= k < |toks| ==> toks[1..][k - 1] == toks[k];
      UnitAt(s, i, toks[0], false) || UnitAt(s, i, toks[0], true) || rest
  }

  /** Some position at or after `from` starts a match. */
  ghost predicate MatchFrom(s: string, from: int) {
    exists i, k, plural :: from <= i && 0 <= k < |TimeIntervals| && UnitAt(s, i, TimeIntervals[k], plural)
  }

  /** A match at or after `from` is a match at `from` or at or after `from + 1`. */
  lemma MatchFromStep(s: string, from: nat)
    requires from <= |s|
    ensures MatchFrom(s, from) <==>
              (exists k, plural :: 0 <= k < |TimeIntervals| && UnitAt(s, from, TimeIntervals[k], plural))
              || (from < |s| && MatchFrom(s, from + 1))
  {
    if MatchFrom(s, from) {
      var i, k, plural :| from <= i && 0 <= k < |TimeIntervals| && UnitAt(s, i, TimeIntervals[k], plural);
      if i > from {
        assert from < |s|;
        assert MatchFrom(s, from + 1);
      }
    }
  }

  /** Left-to-right search for a match starting at position `from` or later. */
  function ScanFrom(s: string, from: nat): (b: bool)
    requires from <= |s|
    ensures b <==> MatchFrom(s, from)
    decreases |s| - from
  {
    MatchFromStep(s, from);
    SomeTokenAt(s, from, TimeIntervals) || (from < |s| && ScanFrom(s, from + 1))
  }

  /** The executable unit check agrees with the regular-expression semantics. */
  function ContainsTimeUnit(s: string): (b: bool)
    ensures b <==> MatchesUnitPattern(s)
  {
    assert MatchFrom(s, 0) <==> MatchesUnitPattern(s);
    ScanFrom(s, 0)
  }

  /** The letters a unit token can begin with. */
  predicate IsTokenInitial(c: char) {
    c == 's' || c == 'm' || c == 'h' || c == 'w' || c == 'y'
  }

  lemma TokenShape(k: int)
    requires 0 <= k < |TimeIntervals|
    ensures |TimeIntervals[k]| >= 3 && IsTokenInitial(TimeIntervals[k][0])
  {
  }

  /** A unit token can only begin a word: a match needs a token letter at the
      start of a word, with room for at least three letters. */
  lemma UnitStartsAWord(s: string)
    requires forall i :: 0 <= i && i + 3 <= |s| && IsTokenInitial(s[i]) ==> WordCharAt(s, i - 1)
    ensures !MatchesUnitPattern(s)
  {
    forall i, k, plural | 0 <= k < |TimeIntervals|
      ensures !UnitAt(s, i, TimeIntervals[k], plural)
    {
      TokenShape(k);
    }
  }
}
