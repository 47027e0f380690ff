/** The PHP string built-ins the settings form relies on: trim(), strtolower(),
    intval() and empty() applied to a string. A `char` stands for one byte of a
    PHP string; only the ASCII range carries any special meaning here. */
module PhpStrings {

  /* ---------------------------------------------------------------- trim() */

  /** The characters trim() strips when no character list is given: space, tab,
      line feed, carriage return, NUL and vertical tab. Form feed is NOT one. */
  predicate IsTrimChar(c: char) {
    c == ' ' || c == '\t' || c == '\n' || c == '\r' || c == '\0' || c == '\U{000B}'
  }

  predicate AllTrimChars(s: string) {
    forall i :: 0 <= i < |s| ==> IsTrimChar(s[i])
  }

  /** A string trim() gives back unchanged: empty, or bordered on both sides by
      a character that is not a trim character. */
  predicate IsTrimmed(s: string) {
    |s| == 0 || (!IsTrimChar(s[0]) && !IsTrimChar(s[|s| - 1]))
  }

  /** `t` is `m` with nothing but trim characters added on either side. */
  ghost predicate IsPaddedInfix(m: string, t: string) {
    exists p, q :: AllTrimChars(p) && AllTrimChars(q) && t == p + m + q
  }

  /** Index of the first character at or after `i` that trim() keeps, or
      |s| when there is none: the forward scan of trim(). */
  function TrimStart(s: string, i: nat): (a: nat)
    requires i <= |s|
    ensures i <= a <= |s|
    ensures forall k :: i <= k < a ==> IsTrimChar(s[k])
    ensures a < |s| ==> !IsTrimChar(s[a])
    decreases |s| - i
  {
    if i < |s| && IsTrimChar(s[i]) then TrimStart(s, i + 1) else i
  }

  /** Index just past the last character before `j` that trim() keeps, not
      going below `lo`: the backward scan of trim(). */
  function TrimEnd(s: string, lo: nat, j: nat): (b: nat)
    requires lo <= j <= |s|
    ensures lo <= b <= j
    ensures forall k :: b <= k < j ==> IsTrimChar(s[k])
    ensures b > lo ==> !IsTrimChar(s[b - 1])
    decreases j
  {
    if j > lo && IsTrimChar(s[j - 1]) then TrimEnd(s, lo, j - 1) else j
  }

  /** How many leading characters trim() cuts away. */
  function TrimOffset(s: string): (n: nat)
    ensures n <= |s|
  {
    TrimStart(s, 0)
  }

  /** trim(): the result is a trimmed infix of the input, starting at
      TrimOffset(s), and every character cut away on either side is a trim
      character. */
  function Trim(s: string): (r: string)
    ensures IsTrimmed(r)
    ensures TrimOffset(s) + |r| <= |s| && r == s[TrimOffset(s)..TrimOffset(s) + |r|]
    ensures forall k :: 0 <= k < TrimOffset(s) ==> IsTrimChar(s[k])
    ensures forall k :: TrimOffset(s) + |r| <= k < |s| ==> IsTrimChar(s[k])
  {
    var a := TrimStart(s, 0);
    var b := TrimEnd(s, a, |s|);
    s[a..b]
  }

  /** trim() removes exactly the padding: a trimmed core surrounded by trim
      characters comes back as that core. This pins trim() down uniquely. */
  lemma TrimOfPadded(p: string, m: string, q: string)
    requires AllTrimChars(p) && AllTrimChars(q) && IsTrimmed(m)
    ensures Trim(p + m + q) == m
  {
    var s := p + m + q;
    var a := TrimStart(s, 0);
    var b := TrimEnd(s, a, |s|);
    if |m| == 0 {
      assert forall k :: 0 <= k < |s| ==> IsTrimChar(s[k]) by {
        forall k | 0 <= k < |s| ensures IsTrimChar(s[k]) {
          if k < |p| { assert s[k] == p[k]; } else { assert s[k] == q[k - |p|]; }
        }
      }
      assert a == |s|;
    } else {
      assert s[|p|] == m[0];
      assert s[|p| + |m| - 1] == m[|m| - 1];
      assert a == |p|;
      assert b == |p| + |m|;
      assert s[a..b] == m;
    }
  }

  lemma AllTrimCharsAppend(a: string, b: string)
    requires AllTrimChars(a) && AllTrimChars(b)
    ensures AllTrimChars(a + b)
  {
  }

  /** A string is its trim() result with the cut-away padding put back. */
  lemma TrimSplit(s: string)
    ensures s == s[..TrimOffset(s)] + Trim(s) + s[TrimOffset(s) + |Trim(s)|..]
    ensures AllTrimChars(s[..TrimOffset(s)])
    ensures AllTrimChars(s[TrimOffset(s) + |Trim(s)|..])
  {
  }

  lemma Regroup(p: string, a: string, m: string, b: string, q: string)
    ensures p + (a + m + b) + q == (p + a) + m + (b + q)
  {
  }

  /** Extra trim characters around a string never change what trim() returns. */
  lemma TrimIgnoresPadding(p: string, s: string, q: string)
    requires AllTrimChars(p) && AllTrimChars(q)
    ensures Trim(p + s + q) == Trim(s)
  {
    var m := Trim(s);
    var i := TrimOffset(s);
    var p', q' := s[..i], s[i + |m|..];
    assert AllTrimChars(p + p') by { AllTrimCharsAppend(p, p'); }
    assert AllTrimChars(q' + q) by { AllTrimCharsAppend(q', q); }
    assert p + s + q == (p + p') + m + (q' + q) by {
      TrimSplit(s);
      Regroup(p, p', m, q', q);
    }
    TrimOfPadded(p + p', m, q' + q);
  }

  lemma TrimIdempotent(s: string)
    ensures Trim(Trim(s)) == Trim(s)
  {
    var m := Trim(s);
    assert [] + m + [] == m;
    TrimOfPadded([], m, []);
  }

  /* ---------------------------------------------------------- strtolower() */

  predicate IsUpperAscii(c: char) {
    'A' <= c <= 'Z'
  }

  function LowerChar(c: char): (d: char)
    ensures !IsUpperAscii(d)
    ensures IsUpperAscii(c) ==> d as int == c as int + 32
    ensures !IsUpperAscii(c) ==> d == c
  {
    if IsUpperAscii(c) then (c as int + 32) as char else c
  }

  /** strtolower(): ASCII capitals become small letters, every other character
      is kept in place. */
  function ToLower(s: string): (r: string)
    ensures |r| == |s|
    ensures forall i :: 0 <= i < |s| ==> r[i] == LowerChar(s[i])
  {
    seq(|s|, i requires 0 <= i < |s| => LowerChar(s[i]))
  }

  /** strtolower() leaves no capital behind, so applying it twice is the same
      as applying it once. */
  lemma ToLowerIdempotent(s: string)
    ensures ToLower(ToLower(s)) == ToLower(s)
    ensures forall i :: 0 <= i < |s| ==> !IsUpperAscii(ToLower(s)[i])
  {
  }

  /** A string without capitals is its own lower-case form. */
  lemma ToLowerFixed(s: string)
    requires forall i :: 0 <= i < |s| ==> !IsUpperAscii(s[i])
    ensures ToLower(s) == s
  {
  }

  lemma ToLowerAppend(a: string, b: string)
    ensures ToLower(a + b) == ToLower(a) + ToLower(b)
  {
  }

  /** Two strings of equal length with trim characters in the same places are
      trimmed at the same positions. */
  lemma TrimSamePositions(s: string, t: string)
    requires |s| == |t|
    requires forall k :: 0 <= k < |s| ==> (IsTrimChar(s[k]) <==> IsTrimChar(t[k]))
    ensures TrimOffset(s) == TrimOffset(t)
    ensures |Trim(s)| == |Trim(t)|
  {
    var a, a' := TrimStart(s, 0), TrimStart(t, 0);
    assert a == a';
    var b, b' := TrimEnd(s, a, |s|), TrimEnd(t, a, |t|);
    assert b == b';
  }

  /** Lower-casing and trimming commute: trim characters are not letters, and
      letters are never trim characters. */
  lemma TrimToLowerCommute(s: string)
    ensures Trim(ToLower(s)) == ToLower(Trim(s))
  {
    var l := ToLower(s);
    TrimSamePositions(s, l);
    var a, n := TrimOffset(s), |Trim(s)|;
    assert Trim(l) == l[a..a + n];
    assert Trim(s) == s[a..a + n];
  }

  /** Lower-casing a trimmed string keeps it trimmed: trim characters are
      not letters. */
  lemma LowerKeepsTrimmed(m: string)
    requires IsTrimmed(m)
    ensures IsTrimmed(ToLower(m))
  {
    if |m| > 0 {
      assert ToLower(m)[0] == LowerChar(m[0]);
      assert ToLower(m)[|m| - 1] == LowerChar(m[|m| - 1]);
    }
  }

  /** Trim characters are not capitals, so lower-casing leaves them alone. */
  lemma LowerKeepsTrimChars(p: string)
    requires AllTrimChars(p)
    ensures ToLower(p) == p
  {
    ToLowerFixed(p);
  }

  /** Lower-casing a string lower-cases its trimmed core and leaves the
      padding trim() cuts away as it was. */
  lemma LowerCaseKeepsPadding(s: string)
    ensures var i, n := TrimOffset(s), |Trim(s)|;
      ToLower(s) == s[..i] + ToLower(Trim(s)) + s[i + n..]
    ensures IsPaddedInfix(ToLower(Trim(s)), ToLower(s))
  {
    var m := Trim(s);
    var i := TrimOffset(s);
    var p, q := s[..i], s[i + |m|..];
    TrimSplit(s);
    calc {
      ToLower(s);
      ToLower((p + m) + q);
      { ToLowerAppend(p + m, q); }
      ToLower(p + m) + ToLower(q);
      { ToLowerAppend(p, m); }
      ToLower(p) + ToLower(m) + ToLower(q);
      { LowerKeepsTrimChars(p); LowerKeepsTrimChars(q); }
      p + ToLower(m) + q;
    }
    assert AllTrimChars(p) && AllTrimChars(q);
  }

  /* -------------------------------------------------------- empty($string) */

  /** empty() on a string value: true exactly for "" and for "0". */
  predicate IsEmptyString(s: string): (b: bool)
    ensures b <==> |s| <= 1 && forall i :: 0 <= i < |s| ==> s[i] == '0'
  {
    s == "" || s == "0"
  }

  /* -------------------------------------------------------------- intval() */

  /** The whitespace PHP skips in front of a numeric string: space, tab, line
      feed, carriage return, vertical tab and form feed. */
  predicate IsNumericSpace(c: char) {
    c == ' ' || c == '\t' || c == '\n' || c == '\r' || c == '\U{000B}' || c == '\U{000C}'
  }

  predicate IsDigit(c: char) {
    '0' <= c <= '9'
  }

  predicate AllDigits(s: string) {
    forall i :: 0 <= i < |s| ==> IsDigit(s[i])
  }

  /** Index of the first character at or after `i` that is not whitespace
      in front of a number, or |s| when there is none. */
  function NumberStart(s: string, i: nat): (a: nat)
    requires i <= |s|
    ensures i <= a <= |s|
    ensures forall k :: i <= k < a ==> IsNumericSpace(s[k])
    ensures a < |s| ==> !IsNumericSpace(s[a])
    decreases |s| - i
  {
    if i < |s| && IsNumericSpace(s[i]) then NumberStart(s, i + 1) else i
  }

  /** Index just past the run of decimal digits that starts at `i`. */
  function DigitsEnd(s: string, i: nat): (b: nat)
    requires i <= |s|
    ensures i <= b <= |s|
    ensures forall k :: i <= k < b ==> IsDigit(s[k])
    ensures b < |s| ==> !IsDigit(s[b])
    decreases |s| - i
  {
    if i < |s| && IsDigit(s[i]) then DigitsEnd(s, i + 1) else i
  }

  /** True when the number intval() reads is written with a minus sign. */
  predicate LeadingMinus(s: string) {
    var a := NumberStart(s, 0);
    a < |s| && s[a] == '-'
  }

  /** Where the digits intval() reads begin: after the leading whitespace and
      an optional sign. */
  function DigitsStart(s: string): (d: nat)
    ensures d <= |s|
  {
    var a := NumberStart(s, 0);
    if a < |s| && (s[a] == '-' || s[a] == '+') then a + 1 else a
  }

  /** The digits intval() reads. Empty when the string does not start with a
      number. */
  function LeadingDigits(s: string): (ds: string)
    ensures AllDigits(ds)
  {
    var d := DigitsStart(s);
    s[d..DigitsEnd(s, d)]
  }

  /** For a string that starts with its digits (no whitespace, no sign), the
      digits intval() reads are the maximal digit prefix. */
  lemma LeadingDigitsOfUnsigned(s: string, n: nat)
    requires n <= |s|
    requires |s| > 0 ==> !IsNumericSpace(s[0]) && s[0] != '-' && s[0] != '+'
    requires forall k :: 0 <= k < n ==> IsDigit(s[k])
    requires n == |s| || !IsDigit(s[n])
    ensures LeadingDigits(s) == s[..n]
  {
    var a := NumberStart(s, 0);
    assert a == 0;
    var b := DigitsEnd(s, 0);
    assert b == n;
  }

  /** The decimal value of a digit string, read most significant digit first. */
  function DigitsValue(ds: string): (v: nat)
    requires AllDigits(ds)
  {
    if |ds| == 0 then 0 else DigitsValue(ds[..|ds| - 1]) * 10 + (ds[|ds| - 1] as int - '0' as int)
  }

  /** A digit string is worth nothing exactly when every digit is a zero. */
  lemma {:induction false} DigitsValueZeroIff(ds: string)
    requires AllDigits(ds)
    ensures DigitsValue(ds) == 0 <==> forall i :: 0 <= i < |ds| ==> ds[i] == '0'
    decreases |ds|
  {
    if |ds| > 0 {
      var init := ds[..|ds| - 1];
      DigitsValueZeroIff(init);
      assert forall i :: 0 <= i < |init| ==> init[i] == ds[i];
    }
  }

  /** intval() on a string: the signed value of its leading integer, 0 when it
      has none. Its sign comes from the minus intval() reads, and it is 0
      exactly when that leading integer is made of zeros only (or absent). */
  function IntVal(s: string): (v: int)
    ensures v == 0 <==> forall i :: 0 <= i < |LeadingDigits(s)| ==> LeadingDigits(s)[i] == '0'
    ensures v < 0 <==> v != 0 && LeadingMinus(s)
    ensures v > 0 <==> v != 0 && !LeadingMinus(s)
  {
    var ds := LeadingDigits(s);
    DigitsValueZeroIff(ds);
    var n: int := DigitsValue(ds);
    if LeadingMinus(s) then -n else n
  }

  /** The minus intval() honours is either the first character, or follows
      whitespace that starts the string. */
  lemma LeadingMinusAtStart(s: string)
    requires LeadingMinus(s)
    ensures |s| > 0 && (s[0] == '-' || IsNumericSpace(s[0]))
  {
    var a := NumberStart(s, 0);
    if a > 0 {
      assert IsNumericSpace(s[0]);
    }
  }
}
