/**
 * The handful of Python string built-ins the converter relies on, written out:
 * `str(n)` on integers, `str.replace` and `str.strip`.
 */
module Text {

  datatype Option<T> = None | Some(value: T)

  // ---------------------------------------------------------------------------
  // Decimal rendering, as Python's `str(n)` (used in f-strings)
  // ---------------------------------------------------------------------------

  predicate IsDigit(c: char) {
    '0' <= c <= '9'
  }

  function DigitChar(d: nat): (c: char)
    requires d < 10
    ensures IsDigit(c) && c as int - '0' as int == d
  {
    ('0' as int + d) as char
  }

  /** The decimal digits of `n`, most significant first, with no leading zero. */
  function NatToString(n: nat): (s: string)
    ensures |s| > 0
    decreases n
  {
    if n < 10 then [DigitChar(n)] else NatToString(n / 10) + [DigitChar(n % 10)]
  }

  /** The rendering consists of digits, and starts with `0` only for zero. */
  lemma {:induction false} NatToStringDigits(n: nat)
    ensures forall i :: 0 <= i < |NatToString(n)| ==> IsDigit(NatToString(n)[i])
    ensures NatToString(n)[0] == '0' ==> n == 0
    decreases n
  {
    if n >= 10 {
      NatToStringDigits(n / 10);
      var s := NatToString(n);
      assert s[0] == NatToString(n / 10)[0];
    }
  }

  /** Reads a string of decimal digits back as a number. */
  function DigitsValue(s: string): (v: nat)
    requires forall i :: 0 <= i < |s| ==> IsDigit(s[i])
  {
    if |s| == 0 then 0
    else
      assert IsDigit(s[|s| - 1]);
      DigitsValue(s[..|s| - 1]) * 10 + (s[|s| - 1] as int - '0' as int)
  }

  /** Reading the decimal rendering back gives the number: `int(str(n)) == n`. */
  lemma {:induction false} DigitsRoundTrip(n: nat)
    ensures forall i :: 0 <= i < |NatToString(n)| ==> IsDigit(NatToString(n)[i])
    ensures DigitsValue(NatToString(n)) == n
    decreases n
  {
    NatToStringDigits(n);
    if n >= 10 {
      var s := NatToString(n);
      assert s[..|s| - 1] == NatToString(n / 10);
      NatToStringDigits(n / 10);
      DigitsRoundTrip(n / 10);
    }
  }

  /** Distinct numbers have distinct decimal renderings. */
  lemma NatToStringInjective(a: nat, b: nat)
    requires NatToString(a) == NatToString(b)
    ensures a == b
  {
    DigitsRoundTrip(a);
    DigitsRoundTrip(b);
  }

  /** Python's `str(n)` for any integer: a minus sign before negative values. */
  function IntToString(n: int): (s: string)
    ensures |s| > 0
    ensures n < 0 <==> s[0] == '-'
    ensures n >= 0 ==> s == NatToString(n)
    ensures n < 0 ==> s == "-" + NatToString(-n)
  {
    if n < 0 then
      NatToStringDigits(-n);
      "-" + NatToString(-n)
    else
      NatToStringDigits(n);
      NatToString(n)
  }

  // ---------------------------------------------------------------------------
  // Occurrences and `str.replace`
  // ---------------------------------------------------------------------------

  /** `pat` occurs in `s` starting at offset `o`. */
  predicate MatchAt(s: string, o: int, pat: string) {
    0 <= o && o + |pat| <= |s| && s[o..o + |pat|] == pat
  }

  ghost predicate Contains(s: string, pat: string) {
    exists o :: MatchAt(s, o, pat)
  }

  /**
   * Python's `s.replace(pat, rep)` for a non-empty `pat`: occurrences are
   * found left to right and do not overlap.
   */
  function ReplaceAll(s: string, pat: string, rep: string): string
    requires |pat| > 0
    decreases |s|
  {
    if |s| < |pat| then s
    else if s[..|pat|] == pat then rep + ReplaceAll(s[|pat|..], pat, rep)
    else [s[0]] + ReplaceAll(s[1..], pat, rep)
  }

  /**
   * A prefix `x` in which no occurrence of `pat` starts is copied unchanged,
   * and replacement carries on after it.
   */
  lemma {:induction false} ReplaceAllSkips(x: string, rest: string, pat: string, rep: string)
    requires |pat| > 0
    requires forall o :: 0 <= o < |x| ==> !MatchAt(x + rest, o, pat)
    ensures ReplaceAll(x + rest, pat, rep) == x + ReplaceAll(rest, pat, rep)
    decreases |x|
  {
    var t := x + rest;
    if |x| == 0 {
      assert t == rest;
    } else if |t| < |pat| {
      assert ReplaceAll(rest, pat, rep) == rest;
    } else {
      assert !MatchAt(t, 0, pat);
      var u := x[1..] + rest;
      assert t[1..] == u;
      forall o | 0 <= o < |x[1..]|
        ensures !MatchAt(u, o, pat)
      {
        assert !MatchAt(t, o + 1, pat);
        assert u[o..] == t[o + 1..];
      }
      ReplaceAllSkips(x[1..], rest, pat, rep);
      calc {
        ReplaceAll(t, pat, rep);
        [t[0]] + ReplaceAll(u, pat, rep);
        [x[0]] + (x[1..] + ReplaceAll(rest, pat, rep));
        ([x[0]] + x[1..]) + ReplaceAll(rest, pat, rep);
        { assert [x[0]] + x[1..] == x; }
        x + ReplaceAll(rest, pat, rep);
      }
    }
  }

  /** A string in which `pat` does not occur is left unchanged by `replace`. */
  lemma ReplaceAllAbsent(s: string, pat: string, rep: string)
    requires |pat| > 0
    requires !Contains(s, pat)
    ensures ReplaceAll(s, pat, rep) == s
  {
    assert s + "" == s;
    ReplaceAllSkips(s, "", pat, rep);
  }

  /** An occurrence at the very start is replaced at once. */
  lemma ReplaceAllAtStart(pat: string, rest: string, rep: string)
    requires |pat| > 0
    ensures ReplaceAll(pat + rest, pat, rep) == rep + ReplaceAll(rest, pat, rep)
  {
    var t := pat + rest;
    assert t[..|pat|] == pat;
    assert t[|pat|..] == rest;
  }

  // ---------------------------------------------------------------------------
  // `str.strip()` with no argument
  // ---------------------------------------------------------------------------

  /** The characters Python's `str.isspace` (and so `str.strip`) treats as whitespace. */
  predicate IsSpace(c: char) {
    || c == ' '
    || '\t' <= c <= '\r'                       // \t \n \v \f \r
    || '\U{1C}' <= c <= '\U{1F}'               // file, group, record, unit separators
    || c == '\U{85}' || c == '\U{A0}' || c == '\U{1680}'
    || '\U{2000}' <= c <= '\U{200A}'
    || c == '\U{2028}' || c == '\U{2029}' || c == '\U{202F}' || c == '\U{205F}'
    || c == '\U{3000}'
  }

  predicate AllSpace(s: string) {
    forall q :: 0 <= q < |s| ==> IsSpace(s[q])
  }

  /** The first index at or after `i` that holds a non-whitespace character, or `|s|`. */
  function SkipSpaces(s: string, i: nat): (a: nat)
    requires i <= |s|
    ensures i <= a <= |s|
    ensures forall q :: i <= q < a ==> IsSpace(s[q])
    ensures a < |s| ==> !IsSpace(s[a])
    decreases |s| - i
  {
    if i == |s| || !IsSpace(s[i]) then i else SkipSpaces(s, i + 1)
  }

  /** Moves the end `b` left over whitespace, stopping at `a`. */
  function SkipSpacesBack(s: string, a: nat, b: nat): (e: nat)
    requires a <= b <= |s|
    ensures a <= e <= b
    ensures forall q :: e <= q < b ==> IsSpace(s[q])
    ensures a < e ==> !IsSpace(s[e - 1])
    decreases b
  {
    if b == a || !IsSpace(s[b - 1]) then b else SkipSpacesBack(s, a, b - 1)
  }

  /**
   * `s.strip()`: `s` with the whitespace cut from both ends; what is left
   * neither starts nor ends with whitespace.
   */
  function Strip(s: string): (r: string)
    ensures r == [] <==> AllSpace(s)
    ensures r != [] ==> !IsSpace(r[0]) && !IsSpace(r[|r| - 1])
  {
    var a := SkipSpaces(s, 0);
    s[a..SkipSpacesBack(s, a, |s|)]
  }

  /** Only whitespace is cut: `s` is the stripped text with whitespace around it. */
  lemma StripCutsOnlySpace(s: string)
    ensures exists a :: MatchAt(s, a, Strip(s)) && AllSpace(s[..a]) && AllSpace(s[a + |Strip(s)|..])
  {
    var a := SkipSpaces(s, 0);
    var b := SkipSpacesBack(s, a, |s|);
    assert Strip(s) == s[a..b];
    assert MatchAt(s, a, s[a..b]);
    assert AllSpace(s[..a]);
    assert AllSpace(s[b..]);
  }
}
