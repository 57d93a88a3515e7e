/**
 * The comment tokens `<!--MATH_BLOCK_{k}-->` that stand in for stashed math
 * while the Markdown library runs (converter.py:99, 102 and 107).
 */
module Placeholders {
  import opened Text

  /** What every placeholder starts with. Its only '<' is its first character. */
  const Marker: string := "<!--MATH_BLOCK_"

  /** The placeholder for stash entry `k`: the marker, the decimal index, and `-->`. */
  function Placeholder(k: nat): string {
    "<!--MATH_BLOCK_" + NatToString(k) + "-->"
  }

  /** A marker, and so possibly a placeholder, starts at offset `o` of `s`. */
  predicate MarkerAt(s: string, o: int) {
    MatchAt(s, o, Marker)
  }

  ghost predicate MarkerFree(s: string) {
    forall o :: !MarkerAt(s, o)
  }

  /** If `t` and `pat` differ at offset `d` of a candidate occurrence at `o`, there is none. */
  lemma DifferAt(t: string, o: int, pat: string, d: int)
    requires 0 <= o && 0 <= d < |pat| && o + d < |t|
    requires t[o + d] != pat[d]
    ensures !MatchAt(t, o, pat)
  {
    if o + |pat| <= |t| {
      assert t[o..o + |pat|][d] == t[o + d];
    }
  }

  /** An occurrence of a placeholder is in particular an occurrence of the marker. */
  lemma PlaceholderMatchIsMarker(s: string, o: int, i: nat)
    ensures MatchAt(s, o, Placeholder(i)) ==> MarkerAt(s, o)
  {
    var p := Placeholder(i);
    if MatchAt(s, o, p) {
      assert s[o..o + |Marker|] == s[o..o + |p|][..|Marker|] == p[..|Marker|];
    }
  }

  /** No placeholder holds a `$`, so neither math pattern can start inside one. */
  lemma PlaceholderHasNoDollar(k: nat, o: int)
    requires 0 <= o < |Placeholder(k)|
    ensures Placeholder(k)[o] != '$'
  {
    var p := Placeholder(k);
    var d := NatToString(k);
    if o < |Marker| {
      assert p[o] == Marker[o];
    } else if o < |Marker| + |d| {
      NatToStringDigits(k);
      assert p[o] == d[o - |Marker|];
      assert IsDigit(d[o - |Marker|]);
    } else {
      assert p[o] == "-->"[o - |Marker| - |d|];
    }
  }

  /** The only '<' in a placeholder is the one it starts with. */
  lemma PlaceholderOneOpening(k: nat, o: int)
    requires 0 < o < |Placeholder(k)|
    ensures Placeholder(k)[o] != '<'
  {
    var p := Placeholder(k);
    var d := NatToString(k);
    if o < |Marker| {
      assert p[o] == Marker[o];
    } else if o < |Marker| + |d| {
      NatToStringDigits(k);
      assert p[o] == d[o - |Marker|];
      assert IsDigit(d[o - |Marker|]);
    } else {
      assert p[o] == "-->"[o - |Marker| - |d|];
    }
  }

  /**
   * Placeholders do not match inside one another: `<!--MATH_BLOCK_1-->` does
   * not occur at any offset of `<!--MATH_BLOCK_10-->`, whatever follows it,
   * because the digits are closed by `-->` and only the first character is '<'.
   */
  lemma {:induction false} PlaceholderOnlyMatchesItself(i: nat, k: nat, rest: string)
    requires i != k
    ensures forall o :: 0 <= o < |Placeholder(k)| ==> !MatchAt(Placeholder(k) + rest, o, Placeholder(i))
  {
    var t := Placeholder(k) + rest;
    var p := Placeholder(i);
    var di, dk := NatToString(i), NatToString(k);
    var m := |Marker|;
    NatToStringDigits(i);
    NatToStringDigits(k);
    forall o | 0 <= o < |Placeholder(k)|
      ensures !MatchAt(t, o, p)
    {
      if o == 0 {
        if |di| < |dk| {
          assert p[m + |di|] == '-';
          assert t[m + |di|] == dk[|di|];
          assert IsDigit(dk[|di|]);
          DifferAt(t, 0, p, m + |di|);
        } else if |di| > |dk| {
          assert p[m + |dk|] == di[|dk|];
          assert IsDigit(di[|dk|]);
          assert t[m + |dk|] == '-';
          DifferAt(t, 0, p, m + |dk|);
        } else {
          if di == dk {
            NatToStringInjective(i, k);
          }
          var j :| 0 <= j < |di| && di[j] != dk[j];
          assert p[m + j] == di[j];
          assert t[m + j] == dk[j];
          DifferAt(t, 0, p, m + j);
        }
      } else {
        PlaceholderOneOpening(k, o);
        assert t[o] == Placeholder(k)[o];
        DifferAt(t, o, p, 0);
      }
    }
  }
}
