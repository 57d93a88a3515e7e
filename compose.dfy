/**
 * How the two stash passes and the reinsertion loop of `markdown_to_html`
 * fit together (converter.py:103-111).
 *
 * The inline pass scans the display pass's output, in which every display
 * span is already its placeholder. Read back at the level of pieces, that
 * output has a hole for every display entry and one for every inline entry:
 * `Combined` builds this piece sequence. When the Markdown text holds no
 * `<!--MATH_BLOCK_` of its own and no inline span swallows a display
 * placeholder, the combined pieces render to the stashed text, restore to
 * the Markdown text, and spell no marker outside their holes, which is what
 * the reinsertion theorem asks of the HTML body.
 */
module Composition {
  import opened Text
  import opened Placeholders
  import opened MathStash
  import opened Reinsertion
  import opened Combining

  /** `Combined` at a display placeholder. */
  lemma CombinedAtPlaceholder(t: string, i: nat, k: nat, next: nat, n: nat, e: nat)
    requires i < |t| && next < n && MatchAt(t, i, Placeholder(next)) && e == i + |Placeholder(next)|
    ensures Combined(t, i, k, next, n) == [Hole(next)] + Combined(t, e, k, next + 1, n)
  {
    assert Combined(t, i, k, next, n) == [Hole(next)] + Combined(t, i + |Placeholder(next)|, k, next + 1, n);
  }

  /** `Combined` at an inline span. */
  lemma CombinedAtSpan(t: string, i: nat, k: nat, next: nat, n: nat, e: nat)
    requires i < |t| && !(next < n && MatchAt(t, i, Placeholder(next)))
    requires MatchEnd(Inline, t, i) == Some(e)
    ensures Combined(t, i, k, next, n) == [Hole(k)] + Combined(t, e, k + 1, next, n)
  {
  }

  /** `Combined` at a copied character. */
  lemma CombinedAtCopy(t: string, i: nat, k: nat, next: nat, n: nat)
    requires i < |t| && !(next < n && MatchAt(t, i, Placeholder(next)))
    requires MatchEnd(Inline, t, i).None?
    ensures Combined(t, i, k, next, n) == [Lit(t[i])] + Combined(t, i + 1, k, next, n)
  {
  }

  // ---------------------------------------------------------------------------
  // Small facts about occurrences and pieces
  // ---------------------------------------------------------------------------

  lemma MatchAtShift(t: string, i: nat, w: string)
    requires i <= |t|
    ensures MatchAt(t, i, w) <==> MatchAt(t[i..], 0, w)
  {
    if i + |w| <= |t| {
      assert t[i..][0..|w|] == t[i..i + |w|];
    }
  }

  lemma MatchAtCons(t: string, i: nat, w: string)
    requires i < |t| && |w| > 0
    ensures MatchAt(t, i, w) <==> t[i] == w[0] && MatchAt(t, i + 1, w[1..])
  {
    if i + |w| <= |t| {
      assert t[i..i + |w|] == [t[i]] + t[i + 1..i + |w|];
      assert w == [w[0]] + w[1..];
    }
  }

  lemma PrefixOfBoth(a: string, b: string, c: string, d: string, m: nat)
    requires a + b == c + d && m <= |a| && m <= |c|
    ensures a[..m] == c[..m]
  {
    assert a[..m] == (a + b)[..m];
    assert c[..m] == (c + d)[..m];
  }

  /** A marker inside a slice is a marker of the whole text. */
  lemma MarkerInSlice(s: string, a: nat, b: nat, o: int)
    requires a <= b <= |s|
    ensures MarkerAt(s[a..b], o) ==> MarkerAt(s, a + o)
  {
    var m, x := |Marker|, s[a..b];
    if 0 <= o && o + m <= b - a {
      var y, z := x[o..o + m], s[a + o..a + o + m];
      forall q | 0 <= q < m
        ensures y[q] == z[q]
      {
        assert y[q] == x[o + q] == s[a + o + q];
      }
      assert y == z;
    }
  }

  lemma SliceMarkerFree(s: string, a: nat, b: nat)
    requires a <= b <= |s| && MarkerFree(s)
    ensures MarkerFree(s[a..b])
  {
    forall o
      ensures !MarkerAt(s[a..b], o)
    {
      MarkerInSlice(s, a, b, o);
    }
  }

  lemma CleanCons(p: Piece, r: seq<Piece>)
    requires !LitsSpell([p] + r, Marker) && Clean(r)
    ensures Clean([p] + r)
  {
    var ps := [p] + r;
    forall j | 0 <= j < |ps|
      ensures !LitsSpell(ps[j..], Marker)
    {
      if j == 0 {
        assert ps[j..] == ps;
      } else {
        assert ps[j..] == r[j - 1..];
      }
    }
  }

  lemma CleanSuffix(ps: seq<Piece>, m: nat)
    requires Clean(ps) && m <= |ps|
    ensures Clean(ps[m..])
  {
    forall j | 0 <= j < |ps[m..]|
      ensures !LitsSpell(ps[m..][j..], Marker)
    {
      assert ps[m..][j..] == ps[m + j..];
    }
  }

  lemma {:induction false} HoleIndicesLits(x: string, r: seq<Piece>)
    ensures HoleIndices(Lits(x) + r) == HoleIndices(r)
  {
    if x != [] {
      assert Lits(x) + r == [Lit(x[0])] + (Lits(x[1..]) + r);
      HoleIndicesCons(Lit(x[0]), Lits(x[1..]) + r);
      HoleIndicesLits(x[1..], r);
    } else {
      assert Lits(x) + r == r;
    }
  }

  // ---------------------------------------------------------------------------
  // The display pass keeps a marker-free text clean
  // ---------------------------------------------------------------------------

  /** The characters a pass copies in a row are consecutive characters of the text. */
  lemma {:induction false} ScanLitsSpell(d: Delimiter, s: string, i: nat, k: nat, w: string)
    requires i <= |s|
    ensures LitsSpell(ScanFrom(d, s, i, k).pieces, w) ==> MatchAt(s, i, w)
    decreases |w|
  {
    var ps := ScanFrom(d, s, i, k).pieces;
    if |w| > 0 && i < |s| {
      match MatchEnd(d, s, i)
      case Some(e) =>
        var r := ScanFrom(d, s, e, k + 1);
        assert ps == [Hole(k)] + r.pieces;
        assert ps[0] != Lit(w[0]);
      case None =>
        var r := ScanFrom(d, s, i + 1, k);
        assert ps == [Lit(s[i])] + r.pieces;
        LitsSpellCons(ps, w);
        assert ps[1..] == r.pieces;
        ScanLitsSpell(d, s, i + 1, k, w[1..]);
        MatchAtCons(s, i, w);
    } else if |w| > 0 {
      assert ScanFrom(d, s, i, k) == Scan([], []);
    }
  }

  /** On a text without the marker, no run of copied characters spells it. */
  lemma {:induction false} ScanClean(d: Delimiter, s: string, i: nat, k: nat)
    requires i <= |s| && MarkerFree(s)
    ensures Clean(ScanFrom(d, s, i, k).pieces)
    decreases |s| - i
  {
    if i < |s| {
      var ps := ScanFrom(d, s, i, k).pieces;
      ScanLitsSpell(d, s, i, k, Marker);
      assert !MarkerAt(s, i);
      match MatchEnd(d, s, i)
      case Some(e) =>
        var r := ScanFrom(d, s, e, k + 1);
        assert ps == [Hole(k)] + r.pieces;
        ScanClean(d, s, e, k + 1);
        CleanCons(Hole(k), r.pieces);
      case None =>
        var r := ScanFrom(d, s, i + 1, k);
        assert ps == [Lit(s[i])] + r.pieces;
        ScanClean(d, s, i + 1, k);
        CleanCons(Lit(s[i]), r.pieces);
    } else {
      assert ScanFrom(d, s, i, k) == Scan([], []);
    }
  }

  /** The spans a pass stashes from a marker-free text are marker-free. */
  lemma {:induction false} ScanEntriesMarkerFree(d: Delimiter, s: string, i: nat, k: nat)
    requires MarkerFree(s)
    ensures forall j :: 0 <= j < |ScanFrom(d, s, i, k).stash| ==> MarkerFree(ScanFrom(d, s, i, k).stash[j])
    decreases |s| - i
  {
    if i < |s| {
      match MatchEnd(d, s, i)
      case Some(e) =>
        var r := ScanFrom(d, s, e, k + 1);
        assert ScanFrom(d, s, i, k).stash == [s[i..e]] + r.stash;
        SliceMarkerFree(s, i, e);
        ScanEntriesMarkerFree(d, s, e, k + 1);
      case None =>
        assert ScanFrom(d, s, i, k).stash == ScanFrom(d, s, i + 1, k).stash;
        ScanEntriesMarkerFree(d, s, i + 1, k);
    }
  }

  // ---------------------------------------------------------------------------
  // The combined pieces against the inline pass
  // ---------------------------------------------------------------------------

  /** The characters `Combined` copies in a row are consecutive characters of the text. */
  lemma {:induction false} CombinedLitsSpell(t: string, i: nat, k: nat, next: nat, n: nat, w: string)
    requires i <= |t|
    ensures LitsSpell(Combined(t, i, k, next, n), w) ==> MatchAt(t, i, w)
    decreases |w|
  {
    var c := Combined(t, i, k, next, n);
    if |w| > 0 && i < |t| {
      if next < n && MatchAt(t, i, Placeholder(next)) {
        assert c[0] == Hole(next);
      } else {
        match MatchEnd(Inline, t, i)
        case Some(e) =>
          assert c[0] == Hole(k);
        case None =>
          assert c == [Lit(t[i])] + Combined(t, i + 1, k, next, n);
          LitsSpellCons(c, w);
          assert c[1..] == Combined(t, i + 1, k, next, n);
          CombinedLitsSpell(t, i + 1, k, next, n, w[1..]);
          MatchAtCons(t, i, w);
      }
    } else if |w| > 0 {
      assert c == [];
    }
  }

  lemma HolesBelowCons(p: Piece, c: seq<Piece>, n: nat, m: nat)
    requires (p.Hole? ==> p.k < n || p.k < m) && HolesBelow(c, n, m)
    ensures HolesBelow([p] + c, n, m)
  {
    forall j | 0 < j < |[p] + c|
      ensures ([p] + c)[j] == c[j - 1]
    {
    }
  }

  lemma RendersAtPlaceholder(t: string, i: nat, k: nat, next: nat, n: nat, e: nat)
    requires i < |t| && next < n && MatchAt(t, i, Placeholder(next)) && e == i + |Placeholder(next)|
    ensures e <= |t|
    ensures RendersLike(t, e, k, next + 1, n) ==> RendersLike(t, i, k, next, n)
  {
    var c' := Combined(t, e, k, next + 1, n);
    var r := ScanFrom(Inline, t, e, k);
    CombinedAtPlaceholder(t, i, k, next, n, e);
    PlaceholderSkipped(t, i, k, next, e);
    if RendersLike(t, e, k, next + 1, n) {
      RenderCons(Hole(next), c');
      HolesBelowCons(Hole(next), c', n, k + |r.stash|);
    }
  }

  lemma RendersAtSpan(t: string, i: nat, k: nat, next: nat, n: nat, e: nat)
    requires i < |t| && !(next < n && MatchAt(t, i, Placeholder(next)))
    requires MatchEnd(Inline, t, i) == Some(e)
    ensures RendersLike(t, e, k + 1, next, n) ==> RendersLike(t, i, k, next, n)
  {
    var c' := Combined(t, e, k + 1, next, n);
    var r := ScanFrom(Inline, t, e, k + 1);
    CombinedAtSpan(t, i, k, next, n, e);
    assert ScanFrom(Inline, t, i, k) == Scan([Hole(k)] + r.pieces, [t[i..e]] + r.stash);
    if RendersLike(t, e, k + 1, next, n) {
      RenderCons(Hole(k), c');
      RenderCons(Hole(k), r.pieces);
      HolesBelowCons(Hole(k), c', n, k + 1 + |r.stash|);
    }
  }

  lemma RendersAtCopy(t: string, i: nat, k: nat, next: nat, n: nat)
    requires i < |t| && !(next < n && MatchAt(t, i, Placeholder(next)))
    requires MatchEnd(Inline, t, i).None?
    ensures RendersLike(t, i + 1, k, next, n) ==> RendersLike(t, i, k, next, n)
  {
    var c' := Combined(t, i + 1, k, next, n);
    var r := ScanFrom(Inline, t, i + 1, k);
    CombinedAtCopy(t, i, k, next, n);
    assert ScanFrom(Inline, t, i, k) == Scan([Lit(t[i])] + r.pieces, r.stash);
    if RendersLike(t, i + 1, k, next, n) {
      RenderCons(Lit(t[i]), c');
      RenderCons(Lit(t[i]), r.pieces);
      HolesBelowCons(Lit(t[i]), c', n, k + |r.stash|);
    }
  }

  /** By induction along the text, from the step lemmas above. */
  lemma {:induction false} CombinedRenders(t: string, i: nat, k: nat, next: nat, n: nat)
    requires i <= |t|
    ensures RendersLike(t, i, k, next, n)
    decreases |t| - i
  {
    if i == |t| {
      assert ScanFrom(Inline, t, i, k) == Scan([], []);
      assert Combined(t, i, k, next, n) == [];
    } else if next < n && MatchAt(t, i, Placeholder(next)) {
      var e := i + |Placeholder(next)|;
      RendersAtPlaceholder(t, i, k, next, n, e);
      CombinedRenders(t, e, k, next + 1, n);
    } else {
      match MatchEnd(Inline, t, i)
      case Some(e) =>
        RendersAtSpan(t, i, k, next, n, e);
        CombinedRenders(t, e, k + 1, next, n);
      case None =>
        RendersAtCopy(t, i, k, next, n);
        CombinedRenders(t, i + 1, k, next, n);
    }
  }

  /** The inline pass copies a `$`-free run `p`, ending at `e`, character by character and stashes nothing in it. */
  lemma DollarFreeRun(t: string, i: nat, k: nat, p: string, e: nat)
    requires MatchAt(t, i, p) && e == i + |p| && forall q :: 0 <= q < |p| ==> p[q] != '$'
    ensures e <= |t|
    ensures Render(ScanFrom(Inline, t, i, k).pieces) == p + Render(ScanFrom(Inline, t, e, k).pieces)
    ensures ScanFrom(Inline, t, i, k).stash == ScanFrom(Inline, t, e, k).stash
  {
    forall q | i <= q < e
      ensures MatchEnd(Inline, t, q).None?
    {
      assert t[q] == t[i..e][q - i];
    }
    ScanCopies(Inline, t, i, e, k);
    RenderAppend(Lits(p), ScanFrom(Inline, t, e, k).pieces);
    LitsRender(p, []);
  }

  /** A display placeholder is such a run. */
  lemma PlaceholderSkipped(t: string, i: nat, k: nat, j: nat, e: nat)
    requires MatchAt(t, i, Placeholder(j)) && e == i + |Placeholder(j)|
    ensures e <= |t|
    ensures Render(ScanFrom(Inline, t, i, k).pieces) == Placeholder(j) + Render(ScanFrom(Inline, t, e, k).pieces)
    ensures ScanFrom(Inline, t, i, k).stash == ScanFrom(Inline, t, e, k).stash
  {
    forall q | 0 <= q < |Placeholder(j)|
      ensures Placeholder(j)[q] != '$'
    {
      PlaceholderHasNoDollar(j, q);
    }
    DollarFreeRun(t, i, k, Placeholder(j), e);
  }

  /** A text that starts with `p` has `p` at its start and the rest after it. */
  lemma PrefixMatch(t: string, i: nat, p: string, rest: string)
    requires i <= |t| && t[i..] == p + rest
    ensures MatchAt(t, i, p) && t[i + |p|..] == rest
  {
    assert t[i..i + |p|] == t[i..][..|p|] == (p + rest)[..|p|] == p;
    assert t[i + |p|..] == t[i..][|p|..] == (p + rest)[|p|..] == rest;
  }

  // ---------------------------------------------------------------------------
  // The combined pieces against the display pass
  // ---------------------------------------------------------------------------

  /**
   * A placeholder at the start of a text `x + rest` either begins with a
   * whole marker inside `x`, or `x` ends inside it on a character that is
   * not `$`.
   */
  lemma HoleStartCases(j: nat, r: string, x: string, rest: string)
    requires Placeholder(j) + r == x + rest && |x| > 0
    ensures MarkerAt(x, 0) || x[|x| - 1] != '$'
  {
    var p := Placeholder(j);
    if |x| >= |Marker| {
      PrefixOfBoth(p, r, x, rest, |Marker|);
      assert p[..|Marker|] == Marker;
    } else {
      PrefixOfBoth(p, r, x, rest, |x|);
      assert x[|x| - 1] == x[..|x|][|x| - 1] == p[..|x|][|x| - 1];
      PlaceholderHasNoDollar(j, |x| - 1);
    }
  }

  /** A character in front of `u` that spells the start of `x + rest` is `x[0]`, and `u` spells the remainder. */
  lemma LitFront(c: char, u: string, x: string, rest: string)
    requires [c] + u == x + rest && |x| > 0
    ensures x[0] == c && u == x[1..] + rest
  {
    assert ([c] + u)[0] == (x + rest)[0];
    assert ([c] + u)[1..] == (x + rest)[1..] == x[1..] + rest;
  }

  /** Copied characters of `x[1..]` after a copy of `x[0]` are the copied characters of `x`. */
  lemma LitsPrefixStep(ps: seq<Piece>, x: string, m: nat)
    requires 1 <= m <= |ps| && m == |x| && ps[0] == Lit(x[0]) && ps[1..][..m - 1] == Lits(x[1..])
    ensures ps[..m] == Lits(x) && ps[1..][m - 1..] == ps[m..]
  {
    assert ps[..m] == [ps[0]] + ps[1..][..m - 1];
  }

  /**
   * A marker-free text `x` of length `m` ending in `$` at the start of a
   * rendering consists of copied characters: no placeholder starts inside it.
   */
  lemma {:induction false} SplitLits(ps: seq<Piece>, x: string, rest: string, m: nat)
    requires m == |x| && Render(ps) == x + rest
    requires m > 0 && x[m - 1] == '$' && MarkerFree(x)
    ensures m <= |ps| && ps[..m] == Lits(x) && Render(ps[m..]) == rest
    decreases m, 1
  {
    assert ps != [];
    RenderCons(ps[0], ps[1..]);
    assert ps == [ps[0]] + ps[1..];
    if ps[0].Hole? {
      HoleStartCases(ps[0].k, Render(ps[1..]), x, rest);
    } else {
      SplitLitsStep(ps, x, rest, m);
    }
  }

  /** The step of `SplitLits` at a copied character. */
  lemma {:induction false} SplitLitsStep(ps: seq<Piece>, x: string, rest: string, m: nat)
    requires m == |x| && ps != [] && ps[0].Lit? && [ps[0].c] + Render(ps[1..]) == x + rest
    requires m > 0 && x[m - 1] == '$' && MarkerFree(x)
    ensures m <= |ps| && ps[..m] == Lits(x) && Render(ps[m..]) == rest
    decreases m, 0
  {
    LitFront(ps[0].c, Render(ps[1..]), x, rest);
    if m == 1 {
      assert x[1..] == [];
      assert ps[..m] == [ps[0]];
    } else {
      SliceMarkerFree(x, 1, m);
      assert x[1..m] == x[1..];
      assert x[1..][m - 1 - 1] == x[m - 1];
      SplitLits(ps[1..], x[1..], rest, m - 1);
      LitsPrefixStep(ps, x, m);
    }
  }



  /** A copied character is not where a marker, and so a placeholder, starts. */
  lemma NoPlaceholderAtLit(t: string, i: nat, next: nat, ps: seq<Piece>)
    requires i <= |t| && t[i..] == Render(ps) && ps != [] && ps[0].Lit? && Clean(ps)
    ensures !MarkerAt(t, i) && !MatchAt(t, i, Placeholder(next))
  {
    assert ps[0..] == ps;
    FirstPieceNoMarker(ps, [], 0, 0);
    StageZero(ps, []);
    MatchAtShift(t, i, Marker);
    PlaceholderMatchIsMarker(t, i, next);
  }

  /** The first display hole carries the next display index. */
  lemma HoleFront(ps: seq<Piece>, next: nat, n: nat)
    requires next <= n && Numbered(ps, next, n - next) && ps != [] && ps[0].Hole?
    ensures ps[0] == Hole(next) && next < n && Numbered(ps[1..], next + 1, n - next - 1)
  {
    var r := ps[1..];
    assert ps == [ps[0]] + r;
    HoleIndicesCons(ps[0], r);
    var h := HoleIndices(ps);
    assert h == [ps[0].k] + HoleIndices(r);
    assert h[0] == ps[0].k == next;
    assert forall m :: 0 <= m < n - next - 1 ==> HoleIndices(r)[m] == h[m + 1];
  }

  /** Where the display pieces hold a hole, the text holds its placeholder. */
  lemma HoleText(t: string, i: nat, ps: seq<Piece>, j: nat)
    requires i <= |t| && t[i..] == Render(ps) && ps != [] && ps[0] == Hole(j)
    ensures MatchAt(t, i, Placeholder(j)) && i + |Placeholder(j)| <= |t|
    ensures t[i + |Placeholder(j)|..] == Render(ps[1..])
  {
    assert ps == [ps[0]] + ps[1..];
    RenderCons(ps[0], ps[1..]);
    PrefixMatch(t, i, Placeholder(j), Render(ps[1..]));
  }

  /** The alignment carries on from `j` when the display pieces lose their first hole and the inline pass stashes nothing before `j`. */
  lemma SkipAligned(t: string, i: nat, k: nat, next: nat, n: nat, ps: seq<Piece>, stash: seq<string>, j: nat)
    requires Aligned(t, i, k, next, n, ps, stash) && ps != [] && next < n
    requires Clean(ps[1..]) && Numbered(ps[1..], next + 1, n - next - 1)
    requires j <= |t| && t[j..] == Render(ps[1..])
    requires ScanFrom(Inline, t, i, k).stash == ScanFrom(Inline, t, j, k).stash
    ensures Aligned(t, j, k, next + 1, n, ps[1..], stash)
  {
  }

  /** After a display hole's placeholder, the text is the rendering of the remaining pieces. */
  lemma HoleTail(t: string, i: nat, ps: seq<Piece>, j: nat, e: nat)
    requires i <= |t| && t[i..] == Render(ps) && ps != [] && ps[0] == Hole(j)
    requires e == i + |Placeholder(j)|
    ensures e <= |t| && t[e..] == Render(ps[1..])
  {
    HoleText(t, i, ps, j);
  }

  /** The inline pass passes over a display hole's placeholder without stashing anything. */
  lemma HoleStash(t: string, i: nat, k: nat, ps: seq<Piece>, j: nat, e: nat)
    requires i <= |t| && t[i..] == Render(ps) && ps != [] && ps[0] == Hole(j)
    requires e == i + |Placeholder(j)|
    ensures ScanFrom(Inline, t, i, k).stash == ScanFrom(Inline, t, e, k).stash
  {
    HoleText(t, i, ps, j);
    PlaceholderSkipped(t, i, k, j, e);
  }

  /** At a display hole, the text holds its placeholder, and the alignment carries on after it. */
  lemma HoleAligned(t: string, i: nat, k: nat, next: nat, n: nat, ps: seq<Piece>, stash: seq<string>) returns (j: nat)
    requires Aligned(t, i, k, next, n, ps, stash) && ps != [] && ps[0].Hole?
    ensures ps[0] == Hole(next) && next < n && j == i + |Placeholder(next)| && i < j
    ensures Aligned(t, j, k, next + 1, n, ps[1..], stash)
  {
    j := i + |Placeholder(next)|;
    HoleFront(ps, next, n);
    HoleTail(t, i, ps, next, j);
    HoleStash(t, i, k, ps, next, j);
    CleanTail(ps);
    SkipAligned(t, i, k, next, n, ps, stash, j);
  }

  /** At a display hole, `Combined` reads the hole back and carries on after its placeholder. */
  lemma HoleCombined(t: string, i: nat, k: nat, next: nat, n: nat, ps: seq<Piece>, stash: seq<string>, e: nat)
    requires Aligned(t, i, k, next, n, ps, stash) && ps != [] && ps[0] == Hole(next) && next < n
    requires e == i + |Placeholder(next)|
    ensures Combined(t, i, k, next, n) == [Hole(next)] + Combined(t, e, k, next + 1, n)
  {
    HoleText(t, i, ps, next);
    CombinedAtPlaceholder(t, i, k, next, n, e);
  }

  /** Putting the same hole in front of both piece sequences keeps them in agreement. */
  lemma HoleConsAgrees(h: Piece, c: seq<Piece>, c': seq<Piece>, ps: seq<Piece>, stash: seq<string>)
    requires h.Hole? && c == [h] + c' && ps != [] && ps[0] == h
    requires Restore(c', stash) == Restore(ps[1..], stash) && Clean(c')
    ensures Restore(c, stash) == Restore(ps, stash) && Clean(c)
  {
    assert ps == [h] + ps[1..];
    RestoreCons(h, c', stash);
    RestoreCons(h, ps[1..], stash);
    CleanCons(h, c');
  }

  /** At a copied character where no inline span starts, the alignment carries on after it. */
  lemma CopyAligned(t: string, i: nat, k: nat, next: nat, n: nat, ps: seq<Piece>, stash: seq<string>)
    requires Aligned(t, i, k, next, n, ps, stash) && ps != [] && ps[0].Lit?
    requires MatchEnd(Inline, t, i).None?
    ensures i < |t| && ps[0] == Lit(t[i])
    ensures !MarkerAt(t, i) && !MatchAt(t, i, Placeholder(next))
    ensures Aligned(t, i + 1, k, next, n, ps[1..], stash)
  {
    var r := ps[1..];
    assert i < |t| && ps[0] == Lit(t[i]) && t[i + 1..] == Render(r) by {
      assert ps == [ps[0]] + r;
      RenderCons(ps[0], r);
      PrefixMatch(t, i, [ps[0].c], Render(r));
      assert t[i] == t[i..i + 1][0];
    }
    NoPlaceholderAtLit(t, i, next, ps);
    assert ScanFrom(Inline, t, i, k).stash == ScanFrom(Inline, t, i + 1, k).stash by {
      var sr := ScanFrom(Inline, t, i + 1, k);
      assert ScanFrom(Inline, t, i, k) == Scan([Lit(t[i])] + sr.pieces, sr.stash);
    }
    assert Clean(r) by {
      CleanTail(ps);
    }
    assert HoleIndices(ps) == HoleIndices(r) by {
      assert ps == [ps[0]] + r;
      HoleIndicesCons(ps[0], r);
      assert HoleIndices(ps) == [] + HoleIndices(r);
    }
  }

  lemma CopyAgrees(t: string, i: nat, k: nat, next: nat, n: nat, ps: seq<Piece>, stash: seq<string>)
    requires i < |t| && !MarkerAt(t, i) && !(next < n && MatchAt(t, i, Placeholder(next)))
    requires MatchEnd(Inline, t, i).None?
    requires ps != [] && ps[0] == Lit(t[i])
    requires Agrees(t, i + 1, k, next, n, ps[1..], stash)
    ensures Agrees(t, i, k, next, n, ps, stash)
  {
    var c' := Combined(t, i + 1, k, next, n);
    CombinedAtCopy(t, i, k, next, n);
    assert ps == [Lit(t[i])] + ps[1..];
    RestoreCons(Lit(t[i]), c', stash);
    RestoreCons(Lit(t[i]), ps[1..], stash);
    CombinedLitsSpell(t, i, k, next, n, Marker);
    CleanCons(Lit(t[i]), c');
  }

  /** At an inline span, the pass stashes the span in front of what it stashes after it. */
  lemma SpanEntry(t: string, i: nat, k: nat, e: nat)
    requires MatchEnd(Inline, t, i) == Some(e)
    ensures ScanFrom(Inline, t, i, k).stash == [t[i..e]] + ScanFrom(Inline, t, e, k + 1).stash
  {
  }

  /** An inline span ends after a `$`, within the text. */
  lemma SpanEnd(t: string, i: nat, e: nat)
    requires MatchEnd(Inline, t, i) == Some(e)
    ensures i < e <= |t| && t[e - 1] == '$'
  {
    var r := MatchEnd(Inline, t, i);
    assert r.value == e;
  }

  /** The first of marker-free entries held from `k` on is at `k`, and the rest are held after it. */
  lemma EntriesTail(stash: seq<string>, k: nat, st: seq<string>, x: string, rest: seq<string>)
    requires st == [x] + rest && Holds(stash, k, st) && forall j :: 0 <= j < |st| ==> MarkerFree(st[j])
    ensures k < |stash| && stash[k] == x && MarkerFree(x)
    ensures Holds(stash, k + 1, rest) && forall j :: 0 <= j < |rest| ==> MarkerFree(rest[j])
  {
    HoldsTail(stash, k, x, rest);
    assert st[0] == x;
    forall j | 0 <= j < |rest|
      ensures MarkerFree(rest[j])
    {
      assert rest[j] == st[j + 1];
    }
  }

  /** The span `t[i..e]` ending in `c`, and what follows it, as plain values. */
  lemma SpanParts(t: string, i: nat, e: nat, x: string, m: nat, rest: string, c: char)
    requires i < e <= |t| && t[e - 1] == c && x == t[i..e] && m == e - i && rest == t[e..]
    ensures t[i..] == x + rest && m == |x| && m > 0 && x[m - 1] == c
  {
  }

  /** A sequence whose first `m` elements are `a` is `a` followed by the rest. */
  lemma JoinAt(ps: seq<Piece>, a: seq<Piece>, m: nat)
    requires m <= |ps| && ps[..m] == a
    ensures ps == a + ps[m..]
  {
    assert ps == ps[..m] + ps[m..];
  }

  /** A marker-free span ending in `$` at the start of the rendering is made of copied characters. */
  lemma SplitSpan(t: string, i: nat, e: nat, ps: seq<Piece>)
    requires i < e <= |t| && t[i..] == Render(ps) && t[e - 1] == '$' && MarkerFree(t[i..e])
    ensures e - i <= |ps| && ps == Lits(t[i..e]) + ps[e - i..] && t[e..] == Render(ps[e - i..])
  {
    var x, m, rest := t[i..e], e - i, t[e..];
    SpanParts(t, i, e, x, m, rest, '$');
    SplitLits(ps, x, rest, m);
    JoinAt(ps, Lits(x), m);
  }

  /** Copied characters in front of the display pieces hold no hole. */
  lemma LitsNumbered(x: string, r: seq<Piece>, ps: seq<Piece>, next: nat, m: nat)
    requires ps == Lits(x) + r && Numbered(ps, next, m)
    ensures Numbered(r, next, m)
  {
    HoleIndicesLits(x, r);
  }

  /** At an inline span, the display pieces copy it, and the alignment carries on after it. */
  lemma SpanAligned(t: string, i: nat, k: nat, next: nat, n: nat, ps: seq<Piece>, stash: seq<string>, e: nat)
    requires Aligned(t, i, k, next, n, ps, stash) && ps != [] && ps[0].Lit?
    requires MatchEnd(Inline, t, i) == Some(e)
    ensures i < e <= |t| && e - i <= |ps| && ps == Lits(t[i..e]) + ps[e - i..]
    ensures k < |stash| && stash[k] == t[i..e]
    ensures !(next < n && MatchAt(t, i, Placeholder(next)))
    ensures Aligned(t, e, k + 1, next, n, ps[e - i..], stash)
  {
    var st := ScanFrom(Inline, t, i, k).stash;
    var rest := ScanFrom(Inline, t, e, k + 1).stash;
    SpanEntry(t, i, k, e);
    SpanEnd(t, i, e);
    EntriesTail(stash, k, st, t[i..e], rest);
    SplitSpan(t, i, e, ps);
    NoPlaceholderAtLit(t, i, next, ps);
    CleanSuffix(ps, e - i);
    LitsNumbered(t[i..e], ps[e - i..], ps, next, n - next);
  }

  lemma SpanAgrees(t: string, i: nat, k: nat, next: nat, n: nat, ps: seq<Piece>, stash: seq<string>, e: nat)
    requires i < |t| && !(next < n && MatchAt(t, i, Placeholder(next)))
    requires MatchEnd(Inline, t, i) == Some(e)
    requires e - i <= |ps| && ps == Lits(t[i..e]) + ps[e - i..]
    requires k < |stash| && stash[k] == t[i..e]
    requires Agrees(t, e, k + 1, next, n, ps[e - i..], stash)
    ensures Agrees(t, i, k, next, n, ps, stash)
  {
    var c' := Combined(t, e, k + 1, next, n);
    CombinedAtSpan(t, i, k, next, n, e);
    RestoreCons(Hole(k), c', stash);
    RestoreAppend(Lits(t[i..e]), ps[e - i..], stash);
    LitsRender(t[i..e], stash);
    CleanCons(Hole(k), c');
  }

  /** By induction along the text: the combined pieces agree with the display pieces. */
  lemma {:induction false} CombinedRestores(t: string, i: nat, k: nat, next: nat, n: nat, ps: seq<Piece>, stash: seq<string>)
    requires Aligned(t, i, k, next, n, ps, stash)
    ensures Agrees(t, i, k, next, n, ps, stash)
    decreases |t| - i, 1
  {
    if ps == [] {
      AlignedEnd(t, i, k, next, n, ps, stash);
    } else if ps[0].Hole? {
      HoleStep(t, i, k, next, n, ps, stash);
    } else {
      match MatchEnd(Inline, t, i)
      case None =>
        CopyAligned(t, i, k, next, n, ps, stash);
        CombinedRestores(t, i + 1, k, next, n, ps[1..], stash);
        CopyAgrees(t, i, k, next, n, ps, stash);
      case Some(e) =>
        SpanAligned(t, i, k, next, n, ps, stash, e);
        CombinedRestores(t, e, k + 1, next, n, ps[e - i..], stash);
        SpanAgrees(t, i, k, next, n, ps, stash, e);
    }
  }

  /** The induction step at a display hole. */
  lemma {:induction false} HoleStep(t: string, i: nat, k: nat, next: nat, n: nat, ps: seq<Piece>, stash: seq<string>)
    requires Aligned(t, i, k, next, n, ps, stash) && ps != [] && ps[0].Hole?
    ensures Agrees(t, i, k, next, n, ps, stash)
    decreases |t| - i, 0
  {
    var j := HoleAligned(t, i, k, next, n, ps, stash);
    HoleCombined(t, i, k, next, n, ps, stash, j);
    CombinedRestores(t, j, k, next + 1, n, ps[1..], stash);
    HoleConsAgrees(Hole(next), Combined(t, i, k, next, n), Combined(t, j, k, next + 1, n), ps, stash);
  }

  /** Once the display pieces are used up, so is the text. */
  lemma AlignedEnd(t: string, i: nat, k: nat, next: nat, n: nat, ps: seq<Piece>, stash: seq<string>)
    requires i <= |t| && t[i..] == Render(ps) && ps == []
    ensures Agrees(t, i, k, next, n, ps, stash)
  {
    assert |t[i..]| == 0;
    assert Combined(t, i, k, next, n) == [];
  }

  // ---------------------------------------------------------------------------
  // Both passes together
  // ---------------------------------------------------------------------------

  /** Before the inline pass, the display pieces are aligned with the display pass's output. */
  lemma StartAligned(s: string)
    requires MarkerFree(s)
    requires forall j :: |DisplayScan(s).stash| <= j < |MathStashOf(s)| ==> MarkerFree(MathStashOf(s)[j])
    ensures Aligned(Render(DisplayScan(s).pieces), 0, |DisplayScan(s).stash|, 0, |DisplayScan(s).stash|,
                    DisplayScan(s).pieces, MathStashOf(s))
  {
    var dd, ii := DisplayScan(s), InlineScan(s);
    var all := MathStashOf(s);
    var n := |dd.stash|;
    var t := Render(dd.pieces);
    ScanShape(Display, s, 0, 0);
    ScanClean(Display, s, 0, 0);
    assert all[n..n + |ii.stash|] == ii.stash;
    forall j | 0 <= j < |ii.stash|
      ensures MarkerFree(ii.stash[j])
    {
      assert ii.stash[j] == all[n + j];
    }
    assert t[0..] == t;
  }

  /** The display entries of marker-free text are marker-free; with marker-free inline entries, so is the whole stash. */
  lemma AllEntriesMarkerFree(s: string)
    requires MarkerFree(s)
    requires forall j :: |DisplayScan(s).stash| <= j < |MathStashOf(s)| ==> MarkerFree(MathStashOf(s)[j])
    ensures forall j :: 0 <= j < |MathStashOf(s)| ==> MarkerFree(MathStashOf(s)[j])
  {
    var dd := DisplayScan(s);
    var all := MathStashOf(s);
    ScanEntriesMarkerFree(Display, s, 0, 0);
    forall j | 0 <= j < |dd.stash|
      ensures MarkerFree(all[j])
    {
      assert all[j] == dd.stash[j];
    }
  }

  /**
   * For Markdown text without the marker, whose inline spans do not swallow
   * a display placeholder: the combined pieces render to the stashed text,
   * restore to the Markdown text, spell no marker outside their holes, and
   * every hole has a stash entry; every stash entry is marker-free.
   */
  lemma CombinedPiecesCorrect(s: string)
    requires MarkerFree(s)
    requires forall j :: |DisplayScan(s).stash| <= j < |MathStashOf(s)| ==> MarkerFree(MathStashOf(s)[j])
    ensures Render(CombinedPieces(s)) == StashedText(s)
    ensures Restore(CombinedPieces(s), MathStashOf(s)) == s
    ensures Clean(CombinedPieces(s))
    ensures forall j :: 0 <= j < |CombinedPieces(s)| && CombinedPieces(s)[j].Hole? ==>
              CombinedPieces(s)[j].k < |MathStashOf(s)|
    ensures forall j :: 0 <= j < |MathStashOf(s)| ==> MarkerFree(MathStashOf(s)[j])
  {
    var dd := DisplayScan(s);
    var n := |dd.stash|;
    var t := Render(dd.pieces);
    CombinedRenders(t, 0, n, 0, n);
    StashRoundTrip(s);
    StartAligned(s);
    CombinedRestores(t, 0, n, 0, n, dd.pieces, MathStashOf(s));
    AllEntriesMarkerFree(s);
  }

  /** The stash with every entry wrapped as the reinsertion loop wraps it. */
  function WrapAll(stash: seq<string>): seq<string> {
    seq(|stash|, j requires 0 <= j < |stash| => Wrap(stash[j]))
  }

  /** Once every index is handled, the body is the pieces restored from the wrapped stash. */
  lemma {:induction false} FullStageIsRestore(ps: seq<Piece>, stash: seq<string>)
    ensures Stage(ps, stash, |stash|) == Restore(ps, WrapAll(stash))
  {
    if ps != [] {
      assert ps == [ps[0]] + ps[1..];
      StageCons(ps[0], ps[1..], stash, |stash|);
      RestoreCons(ps[0], ps[1..], WrapAll(stash));
      FullStageIsRestore(ps[1..], stash);
    }
  }
}
