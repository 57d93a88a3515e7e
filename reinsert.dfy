/**
 * Putting the math back (converter.py:106-111): for each stash index `i` in
 * increasing order, every occurrence of the placeholder `<!--MATH_BLOCK_i-->`
 * in the HTML body is replaced by the stash entry wrapped in `<div>` (when it
 * starts with `$$`) or `<span>` (otherwise).
 *
 * The correctness statement is about an HTML body that the Markdown library
 * produced with the placeholders passed through as tokens: it is `Render` of
 * pieces whose literal characters never spell the marker `<!--MATH_BLOCK_`.
 * After the loop, every hole with a stash entry holds its wrapped entry and
 * no marker is left, provided no stash entry itself contains the marker.
 */
module Reinsertion {
  import opened Text
  import opened Placeholders
  import opened MathStash

  /**
   * The wrapped form of a stash entry, as the loop writes it into the HTML:
   * a `<div>` exactly for an entry that starts with `$$`.
   */
  function Wrap(e: string): (r: string)
    ensures MatchAt(r, 0, "<div>") <==> MatchAt(e, 0, "$$")
  {
    if MatchAt(e, 0, "$$") then
      assert ("<div>" + e + "</div>")[..5] == "<div>";
      "<div>" + e + "</div>"
    else
      DifferAt("<span>" + e + "</span>", 0, "<div>", 1);
      "<span>" + e + "</span>"
  }

  /** `html_body` after the loop has handled the indices `0 .. n - 1`. */
  function ReinsertPrefix(html: string, stash: seq<string>, n: nat): string
    requires n <= |stash|
  {
    if n == 0 then html
    else ReplaceAll(ReinsertPrefix(html, stash, n - 1), Placeholder(n - 1), Wrap(stash[n - 1]))
  }

  /** The reinsertion loop of `markdown_to_html`. */
  method ReinsertMath(htmlBody: string, mathStash: seq<string>) returns (html: string)
    ensures html == ReinsertPrefix(htmlBody, mathStash, |mathStash|)
    ensures mathStash == [] ==> html == htmlBody
  {
    html := htmlBody;
    for i := 0 to |mathStash|
      invariant html == ReinsertPrefix(htmlBody, mathStash, i)
    {
      var placeholder := Placeholder(i);
      var mathBlock := mathStash[i];
      if MatchAt(mathBlock, 0, "$$") {
        html := ReplaceAll(html, placeholder, "<div>" + mathBlock + "</div>");
      } else {
        html := ReplaceAll(html, placeholder, "<span>" + mathBlock + "</span>");
      }
    }
  }

  // ---------------------------------------------------------------------------
  // The HTML body between iterations
  // ---------------------------------------------------------------------------

  /** A piece once the indices below `n` are handled: those holes hold their wrapped entry. */
  function StagePiece(p: Piece, stash: seq<string>, n: nat): string {
    match p
    case Lit(c) => [c]
    case Hole(k) => if k < n && k < |stash| then Wrap(stash[k]) else Placeholder(k)
  }

  /** The HTML body once the indices below `n` are handled. */
  function Stage(ps: seq<Piece>, stash: seq<string>, n: nat): string {
    if ps == [] then [] else StagePiece(ps[0], stash, n) + Stage(ps[1..], stash, n)
  }

  lemma StageCons(p: Piece, ps: seq<Piece>, stash: seq<string>, n: nat)
    ensures Stage([p] + ps, stash, n) == StagePiece(p, stash, n) + Stage(ps, stash, n)
  {
    assert ([p] + ps)[1..] == ps;
  }

  /** The pieces start with literal characters spelling `w`. */
  predicate LitsSpell(ps: seq<Piece>, w: string) {
    |w| <= |ps| && forall m :: 0 <= m < |w| ==> ps[m] == Lit(w[m])
  }

  /** Spelling `w` is spelling its first character, then the rest of `w`. */
  lemma LitsSpellCons(ps: seq<Piece>, w: string)
    requires ps != [] && |w| > 0
    ensures LitsSpell(ps, w) <==> ps[0] == Lit(w[0]) && LitsSpell(ps[1..], w[1..])
  {
    if ps[0] == Lit(w[0]) && LitsSpell(ps[1..], w[1..]) {
      forall m | 0 < m < |w|
        ensures ps[m] == Lit(w[m])
      {
        assert ps[m] == ps[1..][m - 1];
      }
    }
  }

  /** No run of literal characters spells the marker: every marker in the body is a hole. */
  predicate Clean(ps: seq<Piece>) {
    forall j :: 0 <= j < |ps| ==> !LitsSpell(ps[j..], Marker)
  }

  lemma CleanTail(ps: seq<Piece>)
    requires ps != [] && Clean(ps)
    ensures Clean(ps[1..])
  {
    forall j | 0 <= j < |ps[1..]|
      ensures !LitsSpell(ps[1..][j..], Marker)
    {
      assert ps[1..][j..] == ps[j + 1..];
    }
  }

  /** Before the first iteration the body is the Markdown output itself. */
  lemma {:induction false} StageZero(ps: seq<Piece>, stash: seq<string>)
    ensures Stage(ps, stash, 0) == Render(ps)
  {
    if ps != [] {
      StageZero(ps[1..], stash);
    }
  }

  // ---------------------------------------------------------------------------
  // Where markers cannot start
  // ---------------------------------------------------------------------------

  lemma MarkerOneOpening()
    ensures Marker[0] == '<' && Marker[1] == '!'
    ensures forall q :: 0 < q < |Marker| ==> Marker[q] != '<'
  {
  }

  /** A hole's text, wrapped or not, starts with `<` and has at least two characters. */
  lemma HoleOpens(k: nat, stash: seq<string>, n: nat)
    ensures |StagePiece(Hole(k), stash, n)| >= 2 && StagePiece(Hole(k), stash, n)[0] == '<'
  {
    var x := StagePiece(Hole(k), stash, n);
    if k < n && k < |stash| {
      var e := stash[k];
      if MatchAt(e, 0, "$$") {
        assert x == "<div>" + e + "</div>";
        assert x[0] == "<div>"[0];
      } else {
        assert x == "<span>" + e + "</span>";
        assert x[0] == "<span>"[0];
      }
    } else {
      assert x == "<!--MATH_BLOCK_" + NatToString(k) + "-->";
      assert x[0] == "<!--MATH_BLOCK_"[0];
    }
  }

  /**
   * A text `w` without `<` that the leading literals do not spell is not
   * what the body starts with: a hole would put a `<` where `w` has none.
   */
  lemma {:induction false} StageNotStartsWith(ps: seq<Piece>, stash: seq<string>, n: nat, w: string)
    requires |w| > 0 && forall q :: 0 <= q < |w| ==> w[q] != '<'
    requires !LitsSpell(ps, w)
    ensures !MatchAt(Stage(ps, stash, n), 0, w)
  {
    var t := Stage(ps, stash, n);
    if ps != [] {
      var x := StagePiece(ps[0], stash, n);
      var r := Stage(ps[1..], stash, n);
      assert t == x + r;
      match ps[0]
      case Hole(k) =>
        HoleOpens(k, stash, n);
        assert t[0] == '<';
        DifferAt(t, 0, w, 0);
      case Lit(c) =>
        if c != w[0] {
          DifferAt(t, 0, w, 0);
        } else {
          assert |w| > 1;
          LitsSpellCons(ps, w);
          StageNotStartsWith(ps[1..], stash, n, w[1..]);
          MatchAtTail(x, r, w);
        }
    }
  }

  /** What follows a one-character prefix continues the match. */
  lemma MatchAtTail(x: string, r: string, w: string)
    requires |x| == 1 && |w| > 1
    ensures MatchAt(x + r, 0, w) ==> MatchAt(r, 0, w[1..])
  {
    if MatchAt(x + r, 0, w) {
      assert r[..|w| - 1] == (x + r)[1..|w|];
      assert (x + r)[1..|w|] == (x + r)[..|w|][1..];
    }
  }

  /** A marker past the end of `x` in `x + r` is a marker of `r`. */
  lemma MarkerInTail(x: string, r: string, o: int)
    requires |x| <= o
    ensures MarkerAt(x + r, o) ==> MarkerAt(r, o - |x|)
  {
    if o + |Marker| <= |x + r| {
      assert (x + r)[o..o + |Marker|] == r[o - |x|..o - |x| + |Marker|];
    }
  }

  /** A marker that lies wholly inside the middle part `e` of `a + e + c` is a marker of `e`. */
  lemma MarkerInsideEntry(a: string, e: string, c: string, o: int)
    requires |a| <= o && o + |Marker| <= |a| + |e|
    ensures MarkerAt(a + e + c, o) ==> MarkerAt(e, o - |a|)
  {
    var t := a + e + c;
    assert e[o - |a|..o - |a| + |Marker|] == t[o..o + |Marker|];
  }

  /**
   * No marker starts inside a tagged entry `a + e + b` when the tags open
   * with `<` followed by something other than `!`, hold no other `<`, and
   * the entry holds no marker.
   */
  lemma TaggedNoMarker(a: string, e: string, b: string, rest: string, o: int)
    requires |a| >= 2 && a[0] == '<' && a[1] != '!' && forall q :: 1 <= q < |a| ==> a[q] != '<'
    requires |b| >= 2 && b[0] == '<' && b[1] != '!' && forall q :: 1 <= q < |b| ==> b[q] != '<'
    requires MarkerFree(e)
    requires 0 <= o < |a| + |e| + |b|
    ensures !MarkerAt(a + e + b + rest, o)
  {
    var t := a + e + b + rest;
    var m := |Marker|;
    MarkerOneOpening();
    if o == 0 {
      assert t[1] == a[1];
      DifferAt(t, o, Marker, 1);
    } else if o < |a| {
      assert t[o] == a[o];
      DifferAt(t, o, Marker, 0);
    } else if o < |a| + |e| {
      var d := |a| + |e| - o;
      if d < m {
        assert t[o + d] == b[0];
        DifferAt(t, o, Marker, d);
      } else {
        assert t == a + e + (b + rest);
        MarkerInsideEntry(a, e, b + rest, o);
        assert !MarkerAt(e, o - |a|);
      }
    } else if o == |a| + |e| {
      assert t[o + 1] == b[1];
      DifferAt(t, o, Marker, 1);
    } else {
      assert t[o] == b[o - |a| - |e|];
      DifferAt(t, o, Marker, 0);
    }
  }

  /** No marker starts inside a wrapped entry that holds none. */
  lemma WrapNoMarker(e: string, rest: string, o: int)
    requires MarkerFree(e)
    requires 0 <= o < |Wrap(e)|
    ensures !MarkerAt(Wrap(e) + rest, o)
  {
    if MatchAt(e, 0, "$$") {
      TaggedNoMarker("<div>", e, "</div>", rest, o);
    } else {
      TaggedNoMarker("<span>", e, "</span>", rest, o);
    }
  }

  /**
   * No marker starts at a literal that does not begin a spelled-out marker,
   * nor inside a hole that already holds its wrapped, marker-free entry.
   */
  lemma FirstPieceNoMarker(ps: seq<Piece>, stash: seq<string>, n: nat, o: int)
    requires ps != [] && !LitsSpell(ps, Marker)
    requires ps[0].Hole? ==> ps[0].k < n && ps[0].k < |stash| && MarkerFree(stash[ps[0].k])
    requires 0 <= o < |StagePiece(ps[0], stash, n)|
    ensures !MarkerAt(Stage(ps, stash, n), o)
  {
    var x := StagePiece(ps[0], stash, n);
    var r := Stage(ps[1..], stash, n);
    assert Stage(ps, stash, n) == x + r;
    MarkerOneOpening();
    match ps[0]
    case Hole(k) =>
      WrapNoMarker(stash[k], r, o);
    case Lit(c) =>
      if c != '<' {
        DifferAt(x + r, 0, Marker, 0);
      } else {
        LitsSpellCons(ps, Marker);
        StageNotStartsWith(ps[1..], stash, n, Marker[1..]);
        MatchAtTail(x, r, Marker);
      }
  }

  // ---------------------------------------------------------------------------
  // One iteration, and the whole loop
  // ---------------------------------------------------------------------------

  /** One iteration where the first piece is hole `i`: it is replaced at once. */
  lemma StepAtHole(ps: seq<Piece>, stash: seq<string>, i: nat)
    requires ps != [] && ps[0] == Hole(i) && i < |stash|
    requires ReplaceAll(Stage(ps[1..], stash, i), Placeholder(i), Wrap(stash[i])) == Stage(ps[1..], stash, i + 1)
    ensures ReplaceAll(Stage(ps, stash, i), Placeholder(i), Wrap(stash[i])) == Stage(ps, stash, i + 1)
  {
    var r := Stage(ps[1..], stash, i);
    assert Stage(ps, stash, i) == Placeholder(i) + r;
    assert Stage(ps, stash, i + 1) == Wrap(stash[i]) + Stage(ps[1..], stash, i + 1);
    ReplaceAllAtStart(Placeholder(i), r, Wrap(stash[i]));
  }

  /** One iteration where the first piece is not hole `i`: it is copied unchanged. */
  lemma StepPastPiece(ps: seq<Piece>, stash: seq<string>, i: nat)
    requires ps != [] && ps[0] != Hole(i) && i < |stash| && !LitsSpell(ps, Marker)
    requires forall j :: 0 <= j < |stash| ==> MarkerFree(stash[j])
    requires ReplaceAll(Stage(ps[1..], stash, i), Placeholder(i), Wrap(stash[i])) == Stage(ps[1..], stash, i + 1)
    ensures ReplaceAll(Stage(ps, stash, i), Placeholder(i), Wrap(stash[i])) == Stage(ps, stash, i + 1)
  {
    var x := StagePiece(ps[0], stash, i);
    var r := Stage(ps[1..], stash, i);
    var p := Placeholder(i);
    assert StagePiece(ps[0], stash, i + 1) == x;
    assert Stage(ps, stash, i) == x + r;
    assert Stage(ps, stash, i + 1) == x + Stage(ps[1..], stash, i + 1);
    forall o | 0 <= o < |x|
      ensures !MatchAt(x + r, o, p)
    {
      if ps[0].Hole? && !(ps[0].k < i && ps[0].k < |stash|) {
        PlaceholderOnlyMatchesItself(i, ps[0].k, r);
      } else {
        FirstPieceNoMarker(ps, stash, i, o);
        if MatchAt(x + r, o, p) {
          PlaceholderMatchIsMarker(x + r, o, i);
        }
      }
    }
    ReplaceAllSkips(x, r, p, Wrap(stash[i]));
  }

  /**
   * One iteration of the loop, for index `i`, turns the body with the
   * indices below `i` handled into the body with the indices up to `i`
   * handled: exactly the holes `i` are replaced, and nothing else matches.
   */
  lemma {:induction false} StageStep(ps: seq<Piece>, stash: seq<string>, i: nat)
    requires i < |stash| && Clean(ps)
    requires forall j :: 0 <= j < |stash| ==> MarkerFree(stash[j])
    ensures ReplaceAll(Stage(ps, stash, i), Placeholder(i), Wrap(stash[i])) == Stage(ps, stash, i + 1)
  {
    if ps == [] {
      assert |Stage(ps, stash, i)| < |Placeholder(i)|;
    } else {
      CleanTail(ps);
      StageStep(ps[1..], stash, i);
      if ps[0] == Hole(i) {
        StepAtHole(ps, stash, i);
      } else {
        assert ps[0..] == ps;
        StepPastPiece(ps, stash, i);
      }
    }
  }

  /** After `n` iterations the body is the stage with the indices below `n` handled. */
  lemma {:induction false} ReinsertStages(ps: seq<Piece>, stash: seq<string>, n: nat)
    requires n <= |stash| && Clean(ps)
    requires forall j :: 0 <= j < |stash| ==> MarkerFree(stash[j])
    ensures ReinsertPrefix(Render(ps), stash, n) == Stage(ps, stash, n)
  {
    if n == 0 {
      StageZero(ps, stash);
    } else {
      ReinsertStages(ps, stash, n - 1);
      StageStep(ps, stash, n - 1);
    }
  }

  /** Once every hole has its wrapped entry, no marker is left anywhere in the body. */
  lemma {:induction false} FinalStageMarkerFree(ps: seq<Piece>, stash: seq<string>)
    requires Clean(ps)
    requires forall j :: 0 <= j < |ps| && ps[j].Hole? ==> ps[j].k < |stash|
    requires forall j :: 0 <= j < |stash| ==> MarkerFree(stash[j])
    ensures MarkerFree(Stage(ps, stash, |stash|))
  {
    if ps != [] {
      var n := |stash|;
      var x := StagePiece(ps[0], stash, n);
      var r := Stage(ps[1..], stash, n);
      CleanTail(ps);
      assert ps[0..] == ps;
      forall j | 0 <= j < |ps[1..]| && ps[1..][j].Hole?
        ensures ps[1..][j].k < n
      {
        assert ps[1..][j] == ps[j + 1];
      }
      FinalStageMarkerFree(ps[1..], stash);
      assert Stage(ps, stash, n) == x + r;
      forall o
        ensures !MarkerAt(x + r, o)
      {
        if 0 <= o < |x| {
          FirstPieceNoMarker(ps, stash, n, o);
        } else if o >= |x| {
          MarkerInTail(x, r, o);
        }
      }
    }
  }

  /**
   * The reinsertion loop is correct: on a body whose markers are all
   * placeholders standing for holes, with stash entries free of markers,
   * it puts every wrapped entry at its hole and leaves no marker behind.
   */
  lemma ReinsertAllCorrect(ps: seq<Piece>, stash: seq<string>)
    requires Clean(ps)
    requires forall j :: 0 <= j < |ps| && ps[j].Hole? ==> ps[j].k < |stash|
    requires forall j :: 0 <= j < |stash| ==> MarkerFree(stash[j])
    ensures ReinsertPrefix(Render(ps), stash, |stash|) == Stage(ps, stash, |stash|)
    ensures MarkerFree(ReinsertPrefix(Render(ps), stash, |stash|))
  {
    ReinsertStages(ps, stash, |stash|);
    FinalStageMarkerFree(ps, stash);
  }
}
