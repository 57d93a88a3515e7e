/**
 * The piece sequence that the two stash passes of `markdown_to_html`
 * produce together (converter.py:103-104), and the predicates that relate
 * it to each pass on its own.
 */
module Combining {
  import opened Placeholders
  import opened MathStash
  import opened Reinsertion
  import opened Text

  /**
   * The inline pass over `t` from `i` (next inline index `k`), with the
   * display placeholders `next .. n - 1`, which appear in `t` in that order,
   * read back as holes.
   */
  function Combined(t: string, i: nat, k: nat, next: nat, n: nat): seq<Piece>
    decreases |t| - i
  {
    if i >= |t| then []
    else if next < n && MatchAt(t, i, Placeholder(next)) then
      [Hole(next)] + Combined(t, i + |Placeholder(next)|, k, next + 1, n)
    else
      match MatchEnd(Inline, t, i)
      case Some(e) => [Hole(k)] + Combined(t, e, k + 1, next, n)
      case None => [Lit(t[i])] + Combined(t, i + 1, k, next, n)
  }

  /** The pieces of `s` after both passes: display holes, inline holes and copied characters. */
  function CombinedPieces(s: string): seq<Piece> {
    var n := |DisplayScan(s).stash|;
    Combined(Render(DisplayScan(s).pieces), 0, n, 0, n)
  }

  /** Every hole of `c` is numbered below `n` or below `m`. */
  predicate HolesBelow(c: seq<Piece>, n: nat, m: nat) {
    forall j :: 0 <= j < |c| && c[j].Hole? ==> c[j].k < n || c[j].k < m
  }

  /**
   * `Combined` renders to the inline pass's output, and its holes are the
   * display indices below `n` and the inline pass's own indices.
   */
  ghost predicate RendersLike(t: string, i: nat, k: nat, next: nat, n: nat) {
    var c := Combined(t, i, k, next, n);
    var r := ScanFrom(Inline, t, i, k);
    Render(c) == Render(r.pieces) && HolesBelow(c, n, k + |r.stash|)
  }

  /**
   * From position `i` the text `t` is the rendering of display pieces `ps`
   * holding the display holes `next .. n - 1`, no run of their characters
   * spells the marker, and the inline entries found from `i` on are in
   * `stash` and hold no marker.
   */
  ghost predicate Aligned(t: string, i: nat, k: nat, next: nat, n: nat, ps: seq<Piece>, stash: seq<string>) {
    i <= |t| && next <= n && t[i..] == Render(ps) && Clean(ps) && Numbered(ps, next, n - next) &&
    Holds(stash, k, ScanFrom(Inline, t, i, k).stash) &&
    forall j :: 0 <= j < |ScanFrom(Inline, t, i, k).stash| ==> MarkerFree(ScanFrom(Inline, t, i, k).stash[j])
  }

  /** The combined pieces restore to what the display pieces restore to, and spell no marker. */
  ghost predicate Agrees(t: string, i: nat, k: nat, next: nat, n: nat, ps: seq<Piece>, stash: seq<string>) {
    Restore(Combined(t, i, k, next, n), stash) == Restore(ps, stash) && Clean(Combined(t, i, k, next, n))
  }
}
