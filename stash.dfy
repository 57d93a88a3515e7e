/**
 * The math stash of `markdown_to_html` (converter.py:96-104): two
 * `re.sub` passes that replace math spans, left to right, by numbered
 * placeholders and append the spans to `math_stash`.
 *
 * A pass is specified by `ScanFrom`, which splits the text into pieces:
 * characters copied unchanged (`Lit`) and replaced spans (`Hole(k)`, the
 * span stashed at index `k`). The stashed text is `Render` of the pieces;
 * `Restore` puts the stashed spans back.
 */
module MathStash {
  import opened Text
  import opened Placeholders

  datatype Piece = Lit(c: char) | Hole(k: nat)

  /** The pieces produced by one pass and the spans it stashed, in order. */
  datatype Scan = Scan(pieces: seq<Piece>, stash: seq<string>)

  /** The two patterns: `\$\$[\s\S]+?\$\$` (display) and `\$[^\$]+?\$` (inline). */
  datatype Delimiter = Display | Inline

  // ---------------------------------------------------------------------------
  // Pieces
  // ---------------------------------------------------------------------------

  function RenderPiece(p: Piece): string {
    match p
    case Lit(c) => [c]
    case Hole(k) => Placeholder(k)
  }

  /** The stashed text: literal characters, and each hole as its placeholder. */
  function Render(ps: seq<Piece>): string {
    if ps == [] then [] else RenderPiece(ps[0]) + Render(ps[1..])
  }

  lemma RenderCons(p: Piece, ps: seq<Piece>)
    ensures Render([p] + ps) == RenderPiece(p) + Render(ps)
  {
    assert ([p] + ps)[1..] == ps;
  }

  /** Rendering distributes over concatenation of pieces. */
  lemma {:induction false} RenderAppend(ps: seq<Piece>, qs: seq<Piece>)
    ensures Render(ps + qs) == Render(ps) + Render(qs)
  {
    if ps != [] {
      assert (ps + qs)[1..] == ps[1..] + qs;
      RenderAppend(ps[1..], qs);
    } else {
      assert [] + qs == qs;
    }
  }

  /** A hole `k` with an entry in `stash` becomes that entry; otherwise it stays a placeholder. */
  function RestorePiece(p: Piece, stash: seq<string>): string {
    match p
    case Lit(c) => [c]
    case Hole(k) => if k < |stash| then stash[k] else Placeholder(k)
  }

  /** The stashed text with every hole replaced by its stash entry. */
  function Restore(ps: seq<Piece>, stash: seq<string>): string {
    if ps == [] then [] else RestorePiece(ps[0], stash) + Restore(ps[1..], stash)
  }

  lemma RestoreCons(p: Piece, ps: seq<Piece>, stash: seq<string>)
    ensures Restore([p] + ps, stash) == RestorePiece(p, stash) + Restore(ps, stash)
  {
    assert ([p] + ps)[1..] == ps;
  }

  /** Restoring distributes over concatenation of pieces. */
  lemma {:induction false} RestoreAppend(ps: seq<Piece>, qs: seq<Piece>, stash: seq<string>)
    ensures Restore(ps + qs, stash) == Restore(ps, stash) + Restore(qs, stash)
  {
    if ps != [] {
      assert (ps + qs)[1..] == ps[1..] + qs;
      RestoreAppend(ps[1..], qs, stash);
    } else {
      assert [] + qs == qs;
    }
  }

  /** The indices of the holes, in the order they occur. */
  function HoleIndices(ps: seq<Piece>): seq<nat> {
    if ps == [] then []
    else (if ps[0].Hole? then [ps[0].k] else []) + HoleIndices(ps[1..])
  }

  lemma HoleIndicesCons(p: Piece, ps: seq<Piece>)
    ensures HoleIndices([p] + ps) == (if p.Hole? then [p.k] else []) + HoleIndices(ps)
  {
    assert ([p] + ps)[1..] == ps;
  }

  /** The holes are numbered `k, k + 1, ..., k + n - 1`, in order. */
  predicate Numbered(ps: seq<Piece>, k: nat, n: nat) {
    var h := HoleIndices(ps);
    |h| == n && forall j :: 0 <= j < n ==> h[j] == k + j
  }

  // ---------------------------------------------------------------------------
  // Where a match starts and ends
  // ---------------------------------------------------------------------------

  predicate PairAt(s: string, q: int) {
    0 <= q && q + 1 < |s| && s[q] == '$' && s[q + 1] == '$'
  }

  /** The first `$$` at or after `j`. */
  function NextPair(s: string, j: nat): (r: Option<nat>)
    ensures r.Some? ==> j <= r.value && PairAt(s, r.value)
    decreases |s| - j
  {
    if j + 1 >= |s| then None
    else if s[j] == '$' && s[j + 1] == '$' then Some(j)
    else NextPair(s, j + 1)
  }

  /** `NextPair` finds the first `$$`, and finds none only when there is none. */
  lemma {:induction false} NextPairIsFirst(s: string, j: nat)
    ensures NextPair(s, j).Some? ==> forall q :: j <= q < NextPair(s, j).value ==> !PairAt(s, q)
    ensures NextPair(s, j).None? ==> forall q :: j <= q ==> !PairAt(s, q)
    decreases |s| - j
  {
    if j + 1 < |s| && !(s[j] == '$' && s[j + 1] == '$') {
      NextPairIsFirst(s, j + 1);
    }
  }

  /** The first `$` at or after `j`. */
  function NextDollar(s: string, j: nat): (r: Option<nat>)
    ensures r.Some? ==> j <= r.value < |s| && s[r.value] == '$'
    decreases |s| - j
  {
    if j >= |s| then None
    else if s[j] == '$' then Some(j)
    else NextDollar(s, j + 1)
  }

  /** `NextDollar` finds the first `$`, and finds none only when there is none. */
  lemma {:induction false} NextDollarIsFirst(s: string, j: nat)
    ensures NextDollar(s, j).Some? ==> forall q :: j <= q < NextDollar(s, j).value ==> s[q] != '$'
    ensures NextDollar(s, j).None? ==> forall q :: j <= q < |s| ==> s[q] != '$'
    decreases |s| - j
  {
    if j < |s| && s[j] != '$' {
      NextDollarIsFirst(s, j + 1);
    }
  }

  /**
   * `\$\$[\s\S]+?\$\$` tried at `i`: the end of the match starting at `i`, if any.
   */
  function DisplayMatch(s: string, i: nat): (r: Option<nat>)
    ensures r.Some? ==> PairAt(s, i) && i + 5 <= r.value <= |s| && PairAt(s, r.value - 2)
  {
    if PairAt(s, i) then
      match NextPair(s, i + 3)
      case Some(q) => Some(q + 2)
      case None => None
    else None
  }

  /**
   * The display pattern matches at `i` iff `$$` starts at `i` and another
   * `$$` starts at or after `i + 3`; the match ends after the first such
   * `$$` (lazy `+?`: the shortest span with at least one character between
   * the delimiters, which may be a newline or a `$`).
   */
  lemma DisplayMatchIsShortest(s: string, i: nat)
    ensures DisplayMatch(s, i).Some? <==> PairAt(s, i) && exists q :: i + 3 <= q && PairAt(s, q)
    ensures DisplayMatch(s, i).Some? ==>
              forall q :: i + 3 <= q < DisplayMatch(s, i).value - 2 ==> !PairAt(s, q)
  {
    NextPairIsFirst(s, i + 3);
  }

  /**
   * `\$[^\$]+?\$` tried at `i`: the end of the match starting at `i`, if any.
   */
  function InlineMatch(s: string, i: nat): (r: Option<nat>)
    ensures r.Some? ==> i + 3 <= r.value <= |s| && s[i] == '$' && s[r.value - 1] == '$'
  {
    if i + 1 < |s| && s[i] == '$' && s[i + 1] != '$' then
      match NextDollar(s, i + 2)
      case Some(q) => Some(q + 1)
      case None => None
    else None
  }

  /**
   * The inline pattern matches at `i` iff `s[i]` is `$`, the next character
   * exists and is not `$`, and a `$` follows later; the match ends at the
   * next `$`, so no `$` lies inside it.
   */
  lemma InlineMatchIsShortest(s: string, i: nat)
    ensures InlineMatch(s, i).Some? <==>
              i + 1 < |s| && s[i] == '$' && s[i + 1] != '$' &&
              exists q :: i + 1 < q < |s| && s[q] == '$'
    ensures InlineMatch(s, i).Some? ==>
              forall q :: i < q < InlineMatch(s, i).value - 1 ==> s[q] != '$'
  {
    NextDollarIsFirst(s, i + 2);
  }

  /** The end of the match of the pattern of `d` at `i`, if any. */
  function MatchEnd(d: Delimiter, s: string, i: nat): (r: Option<nat>)
    ensures r.Some? ==> i < r.value <= |s|
    ensures r.Some? ==> s[i] == '$' && s[r.value - 1] == '$'
  {
    match d
    case Display => DisplayMatch(s, i)
    case Inline => InlineMatch(s, i)
  }

  /** The shape of a span the pattern of `d` matches. */
  ghost predicate IsSpan(d: Delimiter, e: string) {
    match d
    case Display =>
      |e| >= 5 && PairAt(e, 0) && PairAt(e, |e| - 2) &&
      forall q :: 3 <= q < |e| - 2 ==> !PairAt(e, q)
    case Inline =>
      |e| >= 3 && e[0] == '$' && e[|e| - 1] == '$' &&
      forall q :: 0 < q < |e| - 1 ==> e[q] != '$'
  }

  // ---------------------------------------------------------------------------
  // One `re.sub` pass
  // ---------------------------------------------------------------------------

  /**
   * `re.sub` from position `i` on, the next stash index being `k`: where the
   * pattern matches, the span becomes a hole and is stashed and scanning
   * resumes after it; elsewhere one character is copied.
   */
  function ScanFrom(d: Delimiter, s: string, i: nat, k: nat): Scan
    decreases |s| - i
  {
    if i >= |s| then Scan([], [])
    else
      match MatchEnd(d, s, i)
      case Some(e) =>
        var r := ScanFrom(d, s, e, k + 1);
        Scan([Hole(k)] + r.pieces, [s[i..e]] + r.stash)
      case None =>
        var r := ScanFrom(d, s, i + 1, k);
        Scan([Lit(s[i])] + r.pieces, r.stash)
  }

  /** Display pass over the Markdown text; the stash starts empty. */
  function DisplayScan(s: string): Scan {
    ScanFrom(Display, s, 0, 0)
  }

  /** Inline pass over the output of the display pass, numbering on. */
  function InlineScan(s: string): Scan {
    var d := DisplayScan(s);
    ScanFrom(Inline, Render(d.pieces), 0, |d.stash|)
  }

  /** `stashed_text` after both passes. */
  function StashedText(s: string): string {
    Render(InlineScan(s).pieces)
  }

  /** `math_stash` after both passes. */
  function MathStashOf(s: string): seq<string> {
    DisplayScan(s).stash + InlineScan(s).stash
  }

  // ---------------------------------------------------------------------------
  // Properties of one pass
  // ---------------------------------------------------------------------------

  /** A match found at `i` is a span of the pattern's shape, taken from `s`. */
  lemma MatchIsSpan(d: Delimiter, s: string, i: nat, e: nat)
    requires MatchEnd(d, s, i) == Some(e)
    ensures IsSpan(d, s[i..e])
  {
    var t := s[i..e];
    match d
    case Display =>
      DisplayMatchIsShortest(s, i);
      forall q | 3 <= q < |t| - 2
        ensures !PairAt(t, q)
      {
        assert !PairAt(s, i + q);
      }
    case Inline =>
      InlineMatchIsShortest(s, i);
      forall q | 0 < q < |t| - 1
        ensures t[q] != '$'
      {
        assert t[q] == s[i + q];
      }
  }

  /**
   * Every stashed entry is a span the pattern matches, and the holes are
   * numbered consecutively from `k`, one per entry, in order.
   */
  lemma {:induction false} ScanShape(d: Delimiter, s: string, i: nat, k: nat)
    ensures forall j :: 0 <= j < |ScanFrom(d, s, i, k).stash| ==> IsSpan(d, ScanFrom(d, s, i, k).stash[j])
    ensures Numbered(ScanFrom(d, s, i, k).pieces, k, |ScanFrom(d, s, i, k).stash|)
    decreases |s| - i
  {
    if i < |s| {
      match MatchEnd(d, s, i)
      case Some(e) =>
        var r := ScanFrom(d, s, e, k + 1);
        assert ScanFrom(d, s, i, k) == Scan([Hole(k)] + r.pieces, [s[i..e]] + r.stash);
        ScanShape(d, s, e, k + 1);
        MatchIsSpan(d, s, i, e);
        HoleIndicesCons(Hole(k), r.pieces);
      case None =>
        var r := ScanFrom(d, s, i + 1, k);
        assert ScanFrom(d, s, i, k) == Scan([Lit(s[i])] + r.pieces, r.stash);
        ScanShape(d, s, i + 1, k);
        HoleIndicesCons(Lit(s[i]), r.pieces);
    }
  }

  /** `stash` holds the entries `entries` at indices `k, k + 1, ...`. */
  predicate Holds(stash: seq<string>, k: nat, entries: seq<string>) {
    k + |entries| <= |stash| && stash[k..k + |entries|] == entries
  }

  lemma HoldsTail(stash: seq<string>, k: nat, x: string, entries: seq<string>)
    requires Holds(stash, k, [x] + entries)
    ensures k < |stash| && stash[k] == x
    ensures Holds(stash, k + 1, entries)
  {
    var w := stash[k..k + 1 + |entries|];
    assert w[0] == stash[k];
    assert stash[k + 1..k + 1 + |entries|] == w[1..];
  }

  /**
   * Putting the stashed spans back into the pieces gives the scanned text:
   * `restore` is the inverse of one pass, for any stash holding the pass's
   * entries at the pass's indices.
   */
  lemma {:induction false} ScanRestores(d: Delimiter, s: string, i: nat, k: nat, stash: seq<string>)
    requires i <= |s|
    requires Holds(stash, k, ScanFrom(d, s, i, k).stash)
    ensures Restore(ScanFrom(d, s, i, k).pieces, stash) == s[i..]
    decreases |s| - i
  {
    if i == |s| {
      assert ScanFrom(d, s, i, k) == Scan([], []);
    } else {
      match MatchEnd(d, s, i)
      case Some(e) =>
        RestoreStepMatch(d, s, i, k, e, stash);
        ScanRestores(d, s, e, k + 1, stash);
      case None =>
        RestoreStepCopy(d, s, i, k, stash);
        ScanRestores(d, s, i + 1, k, stash);
    }
  }

  lemma RestoreStepMatch(d: Delimiter, s: string, i: nat, k: nat, e: nat, stash: seq<string>)
    requires i < |s| && MatchEnd(d, s, i) == Some(e)
    requires Holds(stash, k, ScanFrom(d, s, i, k).stash)
    ensures Holds(stash, k + 1, ScanFrom(d, s, e, k + 1).stash)
    ensures Restore(ScanFrom(d, s, e, k + 1).pieces, stash) == s[e..] ==>
              Restore(ScanFrom(d, s, i, k).pieces, stash) == s[i..]
  {
    var r := ScanFrom(d, s, e, k + 1);
    assert ScanFrom(d, s, i, k) == Scan([Hole(k)] + r.pieces, [s[i..e]] + r.stash);
    HoldsTail(stash, k, s[i..e], r.stash);
    RestoreCons(Hole(k), r.pieces, stash);
    assert s[i..e] + s[e..] == s[i..];
  }

  lemma RestoreStepCopy(d: Delimiter, s: string, i: nat, k: nat, stash: seq<string>)
    requires i < |s| && MatchEnd(d, s, i) == None
    requires Holds(stash, k, ScanFrom(d, s, i, k).stash)
    ensures Holds(stash, k, ScanFrom(d, s, i + 1, k).stash)
    ensures Restore(ScanFrom(d, s, i + 1, k).pieces, stash) == s[i + 1..] ==>
              Restore(ScanFrom(d, s, i, k).pieces, stash) == s[i..]
  {
    var r := ScanFrom(d, s, i + 1, k);
    assert ScanFrom(d, s, i, k) == Scan([Lit(s[i])] + r.pieces, r.stash);
    RestoreCons(Lit(s[i]), r.pieces, stash);
    assert [s[i]] + s[i + 1..] == s[i..];
  }

  /** Text with no `$` from `i` on is copied unchanged and stashes nothing. */
  lemma {:induction false} ScanWithoutDollar(d: Delimiter, s: string, i: nat, k: nat)
    requires forall q :: i <= q < |s| ==> s[q] != '$'
    ensures ScanFrom(d, s, i, k).stash == []
    ensures i <= |s| ==> Render(ScanFrom(d, s, i, k).pieces) == s[i..]
    decreases |s| - i
  {
    if i < |s| {
      assert MatchEnd(d, s, i) == None;
      var r := ScanFrom(d, s, i + 1, k);
      assert ScanFrom(d, s, i, k) == Scan([Lit(s[i])] + r.pieces, r.stash);
      ScanWithoutDollar(d, s, i + 1, k);
      RenderCons(Lit(s[i]), r.pieces);
      assert [s[i]] + s[i + 1..] == s[i..];
    } else if i == |s| {
      assert ScanFrom(d, s, i, k) == Scan([], []);
    }
  }

  /** The pieces that copy the characters of `t` unchanged. */
  function Lits(t: string): (ps: seq<Piece>)
    ensures |ps| == |t| && forall q :: 0 <= q < |t| ==> ps[q] == Lit(t[q])
  {
    if t == [] then [] else [Lit(t[0])] + Lits(t[1..])
  }

  /** Copied characters render, and restore, as themselves. */
  lemma {:induction false} LitsRender(t: string, stash: seq<string>)
    ensures Render(Lits(t)) == t
    ensures Restore(Lits(t), stash) == t
  {
    if t != [] {
      LitsRender(t[1..], stash);
      RenderCons(Lit(t[0]), Lits(t[1..]));
      RestoreCons(Lit(t[0]), Lits(t[1..]), stash);
      assert [t[0]] + t[1..] == t;
    }
  }

  /** Where the pattern matches at no position, a pass copies the text one character at a time. */
  /** Where the pattern does not match, a pass copies one character. */
  lemma ScanCopiesOne(d: Delimiter, s: string, i: nat, k: nat)
    requires i < |s| && MatchEnd(d, s, i).None?
    ensures ScanFrom(d, s, i, k).pieces == [Lit(s[i])] + ScanFrom(d, s, i + 1, k).pieces
    ensures ScanFrom(d, s, i, k).stash == ScanFrom(d, s, i + 1, k).stash
  {
  }

  lemma LitsCons(s: string, i: nat, j: nat)
    requires i < j <= |s|
    ensures Lits(s[i..j]) == [Lit(s[i])] + Lits(s[i + 1..j])
  {
    var x := s[i..j];
    assert x[0] == s[i] && x[1..] == s[i + 1..j];
  }

  lemma {:induction false} ScanCopiesStash(d: Delimiter, s: string, i: nat, j: nat, k: nat)
    requires i <= j <= |s|
    requires forall q :: i <= q < j ==> MatchEnd(d, s, q).None?
    ensures ScanFrom(d, s, i, k).stash == ScanFrom(d, s, j, k).stash
    decreases j - i
  {
    if i < j {
      ScanCopiesOne(d, s, i, k);
      ScanCopiesStash(d, s, i + 1, j, k);
    }
  }

  lemma {:induction false} ScanCopiesPieces(d: Delimiter, s: string, i: nat, j: nat, k: nat)
    requires i <= j <= |s|
    requires forall q :: i <= q < j ==> MatchEnd(d, s, q).None?
    ensures ScanFrom(d, s, i, k).pieces == Lits(s[i..j]) + ScanFrom(d, s, j, k).pieces
    decreases j - i
  {
    if i < j {
      ScanCopiesPieces(d, s, i + 1, j, k);
      CopyStep(d, s, i, j, k);
    } else {
      assert Lits(s[i..j]) == [];
    }
  }

  lemma CopyStep(d: Delimiter, s: string, i: nat, j: nat, k: nat)
    requires i < j <= |s| && MatchEnd(d, s, i).None?
    ensures ScanFrom(d, s, i + 1, k).pieces == Lits(s[i + 1..j]) + ScanFrom(d, s, j, k).pieces ==>
              ScanFrom(d, s, i, k).pieces == Lits(s[i..j]) + ScanFrom(d, s, j, k).pieces
  {
    ScanCopiesOne(d, s, i, k);
    LitsCons(s, i, j);
    PrependOne(Lit(s[i]), ScanFrom(d, s, i, k).pieces, ScanFrom(d, s, i + 1, k).pieces,
               Lits(s[i..j]), Lits(s[i + 1..j]), ScanFrom(d, s, j, k).pieces);
  }

  /** Putting one piece in front of both sides of an equation of concatenations. */
  lemma PrependOne(p: Piece, whole: seq<Piece>, rest: seq<Piece>, front: seq<Piece>, front': seq<Piece>, tail: seq<Piece>)
    requires whole == [p] + rest && front == [p] + front'
    ensures rest == front' + tail ==> whole == front + tail
  {
    if rest == front' + tail {
      assert [p] + (front' + tail) == ([p] + front') + tail;
    }
  }

  /** Where the pattern matches nowhere, a pass copies the text and stashes nothing. */
  lemma ScanCopies(d: Delimiter, s: string, i: nat, j: nat, k: nat)
    requires i <= j <= |s|
    requires forall q :: i <= q < j ==> MatchEnd(d, s, q).None?
    ensures ScanFrom(d, s, i, k).pieces == Lits(s[i..j]) + ScanFrom(d, s, j, k).pieces
    ensures ScanFrom(d, s, i, k).stash == ScanFrom(d, s, j, k).stash
  {
    ScanCopiesPieces(d, s, i, j, k);
    ScanCopiesStash(d, s, i, j, k);
  }

  /**
   * Leftmost and non-overlapping: a pass copies the text up to the first
   * position where the pattern matches, stashes that match under the next
   * index, and carries on after the match.
   */
  lemma ScanFindsFirstMatch(d: Delimiter, s: string, i: nat, j: nat, k: nat, e: nat)
    requires i <= j < |s|
    requires forall q :: i <= q < j ==> MatchEnd(d, s, q).None?
    requires MatchEnd(d, s, j) == Some(e)
    ensures ScanFrom(d, s, i, k).pieces == Lits(s[i..j]) + [Hole(k)] + ScanFrom(d, s, e, k + 1).pieces
    ensures ScanFrom(d, s, i, k).stash == [s[j..e]] + ScanFrom(d, s, e, k + 1).stash
  {
    var r := ScanFrom(d, s, e, k + 1);
    assert ScanFrom(d, s, j, k) == Scan([Hole(k)] + r.pieces, [s[j..e]] + r.stash);
    ScanCopiesStash(d, s, i, j, k);
    assert ScanFrom(d, s, i, k).pieces == Lits(s[i..j]) + ([Hole(k)] + r.pieces) by {
      ScanCopiesPieces(d, s, i, j, k);
    }
    AppendAssoc(Lits(s[i..j]), [Hole(k)], r.pieces);
  }

  lemma AppendAssoc(a: seq<Piece>, b: seq<Piece>, c: seq<Piece>)
    ensures a + (b + c) == (a + b) + c
  {
  }

  /** A pass stashes nothing exactly when its pattern matches at no position. */
  lemma {:induction false} ScanStashEmpty(d: Delimiter, s: string, i: nat, k: nat)
    ensures ScanFrom(d, s, i, k).stash == [] <==> forall q :: i <= q < |s| ==> MatchEnd(d, s, q).None?
    decreases |s| - i
  {
    if i < |s| {
      match MatchEnd(d, s, i)
      case Some(e) =>
        var r := ScanFrom(d, s, e, k + 1);
        assert ScanFrom(d, s, i, k) == Scan([Hole(k)] + r.pieces, [s[i..e]] + r.stash);
      case None =>
        var r := ScanFrom(d, s, i + 1, k);
        assert ScanFrom(d, s, i, k) == Scan([Lit(s[i])] + r.pieces, r.stash);
        ScanStashEmpty(d, s, i + 1, k);
    }
  }

  // ---------------------------------------------------------------------------
  // The passes as loops
  // ---------------------------------------------------------------------------

  /** The regex engine's attempt of the display pattern at `i`. */
  method MatchDisplayAt(s: string, i: nat) returns (m: Option<nat>)
    ensures m == DisplayMatch(s, i)
  {
    m := None;
    if i + 1 < |s| && s[i] == '$' && s[i + 1] == '$' {
      var j := i + 3;
      while j + 1 < |s| && !(s[j] == '$' && s[j + 1] == '$')
        invariant i + 3 <= j
        invariant forall q :: i + 3 <= q < j ==> !PairAt(s, q)
        decreases |s| - j
      {
        j := j + 1;
      }
      NextPairIsFirst(s, i + 3);
      if j + 1 < |s| {
        assert PairAt(s, j);
        assert NextPair(s, i + 3) == Some(j);
        m := Some(j + 2);
      } else {
        assert NextPair(s, i + 3) == None;
      }
    }
  }

  /** The regex engine's attempt of the inline pattern at `i`. */
  method MatchInlineAt(s: string, i: nat) returns (m: Option<nat>)
    ensures m == InlineMatch(s, i)
  {
    m := None;
    if i + 1 < |s| && s[i] == '$' && s[i + 1] != '$' {
      var j := i + 2;
      while j < |s| && s[j] != '$'
        invariant i + 2 <= j
        invariant forall q :: i + 2 <= q < j && q < |s| ==> s[q] != '$'
        decreases |s| - j
      {
        j := j + 1;
      }
      NextDollarIsFirst(s, i + 2);
      if j < |s| {
        assert NextDollar(s, i + 2) == Some(j);
        m := Some(j + 1);
      } else {
        assert NextDollar(s, i + 2) == None;
      }
    }
  }

  /** The regex engine's attempt of the pattern of `d` at `i`. */
  method TryMatch(d: Delimiter, s: string, i: nat) returns (m: Option<nat>)
    ensures m == MatchEnd(d, s, i)
  {
    if d == Display {
      m := MatchDisplayAt(s, i);
    } else {
      m := MatchInlineAt(s, i);
    }
  }

  /**
   * One step of a pass at a match: the pieces so far grow by the hole `k`,
   * the stash by the span, and the rest of the scan resumes after it.
   */
  lemma ScanStepMatch(d: Delimiter, s: string, i: nat, k: nat, e: nat, done: seq<Piece>, st: seq<string>)
    requires i < |s| && MatchEnd(d, s, i) == Some(e)
    ensures (done + [Hole(k)]) + ScanFrom(d, s, e, k + 1).pieces == done + ScanFrom(d, s, i, k).pieces
    ensures (st + [s[i..e]]) + ScanFrom(d, s, e, k + 1).stash == st + ScanFrom(d, s, i, k).stash
  {
    var r := ScanFrom(d, s, e, k + 1);
    assert ScanFrom(d, s, i, k) == Scan([Hole(k)] + r.pieces, [s[i..e]] + r.stash);
    assert (done + [Hole(k)]) + r.pieces == done + ([Hole(k)] + r.pieces);
    assert (st + [s[i..e]]) + r.stash == st + ([s[i..e]] + r.stash);
  }

  /** One step of a pass where nothing matches: one character is copied. */
  lemma ScanStepCopy(d: Delimiter, s: string, i: nat, k: nat, done: seq<Piece>)
    requires i < |s| && MatchEnd(d, s, i) == None
    ensures (done + [Lit(s[i])]) + ScanFrom(d, s, i + 1, k).pieces == done + ScanFrom(d, s, i, k).pieces
    ensures ScanFrom(d, s, i + 1, k).stash == ScanFrom(d, s, i, k).stash
  {
    var r := ScanFrom(d, s, i + 1, k);
    assert ScanFrom(d, s, i, k) == Scan([Lit(s[i])] + r.pieces, r.stash);
    assert (done + [Lit(s[i])]) + r.pieces == done + ([Lit(s[i])] + r.pieces);
  }

  /**
   * `re.sub(pattern, stash_fn, text)` with the stash closure: each match is
   * appended to the stash and replaced by the placeholder numbered
   * `len(math_stash) - 1`; as in the regex engine, the output is collected
   * piece by piece and joined at the end.
   */
  method StashMatches(d: Delimiter, text: string, mathStash: seq<string>)
    returns (stashed: string, newStash: seq<string>)
    ensures stashed == Render(ScanFrom(d, text, 0, |mathStash|).pieces)
    ensures newStash == mathStash + ScanFrom(d, text, 0, |mathStash|).stash
  {
    ghost var whole := ScanFrom(d, text, 0, |mathStash|);
    var parts: seq<Piece> := [];
    newStash := mathStash;
    var i := 0;
    while i < |text|
      invariant 0 <= i <= |text|
      invariant parts + ScanFrom(d, text, i, |newStash|).pieces == whole.pieces
      invariant newStash + ScanFrom(d, text, i, |newStash|).stash == mathStash + whole.stash
      decreases |text| - i
    {
      var m := TryMatch(d, text, i);
      if m.Some? {
        var e := m.value;
        var k := |newStash|;
        ScanStepMatch(d, text, i, k, e, parts, newStash);
        parts := parts + [Hole(k)];
        newStash := newStash + [text[i..e]];
        i := e;
      } else {
        ScanStepCopy(d, text, i, |newStash|, parts);
        parts := parts + [Lit(text[i])];
        i := i + 1;
      }
    }
    assert ScanFrom(d, text, i, |newStash|) == Scan([], []);
    assert parts + [] == parts;
    assert newStash + [] == newStash;
    stashed := Render(parts);
  }

  /**
   * `markdown_to_html`'s two `re.sub` calls: the display pass over the
   * Markdown text with an empty stash, then the inline pass over its output
   * with the same stash.
   */
  method StashMath(markdownText: string) returns (stashedText: string, mathStash: seq<string>)
    ensures stashedText == StashedText(markdownText)
    ensures mathStash == MathStashOf(markdownText)
  {
    var displayed, displayStash := StashMatches(Display, markdownText, []);
    assert displayStash == DisplayScan(markdownText).stash;
    stashedText, mathStash := StashMatches(Inline, displayed, displayStash);
  }

  // ---------------------------------------------------------------------------
  // Properties of both passes
  // ---------------------------------------------------------------------------

  /**
   * Round trip: putting the stash back into the inline pass's pieces gives
   * the display pass's output, and putting it back into the display pass's
   * pieces gives the Markdown text.
   */
  lemma StashRoundTrip(s: string)
    ensures Restore(InlineScan(s).pieces, MathStashOf(s)) == Render(DisplayScan(s).pieces)
    ensures Restore(DisplayScan(s).pieces, MathStashOf(s)) == s
  {
    var dd, ii := DisplayScan(s), InlineScan(s);
    var all := MathStashOf(s);
    assert all[0..|dd.stash|] == dd.stash;
    assert all[|dd.stash|..|dd.stash| + |ii.stash|] == ii.stash;
    ScanRestores(Display, s, 0, 0, all);
    ScanRestores(Inline, Render(dd.pieces), 0, |dd.stash|, all);
  }

  /**
   * Indices are handed out in order across both passes: the display holes
   * carry `0 .. n - 1` and the inline holes the indices after them; entry
   * `k` is the span hole `k` replaced, of the display shape for display
   * indices and of the inline shape after them; so exactly the display
   * entries start with `$$`.
   */
  lemma StashIndices(s: string)
    ensures Numbered(DisplayScan(s).pieces, 0, |DisplayScan(s).stash|)
    ensures Numbered(InlineScan(s).pieces, |DisplayScan(s).stash|, |InlineScan(s).stash|)
    ensures forall j :: 0 <= j < |DisplayScan(s).stash| ==> IsSpan(Display, MathStashOf(s)[j])
    ensures forall j :: |DisplayScan(s).stash| <= j < |MathStashOf(s)| ==> IsSpan(Inline, MathStashOf(s)[j])
    ensures forall j :: 0 <= j < |MathStashOf(s)| ==>
              (MatchAt(MathStashOf(s)[j], 0, "$$") <==> j < |DisplayScan(s).stash|)
  {
    var dd := DisplayScan(s);
    var ii := InlineScan(s);
    var all := MathStashOf(s);
    ScanShape(Display, s, 0, 0);
    ScanShape(Inline, Render(dd.pieces), 0, |dd.stash|);
    forall j | 0 <= j < |all|
      ensures MatchAt(all[j], 0, "$$") <==> j < |dd.stash|
    {
      var e := all[j];
      if j < |dd.stash| {
        assert e == dd.stash[j];
        assert e[..2] == "$$";
      } else {
        assert e == ii.stash[j - |dd.stash|];
        assert e[..2] != "$$" by {
          assert e[..2][1] == e[1];
        }
      }
    }
  }

  /** A text where neither pattern matches anywhere stashes nothing and passes through. */
  lemma MatchingNowhere(s: string)
    requires forall q :: 0 <= q < |s| ==> MatchEnd(Display, s, q).None? && MatchEnd(Inline, s, q).None?
    ensures MathStashOf(s) == []
    ensures StashedText(s) == s
  {
    assert s[0..|s|] == s;
    LitsRender(s, []);
    assert Lits(s) + [] == Lits(s);
    ScanStashEmpty(Display, s, 0, 0);
    ScanCopies(Display, s, 0, |s|, 0);
    assert ScanFrom(Display, s, |s|, 0) == Scan([], []);
    var dd := DisplayScan(s);
    assert dd.pieces == Lits(s);
    assert Render(dd.pieces) == s && |dd.stash| == 0;
    assert InlineScan(s) == ScanFrom(Inline, s, 0, 0);
    ScanStashEmpty(Inline, s, 0, 0);
    ScanCopies(Inline, s, 0, |s|, 0);
    assert ScanFrom(Inline, s, |s|, 0) == Scan([], []);
    assert InlineScan(s).pieces == Lits(s);
  }

  /**
   * A text with a single `$` has no math: neither pattern can match with
   * one dollar sign, so nothing is stashed and the text passes through.
   */
  lemma LoneDollarNoStash(s: string, p: nat)
    requires p < |s| && s[p] == '$'
    requires forall q :: 0 <= q < |s| && q != p ==> s[q] != '$'
    ensures MathStashOf(s) == []
    ensures StashedText(s) == s
  {
    forall q | 0 <= q < |s|
      ensures MatchEnd(Display, s, q).None? && MatchEnd(Inline, s, q).None?
    {
      assert !PairAt(s, q);
      assert InlineMatch(s, q).None?;
    }
    MatchingNowhere(s);
  }

  /** `$$$$` is not display math (nothing lies between the pairs) nor inline math: it is kept as it is. */
  lemma FourDollarsNotStashed()
    ensures MathStashOf("$$$$") == []
    ensures StashedText("$$$$") == "$$$$"
  {
    var s := "$$$$";
    forall q | 0 <= q < |s|
      ensures MatchEnd(Display, s, q).None? && MatchEnd(Inline, s, q).None?
    {
      NextPairIsFirst(s, q + 3);
    }
    MatchingNowhere(s);
  }

  /** Markdown text without `$` stashes nothing and passes through unchanged. */
  lemma NoDollarNoStash(s: string)
    requires forall q :: 0 <= q < |s| ==> s[q] != '$'
    ensures MathStashOf(s) == []
    ensures StashedText(s) == s
  {
    ScanWithoutDollar(Display, s, 0, 0);
    assert s[0..] == s;
    ScanWithoutDollar(Inline, s, 0, 0);
  }
}
