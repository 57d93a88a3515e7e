/**
 * `markdown_to_html` end to end (converter.py:95-126), the input guard of
 * the two commands that convert (converter.py:129-149 and 206-212), and
 * the DPI written into saved images (converter.py:199-200).
 *
 * The Markdown library is a parameter `markdown` of the conversion: its
 * output is whatever that function returns for the stashed text.
 */
module Converter {
  import opened Text
  import opened Placeholders
  import opened MathStash
  import opened Reinsertion
  import opened Combining
  import opened Composition
  import opened Themes

  // ---------------------------------------------------------------------------
  // The page
  // ---------------------------------------------------------------------------

  /**
   * The fixed text of a page around its two filled-in parts: `head` up to
   * `<style>`, `middle` from `</style>` to `<body>`, `tail` from `</body>`.
   */
  datatype Shell = Shell(head: string, middle: string, tail: string)

  /** A shell with the style sheet and the body filled in. */
  function Fill(shell: Shell, css: string, htmlBody: string): string {
    shell.head + css + shell.middle + htmlBody + shell.tail
  }

  /**
   * The shell of every page: the doctype and head, MathJax's configuration
   * (inline math between `$`, display math between `$$`, a promise resolved
   * once MathJax has typeset the page) and its loader, and the body.
   */
  function PageShell(): Shell {
    Shell(
      "\n            <!DOCTYPE html><html><head><meta charset=\"utf-8\">\n            <style>",
      "</style>\n            <script>\n"
      + "                window.mathjaxIsReady = new Promise(resolve => {\n"
      + "                    window.MathJax = {\n"
      + "                        tex: { inlineMath: [['$', '$']], displayMath: [['$$', '$$']] },\n"
      + "                        startup: { pageReady: () => { return MathJax.startup.defaultPageReady().then(resolve); } }\n"
      + "                    };\n"
      + "                });\n"
      + "            </script>\n"
      + "            <script id=\"MathJax-script\" async src=\"https://cdn.jsdelivr.net/npm/mathjax@3/es5/tex-chtml.js\"></script>\n"
      + "            </head><body>",
      "</body></html>\n        ")
  }

  /** The HTML page: the style sheet inside `<style>`, the body inside `<body>`. */
  function Document(css: string, htmlBody: string): string {
    Fill(PageShell(), css, htmlBody)
  }

  /**
   * The style sheet and the body sit at fixed places in a filled shell,
   * right after the head and right after the middle.
   */
  lemma FillEmbeds(shell: Shell, css: string, htmlBody: string)
    ensures MatchAt(Fill(shell, css, htmlBody), |shell.head|, css)
    ensures MatchAt(Fill(shell, css, htmlBody), |shell.head| + |css| + |shell.middle|, htmlBody)
  {
    var s := Fill(shell, css, htmlBody);
    assert s[|shell.head|..|shell.head| + |css|] == css;
    var o := |shell.head| + |css| + |shell.middle|;
    assert s[o..o + |htmlBody|] == htmlBody;
  }

  /** A filled shell determines its body: different bodies give different pages. */
  lemma FillBodyRecoverable(shell: Shell, css: string, body1: string, body2: string)
    requires Fill(shell, css, body1) == Fill(shell, css, body2)
    ensures body1 == body2
  {
    FillEmbeds(shell, css, body1);
    FillEmbeds(shell, css, body2);
    var o := |shell.head| + |css| + |shell.middle|;
    assert |body1| == |body2|;
    assert body1 == Fill(shell, css, body1)[o..o + |body1|];
  }

  // ---------------------------------------------------------------------------
  // markdown_to_html
  // ---------------------------------------------------------------------------

  /** The values of the font size, width and theme controls. */
  datatype Settings = Settings(fontSize: int, width: int, theme: string)

  /** The body the conversion produces: the Markdown output with the math put back. */
  function HtmlBody(markdownText: string, markdown: string -> string): string {
    var stash := MathStashOf(markdownText);
    ReinsertPrefix(markdown(StashedText(markdownText)), stash, |stash|)
  }

  /**
   * `markdown_to_html`: stash the math, run the Markdown library on the
   * stashed text, put the math back, and wrap the body in the page with
   * the theme's style sheet.
   */
  method MarkdownToHtml(markdownText: string, settings: Settings, markdown: string -> string)
    returns (html: string)
    ensures html == Document(CssStyles(settings.fontSize, settings.width, settings.theme),
                             HtmlBody(markdownText, markdown))
  {
    var stashedText, mathStash := StashMath(markdownText);
    var htmlBody := markdown(stashedText);
    htmlBody := ReinsertMath(htmlBody, mathStash);
    html := Document(CssStyles(settings.fontSize, settings.width, settings.theme), htmlBody);
  }

  /**
   * Markdown text without `$` goes to the Markdown library unchanged, and
   * its output becomes the body unchanged.
   */
  lemma NoMathPassesThrough(markdownText: string, markdown: string -> string)
    requires forall q :: 0 <= q < |markdownText| ==> markdownText[q] != '$'
    ensures HtmlBody(markdownText, markdown) == markdown(markdownText)
  {
    NoDollarNoStash(markdownText);
  }

  /**
   * With a Markdown library that passes its text through unchanged, the
   * body is the Markdown text with every stashed span wrapped in its
   * `<div>` or `<span>`, and no placeholder is left. This holds for text
   * without `<!--MATH_BLOCK_` of its own whose inline spans do not enclose
   * a display span.
   */
  lemma PassThroughWrapsMath(markdownText: string)
    requires MarkerFree(markdownText)
    requires forall j :: |DisplayScan(markdownText).stash| <= j < |MathStashOf(markdownText)| ==>
               MarkerFree(MathStashOf(markdownText)[j])
    ensures Restore(CombinedPieces(markdownText), MathStashOf(markdownText)) == markdownText
    ensures HtmlBody(markdownText, x => x) ==
              Restore(CombinedPieces(markdownText), WrapAll(MathStashOf(markdownText)))
    ensures MarkerFree(HtmlBody(markdownText, x => x))
  {
    var c, stash := CombinedPieces(markdownText), MathStashOf(markdownText);
    CombinedPiecesCorrect(markdownText);
    ReinsertAllCorrect(c, stash);
    FullStageIsRestore(c, stash);
  }

  /** Inline math spanning the whole text, with no `$` inside. */
  lemma InlineMatchesWhole(t: string)
    requires |t| >= 3 && t[0] == '$' && t[1] != '$' && t[|t| - 1] == '$'
    requires forall q :: 1 <= q < |t| - 1 ==> t[q] != '$'
    ensures InlineMatch(t, 0) == Some(|t|)
  {
    NextDollarIsFirst(t, 2);
  }

  /** Copied text around one hole renders with the hole's placeholder between. */
  lemma RenderAroundHole(a: string, j: nat, b: string)
    ensures Render(Lits(a) + [Hole(j)] + Lits(b)) == a + Placeholder(j) + b
  {
    RenderAppend(Lits(a) + [Hole(j)], Lits(b));
    RenderAppend(Lits(a), [Hole(j)]);
    LitsRender(a, []);
    LitsRender(b, []);
  }

  /** A placeholder starts a marker wherever it stands. */
  lemma PlaceholderIsMarker(a: string, j: nat, b: string)
    ensures MarkerAt(a + Placeholder(j) + b, |a|)
  {
    var p := Placeholder(j);
    assert (a + p + b)[|a|..|a| + |Marker|] == p[..|Marker|];
  }

  /** Inline math holding a placeholder is wrapped in `<span>`, and the placeholder stays a marker. */
  lemma SpanAroundPlaceholder(a: string, j: nat, b: string)
    requires |a| >= 2 && a[1] != '$'
    ensures Wrap(a + Placeholder(j) + b) == "<span>" + a + Placeholder(j) + b + "</span>"
    ensures MarkerAt(Wrap(a + Placeholder(j) + b), |"<span>" + a|)
  {
    var e := a + Placeholder(j) + b;
    assert e[1] == a[1];
    PlaceholderIsMarker("<span>" + a, j, b + "</span>");
    assert "<span>" + e + "</span>" == ("<span>" + a) + Placeholder(j) + (b + "</span>");
  }

  /**
   * A body that is only placeholder 1 comes out of the loop as entry 1,
   * wrapped, whatever entry 0 is.
   */
  lemma ReinsertOnlySecond(e0: string, e1: string)
    ensures ReinsertPrefix(Placeholder(1), [e0, e1], 2) == Wrap(e1)
  {
    var p0, p1 := Placeholder(0), Placeholder(1);
    assert p1 + "" == p1;
    assert !Contains(p1, p0) by {
      PlaceholderOnlyMatchesItself(0, 1, "");
    }
    var st := [e0, e1];
    ReplaceAllAbsent(p1, p0, Wrap(e0));
    assert ReinsertPrefix(p1, st, 1) == p1;
    ReplaceAllAtStart(p1, "", Wrap(e1));
    assert ReplaceAll("", p1, Wrap(e1)) == "";
    assert Wrap(e1) + "" == Wrap(e1);
  }

  /** The display pass over `$a $$b$$ c$` finds one span, from offset 3 to offset 8. */
  lemma NestedDisplayScan(s: string)
    requires s == "$a $$b$$ c$"
    ensures DisplayScan(s).stash == [s[3..8]]
    ensures DisplayScan(s).pieces == Lits(s[0..3]) + [Hole(0)] + Lits(s[8..11])
  {
    assert DisplayMatch(s, 3) == Some(8) by {
      assert PairAt(s, 3) && PairAt(s, 6);
      assert NextPair(s, 6) == Some(6);
    }
    forall q | 0 <= q < 3
      ensures MatchEnd(Display, s, q).None?
    {
      assert !PairAt(s, q);
    }
    ScanFindsFirstMatch(Display, s, 0, 3, 0, 8);
    forall q | 8 <= q < 11
      ensures MatchEnd(Display, s, q).None?
    {
      assert !PairAt(s, q);
    }
    ScanCopies(Display, s, 8, 11, 1);
    assert ScanFrom(Display, s, 11, 1) == Scan([], []);
    assert Lits(s[8..11]) + [] == Lits(s[8..11]);
  }

  /** The display pass over `$a $$b$$ c$` stashes `$$b$$` as entry 0. */
  lemma NestedDisplayPass()
    ensures DisplayScan("$a $$b$$ c$").stash == ["$$b$$"]
    ensures Render(DisplayScan("$a $$b$$ c$").pieces) == "$a " + Placeholder(0) + " c$"
  {
    var s := "$a $$b$$ c$";
    NestedDisplayScan(s);
    var head, tail := s[0..3], s[8..11];
    assert s[3..8] == "$$b$$";
    RenderAroundHole(head, 0, tail);
    assert head == "$a " && tail == " c$";
  }


  /** The inline pass then stashes the whole text, placeholder 0 included, as entry 1. */
  lemma NestedInlinePass()
    ensures ScanFrom(Inline, "$a " + Placeholder(0) + " c$", 0, 1) ==
              Scan([Hole(1)], ["$a " + Placeholder(0) + " c$"])
  {
    var p0 := Placeholder(0);
    var t := "$a " + p0 + " c$";
    forall q | 1 <= q < |t| - 1
      ensures t[q] != '$'
    {
      if 3 <= q < 3 + |p0| {
        PlaceholderHasNoDollar(0, q - 3);
        assert t[q] == p0[q - 3];
      }
    }
    InlineMatchesWhole(t);
    assert ScanFrom(Inline, t, |t|, 2) == Scan([], []);
    assert t[0..|t|] == t;
  }

  /**
   * Inline math around display math: in `$a $$b$$ c$` the display pass
   * stashes `$$b$$` as entry 0, and the inline pass then stashes the whole
   * rest, placeholder 0 included, as entry 1. The loop handles index 0
   * before index 1 brings placeholder 0 back, so it stays in the body.
   */
  lemma NestedDisplayKeepsPlaceholder()
    ensures MathStashOf("$a $$b$$ c$") == ["$$b$$", "$a " + Placeholder(0) + " c$"]
    ensures StashedText("$a $$b$$ c$") == Placeholder(1)
    ensures HtmlBody("$a $$b$$ c$", x => x) == Wrap("$a " + Placeholder(0) + " c$")
    ensures Wrap("$a " + Placeholder(0) + " c$") == "<span>" + "$a " + Placeholder(0) + " c$" + "</span>"
    ensures MarkerAt(HtmlBody("$a $$b$$ c$", x => x), |"<span>" + "$a "|)
  {
    var s := "$a $$b$$ c$";
    var t := "$a " + Placeholder(0) + " c$";
    assert MathStashOf(s) == ["$$b$$", t] && StashedText(s) == Placeholder(1) by {
      NestedDisplayPass();
      NestedInlinePass();
      assert InlineScan(s) == Scan([Hole(1)], [t]);
    }
    ReinsertOnlySecond("$$b$$", t);
    SpanAroundPlaceholder("$a ", 0, " c$");
  }

  // ---------------------------------------------------------------------------
  // The input guard
  // ---------------------------------------------------------------------------

  /**
   * The text the commands read: the editor's content as Tk returns it, with
   * the newline Tk always adds at the end, stripped.
   */
  function InputText(content: string): (r: string)
    ensures r == [] <==> AllSpace(content)
  {
    NewlineStripEmpty(content);
    Strip(content + "\n")
  }

  /** Tk's content with its newline strips to nothing exactly when the content is all whitespace. */
  lemma NewlineStripEmpty(content: string)
    ensures Strip(content + "\n") == [] <==> AllSpace(content)
  {
    var s := content + "\n";
    assert s[|content|] == '\n';
    if AllSpace(content) {
      forall q | 0 <= q < |s|
        ensures IsSpace(s[q])
      {
        if q < |content| {
          assert s[q] == content[q];
        }
      }
    } else {
      var q :| 0 <= q < |content| && !IsSpace(content[q]);
      assert s[q] == content[q];
    }
  }

  /** The messages the status line shows at the points modelled here. */
  datatype Status = Ready | PastedFromClipboard

  /** The text of each status message. */
  function StatusText(s: Status): string {
    match s
    case Ready => "Ready"
    case PastedFromClipboard => "Pasted content from clipboard."
  }

  /**
   * The editor's state: its content and the status line below it. The
   * commands update both in place.
   */
  class Editor {
    var content: string
    var status: Status

    constructor(content: string)
      ensures this.content == content && status == Ready
    {
      this.content := content;
      status := Ready;
    }

    /**
     * `_populate_from_clipboard_if_empty`: when the editor holds only
     * whitespace and the clipboard holds text, that text is inserted at the
     * start. `clipboard` is `None` when Tk cannot read the clipboard.
     */
    method PopulateFromClipboardIfEmpty(clipboard: Option<string>)
      modifies this
      ensures AllSpace(old(content)) && clipboard.Some? && clipboard.value != "" ==>
                content == clipboard.value + old(content) && status == PastedFromClipboard
      ensures !(AllSpace(old(content)) && clipboard.Some? && clipboard.value != "") ==>
                content == old(content) && status == old(status)
    {
      if InputText(content) == [] {
        if clipboard.Some? && clipboard.value != "" {
          content := clipboard.value + content;
          status := PastedFromClipboard;
        }
      }
    }

    /**
     * The guard both commands run after populating: whitespace-only input is
     * refused with the status back at "Ready"; otherwise the stripped text
     * goes on to the conversion.
     */
    method ReadInput() returns (text: Option<string>)
      modifies this
      ensures text.None? <==> AllSpace(content)
      ensures text.None? ==> status == Ready
      ensures text.Some? ==> text.value == InputText(content) && status == old(status)
      ensures content == old(content)
    {
      var t := InputText(content);
      if t == [] {
        status := Ready;
        return None;
      }
      return Some(t);
    }

    /**
     * The start of `_start_threaded_conversion` and of `preview_html`:
     * populate from the clipboard, then read the input through the guard.
     * The text returned is what goes on to `MarkdownToHtml`.
     */
    method TakeInput(clipboard: Option<string>) returns (text: Option<string>)
      modifies this
      ensures content == Populated(old(content), clipboard)
      ensures text.None? <==> AllSpace(content)
      ensures text.None? ==> status == Ready
      ensures text.Some? ==> text.value == InputText(content) && text.value != []
      ensures text.Some? ==>
                status == (if AllSpace(old(content)) && clipboard.Some? && clipboard.value != ""
                           then PastedFromClipboard else old(status))
    {
      PopulateFromClipboardIfEmpty(clipboard);
      text := ReadInput();
    }
  }

  /** What a conversion command is left with, as a function of the editor and the clipboard. */
  function Populated(content: string, clipboard: Option<string>): string {
    if AllSpace(content) && clipboard.Some? && clipboard.value != "" then clipboard.value + content else content
  }

  /**
   * After populating, the input is refused only when both the editor and the
   * clipboard held nothing but whitespace (or the clipboard could not be
   * read); non-blank clipboard text in an empty editor is always converted.
   */
  lemma RefusedOnlyWhenNothingToConvert(content: string, clipboard: Option<string>)
    ensures AllSpace(Populated(content, clipboard)) <==>
              AllSpace(content) && (clipboard.None? || AllSpace(clipboard.value))
  {
    if AllSpace(content) && clipboard.Some? && clipboard.value != "" {
      var c := clipboard.value;
      var s := c + content;
      if AllSpace(c) {
        forall q | 0 <= q < |s|
          ensures IsSpace(s[q])
        {
          if q < |c| {
            assert s[q] == c[q];
          } else {
            assert s[q] == content[q - |c|];
          }
        }
      } else {
        var q :| 0 <= q < |c| && !IsSpace(c[q]);
        assert s[q] == c[q];
      }
    }
  }

  // ---------------------------------------------------------------------------
  // Saving
  // ---------------------------------------------------------------------------

  /**
   * The DPI a saved PNG declares, horizontally and vertically, for a device
   * scale. The image is rendered at `scale` device pixels per CSS pixel, and
   * CSS has 96 pixels per inch: the DPI is the same on both axes and is
   * `scale` times the CSS resolution, so the page prints at its CSS size and
   * the scale can be read back from the DPI.
   */
  function SaveDpi(scale: int): (dpi: (int, int))
    ensures dpi.0 == dpi.1
    ensures dpi.0 % 96 == 0 && dpi.0 / 96 == scale
  {
    (scale * 96, scale * 96)
  }
}
