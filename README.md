# markdown2png: math stashing, reinsertion and page assembly in Dafny

markdown2png is a desktop tool that turns Markdown with TeX math into a PNG
image or an HTML preview. This project models the part of `converter.py`
that builds the HTML page, and proves properties of that model:

- **Math stashing.** Before the Markdown library runs, `markdown_to_html`
  makes two `re.sub` passes. The first takes out display math (`$$...$$`,
  lazy). The second takes out inline math (`$...$`) from what the first pass
  produced. Each matched span is appended to `math_stash` and replaced by
  the comment `<!--MATH_BLOCK_k-->`, where `k` is its index. Indices run on
  across both passes.
- **Reinsertion.** A loop over the stash, in index order, calls
  `str.replace` once per entry. It swaps each placeholder for the entry
  wrapped in `<div>` (when the entry starts with `$$`) or in `<span>`
  (otherwise).
- **Page assembly.** The body goes into a fixed HTML page. That page holds
  the theme's style sheet (`get_css_styles`) and the MathJax configuration.
- **The input guard.** The three commands (copy at converter.py:175, save
  at :194, preview at :206) go through two code paths: copy and save share
  `_start_threaded_conversion`, and preview has its own copy of the guard.
  Both paths first fill an empty editor from the clipboard. They then read
  the text stripped of surrounding whitespace, and refuse it when it is
  blank.
- **The DPI rule.** A saved PNG declares `scale * 96` DPI on both axes.

## Files

- `text.dfy` (module `Text`) has Python's `str(n)`, `str.replace` and
  `str.strip`, written out.
- `placeholder.dfy` (module `Placeholders`) has the placeholder tokens and
  how they can and cannot overlap.
- `stash.dfy` (module `MathStash`) has the two regular expressions as
  matching functions and one `re.sub` pass as a scan into pieces:
  - a piece is a literal character or a hole numbered `k`;
  - the passes are methods proved against that scan;
  - the round trip is proved.
- `reinsert.dfy` (module `Reinsertion`) has the reinsertion loop and the
  proof that it puts every entry at its hole.
- `theme.dfy` (module `Themes`) has the three style sheets.
- `combine.dfy` (module `Combining`) has the pieces that both passes
  produce together, with the display placeholders read back as holes.
- `compose.dfy` (module `Composition`) proves that those combined pieces
  render to the stashed text and restore to the Markdown text. This
  connects the stash to the reinsertion theorem.
- `converter.dfy` (module `Converter`) has:
  - the page and `markdown_to_html`;
  - the editor with its clipboard population and input guard;
  - the DPI rule.

The Markdown library is a parameter `markdown: string -> string` of the
conversion. The editor's widget text, the clipboard and the status line are
the fields and parameters of class `Editor`:
- Tk's `get('1.0', END)` is the content followed by the newline Tk adds;
- a clipboard that Tk cannot read (`TclError`) is `None`.

## Model

| member | source | states |
|---|---|---|
| Text.IntToString | converter.py:92 | The rendering of an integer is non-empty, starts with `-` exactly for negative values, is `-` followed by the decimal rendering of `-n` for those, and is the decimal rendering for the others. |
| Text.DigitsRoundTrip | converter.py:99 | The decimal rendering of an index consists of digits and reads back as the index. |
| Text.NatToStringInjective | converter.py:107 | Distinct indices give distinct decimal renderings, so distinct placeholders. |
| Text.ReplaceAll | converter.py:109-111 | `str.replace`: scans left to right, replaces every occurrence of the pattern, and resumes after each replacement without rescanning it. Its properties are the three rows below. |
| Text.ReplaceAllSkips | converter.py:109 | `replace` copies a prefix in which no occurrence starts and carries on after it. |
| Text.ReplaceAllAbsent | converter.py:109 | `replace` leaves a text without the pattern unchanged. |
| Text.ReplaceAllAtStart | converter.py:109 | `replace` substitutes an occurrence at the start and carries on after it. |
| Text.Strip | converter.py:145 | `strip()` gives the empty text exactly when the text is all whitespace; otherwise the result neither starts nor ends with whitespace. |
| Text.StripCutsOnlySpace | converter.py:145 | The stripped text occurs in the original, with only whitespace before and after it. |
| Placeholders.Placeholder | converter.py:99 | `<!--MATH_BLOCK_{k}-->` for index `k`, the same text at :99, :102 and :107. Its properties are the rows below. |
| Placeholders.PlaceholderMatchIsMarker | converter.py:107 | Every occurrence of a placeholder is an occurrence of the marker `<!--MATH_BLOCK_`. |
| Placeholders.PlaceholderOneOpening | converter.py:99 | The only `<` in a placeholder is its first character. |
| Placeholders.PlaceholderOnlyMatchesItself | converter.py:107 | For `i != k`, placeholder `i` occurs at no offset inside placeholder `k`, whatever follows it; so `<!--MATH_BLOCK_1-->` never hits `<!--MATH_BLOCK_10-->`. |
| Placeholders.PlaceholderHasNoDollar | converter.py:99 | No placeholder holds a `$`, so the inline pattern can neither start nor end inside a display placeholder. |
| MathStash.DisplayMatch | converter.py:103 | Where `\$\$[\s\S]+?\$\$` matches at `i`, a `$$` starts at `i`, the match ends with a `$$` and spans at least five characters. |
| MathStash.InlineMatch | converter.py:104 | Where `\$[^\$]+?\$` matches at `i`, the match starts and ends with `$` and spans at least three characters. |
| MathStash.DisplayMatchIsShortest | converter.py:103 | `\$\$[\s\S]+?\$\$` matches at `i` iff `$$` starts at `i` and another starts at `i + 3` or later; the match ends at the first such `$$`. |
| MathStash.InlineMatchIsShortest | converter.py:104 | `\$[^\$]+?\$` matches at `i` iff `s[i]` is `$`, the next character is not `$`, and a `$` follows; the match holds no `$` inside. |
| MathStash.MatchIsSpan | converter.py:103-104 | A matched span has its pattern's shape: `$$`, at least one character, and `$$` with no earlier closing pair, or `$`, non-`$` characters, and `$`. |
| MathStash.MatchDisplayAt | converter.py:103 | The regex engine's attempt of the display pattern at an index returns exactly the end the matching function defines. |
| MathStash.MatchInlineAt | converter.py:104 | The same for the inline pattern. |
| MathStash.TryMatch | converter.py:103-104 | The attempt of either pattern returns the end its matching function defines. |
| MathStash.ScanFrom | converter.py:97-104 | One `re.sub` pass from an index, as pieces and stashed entries: at a match, a hole numbered with the next index and the span stashed; elsewhere the character copied. Its properties are the rows below. |
| MathStash.ScanShape | converter.py:97-102 | Every stashed entry of a pass is a span of the pass's shape, and the holes are numbered consecutively from the stash length at the start, one per entry. |
| MathStash.ScanRestores | converter.py:98 | Putting back the entries a pass stashed gives the text the pass scanned, for any stash holding those entries at their indices. |
| MathStash.ScanWithoutDollar | converter.py:103-104 | A text without `$` is copied unchanged and stashes nothing. |
| MathStash.ScanStepMatch | converter.py:97-99 | At a match, the output grows by the next placeholder and the stash by the span, and the scan resumes after the span. |
| MathStash.ScanStepCopy | converter.py:103 | Where nothing matches, one character is copied and the stash is unchanged. |
| MathStash.ScanCopies | converter.py:103-104 | Over a stretch where the pattern matches nowhere, a pass copies every character and stashes nothing. |
| MathStash.ScanFindsFirstMatch | converter.py:103-104 | Leftmost and non-overlapping: a pass copies the text up to the first match, stashes exactly that span under the next index, and resumes after it. |
| MathStash.ScanStashEmpty | converter.py:103-104 | A pass stashes nothing exactly when its pattern matches at no position, so no match is left behind. |
| MathStash.StashMatches | converter.py:103-104 | One `re.sub` pass returns the scan's output and the old stash extended by the scan's entries. |
| MathStash.StashMath | converter.py:96-104 | Both passes return the stashed text and the stash that the two-pass scan defines. |
| MathStash.StashRoundTrip | converter.py:96-104 | Putting the stash back into the inline pass's output gives the display pass's output; putting it back into the display pass's output gives the Markdown text. |
| MathStash.StashIndices | converter.py:96-104 | The display holes carry `0..n-1` and the inline holes the indices after them. Entries below `n` have the display shape and the others the inline shape. An entry starts with `$$` exactly when its index is below `n`. |
| MathStash.NoDollarNoStash | converter.py:103-104 | Markdown without `$` stashes nothing and passes through both passes unchanged. |
| MathStash.MatchingNowhere | converter.py:103-104 | Markdown where neither pattern matches anywhere stashes nothing and passes through unchanged. |
| MathStash.LoneDollarNoStash | converter.py:103-104 | Markdown with a single `$` stashes nothing and passes through unchanged. |
| MathStash.FourDollarsNotStashed | converter.py:103-104 | `$$$$` is neither display math (nothing between the pairs) nor inline math, and is kept as it is. |
| Reinsertion.Wrap | converter.py:108-111 | An entry is wrapped in `<div>` exactly when it starts with `$$`, otherwise in `<span>`. |
| Reinsertion.ReinsertMath | converter.py:106-111 | The loop's result is the body with each index's placeholder replaced in increasing index order; with an empty stash the body is returned unchanged. |
| Reinsertion.StageZero | converter.py:105 | Before the loop the body is the Markdown output with every hole still a placeholder. |
| Reinsertion.StageNotStartsWith | converter.py:107 | A body whose leading literals do not spell a `<`-free text does not start with it. |
| Reinsertion.WrapNoMarker | converter.py:108-111 | A `<div>`- or `<span>`-wrapped entry without a marker has no marker starting inside it. |
| Reinsertion.FirstPieceNoMarker | converter.py:107 | No marker starts inside a leading literal that does not spell one, nor inside a hole that already holds its wrapped entry. |
| Reinsertion.StageStep | converter.py:107-111 | The iteration for index `i` replaces exactly the holes numbered `i` by their wrapped entry and changes nothing else. |
| Reinsertion.ReinsertStages | converter.py:106-111 | After the iterations for `0..n-1`, exactly the holes below `n` hold their wrapped entries. |
| Reinsertion.FinalStageMarkerFree | converter.py:106-111 | Once all holes are filled, no marker is left anywhere in the body. |
| Reinsertion.ReinsertAllCorrect | converter.py:106-111 | On a body whose markers are all placeholders standing for holes, with marker-free entries, the loop puts every wrapped entry at its hole and leaves no placeholder behind. `Converter.PassThroughWrapsMath` shows that the stash meets these conditions. |
| Composition.ScanClean | converter.py:103-104 | On Markdown without the marker, no run of characters a pass copies spells the marker. |
| Composition.ScanEntriesMarkerFree | converter.py:103-104 | The spans a pass stashes from Markdown without the marker hold no marker. |
| Composition.CombinedRenders | converter.py:103-104 | Reading the display placeholders in the inline pass's input back as holes gives pieces that render to the inline pass's output; every hole is a display index or an inline index. |
| Composition.CombinedRestores | converter.py:103-104 | Those combined pieces restore, under the stash, to what the display pieces restore to, and spell no marker outside their holes. |
| Composition.CombinedPiecesCorrect | converter.py:96-104 | For marker-free Markdown whose inline spans hold no marker, the combined pieces render to the stashed text, restore to the Markdown text, spell no marker, and have a stash entry for every hole; every stash entry is marker-free. |
| Composition.FullStageIsRestore | converter.py:106-111 | Once every index is handled, the body is the pieces restored from the stash with each entry wrapped. |
| Themes.SheetText | converter.py:92 | Every sheet declares its font size, `max-width` and padding as `px` lengths. |
| Themes.ThemeCss | converter.py:92 | A theme's sheet declares the configured font size, the theme's padding, and a `max-width` equal to the width less twice the padding. |
| Themes.CssStyles | converter.py:90-93 | `get_css_styles()` declares the configured font size, padding 40 for "GitHub" and 50 for any other name, and the width less twice the padding as `max-width`. |
| Themes.UnknownThemeIsAcademic | converter.py:93 | A name other than the three theme names gets exactly the Academic sheet. |
| Themes.PaddingByName | converter.py:92-93 | The sheet a name selects pads by 40 for "GitHub" and by 50 for any other name. |
| Themes.CssLayout | converter.py:90-93 | Every theme's sheet uses the configured font size, pads by 40 for GitHub and 50 otherwise, and has `max-width + 2 * padding == width`. |
| Converter.PageShell | converter.py:112-125 | The fixed text of the page: head up to `<style>`, then MathJax's configuration (inline math between `$`, display math between `$$`) and loader up to `<body>`, then the closing tags. `FillEmbeds` and `FillBodyRecoverable` state where the filled-in parts go. |
| Converter.Document | converter.py:112-125 | The page with the style sheet inside `<style>` and the body inside `<body>`. |
| Converter.FillEmbeds | converter.py:112-125 | The style sheet and the body sit at fixed offsets in the page: right after the head and right after the middle. |
| Converter.FillBodyRecoverable | converter.py:124 | The page determines its body: the same style sheet with different bodies gives different pages. |
| Converter.HtmlBody | converter.py:96-111 | The body: the Markdown library's output on the stashed text, with the reinsertion loop run over the stash. `MarkdownToHtml`, `NoMathPassesThrough` and `PassThroughWrapsMath` state what it is. |
| Converter.MarkdownToHtml | converter.py:95-126 | The result is the page around the theme's style sheet and the body. That body is the Markdown library's output on the stashed text, with the stash put back. |
| Converter.NoMathPassesThrough | converter.py:95-111 | For Markdown without `$`, the body is the Markdown library's output on the text itself. |
| Converter.PassThroughWrapsMath | converter.py:96-111 | With a Markdown library that passes its text through, for Markdown without the marker whose inline spans hold no marker: the stash put back into the combined pieces gives the Markdown text, and the body is those pieces with every entry wrapped, with no marker left. |
| Converter.NestedDisplayScan | converter.py:103 | The display pass over `$a $$b$$ c$` finds one span, from offset 3 to offset 8. |
| Converter.NestedDisplayPass | converter.py:103 | The display pass over `$a $$b$$ c$` stashes `$$b$$` as entry 0. |
| Converter.NestedInlinePass | converter.py:104 | The inline pass then stashes the whole text, placeholder 0 included, as entry 1. |
| Converter.NestedDisplayKeepsPlaceholder | converter.py:103-111 | For `$a $$b$$ c$` with a pass-through Markdown library, the body is entry 1 wrapped in `<span>`, and it still holds `<!--MATH_BLOCK_0-->`. |
| Converter.InputText | converter.py:145 | The text read from the editor is empty exactly when the editor holds only whitespace. |
| Converter.NewlineStripEmpty | converter.py:145 | The content with Tk's trailing newline strips to nothing exactly when the content is all whitespace. |
| Converter.Editor.PopulateFromClipboardIfEmpty | converter.py:129-139 | A blank editor with non-empty, readable clipboard text gets that text inserted at the start, and the status says so; otherwise nothing changes. |
| Converter.Editor.ReadInput | converter.py:145-149 | Blank input is refused and the status is reset to "Ready"; otherwise the stripped text is returned; the content is unchanged. |
| Converter.Editor.TakeInput | converter.py:206-212 | After population the content is `Populated(old content, clipboard)`. Input is refused exactly when that content is blank, and then the status is "Ready". Otherwise the stripped, non-empty text is returned, and the status is the one population left. |
| Converter.RefusedOnlyWhenNothingToConvert | converter.py:129-149 | After population the input is blank iff the editor was blank and the clipboard was unreadable or blank. |
| Converter.SaveDpi | converter.py:199-200 | The saved image declares the same DPI on both axes; it is a multiple of 96, and dividing by 96 gives back the scale. |

## Left out

- The Tk window, its widgets, message boxes and file dialogs are not modelled. The status line appears only at the points where the guard sets it.
- The status messages after the guard are left out. "Generating HTML..." is set on the Tk thread at converter.py:151, once the input is accepted. "Rendering content at ...x scale..." is set from the worker thread at :157. The messages of the copy and save callbacks (:180-202) are set on the Tk main loop through `root.after`. They are display only and do not decide anything modelled here.
- The worker thread, asyncio and the Playwright browser that renders the page are left out, because these are I/O and concurrency.
- The macOS check of the copy command (converter.py:176-178) is left out: it depends on the platform, and it refuses before the input guard runs.
- PIL image handling and the file writes of the save and preview commands are left out; only the DPI rule is modelled.
- The temporary HTML file and the web browser of the preview are left out.
- The clipboard and Tk's text widget appear only as values: the clipboard as a parameter and the widget text as a field. The OS calls behind them are not modelled.
- The PyInstaller browser-path setup at the top of the file is left out: it is environment configuration.
- The Markdown library is a parameter `markdown: string -> string`. Nothing is assumed about it: the model does not capture which Markdown it renders, or how.
- Reinsertion.ReinsertAllCorrect: stated for a body built from pieces whose literals never spell `<!--MATH_BLOCK_` and for entries without that marker. `Converter.PassThroughWrapsMath` shows that the stash produces such pieces and entries, for Markdown without the marker whose inline spans enclose no display span. A real Markdown library must also pass the placeholders through as they are; that part is not modelled, because the library is a parameter.
- Reinsertion.ReinsertAllCorrect: when inline math encloses a display span, the stash holds a marker. `Converter.NestedDisplayKeepsPlaceholder` shows this for `$a $$b$$ c$`: the inline entry contains `<!--MATH_BLOCK_0-->`, and the loop handles index 0 before index 1 puts that placeholder back, so it stays in the page. The model follows the code's order, and the theorem excludes such entries.
- Integers are unbounded, like Python's. The font size, width and scale have no range checks, because a spin box's `from_`/`to` does not stop a typed value outside that range. A width below 100 thus gives a negative `max-width`, which `IntToString` renders with its sign.
- MathStash.StashMatches: the output is collected as a list of pieces and rendered once at the end. This matches how `re.sub` joins its pieces, but the model does not capture an intermediate string.
