/**
 * `get_css_styles` (converter.py:90-93): three style sheets keyed by theme
 * name, each formatted with the configured base font size and page width;
 * an unknown name falls back to the Academic sheet.
 */
module Themes {
  import opened Text

  datatype Theme = Academic | GitHub | Clean

  /** `themes.get(theme, themes["Academic"])`: the theme a name selects. */
  function ThemeNamed(name: string): Theme {
    if name == "GitHub" then GitHub
    else if name == "Clean" then Clean
    else Academic
  }

  /** A CSS length declaration such as `font-size: 18px;`. */
  function PxDeclaration(property: string, value: int): string {
    property + ": " + IntToString(value) + "px;"
  }

  /** The padding each sheet puts around the body. */
  function Padding(t: Theme): int {
    match t
    case Academic => 50
    case GitHub => 40
    case Clean => 50
  }

  /** The text of each sheet before its `font-size` declaration. */
  function Preamble(t: Theme): string {
    match t
    case Academic =>
      "@import url('https://fonts.googleapis.com/css2?family=Crimson+Text:ital,wght@0,400;0,700;1,400&display=swap'); "
      + "body { font-family: 'Crimson Text', 'Georgia', serif; "
    case GitHub => "body { font-family: -apple-system, BlinkMacSystemFont, 'Segoe UI', sans-serif; "
    case Clean => "body { font-family: 'Helvetica Neue', 'Helvetica', 'Arial', sans-serif; "
  }

  /** The declarations between `font-size` and `max-width`. */
  function Between(t: Theme): string {
    " line-height: " + (if t == Academic then "1.7" else "1.6") + "; "
  }

  /** The declarations after `padding`, closing the rule. */
  function Closing(t: Theme): string {
    " background: white; color: "
    + (match t
       case Academic => "#2c3e50"
       case GitHub => "#24292f"
       case Clean => "#333")
    + "; }"
  }

  /** What each sheet takes off the page width for `max-width`. */
  function WidthMargin(t: Theme): int {
    if t == GitHub then 80 else 100
  }

  /**
   * What a sheet is made of: a preamble with the font stack, the base font
   * size, more declarations, the `max-width`, the padding, and the closing
   * declarations.
   */
  datatype Sheet = Sheet(preamble: string, fontSize: int, between: string, maxWidth: int, padding: int, closing: string)

  /**
   * The text of a sheet; the rule every theme follows. It declares the
   * sheet's font size, `max-width` and padding as `px` lengths.
   */
  function SheetText(s: Sheet): (r: string)
    ensures Contains(r, PxDeclaration("font-size", s.fontSize))
    ensures Contains(r, PxDeclaration("max-width", s.maxWidth))
    ensures Contains(r, PxDeclaration("padding", s.padding))
  {
    OccursInside(s.preamble, PxDeclaration("font-size", s.fontSize), s.between, PxDeclaration("max-width", s.maxWidth),
                 " margin: auto; ", PxDeclaration("padding", s.padding), s.closing);
    s.preamble
    + PxDeclaration("font-size", s.fontSize)
    + s.between
    + PxDeclaration("max-width", s.maxWidth)
    + " margin: auto; "
    + PxDeclaration("padding", s.padding)
    + s.closing
  }

  /**
   * The sheet of theme `t`: its font stack, the base font size, its line
   * height, `max-width` of the page width less `100` (`80` for GitHub),
   * centred, with padding `50` (`40` for GitHub), on white.
   */
  function ThemeSheet(t: Theme, fontSize: int, width: int): Sheet {
    Sheet(Preamble(t), fontSize, Between(t), width - WidthMargin(t), Padding(t), Closing(t))
  }

  /**
   * The style sheet of theme `t`: it declares the configured font size, the
   * theme's padding, and a `max-width` that with twice the padding makes up
   * the configured width.
   */
  function ThemeCss(t: Theme, fontSize: int, width: int): (r: string)
    ensures Contains(r, PxDeclaration("font-size", fontSize))
    ensures Contains(r, PxDeclaration("padding", Padding(t)))
    ensures Contains(r, PxDeclaration("max-width", width - 2 * Padding(t)))
  {
    MarginIsTwicePadding(t);
    SheetText(ThemeSheet(t, fontSize, width))
  }

  /**
   * `get_css_styles()` for the configured font size, width and theme name:
   * a sheet with that font size, padding 40 for "GitHub" and 50 for any
   * other name, and the width less twice the padding as `max-width`.
   */
  function CssStyles(fontSize: int, width: int, themeName: string): (r: string)
    ensures var padding := if themeName == "GitHub" then 40 else 50;
      && Contains(r, PxDeclaration("font-size", fontSize))
      && Contains(r, PxDeclaration("padding", padding))
      && Contains(r, PxDeclaration("max-width", width - 2 * padding))
  {
    ThemeCss(ThemeNamed(themeName), fontSize, width)
  }

  /** A name other than the three theme names gets exactly the Academic sheet. */
  lemma UnknownThemeIsAcademic(fontSize: int, width: int, themeName: string)
    requires themeName != "Academic" && themeName != "GitHub" && themeName != "Clean"
    ensures CssStyles(fontSize, width, themeName) == CssStyles(fontSize, width, "Academic")
  {
    assert ThemeNamed(themeName) == Academic == ThemeNamed("Academic");
  }

  /** The GitHub sheet pads by 40, the two others by 50. */
  lemma PaddingByName(themeName: string)
    ensures Padding(ThemeNamed(themeName)) == (if themeName == "GitHub" then 40 else 50)
  {
  }

  /** Where the three middle parts of `a + x + b + y + c + z + d` start. */
  lemma OccursInside(a: string, x: string, b: string, y: string, c: string, z: string, d: string)
    ensures MatchAt(a + x + b + y + c + z + d, |a|, x)
    ensures MatchAt(a + x + b + y + c + z + d, |a + x + b|, y)
    ensures MatchAt(a + x + b + y + c + z + d, |a + x + b + y + c|, z)
  {
    var s := a + x + b + y + c + z + d;
    assert s[|a|..|a| + |x|] == x;
    assert s[|a + x + b|..|a + x + b| + |y|] == y;
    assert s[|a + x + b + y + c|..|a + x + b + y + c| + |z|] == z;
  }

  /**
   * Every theme's sheet declares the configured font size, pads by 40 for
   * GitHub and 50 otherwise, and sets a `max-width` that with twice the
   * padding makes up the configured width: `max-width + 2 * padding == width`.
   */
  lemma CssLayout(t: Theme, fontSize: int, width: int)
    ensures ThemeSheet(t, fontSize, width).fontSize == fontSize
    ensures ThemeSheet(t, fontSize, width).padding == (if t == GitHub then 40 else 50)
    ensures ThemeSheet(t, fontSize, width).maxWidth + 2 * ThemeSheet(t, fontSize, width).padding == width
  {
    MarginIsTwicePadding(t);
  }

  lemma MarginIsTwicePadding(t: Theme)
    ensures WidthMargin(t) == 2 * Padding(t)
  {
  }
}
