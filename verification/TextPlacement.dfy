/** The layout of a string in closed form, its disjoint cells, and what they show. */
module TextPlacement {
  import opened Arithmetic
  import opened Bytes
  import opened Painter
  import opened SimpleText
  import opened TextLayout

  // ----- where the cursor is

  /** The line feeds among the first `n` characters. */
  function Newlines(text: string, n: nat): nat
    requires n <= |text|
  {
    if n == 0 then 0 else Newlines(text, n - 1) + if text[n - 1] == '\n' then 1 else 0
  }

  /** Where the line starts that character `n` is on. */
  function LineStart(text: string, n: nat): (i: nat)
    requires n <= |text|
    ensures i <= n && (i > 0 ==> text[i - 1] == '\n') && '\n' !in text[i..n]
  {
    if n == 0 || text[n - 1] == '\n' then n else LineStart(text, n - 1)
  }

  /** The widths of characters `i` to `j`. */
  function Width(font: Font, text: string, i: nat, j: nat): nat
    requires |font| >= 94 && AllDrawable(text) && j <= |text|
  {
    if j <= i then 0 else Width(font, text, i, j - 1) + AdvanceOf(font, text[j - 1])
  }

  /** After the widths since the last line feed, and as many lines down as there were line feeds. */
  function Place(font: Font, x: int, y: int, text: string, n: nat): Cursor
    requires |font| >= 94 && AllDrawable(text) && n <= |text|
  {
    Cursor(x + Width(font, text, LineStart(text, n), n), y + Product(LineHeight(font), Newlines(text, n)))
  }

  lemma {:induction false} CursorLaw(font: Font, x: int, y: int, text: string, n: nat)
    requires |font| >= 94 && AllDrawable(text) && n <= |text|
    ensures CursorAt(font, x, y, text, n) == Place(font, x, y, text, n)
  {
    if n > 0 {
      CursorLaw(font, x, y, text, n - 1);
    }
  }

  /** What has been laid out stays where it is. */
  lemma {:induction false} JoinedGrows(pieces: PieceFn, i: nat, n: nat, k: nat)
    requires i <= n && k < |Joined(pieces, i)|
    ensures k < |Joined(pieces, n)| && Joined(pieces, n)[k] == Joined(pieces, i)[k]
  {
    if i < n {
      JoinedGrows(pieces, i, n - 1, k);
    }
  }

  lemma GlyphAtCursor(font: Font, style: Style, x: int, y: int, text: string, i: nat, at: Cursor, k: nat)
    requires |font| >= 94 && AllDrawable(text) && i < |text| && Printable(text[i])
    requires at == CursorAt(font, x, y, text, i) && k == |Joined(Pieces(font, style, x, y, text), i)|
    ensures k < |Joined(Pieces(font, style, x, y, text), i + 1)|
    ensures Joined(Pieces(font, style, x, y, text), i + 1)[k]
         == GlyphStamp(GlyphOf(font, text[i]), at.x, at.y, style.ink(k))
  {
  }

  /** Each printed character lands at the place that the text before it leads to. */
  lemma GlyphLands(font: Font, style: Style, x: int, y: int, text: string, i: nat) returns (k: nat, at: Cursor)
    requires |font| >= 94 && AllDrawable(text) && i < |text| && Printable(text[i])
    ensures at == Place(font, x, y, text, i)
    ensures k == |Layout(font, style, x, y, text, i)| < |Layout(font, style, x, y, text, |text|)|
    ensures Layout(font, style, x, y, text, |text|)[k] == GlyphStamp(GlyphOf(font, text[i]), at.x, at.y, style.ink(k))
  {
    k, at := |Layout(font, style, x, y, text, i)|, CursorAt(font, x, y, text, i);
    CursorLaw(font, x, y, text, i);
    GlyphAtCursor(font, style, x, y, text, i, at, k);
    JoinedGrows(Pieces(font, style, x, y, text), i + 1, |text|, k);
  }

  /** How many blanks a character stands for. */
  function BlankCount(ch: char): nat {
    if ch == ' ' then 1 else if ch == '\t' then TAB_SPACING else 0
  }

  /** The `j`-th of several blanks is `j` spaces further on. */
  lemma {:induction false} BlanksAt(font: Font, style: Style, at: Cursor, n: nat, count: nat, j: nat)
    requires |font| >= 94 && style.blank.Some? && j < count
    ensures |Blanks(font, style, at, n, count)| == count
    ensures Blanks(font, style, at, n, count)[j]
         == GlyphStamp(GlyphOf(font, '-'), at.x + Product(SpaceWidth(font), j), at.y, style.blank.value(n + j))
    decreases count
  {
    if count == 1 {
      assert Blank(font, style, at, n) + [] == Blank(font, style, at, n);
    } else {
      var next := Cursor(at.x + SpaceWidth(font), at.y);
      if j > 0 {
        BlanksAt(font, style, next, n + 1, count - 1, j - 1);
      } else {
        BlanksAt(font, style, next, n + 1, count - 1, 0);
      }
    }
  }

  lemma BlankStamp(font: Font, style: Style, at: Cursor, ch: char, n: nat, j: nat)
    requires |font| >= 94 && Drawable(ch) && style.blank.Some? && j < BlankCount(ch)
    ensures |CharStamps(font, style, at, ch, n)| == BlankCount(ch)
    ensures CharStamps(font, style, at, ch, n)[j]
         == GlyphStamp(GlyphOf(font, '-'), at.x + Product(SpaceWidth(font), j), at.y, style.blank.value(n + j))
  {
    if ch == '\t' {
      BlanksAt(font, style, at, n, TAB_SPACING, j);
    }
  }

  lemma BlankAtCursor(font: Font, style: Style, x: int, y: int, text: string, i: nat, j: nat, at: Cursor, k: nat)
    requires |font| >= 94 && AllDrawable(text) && i < |text| && style.blank.Some? && j < BlankCount(text[i])
    requires at == CursorAt(font, x, y, text, i) && k == |Joined(Pieces(font, style, x, y, text), i)|
    ensures k + j < |Joined(Pieces(font, style, x, y, text), i + 1)|
    ensures Joined(Pieces(font, style, x, y, text), i + 1)[k + j]
         == GlyphStamp(GlyphOf(font, '-'), at.x + Product(SpaceWidth(font), j), at.y, style.blank.value(k + j))
  {
    BlankStamp(font, style, at, text[i], k, j);
    assert Pieces(font, style, x, y, text)(i, k) == CharStamps(font, style, at, text[i], k);
  }

  lemma BlankInLayout(font: Font, style: Style, x: int, y: int, text: string, i: nat, j: nat, at: Cursor, k: nat)
    requires |font| >= 94 && AllDrawable(text) && i < |text| && style.blank.Some? && j < BlankCount(text[i])
    requires at == CursorAt(font, x, y, text, i) && k == |Joined(Pieces(font, style, x, y, text), i)|
    ensures k + j < |Joined(Pieces(font, style, x, y, text), |text|)|
    ensures Joined(Pieces(font, style, x, y, text), |text|)[k + j]
         == GlyphStamp(GlyphOf(font, '-'), at.x + Product(SpaceWidth(font), j), at.y, style.blank.value(k + j))
  {
    BlankAtCursor(font, style, x, y, text, i, j, at, k);
    JoinedGrows(Pieces(font, style, x, y, text), i + 1, |text|, k + j);
  }

  /** And so do the blanks for each space and tab, side by side. */
  lemma BlankLands(font: Font, style: Style, x: int, y: int, text: string, i: nat, j: nat) returns (k: nat, at: Cursor)
    requires |font| >= 94 && AllDrawable(text) && i < |text| && style.blank.Some? && j < BlankCount(text[i])
    ensures at.x == BlankColumn(font, x, y, text, i, j) && at.y == Place(font, x, y, text, i).y
    ensures k == |Layout(font, style, x, y, text, i)| + j < |Layout(font, style, x, y, text, |text|)|
    ensures Layout(font, style, x, y, text, |text|)[k]
         == GlyphStamp(GlyphOf(font, '-'), at.x, at.y, style.blank.value(k))
  {
    var from, n := CursorAt(font, x, y, text, i), |Layout(font, style, x, y, text, i)|;
    BlankInLayout(font, style, x, y, text, i, j, from, n);
    CursorLaw(font, x, y, text, i);
    k, at := n + j, Cursor(from.x + Product(SpaceWidth(font), j), from.y);
  }

  /** The column at which blank `j` of character `i` starts. */
  function BlankColumn(font: Font, x: int, y: int, text: string, i: nat, j: nat): int
    requires |font| >= 94 && AllDrawable(text) && i <= |text|
  {
    Place(font, x, y, text, i).x + Product(SpaceWidth(font), j)
  }

  // ----- disjoint cells

  /** No glyph is taller than a line. */
  ghost predicate LinesClear(font: Font)
    requires |font| >= 94
  {
    forall ch :: Printable(ch) ==> GlyphOf(font, ch).height <= LineHeight(font)
  }

  /** The stamp lies on a line above the cursor's, or to the left of the cursor on its line. */
  ghost predicate Behind(t: Stamp, at: Cursor, line: nat) {
    t.y + t.rows <= at.y || (t.y == at.y && t.rows <= line && t.x + t.cols <= at.x)
  }

  ghost predicate AllBehind(ts: seq<Stamp>, at: Cursor, line: nat) {
    forall i :: 0 <= i < |ts| ==> Behind(ts[i], at, line)
  }

  /** A stamp placed at the cursor is apart from all that lie behind it, and lies behind the cursor moved past it. */
  lemma PlaceNext(ts: seq<Stamp>, t: Stamp, at: Cursor, line: nat)
    requires PairwiseApart(ts) && AllBehind(ts, at, line)
    requires t.x == at.x && t.y == at.y && t.rows <= line
    ensures PairwiseApart(ts + [t]) && AllBehind(ts + [t], Cursor(at.x + t.cols, at.y), line)
  {
    forall i, j | 0 <= i < j < |ts + [t]| ensures Apart((ts + [t])[i], (ts + [t])[j]) {
      if j == |ts| {
        assert Behind(ts[i], at, line);
      }
    }
    forall i | 0 <= i < |ts + [t]| ensures Behind((ts + [t])[i], Cursor(at.x + t.cols, at.y), line) {
      if i < |ts| {
        assert Behind(ts[i], at, line);
      }
    }
  }

  lemma PlaceBlank(ts: seq<Stamp>, font: Font, style: Style, at: Cursor, n: nat)
    requires |font| >= 94 && LinesClear(font)
    requires PairwiseApart(ts) && AllBehind(ts, at, LineHeight(font))
    ensures PairwiseApart(ts + Blank(font, style, at, n))
    ensures AllBehind(ts + Blank(font, style, at, n), Cursor(at.x + SpaceWidth(font), at.y), LineHeight(font))
  {
    if style.blank.None? {
      assert ts + Blank(font, style, at, n) == ts;
    } else {
      PlaceNext(ts, Blank(font, style, at, n)[0], at, LineHeight(font));
    }
  }

  lemma {:induction false} PlaceBlanks(ts: seq<Stamp>, font: Font, style: Style, at: Cursor, n: nat, k: nat)
    requires |font| >= 94 && LinesClear(font)
    requires PairwiseApart(ts) && AllBehind(ts, at, LineHeight(font))
    ensures PairwiseApart(ts + Blanks(font, style, at, n, k))
    ensures AllBehind(ts + Blanks(font, style, at, n, k), Cursor(at.x + Product(SpaceWidth(font), k), at.y),
                      LineHeight(font))
    decreases k
  {
    if k == 0 {
      assert ts + [] == ts;
    } else {
      var first := Blank(font, style, at, n);
      var next := Cursor(at.x + SpaceWidth(font), at.y);
      PlaceBlank(ts, font, style, at, n);
      PlaceBlanks(ts + first, font, style, next, n + |first|, k - 1);
      assert ts + first + Blanks(font, style, next, n + |first|, k - 1) == ts + Blanks(font, style, at, n, k);
    }
  }

  lemma PlaceChar(ts: seq<Stamp>, font: Font, style: Style, left: int, at: Cursor, ch: char)
    requires |font| >= 94 && LinesClear(font) && Drawable(ch)
    requires PairwiseApart(ts) && AllBehind(ts, at, LineHeight(font))
    ensures PairwiseApart(ts + CharStamps(font, style, at, ch, |ts|))
    ensures AllBehind(ts + CharStamps(font, style, at, ch, |ts|), Advance(font, left, at, ch), LineHeight(font))
  {
    if ch == '\n' {
      assert ts + [] == ts;
      forall i | 0 <= i < |ts| ensures Behind(ts[i], Advance(font, left, at, ch), LineHeight(font)) {
        assert Behind(ts[i], at, LineHeight(font));
      }
    } else if ch == ' ' {
      PlaceBlank(ts, font, style, at, |ts|);
    } else if ch == '\t' {
      PlaceBlanks(ts, font, style, at, |ts|, TAB_SPACING);
    } else {
      PlaceNext(ts, CharStamps(font, style, at, ch, |ts|)[0], at, LineHeight(font));
    }
  }

  /** With no glyph taller than a line, the cells of a string's glyphs are disjoint. */
  lemma {:induction false} LayoutApart(font: Font, style: Style, x: int, y: int, text: string, n: nat)
    requires |font| >= 94 && AllDrawable(text) && n <= |text| && LinesClear(font)
    ensures PairwiseApart(Layout(font, style, x, y, text, n))
    ensures AllBehind(Layout(font, style, x, y, text, n), CursorAt(font, x, y, text, n), LineHeight(font))
  {
    if n > 0 {
      LayoutApart(font, style, x, y, text, n - 1);
      LayoutStep(font, style, x, y, text, n - 1);
      PlaceChar(Layout(font, style, x, y, text, n - 1), font, style, x, CursorAt(font, x, y, text, n - 1), text[n - 1]);
    }
  }

  /** So the frame does not depend on the order in which the glyphs of a string are drawn. */
  lemma StringOrderIrrelevant(mem: seq<byte>, s: Surface, font: Font, style: Style, x: int, y: int, text: string,
                              us: seq<Stamp>)
    requires |font| >= 94 && AllDrawable(text) && LinesClear(font)
    requires InMemory(s, |mem|) && Suits(s, Layout(font, style, x, y, text, |text|))
    requires multiset(us) == multiset(Layout(font, style, x, y, text, |text|))
    ensures PressAll(mem, s, us) == PressAll(mem, s, Layout(font, style, x, y, text, |text|))
  {
    LayoutApart(font, style, x, y, text, |text|);
    OrderIrrelevant(mem, s, Layout(font, style, x, y, text, |text|), us);
  }

  // ----- measuring

  /** `vid_string_pixel_length_alpha`; a tab or a line feed has no glyph to measure. */
  method StringPixelLength(font: Font, text: string) returns (length: nat)
    requires |font| >= 94 && forall i :: 0 <= i < |text| ==> Printable(text[i]) || text[i] == ' '
    ensures length == Width(font, text, 0, |text|)
  {
    length := 0;
    for i := 0 to |text|
      invariant length == Width(font, text, 0, i)
    {
      if text[i] == ' ' {
        length := length + GlyphOf(font, '-').width;
      } else {
        length := length + GlyphOf(font, text[i]).width;
      }
    }
  }

  /**
   The sum of the widths, which is what measuring gives, is the distance that drawing moves the cursor.
   The widths of tabs count here, though a string with tabs cannot be measured.
   */
  lemma MeasureAgreesWithDrawing(font: Font, x: int, y: int, text: string)
    requires |font| >= 94 && AllDrawable(text) && '\n' !in text
    ensures CursorAt(font, x, y, text, |text|) == Cursor(x + Width(font, text, 0, |text|), y)
  {
    CursorLaw(font, x, y, text, |text|);
    OneLine(text, |text|);
  }

  lemma {:induction false} OneLine(text: string, n: nat)
    requires '\n' !in text && n <= |text|
    ensures LineStart(text, n) == 0 && Newlines(text, n) == 0
  {
    if n > 0 {
      assert text[n - 1] in text;
      OneLine(text, n - 1);
    }
  }

  /** Widths add up when strings are joined. */
  lemma {:induction false} WidthAdds(font: Font, a: string, b: string, k: nat)
    requires |font| >= 94 && AllDrawable(a) && AllDrawable(b) && AllDrawable(a + b) && k <= |b|
    ensures Width(font, a + b, 0, |a| + k) == Width(font, a, 0, |a|) + Width(font, b, 0, k)
  {
    if k == 0 {
      WidthOfFront(font, a, b, |a|);
    } else {
      WidthAdds(font, a, b, k - 1);
    }
  }

  lemma {:induction false} WidthOfFront(font: Font, a: string, b: string, k: nat)
    requires |font| >= 94 && AllDrawable(a) && AllDrawable(a + b) && k <= |a|
    ensures Width(font, a + b, 0, k) == Width(font, a, 0, k)
  {
    if k > 0 {
      WidthOfFront(font, a, b, k - 1);
    }
  }
}
