/** Where the characters of a string land, and what the frame shows afterwards. */
module TextLayout {
  import opened Arithmetic
  import opened Bytes
  import opened FrameReader
  import opened Painter
  import opened Raster
  import opened SimpleText

  datatype Cursor = Cursor(x: int, y: int)

  predicate AllDrawable(text: string) {
    forall i :: 0 <= i < |text| ==> Drawable(text[i])
  }

  /** Spaces are as wide as '-', and lines as high as '|'. */
  function SpaceWidth(font: Font): nat
    requires |font| >= 94
  {
    GlyphOf(font, '-').width
  }

  function LineHeight(font: Font): nat
    requires |font| >= 94
  {
    GlyphOf(font, '|').height
  }

  /** How far a character moves the cursor along its line. */
  function AdvanceOf(font: Font, ch: char): nat
    requires |font| >= 94 && Drawable(ch)
  {
    if ch == '\n' then 0
    else if ch == ' ' then SpaceWidth(font)
    else if ch == '\t' then Product(SpaceWidth(font), TAB_SPACING)
    else GlyphOf(font, ch).width
  }

  function Advance(font: Font, left: int, at: Cursor, ch: char): Cursor
    requires |font| >= 94 && Drawable(ch)
  {
    if ch == '\n' then Cursor(left, at.y + LineHeight(font)) else Cursor(at.x + AdvanceOf(font, ch), at.y)
  }

  /** The print position before character `n`. */
  function CursorAt(font: Font, x: int, y: int, text: string, n: nat): Cursor
    requires |font| >= 94 && AllDrawable(text) && n <= |text|
  {
    if n == 0 then Cursor(x, y) else Advance(font, x, CursorAt(font, x, y, text, n - 1), text[n - 1])
  }

  /** The blank for a space, drawn in the background colour, unless the background is clear. */
  function Blank(font: Font, style: Style, at: Cursor, n: nat): seq<Stamp>
    requires |font| >= 94
  {
    if style.blank.None? then [] else [GlyphStamp(GlyphOf(font, '-'), at.x, at.y, style.blank.value(n))]
  }

  function Blanks(font: Font, style: Style, at: Cursor, n: nat, k: nat): seq<Stamp>
    requires |font| >= 94
    decreases k
  {
    if k == 0 then []
    else
      var first := Blank(font, style, at, n);
      first + Blanks(font, style, Cursor(at.x + SpaceWidth(font), at.y), n + |first|, k - 1)
  }

  /** What one character draws; `n` glyphs have been drawn before it. */
  function CharStamps(font: Font, style: Style, at: Cursor, ch: char, n: nat): seq<Stamp>
    requires |font| >= 94 && Drawable(ch)
  {
    if ch == '\n' then []
    else if ch == ' ' then Blank(font, style, at, n)
    else if ch == '\t' then Blanks(font, style, at, n, TAB_SPACING)
    else [GlyphStamp(GlyphOf(font, ch), at.x, at.y, style.ink(n))]
  }

  /** For each character, and each number of glyphs drawn before it, what it draws. */
  type PieceFn = (int, int) -> seq<Stamp>

  function Pieces(font: Font, style: Style, x: int, y: int, text: string): PieceFn
    requires |font| >= 94 && AllDrawable(text)
  {
    (i, n) =>
      if 0 <= i < |text| && n >= 0 then CharStamps(font, style, CursorAt(font, x, y, text, i), text[i], n) else []
  }

  function Joined(pieces: PieceFn, n: nat): seq<Stamp> {
    if n == 0 then []
    else
      var front := Joined(pieces, n - 1);
      front + pieces(n - 1, |front|)
  }

  /** What the first `n` characters draw, in order. */
  function Layout(font: Font, style: Style, x: int, y: int, text: string, n: nat): seq<Stamp>
    requires |font| >= 94 && AllDrawable(text) && n <= |text|
  {
    Joined(Pieces(font, style, x, y, text), n)
  }

  ghost predicate StampsFit(s: Surface, ts: seq<Stamp>, len: nat) {
    forall i :: 0 <= i < |ts| ==> Fits(GridOf(s, ts[i]), ts[i].rows, ts[i].cols, len)
  }

  // ----- the printing loop

  /** Draws the blank at the cursor, if the background is not clear. */
  method PrintBlank(display: VipFrameReader, s: Surface, at: Cursor, font: Font, colors: Colors, ghost style: Style,
                    n: nat) returns (drawn: nat)
    requires ValidFont(font) && s == DrawSurface(display.View()) && display.width >= 0
    requires colors.depth == display.colorDepth
    requires style == StyleOf(colors)
    requires StampsFit(s, Blank(font, style, at, n), display.ram.Length)
    modifies display.ram
    ensures drawn == n + |Blank(font, style, at, n)|
    ensures display.ram[..] == PressAll(old(display.ram[..]), s, Blank(font, style, at, n))
  {
    drawn := n;
    if colors.background != CLEAR_BACKGROUND {
      ghost var t, was := Blank(font, style, at, n)[0], display.ram[..];
      assert Fits(GridOf(s, t), t.rows, t.cols, display.ram.Length);
      PrintCharAlpha(display, at.x, at.y, colors.background, '-', colors.background, font, colors.stale(n));
      assert display.ram[..] == Press(was, s, t);
      PressOne(was, s, t);
      drawn := n + 1;
    }
  }

  lemma PressOne(mem: seq<byte>, s: Surface, t: Stamp)
    ensures PressAll(mem, s, [t]) == Press(mem, s, t)
  {
    assert [t][..0] == [];
  }

  /** The loop for a tab: `count` blanks one after another. */
  method PrintBlanks(display: VipFrameReader, s: Surface, at: Cursor, font: Font, colors: Colors, ghost style: Style,
                     n: nat, count: nat)
    returns (x: int, drawn: nat)
    requires ValidFont(font) && s == DrawSurface(display.View()) && display.width >= 0
    requires colors.depth == display.colorDepth
    requires style == StyleOf(colors)
    requires StampsFit(s, Blanks(font, style, at, n, count), display.ram.Length)
    modifies display.ram
    ensures x == at.x + Product(SpaceWidth(font), count) && drawn == n + |Blanks(font, style, at, n, count)|
    ensures display.ram[..] == PressAll(old(display.ram[..]), s, Blanks(font, style, at, n, count))
  {
    x, drawn := at.x, n;
    ghost var final := PressAll(display.ram[..], s, Blanks(font, style, at, n, count));
    ghost var total := n + |Blanks(font, style, at, n, count)|;
    ghost var end := at.x + Product(SpaceWidth(font), count);
    for tab := 0 to count
      invariant BlanksLeft(s, font, style, Cursor(x, at.y), drawn, count - tab, display.ram.Length, end, total)
      invariant Leads(display.ram[..], s, Blanks(font, style, Cursor(x, at.y), drawn, count - tab), final)
    {
      x, drawn := PrintNextBlank(display, s, x, at.y, font, colors, style, drawn, count - tab, end, total, final);
    }
    assert Looked(true);
  }

  /** So many blanks are left to print, which leads to the column `end` and to `total` glyphs. */
  ghost predicate BlanksLeft(s: Surface, font: Font, style: Style, at: Cursor, n: nat, k: nat, len: nat, end: int,
                             total: nat)
    requires |font| >= 94
  {
    && at.x + Product(SpaceWidth(font), k) == end && n + |Blanks(font, style, at, n, k)| == total
    && StampsFit(s, Blanks(font, style, at, n, k), len)
  }

  /** The body of the loop for a tab. */
  method PrintNextBlank(display: VipFrameReader, s: Surface, fromX: int, y: int, font: Font, colors: Colors,
                        ghost style: Style, before: nat, ghost k: nat, ghost end: int, ghost total: nat,
                        ghost final: seq<byte>)
    returns (x: int, drawn: nat)
    requires ValidFont(font) && s == DrawSurface(display.View()) && display.width >= 0 && k > 0
    requires colors.depth == display.colorDepth && style == StyleOf(colors)
    requires BlanksLeft(s, font, style, Cursor(fromX, y), before, k, display.ram.Length, end, total)
    requires Leads(display.ram[..], s, Blanks(font, style, Cursor(fromX, y), before, k), final)
    modifies display.ram
    ensures BlanksLeft(s, font, style, Cursor(x, y), drawn, k - 1, display.ram.Length, end, total)
    ensures Leads(display.ram[..], s, Blanks(font, style, Cursor(x, y), drawn, k - 1), final)
  {
    NextBlank(display.ram[..], s, font, style, Cursor(fromX, y), before, k, display.ram.Length, final);
    drawn := PrintBlank(display, s, Cursor(fromX, y), font, colors, style, before);
    x := fromX + GlyphOf(font, '-').width;
  }

  /** The stamps still to be pressed lead to `final`; a proof that needs to know how says `Looked`. */
  ghost predicate Leads(mem: seq<byte>, s: Surface, ts: seq<Stamp>, final: seq<byte>) {
    forall look {:trigger Looked(look)} :: Looked(look) ==> PressAll(mem, s, ts) == final
  }

  predicate Looked(look: bool) {
    look
  }

  lemma NextBlank(mem: seq<byte>, s: Surface, font: Font, style: Style, at: Cursor, n: nat, k: nat, len: nat,
                  final: seq<byte>)
    requires |font| >= 94 && k > 0 && StampsFit(s, Blanks(font, style, at, n, k), len)
    requires Leads(mem, s, Blanks(font, style, at, n, k), final)
    ensures var first := Blank(font, style, at, n);
            var next := Blanks(font, style, Cursor(at.x + SpaceWidth(font), at.y), n + |first|, k - 1);
            && StampsFit(s, first, len) && StampsFit(s, next, len)
            && |Blanks(font, style, at, n, k)| == |first| + |next|
            && Leads(PressAll(mem, s, first), s, next, final)
  {
    var first := Blank(font, style, at, n);
    var next := Blanks(font, style, Cursor(at.x + SpaceWidth(font), at.y), n + |first|, k - 1);
    assert Blanks(font, style, at, n, k) == first + next;
    FrontFits(s, first, next, len);
    LeadsOn(mem, s, first, next, final);
  }

  lemma LeadsOn(mem: seq<byte>, s: Surface, ts: seq<Stamp>, us: seq<Stamp>, final: seq<byte>)
    requires Leads(mem, s, ts + us, final)
    ensures Leads(PressAll(mem, s, ts), s, us, final)
  {
    assert Looked(true);
    PressAllAppend(mem, s, ts, us);
  }

  lemma FrontFits(s: Surface, a: seq<Stamp>, b: seq<Stamp>, len: nat)
    ensures StampsFit(s, a + b, len) <==> StampsFit(s, a, len) && StampsFit(s, b, len)
  {
    if StampsFit(s, a + b, len) {
      forall i | 0 <= i < |a| ensures Fits(GridOf(s, a[i]), a[i].rows, a[i].cols, len) {
        assert (a + b)[i] == a[i];
      }
      forall i | 0 <= i < |b| ensures Fits(GridOf(s, b[i]), b[i].rows, b[i].cols, len) {
        assert (a + b)[|a| + i] == b[i];
      }
    }
  }

  /** Draws one character that is not a line feed, and moves past it. */
  method PrintOne(display: VipFrameReader, s: Surface, at: Cursor, ch: char, font: Font, colors: Colors,
                  ghost style: Style, n: nat)
    returns (x: int, drawn: nat)
    requires ValidFont(font) && s == DrawSurface(display.View()) && display.width >= 0
    requires colors.depth == display.colorDepth
    requires style == StyleOf(colors)
    requires Drawable(ch) && ch != '\n'
    requires StampsFit(s, CharStamps(font, style, at, ch, n), display.ram.Length)
    modifies display.ram
    ensures x == at.x + AdvanceOf(font, ch) && drawn == n + |CharStamps(font, style, at, ch, n)|
    ensures display.ram[..] == PressAll(old(display.ram[..]), s, CharStamps(font, style, at, ch, n))
  {
    if ch == ' ' {
      drawn := PrintBlank(display, s, at, font, colors, style, n);
      x := at.x + GlyphOf(font, '-').width;
    } else if ch == '\t' {
      x, drawn := PrintBlanks(display, s, at, font, colors, style, n, TAB_SPACING);
    } else {
      ghost var t, was := CharStamps(font, style, at, ch, n)[0], display.ram[..];
      assert Fits(GridOf(s, t), t.rows, t.cols, display.ram.Length);
      PrintCharAlpha(display, at.x, at.y, colors.color, ch, colors.background, font, colors.stale(n));
      assert display.ram[..] == Press(was, s, t);
      PressOne(was, s, t);
      x, drawn := at.x + GlyphOf(font, ch).width, n + 1;
    }
  }

  /** Prints a string from a position on: the frame ends as the string's layout, drawn in order, leaves it. */
  method PrintStringAlpha(display: VipFrameReader, horiz: int, vert: int, colors: Colors, font: Font, text: string)
    requires ValidFont(font) && AllDrawable(text) && colors.depth == display.colorDepth && display.width >= 0
    requires StampsFit(DrawSurface(display.View()), Layout(font, StyleOf(colors), horiz, vert, text, |text|),
                       display.ram.Length)
    modifies display.ram
    ensures display.ram[..]
         == PressAll(old(display.ram[..]), DrawSurface(display.View()),
                     Layout(font, StyleOf(colors), horiz, vert, text, |text|))
  {
    ghost var style := StyleOf(colors);
    ghost var was := display.ram[..];
    var s := DrawSurface(display.View());
    var x, y, drawn, i := horiz, vert, 0, 0;
    while i < |text|
      invariant 0 <= i <= |text|
      invariant Cursor(x, y) == CursorAt(font, horiz, vert, text, i)
      invariant drawn == |Layout(font, style, horiz, vert, text, i)|
      invariant display.ram[..] == PressAll(was, s, Layout(font, style, horiz, vert, text, i))
    {
      x, y, drawn := PrintNext(display, s, horiz, vert, colors, style, font, text, i, x, y, drawn, was);
      i := i + 1;
    }
  }

  /** The body of the printing loop: one character. */
  method PrintNext(display: VipFrameReader, s: Surface, horiz: int, ghost vert: int, colors: Colors, ghost style: Style,
                   font: Font, text: string, i: nat, fromX: int, fromY: int, before: nat, ghost was: seq<byte>)
    returns (x: int, y: int, drawn: nat)
    requires ValidFont(font) && AllDrawable(text) && colors.depth == display.colorDepth && display.width >= 0
    requires style == StyleOf(colors) && s == DrawSurface(display.View())
    requires i < |text| && StampsFit(s, Layout(font, style, horiz, vert, text, |text|), display.ram.Length)
    requires Cursor(fromX, fromY) == CursorAt(font, horiz, vert, text, i)
    requires before == |Layout(font, style, horiz, vert, text, i)|
    requires display.ram[..] == PressAll(was, s, Layout(font, style, horiz, vert, text, i))
    modifies display.ram
    ensures Cursor(x, y) == CursorAt(font, horiz, vert, text, i + 1)
    ensures drawn == |Layout(font, style, horiz, vert, text, i + 1)|
    ensures display.ram[..] == PressAll(was, s, Layout(font, style, horiz, vert, text, i + 1))
  {
    ghost var stamps := CharStamps(font, style, Cursor(fromX, fromY), text[i], before);
    LayoutStep(font, style, horiz, vert, text, i);
    PressAllAppend(was, s, Layout(font, style, horiz, vert, text, i), stamps);
    x, y, drawn := fromX, fromY, before;
    if text[i] == '\n' {
      x, y := horiz, y + GlyphOf(font, '|').height;
    } else {
      LayoutFits(s, font, style, horiz, vert, text, i, display.ram.Length);
      x, drawn := PrintOne(display, s, Cursor(x, y), text[i], font, colors, style, drawn);
    }
  }

  lemma LayoutStep(font: Font, style: Style, x: int, y: int, text: string, n: nat)
    requires |font| >= 94 && AllDrawable(text) && n < |text|
    ensures CursorAt(font, x, y, text, n + 1) == Advance(font, x, CursorAt(font, x, y, text, n), text[n])
    ensures Layout(font, style, x, y, text, n + 1)
         == Layout(font, style, x, y, text, n)
            + CharStamps(font, style, CursorAt(font, x, y, text, n), text[n], |Layout(font, style, x, y, text, n)|)
  {
  }

  lemma {:induction false} LayoutFits(s: Surface, font: Font, style: Style, x: int, y: int, text: string, n: nat,
                                      len: nat)
    requires |font| >= 94 && AllDrawable(text) && n < |text|
    requires StampsFit(s, Layout(font, style, x, y, text, |text|), len)
    ensures StampsFit(s, Layout(font, style, x, y, text, n + 1), len)
    ensures StampsFit(s, CharStamps(font, style, CursorAt(font, x, y, text, n), text[n],
                                    |Layout(font, style, x, y, text, n)|), len)
    decreases |text| - n
  {
    if n + 1 < |text| {
      LayoutFits(s, font, style, x, y, text, n + 1, len);
      FrontFits(s, Layout(font, style, x, y, text, n + 1),
                CharStamps(font, style, CursorAt(font, x, y, text, n + 1), text[n + 1],
                           |Layout(font, style, x, y, text, n + 1)|), len);
    }
    FrontFits(s, Layout(font, style, x, y, text, n),
              CharStamps(font, style, CursorAt(font, x, y, text, n), text[n],
                         |Layout(font, style, x, y, text, n)|), len);
  }
}
