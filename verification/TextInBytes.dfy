/** What printing does to memory, in bytes: where each pixel of a text lies, and what is stored there. */
module TextInBytes {
  import opened Arithmetic
  import opened Blending
  import opened Bytes
  import opened DrawFrame
  import opened FrameReader
  import opened Painter
  import opened Raster
  import opened SimpleText
  import opened TextLayout
  import opened TextPlacement
  import opened TextShown

  // ----- colours

  /** The three fields of a 5-6-5 word are mixed. */
  ghost predicate WordMixed(f: int, b: int, alpha: int, shown: int) {
    && Mixed(f % 0x20, b % 0x20, alpha, shown % 0x20)
    && Mixed(f / 0x20 % 0x40, b / 0x20 % 0x40, alpha, shown / 0x20 % 0x40)
    && Mixed(f / 0x800 % 0x20, b / 0x800 % 0x20, alpha, shown / 0x800 % 0x20)
  }

  /**
   A pixel that held `was` holds the mix of the text's colour with the background colour, or with
   `was` if that is -1.
   */
  ghost predicate PixelMixed(depth: int, color: int, background: int, alpha: int, was: seq<byte>, now: seq<byte>) {
    && (depth == 24 || depth == 32 ==>
          && |was| >= 3 && |now| >= 3
          && Mixed(color % 0x100, if background == -1 then was[0] else background % 0x100, alpha, now[0])
          && Mixed(color / 0x100 % 0x100, if background == -1 then was[1] else background / 0x100 % 0x100, alpha,
                   now[1])
          && Mixed(color / 0x1_0000 % 0x100, if background == -1 then was[2] else background / 0x1_0000 % 0x100, alpha,
                   now[2]))
    && (depth == 16 ==>
          && |was| >= 2 && |now| >= 2
          && var low: int, high: int, wasLow: int, wasHigh: int := now[0], now[1], was[0], was[1];
             WordMixed(color, if background == -1 then wasLow + 0x100 * wasHigh else background, alpha,
                       low + 0x100 * high))
  }

  /** The pixel in the `n` bytes at `at` is mixed. */
  ghost predicate MixedAt(depth: int, color: int, background: int, alpha: int, was: seq<byte>, now: seq<byte>,
                          at: int, n: int) {
    && 0 <= at && 0 <= n && at + n <= |was| == |now|
    && PixelMixed(depth, color, background, alpha, was[at..at + n], now[at..at + n])
  }

  /** A pixel holds a colour. */
  ghost predicate PixelShows(depth: int, color: int, now: seq<byte>) {
    && (depth == 24 || depth == 32 ==>
          && |now| >= 3 && now[0] == color % 0x100 && now[1] == color / 0x100 % 0x100
          && now[2] == color / 0x1_0000 % 0x100)
    && (depth == 16 ==>
          |now| >= 2 && var low: int, high: int := now[0], now[1]; low + 0x100 * high == color % 0x1_0000)
  }

  /** The low half of a word, and quotients of it. */
  lemma LowHalf(x: int, q: int, t: int)
    requires x == 0x1_0000 * q + t && 0 <= t < 0x1_0000
    ensures x % 0x100 == t % 0x100 && x / 0x100 % 0x100 == t / 0x100
    ensures x % 0x20 == t % 0x20 && x / 0x20 % 0x40 == t / 0x20 % 0x40 && x / 0x800 % 0x20 == t / 0x800
  {
    LowByte(x, q, t);
    LowMiddle(x, q, t);
    assert x / 0x800 == 0x20 * q + t / 0x800;
  }

  lemma LowByte(x: int, q: int, t: int)
    requires x == 0x1_0000 * q + t && 0 <= t < 0x1_0000
    ensures x % 0x100 == t % 0x100 && x % 0x20 == t % 0x20 && x / 0x100 % 0x100 == t / 0x100
  {
    assert x / 0x100 == 0x100 * q + t / 0x100;
  }

  lemma LowMiddle(x: int, q: int, t: int)
    requires x == 0x1_0000 * q + t && 0 <= t < 0x1_0000
    ensures x / 0x20 % 0x40 == t / 0x20 % 0x40
  {
    var u := t / 0x20;
    assert x / 0x20 == 0x40 * (0x20 * q) + u;
  }

  lemma WordFields(x: int)
    ensures Fields(x % 0x100 + 0x100 * (x / 0x100 % 0x100)) == Channels(x / 0x800 % 0x20, x / 0x20 % 0x40, x % 0x20)
  {
    var q, t := x / 0x1_0000, x % 0x1_0000;
    LowHalf(x, q, t);
    LowHalf(t, 0, t);
    assert x % 0x100 + 0x100 * (x / 0x100 % 0x100) == t;
  }

  lemma BlendedIsMixed(depth: int, color: int, background: int, alpha: byte, was: seq<byte>, now: seq<byte>)
    requires |was| == Bpp(depth) && |now| == Bpp(depth)
    requires Separate(depth, now) == BlendedPixel(depth, color, background, alpha, was)
    ensures PixelMixed(depth, color, background, alpha, was, now)
  {
    BlendMixes(depth, Separate(depth, LittleEndian(color)), Background(depth, background, was), alpha,
               Separate(depth, now));
    if depth == 16 {
      HalfMixed(color, background, alpha, was, now);
    }
  }

  lemma HalfMixed(color: int, background: int, alpha: byte, was: seq<byte>, now: seq<byte>)
    requires |was| == 2 && |now| == 2
    requires var f, b, c := Separate(16, LittleEndian(color)), Background(16, background, was), Separate(16, now);
             && Mixed(f.red, b.red, alpha, c.red) && Mixed(f.green, b.green, alpha, c.green)
             && Mixed(f.blue, b.blue, alpha, c.blue)
    ensures PixelMixed(16, color, background, alpha, was, now)
  {
    var low: int, high: int, wasLow: int, wasHigh: int := now[0], now[1], was[0], was[1];
    var behind := if background == -1 then wasLow + 0x100 * wasHigh else background;
    HalfIs(color, LittleEndian(color));
    PairIs(now[0], now[1], now);
    PairIs(was[0], was[1], was);
    HalfIs(background, LittleEndian(background));
    FieldsMixed(color, behind, alpha, low + 0x100 * high, Separate(16, LittleEndian(color)),
                Background(16, background, was), Separate(16, now));
  }

  lemma FieldsMixed(f: int, b: int, alpha: int, c: int, fs: Channels, bs: Channels, cs: Channels)
    requires fs == Channels(f / 0x800 % 0x20, f / 0x20 % 0x40, f % 0x20)
    requires bs == Channels(b / 0x800 % 0x20, b / 0x20 % 0x40, b % 0x20)
    requires cs == Channels(c / 0x800 % 0x20, c / 0x20 % 0x40, c % 0x20)
    requires Mixed(fs.red, bs.red, alpha, cs.red) && Mixed(fs.green, bs.green, alpha, cs.green)
    requires Mixed(fs.blue, bs.blue, alpha, cs.blue)
    ensures WordMixed(f, b, alpha, c)
  {
  }

  lemma PairIs(low: int, high: int, p: seq<byte>)
    requires |p| >= 2 && p[0] == low && p[1] == high
    ensures var x := low + 0x100 * high;
            Separate(16, p) == Channels(x / 0x800 % 0x20, x / 0x20 % 0x40, x % 0x20)
  {
    HalfOfBytes(low, high);
    HalfIs(low + 0x100 * high, p);
  }

  lemma HalfIs(x: int, p: seq<byte>)
    requires |p| >= 2 && p[0] == x % 0x100 && p[1] == x / 0x100 % 0x100
    ensures Separate(16, p) == Channels(x / 0x800 % 0x20, x / 0x20 % 0x40, x % 0x20)
  {
    WordFields(x);
    assert Peek(p, 0) == p[0] && Peek(p, 1) == p[1];
  }

  // ----- places

  /**
   The place of a character follows from the one before: a line feed goes back to the start and down by
   the height of '|', a space goes on by the width of '-', a tab by twice that, and any other character
   by its own width.
   */
  lemma PlaceMoves(font: Font, x: int, y: int, text: string, n: nat)
    requires |font| >= 94 && AllDrawable(text) && n < |text|
    ensures Place(font, x, y, text, 0) == Cursor(x, y)
    ensures var at := Place(font, x, y, text, n);
            Place(font, x, y, text, n + 1)
            == (if text[n] == '\n' then Cursor(x, at.y + font[91].height)
                else if text[n] == ' ' then Cursor(at.x + font[12].width, at.y)
                else if text[n] == '\t' then Cursor(at.x + 2 * font[12].width, at.y)
                else Cursor(at.x + font[text[n] as int - 33].width, at.y))
  {
    CursorLaw(font, x, y, text, 0);
    CursorLaw(font, x, y, text, n);
    CursorLaw(font, x, y, text, n + 1);
  }

  /** And so does the printing cursor. */
  lemma CursorMoves(font: Font, x: int, y: int, text: string, n: nat)
    requires |font| >= 94 && AllDrawable(text) && n < |text|
    ensures CursorAt(font, x, y, text, 0) == Cursor(x, y)
    ensures var at := CursorAt(font, x, y, text, n);
            CursorAt(font, x, y, text, n + 1)
            == (if text[n] == '\n' then Cursor(x, at.y + font[91].height)
                else if text[n] == ' ' then Cursor(at.x + font[12].width, at.y)
                else if text[n] == '\t' then Cursor(at.x + 2 * font[12].width, at.y)
                else Cursor(at.x + font[text[n] as int - 33].width, at.y))
  {
    PlaceMoves(font, x, y, text, n);
    CursorLaw(font, x, y, text, 0);
    CursorLaw(font, x, y, text, n);
    CursorLaw(font, x, y, text, n + 1);
  }

  /** The measured length grows by the same widths. */
  lemma WidthMoves(font: Font, text: string, n: nat)
    requires |font| >= 94 && AllDrawable(text) && n < |text| && text[n] != '\t' && text[n] != '\n'
    ensures Width(font, text, 0, 0) == 0
    ensures Width(font, text, 0, n + 1)
         == Width(font, text, 0, n) + if text[n] == ' ' then font[12].width else font[text[n] as int - 33].width
  {
  }

  /** The stamp of a printed character has the size and the alphas of its entry in the font. */
  lemma StampOfCharacter(font: Font, style: Style, x: int, y: int, text: string, i: nat) returns (k: nat, t: Stamp)
    requires ValidFont(font) && AllDrawable(text) && i < |text| && '!' <= text[i] <= '~'
    ensures k < |Layout(font, style, x, y, text, |text|)| && t == Layout(font, style, x, y, text, |text|)[k]
    ensures t.x == Place(font, x, y, text, i).x && t.y == Place(font, x, y, text, i).y
    ensures t.rows == font[text[i] as int - 33].height && t.cols == font[text[i] as int - 33].width
    ensures forall r, c, px :: 0 <= r < t.rows && 0 <= c < t.cols ==> HasInk(font, text[i], style, k, t, r, c, px)
  {
    var at;
    k, at := GlyphLands(font, style, x, y, text, i);
    t := Layout(font, style, x, y, text, |text|)[k];
    forall r, c, px | 0 <= r < t.rows && 0 <= c < t.cols ensures HasInk(font, text[i], style, k, t, r, c, px) {
      CellIsInk(GlyphOf(font, text[i]), at.x, at.y, style.ink(k), r, c, px);
      ProductIs(GlyphOf(font, text[i]).width, r);
    }
  }

  /** Pixel (r, c) of a stamp is drawn with the alpha that the character's entry has for it. */
  ghost predicate HasInk(font: Font, ch: char, style: Style, k: nat, t: Stamp, r: int, c: int, px: seq<byte>) {
    && 33 <= ch as int < |font| + 33
    && var glyph := font[ch as int - 33];
       && 0 <= r * glyph.width + c < |glyph.alpha|
       && t.cell(r, c, px) == style.ink(k)(glyph.alpha[r * glyph.width + c], px)
  }

  /** A pixel of the cell of printed character `i`. */
  ghost predicate InGlyph(font: Font, x: int, y: int, text: string, i: nat, px: int, py: int)
    requires |font| >= 94 && AllDrawable(text) && i < |text|
  {
    var at := Place(font, x, y, text, i);
    && '!' <= text[i] <= '~'
    && at.x <= px < at.x + font[text[i] as int - 33].width && at.y <= py < at.y + font[text[i] as int - 33].height
  }

  /** A pixel of the only '-' cell of a space, or of the first or second one of a tab. */
  ghost predicate InBlank(font: Font, x: int, y: int, text: string, i: nat, j: nat, px: int, py: int)
    requires |font| >= 94 && AllDrawable(text) && i < |text|
  {
    var at := Place(font, x, y, text, i);
    var left := at.x + if j == 0 then 0 else font[12].width;
    && ((text[i] == ' ' && j == 0) || (text[i] == '\t' && j < 2))
    && left <= px < left + font[12].width && at.y <= py < at.y + font[12].height
  }

  lemma ClearBlanks(font: Font, style: Style, at: Cursor, n: nat)
    requires |font| >= 94 && style.blank.None?
    ensures Blanks(font, style, at, n, TAB_SPACING) == []
  {
    assert Blanks(font, style, Cursor(at.x + SpaceWidth(font), at.y), n, 1) == [];
  }

  /** Whatever a character stamps is its own cell, or one of its blanks if the background is drawn. */
  lemma CharCovers(font: Font, style: Style, x: int, y: int, text: string, i: nat, k: nat, n: nat, px: int, py: int)
    returns (j: nat)
    requires |font| >= 94 && AllDrawable(text) && i < |text|
    requires k < |CharStamps(font, style, Place(font, x, y, text, i), text[i], n)|
    requires Covers(CharStamps(font, style, Place(font, x, y, text, i), text[i], n)[k], px, py)
    ensures InGlyph(font, x, y, text, i, px, py) || (style.blank.Some? && InBlank(font, x, y, text, i, j, px, py))
  {
    var at := Place(font, x, y, text, i);
    j := k;
    if text[i] == '\t' {
      if style.blank.None? {
        ClearBlanks(font, style, at, n);
      } else {
        TwoBlanks(font, style, at, n);
      }
    }
  }

  lemma TwoBlanks(font: Font, style: Style, at: Cursor, n: nat)
    requires |font| >= 94 && style.blank.Some?
    ensures |CharStamps(font, style, at, '\t', n)| == 2
    ensures CharStamps(font, style, at, '\t', n)[0] == GlyphStamp(font[12], at.x, at.y, style.blank.value(n))
    ensures CharStamps(font, style, at, '\t', n)[1]
         == GlyphStamp(font[12], at.x + font[12].width, at.y, style.blank.value(n + 1))
  {
    BlankStamp(font, style, at, '\t', n, 0);
    BlankStamp(font, style, at, '\t', n, 1);
  }

  lemma {:induction false} JoinedSource(pieces: PieceFn, n: nat, k: nat) returns (i: nat, f: nat, m: nat)
    requires k < |Joined(pieces, n)|
    ensures i < n && m < |pieces(i, f)| && pieces(i, f)[m] == Joined(pieces, n)[k]
  {
    f := |Joined(pieces, n - 1)|;
    if k < f {
      i, f, m := JoinedSource(pieces, n - 1, k);
    } else {
      i, m := n - 1, k - f;
    }
  }

  /** Each stamp of a layout is one of some character's. */
  lemma LayoutSource(font: Font, style: Style, x: int, y: int, text: string, k: nat) returns (i: nat, f: nat, m: nat)
    requires |font| >= 94 && AllDrawable(text) && k < |Layout(font, style, x, y, text, |text|)|
    ensures i < |text| && m < |CharStamps(font, style, Place(font, x, y, text, i), text[i], f)|
    ensures CharStamps(font, style, Place(font, x, y, text, i), text[i], f)[m]
         == Layout(font, style, x, y, text, |text|)[k]
  {
    var pieces := Pieces(font, style, x, y, text);
    i, f, m := JoinedSource(pieces, |text|, k);
    CursorLaw(font, x, y, text, i);
    assert pieces(i, f) == CharStamps(font, style, CursorAt(font, x, y, text, i), text[i], f);
  }

  lemma LayoutCovers(font: Font, style: Style, x: int, y: int, text: string, k: nat, px: int, py: int)
    returns (i: nat, j: nat)
    requires |font| >= 94 && AllDrawable(text)
    requires k < |Layout(font, style, x, y, text, |text|)| && Covers(Layout(font, style, x, y, text, |text|)[k], px, py)
    ensures i < |text|
    ensures InGlyph(font, x, y, text, i, px, py) || (style.blank.Some? && InBlank(font, x, y, text, i, j, px, py))
  {
    var f, m;
    i, f, m := LayoutSource(font, style, x, y, text, k);
    j := CharCovers(font, style, x, y, text, i, m, f, px, py);
  }

  // ----- memory

  /** A font with an entry for each character from '!' to '~', each with all its alphas and none taller than '|'. */
  ghost predicate PlainFont(font: Font) {
    && |font| >= 94
    && (forall k :: 0 <= k < |font| ==> |font[k].alpha| >= font[k].width * font[k].height)
    && forall k :: 0 <= k < 94 ==> font[k].height <= font[91].height
  }

  ghost predicate PlainText(text: string) {
    forall i :: 0 <= i < |text| ==> '!' <= text[i] <= '~' || text[i] == ' ' || text[i] == '\t' || text[i] == '\n'
  }

  lemma PlainIsValid(font: Font, text: string)
    requires PlainFont(font) && PlainText(text)
    ensures ValidFont(font) && LinesClear(font) && AllDrawable(text)
  {
    forall k | 0 <= k < |font| ensures ValidGlyph(font[k]) {
      ProductIs(font[k].width, font[k].height);
    }
  }

  /** The cell of a character, or of a blank, lies in a frame of this size. */
  ghost predicate CellInside(width: int, height: int, left: int, top: int, glyph: Glyph) {
    0 <= left && left + glyph.width <= width && 0 <= top && top + glyph.height <= height
  }

  /** All that a text draws lies in the frame; its spaces and tabs are drawn if the background is. */
  ghost predicate TextInside(width: int, height: int, font: Font, x: int, y: int, text: string, background: int)
    requires PlainFont(font) && PlainText(text)
  {
    forall i :: 0 <= i < |text| ==> CharInside(width, height, font, x, y, text, i, background)
  }

  ghost predicate CharInside(width: int, height: int, font: Font, x: int, y: int, text: string, i: nat, background: int)
    requires PlainFont(font) && PlainText(text) && i < |text|
  {
    PlainIsValid(font, text);
    var at := Place(font, x, y, text, i);
    && ('!' <= text[i] <= '~' ==> CellInside(width, height, at.x, at.y, font[text[i] as int - 33]))
    && (background != -1 && (text[i] == ' ' || text[i] == '\t') ==> CellInside(width, height, at.x, at.y, font[12]))
    && (background != -1 && text[i] == '\t' ==> CellInside(width, height, at.x + font[12].width, at.y, font[12]))
  }

  lemma CharStampsInside(s: Surface, font: Font, colors: Colors, x: int, y: int, text: string, i: nat, f: nat, m: nat)
    requires PlainFont(font) && PlainText(text) && ValidFont(font) && AllDrawable(text) && i < |text|
    requires CharInside(s.width, s.height, font, x, y, text, i, colors.background)
    requires m < |CharStamps(font, StyleOf(colors), Place(font, x, y, text, i), text[i], f)|
    ensures Inside(s, CharStamps(font, StyleOf(colors), Place(font, x, y, text, i), text[i], f)[m])
  {
    var at := Place(font, x, y, text, i);
    if text[i] == '\t' {
      if colors.background == -1 {
        ClearBlanks(font, StyleOf(colors), at, f);
      } else {
        TwoBlanks(font, StyleOf(colors), at, f);
      }
    }
  }

  /** A text inside the frame may be printed, and the results about layouts apply to it. */
  lemma MayBePrinted(d: Driver, font: Font, colors: Colors, x: int, y: int, text: string, len: nat)
    requires PlainFont(font) && PlainText(text) && FrameInMemory(d, len) && colors.depth == d.colorDepth
    requires TextInside(d.width, d.height, font, x, y, text, colors.background)
    ensures ValidFont(font) && LinesClear(font) && AllDrawable(text) && InMemory(DrawSurface(d), len)
    ensures Suits(DrawSurface(d), Layout(font, StyleOf(colors), x, y, text, |text|))
    ensures StampsFit(DrawSurface(d), Layout(font, StyleOf(colors), x, y, text, |text|), len)
  {
    var s := DrawSurface(d);
    PlainIsValid(font, text);
    LayoutInside(s, font, colors, x, y, text);
    LayoutSuits(s, font, colors, x, y, text);
    InsideMayBePrinted(s, Layout(font, StyleOf(colors), x, y, text, |text|), len);
  }

  lemma LayoutInside(s: Surface, font: Font, colors: Colors, x: int, y: int, text: string)
    requires PlainFont(font) && PlainText(text) && ValidFont(font) && AllDrawable(text)
    requires TextInside(s.width, s.height, font, x, y, text, colors.background)
    ensures forall k :: 0 <= k < |Layout(font, StyleOf(colors), x, y, text, |text|)| ==>
              Inside(s, Layout(font, StyleOf(colors), x, y, text, |text|)[k])
  {
    var ts := Layout(font, StyleOf(colors), x, y, text, |text|);
    forall k | 0 <= k < |ts| ensures Inside(s, ts[k]) {
      var i, f, m := LayoutSource(font, StyleOf(colors), x, y, text, k);
      assert CharInside(s.width, s.height, font, x, y, text, i, colors.background);
      CharStampsInside(s, font, colors, x, y, text, i, f, m);
    }
  }

  lemma StoredMix(mem: seq<byte>, now: seq<byte>, d: Driver, colors: Colors, px: int, py: int, alpha: byte)
    requires FrameInMemory(d, |mem|) && |now| == |mem| && 0 <= px < d.width && 0 <= py < d.height
    requires colors.depth == d.colorDepth
    requires Separate(colors.depth, Pixel(now, DrawSurface(d), px, py))
          == BlendedPixel(colors.depth, colors.color, colors.background, alpha, Pixel(mem, DrawSurface(d), px, py))
    ensures MixedAt(colors.depth, colors.color, colors.background, alpha, mem, now, ByteOf(d, px, py), d.colorDepth / 8)
  {
    PixelBytes(mem, d, px, py);
    PixelBytes(now, d, px, py);
    BlendedIsMixed(colors.depth, colors.color, colors.background, alpha, Pixel(mem, DrawSurface(d), px, py),
                   Pixel(now, DrawSurface(d), px, py));
  }

  lemma StoredColour(now: seq<byte>, d: Driver, color: int, px: int, py: int)
    requires FrameInMemory(d, |now|) && 0 <= px < d.width && 0 <= py < d.height
    requires Separate(d.colorDepth, Pixel(now, DrawSurface(d), px, py)) == Separate(d.colorDepth, LittleEndian(color))
    ensures var at, n := ByteOf(d, px, py), d.colorDepth / 8;
            0 <= at && at + n <= |now| && PixelShows(d.colorDepth, color, now[at..at + n])
  {
    PixelBytes(now, d, px, py);
    SameChannels(d.colorDepth, color, Pixel(now, DrawSurface(d), px, py));
  }

  lemma GlyphPlace(d: Driver, font: Font, x: int, y: int, text: string, background: int, i: nat, r: nat, c: nat)
    requires PlainFont(font) && PlainText(text) && ValidFont(font) && AllDrawable(text)
    requires TextInside(d.width, d.height, font, x, y, text, background) && i < |text| && '!' <= text[i] <= '~'
    requires r < font[text[i] as int - 33].height && c < font[text[i] as int - 33].width
    ensures 0 <= Place(font, x, y, text, i).x + c < d.width && 0 <= Place(font, x, y, text, i).y + r < d.height
    ensures AlphaAt(GlyphOf(font, text[i]), r, c) == r * font[text[i] as int - 33].width + c
  {
    assert CharInside(d.width, d.height, font, x, y, text, i, background);
    ProductIs(font[text[i] as int - 33].width, r);
  }

  lemma GlyphStored(mem: seq<byte>, now: seq<byte>, d: Driver, font: Font, colors: Colors, x: int, y: int,
                    text: string, i: nat, r: nat, c: nat) returns (px: int, py: int, alpha: byte, at: int)
    requires PlainFont(font) && PlainText(text) && AllDrawable(text) && FrameInMemory(d, |mem|)
    requires colors.depth == d.colorDepth
    requires TextInside(d.width, d.height, font, x, y, text, colors.background)
    requires i < |text| && '!' <= text[i] <= '~'
    requires r < font[text[i] as int - 33].height && c < font[text[i] as int - 33].width
    requires now == PressAll(mem, DrawSurface(d), Layout(font, StyleOf(colors), x, y, text, |text|))
    ensures px == Place(font, x, y, text, i).x + c && py == Place(font, x, y, text, i).y + r
    ensures var glyph := font[text[i] as int - 33];
            0 <= r * glyph.width + c < |glyph.alpha| && alpha == glyph.alpha[r * glyph.width + c]
    ensures at == ByteOf(d, px, py)
    ensures MixedAt(colors.depth, colors.color, colors.background, alpha, mem, now, at, d.colorDepth / 8)
  {
    MayBePrinted(d, font, colors, x, y, text, |mem|);
    GlyphPlace(d, font, x, y, text, colors.background, i, r, c);
    var was, shown;
    px, py, alpha, was, shown := TextShows(mem, DrawSurface(d), font, colors, x, y, text, i, r, c);
    StoredMix(mem, now, d, colors, px, py, alpha);
    at := ByteOf(d, px, py);
  }

  /**
   Printing, in bytes: at the place of every pixel of every printed character is stored the mix of the
   text's colour and what was behind, by the alpha that the character's entry in the font has there.
   */
  lemma GlyphInBytes(mem: seq<byte>, now: seq<byte>, d: Driver, font: Font, colors: Colors, x: int, y: int,
                     text: string, i: nat, r: nat, c: nat) returns (px: int, py: int, alpha: byte, at: int)
    requires PlainFont(font) && PlainText(text) && AllDrawable(text) && FrameInMemory(d, |mem|)
    requires colors.depth == d.colorDepth
    requires TextInside(d.width, d.height, font, x, y, text, colors.background)
    requires i < |text| && '!' <= text[i] <= '~'
    requires r < font[text[i] as int - 33].height && c < font[text[i] as int - 33].width
    requires now == PressAll(mem, DrawSurface(d), Layout(font, StyleOf(colors), x, y, text, |text|))
    ensures px == Place(font, x, y, text, i).x + c && py == Place(font, x, y, text, i).y + r
    ensures var glyph := font[text[i] as int - 33];
            0 <= r * glyph.width + c < |glyph.alpha| && alpha == glyph.alpha[r * glyph.width + c]
    ensures at == (if d.displayFrame == 0 then d.frame1 else d.frame0) + (py * d.width + px) * (d.colorDepth / 8)
    ensures MixedAt(colors.depth, colors.color, colors.background, alpha, mem, now, at, d.colorDepth / 8)
  {
    px, py, alpha, at := GlyphStored(mem, now, d, font, colors, x, y, text, i, r, c);
    ByteOfIs(d, px, py);
  }

  /** The column of blank `j` of a space or tab. */
  function BlankLeft(font: Font, x: int, y: int, text: string, i: nat, j: nat): int
    requires |font| >= 94 && AllDrawable(text) && i <= |text|
  {
    Place(font, x, y, text, i).x + if j == 0 then 0 else font[12].width
  }

  lemma BlankPlace(d: Driver, font: Font, x: int, y: int, text: string, background: int, i: nat, j: nat, r: nat, c: nat)
    requires PlainFont(font) && PlainText(text) && ValidFont(font) && AllDrawable(text) && background != -1
    requires TextInside(d.width, d.height, font, x, y, text, background)
    requires i < |text| && ((text[i] == ' ' && j == 0) || (text[i] == '\t' && j < 2))
    requires r < font[12].height && c < font[12].width
    ensures 0 <= BlankLeft(font, x, y, text, i, j) + c < d.width && 0 <= Place(font, x, y, text, i).y + r < d.height
    ensures BlankColumn(font, x, y, text, i, j) == BlankLeft(font, x, y, text, i, j) && j < BlankCount(text[i])
  {
    assert CharInside(d.width, d.height, font, x, y, text, i, background);
  }

  lemma BlankStored(mem: seq<byte>, now: seq<byte>, d: Driver, font: Font, colors: Colors, x: int, y: int,
                    text: string, i: nat, j: nat, r: nat, c: nat) returns (px: int, py: int, at: int)
    requires PlainFont(font) && PlainText(text) && AllDrawable(text) && FrameInMemory(d, |mem|)
    requires colors.depth == d.colorDepth
    requires TextInside(d.width, d.height, font, x, y, text, colors.background) && colors.background != -1
    requires i < |text| && ((text[i] == ' ' && j == 0) || (text[i] == '\t' && j < 2))
    requires r < font[12].height && c < font[12].width
    requires now == PressAll(mem, DrawSurface(d), Layout(font, StyleOf(colors), x, y, text, |text|))
    ensures px == Place(font, x, y, text, i).x + (if j == 0 then 0 else font[12].width) + c
    ensures py == Place(font, x, y, text, i).y + r
    ensures at == ByteOf(d, px, py)
    ensures var n := d.colorDepth / 8;
            && 0 <= at && at + n <= |mem|
            && PixelShows(colors.depth, colors.background, now[at..at + n])
  {
    MayBePrinted(d, font, colors, x, y, text, |mem|);
    BlankPlace(d, font, x, y, text, colors.background, i, j, r, c);
    var shown;
    px, py, shown := SpaceIsABox(mem, DrawSurface(d), font, colors, x, y, text, i, j, r, c);
    StoredColour(now, d, colors.background, px, py);
    at := ByteOf(d, px, py);
  }

  /** On an opaque background every pixel of the cells of a space or tab holds the background's colour. */
  lemma BlankInBytes(mem: seq<byte>, now: seq<byte>, d: Driver, font: Font, colors: Colors, x: int, y: int,
                     text: string, i: nat, j: nat, r: nat, c: nat) returns (px: int, py: int, at: int)
    requires PlainFont(font) && PlainText(text) && AllDrawable(text) && FrameInMemory(d, |mem|)
    requires colors.depth == d.colorDepth
    requires TextInside(d.width, d.height, font, x, y, text, colors.background) && colors.background != -1
    requires i < |text| && ((text[i] == ' ' && j == 0) || (text[i] == '\t' && j < 2))
    requires r < font[12].height && c < font[12].width
    requires now == PressAll(mem, DrawSurface(d), Layout(font, StyleOf(colors), x, y, text, |text|))
    ensures px == Place(font, x, y, text, i).x + (if j == 0 then 0 else font[12].width) + c
    ensures py == Place(font, x, y, text, i).y + r
    ensures at == (if d.displayFrame == 0 then d.frame1 else d.frame0) + (py * d.width + px) * (d.colorDepth / 8)
    ensures var n := d.colorDepth / 8;
            && 0 <= at && at + n <= |mem|
            && PixelShows(colors.depth, colors.background, now[at..at + n])
  {
    px, py, at := BlankStored(mem, now, d, font, colors, x, y, text, i, j, r, c);
    ByteOfIs(d, px, py);
  }

  lemma SameChannels(depth: int, color: int, now: seq<byte>)
    requires |now| == Bpp(depth) && Separate(depth, now) == Separate(depth, LittleEndian(color))
    ensures PixelShows(depth, color, now)
  {
    if depth == 16 {
      LowBytes(color);
      HalfOfBytes(now[0], now[1]);
      SameHalf(now[0] as int + 0x100 * now[1] as int, color % 0x1_0000);
    }
  }

  lemma LowBytes(color: int)
    ensures Separate(16, LittleEndian(color)) == Fields(color % 0x1_0000)
  {
    LowByte(color, color / 0x1_0000, color % 0x1_0000);
  }

  lemma SameHalf(t: int, u: int)
    requires 0 <= t < 0x1_0000 && 0 <= u < 0x1_0000 && Fields(t) == Fields(u)
    ensures t == u
  {
    HalfOfFields(t);
    HalfOfFields(u);
  }

  lemma UntouchedStored(mem: seq<byte>, now: seq<byte>, d: Driver, font: Font, colors: Colors, x: int, y: int,
                        text: string, px: int, py: int) returns (at: int)
    requires PlainFont(font) && PlainText(text) && ValidFont(font) && AllDrawable(text)
    requires FrameInMemory(d, |mem|) && colors.depth == d.colorDepth
    requires TextInside(d.width, d.height, font, x, y, text, colors.background)
    requires 0 <= px < d.width && 0 <= py < d.height
    requires forall i :: 0 <= i < |text| ==> !InGlyph(font, x, y, text, i, px, py)
    requires colors.background != -1 ==>
               forall i, j: nat :: 0 <= i < |text| ==> !InBlank(font, x, y, text, i, j, px, py)
    requires now == PressAll(mem, DrawSurface(d), Layout(font, StyleOf(colors), x, y, text, |text|))
    ensures at == ByteOf(d, px, py)
    ensures var n := d.colorDepth / 8;
            && 0 <= at && at + n <= |mem|
            && now[at..at + n] == mem[at..at + n]
  {
    var ts := Layout(font, StyleOf(colors), x, y, text, |text|);
    MayBePrinted(d, font, colors, x, y, text, |mem|);
    forall k | 0 <= k < |ts| ensures !Covers(ts[k], px, py) {
      if Covers(ts[k], px, py) {
        var i, j := LayoutCovers(font, StyleOf(colors), x, y, text, k, px, py);
      }
    }
    BesideTheText(mem, DrawSurface(d), ts, px, py);
    PixelBytes(mem, d, px, py);
    PixelBytes(now, d, px, py);
    at := ByteOf(d, px, py);
  }

  /** A pixel in none of the text's cells keeps its bytes. */
  lemma UntouchedInBytes(mem: seq<byte>, now: seq<byte>, d: Driver, font: Font, colors: Colors, x: int, y: int,
                         text: string, px: int, py: int) returns (at: int)
    requires PlainFont(font) && PlainText(text) && ValidFont(font) && AllDrawable(text)
    requires FrameInMemory(d, |mem|) && colors.depth == d.colorDepth
    requires TextInside(d.width, d.height, font, x, y, text, colors.background)
    requires 0 <= px < d.width && 0 <= py < d.height
    requires forall i :: 0 <= i < |text| ==> !InGlyph(font, x, y, text, i, px, py)
    requires colors.background != -1 ==>
               forall i, j: nat :: 0 <= i < |text| ==> !InBlank(font, x, y, text, i, j, px, py)
    requires now == PressAll(mem, DrawSurface(d), Layout(font, StyleOf(colors), x, y, text, |text|))
    ensures at == (if d.displayFrame == 0 then d.frame1 else d.frame0) + (py * d.width + px) * (d.colorDepth / 8)
    ensures var n := d.colorDepth / 8;
            && 0 <= at && at + n <= |mem|
            && now[at..at + n] == mem[at..at + n]
  {
    at := UntouchedStored(mem, now, d, font, colors, x, y, text, px, py);
    ByteOfIs(d, px, py);
  }

  /** And so does all memory outside the frame. */
  lemma OutsideInBytes(mem: seq<byte>, now: seq<byte>, d: Driver, font: Font, colors: Colors, x: int, y: int,
                       text: string, i: nat)
    requires PlainFont(font) && PlainText(text) && ValidFont(font) && AllDrawable(text)
    requires FrameInMemory(d, |mem|) && colors.depth == d.colorDepth
    requires TextInside(d.width, d.height, font, x, y, text, colors.background)
    requires var base := if d.displayFrame == 0 then d.frame1 else d.frame0;
             i < |mem| && (i < base || base + d.height * d.width * (d.colorDepth / 8) <= i)
    requires now == PressAll(mem, DrawSurface(d), Layout(font, StyleOf(colors), x, y, text, |text|))
    ensures now[i] == mem[i]
  {
    MayBePrinted(d, font, colors, x, y, text, |mem|);
    FrameEnds(d, |mem|);
    PressAllOutside(mem, DrawSurface(d), Layout(font, StyleOf(colors), x, y, text, |text|), i);
  }

  // ----- one character

  /** Printing one character, in bytes: its pixels are mixed, and all others of the frame are as before. */
  lemma CharInBytes(mem: seq<byte>, now: seq<byte>, d: Driver, font: Font, ch: char, color: int, background: int,
                    stale: byte, horiz: int, vert: int, px: int, py: int) returns (at: int)
    requires PlainFont(font) && '!' <= ch <= '~' && FrameInMemory(d, |mem|)
    requires CellInside(d.width, d.height, horiz, vert, font[ch as int - 33]) && 0 <= px < d.width && 0 <= py < d.height
    requires now == PutRows(mem, TextGrid(DrawSurface(d), horiz, vert),
                            GlyphCell(Ink(d.colorDepth, color, background, stale), GlyphOf(font, ch)),
                            GlyphOf(font, ch).height, GlyphOf(font, ch).width)
    ensures at == (if d.displayFrame == 0 then d.frame1 else d.frame0) + (py * d.width + px) * (d.colorDepth / 8)
    ensures CharPixelStored(mem, now, d, font[ch as int - 33], color, background, horiz, vert, px, py, at)
  {
    var glyph, ink := font[ch as int - 33], Ink(d.colorDepth, color, background, stale);
    PlainIsValid(font, "");
    PressIsPut(mem, DrawSurface(d), glyph, ink, horiz, vert);
    GlyphPressed(mem, now, d, glyph, color, background, stale, horiz, vert, px, py);
    at := ByteOf(d, px, py);
    ByteOfIs(d, px, py);
  }

  /** In the cell of a glyph the pixel is mixed, and elsewhere it is as it was. */
  ghost predicate CharPixelStored(mem: seq<byte>, now: seq<byte>, d: Driver, glyph: Glyph, color: int, background: int,
                                  horiz: int, vert: int, px: int, py: int, at: int) {
    var n := d.colorDepth / 8;
    && 0 <= at && 0 <= n && at + n <= |mem| == |now|
    && (if horiz <= px < horiz + glyph.width && vert <= py < vert + glyph.height
        then MixedFrom(glyph, d.colorDepth, color, background, py - vert, px - horiz, mem[at..at + n], now[at..at + n])
        else now[at..at + n] == mem[at..at + n])
  }

  lemma GlyphPressed(mem: seq<byte>, now: seq<byte>, d: Driver, glyph: Glyph, color: int, background: int, stale: byte,
                     horiz: int, vert: int, px: int, py: int)
    requires ValidGlyph(glyph) && FrameInMemory(d, |mem|)
    requires now
         == Press(mem, DrawSurface(d), GlyphStamp(glyph, horiz, vert, Ink(d.colorDepth, color, background, stale)))
    requires CellInside(d.width, d.height, horiz, vert, glyph) && 0 <= px < d.width && 0 <= py < d.height
    ensures CharPixelStored(mem, now, d, glyph, color, background, horiz, vert, px, py, ByteOf(d, px, py))
  {
    InkStampSized(glyph, horiz, vert, d.colorDepth, color, background, stale);
    StampPressed(mem, now, d, GlyphStamp(glyph, horiz, vert, Ink(d.colorDepth, color, background, stale)), px, py);
    var at, n := ByteOf(d, px, py), d.colorDepth / 8;
    if horiz <= px < horiz + glyph.width && vert <= py < vert + glyph.height {
      CharPixel(glyph, d.colorDepth, color, background, stale, horiz, vert, py - vert, px - horiz, mem[at..at + n]);
    }
  }

  lemma PressIsPut(mem: seq<byte>, s: Surface, glyph: Glyph, ink: InkFn, horiz: int, vert: int)
    ensures Press(mem, s, GlyphStamp(glyph, horiz, vert, ink))
         == PutRows(mem, TextGrid(s, horiz, vert), GlyphCell(ink, glyph), glyph.height, glyph.width)
  {
  }

  lemma InkStampSized(glyph: Glyph, x: int, y: int, depth: int, color: int, background: int, stale: byte)
    requires depth == 16 || depth == 24 || depth == 32
    ensures Sized(GlyphStamp(glyph, x, y, Ink(depth, color, background, stale)), depth / 8)
  {
    var ink := Ink(depth, color, background, stale);
    InkIsSized(depth, color, background, stale);
    GlyphSized(glyph, x, y, ink, depth / 8);
    assert [GlyphStamp(glyph, x, y, ink)][0] == GlyphStamp(glyph, x, y, ink);
  }

  /** A pixel is mixed by the alpha that a glyph has at (r, c). */
  ghost predicate MixedFrom(glyph: Glyph, depth: int, color: int, background: int, r: int, c: int, was: seq<byte>,
                            now: seq<byte>) {
    && 0 <= r * glyph.width + c < |glyph.alpha|
    && PixelMixed(depth, color, background, glyph.alpha[r * glyph.width + c], was, now)
  }

  lemma CharPixel(glyph: Glyph, depth: int, color: int, background: int, stale: byte, x: int, y: int, r: nat, c: nat,
                  was: seq<byte>)
    requires ValidGlyph(glyph) && r < glyph.height && c < glyph.width && |was| == Bpp(depth)
    ensures MixedFrom(glyph, depth, color, background, r, c, was,
                      GlyphStamp(glyph, x, y, Ink(depth, color, background, stale)).cell(r, c, was))
  {
    CellIsInk(glyph, x, y, Ink(depth, color, background, stale), r, c, was);
    ProductIs(glyph.width, r);
    var alpha := glyph.alpha[AlphaAt(glyph, r, c)];
    GlyphPixelShows(depth, color, background, alpha, stale, was);
    BlendedIsMixed(depth, color, background, alpha, was, GlyphPixel(depth, color, background, alpha, stale, was));
  }
}
