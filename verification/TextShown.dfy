/** What the frame shows after a string has been printed. */
module TextShown {
  import opened Arithmetic
  import opened Blending
  import opened Bytes
  import opened Painter
  import opened Raster
  import opened SimpleText
  import opened TextLayout
  import opened TextPlacement

  /**
   A drawn pixel's channels are the blend of the text's colour with what was behind; the clips and
   the packing lose nothing.
   */
  lemma InkShows(colors: Colors, n: int, alpha: byte, px: seq<byte>)
    ensures Separate(colors.depth, StyleOf(colors).ink(n)(alpha, px))
         == BlendedPixel(colors.depth, colors.color, colors.background, alpha, px)
    ensures InRange(colors.depth, BlendedPixel(colors.depth, colors.color, colors.background, alpha, px))
  {
    GlyphPixelShows(colors.depth, colors.color, colors.background, alpha, colors.stale(n), px);
  }

  lemma GlyphPixelShows(depth: int, color: int, background: int, alpha: byte, stale: byte, px: seq<byte>)
    ensures Separate(depth, GlyphPixel(depth, color, background, alpha, stale, px))
         == BlendedPixel(depth, color, background, alpha, px)
    ensures InRange(depth, BlendedPixel(depth, color, background, alpha, px))
  {
    ClipsIdle(depth, Separate(depth, LittleEndian(color)), Background(depth, background, px), alpha);
    SeparateAfterMerge(depth, BlendedPixel(depth, color, background, alpha, px), [0, 0, 0, stale]);
  }

  /** No alpha gives the background's colour, on a clear background the pixel's own, and full alpha gives the text's. */
  lemma AlphaEnds(colors: Colors, n: int, px: seq<byte>)
    ensures Separate(colors.depth, StyleOf(colors).ink(n)(0, px))
         == Separate(colors.depth, if colors.background == -1 then px else LittleEndian(colors.background))
    ensures Separate(colors.depth, StyleOf(colors).ink(n)(255, px))
         == Separate(colors.depth, LittleEndian(colors.color))
  {
    InkShows(colors, n, 0, px);
    InkShows(colors, n, 255, px);
    BlendEnds(colors.depth, Separate(colors.depth, LittleEndian(colors.color)),
              Background(colors.depth, colors.background, px));
  }

  lemma BlendEnds(depth: int, f: Channels, b: Channels)
    requires InRange(depth, f) && InRange(depth, b)
    ensures BlendChannels(depth, f, b, 0) == b && BlendChannels(depth, f, b, 255) == f
  {
    ClipsIdle(depth, f, b, 0);
    ClipsIdle(depth, f, b, 255);
    BlendBetween(f.red, b.red, 0);
    BlendBetween(f.green, b.green, 0);
    BlendBetween(f.blue, b.blue, 0);
  }

  /** A colour drawn on itself is that colour, whatever the alpha. */
  lemma SelfInk(colors: Colors, n: int, alpha: byte, px: seq<byte>)
    requires colors.background != CLEAR_BACKGROUND
    ensures Separate(colors.depth, StyleOf(colors).blank.value(n)(alpha, px))
         == Separate(colors.depth, LittleEndian(colors.background))
  {
    GlyphPixelShows(colors.depth, colors.background, colors.background, alpha, colors.stale(n), px);
    BlendSame(colors.depth, Separate(colors.depth, LittleEndian(colors.background)), alpha);
  }

  lemma BlendSame(depth: int, c: Channels, alpha: byte)
    requires InRange(depth, c)
    ensures BlendChannels(depth, c, c, alpha) == c
  {
    ClipsIdle(depth, c, c, alpha);
    BlendSelf(c.red, alpha);
    BlendSelf(c.green, alpha);
    BlendSelf(c.blue, alpha);
  }

  /** The place of a pixel's alpha in the glyph's map. */
  function AlphaAt(glyph: Glyph, r: int, c: int): int {
    Product(glyph.width, r) + c
  }

  /** A glyph's cell, where the glyph has an alpha, is the ink at that alpha. */
  lemma CellIsInk(glyph: Glyph, x: int, y: int, ink: InkFn, r: nat, c: nat, px: seq<byte>)
    requires ValidGlyph(glyph) && r < glyph.height && c < glyph.width
    ensures 0 <= AlphaAt(glyph, r, c) < |glyph.alpha|
    ensures GlyphStamp(glyph, x, y, ink).cell(r, c, px) == ink(glyph.alpha[AlphaAt(glyph, r, c)], px)
  {
    AlphaIndex(r, c, glyph);
    assert Peek(glyph.alpha, AlphaAt(glyph, r, c)) == glyph.alpha[AlphaAt(glyph, r, c)];
  }

  /** A pixel of a stamped glyph, with no other stamp on it, is the glyph's ink on the pixel that was there. */
  lemma GlyphShows(mem: seq<byte>, s: Surface, ts: seq<Stamp>, k: nat, glyph: Glyph, x: int, y: int, ink: InkFn,
                   px: int, py: int, r: nat, c: nat)
    requires InMemory(s, |mem|) && Suits(s, ts) && PairwiseApart(ts)
    requires k < |ts| && ts[k] == GlyphStamp(glyph, x, y, ink)
    requires ValidGlyph(glyph) && r < glyph.height && c < glyph.width && px == x + c && py == y + r
    ensures 0 <= AlphaAt(glyph, r, c) < |glyph.alpha|
    ensures Pixel(PressAll(mem, s, ts), s, px, py) == ink(glyph.alpha[AlphaAt(glyph, r, c)], Pixel(mem, s, px, py))
  {
    CellIsInk(glyph, x, y, ink, r, c, Pixel(mem, s, px, py));
    ApartPixel(mem, s, ts, k, px, py);
  }

  /**
   Every pixel of every printed character shows the text's ink, at the glyph's alpha there, on
   what the pixel held before the string was printed, at the place the preceding text leads to.
   */
  lemma CharacterShows(mem: seq<byte>, s: Surface, font: Font, style: Style, x: int, y: int, text: string, i: nat,
                       r: nat, c: nat)
    returns (k: nat, px: int, py: int, alpha: byte, was: seq<byte>, now: seq<byte>)
    requires ValidFont(font) && LinesClear(font) && AllDrawable(text)
    requires InMemory(s, |mem|) && Suits(s, Layout(font, style, x, y, text, |text|))
    requires i < |text| && Printable(text[i]) && r < GlyphOf(font, text[i]).height && c < GlyphOf(font, text[i]).width
    ensures px == Place(font, x, y, text, i).x + c && py == Place(font, x, y, text, i).y + r
    ensures k == |Layout(font, style, x, y, text, i)|
    ensures 0 <= AlphaAt(GlyphOf(font, text[i]), r, c) < |GlyphOf(font, text[i]).alpha|
    ensures alpha == GlyphOf(font, text[i]).alpha[AlphaAt(GlyphOf(font, text[i]), r, c)]
    ensures was == Pixel(mem, s, px, py)
    ensures now == Pixel(PressAll(mem, s, Layout(font, style, x, y, text, |text|)), s, px, py)
    ensures now == style.ink(k)(alpha, was)
  {
    var at;
    k, at := GlyphLands(font, style, x, y, text, i);
    px, py := at.x + c, at.y + r;
    LayoutApart(font, style, x, y, text, |text|);
    GlyphShows(mem, s, Layout(font, style, x, y, text, |text|), k, GlyphOf(font, text[i]), at.x, at.y, style.ink(k),
               px, py, r, c);
    alpha := GlyphOf(font, text[i]).alpha[AlphaAt(GlyphOf(font, text[i]), r, c)];
    was := Pixel(mem, s, px, py);
    now := Pixel(PressAll(mem, s, Layout(font, style, x, y, text, |text|)), s, px, py);
  }

  /** In the colours of a text: the channels shown are the blend of the text's colour with what was there. */
  lemma TextShows(mem: seq<byte>, s: Surface, font: Font, colors: Colors, x: int, y: int, text: string, i: nat,
                  r: nat, c: nat)
    returns (px: int, py: int, alpha: byte, was: seq<byte>, now: seq<byte>)
    requires ValidFont(font) && LinesClear(font) && AllDrawable(text)
    requires InMemory(s, |mem|) && Suits(s, Layout(font, StyleOf(colors), x, y, text, |text|))
    requires i < |text| && Printable(text[i]) && r < GlyphOf(font, text[i]).height && c < GlyphOf(font, text[i]).width
    ensures px == Place(font, x, y, text, i).x + c && py == Place(font, x, y, text, i).y + r
    ensures 0 <= AlphaAt(GlyphOf(font, text[i]), r, c) < |GlyphOf(font, text[i]).alpha|
    ensures alpha == GlyphOf(font, text[i]).alpha[AlphaAt(GlyphOf(font, text[i]), r, c)]
    ensures was == Pixel(mem, s, px, py)
    ensures now == Pixel(PressAll(mem, s, Layout(font, StyleOf(colors), x, y, text, |text|)), s, px, py)
    ensures Separate(colors.depth, now) == BlendedPixel(colors.depth, colors.color, colors.background, alpha, was)
    ensures ChannelsMixed(Separate(colors.depth, LittleEndian(colors.color)),
                          Separate(colors.depth, if colors.background == -1 then was
                                                 else LittleEndian(colors.background)),
                          alpha, Separate(colors.depth, now))
  {
    var k;
    k, px, py, alpha, was, now := CharacterShows(mem, s, font, StyleOf(colors), x, y, text, i, r, c);
    InkShows(colors, k, alpha, was);
    BlendMixes(colors.depth, Separate(colors.depth, LittleEndian(colors.color)),
               Background(colors.depth, colors.background, was), alpha, Separate(colors.depth, now));
  }

  /**
   On an opaque background spaces and tabs are boxes of that colour: every pixel of each '-' cell
   they stand for shows it, whatever the glyph looks like.
   */
  lemma SpaceIsABox(mem: seq<byte>, s: Surface, font: Font, colors: Colors, x: int, y: int, text: string,
                    i: nat, j: nat, r: nat, c: nat) returns (px: int, py: int, now: seq<byte>)
    requires ValidFont(font) && LinesClear(font) && AllDrawable(text) && colors.background != CLEAR_BACKGROUND
    requires InMemory(s, |mem|) && Suits(s, Layout(font, StyleOf(colors), x, y, text, |text|))
    requires i < |text| && j < BlankCount(text[i]) && r < GlyphOf(font, '-').height && c < GlyphOf(font, '-').width
    ensures px == BlankColumn(font, x, y, text, i, j) + c && py == Place(font, x, y, text, i).y + r
    ensures now == Pixel(PressAll(mem, s, Layout(font, StyleOf(colors), x, y, text, |text|)), s, px, py)
    ensures Separate(colors.depth, now) == Separate(colors.depth, LittleEndian(colors.background))
  {
    var k, alpha, was;
    k, px, py, alpha, was, now := BlankShows(mem, s, font, StyleOf(colors), x, y, text, i, j, r, c);
    SelfInk(colors, k, alpha, was);
  }

  lemma BlankShows(mem: seq<byte>, s: Surface, font: Font, style: Style, x: int, y: int, text: string,
                   i: nat, j: nat, r: nat, c: nat)
    returns (k: nat, px: int, py: int, alpha: byte, was: seq<byte>, now: seq<byte>)
    requires ValidFont(font) && LinesClear(font) && AllDrawable(text) && style.blank.Some?
    requires InMemory(s, |mem|) && Suits(s, Layout(font, style, x, y, text, |text|))
    requires i < |text| && j < BlankCount(text[i]) && r < GlyphOf(font, '-').height && c < GlyphOf(font, '-').width
    ensures px == BlankColumn(font, x, y, text, i, j) + c && py == Place(font, x, y, text, i).y + r
    ensures now == Pixel(PressAll(mem, s, Layout(font, style, x, y, text, |text|)), s, px, py)
    ensures now == style.blank.value(k)(alpha, was)
  {
    var at;
    k, at := BlankLands(font, style, x, y, text, i, j);
    px, py := at.x + c, at.y + r;
    LayoutApart(font, style, x, y, text, |text|);
    GlyphShows(mem, s, Layout(font, style, x, y, text, |text|), k, GlyphOf(font, '-'), at.x, at.y,
               style.blank.value(k), px, py, r, c);
    alpha := GlyphOf(font, '-').alpha[AlphaAt(GlyphOf(font, '-'), r, c)];
    was := Pixel(mem, s, px, py);
    now := Pixel(PressAll(mem, s, Layout(font, style, x, y, text, |text|)), s, px, py);
  }

  /** A pixel in no cell of the layout is left as it was. */
  lemma BesideTheText(mem: seq<byte>, s: Surface, ts: seq<Stamp>, px: int, py: int)
    requires InMemory(s, |mem|) && Suits(s, ts) && 0 <= px < s.width && 0 <= py < s.height
    requires forall i :: 0 <= i < |ts| ==> !Covers(ts[i], px, py)
    ensures Pixel(PressAll(mem, s, ts), s, px, py) == Pixel(mem, s, px, py)
  {
    PressAllPixel(mem, s, ts, px, py);
    AllPass(ts, px, py, Pixel(mem, s, px, py), s.bpp);
  }

  // ----- the layout suits the frame as soon as it is inside it

  ghost predicate InkSized(ink: InkFn, bpp: nat) {
    forall alpha, px :: |ink(alpha, px)| == bpp
  }

  /** Whatever glyph is drawn, its pixels have the frame's size. */
  ghost predicate StyleSized(style: Style, bpp: nat) {
    (forall n :: InkSized(style.ink(n), bpp)) && (style.blank.Some? ==> forall n :: InkSized(style.blank.value(n), bpp))
  }

  ghost predicate AllSized(ts: seq<Stamp>, bpp: nat) {
    forall i :: 0 <= i < |ts| ==> Sized(ts[i], bpp)
  }

  lemma GlyphSized(glyph: Glyph, x: int, y: int, ink: InkFn, bpp: nat)
    requires InkSized(ink, bpp)
    ensures AllSized([GlyphStamp(glyph, x, y, ink)], bpp)
  {
    forall r: int, c: int, px: seq<byte> ensures |GlyphStamp(glyph, x, y, ink).cell(r, c, px)| == bpp {
      assert GlyphStamp(glyph, x, y, ink).cell(r, c, px) == ink(Peek(glyph.alpha, AlphaAt(glyph, r, c)), px);
    }
  }

  lemma SizesJoin(ts: seq<Stamp>, us: seq<Stamp>, bpp: nat)
    requires AllSized(ts, bpp) && AllSized(us, bpp)
    ensures AllSized(ts + us, bpp)
  {
  }

  lemma BlankSized(font: Font, style: Style, at: Cursor, n: nat, bpp: nat)
    requires |font| >= 94 && StyleSized(style, bpp)
    ensures AllSized(Blank(font, style, at, n), bpp)
  {
    if style.blank.Some? {
      GlyphSized(GlyphOf(font, '-'), at.x, at.y, style.blank.value(n), bpp);
    }
  }

  lemma {:induction false} BlanksSized(font: Font, style: Style, at: Cursor, n: nat, k: nat, bpp: nat)
    requires |font| >= 94 && StyleSized(style, bpp)
    ensures AllSized(Blanks(font, style, at, n, k), bpp)
    decreases k
  {
    if k > 0 {
      var first := Blank(font, style, at, n);
      BlankSized(font, style, at, n, bpp);
      BlanksSized(font, style, Cursor(at.x + SpaceWidth(font), at.y), n + |first|, k - 1, bpp);
      SizesJoin(first, Blanks(font, style, Cursor(at.x + SpaceWidth(font), at.y), n + |first|, k - 1), bpp);
    }
  }

  lemma CharSized(font: Font, style: Style, at: Cursor, ch: char, n: nat, bpp: nat)
    requires |font| >= 94 && StyleSized(style, bpp) && Drawable(ch)
    ensures AllSized(CharStamps(font, style, at, ch, n), bpp)
  {
    if ch == ' ' {
      BlankSized(font, style, at, n, bpp);
    } else if ch == '\t' {
      BlanksSized(font, style, at, n, TAB_SPACING, bpp);
    } else if ch != '\n' {
      GlyphSized(GlyphOf(font, ch), at.x, at.y, style.ink(n), bpp);
    }
  }

  lemma {:induction false} JoinedSized(pieces: PieceFn, n: nat, bpp: nat)
    requires forall i: int, drawn: int :: AllSized(pieces(i, drawn), bpp)
    ensures AllSized(Joined(pieces, n), bpp)
  {
    if n > 0 {
      JoinedSized(pieces, n - 1, bpp);
      SizesJoin(Joined(pieces, n - 1), pieces(n - 1, |Joined(pieces, n - 1)|), bpp);
    }
  }

  lemma LayoutSized(font: Font, style: Style, x: int, y: int, text: string, bpp: nat)
    requires |font| >= 94 && StyleSized(style, bpp) && AllDrawable(text)
    ensures AllSized(Layout(font, style, x, y, text, |text|), bpp)
  {
    var pieces := Pieces(font, style, x, y, text);
    forall i: int, drawn: int ensures AllSized(pieces(i, drawn), bpp) {
      if 0 <= i < |text| && drawn >= 0 {
        CharSized(font, style, CursorAt(font, x, y, text, i), text[i], drawn, bpp);
      }
    }
    JoinedSized(pieces, |text|, bpp);
  }

  lemma InkIsSized(depth: int, color: int, background: int, stale: byte)
    ensures InkSized(Ink(depth, color, background, stale), Bpp(depth))
  {
    forall alpha, px ensures |Ink(depth, color, background, stale)(alpha, px)| == Bpp(depth) {
      assert Ink(depth, color, background, stale)(alpha, px) == GlyphPixel(depth, color, background, alpha, stale, px);
    }
  }

  lemma StyleIsSized(c: Colors)
    ensures StyleSized(StyleOf(c), Bpp(c.depth))
  {
    forall n: int ensures InkSized(StyleOf(c).ink(n), Bpp(c.depth)) {
      InkIsSized(c.depth, c.color, c.background, c.stale(n));
      assert StyleOf(c).ink(n) == Ink(c.depth, c.color, c.background, c.stale(n));
    }
    if c.background != CLEAR_BACKGROUND {
      forall n: int ensures InkSized(StyleOf(c).blank.value(n), Bpp(c.depth)) {
        InkIsSized(c.depth, c.background, c.background, c.stale(n));
        assert StyleOf(c).blank.value(n) == Ink(c.depth, c.background, c.background, c.stale(n));
      }
    }
  }

  /** Stamps inside a frame in memory may be printed. */
  lemma InsideMayBePrinted(s: Surface, ts: seq<Stamp>, len: nat)
    requires InMemory(s, len) && forall i :: 0 <= i < |ts| ==> Inside(s, ts[i])
    ensures StampsFit(s, ts, len)
  {
    forall i | 0 <= i < |ts| ensures Fits(GridOf(s, ts[i]), ts[i].rows, ts[i].cols, len) {
      InsideFits(s, ts[i], len);
    }
  }

  /** A layout inside a frame of the text's depth suits it. */
  lemma LayoutSuits(s: Surface, font: Font, colors: Colors, x: int, y: int, text: string)
    requires |font| >= 94 && AllDrawable(text) && s.bpp == Bpp(colors.depth)
    requires forall i :: 0 <= i < |Layout(font, StyleOf(colors), x, y, text, |text|)| ==>
               Inside(s, Layout(font, StyleOf(colors), x, y, text, |text|)[i])
    ensures Suits(s, Layout(font, StyleOf(colors), x, y, text, |text|))
  {
    StyleIsSized(colors);
    LayoutSized(font, StyleOf(colors), x, y, text, s.bpp);
  }
}
