/** Alpha-blended text, after `graphic_lib/simple_text.c`. */
module SimpleText {
  import opened Arithmetic
  import opened Blending
  import opened Bytes
  import opened FrameReader
  import opened Painter
  import opened Raster

  const CLEAR_BACKGROUND: int := -1
  const TAB_SPACING: int := 2

  /** One character of a font; `alpha` holds its rows one after another. */
  datatype Glyph = Glyph(width: nat, height: nat, alpha: seq<byte>)

  type Font = seq<Glyph>

  /** The alpha map has a value for every pixel of the glyph. */
  predicate ValidGlyph(glyph: Glyph) {
    |glyph.alpha| >= Product(glyph.width, glyph.height)
  }

  ghost predicate ValidFont(font: Font) {
    |font| >= 94 && forall i :: 0 <= i < |font| ==> ValidGlyph(font[i])
  }

  /** The characters the fonts have a glyph for. */
  predicate Printable(ch: char) {
    '!' <= ch <= '~'
  }

  predicate Drawable(ch: char) {
    Printable(ch) || ch == ' ' || ch == '\t' || ch == '\n'
  }

  function GlyphOf(font: Font, ch: char): Glyph
    requires |font| >= 94 && Printable(ch)
  {
    font[ch as int - 33]
  }

  /**
   The colours of a text.  `stale` is what the top byte of the uninitialised colour holds in the n-th
   glyph's call.
   */
  datatype Colors = Colors(depth: int, color: int, background: int, stale: int -> byte)

  /** How a text is drawn: the ink of its n-th glyph, and of the blanks for its spaces if they are drawn. */
  datatype Style = Style(ink: int -> InkFn, blank: Option<int -> InkFn>)

  function StyleOf(c: Colors): Style {
    Style(n => Ink(c.depth, c.color, c.background, c.stale(n)),
          if c.background == CLEAR_BACKGROUND then None
          else Some(n => Ink(c.depth, c.background, c.background, c.stale(n))))
  }

  // ----- glyphs

  /** The background a pixel is blended with: the frame's own pixel, or a given colour. */
  function Background(depth: int, background: int, px: seq<byte>): Channels {
    if background == CLEAR_BACKGROUND then Separate(depth, px) else Separate(depth, LittleEndian(background))
  }

  function BlendedPixel(depth: int, color: int, background: int, alpha: byte, px: seq<byte>): Channels {
    BlendChannels(depth, Separate(depth, LittleEndian(color)), Background(depth, background, px), alpha)
  }

  /** The bytes of a pixel after a glyph with this alpha there has been drawn on it. */
  function GlyphPixel(depth: int, color: int, background: int, alpha: byte, stale: byte, px: seq<byte>): (p: seq<byte>)
    ensures |p| == Bpp(depth)
  {
    Merge(depth, BlendedPixel(depth, color, background, alpha, px), [0, 0, 0, stale])[..Bpp(depth)]
  }

  /** What drawing with these colours makes of a pixel, for each alpha. */
  type InkFn = (byte, seq<byte>) -> seq<byte>

  function Ink(depth: int, color: int, background: int, stale: byte): InkFn {
    (alpha, px) => GlyphPixel(depth, color, background, alpha, stale, px)
  }

  function GlyphCell(ink: InkFn, glyph: Glyph): CellFn {
    (r, c, px) => ink(Peek(glyph.alpha, Product(glyph.width, r) + c), px)
  }

  /** `ink` is the ink of these colours; used where a proof need not know more. */
  ghost predicate IsInk(ink: InkFn, depth: int, color: int, background: int, stale: byte) {
    forall alpha, px {:trigger Inked(alpha, px)} ::
      Inked(alpha, px) ==> ink(alpha, px) == GlyphPixel(depth, color, background, alpha, stale, px)
  }

  predicate Inked(alpha: byte, px: seq<byte>) {
    true
  }

  function GlyphStamp(glyph: Glyph, x: int, y: int, ink: InkFn): Stamp {
    Stamp(x, y, glyph.height, glyph.width, GlyphCell(ink, glyph))
  }

  /** The frame text is drawn on. */
  function DrawSurface(d: Driver): Surface {
    Surface(DrawBase(d), ToNat(d.width), ToNat(d.height), Bpp(d.colorDepth))
  }

  /** The pixel lies in memory. */
  predicate InRam(s: Surface, horiz: int, vert: int, len: int) {
    0 <= PixelOff(s, horiz, vert) && PixelOff(s, horiz, vert) + s.bpp <= len
  }

  /** Reads a pixel of the draw frame `s` and separates its channels. */
  method ReadFromFrame(ram: array<byte>, s: Surface, depth: int, horiz: int, vert: int) returns (c: Channels)
    requires s.bpp == Bpp(depth) && InRam(s, horiz, vert, ram.Length)
    ensures c == Separate(depth, Pixel(ram[..], s, horiz, vert))
  {
    PixelOffIs(s, horiz, vert);
    var at := s.base + (vert * s.width + horiz) * s.bpp;
    c := ChannelsAt(ram, depth, at);
  }

  method ChannelsAt(ram: array<byte>, depth: int, at: nat) returns (c: Channels)
    requires at + Bpp(depth) <= ram.Length
    ensures c == Separate(depth, Slice(ram[..], at, Bpp(depth)))
  {
    IsSlice(ram[..], at, Bpp(depth));
    if depth == 32 {
      var t := Word(ram[..], at);
      ByteOfWord(ram[..], at);
      c := Channels(t / 0x1_0000 % 0x100, t / 0x100 % 0x100, t % 0x100);
    } else if depth == 24 {
      c := Channels(ram[at + 2], ram[at + 1], ram[at]);
    } else if depth == 16 {
      var t := ram[at] as int + 0x100 * ram[at + 1] as int;
      c := Channels(t / 0x800 % 0x20, t / 0x20 % 0x40, t % 0x20);
    } else {
      c := Channels(0, 0, 0);
    }
  }

  lemma ByteOfWord(s: seq<byte>, at: nat)
    requires at + 4 <= |s|
    ensures Word(s, at) % 0x100 == s[at]
    ensures Word(s, at) / 0x100 % 0x100 == s[at + 1]
    ensures Word(s, at) / 0x1_0000 % 0x100 == s[at + 2]
    ensures LittleEndian(Word(s, at)) == s[at..at + 4]
  {
    var p: int, q: int, r: int, a: int := s[at], s[at + 1], s[at + 2], s[at + 3];
    assert Word(s, at) / 0x100 == q + 0x100 * r + 0x1_0000 * a;
    assert Word(s, at) / 0x1_0000 == r + 0x100 * a;
    assert Word(s, at) / 0x100_0000 == a;
  }

  /** Stores the low bytes of a colour in a pixel of the draw frame, as many as the depth has. */
  method SetPixel(ram: array<byte>, s: Surface, depth: int, horiz: int, vert: int, color: int)
    requires s.bpp == Bpp(depth) && InRam(s, horiz, vert, ram.Length)
    modifies ram
    ensures ram[..] == Splice(old(ram[..]), PixelOff(s, horiz, vert), s.bpp, LittleEndian(color)[..s.bpp])
  {
    PixelOffIs(s, horiz, vert);
    var at := s.base + (vert * s.width + horiz) * s.bpp;
    StoreColor(ram, depth, at, color);
  }

  method StoreColor(ram: array<byte>, depth: int, at: nat, color: int)
    requires at + Bpp(depth) <= ram.Length
    modifies ram
    ensures ram[..] == Splice(old(ram[..]), at, Bpp(depth), LittleEndian(color)[..Bpp(depth)])
  {
    ghost var was := ram[..];
    var p := LittleEndian(color);
    if depth == 32 {
      ram[at], ram[at + 1], ram[at + 2], ram[at + 3] := p[0], p[1], p[2], p[3];
    } else if depth == 24 {
      ram[at], ram[at + 1], ram[at + 2] := p[0], p[1], p[2];
    } else if depth == 16 {
      ram[at], ram[at + 1] := p[0], p[1];
    }
    IsSplice(was, ram[..], at, Bpp(depth), p[..Bpp(depth)]);
  }

  /** Mixes a foreground with the background colour, or with the pixel that is in the frame. */
  method AlphaBlending(ram: array<byte>, s: Surface, depth: int, horiz: int, vert: int, background: int, alpha: byte,
                       f: Channels) returns (c: Channels)
    requires s.bpp == Bpp(depth) && InRam(s, horiz, vert, ram.Length)
    ensures c == BlendChannels(depth, f, Background(depth, background, Pixel(ram[..], s, horiz, vert)), alpha)
  {
    var b: Channels;
    if background == CLEAR_BACKGROUND {
      b := ReadFromFrame(ram, s, depth, horiz, vert);
    } else {
      b := Separate(depth, LittleEndian(background));
    }
    BlendIs(f.red, b.red, alpha);
    BlendIs(f.green, b.green, alpha);
    BlendIs(f.blue, b.blue, alpha);
    var red := (f.red * alpha + b.red * (255 - alpha)) / 255;
    var green := (f.green * alpha + b.green * (255 - alpha)) / 255;
    var blue := (f.blue * alpha + b.blue * (255 - alpha)) / 255;
    if depth == 16 {
      c := Channels(if red > 0x1f then 0x1f else red, if green > 0x3f then 0x3f else green,
                    if blue > 0x1f then 0x1f else blue);
    } else if depth == 24 || depth == 32 {
      c := Channels(if red > 0xff then 0xff else red, if green > 0xff then 0xff else green,
                    if blue > 0xff then 0xff else blue);
    } else {
      c := f;
    }
  }

  /** One pixel of a glyph: blended, merged and stored. */
  method PrintPixel(ram: array<byte>, s: Surface, depth: int, horiz: int, vert: int, color: int, background: int,
                    alpha: byte, stale: byte, ghost ink: InkFn)
    requires IsInk(ink, depth, color, background, stale)
    requires s.bpp == Bpp(depth) && InRam(s, horiz, vert, ram.Length)
    modifies ram
    ensures ram[..] == Splice(old(ram[..]), PixelOff(s, horiz, vert), s.bpp,
                              ink(alpha, Pixel(old(ram[..]), s, horiz, vert)))
  {
    assert Inked(alpha, Pixel(ram[..], s, horiz, vert));
    var original := Separate(depth, LittleEndian(color));
    var blended := AlphaBlending(ram, s, depth, horiz, vert, background, alpha, original);
    var newColor := Merge(depth, blended, [0, 0, 0, stale]);
    ByteOfWord(newColor, 0);
    assert LittleEndian(Word(newColor, 0)) == newColor;
    SetPixel(ram, s, depth, horiz, vert, Word(newColor, 0));
  }

  function TextGrid(s: Surface, horiz: int, vert: int): Grid {
    Grid(s.base, s.width, s.bpp, horiz, vert)
  }

  /** One row of a glyph; `a` runs through the glyph's alpha map. */
  method PrintCharLine(ram: array<byte>, s: Surface, depth: int, horiz: int, vert: int, r: nat, color: int,
                       background: int, glyph: Glyph, from: int, stale: byte, ghost ink: InkFn) returns (a: int)
    requires IsInk(ink, depth, color, background, stale)
    requires s.bpp == Bpp(depth) && r < glyph.height && ValidGlyph(glyph)
    requires Fits(TextGrid(s, horiz, vert), glyph.height, glyph.width, ram.Length)
    requires from == Product(glyph.width, r)
    modifies ram
    ensures a == Product(glyph.width, r + 1)
    ensures ram[..] == PutRow(old(ram[..]), TextGrid(s, horiz, vert), GlyphCell(ink, glyph), r, glyph.width)
  {
    ghost var was, g := ram[..], TextGrid(s, horiz, vert);
    ghost var f := GlyphCell(ink, glyph);
    a := from;
    for j := 0 to glyph.width
      invariant a == from + j
      invariant ram[..] == PutRow(was, g, f, r, j)
    {
      assert 0 <= Off(g, r, j) && Off(g, r, j) + g.bpp <= ram.Length;
      AlphaIndex(r, j, glyph);
      GlyphStep(was, s, ink, glyph, horiz, vert, r, j, from);
      PrintPixel(ram, s, depth, horiz + j, vert + r, color, background, glyph.alpha[a], stale, ink);
      a := a + 1;
    }
  }

  lemma AlphaIndex(r: nat, c: nat, glyph: Glyph)
    requires ValidGlyph(glyph) && r < glyph.height && c < glyph.width
    ensures 0 <= Product(glyph.width, r) + c < |glyph.alpha|
  {
    ProductIs(glyph.width, r);
    ProductIs(glyph.width, glyph.height);
    MulMonotone(0, r, glyph.width);
    LineBound(r, c, glyph.height, glyph.width);
  }

  lemma GlyphStep(mem: seq<byte>, s: Surface, ink: InkFn, glyph: Glyph, horiz: int, vert: int, r: nat, j: nat,
                  from: int)
    requires from == Product(glyph.width, r) && 0 <= from + j < |glyph.alpha|
    ensures PutRow(mem, TextGrid(s, horiz, vert), GlyphCell(ink, glyph), r, j + 1)
         == Splice(PutRow(mem, TextGrid(s, horiz, vert), GlyphCell(ink, glyph), r, j),
                   PixelOff(s, horiz + j, vert + r), s.bpp,
                   ink(glyph.alpha[from + j],
                       Pixel(PutRow(mem, TextGrid(s, horiz, vert), GlyphCell(ink, glyph), r, j), s, horiz + j,
                             vert + r)))
  {
    var g, f := TextGrid(s, horiz, vert), GlyphCell(ink, glyph);
    var m := PutRow(mem, g, f, r, j);
    var px := Pixel(m, s, horiz + j, vert + r);
    SameOff(s, horiz, vert, r, j);
    assert Peek(glyph.alpha, Product(glyph.width, r) + j) == glyph.alpha[from + j];
    assert f(r, j, px) == ink(glyph.alpha[from + j], px);
    CellAt(m, g, f, r, j, PixelOff(s, horiz + j, vert + r), f(r, j, px));
    assert PutRow(mem, g, f, r, j + 1) == PutCell(m, g, f, r, j);
  }

  lemma SameOff(s: Surface, horiz: int, vert: int, r: int, c: int)
    ensures Off(TextGrid(s, horiz, vert), r, c) == PixelOff(s, horiz + c, vert + r)
  {
  }

  /** Draws one character on the frame that is not on the screen. */
  method PrintCharAlpha(display: VipFrameReader, horiz: int, vert: int, color: int, ch: char, background: int,
                        font: Font, stale: byte)
    requires ValidFont(font) && Printable(ch) && display.width >= 0
    requires Fits(TextGrid(DrawSurface(display.View()), horiz, vert), GlyphOf(font, ch).height,
                  GlyphOf(font, ch).width, display.ram.Length)
    modifies display.ram
    ensures display.ram[..] == PutRows(old(display.ram[..]), TextGrid(DrawSurface(display.View()), horiz, vert),
                                       GlyphCell(Ink(display.colorDepth, color, background, stale), GlyphOf(font, ch)),
                                       GlyphOf(font, ch).height, GlyphOf(font, ch).width)
  {
    var s := DrawSurface(display.View());
    PrintGlyph(display.ram, s, display.colorDepth, horiz, vert, color, background, GlyphOf(font, ch), stale);
  }

  method PrintGlyph(ram: array<byte>, s: Surface, depth: int, horiz: int, vert: int, color: int, background: int,
                    glyph: Glyph, stale: byte)
    requires s.bpp == Bpp(depth) && ValidGlyph(glyph)
    requires Fits(TextGrid(s, horiz, vert), glyph.height, glyph.width, ram.Length)
    modifies ram
    ensures ram[..]
         == PutRows(old(ram[..]), TextGrid(s, horiz, vert), GlyphCell(Ink(depth, color, background, stale), glyph),
                               glyph.height, glyph.width)
  {
    ghost var was, g := ram[..], TextGrid(s, horiz, vert);
    ghost var f := GlyphCell(Ink(depth, color, background, stale), glyph);
    ghost var ink := Ink(depth, color, background, stale);
    var a := 0;
    for i := 0 to glyph.height
      invariant a == Product(glyph.width, i)
      invariant ram[..] == PutRows(was, g, f, i, glyph.width)
    {
      a := PrintCharLine(ram, s, depth, horiz, vert, i, color, background, glyph, a, stale, ink);
    }
  }
}
