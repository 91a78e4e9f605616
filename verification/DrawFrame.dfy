/** The frame that is not on the screen, on which text and lines are drawn, in bytes. */
module DrawFrame {
  import opened Arithmetic
  import opened Blending
  import opened Bytes
  import opened FrameReader
  import opened Painter
  import opened SimpleText

  /** The frame that is not on the screen lies in memory. */
  ghost predicate FrameInMemory(d: Driver, len: int) {
    var base := if d.displayFrame == 0 then d.frame1 else d.frame0;
    && (d.colorDepth == 16 || d.colorDepth == 24 || d.colorDepth == 32) && 0 <= d.width && 0 <= d.height
    && 0 <= base && base + d.height * d.width * (d.colorDepth / 8) <= len
  }

  /** The first byte of a pixel of the frame that is not on the screen. */
  function ByteOf(d: Driver, px: int, py: int): int {
    (if d.displayFrame == 0 then d.frame1 else d.frame0) + Product(d.colorDepth / 8, Product(d.width, py) + px)
  }

  lemma ByteOfIs(d: Driver, px: int, py: int)
    ensures ByteOf(d, px, py)
         == (if d.displayFrame == 0 then d.frame1 else d.frame0) + (py * d.width + px) * (d.colorDepth / 8)
  {
    ProductIs(d.width, py);
    ProductIs(d.colorDepth / 8, Product(d.width, py) + px);
  }

  /** A pixel of the frame, as bytes. */
  lemma PixelBytes(mem: seq<byte>, d: Driver, px: int, py: int)
    requires FrameInMemory(d, |mem|) && 0 <= px < d.width && 0 <= py < d.height
    ensures InMemory(DrawSurface(d), |mem|)
    ensures var at, n := ByteOf(d, px, py), d.colorDepth / 8;
            && 0 <= at && at + n <= |mem| && n == Bpp(d.colorDepth)
            && Pixel(mem, DrawSurface(d), px, py) == mem[at..at + n]
  {
    ByteOfIs(d, px, py);
    PixelIs(mem, DrawSurface(d), px, py);
  }

  lemma FrameEnds(d: Driver, len: int)
    requires FrameInMemory(d, len)
    ensures (if d.displayFrame == 0 then d.frame1 else d.frame0) == DrawSurface(d).base
    ensures DrawSurface(d).base + d.height * d.width * (d.colorDepth / 8) == DrawSurface(d).base + Size(DrawSurface(d))
  {
  }

  /** A stamp on the frame that is not on the screen, in bytes. */
  lemma StampPressed(mem: seq<byte>, now: seq<byte>, d: Driver, t: Stamp, px: int, py: int)
    requires FrameInMemory(d, |mem|) && now == Press(mem, DrawSurface(d), t)
    requires Inside(DrawSurface(d), t) && Sized(t, d.colorDepth / 8) && 0 <= px < d.width && 0 <= py < d.height
    ensures var at, n := ByteOf(d, px, py), d.colorDepth / 8;
            && 0 <= at && at + n <= |mem|
            && now[at..at + n]
                 == if Covers(t, px, py) then t.cell(py - t.y, px - t.x, mem[at..at + n]) else mem[at..at + n]
  {
    PixelBytes(mem, d, px, py);
    PixelBytes(now, d, px, py);
    PressPixel(mem, DrawSurface(d), t, px, py);
  }
}
