/** Drawing of images into a frame of 32-bit pixels, after `graphic_lib/draw_gimps.c`. */
module DrawGimps {
  import opened Arithmetic
  import opened Bytes
  import opened FrameReader
  import opened Raster

  /** The colour 0x00RRGGBB of a bitmap pixel that is stored blue first. */
  function Colour(p: seq<byte>): int
    requires |p| == 4
  {
    var red: int, green: int, blue: int := p[2], p[1], p[0];
    red * 0x1_0000 + green * 0x100 + blue
  }

  /** The bytes of the word 0x00RRGGBB: the pixel's own, with nothing on top. */
  function Opaque(p: seq<byte>): (q: seq<byte>)
    requires |p| == 4
    ensures |q| == 4
  {
    [p[0], p[1], p[2], 0]
  }

  /** The bytes of one pixel of a bitmap with four bytes to the pixel. */
  function BitmapPixel(src: seq<byte>, srcWidth: int, r: int, c: int): (p: seq<byte>)
    ensures |p| == 4
  {
    Slice(src, Off(Grid(0, srcWidth, 4, 0, 0), r, c), 4)
  }

  /** The bytes of a transparent colour, if there is one. */
  function KeyBytes(transparent: Option<int>): Option<seq<byte>> {
    if transparent.Some? then Some(LittleEndian(transparent.value)) else None
  }

  /**
   A blit with inclusive bounds on the bitmap's columns and lines, and perhaps a word that is not
   drawn, given by its bytes.
   */
  function BlitCell(src: seq<byte>, srcWidth: int, wFit: int, hFit: int, key: Option<seq<byte>>): CellFn {
    (r, c, px) =>
      var word := Opaque(BitmapPixel(src, srcWidth, r, c));
      if r <= hFit && c <= wFit && key != Some(word) then word else px
  }

  function CopyCell(src: seq<byte>, srcWidth: int): CellFn {
    (r, c, px) => BitmapPixel(src, srcWidth, r, c)
  }

  function Blit(mem: seq<byte>, dest: int, src: seq<byte>, destWidth: int, srcWidth: int, srcHeight: int,
                x: int, y: int, wFit: int, hFit: int, key: Option<seq<byte>>): (m: seq<byte>)
    ensures |m| == |mem|
  {
    PutRows(mem, Grid(dest, destWidth, 4, x, y), BlitCell(src, srcWidth, wFit, hFit, key), ToNat(srcHeight),
            ToNat(srcWidth))
  }

  /** The colour word's bytes in memory. */
  lemma ColourBytes(p: seq<byte>)
    requires |p| == 4
    ensures LittleEndian(Colour(p)) == Opaque(p)
    ensures Word(Opaque(p), 0) == Colour(p)
  {
    ThreeBytes(p[2], p[1], p[0]);
  }

  lemma ThreeBytes(a: int, b: int, c: int)
    requires 0 <= a < 0x100 && 0 <= b < 0x100 && 0 <= c < 0x100
    ensures var t := a * 0x1_0000 + b * 0x100 + c;
            t % 0x100 == c && t / 0x100 % 0x100 == b && t / 0x1_0000 % 0x100 == a && t / 0x100_0000 == 0
  {
    assert (a * 0x1_0000 + b * 0x100 + c) / 0x100 == a * 0x100 + b;
    assert (a * 0x1_0000 + b * 0x100 + c) / 0x1_0000 == a;
  }

  // ----- the blitters

  method StoreWord(ram: array<byte>, at: nat, value: int)
    requires at + 4 <= ram.Length
    modifies ram
    ensures ram[..] == Splice(old(ram[..]), at, 4, LittleEndian(value))
  {
    ghost var was := ram[..];
    var p := LittleEndian(value);
    ram[at], ram[at + 1], ram[at + 2], ram[at + 3] := p[0], p[1], p[2], p[3];
    IsSplice(was, ram[..], at, 4, [ram[at], ram[at + 1], ram[at + 2], ram[at + 3]]);
  }

  /** `key` tells a word that is not drawn by its bytes, `unsigned` by its value. */
  ghost predicate SameKey(key: Option<seq<byte>>, unsigned: Option<int>) {
    && (key.Some? <==> unsigned.Some?)
    && forall p: seq<byte> {:trigger Tested(p)} :: Tested(p) ==>
         (key == Some(Opaque(p)) <==> unsigned == Some(Colour(p)))
  }

  /** A pixel that is compared with the transparent colour. */
  predicate Tested(p: seq<byte>) {
    |p| == 4
  }

  lemma KeyOfTransparent(transparent: Option<int>)
    ensures SameKey(KeyBytes(transparent), if transparent.Some? then Some(ToU32(transparent.value)) else None)
  {
    if transparent.Some? {
      forall p: seq<byte> | Tested(p)
        ensures LittleEndian(transparent.value) == Opaque(p) <==> ToU32(transparent.value) == Colour(p)
      {
        ColourBytes(p);
        SameBytesSameValue(transparent.value, Colour(p));
        ColourInRange(p);
      }
    }
  }

  lemma ColourInRange(p: seq<byte>)
    requires |p| == 4
    ensures 0 <= Colour(p) < 0x100_0000 && ToU32(Colour(p)) == Colour(p)
  {
    var red: int, green: int, blue: int := p[2], p[1], p[0];
    assert 0 <= red < 0x100 && 0 <= green < 0x100 && 0 <= blue < 0x100;
  }

  /** The body of the blitters' inner loop; `next` is the source position after the pixel that was read. */
  method BlitPixel(ram: array<byte>, dest: int, src: seq<byte>, s: nat, destWidth: int, srcWidth: int,
                   x: int, y: int, column: int, line: int, wFit: int, hFit: int,
                   unsigned: Option<int>, ghost key: Option<seq<byte>>) returns (next: nat)
    requires SameKey(key, unsigned)
    requires s == Off(Grid(0, srcWidth, 4, 0, 0), line, column) && s + 4 <= |src|
    requires line <= hFit && column <= wFit ==>
               0 <= Off(Grid(dest, destWidth, 4, x, y), line, column)
               && Off(Grid(dest, destWidth, 4, x, y), line, column) + 4 <= ram.Length
    modifies ram
    ensures next == s + 4
    ensures ram[..]
         == PutCell(old(ram[..]), Grid(dest, destWidth, 4, x, y), BlitCell(src, srcWidth, wFit, hFit, key), line,
                    column)
  {
    ghost var g := Grid(dest, destWidth, 4, x, y);
    ghost var at := Off(g, line, column);
    ghost var px := Slice(ram[..], at, 4);
    var color := src[s..s + 4];
    IsSlice(src, s, 4);
    next := s + 4;
    var red: int, green: int, blue: int := color[2], color[1], color[0];
    var realColor := red * 0x1_0000 + green * 0x100 + blue;
    OffIs(g, line, column);
    SpliceSelf(ram[..], at, 4);
    BlitCellAt(src, srcWidth, wFit, hFit, key, line, column, px);
    CellAt(ram[..], g, BlitCell(src, srcWidth, wFit, hFit, key), line, column, at,
           BlitCell(src, srcWidth, wFit, hFit, key)(line, column, px));
    assert Tested(color);
    assert key == Some(Opaque(color)) <==> unsigned == Some(realColor);
    if line <= hFit && column <= wFit {
      if unsigned.None? || realColor != unsigned.value {
        ColourBytes(color);
        StoreWord(ram, dest + ((line + y) * destWidth + (column + x)) * 4, realColor);
      }
    }
  }

  lemma BlitCellAt(src: seq<byte>, srcWidth: int, wFit: int, hFit: int, key: Option<seq<byte>>, r: int, c: int,
                   px: seq<byte>)
    ensures BlitCell(src, srcWidth, wFit, hFit, key)(r, c, px)
         == if r <= hFit && c <= wFit && key != Some(Opaque(BitmapPixel(src, srcWidth, r, c)))
            then Opaque(BitmapPixel(src, srcWidth, r, c)) else px
  {
  }

  /** Every cell the blitter writes lies in memory. */
  ghost predicate BlitFits(g: Grid, rows: int, cols: int, wFit: int, hFit: int, len: int) {
    forall r, c :: 0 <= r < rows && 0 <= c < cols && r <= hFit && c <= wFit ==>
                     0 <= Off(g, r, c) && Off(g, r, c) + 4 <= len
  }

  /** What one turn of the inner loop needs to know of its column. */
  lemma BlitStep(mem: seq<byte>, g: Grid, f: CellFn, srcWidth: int, line: nat, column: nat, srcLen: int, wFit: int,
                 hFit: int, len: int)
    requires column < srcWidth && Fits(Grid(0, srcWidth, 4, 0, 0), line + 1, srcWidth, srcLen)
    requires BlitFits(g, line + 1, srcWidth, wFit, hFit, len)
    ensures 0 <= Off(Grid(0, srcWidth, 4, 0, 0), line, column)
    ensures Off(Grid(0, srcWidth, 4, 0, 0), line, column) + 4 <= srcLen
    ensures Off(Grid(0, srcWidth, 4, 0, 0), line, column + 1) == Off(Grid(0, srcWidth, 4, 0, 0), line, column) + 4
    ensures line <= hFit && column <= wFit ==> 0 <= Off(g, line, column) && Off(g, line, column) + 4 <= len
    ensures PutRow(mem, g, f, line, column + 1) == PutCell(PutRow(mem, g, f, line, column), g, f, line, column)
  {
    OffNext(Grid(0, srcWidth, 4, 0, 0), line, column);
  }

  /** One turn of the inner loop; `cell` is the cell function of the blit. */
  method BlitColumn(ram: array<byte>, dest: int, src: seq<byte>, from: int, destWidth: int, srcWidth: int,
                    x: int, y: int, column: nat, line: nat, wFit: int, hFit: int, unsigned: Option<int>,
                    ghost key: Option<seq<byte>>, ghost was: seq<byte>, ghost cell: CellFn) returns (next: int)
    requires SameKey(key, unsigned) && cell == BlitCell(src, srcWidth, wFit, hFit, key) && column < srcWidth
    requires from == Off(Grid(0, srcWidth, 4, 0, 0), line, column)
    requires Fits(Grid(0, srcWidth, 4, 0, 0), line + 1, srcWidth, |src|)
    requires BlitFits(Grid(dest, destWidth, 4, x, y), line + 1, srcWidth, wFit, hFit, ram.Length)
    requires ram[..] == PutRow(was, Grid(dest, destWidth, 4, x, y), cell, line, column)
    modifies ram
    ensures next == Off(Grid(0, srcWidth, 4, 0, 0), line, column + 1)
    ensures ram[..] == PutRow(was, Grid(dest, destWidth, 4, x, y), cell, line, column + 1)
  {
    ghost var g := Grid(dest, destWidth, 4, x, y);
    BlitStep(was, g, cell, srcWidth, line, column, |src|, wFit, hFit, ram.Length);
    next := BlitPixel(ram, dest, src, from, destWidth, srcWidth, x, y, column, line, wFit, hFit, unsigned, key);
  }

  /** The inner loop of the two blitters: one line of the bitmap, drawn or not. */
  method BlitLine(ram: array<byte>, dest: int, src: seq<byte>, from: int, destWidth: int, srcWidth: int,
                  x: int, y: int, line: nat, wFit: int, hFit: int,
                  unsigned: Option<int>, ghost key: Option<seq<byte>>) returns (s: int)
    requires SameKey(key, unsigned)
    requires srcWidth > 0 ==> from == Off(Grid(0, srcWidth, 4, 0, 0), line, 0)
    requires Fits(Grid(0, srcWidth, 4, 0, 0), line + 1, srcWidth, |src|)
    requires BlitFits(Grid(dest, destWidth, 4, x, y), line + 1, srcWidth, wFit, hFit, ram.Length)
    modifies ram
    ensures srcWidth > 0 ==> s == Off(Grid(0, srcWidth, 4, 0, 0), line + 1, 0)
    ensures ram[..]
         == PutRow(old(ram[..]), Grid(dest, destWidth, 4, x, y), BlitCell(src, srcWidth, wFit, hFit, key), line,
                   ToNat(srcWidth))
  {
    ghost var was, g, f := ram[..], Grid(dest, destWidth, 4, x, y), BlitCell(src, srcWidth, wFit, hFit, key);
    s := from;
    var column := 0;
    while column < srcWidth
      invariant 0 <= column <= ToNat(srcWidth)
      invariant srcWidth > 0 ==> s == Off(Grid(0, srcWidth, 4, 0, 0), line, column)
      invariant ram[..] == PutRow(was, g, f, line, column)
    {
      s := BlitColumn(ram, dest, src, s, destWidth, srcWidth, x, y, column, line, wFit, hFit, unsigned, key, was, f);
      column := column + 1;
    }
    LineEnd(srcWidth, line);
  }

  /**
   `AsVidCopyImageToBuffer2` when `transparent` is None, `AsVidCopyImageToBuffer3` when it is the
   transparent colour.
   */
  method CopyImageToBuffer(ram: array<byte>, dest: int, src: seq<byte>, destWidth: int, srcWidth: int, srcHeight: int,
                           x: int, y: int, wFit: int, hFit: int, transparent: Option<int>)
    requires Fits(Grid(0, srcWidth, 4, 0, 0), srcHeight, srcWidth, |src|)
    requires BlitFits(Grid(dest, destWidth, 4, x, y), srcHeight, srcWidth, wFit, hFit, ram.Length)
    modifies ram
    ensures ram[..]
         == Blit(old(ram[..]), dest, src, destWidth, srcWidth, srcHeight, x, y, wFit, hFit, KeyBytes(transparent))
  {
    ghost var was, g := ram[..], Grid(dest, destWidth, 4, x, y);
    ghost var f := BlitCell(src, srcWidth, wFit, hFit, KeyBytes(transparent));
    KeyOfTransparent(transparent);
    var unsigned := if transparent.Some? then Some(ToU32(transparent.value)) else None;
    var s, line := 0, 0;
    while line < srcHeight
      invariant 0 <= line <= ToNat(srcHeight)
      invariant srcWidth > 0 ==> s == Off(Grid(0, srcWidth, 4, 0, 0), line, 0)
      invariant ram[..] == PutRows(was, g, f, line, ToNat(srcWidth))
    {
      s := BlitLine(ram, dest, src, s, destWidth, srcWidth, x, y, line, wFit, hFit, unsigned, KeyBytes(transparent));
      line := line + 1;
    }
  }

  /** In a packed bitmap the end of one line is the start of the next. */
  lemma LineEnd(width: int, line: int)
    ensures Off(Grid(0, width, 4, 0, 0), line, width) == Off(Grid(0, width, 4, 0, 0), line + 1, 0)
  {
    OffRow(Grid(0, width, 4, 0, 0), line, 0, 1);
    OffColumn(Grid(0, width, 4, 0, 0), line, 0, width);
  }

  /** `memcpy` from a buffer outside the frames. */
  method MemCpyFrom(ram: array<byte>, to: nat, src: seq<byte>, from: nat, n: nat)
    requires to + n <= ram.Length && from + n <= |src|
    modifies ram
    ensures ram[..] == Splice(old(ram[..]), to, n, Slice(src, from, n))
  {
    ghost var was := ram[..];
    SpliceSelf(was, to, 0);
    for i := 0 to n
      invariant ram[..] == Splice(was, to, i, Slice(src, from, i))
    {
      ghost var m := ram[..];
      ram[to + i] := src[from + i];
      assert Slice(src, from + i, 1)[0] == Peek(src, from + i + 0);
      IsSplice(m, ram[..], to + i, 1, Slice(src, from + i, 1));
      SpliceJoin(was, to, i, Slice(src, from, i), 1, Slice(src, from + i, 1));
      SliceJoin(src, from, i, 1);
    }
  }

  function CopyRows(mem: seq<byte>, dest: int, src: seq<byte>, destWidth: int, srcWidth: int,
                    srcHeight: int): (m: seq<byte>)
    ensures |m| == |mem|
  {
    PutRows(mem, Grid(dest, destWidth, 4, 0, 0), CopyCell(src, srcWidth), ToNat(srcHeight), ToNat(srcWidth))
  }

  /** Copying a line's pixels one by one is copying the line's bytes. */
  lemma {:induction false} LineCopy(mem: seq<byte>, g: Grid, src: seq<byte>, srcWidth: int, r: int, cols: nat)
    requires g.bpp == 4
    ensures PutRow(mem, g, CopyCell(src, srcWidth), r, cols)
         == Splice(mem, Off(g, r, 0), 4 * cols, Slice(src, Off(Grid(0, srcWidth, 4, 0, 0), r, 0), 4 * cols))
  {
    var from := Off(Grid(0, srcWidth, 4, 0, 0), r, 0);
    if cols == 0 {
      SpliceSelf(mem, Off(g, r, 0), 0);
    } else {
      LineCopy(mem, g, src, srcWidth, r, cols - 1);
      OffColumn(g, r, 0, cols - 1);
      OffColumn(Grid(0, srcWidth, 4, 0, 0), r, 0, cols - 1);
      SpliceJoin(mem, Off(g, r, 0), 4 * (cols - 1), Slice(src, from, 4 * (cols - 1)), 4,
                 Slice(src, from + 4 * (cols - 1), 4));
      SliceJoin(src, from, 4 * (cols - 1), 4);
    }
  }

  lemma NextLines(g: Grid, srcWidth: nat, line: nat, srcHeight: int)
    requires line < srcHeight && g.bpp == 4
    ensures 0 <= Off(Grid(0, srcWidth, 4, 0, 0), line, 0)
    ensures Off(Grid(0, srcWidth, 4, 0, 0), line + 1, 0) == Off(Grid(0, srcWidth, 4, 0, 0), line, 0) + srcWidth * 4
    ensures Off(Grid(0, srcWidth, 4, 0, 0), line + 1, 0) <= srcHeight * srcWidth * 4
    ensures Off(g, line + 1, 0) == Off(g, line, 0) + g.stride * 4
  {
    OffIs(Grid(0, srcWidth, 4, 0, 0), line, 0);
    OffIs(Grid(0, srcWidth, 4, 0, 0), line + 1, 0);
    MulMonotone(0, line, srcWidth);
    MulAdd(line, 1, srcWidth);
    MulMonotone(line + 1, srcHeight, srcWidth);
    OffRow(g, line, 0, 1);
  }

  /** `AsVidCopyImageToBuffer`: whole lines, from the frame's first pixel. */
  method CopyImageRows(ram: array<byte>, dest: int, src: seq<byte>, destWidth: int, srcWidth: nat, srcHeight: int)
    requires srcHeight > 0 ==> |src| >= srcHeight * srcWidth * 4
    requires forall r :: 0 <= r < srcHeight ==>
               && 0 <= Off(Grid(dest, destWidth, 4, 0, 0), r, 0)
               && Off(Grid(dest, destWidth, 4, 0, 0), r, 0) + 4 * srcWidth <= ram.Length
    modifies ram
    ensures ram[..] == CopyRows(old(ram[..]), dest, src, destWidth, srcWidth, srcHeight)
  {
    ghost var was, g, sg := ram[..], Grid(dest, destWidth, 4, 0, 0), Grid(0, srcWidth, 4, 0, 0);
    var s, d, line := 0, dest, 0;
    while line < srcHeight
      invariant 0 <= line <= ToNat(srcHeight)
      invariant s == Off(sg, line, 0) && d == Off(g, line, 0)
      invariant ram[..] == PutRows(was, g, CopyCell(src, srcWidth), line, srcWidth)
    {
      LineCopy(ram[..], g, src, srcWidth, line, srcWidth);
      NextLines(g, srcWidth, line, srcHeight);
      MemCpyFrom(ram, d, src, s, srcWidth * 4);
      s, d, line := s + srcWidth * 4, d + destWidth * 4, line + 1;
    }
  }

  // ----- in bytes

  /**
   The frame word at `at` is 0x00RRGGBB of the bitmap pixel whose four bytes start at `from`, if that is
   drawn and not of the transparent colour, and otherwise what it was.
   */
  ghost predicate WordDrawn(was: seq<byte>, now: seq<byte>, at: int, src: seq<byte>, from: int, drawn: bool,
                            transparent: Option<int>) {
    && 0 <= at && at + 4 <= |was| == |now| && 0 <= from && from + 4 <= |src|
    && var red: int, green: int, blue: int := src[from + 2], src[from + 1], src[from];
       var color := red * 0x1_0000 + green * 0x100 + blue;
       now[at..at + 4]
       == if drawn && !(transparent.Some? && (color - transparent.value) % 0x1_0000_0000 == 0)
          then [blue, green, red, 0] else was[at..at + 4]
  }

  lemma WordIsDrawn(was: seq<byte>, now: seq<byte>, at: int, src: seq<byte>, from: int, drawn: bool,
                    transparent: Option<int>, p: seq<byte>)
    requires 0 <= at && at + 4 <= |was| == |now| && 0 <= from && from + 4 <= |src| && p == src[from..from + 4]
    requires now[at..at + 4] == if drawn && KeyBytes(transparent) != Some(Opaque(p)) then Opaque(p) else was[at..at + 4]
    ensures WordDrawn(was, now, at, src, from, drawn, transparent)
  {
    KeyOfTransparent(transparent);
    assert Tested(p);
    ColourInRange(p);
    if transparent.Some? {
      SameU32(Colour(p), transparent.value);
    }
  }

  /** In a frame no narrower than the bitmap every pixel of the fit is at its place. */
  lemma BlitInBytes(mem: seq<byte>, dest: int, src: seq<byte>, destWidth: int, srcWidth: int, srcHeight: int,
                    x: int, y: int, wFit: int, hFit: int, transparent: Option<int>, r: nat, c: nat)
    requires Fits(Grid(0, srcWidth, 4, 0, 0), srcHeight, srcWidth, |src|)
    requires r < srcHeight && c < srcWidth <= destWidth
    requires 0 <= dest + ((y + r) * destWidth + x + c) * 4 && dest + ((y + r) * destWidth + x + c) * 4 + 4 <= |mem|
    ensures var now := Blit(mem, dest, src, destWidth, srcWidth, srcHeight, x, y, wFit, hFit, KeyBytes(transparent));
            WordDrawn(mem, now, dest + ((y + r) * destWidth + x + c) * 4, src, (r * srcWidth + c) * 4,
                      r <= hFit && c <= wFit, transparent)
  {
    var g := Grid(dest, destWidth, 4, x, y);
    OffIs(g, r, c);
    OffIs(Grid(0, srcWidth, 4, 0, 0), r, c);
    BlitStored(mem, g, src, srcWidth, srcHeight, wFit, hFit, transparent, r, c, Off(g, r, c),
               Off(Grid(0, srcWidth, 4, 0, 0), r, c));
  }

  lemma BlitStored(mem: seq<byte>, g: Grid, src: seq<byte>, srcWidth: nat, srcHeight: nat, wFit: int, hFit: int,
                   transparent: Option<int>, r: nat, c: nat, at: int, from: int)
    requires r < srcHeight && c < srcWidth <= g.stride && g.bpp == 4
    requires at == Off(g, r, c) && 0 <= at && at + 4 <= |mem|
    requires from == Off(Grid(0, srcWidth, 4, 0, 0), r, c) && 0 <= from && from + 4 <= |src|
    ensures WordDrawn(mem, PutRows(mem, g, BlitCell(src, srcWidth, wFit, hFit, KeyBytes(transparent)), srcHeight,
                                   srcWidth), at, src, from, r <= hFit && c <= wFit, transparent)
  {
    var f := BlitCell(src, srcWidth, wFit, hFit, KeyBytes(transparent));
    var now := PutRows(mem, g, f, srcHeight, srcWidth);
    RowsSlice(mem, g, f, srcHeight, srcWidth, r, c);
    BlitCellAt(src, srcWidth, wFit, hFit, KeyBytes(transparent), r, c, Slice(mem, at, 4));
    IsSlice(mem, at, 4);
    IsSlice(now, at, 4);
    IsSlice(src, from, 4);
    WordIsDrawn(mem, now, at, src, from, r <= hFit && c <= wFit, transparent, src[from..from + 4]);
  }

  // ----- the three blitters compared

  /**
   With inclusive bounds, the blit writes the top left `wFit` + 1 by `hFit` + 1 pixels of the bitmap,
   or what there is of them.
   */
  lemma BlitClips(mem: seq<byte>, dest: int, src: seq<byte>, destWidth: int, srcWidth: int, srcHeight: int,
                  x: int, y: int, wFit: int, hFit: int, key: Option<seq<byte>>)
    ensures Blit(mem, dest, src, destWidth, srcWidth, srcHeight, x, y, wFit, hFit, key)
         == PutRows(mem, Grid(dest, destWidth, 4, x, y), BlitCell(src, srcWidth, srcWidth, srcHeight, key),
                    ToNat(Min(srcHeight, hFit + 1)), ToNat(Min(srcWidth, wFit + 1)))
  {
    var g, f := Grid(dest, destWidth, 4, x, y), BlitCell(src, srcWidth, wFit, hFit, key);
    var top, few := ToNat(Min(srcHeight, hFit + 1)), ToNat(Min(srcWidth, wFit + 1));
    RowsClip(mem, g, f, top, ToNat(srcHeight), few, ToNat(srcWidth));
    RowsCongruent(mem, g, f, BlitCell(src, srcWidth, srcWidth, srcHeight, key), top, few);
  }

  function Min(a: int, b: int): int {
    if a < b then a else b
  }

  /**
   At the frame's corner, and with the whole bitmap in the fit, the row copy and the blit agree on
   the colour of every pixel.
   */
  lemma RowCopyAgrees(mem: seq<byte>, dest: int, src: seq<byte>, destWidth: int, srcWidth: int, srcHeight: int,
                      wFit: int, hFit: int, r: nat, c: nat)
    requires r < srcHeight && c < srcWidth <= destWidth && srcHeight - 1 <= hFit && srcWidth - 1 <= wFit
    requires Fits(Grid(dest, destWidth, 4, 0, 0), srcHeight, srcWidth, |mem|)
    ensures var at := Off(Grid(dest, destWidth, 4, 0, 0), r, c);
            var copied := Slice(CopyRows(mem, dest, src, destWidth, srcWidth, srcHeight), at, 4);
            var blitted := Slice(Blit(mem, dest, src, destWidth, srcWidth, srcHeight, 0, 0, wFit, hFit, None), at, 4);
            Colour(copied) == Colour(blitted) && blitted[3] == 0 && copied == BitmapPixel(src, srcWidth, r, c)
  {
    var g := Grid(dest, destWidth, 4, 0, 0);
    RowsSlice(mem, g, CopyCell(src, srcWidth), srcHeight, srcWidth, r, c);
    RowsSlice(mem, g, BlitCell(src, srcWidth, wFit, hFit, None), srcHeight, srcWidth, r, c);
  }
}
