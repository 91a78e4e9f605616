/**
 Conversion of images exported from GIMP into the frame's pixel formats, after
 `graphic_lib/gimp_bmp.c`.  Shifts and masks of unsigned values are written as division,
 remainder and sum; module `Bits` states for each such expression that, on machine words, the two
 have the same value.
 */
module GimpBmp {
  import opened Arithmetic
  import opened Bytes
  import opened Raster

  datatype Format = F32To32 | F32To24 | F32To16 | F24To32 | F24To24 | F24To16

  function SrcBytes(f: Format): nat {
    if f.F32To32? || f.F32To24? || f.F32To16? then 4 else 3
  }

  function DestBytes(f: Format): nat {
    match f
    case F32To32 | F24To32 => 4
    case F32To24 | F24To24 => 3
    case F32To16 | F24To16 => 2
  }

  /** A 5-6-5 colour, red in the high bits, stored low byte first. */
  function Pack565(red: int, green: int, blue: int): (p: seq<byte>)
    requires 0 <= red < 0x20 && 0 <= green < 0x40 && 0 <= blue < 0x20
    ensures |p| == 2
  {
    var x := red * 0x800 + green * 0x20 + blue;
    [x % 0x100, x / 0x100]
  }

  /** One pixel in the new format.  The source holds red first. */
  function Reformat(f: Format, p: seq<byte>): (q: seq<byte>)
    requires |p| == SrcBytes(f)
    ensures |q| == DestBytes(f)
  {
    match f
    case F32To32 => p
    case F32To24 => p[..3]
    case F24To24 => p
    case F24To32 => [p[2], p[1], p[0], 0xff]
    case F32To16 => Pack565(p[0] / 8, p[1] / 4, p[2] / 8)
    case F24To16 => Pack565(p[0] / 8, p[1] / 4, p[2] / 8)
  }

  function SrcGrid(f: Format, lineWidth: int): Grid {
    Grid(0, lineWidth, SrcBytes(f), 0, 0)
  }

  function DestGrid(f: Format, lineWidth: int): Grid {
    Grid(0, lineWidth, DestBytes(f), 0, 0)
  }

  function ConvertCell(f: Format, src: seq<byte>, srcLineWidth: int): CellFn {
    (r, c, px) => Reformat(f, Slice(src, Off(SrcGrid(f, srcLineWidth), r, c), SrcBytes(f)))
  }

  /** The destination buffer after a conversion of `width` by `height` pixels. */
  function Convert(f: Format, src: seq<byte>, width: int, height: int, srcLineWidth: int,
                   dest: seq<byte>, destLineWidth: int): (m: seq<byte>)
    ensures |m| == |dest|
  {
    PutRows(dest, DestGrid(f, destLineWidth), ConvertCell(f, src, srcLineWidth), ToNat(height), ToNat(width))
  }

  // ----- the copy loops

  // The bodies of the six inner loops: one pixel, and the line pointers after it.

  method Pixel32To32(src: seq<byte>, from: nat, dest: array<byte>, at: nat) returns (s: nat, d: nat)
    requires from + 4 <= |src| && at + 4 <= dest.Length
    modifies dest
    ensures s == from + 4 && d == at + 4
    ensures dest[..] == Splice(old(dest[..]), at, 4, Reformat(F32To32, Slice(src, from, 4)))
  {
    ghost var was, p := dest[..], src[from..from + 4];
    IsSlice(src, from, 4);
    s, d := from, at;
    dest[d], dest[d + 1], dest[d + 2], dest[d + 3] := src[s], src[s + 1], src[s + 2], src[s + 3];
    s, d := s + 4, d + 4;
    assert p == [src[from], src[from + 1], src[from + 2], src[from + 3]];
    assert Reformat(F32To32, p) == [dest[at], dest[at + 1], dest[at + 2], dest[at + 3]];
    IsSplice(was, dest[..], at, 4, [dest[at], dest[at + 1], dest[at + 2], dest[at + 3]]);
  }

  method Pixel32To24(src: seq<byte>, from: nat, dest: array<byte>, at: nat) returns (s: nat, d: nat)
    requires from + 4 <= |src| && at + 3 <= dest.Length
    modifies dest
    ensures s == from + 4 && d == at + 3
    ensures dest[..] == Splice(old(dest[..]), at, 3, Reformat(F32To24, Slice(src, from, 4)))
  {
    ghost var was, p := dest[..], src[from..from + 4];
    IsSlice(src, from, 4);
    s, d := from, at;
    dest[d] := src[s];
    s, d := s + 1, d + 1;
    dest[d] := src[s];
    s, d := s + 1, d + 1;
    dest[d] := src[s];
    s, d := s + 2, d + 1;
    assert p[..3] == [src[from], src[from + 1], src[from + 2]];
    assert Reformat(F32To24, p) == [dest[at], dest[at + 1], dest[at + 2]];
    IsSplice(was, dest[..], at, 3, [dest[at], dest[at + 1], dest[at + 2]]);
  }

  method Pixel32To16(src: seq<byte>, from: nat, dest: array<byte>, at: nat) returns (s: nat, d: nat)
    requires from + 4 <= |src| && at + 2 <= dest.Length
    modifies dest
    ensures s == from + 4 && d == at + 2
    ensures dest[..] == Splice(old(dest[..]), at, 2, Reformat(F32To16, Slice(src, from, 4)))
  {
    ghost var was, p := dest[..], src[from..from + 4];
    IsSlice(src, from, 4);
    s, d := from, at;
    var longPixel := Word(src, s);
    s := s + 4;
    var shortPixel := longPixel / 8 % 0x20 * 0x800 + longPixel / 0x400 % 0x40 * 0x20 + longPixel / 0x8_0000 % 0x20;
    PackedWord(src, from);
    dest[d], dest[d + 1] := shortPixel % 0x100, shortPixel / 0x100;
    d := d + 2;
    assert Reformat(F32To16, p) == [dest[at], dest[at + 1]];
    IsSplice(was, dest[..], at, 2, [dest[at], dest[at + 1]]);
  }

  method Pixel24To32(src: seq<byte>, from: nat, dest: array<byte>, at: nat) returns (s: nat, d: nat)
    requires from + 3 <= |src| && at + 4 <= dest.Length
    modifies dest
    ensures s == from + 3 && d == at + 4
    ensures dest[..] == Splice(old(dest[..]), at, 4, Reformat(F24To32, Slice(src, from, 3)))
  {
    ghost var was, p := dest[..], src[from..from + 3];
    IsSlice(src, from, 3);
    s, d := from, at;
    dest[d + 2] := src[s];
    s, d := s + 1, d + 1;
    dest[d] := src[s];
    s, d := s + 1, d + 1;
    dest[d - 2] := src[s];
    s, d := s + 1, d + 1;
    dest[d] := 0xff;
    d := d + 1;
    assert Reformat(F24To32, p) == [dest[at], dest[at + 1], dest[at + 2], dest[at + 3]];
    IsSplice(was, dest[..], at, 4, [dest[at], dest[at + 1], dest[at + 2], dest[at + 3]]);
  }

  method Pixel24To24(src: seq<byte>, from: nat, dest: array<byte>, at: nat) returns (s: nat, d: nat)
    requires from + 3 <= |src| && at + 3 <= dest.Length
    modifies dest
    ensures s == from + 3 && d == at + 3
    ensures dest[..] == Splice(old(dest[..]), at, 3, Reformat(F24To24, Slice(src, from, 3)))
  {
    ghost var was, p := dest[..], src[from..from + 3];
    IsSlice(src, from, 3);
    s, d := from, at;
    dest[d] := src[s];
    s, d := s + 1, d + 1;
    dest[d] := src[s];
    s, d := s + 1, d + 1;
    dest[d] := src[s];
    s, d := s + 1, d + 1;
    assert p == [src[from], src[from + 1], src[from + 2]];
    assert Reformat(F24To24, p) == [dest[at], dest[at + 1], dest[at + 2]];
    IsSplice(was, dest[..], at, 3, [dest[at], dest[at + 1], dest[at + 2]]);
  }

  method Pixel24To16(src: seq<byte>, from: nat, dest: array<byte>, at: nat) returns (s: nat, d: nat)
    requires from + 3 <= |src| && at + 2 <= dest.Length
    modifies dest
    ensures s == from + 3 && d == at + 2
    ensures dest[..] == Splice(old(dest[..]), at, 2, Reformat(F24To16, Slice(src, from, 3)))
  {
    ghost var was, p := dest[..], src[from..from + 3];
    IsSlice(src, from, 3);
    s, d := from, at;
    var channel: int := src[s];
    var shortPixel := channel / 8 * 8 * 0x100;
    s := s + 1;
    channel := src[s];
    shortPixel := shortPixel + channel / 4 * 4 * 8;
    s := s + 1;
    shortPixel := shortPixel + src[s] / 8;
    s := s + 1;
    dest[d], dest[d + 1] := shortPixel % 0x100, shortPixel / 0x100;
    d := d + 2;
    assert Reformat(F24To16, p) == [dest[at], dest[at + 1]];
    IsSplice(was, dest[..], at, 2, [dest[at], dest[at + 1]]);
  }

  method ConvertPixel(f: Format, src: seq<byte>, from: nat, dest: array<byte>, at: nat) returns (s: nat, d: nat)
    requires from + SrcBytes(f) <= |src| && at + DestBytes(f) <= dest.Length
    modifies dest
    ensures s == from + SrcBytes(f) && d == at + DestBytes(f)
    ensures dest[..] == Splice(old(dest[..]), at, DestBytes(f), Reformat(f, Slice(src, from, SrcBytes(f))))
  {
    match f
    case F32To32 => s, d := Pixel32To32(src, from, dest, at);
    case F32To24 => s, d := Pixel32To24(src, from, dest, at);
    case F32To16 => s, d := Pixel32To16(src, from, dest, at);
    case F24To32 => s, d := Pixel24To32(src, from, dest, at);
    case F24To24 => s, d := Pixel24To24(src, from, dest, at);
    case F24To16 => s, d := Pixel24To16(src, from, dest, at);
  }

  /** The three fields taken out of a long pixel are the leading bits of its bytes. */
  lemma PackedWord(s: seq<byte>, at: nat)
    requires at + 4 <= |s|
    ensures Word(s, at) / 8 % 0x20 == s[at] / 8
    ensures Word(s, at) / 0x400 % 0x40 == s[at + 1] / 4
    ensures Word(s, at) / 0x8_0000 % 0x20 == s[at + 2] / 8
  {
    var p, q, r, a: int := s[at], s[at + 1], s[at + 2], s[at + 3];
    assert Word(s, at) / 8 == p / 8 + 0x20 * (q + 0x100 * r + 0x1_0000 * a);
    assert Word(s, at) / 0x400 == q / 4 + 0x40 * (r + 0x100 * a);
    assert Word(s, at) / 0x8_0000 == r / 8 + 0x20 * a;
  }

  /** One more pixel of a line, in terms of its place in the two buffers. */
  lemma ConvertStep(f: Format, src: seq<byte>, srcLineWidth: int, destLineWidth: int, m: seq<byte>, r: int, c: nat)
    ensures PutRow(m, DestGrid(f, destLineWidth), ConvertCell(f, src, srcLineWidth), r, c + 1)
         == Splice(PutRow(m, DestGrid(f, destLineWidth), ConvertCell(f, src, srcLineWidth), r, c),
                   Off(DestGrid(f, destLineWidth), r, c), DestBytes(f),
                   Reformat(f, Slice(src, Off(SrcGrid(f, srcLineWidth), r, c), SrcBytes(f))))
  {
  }

  /** What the destination holds after each number of columns; a proof that needs to know says `Reached`. */
  type LineStates = int -> seq<byte>

  function StatesOf(was: seq<byte>, f: Format, src: seq<byte>, srcLineWidth: int, destLineWidth: int,
                    row: int): LineStates {
    n => PutRow(was, DestGrid(f, destLineWidth), ConvertCell(f, src, srcLineWidth), row, ToNat(n))
  }

  ghost predicate AreStates(states: LineStates, was: seq<byte>, f: Format, src: seq<byte>, srcLineWidth: int,
                            destLineWidth: int, row: int) {
    forall n {:trigger Reached(n)} :: Reached(n) ==> states(n) == StatesOf(was, f, src, srcLineWidth, destLineWidth,
                                                                           row)(n)
  }

  predicate Reached(n: int) {
    n >= 0
  }

  /** One turn of the inner loop. */
  method ConvertColumn(f: Format, src: seq<byte>, width: int, srcLineWidth: int, row: nat, col: nat, from: int,
                       dest: array<byte>, destLineWidth: int, at: int, ghost states: LineStates, ghost was: seq<byte>)
    returns (s: int, d: int)
    requires AreStates(states, was, f, src, srcLineWidth, destLineWidth, row) && col < width
    requires from == Off(SrcGrid(f, srcLineWidth), row, col) && at == Off(DestGrid(f, destLineWidth), row, col)
    requires Fits(SrcGrid(f, srcLineWidth), row + 1, width, |src|)
    requires Fits(DestGrid(f, destLineWidth), row + 1, width, dest.Length)
    requires dest[..] == states(col)
    modifies dest
    ensures s == Off(SrcGrid(f, srcLineWidth), row, col + 1) && d == Off(DestGrid(f, destLineWidth), row, col + 1)
    ensures dest[..] == states(col + 1)
  {
    assert Reached(col) && Reached(col + 1);
    OffNext(SrcGrid(f, srcLineWidth), row, col);
    OffNext(DestGrid(f, destLineWidth), row, col);
    ConvertStep(f, src, srcLineWidth, destLineWidth, was, row, col);
    s, d := ConvertPixel(f, src, from, dest, at);
  }

  /** The inner loop: one line, from its first byte in either buffer. */
  method ConvertColumns(f: Format, src: seq<byte>, width: int, srcLineWidth: int, row: nat, srcPtr: int,
                        dest: array<byte>, destLineWidth: int, destPtr: int, ghost states: LineStates,
                        ghost was: seq<byte>)
    requires AreStates(states, was, f, src, srcLineWidth, destLineWidth, row) && dest[..] == states(0)
    requires srcPtr == Off(SrcGrid(f, srcLineWidth), row, 0) && destPtr == Off(DestGrid(f, destLineWidth), row, 0)
    requires Fits(SrcGrid(f, srcLineWidth), row + 1, width, |src|)
    requires Fits(DestGrid(f, destLineWidth), row + 1, width, dest.Length)
    modifies dest
    ensures dest[..] == states(ToNat(width))
  {
    var s, d, col := srcPtr, destPtr, 0;
    while col < width
      invariant 0 <= col <= ToNat(width)
      invariant s == Off(SrcGrid(f, srcLineWidth), row, col) && d == Off(DestGrid(f, destLineWidth), row, col)
      invariant dest[..] == states(col)
    {
      s, d := ConvertColumn(f, src, width, srcLineWidth, row, col, s, dest, destLineWidth, d, states, was);
      col := col + 1;
    }
  }

  /** The line is converted. */
  method ConvertLine(f: Format, src: seq<byte>, width: int, srcLineWidth: int, row: nat, srcPtr: int,
                     dest: array<byte>, destLineWidth: int, destPtr: int)
    requires srcPtr == Off(SrcGrid(f, srcLineWidth), row, 0) && destPtr == Off(DestGrid(f, destLineWidth), row, 0)
    requires Fits(SrcGrid(f, srcLineWidth), row + 1, width, |src|)
    requires Fits(DestGrid(f, destLineWidth), row + 1, width, dest.Length)
    modifies dest
    ensures dest[..]
         == PutRow(old(dest[..]), DestGrid(f, destLineWidth), ConvertCell(f, src, srcLineWidth), row, ToNat(width))
  {
    ghost var was := dest[..];
    ghost var states := StatesOf(was, f, src, srcLineWidth, destLineWidth, row);
    assert states(0) == was;
    ConvertColumns(f, src, width, srcLineWidth, row, srcPtr, dest, destLineWidth, destPtr, states, was);
  }

  /** The six copy routines; they differ in the pixel step and in the bytes to a pixel. */
  method CopyPixMap(f: Format, src: seq<byte>, width: int, height: int, srcLineWidth: int,
                    dest: array<byte>, destLineWidth: int)
    requires Fits(SrcGrid(f, srcLineWidth), height, width, |src|)
    requires Fits(DestGrid(f, destLineWidth), height, width, dest.Length)
    modifies dest
    ensures dest[..] == Convert(f, src, width, height, srcLineWidth, old(dest[..]), destLineWidth)
  {
    ghost var dg, cell := DestGrid(f, destLineWidth), ConvertCell(f, src, srcLineWidth);
    ghost var was := dest[..];
    var srcIncrement := Product(srcLineWidth, SrcBytes(f));
    var destIncrement := Product(destLineWidth, DestBytes(f));
    OffOrigin(SrcGrid(f, srcLineWidth));
    OffOrigin(dg);
    var srcPtr, destPtr, row := 0, 0, 0;
    while row < height
      invariant 0 <= row <= ToNat(height)
      invariant srcPtr == Off(SrcGrid(f, srcLineWidth), row, 0) && destPtr == Off(dg, row, 0)
      invariant dest[..] == PutRows(was, dg, cell, row, ToNat(width))
    {
      ConvertLine(f, src, width, srcLineWidth, row, srcPtr, dest, destLineWidth, destPtr);
      OffNext(SrcGrid(f, srcLineWidth), row, 0);
      OffNext(dg, row, 0);
      srcPtr, destPtr, row := srcPtr + srcIncrement, destPtr + destIncrement, row + 1;
    }
  }

  // ----- what a conversion does to a buffer

  /** Each active pixel of the destination is the reformatted source pixel of the same row and column. */
  lemma ConvertedPixel(f: Format, src: seq<byte>, width: int, height: int, srcLineWidth: int,
                       dest: seq<byte>, destLineWidth: int, r: nat, c: nat)
    requires r < height && c < width <= destLineWidth
    requires Fits(DestGrid(f, destLineWidth), height, width, |dest|)
    ensures Slice(Convert(f, src, width, height, srcLineWidth, dest, destLineWidth),
                  Off(DestGrid(f, destLineWidth), r, c), DestBytes(f))
         == Converted(f, src, srcLineWidth, r, c)
  {
    RowsSlice(dest, DestGrid(f, destLineWidth), ConvertCell(f, src, srcLineWidth), height, width, r, c);
  }

  /** Bytes between the active ends of the lines, and beyond the last line, are never written. */
  lemma PaddingUntouched(f: Format, src: seq<byte>, width: int, height: int, srcLineWidth: int,
                         dest: seq<byte>, destLineWidth: int, i: nat)
    requires i < |dest|
    requires forall r :: 0 <= r < height ==>
               i < r * destLineWidth * DestBytes(f) || (r * destLineWidth + ToNat(width)) * DestBytes(f) <= i
    ensures Convert(f, src, width, height, srcLineWidth, dest, destLineWidth)[i] == dest[i]
  {
    var g := DestGrid(f, destLineWidth);
    forall r | 0 <= r < ToNat(height) ensures i < Off(g, r, 0) || Off(g, r, ToNat(width)) <= i {
      OffIs(g, r, 0);
      OffIs(g, r, ToNat(width));
      assert i < r * destLineWidth * DestBytes(f) || (r * destLineWidth + ToNat(width)) * DestBytes(f) <= i;
    }
    RowsFrame(dest, g, ConvertCell(f, src, srcLineWidth), ToNat(height), ToNat(width), i);
  }

  function Converted(f: Format, src: seq<byte>, srcLineWidth: int, r: int, c: int): seq<byte> {
    Reformat(f, Slice(src, Off(SrcGrid(f, srcLineWidth), r, c), SrcBytes(f)))
  }

  /** Conversions that make the same pixels fill a buffer alike. */
  lemma SameConversion(f: Format, src: seq<byte>, srcLineWidth: int, k: Format, from: seq<byte>, fromLineWidth: int,
                       width: int, height: int, dest: seq<byte>, destLineWidth: int)
    requires DestBytes(f) == DestBytes(k)
    requires forall r, c :: 0 <= r < height && 0 <= c < width ==>
               Converted(f, src, srcLineWidth, r, c) == Converted(k, from, fromLineWidth, r, c)
    ensures Convert(f, src, width, height, srcLineWidth, dest, destLineWidth)
         == Convert(k, from, width, height, fromLineWidth, dest, destLineWidth)
  {
    var a, b := ConvertCell(f, src, srcLineWidth), ConvertCell(k, from, fromLineWidth);
    forall r, c, px: seq<byte> | 0 <= r < ToNat(height) && 0 <= c < ToNat(width) && |px| == DestBytes(f)
      ensures a(r, c, px) == b(r, c, px)
    {
      assert a(r, c, px) == Converted(f, src, srcLineWidth, r, c);
      assert b(r, c, px) == Converted(k, from, fromLineWidth, r, c);
    }
    RowsCongruent(dest, DestGrid(f, destLineWidth), a, b, ToNat(height), ToNat(width));
  }

  /** Two conversions in a row, through a buffer of any line width, are one: pixel by pixel the composition. */
  lemma Compose(f: Format, g: Format, k: Format, src: seq<byte>, width: int, height: int, srcLineWidth: int,
                mid: seq<byte>, midLineWidth: int, dest: seq<byte>, destLineWidth: int)
    requires SrcBytes(g) == DestBytes(f) && SrcBytes(k) == SrcBytes(f) && DestBytes(k) == DestBytes(g)
    requires forall p :: |p| == SrcBytes(f) ==> Reformat(g, Reformat(f, p)) == Reformat(k, p)
    requires width <= midLineWidth && Fits(DestGrid(f, midLineWidth), height, width, |mid|)
    ensures Convert(g, Convert(f, src, width, height, srcLineWidth, mid, midLineWidth), width, height, midLineWidth,
                    dest, destLineWidth)
         == Convert(k, src, width, height, srcLineWidth, dest, destLineWidth)
  {
    var m := Convert(f, src, width, height, srcLineWidth, mid, midLineWidth);
    forall r, c | 0 <= r < height && 0 <= c < width
      ensures Converted(g, m, midLineWidth, r, c) == Converted(k, src, srcLineWidth, r, c)
    {
      ConvertedPixel(f, src, width, height, srcLineWidth, mid, midLineWidth, r, c);
      var p := Slice(src, Off(SrcGrid(f, srcLineWidth), r, c), SrcBytes(f));
      assert Reformat(g, Reformat(f, p)) == Reformat(k, p);
    }
    SameConversion(g, m, midLineWidth, k, src, srcLineWidth, width, height, dest, destLineWidth);
  }

  /** Going to 16 bits by way of 24 gives the same buffer as going there directly. */
  lemma Via24To16(src: seq<byte>, width: int, height: int, srcLineWidth: int,
                  mid: seq<byte>, midLineWidth: int, dest: seq<byte>, destLineWidth: int)
    requires width <= midLineWidth && Fits(DestGrid(F32To24, midLineWidth), height, width, |mid|)
    ensures Convert(F24To16, Convert(F32To24, src, width, height, srcLineWidth, mid, midLineWidth),
                    width, height, midLineWidth, dest, destLineWidth)
         == Convert(F32To16, src, width, height, srcLineWidth, dest, destLineWidth)
  {
    Compose(F32To24, F24To16, F32To16, src, width, height, srcLineWidth, mid, midLineWidth, dest, destLineWidth);
  }

  /** To 32 bits and back to 24 turns the channel order of every pixel round. */
  lemma ThereAndBackReverses(src: seq<byte>, width: int, height: int, srcLineWidth: int,
                             mid: seq<byte>, midLineWidth: int, dest: seq<byte>, destLineWidth: int, r: nat, c: nat)
    requires r < height && c < width <= midLineWidth && width <= destLineWidth
    requires Fits(DestGrid(F24To32, midLineWidth), height, width, |mid|)
    requires Fits(DestGrid(F32To24, destLineWidth), height, width, |dest|)
    ensures var wide := Convert(F24To32, src, width, height, srcLineWidth, mid, midLineWidth);
            var back := Convert(F32To24, wide, width, height, midLineWidth, dest, destLineWidth);
            var p := Slice(src, Off(SrcGrid(F24To32, srcLineWidth), r, c), 3);
            Slice(back, Off(DestGrid(F32To24, destLineWidth), r, c), 3) == [p[2], p[1], p[0]]
  {
    var wide := Convert(F24To32, src, width, height, srcLineWidth, mid, midLineWidth);
    ConvertedPixel(F24To32, src, width, height, srcLineWidth, mid, midLineWidth, r, c);
    ConvertedPixel(F32To24, wide, width, height, midLineWidth, dest, destLineWidth, r, c);
  }

  /** Going there and back twice is a plain copy of the image. */
  lemma TwiceThereAndBackCopies(src: seq<byte>, width: int, height: int, srcLineWidth: int,
                                mid: seq<byte>, midLineWidth: int, half: seq<byte>, halfLineWidth: int,
                                dest: seq<byte>, destLineWidth: int)
    requires width <= midLineWidth && Fits(DestGrid(F24To32, midLineWidth), height, width, |mid|)
    requires width <= halfLineWidth && Fits(DestGrid(F32To24, halfLineWidth), height, width, |half|)
    ensures var wide := Convert(F24To32, src, width, height, srcLineWidth, mid, midLineWidth);
            var back := Convert(F32To24, wide, width, height, midLineWidth, half, halfLineWidth);
            var again := Convert(F24To32, back, width, height, halfLineWidth, mid, midLineWidth);
            && Convert(F32To24, again, width, height, midLineWidth, dest, destLineWidth)
            == Convert(F24To24, src, width, height, srcLineWidth, dest, destLineWidth)
  {
    var wide := Convert(F24To32, src, width, height, srcLineWidth, mid, midLineWidth);
    var back := Convert(F32To24, wide, width, height, midLineWidth, half, halfLineWidth);
    var again := Convert(F24To32, back, width, height, halfLineWidth, mid, midLineWidth);
    forall r, c | 0 <= r < height && 0 <= c < width
      ensures Converted(F32To24, again, midLineWidth, r, c) == Converted(F24To24, src, srcLineWidth, r, c)
    {
      ThereAndBackReverses(src, width, height, srcLineWidth, mid, midLineWidth, half, halfLineWidth, r, c);
      ConvertedPixel(F24To32, back, width, height, halfLineWidth, mid, midLineWidth, r, c);
      var p := Slice(src, Off(SrcGrid(F24To24, srcLineWidth), r, c), 3);
      assert Slice(back, Off(SrcGrid(F24To32, halfLineWidth), r, c), 3) == [p[2], p[1], p[0]];
      assert Slice(again, Off(SrcGrid(F32To24, midLineWidth), r, c), 4) == [p[0], p[1], p[2], 0xff];
      assert p == [p[0], p[1], p[2]];
    }
    SameConversion(F32To24, again, midLineWidth, F24To24, src, srcLineWidth, width, height, dest, destLineWidth);
  }

  // ----- loading an image

  /** An image as GIMP exports it: three bytes to a pixel for RGB, four for RGBA. */
  datatype GimpImage = GimpImage(width: nat, height: nat, bytesPerPixel: nat, pixels: seq<byte>)

  class Bitmap {
    var biWidth: int
    var biHeight: int
    var biBitCount: int
    var data: array<byte>

    constructor ()
    {
      data := new byte[0];
    }
  }

  ghost predicate ValidImage(image: GimpImage) {
    |image.pixels| >= image.width * image.height * image.bytesPerPixel
  }

  /** The copy routine for an output depth and an image, if there is one. */
  function FormatFor(bits: int, bytesPerPixel: int): Option<Format> {
    match (bits, bytesPerPixel)
    case (16, 4) => Some(F32To16)
    case (16, 3) => Some(F24To16)
    case (24, 4) => Some(F32To24)
    case (24, 3) => Some(F24To24)
    case (32, 4) => Some(F32To32)
    case (32, 3) => Some(F24To32)
    case _ => None
  }

  /** Every pixel of the bitmap is the image's, in format `f`. */
  ghost predicate Loaded(f: Format, image: GimpImage, bmp: Bitmap)
    reads bmp, bmp.data
  {
    forall r, c :: 0 <= r < bmp.biHeight && 0 <= c < bmp.biWidth ==>
      Slice(bmp.data[..], Off(DestGrid(f, bmp.biWidth), r, c), DestBytes(f))
      == Reformat(f, Slice(image.pixels, Off(SrcGrid(f, bmp.biWidth), r, c), SrcBytes(f)))
  }

  /** The image pixel whose first byte is `src[from]` is at `data[to]`, as a pixel of `bits` bits. */
  ghost predicate PixelHeld(bits: int, bytesPerPixel: int, src: seq<byte>, from: int, data: seq<byte>, to: int) {
    && 0 <= from && from + bytesPerPixel <= |src| && 0 <= to && to + bits / 8 <= |data|
    && (bits == 32 && bytesPerPixel == 4 ==> data[to..to + 4] == src[from..from + 4])
    && (bits == 32 && bytesPerPixel == 3 ==> data[to..to + 4] == [src[from + 2], src[from + 1], src[from], 0xff])
    && (bits == 24 && bytesPerPixel >= 3 ==> data[to..to + 3] == src[from..from + 3])
    && (bits == 16 && bytesPerPixel >= 3 ==>
          var low: int, high: int, red: int, green: int, blue: int :=
            data[to], data[to + 1], src[from], src[from + 1], src[from + 2];
          low + 0x100 * high == red / 8 * 0x800 + green / 4 * 0x20 + blue / 8)
  }

  /** Pixel (r, c) of an image is at its place in a buffer, the lines being so many pixels long. */
  ghost predicate HeldAt(bits: int, bytesPerPixel: int, src: seq<byte>, srcLineWidth: int, data: seq<byte>,
                         lineWidth: int, r: int, c: int) {
    PixelHeld(bits, bytesPerPixel, src, (r * srcLineWidth + c) * bytesPerPixel,
              data, (r * lineWidth + c) * (bits / 8))
  }

  lemma HeldIs(f: Format, bits: int, bytesPerPixel: int, src: seq<byte>, from: nat, data: seq<byte>, to: nat)
    requires FormatFor(bits, bytesPerPixel) == Some(f)
    requires from + SrcBytes(f) <= |src| && to + DestBytes(f) <= |data|
    requires Slice(data, to, DestBytes(f)) == Reformat(f, Slice(src, from, SrcBytes(f)))
    ensures PixelHeld(bits, bytesPerPixel, src, from, data, to)
  {
    IsSlice(src, from, SrcBytes(f));
    IsSlice(data, to, DestBytes(f));
    var p, q := src[from..from + SrcBytes(f)], data[to..to + DestBytes(f)];
    assert p[0] == src[from] && p[1] == src[from + 1] && p[2] == src[from + 2];
    assert q[0] == data[to] && q[1] == data[to + 1];
  }

  lemma HeldAtPlace(f: Format, bits: int, bytesPerPixel: int, src: seq<byte>, srcLineWidth: int, data: seq<byte>,
                    lineWidth: int, r: int, c: int)
    requires FormatFor(bits, bytesPerPixel) == Some(f)
    requires 0 <= Off(SrcGrid(f, srcLineWidth), r, c)
    requires Off(SrcGrid(f, srcLineWidth), r, c) + SrcBytes(f) <= |src|
    requires 0 <= Off(DestGrid(f, lineWidth), r, c)
    requires Off(DestGrid(f, lineWidth), r, c) + DestBytes(f) <= |data|
    requires Slice(data, Off(DestGrid(f, lineWidth), r, c), DestBytes(f)) == Converted(f, src, srcLineWidth, r, c)
    ensures HeldAt(bits, bytesPerPixel, src, srcLineWidth, data, lineWidth, r, c)
  {
    OffIs(SrcGrid(f, srcLineWidth), r, c);
    OffIs(DestGrid(f, lineWidth), r, c);
    HeldIs(f, bits, bytesPerPixel, src, Off(SrcGrid(f, srcLineWidth), r, c), data, Off(DestGrid(f, lineWidth), r, c));
  }

  /** In bytes: what a copy routine leaves at the place of each active pixel, whatever the lines' lengths. */
  lemma ConvertedBytes(f: Format, bits: int, bytesPerPixel: int, src: seq<byte>, width: int, height: int,
                       srcLineWidth: int, dest: seq<byte>, destLineWidth: int, r: nat, c: nat)
    requires FormatFor(bits, bytesPerPixel) == Some(f) && r < height && c < width <= destLineWidth
    requires Fits(SrcGrid(f, srcLineWidth), height, width, |src|)
    requires Fits(DestGrid(f, destLineWidth), height, width, |dest|)
    ensures HeldAt(bits, bytesPerPixel, src, srcLineWidth,
                   Convert(f, src, width, height, srcLineWidth, dest, destLineWidth), destLineWidth, r, c)
  {
    ConvertedPixel(f, src, width, height, srcLineWidth, dest, destLineWidth, r, c);
    HeldAtPlace(f, bits, bytesPerPixel, src, srcLineWidth,
                Convert(f, src, width, height, srcLineWidth, dest, destLineWidth), destLineWidth, r, c);
  }

  lemma ConvertedImage(f: Format, bits: int, bytesPerPixel: int, src: seq<byte>, width: int, height: int,
                       dest: seq<byte>)
    requires FormatFor(bits, bytesPerPixel) == Some(f)
    requires Fits(SrcGrid(f, width), height, width, |src|) && Fits(DestGrid(f, width), height, width, |dest|)
    ensures forall r, c :: 0 <= r < height && 0 <= c < width ==>
              HeldAt(bits, bytesPerPixel, src, width, Convert(f, src, width, height, width, dest, width), width, r, c)
  {
    forall r, c | 0 <= r < height && 0 <= c < width
      ensures HeldAt(bits, bytesPerPixel, src, width, Convert(f, src, width, height, width, dest, width), width, r, c)
    {
      ConvertedBytes(f, bits, bytesPerPixel, src, width, height, width, dest, width, r, c);
    }
  }

  /** The pairs of an output depth and an image format that there is a copy routine for. */
  predicate Supported(bits: int, bytesPerPixel: int) {
    (bits == 16 || bits == 24 || bits == 32) && (bytesPerPixel == 3 || bytesPerPixel == 4)
  }

  /**
   A tightly packed image of `width` by `height` pixels holds one of no larger size, the dimensions
   cut to a short.
   */
  lemma TightFits(width: nat, height: nat, bpp: nat, len: nat)
    requires width * height * bpp <= len
    ensures Fits(Grid(0, ToShort(width), bpp, 0, 0), ToShort(height), ToShort(width), len)
  {
    var w, h := ToShort(width), ToShort(height);
    forall r, c | 0 <= r < h && 0 <= c < w
      ensures 0 <= Off(Grid(0, w, bpp, 0, 0), r, c) && Off(Grid(0, w, bpp, 0, 0), r, c) + bpp <= len
    {
      OffIs(Grid(0, w, bpp, 0, 0), r, c);
      LineBound(r, c, h, w);
      MulMonotone(0, r, w);
      MulMonotone(h, height, w);
      MulMonotone(w, width, height);
      MulMonotone(0, r * w + c, bpp);
      MulAdd(r * w + c, 1, bpp);
      MulMonotone(r * w + c + 1, width * height, bpp);
    }
  }

  /** Runs the copy routine for an image into a buffer of the image's size. */
  method ConvertInto(f: Format, bits: nat, image: GimpImage, w: int, h: int, data: array<byte>)
    requires FormatFor(bits, image.bytesPerPixel) == Some(f) && ValidImage(image)
    requires w == ToShort(image.width) && h == ToShort(image.height)
    requires data.Length == image.width * image.height * DestBytes(f)
    modifies data
    ensures forall r, c :: 0 <= r < h && 0 <= c < w ==>
              Slice(data[..], Off(DestGrid(f, w), r, c), DestBytes(f)) == Converted(f, image.pixels, w, r, c)
    ensures forall r, c :: 0 <= r < h && 0 <= c < w ==>
              HeldAt(bits, image.bytesPerPixel, image.pixels, w, data[..], w, r, c)
  {
    TightFits(image.width, image.height, SrcBytes(f), |image.pixels|);
    TightFits(image.width, image.height, DestBytes(f), data.Length);
    ghost var was := data[..];
    CopyPixMap(f, image.pixels, w, h, w, data, w);
    forall r, c | 0 <= r < h && 0 <= c < w
      ensures Slice(data[..], Off(DestGrid(f, w), r, c), DestBytes(f)) == Converted(f, image.pixels, w, r, c)
    {
      ConvertedPixel(f, image.pixels, w, h, w, was, w, r, c);
    }
    ConvertedImage(f, bits, image.bytesPerPixel, image.pixels, w, h, was);
  }

  method LoadGimpBmp(image: GimpImage, bmp: Bitmap, bits: nat) returns (code: int)
    requires ValidImage(image)
    modifies bmp
    ensures code == 0
    ensures bmp.biWidth == ToShort(image.width) && bmp.biHeight == ToShort(image.height) && bmp.biBitCount == bits
    ensures IsShort(bmp.biWidth, image.width) && IsShort(bmp.biHeight, image.height)
    ensures image.width < 0x8000 && image.height < 0x8000 ==>
              bmp.biWidth == image.width && bmp.biHeight == image.height
    ensures Supported(bits, image.bytesPerPixel) ==>
              forall r, c :: 0 <= r < bmp.biHeight && 0 <= c < bmp.biWidth ==>
                HeldAt(bits, image.bytesPerPixel, image.pixels, bmp.biWidth, bmp.data[..], bmp.biWidth, r, c)
    ensures fresh(bmp.data) && bmp.data.Length == image.width * image.height * (bits / 8)
    ensures FormatFor(bits, image.bytesPerPixel).Some?
        ==> Loaded(FormatFor(bits, image.bytesPerPixel).value, image, bmp)
  {
    var bytes := bits / 8;
    var numPixels := image.width * image.height;
    bmp.biWidth, bmp.biHeight, bmp.biBitCount := ToShort(image.width), ToShort(image.height), bits;
    bmp.data := new byte[numPixels * bytes];
    var w, h := bmp.biWidth, bmp.biHeight;
    ShortIs(image.width);
    ShortIs(image.height);
    var format := FormatFor(bits, image.bytesPerPixel);
    if format.Some? {
      ConvertInto(format.value, bits, image, w, h, bmp.data);
    }
    code := 0;
  }
}
