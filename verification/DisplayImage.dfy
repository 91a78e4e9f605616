/** The image drawing calls of `graphic_lib/draw_gimps.c`, from the exported image to the frame on the screen. */
module DisplayImage {
  import opened Arithmetic
  import opened Bytes
  import opened DrawGimps
  import opened FrameReader
  import opened GimpBmp
  import opened Painter
  import opened Raster

  /** The bytes of one pixel of an exported image. */
  function ImagePixel(image: GimpImage, r: int, c: int): (p: seq<byte>)
    ensures |p| == image.bytesPerPixel
  {
    Slice(image.pixels, Off(Grid(0, ToShort(image.width), image.bytesPerPixel, 0, 0), r, c), image.bytesPerPixel)
  }

  /** A colour 0x00RRGGBB. */
  function Rgb(red: int, green: int, blue: int): int {
    red * 0x1_0000 + green * 0x100 + blue
  }

  /** The colour an image pixel is drawn in.  RGB pixels keep their colour; RGBA ones have red and blue exchanged. */
  function ImageColour(image: GimpImage, r: int, c: int): int
    requires image.bytesPerPixel == 3 || image.bytesPerPixel == 4
  {
    var p := ImagePixel(image, r, c);
    if image.bytesPerPixel == 3 then Rgb(p[0], p[1], p[2]) else Rgb(p[2], p[1], p[0])
  }

  /** The bytes of the word 0x00RRGGBB that such a pixel is drawn as. */
  function ImageBytes(image: GimpImage, r: int, c: int): (q: seq<byte>)
    requires image.bytesPerPixel == 3 || image.bytesPerPixel == 4
    ensures |q| == 4
  {
    var p := ImagePixel(image, r, c);
    if image.bytesPerPixel == 3 then [p[2], p[1], p[0], 0] else [p[0], p[1], p[2], 0]
  }

  lemma ImageBytesAreTheColour(image: GimpImage, r: int, c: int)
    requires image.bytesPerPixel == 3 || image.bytesPerPixel == 4
    ensures Word(ImageBytes(image, r, c), 0) == ImageColour(image, r, c)
  {
  }

  function ImageCell(image: GimpImage, key: Option<seq<byte>>): CellFn
    requires image.bytesPerPixel == 3 || image.bytesPerPixel == 4
  {
    KeyedCell(Skip(image, key), PixelBytes(image))
  }

  function Skip(image: GimpImage, key: Option<seq<byte>>): (int, int) -> bool
    requires image.bytesPerPixel == 3 || image.bytesPerPixel == 4
  {
    (r, c) => Keyed(image, key, r, c)
  }

  function PixelBytes(image: GimpImage): (int, int) -> seq<byte>
    requires image.bytesPerPixel == 3 || image.bytesPerPixel == 4
  {
    (r, c) => ImageBytes(image, r, c)
  }

  /** The image pixel is drawn as the word that is not to be drawn. */
  predicate Keyed(image: GimpImage, key: Option<seq<byte>>, r: int, c: int)
    requires image.bytesPerPixel == 3 || image.bytesPerPixel == 4
  {
    key == Some(ImageBytes(image, r, c))
  }

  /** The frame on the screen, as 32-bit pixels. */
  function Screen32(d: Driver): Surface {
    Surface(ShownBase(d), ToNat(d.width), ToNat(d.height), 4)
  }

  function ImageStamp(image: GimpImage, x: int, y: int, key: seq<byte>): Stamp
    requires image.bytesPerPixel == 3 || image.bytesPerPixel == 4
  {
    Stamp(x, y, ToNat(ToShort(image.height)), ToNat(ToShort(image.width)), ImageCell(image, Some(key)))
  }

  /** Bitmap pixels loaded from an image have the image's colours. */
  lemma LoadedColour(image: GimpImage, bmp: Bitmap, f: Format, r: int, c: int)
    requires FormatFor(32, image.bytesPerPixel) == Some(f) && Loaded(f, image, bmp)
    requires bmp.biWidth == ToShort(image.width)
    requires 0 <= r < bmp.biHeight && 0 <= c < bmp.biWidth
    ensures BitmapPixel(bmp.data[..], bmp.biWidth, r, c) == Converted(f, image.pixels, bmp.biWidth, r, c)
    ensures Colour(BitmapPixel(bmp.data[..], bmp.biWidth, r, c)) == ImageColour(image, r, c)
    ensures Opaque(BitmapPixel(bmp.data[..], bmp.biWidth, r, c)) == ImageBytes(image, r, c)
  {
    assert DestGrid(f, bmp.biWidth) == Grid(0, bmp.biWidth, 4, 0, 0);
    assert SrcGrid(f, bmp.biWidth) == Grid(0, bmp.biWidth, image.bytesPerPixel, 0, 0);
  }

  lemma BlitOfImage(mem: seq<byte>, image: GimpImage, bmp: Bitmap, f: Format, g: Grid, rows: nat, cols: nat,
                    key: Option<seq<byte>>)
    requires FormatFor(32, image.bytesPerPixel) == Some(f) && Loaded(f, image, bmp)
    requires bmp.biWidth == ToShort(image.width)
    requires rows <= ToNat(bmp.biHeight) && cols <= ToNat(bmp.biWidth) && g.bpp == 4
    ensures PutRows(mem, g, BlitCell(bmp.data[..], bmp.biWidth, bmp.biWidth, bmp.biHeight, key), rows, cols)
         == PutRows(mem, g, ImageCell(image, key), rows, cols)
  {
    var a, b := BlitCell(bmp.data[..], bmp.biWidth, bmp.biWidth, bmp.biHeight, key), ImageCell(image, key);
    forall r, c, px: seq<byte> | 0 <= r < rows && 0 <= c < cols && |px| == 4 ensures a(r, c, px) == b(r, c, px) {
      LoadedColour(image, bmp, f, r, c);
    }
    RowsCongruent(mem, g, a, b, rows, cols);
  }

  lemma CopyOfImage(mem: seq<byte>, image: GimpImage, bmp: Bitmap, f: Format, g: Grid, rows: nat, cols: nat)
    requires FormatFor(32, image.bytesPerPixel) == Some(f) && Loaded(f, image, bmp)
    requires bmp.biWidth == ToShort(image.width)
    requires rows <= ToNat(bmp.biHeight) && cols <= ToNat(bmp.biWidth) && g.bpp == 4
    ensures PutRows(mem, g, CopyCell(bmp.data[..], bmp.biWidth), rows, cols)
         == PutRows(mem, g, ConvertCell(f, image.pixels, bmp.biWidth), rows, cols)
  {
    var a, b := CopyCell(bmp.data[..], bmp.biWidth), ConvertCell(f, image.pixels, bmp.biWidth);
    forall r, c, px: seq<byte> | 0 <= r < rows && 0 <= c < cols && |px| == 4 ensures a(r, c, px) == b(r, c, px) {
      LoadedColour(image, bmp, f, r, c);
    }
    RowsCongruent(mem, g, a, b, rows, cols);
  }

  /** An RGB or RGBA image whose dimensions fit a short. */
  predicate Ordinary(image: GimpImage) {
    (image.bytesPerPixel == 3 || image.bytesPerPixel == 4) && image.width < 0x8000 && image.height < 0x8000
  }

  // ----- in bytes

  /**
   The image pixel whose first byte is `pixels[from]` is at `now[at]` as the bytes of the word 0x00RRGGBB,
   unless it has the transparent colour and what was there is there still.  An RGBA pixel is drawn with
   red and blue exchanged.
   */
  ghost predicate PixelDrawn(was: seq<byte>, now: seq<byte>, at: int, pixels: seq<byte>, from: int, bytesPerPixel: int,
                             transparent: Option<int>) {
    && 0 <= at && at + 4 <= |was| == |now| && 3 <= bytesPerPixel && 0 <= from && from + bytesPerPixel <= |pixels|
    && var red: int, green: int, blue: int :=
         pixels[if bytesPerPixel == 3 then from else from + 2], pixels[from + 1],
         pixels[if bytesPerPixel == 3 then from + 2 else from];
       var color := red * 0x1_0000 + green * 0x100 + blue;
       if transparent.Some? && (color - transparent.value) % 0x1_0000_0000 == 0
       then now[at..at + 4] == was[at..at + 4]
       else now[at..at + 4] == [blue, green, red, 0]
  }

  /** Image pixel (r, c) is drawn on line y + r and in column x + c of a frame. */
  ghost predicate DrawnAt(was: seq<byte>, now: seq<byte>, base: int, lineWidth: int, image: GimpImage, x: int, y: int,
                          transparent: Option<int>, r: int, c: int) {
    PixelDrawn(was, now, base + ((y + r) * lineWidth + x + c) * 4, image.pixels,
               (r * image.width + c) * image.bytesPerPixel, image.bytesPerPixel, transparent)
  }

  /** The first `rows` lines and `cols` columns of the image are drawn. */
  ghost predicate ImageDrawn(was: seq<byte>, now: seq<byte>, base: int, lineWidth: int, image: GimpImage, x: int,
                             y: int, rows: int, cols: int, transparent: Option<int>) {
    forall r, c :: 0 <= r < rows && 0 <= c < cols ==>
      DrawnAt(was, now, base, lineWidth, image, x, y, transparent, r, c)
  }

  /** Byte `i` is not among `cols` words from column x of line y + r on. */
  predicate ClearOfLine(i: int, base: int, lineWidth: int, x: int, y: int, r: int, cols: int) {
    i < base + ((y + r) * lineWidth + x) * 4 || base + ((y + r) * lineWidth + x + cols) * 4 <= i
  }

  /** Memory off a rectangle of a frame is as it was. */
  ghost predicate OthersKept(was: seq<byte>, now: seq<byte>, base: int, lineWidth: int, x: int, y: int, rows: int,
                             cols: int) {
    && |was| == |now|
    && forall i :: 0 <= i < |was| && (forall r :: 0 <= r < rows ==> ClearOfLine(i, base, lineWidth, x, y, r, cols)) ==>
         now[i] == was[i]
  }

  lemma RgbBytes(red: byte, green: byte, blue: byte)
    ensures LittleEndian(red * 0x1_0000 + green * 0x100 + blue as int) == [blue, green, red, 0]
  {
    ThreeBytes(red, green, blue);
  }

  /** The bytes of a word are the transparent ones exactly if the values agree, as 32-bit values. */
  lemma TransparentBytes(red: byte, green: byte, blue: byte, transparent: int)
    ensures LittleEndian(transparent) == [blue, green, red, 0]
       <==> (red * 0x1_0000 + green * 0x100 + blue as int - transparent) % 0x1_0000_0000 == 0
  {
    var color: int := red * 0x1_0000 + green * 0x100 + blue as int;
    RgbBytes(red, green, blue);
    SameBytesSameValue(color, transparent);
    SameU32(color, transparent);
  }

  lemma ImagePixelIs(image: GimpImage, r: int, c: int)
    requires image.width < 0x8000 && ValidImage(image) && 0 <= r < image.height && 0 <= c < image.width
    ensures var from := (r * image.width + c) * image.bytesPerPixel;
            && 0 <= from && from + image.bytesPerPixel <= |image.pixels|
            && ImagePixel(image, r, c) == image.pixels[from..from + image.bytesPerPixel]
  {
    var from := (r * image.width + c) * image.bytesPerPixel;
    ShortIs(image.width);
    OffIs(Grid(0, image.width, image.bytesPerPixel, 0, 0), r, c);
    LineBound(r, c, image.height, image.width);
    MulMonotone(0, r, image.width);
    MulMonotone(0, r * image.width + c, image.bytesPerPixel);
    MulAdd(r * image.width + c, 1, image.bytesPerPixel);
    MulMonotone(r * image.width + c + 1, image.height * image.width, image.bytesPerPixel);
    IsSlice(image.pixels, from, image.bytesPerPixel);
  }

  /** What the image's cell makes of the four bytes at a place, in bytes. */
  lemma CellDrawn(was: seq<byte>, now: seq<byte>, at: nat, image: GimpImage, r: int, c: int, transparent: Option<int>)
    requires image.bytesPerPixel == 3 || image.bytesPerPixel == 4
    requires image.width < 0x8000 && ValidImage(image) && 0 <= r < image.height && 0 <= c < image.width
    requires at + 4 <= |was| == |now|
    requires Slice(now, at, 4) == ImageCell(image, KeyBytes(transparent))(r, c, Slice(was, at, 4))
    ensures PixelDrawn(was, now, at, image.pixels, (r * image.width + c) * image.bytesPerPixel, image.bytesPerPixel,
                       transparent)
  {
    var from := (r * image.width + c) * image.bytesPerPixel;
    ImagePixelIs(image, r, c);
    IsSlice(was, at, 4);
    IsSlice(now, at, 4);
    var q := ImagePixel(image, r, c);
    assert q[0] == image.pixels[from] && q[1] == image.pixels[from + 1] && q[2] == image.pixels[from + 2];
    var red: byte := if image.bytesPerPixel == 3 then q[0] else q[2];
    var blue: byte := if image.bytesPerPixel == 3 then q[2] else q[0];
    assert ImageBytes(image, r, c) == [blue, q[1], red, 0];
    if transparent.Some? {
      TransparentBytes(red, q[1], blue, transparent.value);
    }
  }

  lemma PressedCell(mem: seq<byte>, base: int, lineWidth: int, image: GimpImage, x: int, y: int, rows: nat, cols: nat,
                    transparent: Option<int>, r: nat, c: nat)
    requires image.bytesPerPixel == 3 || image.bytesPerPixel == 4
    requires image.width < 0x8000 && ValidImage(image) && r < rows <= image.height && c < cols <= image.width
    requires cols <= lineWidth && Fits(Grid(base, lineWidth, 4, x, y), rows, cols, |mem|)
    ensures DrawnAt(mem,
                    PutRows(mem, Grid(base, lineWidth, 4, x, y), ImageCell(image, KeyBytes(transparent)), rows, cols),
                    base, lineWidth, image, x, y, transparent, r, c)
  {
    var g, f := Grid(base, lineWidth, 4, x, y), ImageCell(image, KeyBytes(transparent));
    CellPut(mem, g, image, KeyBytes(transparent), rows, cols, r, c);
    DrawnAtPlace(mem, PutRows(mem, g, f, rows, cols), base, lineWidth, image, x, y, transparent, r, c);
  }

  lemma DrawnAtPlace(was: seq<byte>, now: seq<byte>, base: int, lineWidth: int, image: GimpImage, x: int, y: int,
                     transparent: Option<int>, r: nat, c: nat)
    requires image.bytesPerPixel == 3 || image.bytesPerPixel == 4
    requires image.width < 0x8000 && ValidImage(image) && r < image.height && c < image.width && |was| == |now|
    requires 0 <= Off(Grid(base, lineWidth, 4, x, y), r, c) && Off(Grid(base, lineWidth, 4, x, y), r, c) + 4 <= |was|
    requires var at := Off(Grid(base, lineWidth, 4, x, y), r, c);
             Slice(now, at, 4) == ImageCell(image, KeyBytes(transparent))(r, c, Slice(was, at, 4))
    ensures DrawnAt(was, now, base, lineWidth, image, x, y, transparent, r, c)
  {
    CellDrawn(was, now, Off(Grid(base, lineWidth, 4, x, y), r, c), image, r, c, transparent);
  }

  lemma CellPut(mem: seq<byte>, g: Grid, image: GimpImage, key: Option<seq<byte>>, rows: nat, cols: nat, r: nat, c: nat)
    requires image.bytesPerPixel == 3 || image.bytesPerPixel == 4
    requires g.bpp == 4 && r < rows && c < cols <= g.stride && Fits(g, rows, cols, |mem|)
    ensures 0 <= Off(g, r, c) && Off(g, r, c) + 4 <= |mem|
    ensures Slice(PutRows(mem, g, ImageCell(image, key), rows, cols), Off(g, r, c), 4)
         == ImageCell(image, key)(r, c, Slice(mem, Off(g, r, c), 4))
  {
    assert |ImageCell(image, key)(r, c, Slice(mem, Off(g, r, c), 4))| == 4;
    RowsSlice(mem, g, ImageCell(image, key), rows, cols, r, c);
  }

  /** The rows of an image pressed on a frame, in bytes. */
  lemma PressedImage(mem: seq<byte>, base: int, lineWidth: int, image: GimpImage, x: int, y: int, rows: int, cols: int,
                     transparent: Option<int>)
    requires image.bytesPerPixel == 3 || image.bytesPerPixel == 4
    requires image.width < 0x8000 && ValidImage(image) && rows <= image.height && cols <= image.width
    requires cols <= lineWidth && Fits(Grid(base, lineWidth, 4, x, y), rows, cols, |mem|)
    ensures var now := PutRows(mem, Grid(base, lineWidth, 4, x, y), ImageCell(image, KeyBytes(transparent)),
                               ToNat(rows),
                               ToNat(cols));
            && ImageDrawn(mem, now, base, lineWidth, image, x, y, rows, cols, transparent)
            && OthersKept(mem, now, base, lineWidth, x, y, rows, ToNat(cols))
  {
    var g, f := Grid(base, lineWidth, 4, x, y), ImageCell(image, KeyBytes(transparent));
    var now := PutRows(mem, g, f, ToNat(rows), ToNat(cols));
    forall r, c | 0 <= r < rows && 0 <= c < cols
      ensures DrawnAt(mem, now, base, lineWidth, image, x, y, transparent, r, c)
    {
      PressedCell(mem, base, lineWidth, image, x, y, rows, cols, transparent, r, c);
    }
    PressedOthers(mem, base, lineWidth, x, y, f, ToNat(rows), ToNat(cols));
  }

  lemma PressedOthers(mem: seq<byte>, base: int, lineWidth: int, x: int, y: int, f: CellFn, rows: nat, cols: nat)
    ensures OthersKept(mem, PutRows(mem, Grid(base, lineWidth, 4, x, y), f, rows, cols), base, lineWidth, x, y, rows,
                       cols)
  {
    var g := Grid(base, lineWidth, 4, x, y);
    forall i | 0 <= i < |mem| && (forall r :: 0 <= r < rows ==> ClearOfLine(i, base, lineWidth, x, y, r, cols))
      ensures PutRows(mem, g, f, rows, cols)[i] == mem[i]
    {
      forall r | 0 <= r < rows ensures i < Off(g, r, 0) || Off(g, r, cols) <= i {
        assert ClearOfLine(i, base, lineWidth, x, y, r, cols);
      }
      RowsFrame(mem, g, f, rows, cols, i);
    }
  }

  /** Memory that the rows of a rectangle do not touch. */
  ghost predicate OffRows(g: Grid, rows: int, cols: nat, i: int) {
    forall r :: 0 <= r < rows ==> i < Off(g, r, 0) || Off(g, r, cols) <= i
  }

  ghost predicate UnchangedOff(was: seq<byte>, now: seq<byte>, g: Grid, rows: int, cols: nat) {
    |was| == |now| && forall i :: 0 <= i < |was| && OffRows(g, rows, cols, i) ==> now[i] == was[i]
  }

  lemma PutRowsUnchangedOff(mem: seq<byte>, g: Grid, f: CellFn, rows: nat, cols: nat)
    ensures UnchangedOff(mem, PutRows(mem, g, f, rows, cols), g, rows, cols)
  {
    forall i | 0 <= i < |mem| && OffRows(g, rows, cols, i) ensures PutRows(mem, g, f, rows, cols)[i] == mem[i] {
      RowsFrame(mem, g, f, rows, cols, i);
    }
  }

  lemma OrdinaryPressed(mem: seq<byte>, base: int, lineWidth: int, image: GimpImage, x: int, y: int, rows: nat,
                        cols: nat, transparent: Option<int>)
    requires Ordinary(image) && ValidImage(image) && rows <= image.height && cols <= image.width && cols <= lineWidth
    requires Fits(Grid(base, lineWidth, 4, x, y), rows, cols, |mem|)
    ensures ToShort(image.height) == image.height && ToShort(image.width) == image.width
    ensures var now := PutRows(mem, Grid(base, lineWidth, 4, x, y), ImageCell(image, KeyBytes(transparent)), rows,
                               cols);
            && ImageDrawn(mem, now, base, lineWidth, image, x, y, rows, cols, transparent)
            && OthersKept(mem, now, base, lineWidth, x, y, rows, cols)
  {
    ShortIs(image.height);
    ShortIs(image.width);
    PressedImage(mem, base, lineWidth, image, x, y, rows, cols, transparent);
  }

  lemma FitPressed(mem: seq<byte>, base: int, lineWidth: int, image: GimpImage, x: int, y: int, w: nat, h: nat,
                   len: nat)
    requires Ordinary(image) && ValidImage(image) && image.width <= lineWidth && len == |mem|
    requires BlitFits(Grid(base, lineWidth, 4, x, y), ToShort(image.height), ToShort(image.width), w, h, len)
    ensures ToNat(Min(ToShort(image.height), h + 1)) == if h + 1 < image.height then h + 1 else image.height
    ensures ToNat(Min(ToShort(image.width), w + 1)) == if w + 1 < image.width then w + 1 else image.width
    ensures var rows := if h + 1 < image.height then h + 1 else image.height;
            var cols := if w + 1 < image.width then w + 1 else image.width;
            var now := PutRows(mem, Grid(base, lineWidth, 4, x, y), ImageCell(image, None), rows, cols);
            && ImageDrawn(mem, now, base, lineWidth, image, x, y, rows, cols, None)
            && OthersKept(mem, now, base, lineWidth, x, y, rows, cols)
  {
    var rows := if h + 1 < image.height then h + 1 else image.height;
    var cols := if w + 1 < image.width then w + 1 else image.width;
    ShortIs(image.height);
    ShortIs(image.width);
    OrdinaryPressed(mem, base, lineWidth, image, x, y, rows, cols, None);
  }

  /** Makes a bitmap of an image, as the drawing calls do first. */
  method LoadImage(image: GimpImage) returns (bmp: Bitmap)
    requires ValidImage(image)
    ensures fresh(bmp) && fresh(bmp.data)
    ensures bmp.biWidth == ToShort(image.width) && bmp.biHeight == ToShort(image.height)
    ensures Fits(Grid(0, bmp.biWidth, 4, 0, 0), bmp.biHeight, bmp.biWidth, bmp.data.Length)
    ensures bmp.biHeight > 0 ==> ToShort(image.height) * ToShort(image.width) * 4 <= bmp.data.Length
    ensures FormatFor(32, image.bytesPerPixel).Some?
        ==> Loaded(FormatFor(32, image.bytesPerPixel).value, image, bmp)
  {
    bmp := new Bitmap();
    var _ := LoadGimpBmp(image, bmp, 32);
    BitmapFits(image.width, image.height, bmp.data.Length);
  }

  lemma BitmapFits(width: nat, height: nat, len: nat)
    requires width * height * 4 <= len
    ensures Fits(Grid(0, ToShort(width), 4, 0, 0), ToShort(height), ToShort(width), len)
    ensures ToShort(height) > 0 ==> ToShort(height) * ToShort(width) * 4 <= len
  {
    TightFits(width, height, 4, len);
    if ToShort(height) > 0 {
      MulMonotone(ToShort(width), width, ToShort(height));
      MulMonotone(ToShort(height), height, width);
    }
  }

  /** Makes a bitmap of the image and blits it, with a transparent colour. */
  method PressImage(ram: array<byte>, dest: int, destWidth: nat, image: GimpImage, x: int, y: int, transparent: int)
    requires ValidImage(image)
    requires Fits(Grid(dest, destWidth, 4, x, y), ToShort(image.height), ToShort(image.width), ram.Length)
    modifies ram
    ensures image.bytesPerPixel == 3 || image.bytesPerPixel == 4 ==>
              ram[..] == PutRows(old(ram[..]), Grid(dest, destWidth, 4, x, y),
                                 ImageCell(image, Some(LittleEndian(transparent))),
                                 ToNat(ToShort(image.height)), ToNat(ToShort(image.width)))
    ensures UnchangedOff(old(ram[..]), ram[..], Grid(dest, destWidth, 4, x, y), ToShort(image.height),
                         ToNat(ToShort(image.width)))
  {
    ghost var was := ram[..];
    var bmp := LoadImage(image);
    var w, h := bmp.biWidth, bmp.biHeight;
    ghost var g := Grid(dest, destWidth, 4, x, y);
    CopyImageToBuffer(ram, dest, bmp.data[..], destWidth, w, h, x, y, w, h, Some(transparent));
    PutRowsUnchangedOff(was, g, BlitCell(bmp.data[..], w, w, h, Some(LittleEndian(transparent))), ToNat(h), ToNat(w));
    if image.bytesPerPixel == 3 || image.bytesPerPixel == 4 {
      BlitOfImage(was, image, bmp, FormatFor(32, image.bytesPerPixel).value, g, ToNat(h), ToNat(w),
                  Some(LittleEndian(transparent)));
    }
  }

  /** What a draw leaves of an image that fits a short and the frame's lines, in bytes. */
  lemma DrawnInBytes(was: seq<byte>, now: seq<byte>, base: int, lineWidth: nat, image: GimpImage, x: int, y: int,
                     transparent: int)
    requires Ordinary(image) && ValidImage(image) && image.width <= lineWidth
    requires Fits(Grid(base, lineWidth, 4, x, y), ToShort(image.height), ToShort(image.width), |was|)
    requires now == PutRows(was, Grid(base, lineWidth, 4, x, y), ImageCell(image, Some(LittleEndian(transparent))),
                            ToNat(ToShort(image.height)), ToNat(ToShort(image.width)))
    ensures ImageDrawn(was, now, base, lineWidth, image, x, y, image.height, image.width, Some(transparent))
    ensures OthersKept(was, now, base, lineWidth, x, y, image.height, image.width)
  {
    ShortIs(image.height);
    ShortIs(image.width);
    OrdinaryPressed(was, base, lineWidth, image, x, y, image.height, image.width, Some(transparent));
  }

  /** Draws an image on the frame that is on the screen, except its pixels of the transparent colour. */
  method DispImageFromGimp(display: VipFrameReader, image: GimpImage, x: int, y: int, transparent: int)
    returns (code: int)
    requires ValidImage(image) && display.width >= 0
    requires Fits(Grid(ShownBase(display.View()), display.width, 4, x, y), ToShort(image.height),
                  ToShort(image.width), display.ram.Length)
    modifies display.ram
    ensures code == 1
    ensures image.bytesPerPixel == 3 || image.bytesPerPixel == 4 ==>
              display.ram[..] == Press(old(display.ram[..]), Screen32(display.View()),
                                       ImageStamp(image, x, y, LittleEndian(transparent)))
    ensures UnchangedOff(old(display.ram[..]), display.ram[..], Grid(ShownBase(display.View()), display.width, 4, x, y),
                         ToShort(image.height), ToNat(ToShort(image.width)))
    ensures Ordinary(image) && image.width <= display.width ==>
              var base := if display.displayFrame == 0 then display.frame0Base else display.frame1Base;
              && ImageDrawn(old(display.ram[..]), display.ram[..], base, display.width, image, x, y,
                            image.height, image.width, Some(transparent))
              && OthersKept(old(display.ram[..]), display.ram[..], base, display.width, x, y, image.height, image.width)
  {
    ghost var was := display.ram[..];
    var dest := if display.displayFrame == 0 then display.frame0Base else display.frame1Base;
    PressImage(display.ram, dest, display.width, image, x, y, transparent);
    if Ordinary(image) && image.width <= display.width {
      DrawnInBytes(was, display.ram[..], dest, display.width, image, x, y, transparent);
    }
    code := 1;
  }

  /** Draws the part of an image that lies within inclusive bounds, transparent pixels and all. */
  method DispImageFit(display: VipFrameReader, image: GimpImage, x: int, y: int, w: int, h: int) returns (code: int)
    requires ValidImage(image) && display.width >= 0
    requires BlitFits(Grid(ShownBase(display.View()), display.width, 4, x, y), ToShort(image.height),
                      ToShort(image.width), w, h, display.ram.Length)
    modifies display.ram
    ensures code == 1
    ensures image.bytesPerPixel == 3 || image.bytesPerPixel == 4 ==>
              display.ram[..] == PutRows(old(display.ram[..]), Grid(ShownBase(display.View()), display.width, 4, x, y),
                                         ImageCell(image, None), ToNat(Min(ToShort(image.height), h + 1)),
                                         ToNat(Min(ToShort(image.width), w + 1)))
    ensures Ordinary(image) && image.width <= display.width && w >= 0 && h >= 0 ==>
              var base := if display.displayFrame == 0 then display.frame0Base else display.frame1Base;
              var rows := if h + 1 < image.height then h + 1 else image.height;
              var cols := if w + 1 < image.width then w + 1 else image.width;
              && ImageDrawn(old(display.ram[..]), display.ram[..], base, display.width, image, x, y, rows, cols, None)
              && OthersKept(old(display.ram[..]), display.ram[..], base, display.width, x, y, rows, cols)
  {
    ghost var was := display.ram[..];
    var bmp := LoadImage(image);
    var dest := if display.displayFrame == 0 then display.frame0Base else display.frame1Base;
    CopyImageToBuffer(display.ram, dest, bmp.data[..], display.width, bmp.biWidth, bmp.biHeight, x, y, w, h, None);
    BlitClips(was, dest, bmp.data[..], display.width, bmp.biWidth, bmp.biHeight, x, y, w, h, None);
    if image.bytesPerPixel == 3 || image.bytesPerPixel == 4 {
      BlitOfImage(was, image, bmp, FormatFor(32, image.bytesPerPixel).value, Grid(dest, display.width, 4, x, y),
                  ToNat(Min(bmp.biHeight, h + 1)), ToNat(Min(bmp.biWidth, w + 1)), None);
    }
    if Ordinary(image) && image.width <= display.width && w >= 0 && h >= 0 {
      FitPressed(was, dest, display.width, image, x, y, w, h, display.ram.Length);
    }
    code := 1;
  }

  /** The image's pixels, converted to 32 bits, are at the corner of a frame. */
  ghost predicate ImageCopied(now: seq<byte>, base: int, lineWidth: int, image: GimpImage) {
    forall r, c :: 0 <= r < image.height && 0 <= c < image.width ==> CopiedAt(now, base, lineWidth, image, r, c)
  }

  ghost predicate CopiedAt(now: seq<byte>, base: int, lineWidth: int, image: GimpImage, r: int, c: int) {
    PixelHeld(32, image.bytesPerPixel, image.pixels, (r * image.width + c) * image.bytesPerPixel,
              now, base + (r * lineWidth + c) * 4)
  }

  lemma CopiedInBytes(mem: seq<byte>, base: int, lineWidth: nat, image: GimpImage)
    requires Ordinary(image) && ValidImage(image) && image.width <= lineWidth
    requires forall r :: 0 <= r < ToShort(image.height) ==>
               0 <= Off(Grid(base, lineWidth, 4, 0, 0), r, 0)
               && Off(Grid(base, lineWidth, 4, 0, 0), r, 0) + 4 * ToShort(image.width) <= |mem|
    ensures ToShort(image.height) == image.height && ToShort(image.width) == image.width
    ensures var now := PutRows(mem, Grid(base, lineWidth, 4, 0, 0),
                               ConvertCell(FormatFor(32, image.bytesPerPixel).value, image.pixels, image.width),
                               image.height, image.width);
            && ImageCopied(now, base, lineWidth, image)
            && OthersKept(mem, now, base, lineWidth, 0, 0, image.height, image.width)
  {
    var f := FormatFor(32, image.bytesPerPixel).value;
    ShortIs(image.height);
    ShortIs(image.width);
    forall r, c | 0 <= r < image.height && 0 <= c < image.width
      ensures CopiedAt(PutRows(mem, Grid(base, lineWidth, 4, 0, 0), ConvertCell(f, image.pixels, image.width),
                               image.height, image.width), base, lineWidth, image, r, c)
    {
      OffColumn(Grid(base, lineWidth, 4, 0, 0), r, 0, c);
      CopiedCell(mem, base, lineWidth, image, f, r, c);
    }
    PressedOthers(mem, base, lineWidth, 0, 0, ConvertCell(f, image.pixels, image.width), image.height, image.width);
  }

  lemma CopiedCell(mem: seq<byte>, base: int, lineWidth: nat, image: GimpImage, f: Format, r: nat, c: nat)
    requires Ordinary(image) && ValidImage(image) && image.width <= lineWidth
    requires FormatFor(32, image.bytesPerPixel) == Some(f) && r < image.height && c < image.width
    requires 0 <= Off(Grid(base, lineWidth, 4, 0, 0), r, c) && Off(Grid(base, lineWidth, 4, 0, 0), r, c) + 4 <= |mem|
    ensures CopiedAt(PutRows(mem, Grid(base, lineWidth, 4, 0, 0), ConvertCell(f, image.pixels, image.width),
                             image.height, image.width), base, lineWidth, image, r, c)
  {
    var g, cell := Grid(base, lineWidth, 4, 0, 0), ConvertCell(f, image.pixels, image.width);
    ConvertedPut(mem, g, f, image.pixels, image.width, image.height, image.width, r, c);
    CopiedAtPlace(PutRows(mem, g, cell, image.height, image.width), base, lineWidth, image, f, r, c);
  }

  lemma ConvertedPut(mem: seq<byte>, g: Grid, f: Format, src: seq<byte>, srcLineWidth: int, rows: nat, cols: nat,
                     r: nat, c: nat)
    requires g.bpp == DestBytes(f) && r < rows && c < cols <= g.stride
    requires 0 <= Off(g, r, c) && Off(g, r, c) + g.bpp <= |mem|
    ensures Slice(PutRows(mem, g, ConvertCell(f, src, srcLineWidth), rows, cols), Off(g, r, c), g.bpp)
         == Converted(f, src, srcLineWidth, r, c)
  {
    RowsSlice(mem, g, ConvertCell(f, src, srcLineWidth), rows, cols, r, c);
  }

  lemma CopiedAtPlace(now: seq<byte>, base: int, lineWidth: nat, image: GimpImage, f: Format, r: nat, c: nat)
    requires Ordinary(image) && ValidImage(image) && FormatFor(32, image.bytesPerPixel) == Some(f)
    requires r < image.height && c < image.width
    requires var at := Off(Grid(base, lineWidth, 4, 0, 0), r, c);
             && 0 <= at && at + 4 <= |now| && Slice(now, at, 4) == Converted(f, image.pixels, image.width, r, c)
    ensures CopiedAt(now, base, lineWidth, image, r, c)
  {
    var from := (r * image.width + c) * image.bytesPerPixel;
    ImagePixelIs(image, r, c);
    OffIs(SrcGrid(f, image.width), r, c);
    HeldIs(f, 32, image.bytesPerPixel, image.pixels, from, now, Off(Grid(base, lineWidth, 4, 0, 0), r, c));
  }

  /** Copies a whole image to the corner of the frame; the position asked for is ignored. */
  method DispImage(display: VipFrameReader, x: int, y: int, image: GimpImage)
    requires ValidImage(image) && display.width >= 0 && ToShort(image.width) >= 0
    requires forall r :: 0 <= r < ToShort(image.height) ==>
               0 <= Off(Grid(ShownBase(display.View()), display.width, 4, 0, 0), r, 0)
               && Off(Grid(ShownBase(display.View()), display.width, 4, 0, 0), r, 0) + 4 * ToShort(image.width)
                  <= display.ram.Length
    modifies display.ram
    ensures FormatFor(32, image.bytesPerPixel).Some? ==>
              display.ram[..] == PutRows(old(display.ram[..]), Grid(ShownBase(display.View()), display.width, 4, 0, 0),
                                         ConvertCell(FormatFor(32, image.bytesPerPixel).value, image.pixels,
                                                     ToShort(image.width)),
                                         ToNat(ToShort(image.height)), ToNat(ToShort(image.width)))
    ensures Ordinary(image) && image.width <= display.width ==>
              var base := if display.displayFrame == 0 then display.frame0Base else display.frame1Base;
              && ImageCopied(display.ram[..], base, display.width, image)
              && OthersKept(old(display.ram[..]), display.ram[..], base, display.width, 0, 0, image.height, image.width)
  {
    ghost var was := display.ram[..];
    var bmp := LoadImage(image);
    var dest := if display.displayFrame == 0 then display.frame0Base else display.frame1Base;
    var w, h := bmp.biWidth, bmp.biHeight;
    assert dest == ShownBase(display.View());
    CopyImageRows(display.ram, dest, bmp.data[..], display.width, w, h);
    if FormatFor(32, image.bytesPerPixel).Some? {
      CopyOfImage(was, image, bmp, FormatFor(32, image.bytesPerPixel).value, Grid(dest, display.width, 4, 0, 0),
                  ToNat(h), ToNat(w));
    }
    if Ordinary(image) && image.width <= display.width {
      CopiedInBytes(was, dest, display.width, image);
    }
  }

  // ----- what the screen shows

  /** An image inside a screen in memory may be drawn. */
  lemma InsideMayBeShown(d: Driver, image: GimpImage, x: int, y: int, key: seq<byte>, len: int)
    requires (image.bytesPerPixel == 3 || image.bytesPerPixel == 4) && d.width >= 0
    requires InMemory(Screen32(d), len) && Inside(Screen32(d), ImageStamp(image, x, y, key))
    ensures Fits(Grid(ShownBase(d), d.width, 4, x, y), ToShort(image.height), ToShort(image.width), len)
  {
    InsideFits(Screen32(d), ImageStamp(image, x, y, key), len);
    assert GridOf(Screen32(d), ImageStamp(image, x, y, key)) == Grid(ShownBase(d), d.width, 4, x, y);
  }

  lemma ImageCellSized(image: GimpImage, key: Option<seq<byte>>, t: Stamp)
    requires image.bytesPerPixel == 3 || image.bytesPerPixel == 4
    requires t.cell == ImageCell(image, key)
    ensures Sized(t, 4)
  {
    KeyedSized(t, Skip(image, key), PixelBytes(image), 4);
  }

  /** An image exported as RGBA is drawn in the colours of its RGB export exactly where red equals blue. */
  lemma RgbaSwapsRedAndBlue(rgb: GimpImage, rgba: GimpImage, r: int, c: int)
    requires rgb.bytesPerPixel == 3 && rgba.bytesPerPixel == 4
    requires ImagePixel(rgba, r, c)[..3] == ImagePixel(rgb, r, c)
    ensures ImageColour(rgba, r, c) == ImageColour(rgb, r, c) <==> ImagePixel(rgb, r, c)[0] == ImagePixel(rgb, r, c)[2]
  {
    var p, q := ImagePixel(rgb, r, c), ImagePixel(rgba, r, c);
    assert q[..3][0] == q[0] && q[..3][1] == q[1] && q[..3][2] == q[2];
    var red: int, blue: int := p[0], p[2];
    assert 0 <= red < 0x100 && 0 <= blue < 0x100;
  }

  /** One call of `DispIMAGE_from_gimp`; `key` holds the bytes of the transparent colour. */
  datatype Draw = Draw(image: GimpImage, x: int, y: int, key: seq<byte>)

  ghost predicate DrawFits(s: Surface, d: Draw) {
    (d.image.bytesPerPixel == 3 || d.image.bytesPerPixel == 4) && Inside(s, ImageStamp(d.image, d.x, d.y, d.key))
  }

  ghost predicate AllFit(s: Surface, ds: seq<Draw>) {
    forall i :: 0 <= i < |ds| ==> DrawFits(s, ds[i])
  }

  ghost function Stamps(s: Surface, ds: seq<Draw>): (ts: seq<Stamp>)
    requires AllFit(s, ds)
    ensures |ts| == |ds|
  {
    seq(|ds|, i requires 0 <= i < |ds| && DrawFits(s, ds[i]) => ImageStamp(ds[i].image, ds[i].x, ds[i].y, ds[i].key))
  }

  /** The draw colours the pixel. */
  ghost predicate Paints(s: Surface, d: Draw, px: int, py: int)
    requires DrawFits(s, d)
  {
    && Covers(ImageStamp(d.image, d.x, d.y, d.key), px, py)
    && !Keyed(d.image, Some(d.key), py - d.y, px - d.x)
  }

  /** The bytes the draw gives to a pixel that it colours. */
  function DrawnBytes(d: Draw, px: int, py: int): (v: seq<byte>)
    requires d.image.bytesPerPixel == 3 || d.image.bytesPerPixel == 4
    ensures |v| == 4
  {
    PixelBytes(d.image)(py - d.y, px - d.x)
  }

  /**
   After a draw every pixel of the frame is the image's colour where the image covers it and is
   opaque, and otherwise what it was.
   */
  lemma DrawnPixel(mem: seq<byte>, s: Surface, d: Draw, px: int, py: int)
    requires s.bpp == 4 && InMemory(s, |mem|) && DrawFits(s, d)
    requires 0 <= px < s.width && 0 <= py < s.height
    ensures Pixel(Press(mem, s, ImageStamp(d.image, d.x, d.y, d.key)), s, px, py)
         == if Paints(s, d, px, py) then DrawnBytes(d, px, py) else Pixel(mem, s, px, py)
  {
    var t := ImageStamp(d.image, d.x, d.y, d.key);
    ImageCellSized(d.image, Some(d.key), t);
    if Paints(s, d, px, py) {
      PaintedMarks(s, d, px, py);
      PressMarks(mem, s, t, px, py, DrawnBytes(d, px, py));
    } else {
      UnpaintedPasses(s, d, px, py);
      PressPasses(mem, s, t, px, py);
    }
  }

  lemma PaintedMarks(s: Surface, d: Draw, px: int, py: int)
    requires DrawFits(s, d) && Paints(s, d, px, py)
    ensures Marks(ImageStamp(d.image, d.x, d.y, d.key), px, py, 4, DrawnBytes(d, px, py))
  {
    var t, skip, bytes := ImageStamp(d.image, d.x, d.y, d.key), Skip(d.image, Some(d.key)), PixelBytes(d.image);
    assert Covers(t, px, py) && t.x == d.x && t.y == d.y;
    assert !skip(py - d.y, px - d.x);
    KeyedMarks(t, skip, bytes, px, py, 4, DrawnBytes(d, px, py));
  }

  lemma UnpaintedPasses(s: Surface, d: Draw, px: int, py: int)
    requires DrawFits(s, d) && !Paints(s, d, px, py)
    ensures Passes(ImageStamp(d.image, d.x, d.y, d.key), px, py, 4)
  {
    KeyedPasses(ImageStamp(d.image, d.x, d.y, d.key), Skip(d.image, Some(d.key)), PixelBytes(d.image), px, py, 4);
  }

  lemma PaintsMarks(s: Surface, ds: seq<Draw>, i: nat, px: int, py: int)
    requires AllFit(s, ds) && i < |ds|
    ensures DrawFits(s, ds[i])
    ensures Paints(s, ds[i], px, py) ==> Marks(Stamps(s, ds)[i], px, py, 4, DrawnBytes(ds[i], px, py))
    ensures !Paints(s, ds[i], px, py) ==> Passes(Stamps(s, ds)[i], px, py, 4)
  {
    var d := ds[i];
    assert DrawFits(s, d);
    assert Stamps(s, ds)[i] == ImageStamp(d.image, d.x, d.y, d.key);
    if Paints(s, d, px, py) {
      PaintedMarks(s, d, px, py);
    } else {
      UnpaintedPasses(s, d, px, py);
    }
  }

  lemma StampsSuit(s: Surface, ds: seq<Draw>)
    requires s.bpp == 4 && AllFit(s, ds)
    ensures Suits(s, Stamps(s, ds))
  {
    forall i | 0 <= i < |ds| ensures Inside(s, Stamps(s, ds)[i]) && Sized(Stamps(s, ds)[i], 4) {
      assert DrawFits(s, ds[i]);
      ImageCellSized(ds[i].image, Some(ds[i].key), Stamps(s, ds)[i]);
    }
  }

  /** Which pixels a draw colours and how, in the image's bytes. */
  lemma PaintsInBytes(s: Surface, d: Draw, px: int, py: int)
    requires DrawFits(s, d) && Ordinary(d.image) && ValidImage(d.image)
    ensures Covers(ImageStamp(d.image, d.x, d.y, d.key), px, py)
       <==> d.x <= px < d.x + d.image.width && d.y <= py < d.y + d.image.height
    ensures d.x <= px < d.x + d.image.width && d.y <= py < d.y + d.image.height ==>
              var from := ((py - d.y) * d.image.width + px - d.x) * d.image.bytesPerPixel;
              && 0 <= from && from + d.image.bytesPerPixel <= |d.image.pixels|
              && DrawnBytes(d, px, py)
                 == (if d.image.bytesPerPixel == 3
                     then [d.image.pixels[from + 2], d.image.pixels[from + 1], d.image.pixels[from], 0]
                     else [d.image.pixels[from], d.image.pixels[from + 1], d.image.pixels[from + 2], 0])
              && (Paints(s, d, px, py) <==> DrawnBytes(d, px, py) != d.key)
  {
    ShortIs(d.image.width);
    ShortIs(d.image.height);
    if d.x <= px < d.x + d.image.width && d.y <= py < d.y + d.image.height {
      ImagePixelIs(d.image, py - d.y, px - d.x);
    }
  }

  /** Painter's theorem: the last draw that colours a pixel decides it. */
  lemma LastDrawWins(mem: seq<byte>, s: Surface, ds: seq<Draw>, px: int, py: int, j: nat)
    requires s.bpp == 4 && InMemory(s, |mem|) && AllFit(s, ds)
    requires 0 <= px < s.width && 0 <= py < s.height
    requires j < |ds| && Paints(s, ds[j], px, py)
    requires forall i :: j < i < |ds| ==> !Paints(s, ds[i], px, py)
    ensures Pixel(PressAll(mem, s, Stamps(s, ds)), s, px, py) == DrawnBytes(ds[j], px, py)
  {
    var ts := Stamps(s, ds);
    StampsSuit(s, ds);
    PaintsMarks(s, ds, j, px, py);
    forall i | j < i < |ds| ensures Passes(ts[i], px, py, 4) {
      PaintsMarks(s, ds, i, px, py);
    }
    LastMarkShows(mem, s, ts, px, py, j, DrawnBytes(ds[j], px, py));
  }

  /** And a pixel that no draw colours keeps its value. */
  lemma UnpaintedKept(mem: seq<byte>, s: Surface, ds: seq<Draw>, px: int, py: int)
    requires s.bpp == 4 && InMemory(s, |mem|) && AllFit(s, ds)
    requires 0 <= px < s.width && 0 <= py < s.height
    requires forall i :: 0 <= i < |ds| ==> !Paints(s, ds[i], px, py)
    ensures Pixel(PressAll(mem, s, Stamps(s, ds)), s, px, py) == Pixel(mem, s, px, py)
  {
    var ts := Stamps(s, ds);
    StampsSuit(s, ds);
    PressAllPixel(mem, s, ts, px, py);
    forall i | 0 <= i < |ds| ensures Passes(ts[i], px, py, 4) {
      PaintsMarks(s, ds, i, px, py);
    }
    AllPass(ts, px, py, Pixel(mem, s, px, py), 4);
  }

  /** Drawing an image a second time, on top of itself, changes nothing in memory. */
  lemma RedrawChangesNothing(mem: seq<byte>, s: Surface, image: GimpImage, x: int, y: int, key: seq<byte>)
    requires image.bytesPerPixel == 3 || image.bytesPerPixel == 4
    requires s.bpp == 4 && InMemory(s, |mem|) && Inside(s, ImageStamp(image, x, y, key))
    ensures var t := ImageStamp(image, x, y, key);
            Press(Press(mem, s, t), s, t) == Press(mem, s, t)
  {
    var t := ImageStamp(image, x, y, key);
    var once := Press(mem, s, t);
    var twice := Press(once, s, t);
    ImageCellSized(image, Some(key), t);
    forall i | 0 <= i < |mem| && (i < s.base || s.base + Size(s) <= i) ensures twice[i] == once[i] {
      PressOutside(once, s, t, i);
    }
    forall px, py | 0 <= px < s.width && 0 <= py < s.height ensures Pixel(twice, s, px, py) == Pixel(once, s, px, py) {
      PressPixel(mem, s, t, px, py);
      PressPixel(once, s, t, px, py);
    }
    SamePixels(twice, once, s);
  }
}
