/** Sloped lines drawn with Bresenham's algorithm, after `graphic_lib/simple_graphics.c`. */
module SlopedLine {
  import opened Arithmetic
  import opened Blending
  import opened Bytes
  import opened DrawFrame
  import opened FrameReader
  import opened Painter
  import opened Raster
  import opened SimpleText

  /** A line from one pixel to another. */
  datatype Line = Line(x0: int, y0: int, x1: int, y1: int)

  function ToU16(x: int): int {
    x % 0x1_0000
  }

  function Distance(a: int, b: int): nat {
    if a < b then b - a else a - b
  }

  /** The place `k` steps from `a` towards `b`. */
  function Toward(a: int, b: int, k: int): int {
    if a > b then a - k else a + k
  }

  /** How many steps `p` is from `a` in the direction of `b`. */
  function Along(a: int, b: int, p: int): int {
    if a > b then a - p else p - a
  }

  predicate Steep(l: Line) {
    Distance(l.x0, l.x1) < Distance(l.y0, l.y1)
  }

  /** The distance covered one pixel at a time, and the other one. */
  function Major(l: Line): nat {
    if Steep(l) then Distance(l.y0, l.y1) else Distance(l.x0, l.x1)
  }

  function Minor(l: Line): nat {
    if Steep(l) then Distance(l.x0, l.x1) else Distance(l.y0, l.y1)
  }

  /** How many of the first `n` steps also go sideways. */
  function Sideways(minor: nat, major: nat, n: nat): nat {
    if n == 0 then 0
    else
      var m := Sideways(minor, major, n - 1);
      if Product(2 * minor, n) - Product(2 * major, m) > major then m + 1 else m
  }

  /** The n-th pixel of a line. */
  function PointX(l: Line, n: nat): int {
    Toward(l.x0, l.x1, if Steep(l) then Sideways(Minor(l), Major(l), n) else n)
  }

  function PointY(l: Line, n: nat): int {
    Toward(l.y0, l.y1, if Steep(l) then n else Sideways(Minor(l), Major(l), n))
  }

  function Plain(bytes: seq<byte>): CellFn {
    (r, c, px) => bytes
  }

  function Dot(x: int, y: int, bytes: seq<byte>): Stamp {
    Stamp(x, y, 1, 1, Plain(bytes))
  }

  /** The first `n` pixels of a line. */
  function Dots(l: Line, bytes: seq<byte>, n: nat): (ts: seq<Stamp>)
    ensures |ts| == n
  {
    seq(n, k requires 0 <= k < n => Dot(PointX(l, k), PointY(l, k), bytes))
  }

  // ----- the error term

  /** No more than half a step from n * minor / major; if two numbers are, the smaller one. */
  ghost predicate Close(minor: nat, major: nat, n: nat, m: int) {
    var e := Product(2 * minor, n) - Product(2 * major, m);
    if major == 0 then m == 0 else 0 < e + major && e <= major
  }

  lemma {:induction false} SidewaysIsClose(minor: nat, major: nat, n: nat)
    requires minor <= major
    ensures Close(minor, major, n, Sideways(minor, major, n))
  {
    if n > 0 {
      SidewaysIsClose(minor, major, n - 1);
    }
  }

  lemma CloseUnique(minor: nat, major: nat, n: nat, m: int, k: int)
    requires Close(minor, major, n, m) && Close(minor, major, n, k)
    ensures m == k
  {
    ProductIs(2 * major, m);
    ProductIs(2 * major, k);
    if m < k {
      MulMonotone(1, k - m, 2 * major);
    } else if k < m {
      MulMonotone(1, m - k, 2 * major);
    }
  }

  lemma {:induction false} SidewaysGrows(minor: nat, major: nat, n: nat, k: nat)
    requires n <= k
    ensures Sideways(minor, major, n) <= Sideways(minor, major, k)
    decreases k
  {
    if n < k {
      SidewaysGrows(minor, major, n, k - 1);
    }
  }

  /** At the end of the line all sideways steps have been made. */
  lemma SidewaysEnds(minor: nat, major: nat)
    requires minor <= major
    ensures Sideways(minor, major, major) == minor
  {
    SidewaysIsClose(minor, major, major);
    ProductIs(2 * minor, major);
    ProductIs(2 * major, minor);
    CloseUnique(minor, major, major, Sideways(minor, major, major), minor);
  }

  lemma SidewaysBound(minor: nat, major: nat, n: nat)
    requires minor <= major && n <= major
    ensures Sideways(minor, major, n) <= minor
  {
    SidewaysGrows(minor, major, n, major);
    SidewaysEnds(minor, major);
  }

  /** The drawing variable `p` after `n` steps, `m` of them sideways. */
  ghost predicate Tracks(minor: nat, major: nat, n: nat, m: nat, p: int) {
    m == Sideways(minor, major, n) && p == Product(2 * minor, n) + 2 * minor - Product(2 * major, m) - major
  }

  lemma TrackNext(minor: nat, major: nat, n: nat, m: nat, p: int)
    requires Tracks(minor, major, n, m, p)
    ensures p > 0 ==> Tracks(minor, major, n + 1, m + 1, p + 2 * minor - 2 * major)
    ensures p <= 0 ==> Tracks(minor, major, n + 1, m, p + 2 * minor)
  {
  }

  // ----- drawing

  lemma DotIs(mem: seq<byte>, s: Surface, x: int, y: int, bytes: seq<byte>)
    ensures Splice(mem, PixelOff(s, x, y), s.bpp, bytes) == Press(mem, s, Dot(x, y, bytes))
  {
    var t, g := Dot(x, y, bytes), GridOf(s, Dot(x, y, bytes));
    GridPixel(s, t, 0, 0);
    assert PutRows(mem, g, t.cell, 1, 1) == PutRow(mem, g, t.cell, 0, 1) == PutCell(mem, g, t.cell, 0, 0);
  }

  lemma NextDot(mem: seq<byte>, s: Surface, l: Line, bytes: seq<byte>, n: nat)
    ensures PressAll(mem, s, Dots(l, bytes, n + 1))
         == Splice(PressAll(mem, s, Dots(l, bytes, n)), PixelOff(s, PointX(l, n), PointY(l, n)), s.bpp, bytes)
  {
    assert Dots(l, bytes, n + 1)[..n] == Dots(l, bytes, n);
    DotIs(PressAll(mem, s, Dots(l, bytes, n)), s, PointX(l, n), PointY(l, n), bytes);
  }

  ghost predicate EndsFit(l: Line) {
    0 <= l.x0 < 0x1_0000 && 0 <= l.y0 < 0x1_0000 && 0 <= l.x1 < 0x1_0000 && 0 <= l.y1 < 0x1_0000
  }

  /** Every pixel of the line lies in memory. */
  ghost predicate LineFits(s: Surface, l: Line, len: int) {
    forall n: nat :: n <= Major(l) ==> InRam(s, PointX(l, n), PointY(l, n), len)
  }

  function Increment(a: int, b: int): int {
    if a > b then -1 else 1
  }

  lemma OneFurther(a: int, b: int, k: nat)
    ensures ToU16(ToU16(Toward(a, b, k)) + Increment(a, b)) == ToU16(Toward(a, b, k + 1))
  {
  }

  lemma Within(a: int, b: int, k: nat)
    requires 0 <= a < 0x1_0000 && 0 <= b < 0x1_0000 && k <= Distance(a, b)
    ensures ToU16(Toward(a, b, k)) == Toward(a, b, k)
  {
  }

  /** The variables of the horizontal loop after `n` turns, the coordinates being kept in 16 bits. */
  ghost predicate FlatAt(l: Line, n: nat, m: nat, p: int, horiz: int, vert: int) {
    && Tracks(Minor(l), Major(l), n, m, p)
    && horiz == ToU16(Toward(l.x0, l.x1, n)) && vert == ToU16(Toward(l.y0, l.y1, m))
  }

  ghost predicate SteepAt(l: Line, n: nat, m: nat, p: int, horiz: int, vert: int) {
    && Tracks(Minor(l), Major(l), n, m, p)
    && horiz == ToU16(Toward(l.x0, l.x1, m)) && vert == ToU16(Toward(l.y0, l.y1, n))
  }

  lemma FlatPoint(l: Line, n: nat, m: nat, p: int, horiz: int, vert: int)
    requires EndsFit(l) && !Steep(l) && n <= Major(l) && FlatAt(l, n, m, p, horiz, vert)
    ensures horiz == PointX(l, n) && vert == PointY(l, n)
  {
    SidewaysBound(Minor(l), Major(l), n);
    Within(l.x0, l.x1, n);
    Within(l.y0, l.y1, m);
  }

  lemma SteepPoint(l: Line, n: nat, m: nat, p: int, horiz: int, vert: int)
    requires EndsFit(l) && Steep(l) && n <= Major(l) && SteepAt(l, n, m, p, horiz, vert)
    ensures horiz == PointX(l, n) && vert == PointY(l, n)
  {
    SidewaysBound(Minor(l), Major(l), n);
    Within(l.x0, l.x1, m);
    Within(l.y0, l.y1, n);
  }

  lemma FlatNext(l: Line, n: nat, m: nat, p: int, horiz: int, vert: int)
    requires FlatAt(l, n, m, p, horiz, vert)
    ensures p > 0 ==> FlatAt(l, n + 1, m + 1, p + (2 * Minor(l) - 2 * Major(l)),
                             ToU16(horiz + Increment(l.x0, l.x1)), ToU16(vert + Increment(l.y0, l.y1)))
    ensures p <= 0 ==> FlatAt(l, n + 1, m, p + 2 * Minor(l), ToU16(horiz + Increment(l.x0, l.x1)), vert)
  {
    TrackNext(Minor(l), Major(l), n, m, p);
    OneFurther(l.x0, l.x1, n);
    OneFurther(l.y0, l.y1, m);
  }

  lemma SteepNext(l: Line, n: nat, m: nat, p: int, horiz: int, vert: int)
    requires SteepAt(l, n, m, p, horiz, vert)
    ensures p > 0 ==> SteepAt(l, n + 1, m + 1, p + (2 * Minor(l) - 2 * Major(l)),
                              ToU16(horiz + Increment(l.x0, l.x1)), ToU16(vert + Increment(l.y0, l.y1)))
    ensures p <= 0 ==> SteepAt(l, n + 1, m, p + 2 * Minor(l), horiz, ToU16(vert + Increment(l.y0, l.y1)))
  {
    TrackNext(Minor(l), Major(l), n, m, p);
    OneFurther(l.x0, l.x1, m);
    OneFurther(l.y0, l.y1, n);
  }

  /** What memory holds after each number of pixels; a proof that needs to know says `Turned`. */
  type Frames = int -> seq<byte>

  ghost function FramesOf(was: seq<byte>, s: Surface, l: Line, color: int): Frames {
    n => if n >= 0 && s.bpp <= 4 then PressAll(was, s, Dots(l, LittleEndian(color)[..s.bpp], n)) else was
  }

  ghost predicate AreFrames(frames: Frames, was: seq<byte>, s: Surface, l: Line, color: int) {
    forall n {:trigger Turned(n)} :: Turned(n) ==> frames(n) == FramesOf(was, s, l, color)(n)
  }

  predicate Turned(n: int) {
    n >= 0
  }

  /** Plots the pixel of the n-th turn. */
  method Plot(ram: array<byte>, s: Surface, depth: int, ghost l: Line, horiz: int, vert: int, color: int,
              ghost n: nat, ghost m: nat, ghost p: int, ghost frames: Frames, ghost was: seq<byte>)
    requires s.bpp == Bpp(depth) && EndsFit(l) && n <= Major(l) && LineFits(s, l, ram.Length)
    requires if Steep(l) then SteepAt(l, n, m, p, horiz, vert) else FlatAt(l, n, m, p, horiz, vert)
    requires AreFrames(frames, was, s, l, color) && ram[..] == frames(n)
    modifies ram
    ensures ram[..] == frames(n + 1)
  {
    assert Turned(n) && Turned(n + 1);
    if Steep(l) {
      SteepPoint(l, n, m, p, horiz, vert);
    } else {
      FlatPoint(l, n, m, p, horiz, vert);
    }
    NextDot(was, s, l, LittleEndian(color)[..s.bpp], n);
    SetPixel(ram, s, depth, horiz, vert, color);
  }

  /** The end of the loop's body: the move to the next pixel. */
  method FlatTurn(ghost l: Line, ghost n: nat, ghost m: nat, p: int, horiz: int, vert: int,
                horizIncr: int, vertIncr: int, dPr: int, dPru: int)
    returns (x: int, y: int, q: int, ghost k: nat)
    requires FlatAt(l, n, m, p, horiz, vert)
    requires horizIncr == Increment(l.x0, l.x1) && vertIncr == Increment(l.y0, l.y1)
    requires dPr == 2 * Minor(l) && dPru == 2 * Minor(l) - 2 * Major(l)
    ensures FlatAt(l, n + 1, k, q, x, y)
  {
    FlatNext(l, n, m, p, horiz, vert);
    x, y, k := horiz, vert, m;
    if p > 0 {
      x := ToU16(horiz + horizIncr);
      y := ToU16(vert + vertIncr);
      q, k := p + dPru, m + 1;
    } else {
      x := ToU16(horiz + horizIncr);
      q := p + dPr;
    }
  }

  /** The loop that goes along the horizontal axis. */
  method DrawFlat(ram: array<byte>, s: Surface, depth: int, l: Line, color: int,
                  ghost frames: Frames, ghost was: seq<byte>)
    requires s.bpp == Bpp(depth) && EndsFit(l) && !Steep(l) && LineFits(s, l, ram.Length)
    requires AreFrames(frames, was, s, l, color) && ram[..] == frames(0)
    modifies ram
    ensures ram[..] == frames(Major(l) + 1)
  {
    var horizDelta: int, vertDelta: int := Distance(l.x0, l.x1), Distance(l.y0, l.y1);
    var horizIncr, vertIncr := Increment(l.x0, l.x1), Increment(l.y0, l.y1);
    var horiz, vert := l.x0, l.y0;
    var dPr := 2 * vertDelta;
    var dPru := dPr - 2 * horizDelta;
    var p := dPr - horizDelta;
    ghost var n, m := 0, 0;
    while horizDelta >= 0
      invariant horizDelta == Major(l) - n && n <= Major(l) + 1
      invariant FlatAt(l, n, m, p, horiz, vert)
      invariant ram[..] == frames(n)
    {
      Plot(ram, s, depth, l, horiz, vert, color, n, m, p, frames, was);
      horiz, vert, p, m := FlatTurn(l, n, m, p, horiz, vert, horizIncr, vertIncr, dPr, dPru);
      horizDelta, n := horizDelta - 1, n + 1;
    }
  }

  /** The end of the loop's body: the move to the next pixel. */
  method SteepTurn(ghost l: Line, ghost n: nat, ghost m: nat, p: int, horiz: int, vert: int,
                 horizIncr: int, vertIncr: int, dPr: int, dPru: int)
    returns (x: int, y: int, q: int, ghost k: nat)
    requires SteepAt(l, n, m, p, horiz, vert)
    requires horizIncr == Increment(l.x0, l.x1) && vertIncr == Increment(l.y0, l.y1)
    requires dPr == 2 * Minor(l) && dPru == 2 * Minor(l) - 2 * Major(l)
    ensures SteepAt(l, n + 1, k, q, x, y)
  {
    SteepNext(l, n, m, p, horiz, vert);
    x, y, k := horiz, vert, m;
    if p > 0 {
      x := ToU16(horiz + horizIncr);
      y := ToU16(vert + vertIncr);
      q, k := p + dPru, m + 1;
    } else {
      y := ToU16(vert + vertIncr);
      q := p + dPr;
    }
  }

  /** The loop that goes along the vertical axis. */
  method DrawSteep(ram: array<byte>, s: Surface, depth: int, l: Line, color: int,
                   ghost frames: Frames, ghost was: seq<byte>)
    requires s.bpp == Bpp(depth) && EndsFit(l) && Steep(l) && LineFits(s, l, ram.Length)
    requires AreFrames(frames, was, s, l, color) && ram[..] == frames(0)
    modifies ram
    ensures ram[..] == frames(Major(l) + 1)
  {
    var horizDelta: int, vertDelta: int := Distance(l.x0, l.x1), Distance(l.y0, l.y1);
    var horizIncr, vertIncr := Increment(l.x0, l.x1), Increment(l.y0, l.y1);
    var horiz, vert := l.x0, l.y0;
    var dPr := 2 * horizDelta;
    var dPru := dPr - 2 * vertDelta;
    var p := dPr - vertDelta;
    ghost var n, m := 0, 0;
    while vertDelta >= 0
      invariant vertDelta == Major(l) - n && n <= Major(l) + 1
      invariant SteepAt(l, n, m, p, horiz, vert)
      invariant ram[..] == frames(n)
    {
      Plot(ram, s, depth, l, horiz, vert, color, n, m, p, frames, was);
      horiz, vert, p, m := SteepTurn(l, n, m, p, horiz, vert, horizIncr, vertIncr, dPr, dPru);
      vertDelta, n := vertDelta - 1, n + 1;
    }
  }

  // ----- the pixels drawn

  /**
   The pixel lies between the end points in the direction the line goes further in, and across it
   no more than half a pixel from the exact line; of two such pixels the one with fewer steps across.
   */
  predicate OnLine(l: Line, px: int, py: int) {
    var dx, dy := if l.x0 < l.x1 then l.x1 - l.x0 else l.x0 - l.x1, if l.y0 < l.y1 then l.y1 - l.y0 else l.y0 - l.y1;
    var across, along := if l.x0 > l.x1 then l.x0 - px else px - l.x0, if l.y0 > l.y1 then l.y0 - py else py - l.y0;
    if dx < dy then
      0 <= along <= dy && 0 < 2 * dx * along - 2 * dy * across + dy && 2 * dx * along - 2 * dy * across <= dy
    else if dx > 0 then
      0 <= across <= dx && 0 < 2 * dy * across - 2 * dx * along + dx && 2 * dy * across - 2 * dx * along <= dx
    else
      across == 0 && along == 0
  }

  /** These are the points of the line: one for each step. */
  lemma OnLineIsPoint(l: Line, px: int, py: int)
    ensures OnLine(l, px, py) <==> exists n: nat :: n <= Major(l) && PointX(l, n) == px && PointY(l, n) == py
  {
    var n := if Steep(l) then Along(l.y0, l.y1, py) else Along(l.x0, l.x1, px);
    if 0 <= n <= Major(l) {
      PointOfStep(l, n, px, py);
    }
    forall k: nat | k <= Major(l) && PointX(l, k) == px && PointY(l, k) == py ensures OnLine(l, px, py) {
      PointOfStep(l, k, px, py);
    }
  }

  lemma PointOfStep(l: Line, n: nat, px: int, py: int)
    requires n <= Major(l) && n == if Steep(l) then Along(l.y0, l.y1, py) else Along(l.x0, l.x1, px)
    ensures OnLine(l, px, py) <==> PointX(l, n) == px && PointY(l, n) == py
  {
    var m := if Steep(l) then Along(l.x0, l.x1, px) else Along(l.y0, l.y1, py);
    OnLineIsClose(l, n, m, px, py);
    SidewaysIsClose(Minor(l), Major(l), n);
    if Close(Minor(l), Major(l), n, m) {
      CloseUnique(Minor(l), Major(l), n, m, Sideways(Minor(l), Major(l), n));
    }
  }

  lemma OnLineIsClose(l: Line, n: nat, m: int, px: int, py: int)
    requires n <= Major(l) && n == if Steep(l) then Along(l.y0, l.y1, py) else Along(l.x0, l.x1, px)
    requires m == if Steep(l) then Along(l.x0, l.x1, px) else Along(l.y0, l.y1, py)
    ensures OnLine(l, px, py) <==> Close(Minor(l), Major(l), n, m)
  {
    ProductIs(2 * Minor(l), n);
    ProductIs(2 * Major(l), m);
  }

  lemma LineStaysInside(s: Surface, l: Line, n: nat)
    requires 0 <= l.x0 < s.width && 0 <= l.x1 < s.width && 0 <= l.y0 < s.height && 0 <= l.y1 < s.height
    requires n <= Major(l)
    ensures 0 <= PointX(l, n) < s.width && 0 <= PointY(l, n) < s.height
  {
    SidewaysBound(Minor(l), Major(l), n);
  }

  /** A line between two pixels of a frame in memory may be drawn. */
  lemma InsideMayBeDrawn(s: Surface, l: Line, len: int)
    requires InMemory(s, len)
    requires 0 <= l.x0 < s.width && 0 <= l.x1 < s.width && 0 <= l.y0 < s.height && 0 <= l.y1 < s.height
    ensures LineFits(s, l, len)
  {
    forall n: nat | n <= Major(l) ensures InRam(s, PointX(l, n), PointY(l, n), len) {
      LineStaysInside(s, l, n);
      PixelInMemory(s, PointX(l, n), PointY(l, n));
    }
  }

  /** Both end points are drawn. */
  lemma EndsOnLine(l: Line)
    ensures OnLine(l, l.x0, l.y0) && OnLine(l, l.x1, l.y1)
  {
    SidewaysEnds(Minor(l), Major(l));
    PointOfStep(l, 0, l.x0, l.y0);
    PointOfStep(l, Major(l), l.x1, l.y1);
  }

  lemma DotsSuit(s: Surface, l: Line, bytes: seq<byte>)
    requires 0 <= l.x0 < s.width && 0 <= l.x1 < s.width && 0 <= l.y0 < s.height && 0 <= l.y1 < s.height
    requires |bytes| == s.bpp
    ensures Suits(s, Dots(l, bytes, Major(l) + 1))
  {
    var ts := Dots(l, bytes, Major(l) + 1);
    forall n | 0 <= n < |ts| ensures Inside(s, ts[n]) && Sized(ts[n], s.bpp) {
      LineStaysInside(s, l, n);
    }
  }

  /** A line between two pixels of a frame colours exactly the pixels on it, and changes no others. */
  lemma LinePixel(mem: seq<byte>, s: Surface, l: Line, bytes: seq<byte>, px: int, py: int)
    requires InMemory(s, |mem|) && |bytes| == s.bpp && 0 <= px < s.width && 0 <= py < s.height
    requires 0 <= l.x0 < s.width && 0 <= l.x1 < s.width && 0 <= l.y0 < s.height && 0 <= l.y1 < s.height
    ensures Pixel(PressAll(mem, s, Dots(l, bytes, Major(l) + 1)), s, px, py)
         == if OnLine(l, px, py) then bytes else Pixel(mem, s, px, py)
  {
    var ts := Dots(l, bytes, Major(l) + 1);
    DotsSuit(s, l, bytes);
    OnLineIsPoint(l, px, py);
    if OnLine(l, px, py) {
      var n: nat :| n <= Major(l) && PointX(l, n) == px && PointY(l, n) == py;
      LastMarkShows(mem, s, ts, px, py, n, bytes);
    } else {
      PressAllPixel(mem, s, ts, px, py);
      AllPass(ts, px, py, Pixel(mem, s, px, py), s.bpp);
    }
  }

  // ----- in bytes

  /** A pixel of the line has the colour, and any other pixel what it had. */
  ghost predicate LinePixelStored(was: seq<byte>, now: seq<byte>, base: int, width: int, n: int, l: Line, color: int,
                                  px: int, py: int) {
    var at := base + (py * width + px) * n;
    && 0 <= at && 0 <= n <= 4 && at + n <= |was| == |now|
    && now[at..at + n]
       == if OnLine(l, px, py)
          then [color % 0x100, color / 0x100 % 0x100, color / 0x1_0000 % 0x100, color / 0x100_0000 % 0x100][..n]
          else was[at..at + n]
  }

  /** A line has been drawn on a frame of `width` by `height` pixels of `n` bytes, and no other memory changed. */
  ghost predicate LineStored(was: seq<byte>, now: seq<byte>, base: int, width: int, height: int, n: int, l: Line,
                             color: int) {
    && |now| == |was|
    && (forall px, py :: 0 <= px < width && 0 <= py < height ==>
          LinePixelStored(was, now, base, width, n, l, color, px, py))
    && forall i :: 0 <= i < |was| && (i < base || base + height * width * n <= i) ==> now[i] == was[i]
  }

  lemma LinePixelInBytes(mem: seq<byte>, now: seq<byte>, d: Driver, base: int, n: int, l: Line, color: int,
                         px: int, py: int)
    requires FrameInMemory(d, |mem|) && 0 <= px < d.width && 0 <= py < d.height
    requires base == (if d.displayFrame == 0 then d.frame1 else d.frame0) && n == d.colorDepth / 8
    requires 0 <= l.x0 < d.width && 0 <= l.x1 < d.width && 0 <= l.y0 < d.height && 0 <= l.y1 < d.height
    requires now == PressAll(mem, DrawSurface(d), Dots(l, LittleEndian(color)[..Bpp(d.colorDepth)], Major(l) + 1))
    ensures LinePixelStored(mem, now, base, d.width, n, l, color, px, py)
  {
    var on, bytes := OnLine(l, px, py), LittleEndian(color)[..Bpp(d.colorDepth)];
    LinePixelChosen(mem, now, d, l, bytes, px, py, on);
    ChosenStored(mem, now, d, base, n, l, color, bytes, px, py, on);
  }

  lemma LinePixelChosen(mem: seq<byte>, now: seq<byte>, d: Driver, l: Line, bytes: seq<byte>, px: int, py: int,
                        on: bool)
    requires FrameInMemory(d, |mem|) && 0 <= px < d.width && 0 <= py < d.height && on == OnLine(l, px, py)
    requires 0 <= l.x0 < d.width && 0 <= l.x1 < d.width && 0 <= l.y0 < d.height && 0 <= l.y1 < d.height
    requires |bytes| == Bpp(d.colorDepth) && now == PressAll(mem, DrawSurface(d), Dots(l, bytes, Major(l) + 1))
    ensures |now| == |mem|
    ensures Pixel(now, DrawSurface(d), px, py) == if on then bytes else Pixel(mem, DrawSurface(d), px, py)
  {
    PixelBytes(mem, d, px, py);
    LinePixel(mem, DrawSurface(d), l, bytes, px, py);
  }

  lemma ChosenStored(mem: seq<byte>, now: seq<byte>, d: Driver, base: int, n: int, l: Line, color: int,
                     bytes: seq<byte>, px: int, py: int, on: bool)
    requires FrameInMemory(d, |mem|) && 0 <= px < d.width && 0 <= py < d.height && |now| == |mem|
    requires base == (if d.displayFrame == 0 then d.frame1 else d.frame0) && n == d.colorDepth / 8
    requires bytes == LittleEndian(color)[..Bpp(d.colorDepth)] && on == OnLine(l, px, py)
    requires Pixel(now, DrawSurface(d), px, py) == if on then bytes else Pixel(mem, DrawSurface(d), px, py)
    ensures LinePixelStored(mem, now, base, d.width, n, l, color, px, py)
  {
    var at := ChosenAt(mem, now, d, base, n, bytes, px, py, on);
    StoredAt(mem, now, base, d.width, n, l, color, px, py, at);
  }

  lemma ChosenAt(mem: seq<byte>, now: seq<byte>, d: Driver, base: int, n: int, bytes: seq<byte>, px: int, py: int,
                 on: bool)
    returns (at: int)
    requires FrameInMemory(d, |mem|) && 0 <= px < d.width && 0 <= py < d.height && |now| == |mem|
    requires base == (if d.displayFrame == 0 then d.frame1 else d.frame0) && n == d.colorDepth / 8
    requires Pixel(now, DrawSurface(d), px, py) == if on then bytes else Pixel(mem, DrawSurface(d), px, py)
    ensures at == base + (py * d.width + px) * n && 0 <= at && at + n <= |mem| && n == Bpp(d.colorDepth)
    ensures now[at..at + n] == if on then bytes else mem[at..at + n]
  {
    at := ByteOf(d, px, py);
    PixelBytes(mem, d, px, py);
    PixelBytes(now, d, px, py);
    ByteOfIs(d, px, py);
  }

  lemma StoredAt(was: seq<byte>, now: seq<byte>, base: int, width: int, n: int, l: Line, color: int, px: int, py: int,
                 at: int)
    requires at == base + (py * width + px) * n && 0 <= at && 0 <= n <= 4 && at + n <= |was| == |now|
    requires now[at..at + n] == if OnLine(l, px, py) then LittleEndian(color)[..n] else was[at..at + n]
    ensures LinePixelStored(was, now, base, width, n, l, color, px, py)
  {
  }

  lemma LineInBytes(mem: seq<byte>, now: seq<byte>, d: Driver, base: int, n: int, l: Line, color: int)
    requires FrameInMemory(d, |mem|)
    requires base == (if d.displayFrame == 0 then d.frame1 else d.frame0) && n == d.colorDepth / 8
    requires 0 <= l.x0 < d.width && 0 <= l.x1 < d.width && 0 <= l.y0 < d.height && 0 <= l.y1 < d.height
    requires now == PressAll(mem, DrawSurface(d), Dots(l, LittleEndian(color)[..Bpp(d.colorDepth)], Major(l) + 1))
    ensures LineStored(mem, now, base, d.width, d.height, n, l, color)
  {
    forall px, py | 0 <= px < d.width && 0 <= py < d.height
      ensures LinePixelStored(mem, now, base, d.width, n, l, color, px, py)
    {
      LinePixelInBytes(mem, now, d, base, n, l, color, px, py);
    }
    LineOutside(mem, now, d, base, n, l, LittleEndian(color)[..Bpp(d.colorDepth)]);
  }

  lemma LineOutside(mem: seq<byte>, now: seq<byte>, d: Driver, base: int, n: int, l: Line, bytes: seq<byte>)
    requires FrameInMemory(d, |mem|) && |bytes| == Bpp(d.colorDepth)
    requires base == (if d.displayFrame == 0 then d.frame1 else d.frame0) && n == d.colorDepth / 8
    requires 0 <= l.x0 < d.width && 0 <= l.x1 < d.width && 0 <= l.y0 < d.height && 0 <= l.y1 < d.height
    requires now == PressAll(mem, DrawSurface(d), Dots(l, bytes, Major(l) + 1))
    ensures forall i :: 0 <= i < |mem| && (i < base || base + d.height * d.width * n <= i) ==> now[i] == mem[i]
  {
    FrameEnds(d, |mem|);
    DotsSuit(DrawSurface(d), l, bytes);
    forall i | 0 <= i < |mem| && (i < base || base + d.height * d.width * n <= i) ensures now[i] == mem[i] {
      PressAllOutside(mem, DrawSurface(d), Dots(l, bytes, Major(l) + 1), i);
    }
  }

  /** Draws a line on the frame that is not on the screen; the end points are 16-bit values. */
  method DrawSlopedLine(display: VipFrameReader, l: Line, color: int)
    requires EndsFit(l) && display.width >= 0 && LineFits(DrawSurface(display.View()), l, display.ram.Length)
    modifies display.ram
    ensures display.ram[..] == PressAll(old(display.ram[..]), DrawSurface(display.View()),
                                        Dots(l, LittleEndian(color)[..Bpp(display.colorDepth)], Major(l) + 1))
    ensures var base := if display.displayFrame == 0 then display.frame1Base else display.frame0Base;
            && display.colorDepth in {16, 24, 32} && 0 <= base
            && base + display.height * display.width * (display.colorDepth / 8) <= display.ram.Length
            && 0 <= l.x0 < display.width && 0 <= l.x1 < display.width
            && 0 <= l.y0 < display.height && 0 <= l.y1 < display.height
            ==> LineStored(old(display.ram[..]), display.ram[..], base, display.width, display.height,
                           display.colorDepth / 8, l, color)
  {
    var s := DrawSurface(display.View());
    ghost var was := display.ram[..];
    ghost var frames := FramesOf(was, s, l, color);
    assert frames(0) == was;
    if Distance(l.x0, l.x1) >= Distance(l.y0, l.y1) {
      DrawFlat(display.ram, s, display.colorDepth, l, color, frames, was);
    } else {
      DrawSteep(display.ram, s, display.colorDepth, l, color, frames, was);
    }
    ghost var d := display.View();
    if && FrameInMemory(d, display.ram.Length)
       && 0 <= l.x0 < d.width && 0 <= l.x1 < d.width && 0 <= l.y0 < d.height && 0 <= l.y1 < d.height
    {
      LineInBytes(was, display.ram[..], d, if d.displayFrame == 0 then d.frame1 else d.frame0, d.colorDepth / 8, l,
                  color);
    }
  }
}
