/**
 Pictures drawn one after another on a frame.  A stamp is a rectangle with a cell function; the
 module shows that pressing any list of stamps acts on every pixel separately, and when the
 order of the list does not matter.
 */
module Painter {
  import opened Arithmetic
  import opened Bytes
  import opened Raster

  /** A frame of `width` by `height` pixels at `base` in memory. */
  datatype Surface = Surface(base: int, width: nat, height: nat, bpp: nat)

  datatype Stamp = Stamp(x: int, y: int, rows: nat, cols: nat, cell: CellFn)

  function GridOf(s: Surface, t: Stamp): Grid {
    Grid(s.base, s.width, s.bpp, t.x, t.y)
  }

  function PixelOff(s: Surface, px: int, py: int): int {
    s.base + (py * s.width + px) * s.bpp
  }

  /** The bytes of the pixel in column `px` of line `py`. */
  function Pixel(mem: seq<byte>, s: Surface, px: int, py: int): seq<byte> {
    Slice(mem, PixelOff(s, px, py), s.bpp)
  }

  function Size(s: Surface): nat {
    s.height * s.width * s.bpp
  }

  predicate InMemory(s: Surface, len: int) {
    0 <= s.base && s.base + Size(s) <= len
  }

  predicate Inside(s: Surface, t: Stamp) {
    0 <= t.x && t.x + t.cols <= s.width && 0 <= t.y && t.y + t.rows <= s.height
  }

  predicate Covers(t: Stamp, px: int, py: int) {
    t.x <= px < t.x + t.cols && t.y <= py < t.y + t.rows
  }

  ghost predicate Sized(t: Stamp, bpp: nat) {
    forall r, c, px :: |px| == bpp ==> |t.cell(r, c, px)| == bpp
  }

  /** The stamps suit the frame: inside it, and with cells of its pixel size. */
  ghost predicate Suits(s: Surface, ts: seq<Stamp>) {
    forall i :: 0 <= i < |ts| ==> Inside(s, ts[i]) && Sized(ts[i], s.bpp)
  }

  ghost predicate Apart(t: Stamp, u: Stamp) {
    || t.x + t.cols <= u.x
    || u.x + u.cols <= t.x
    || t.y + t.rows <= u.y
    || u.y + u.rows <= t.y
  }

  ghost predicate PairwiseApart(ts: seq<Stamp>) {
    forall i, j :: 0 <= i < j < |ts| ==> Apart(ts[i], ts[j])
  }

  function Press(mem: seq<byte>, s: Surface, t: Stamp): (m: seq<byte>)
    ensures |m| == |mem|
  {
    PutRows(mem, GridOf(s, t), t.cell, t.rows, t.cols)
  }

  ghost function PressAll(mem: seq<byte>, s: Surface, ts: seq<Stamp>): (m: seq<byte>)
    ensures |m| == |mem|
  {
    if ts == [] then mem else Press(PressAll(mem, s, ts[..|ts| - 1]), s, ts[|ts| - 1])
  }

  /** What the stamps make of a single pixel, the others left aside. */
  ghost function PixelAfter(ts: seq<Stamp>, px: int, py: int, was: seq<byte>): seq<byte> {
    if ts == [] then was
    else
      var before := PixelAfter(ts[..|ts| - 1], px, py, was);
      var t := ts[|ts| - 1];
      if Covers(t, px, py) then t.cell(py - t.y, px - t.x, before) else before
  }

  /** The stamps that cover a pixel, in order. */
  ghost function Covering(ts: seq<Stamp>, px: int, py: int): seq<Stamp> {
    if ts == [] then []
    else
      var front := Covering(ts[..|ts| - 1], px, py);
      if Covers(ts[|ts| - 1], px, py) then front + [ts[|ts| - 1]] else front
  }

  // ----- one stamp

  /** A stamp inside a frame in memory writes only to memory. */
  lemma InsideFits(s: Surface, t: Stamp, len: int)
    requires InMemory(s, len) && Inside(s, t)
    ensures Fits(GridOf(s, t), t.rows, t.cols, len)
  {
    forall r, c | 0 <= r < t.rows && 0 <= c < t.cols
      ensures 0 <= Off(GridOf(s, t), r, c) && Off(GridOf(s, t), r, c) + s.bpp <= len
    {
      GridPixel(s, t, r, c);
      PixelInMemory(s, t.x + c, t.y + r);
    }
  }

  lemma PixelOffIs(s: Surface, px: int, py: int)
    ensures PixelOff(s, px, py) == s.base + (py * s.width + px) * s.bpp
  {
  }

  /** A pixel in memory is the stretch of bytes at its place. */
  lemma PixelIs(mem: seq<byte>, s: Surface, px: int, py: int)
    requires InMemory(s, |mem|) && 0 <= px < s.width && 0 <= py < s.height
    ensures var at := s.base + (py * s.width + px) * s.bpp;
            0 <= at && at + s.bpp <= |mem| && Pixel(mem, s, px, py) == mem[at..at + s.bpp]
  {
    PixelInMemory(s, px, py);
    IsSlice(mem, PixelOff(s, px, py), s.bpp);
  }

  lemma PixelInMemory(s: Surface, px: int, py: int)
    requires 0 <= px < s.width && 0 <= py < s.height
    ensures s.base <= PixelOff(s, px, py)
    ensures PixelOff(s, px, py) + s.bpp <= s.base + Size(s)
  {
    var p := py * s.width + px;
    PixelOffIs(s, px, py);
    MulMonotone(0, py, s.width);
    LineBound(py, px, s.height, s.width);
    MulMonotone(0, p, s.bpp);
    MulAdd(p, 1, s.bpp);
    MulMonotone(p + 1, s.height * s.width, s.bpp);
  }

  lemma GridPixel(s: Surface, t: Stamp, r: int, c: int)
    ensures Off(GridOf(s, t), r, c) == PixelOff(s, t.x + c, t.y + r)
  {
  }

  /** A pixel off the rectangle lies in none of the rectangle's rows. */
  lemma RowMissesPixel(s: Surface, t: Stamp, px: int, py: int, r: nat, i: int)
    requires Inside(s, t) && 0 <= px < s.width && !Covers(t, px, py) && r < t.rows
    requires PixelOff(s, px, py) <= i < PixelOff(s, px, py) + s.bpp
    ensures i < Off(GridOf(s, t), r, 0) || Off(GridOf(s, t), r, t.cols) <= i
  {
    var q := py * s.width + px;
    var lo := (t.y + r) * s.width + t.x;
    PixelOffIs(s, px, py);
    OffIs(GridOf(s, t), r, 0);
    OffIs(GridOf(s, t), r, t.cols);
    if py < t.y + r || (py == t.y + r && px < t.x) {
      if py < t.y + r {
        LineBound(py, px, t.y + r, s.width);
      }
      MulAdd(q, 1, s.bpp);
      MulMonotone(q + 1, lo, s.bpp);
    } else {
      if t.y + r < py {
        LineBound(t.y + r, t.x + t.cols - 1, py, s.width);
      }
      MulMonotone(lo + t.cols, q, s.bpp);
    }
  }

  /** Pressing a stamp rewrites exactly the pixels of its rectangle. */
  lemma PressPixel(mem: seq<byte>, s: Surface, t: Stamp, px: int, py: int)
    requires InMemory(s, |mem|) && Inside(s, t) && Sized(t, s.bpp)
    requires 0 <= px < s.width && 0 <= py < s.height
    ensures Pixel(Press(mem, s, t), s, px, py)
         == if Covers(t, px, py) then t.cell(py - t.y, px - t.x, Pixel(mem, s, px, py)) else Pixel(mem, s, px, py)
  {
    PixelInMemory(s, px, py);
    var g := GridOf(s, t);
    if Covers(t, px, py) {
      GridPixel(s, t, py - t.y, px - t.x);
      RowsSlice(mem, g, t.cell, t.rows, t.cols, py - t.y, px - t.x);
    } else {
      var at := PixelOff(s, px, py);
      forall i | at <= i < at + s.bpp && 0 <= i < |mem| ensures Press(mem, s, t)[i] == mem[i] {
        forall r | 0 <= r < t.rows ensures i < Off(g, r, 0) || Off(g, r, t.cols) <= i {
          RowMissesPixel(s, t, px, py, r, i);
        }
        RowsFrame(mem, g, t.cell, t.rows, t.cols, i);
      }
      SliceSame(Press(mem, s, t), mem, at, s.bpp);
    }
  }

  /** A stamp inside the frame leaves all memory outside the frame alone. */
  lemma PressOutside(mem: seq<byte>, s: Surface, t: Stamp, i: nat)
    requires Inside(s, t) && i < |mem| && (i < s.base || s.base + Size(s) <= i)
    ensures Press(mem, s, t)[i] == mem[i]
  {
    var g := GridOf(s, t);
    forall r | 0 <= r < t.rows ensures i < Off(g, r, 0) || Off(g, r, t.cols) <= i {
      var lo := (t.y + r) * s.width + t.x;
      OffIs(g, r, 0);
      OffIs(g, r, t.cols);
      if t.cols > 0 {
        LineBound(t.y + r, t.x + t.cols - 1, s.height, s.width);
        MulMonotone(0, t.y + r, s.width);
        MulMonotone(0, lo, s.bpp);
        MulMonotone(lo + t.cols, s.height * s.width, s.bpp);
      }
    }
    RowsFrame(mem, g, t.cell, t.rows, t.cols, i);
  }

  // ----- any list of stamps

  /** Drawing acts pixelwise: whatever the list, each pixel sees only the stamps that cover it. */
  lemma {:induction false} PressAllPixel(mem: seq<byte>, s: Surface, ts: seq<Stamp>, px: int, py: int)
    requires InMemory(s, |mem|) && Suits(s, ts)
    requires 0 <= px < s.width && 0 <= py < s.height
    ensures Pixel(PressAll(mem, s, ts), s, px, py) == PixelAfter(ts, px, py, Pixel(mem, s, px, py))
  {
    if ts != [] {
      PressAllPixel(mem, s, ts[..|ts| - 1], px, py);
      PressPixel(PressAll(mem, s, ts[..|ts| - 1]), s, ts[|ts| - 1], px, py);
    }
  }

  lemma {:induction false} PressAllOutside(mem: seq<byte>, s: Surface, ts: seq<Stamp>, i: nat)
    requires Suits(s, ts) && i < |mem| && (i < s.base || s.base + Size(s) <= i)
    ensures PressAll(mem, s, ts)[i] == mem[i]
  {
    if ts != [] {
      PressAllOutside(mem, s, ts[..|ts| - 1], i);
      PressOutside(PressAll(mem, s, ts[..|ts| - 1]), s, ts[|ts| - 1], i);
    }
  }

  lemma {:induction false} PressAllAppend(mem: seq<byte>, s: Surface, ts: seq<Stamp>, us: seq<Stamp>)
    ensures PressAll(mem, s, ts + us) == PressAll(PressAll(mem, s, ts), s, us)
  {
    if us == [] {
      assert ts + us == ts;
    } else {
      assert (ts + us)[..|ts + us| - 1] == ts + us[..|us| - 1];
      PressAllAppend(mem, s, ts, us[..|us| - 1]);
    }
  }

  /** Memories that agree on every pixel and outside the frame are equal. */
  lemma SamePixels(m: seq<byte>, n: seq<byte>, s: Surface)
    requires |m| == |n| && InMemory(s, |m|)
    requires forall i :: 0 <= i < |m| && (i < s.base || s.base + Size(s) <= i) ==> m[i] == n[i]
    requires forall px, py :: 0 <= px < s.width && 0 <= py < s.height ==> Pixel(m, s, px, py) == Pixel(n, s, px, py)
    ensures m == n
  {
    forall i | 0 <= i < |m| ensures m[i] == n[i] {
      if s.base <= i < s.base + Size(s) {
        var px, py, k := LocateByte(s, i - s.base);
        assert Pixel(m, s, px, py)[k] == Peek(m, i) && Pixel(n, s, px, py)[k] == Peek(n, i);
      }
    }
  }

  lemma LocateByte(s: Surface, d: nat) returns (px: int, py: int, k: int)
    requires d < Size(s)
    ensures 0 <= px < s.width && 0 <= py < s.height && 0 <= k < s.bpp
    ensures PixelOff(s, px, py) + k == s.base + d
  {
    var p: nat;
    p, k := SplitIndex(d, s.height * s.width, s.bpp);
    py, px := SplitIndex(p, s.height, s.width);
    PixelOffIs(s, px, py);
  }

  // ----- when order does not matter

  lemma {:induction false} OnlyCoveringMatter(ts: seq<Stamp>, px: int, py: int, was: seq<byte>)
    ensures PixelAfter(ts, px, py, was) == PixelAfter(Covering(ts, px, py), px, py, was)
  {
    if ts != [] {
      OnlyCoveringMatter(ts[..|ts| - 1], px, py, was);
      var front := Covering(ts[..|ts| - 1], px, py);
      var t := ts[|ts| - 1];
      if Covers(t, px, py) {
        assert (front + [t])[..|front + [t]| - 1] == front;
      }
    }
  }

  lemma {:induction false} CoveringCount(ts: seq<Stamp>, px: int, py: int, t: Stamp)
    ensures multiset(Covering(ts, px, py))[t] == if Covers(t, px, py) then multiset(ts)[t] else 0
  {
    if ts != [] {
      CoveringCount(ts[..|ts| - 1], px, py, t);
      assert ts == ts[..|ts| - 1] + [ts[|ts| - 1]];
    }
  }

  lemma {:induction false} NoneCovering(ts: seq<Stamp>, px: int, py: int)
    requires forall i :: 0 <= i < |ts| ==> !Covers(ts[i], px, py)
    ensures Covering(ts, px, py) == []
  {
    if ts != [] {
      NoneCovering(ts[..|ts| - 1], px, py);
    }
  }

  lemma {:induction false} ApartCoverOnce(ts: seq<Stamp>, px: int, py: int)
    requires PairwiseApart(ts)
    ensures |Covering(ts, px, py)| <= 1
  {
    if ts != [] {
      var front, t := ts[..|ts| - 1], ts[|ts| - 1];
      ApartCoverOnce(front, px, py);
      if Covers(t, px, py) {
        assert forall i :: 0 <= i < |front| ==> Apart(ts[i], ts[|ts| - 1]) && front[i] == ts[i];
        NoneCovering(front, px, py);
      }
    }
  }

  /** Stamps on disjoint rectangles may be pressed in any order. */
  lemma OrderIrrelevant(mem: seq<byte>, s: Surface, ts: seq<Stamp>, us: seq<Stamp>)
    requires InMemory(s, |mem|) && Suits(s, ts)
    requires PairwiseApart(ts) && multiset(ts) == multiset(us)
    ensures PressAll(mem, s, ts) == PressAll(mem, s, us)
  {
    assert Suits(s, us) by {
      forall i | 0 <= i < |us| ensures Inside(s, us[i]) && Sized(us[i], s.bpp) {
        assert us[i] in multiset(us);
        assert us[i] in ts;
      }
    }
    var m, n := PressAll(mem, s, ts), PressAll(mem, s, us);
    forall i | 0 <= i < |m| && (i < s.base || s.base + Size(s) <= i) ensures m[i] == n[i] {
      PressAllOutside(mem, s, ts, i);
      PressAllOutside(mem, s, us, i);
    }
    forall px, py | 0 <= px < s.width && 0 <= py < s.height ensures Pixel(m, s, px, py) == Pixel(n, s, px, py) {
      PressAllPixel(mem, s, ts, px, py);
      PressAllPixel(mem, s, us, px, py);
      OnlyCoveringMatter(ts, px, py, Pixel(mem, s, px, py));
      OnlyCoveringMatter(us, px, py, Pixel(mem, s, px, py));
      SameCovering(ts, us, px, py);
    }
    SamePixels(m, n, s);
  }

  lemma SameCovering(ts: seq<Stamp>, us: seq<Stamp>, px: int, py: int)
    requires PairwiseApart(ts) && multiset(ts) == multiset(us)
    ensures Covering(ts, px, py) == Covering(us, px, py)
  {
    var a, b := Covering(ts, px, py), Covering(us, px, py);
    forall t ensures multiset(a)[t] == multiset(b)[t] {
      CoveringCount(ts, px, py, t);
      CoveringCount(us, px, py, t);
    }
    assert multiset(a) == multiset(b);
    ApartCoverOnce(ts, px, py);
    assert |a| == |multiset(a)| == |multiset(b)| == |b|;
    if |a| == 1 {
      assert a == [a[0]] && b == [b[0]];
      assert multiset(a) == multiset{a[0]};
      assert b[0] in multiset(b);
    }
  }

  /** With the rectangles disjoint, a covered pixel is one cell function applied to the original pixel. */
  lemma ApartPixel(mem: seq<byte>, s: Surface, ts: seq<Stamp>, i: nat, px: int, py: int)
    requires InMemory(s, |mem|) && Suits(s, ts) && PairwiseApart(ts)
    requires i < |ts| && Covers(ts[i], px, py)
    ensures Pixel(PressAll(mem, s, ts), s, px, py)
         == ts[i].cell(py - ts[i].y, px - ts[i].x, Pixel(mem, s, px, py))
  {
    PressAllPixel(mem, s, ts, px, py);
    OnlyCoveringMatter(ts, px, py, Pixel(mem, s, px, py));
    OnlyOneCovers(ts, i, px, py);
    OneStamp(ts[i], px, py, Pixel(mem, s, px, py));
  }

  lemma OnlyOneCovers(ts: seq<Stamp>, i: nat, px: int, py: int)
    requires PairwiseApart(ts) && i < |ts| && Covers(ts[i], px, py)
    ensures Covering(ts, px, py) == [ts[i]]
  {
    ApartCoverOnce(ts, px, py);
    CoveringCount(ts, px, py, ts[i]);
    var a := Covering(ts, px, py);
    assert ts[i] in multiset(ts);
    assert ts[i] in multiset(a);
  }

  lemma OneStamp(t: Stamp, px: int, py: int, was: seq<byte>)
    requires Covers(t, px, py)
    ensures PixelAfter([t], px, py, was) == t.cell(py - t.y, px - t.x, was)
  {
    assert [t][..0] == [];
  }

  // ----- stamps that either colour a pixel or let it be

  /** The stamp gives the pixel the bytes `v`, whatever it held. */
  ghost predicate Marks(t: Stamp, px: int, py: int, bpp: nat, v: seq<byte>) {
    Covers(t, px, py) && forall was :: |was| == bpp ==> t.cell(py - t.y, px - t.x, was) == v
  }

  /** The stamp leaves the pixel as it is. */
  ghost predicate Passes(t: Stamp, px: int, py: int, bpp: nat) {
    Covers(t, px, py) ==> forall was :: |was| == bpp ==> t.cell(py - t.y, px - t.x, was) == was
  }

  lemma PressMarks(mem: seq<byte>, s: Surface, t: Stamp, px: int, py: int, v: seq<byte>)
    requires InMemory(s, |mem|) && Inside(s, t) && Sized(t, s.bpp)
    requires 0 <= px < s.width && 0 <= py < s.height && Marks(t, px, py, s.bpp, v)
    ensures Pixel(Press(mem, s, t), s, px, py) == v
  {
    PressPixel(mem, s, t, px, py);
  }

  lemma PressPasses(mem: seq<byte>, s: Surface, t: Stamp, px: int, py: int)
    requires InMemory(s, |mem|) && Inside(s, t) && Sized(t, s.bpp)
    requires 0 <= px < s.width && 0 <= py < s.height && Passes(t, px, py, s.bpp)
    ensures Pixel(Press(mem, s, t), s, px, py) == Pixel(mem, s, px, py)
  {
    PressPixel(mem, s, t, px, py);
  }

  /** The last stamp that colours a pixel decides it. */
  lemma {:induction false} LastMarkWins(ts: seq<Stamp>, px: int, py: int, was: seq<byte>, bpp: nat, j: nat,
                                        v: seq<byte>)
    requires |was| == bpp && |v| == bpp
    requires forall i :: 0 <= i < |ts| ==> Sized(ts[i], bpp)
    requires j < |ts| && Marks(ts[j], px, py, bpp, v)
    requires forall i :: j < i < |ts| ==> Passes(ts[i], px, py, bpp)
    ensures PixelAfter(ts, px, py, was) == v
  {
    PixelAfterSize(ts[..|ts| - 1], px, py, was, bpp);
    if j < |ts| - 1 {
      LastMarkWins(ts[..|ts| - 1], px, py, was, bpp, j, v);
      assert Passes(ts[|ts| - 1], px, py, bpp);
    }
  }

  lemma {:induction false} PixelAfterSize(ts: seq<Stamp>, px: int, py: int, was: seq<byte>, bpp: nat)
    requires |was| == bpp && forall i :: 0 <= i < |ts| ==> Sized(ts[i], bpp)
    ensures |PixelAfter(ts, px, py, was)| == bpp
  {
    if ts != [] {
      PixelAfterSize(ts[..|ts| - 1], px, py, was, bpp);
      assert Sized(ts[|ts| - 1], bpp);
    }
  }

  lemma {:induction false} AllPass(ts: seq<Stamp>, px: int, py: int, was: seq<byte>, bpp: nat)
    requires |was| == bpp
    requires forall i :: 0 <= i < |ts| ==> Passes(ts[i], px, py, bpp)
    ensures PixelAfter(ts, px, py, was) == was
  {
    if ts != [] {
      AllPass(ts[..|ts| - 1], px, py, was, bpp);
      assert Passes(ts[|ts| - 1], px, py, bpp);
    }
  }

  /** On the frame: the last stamp to colour a pixel decides it, whatever was drawn before. */
  lemma LastMarkShows(mem: seq<byte>, s: Surface, ts: seq<Stamp>, px: int, py: int, j: nat, v: seq<byte>)
    requires InMemory(s, |mem|) && Suits(s, ts) && |v| == s.bpp
    requires 0 <= px < s.width && 0 <= py < s.height
    requires j < |ts| && Marks(ts[j], px, py, s.bpp, v)
    requires forall i :: j < i < |ts| ==> Passes(ts[i], px, py, s.bpp)
    ensures Pixel(PressAll(mem, s, ts), s, px, py) == v
  {
    PressAllPixel(mem, s, ts, px, py);
    LastMarkWins(ts, px, py, Pixel(mem, s, px, py), s.bpp, j, v);
  }

  /** A cell function that skips some cells and gives the others bytes of their own. */
  function KeyedCell(skip: (int, int) -> bool, bytes: (int, int) -> seq<byte>): CellFn {
    (r, c, px) => if skip(r, c) then px else bytes(r, c)
  }

  lemma KeyedMarks(t: Stamp, skip: (int, int) -> bool, bytes: (int, int) -> seq<byte>, px: int, py: int, bpp: nat,
                   v: seq<byte>)
    requires t.cell == KeyedCell(skip, bytes)
    requires Covers(t, px, py) && !skip(py - t.y, px - t.x) && bytes(py - t.y, px - t.x) == v
    ensures Marks(t, px, py, bpp, v)
  {
  }

  lemma KeyedPasses(t: Stamp, skip: (int, int) -> bool, bytes: (int, int) -> seq<byte>, px: int, py: int, bpp: nat)
    requires t.cell == KeyedCell(skip, bytes)
    requires Covers(t, px, py) ==> skip(py - t.y, px - t.x)
    ensures Passes(t, px, py, bpp)
  {
  }

  lemma KeyedSized(t: Stamp, skip: (int, int) -> bool, bytes: (int, int) -> seq<byte>, bpp: nat)
    requires t.cell == KeyedCell(skip, bytes)
    requires forall r, c :: |bytes(r, c)| == bpp
    ensures Sized(t, bpp)
  {
  }
}
