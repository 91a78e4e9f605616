/**
 The loop shape that every pixel routine of the firmware shares: row by row and column by
 column, one cell of a strided image is read and rewritten.  What a routine does to a cell is
 a function of the cell's row, its column and its present bytes.
 */
module Raster {
  import opened Arithmetic
  import opened Bytes

  /** Where cells lie: `stride` cells of `bpp` bytes to a line, the first cell at column `x` of line `y`. */
  datatype Grid = Grid(base: int, stride: int, bpp: nat, x: int, y: int)

  type CellFn = (int, int, seq<byte>) -> seq<byte>

  /** The first byte of the cell at row `r`, column `c`. */
  function Off(g: Grid, r: int, c: int): int {
    g.base + ((g.y + r) * g.stride + g.x + c) * g.bpp
  }

  /** Every cell lies within a buffer of `len` bytes. */
  ghost predicate Fits(g: Grid, rows: int, cols: int, len: int) {
    forall r, c :: 0 <= r < rows && 0 <= c < cols ==> 0 <= Off(g, r, c) && Off(g, r, c) + g.bpp <= len
  }

  function PutCell(mem: seq<byte>, g: Grid, f: CellFn, r: int, c: int): (m: seq<byte>)
    ensures |m| == |mem|
  {
    Splice(mem, Off(g, r, c), g.bpp, f(r, c, Slice(mem, Off(g, r, c), g.bpp)))
  }

  function PutRow(mem: seq<byte>, g: Grid, f: CellFn, r: int, cols: nat): (m: seq<byte>)
    ensures |m| == |mem|
  {
    if cols == 0 then mem else PutCell(PutRow(mem, g, f, r, cols - 1), g, f, r, cols - 1)
  }

  function PutRows(mem: seq<byte>, g: Grid, f: CellFn, rows: nat, cols: nat): (m: seq<byte>)
    ensures |m| == |mem|
  {
    if rows == 0 then mem else PutRow(PutRows(mem, g, f, rows - 1, cols), g, f, rows - 1, cols)
  }

  lemma CellAt(mem: seq<byte>, g: Grid, f: CellFn, r: int, c: int, at: int, bytes: seq<byte>)
    requires at == Off(g, r, c) && bytes == f(r, c, Slice(mem, at, g.bpp))
    ensures Splice(mem, at, g.bpp, bytes) == PutCell(mem, g, f, r, c)
  {
  }

  // ----- offsets

  lemma OffIs(g: Grid, r: int, c: int)
    ensures Off(g, r, c) == g.base + ((g.y + r) * g.stride + g.x + c) * g.bpp
  {
  }

  lemma OffOrigin(g: Grid)
    requires g.x == 0 && g.y == 0
    ensures Off(g, 0, 0) == g.base
  {
    OffIs(g, 0, 0);
  }

  lemma OffColumn(g: Grid, r: int, c: int, d: int)
    ensures Off(g, r, c + d) == Off(g, r, c) + d * g.bpp
  {
    OffIs(g, r, c);
    OffIs(g, r, c + d);
    MulAdd((g.y + r) * g.stride + g.x + c, d, g.bpp);
  }

  lemma OffRow(g: Grid, r: int, c: int, d: int)
    ensures Off(g, r + d, c) == Off(g, r, c) + d * g.stride * g.bpp
  {
    OffIs(g, r, c);
    OffIs(g, r + d, c);
    MulAdd(g.y + r, d, g.stride);
    MulAdd((g.y + r) * g.stride + g.x + c, d * g.stride, g.bpp);
  }

  /** One cell on, and one line on. */
  lemma OffNext(g: Grid, r: int, c: int)
    ensures Off(g, r, c + 1) == Off(g, r, c) + g.bpp
    ensures Off(g, r + 1, c) == Off(g, r, c) + Product(g.stride, g.bpp)
  {
    OffColumn(g, r, c, 1);
    OffRow(g, r, c, 1);
    ProductIs(g.stride, g.bpp);
  }

  lemma CellInRow(g: Grid, r: int, c: nat, cols: nat)
    requires c < cols
    ensures Off(g, r, 0) <= Off(g, r, c)
    ensures Off(g, r, c) + g.bpp <= Off(g, r, cols)
  {
    OffColumn(g, r, 0, c);
    OffColumn(g, r, c, cols - c);
    MulMonotone(0, c, g.bpp);
    MulMonotone(1, cols - c, g.bpp);
  }

  lemma RowsApart(g: Grid, r: int, s: int, cols: nat)
    requires r < s && cols <= g.stride
    ensures Off(g, r, cols) <= Off(g, s, 0)
  {
    OffColumn(g, r, 0, cols);
    OffRow(g, r, 0, s - r);
    MulMonotone(1, s - r, g.stride);
    MulMonotone(cols, (s - r) * g.stride, g.bpp);
  }

  // ----- one row

  lemma {:induction false} RowFrame(mem: seq<byte>, g: Grid, f: CellFn, r: int, cols: nat, i: nat)
    requires i < |mem|
    requires i < Off(g, r, 0) || Off(g, r, cols) <= i
    ensures PutRow(mem, g, f, r, cols)[i] == mem[i]
  {
    if cols > 0 {
      CellInRow(g, r, cols - 1, cols);
      RowFrame(mem, g, f, r, cols - 1, i);
    }
  }

  lemma {:induction false} RowCell(mem: seq<byte>, g: Grid, f: CellFn, r: int, cols: nat, c: nat, k: nat)
    requires c < cols && k < g.bpp && 0 <= Off(g, r, c) + k < |mem|
    ensures PutRow(mem, g, f, r, cols)[Off(g, r, c) + k]
         == Peek(f(r, c, Slice(mem, Off(g, r, c), g.bpp)), k)
  {
    var m := PutRow(mem, g, f, r, cols - 1);
    if c == cols - 1 {
      forall i | Off(g, r, c) <= i < Off(g, r, c) + g.bpp && 0 <= i < |mem| ensures m[i] == mem[i] {
        RowFrame(mem, g, f, r, cols - 1, i);
      }
      SliceSame(m, mem, Off(g, r, c), g.bpp);
    } else {
      RowCell(mem, g, f, r, cols - 1, c, k);
      CellInRow(g, r, c, cols - 1);
    }
  }

  // ----- all rows

  /** A byte that lies in no row keeps its value. */
  lemma {:induction false} RowsFrame(mem: seq<byte>, g: Grid, f: CellFn, rows: nat, cols: nat, i: nat)
    requires i < |mem|
    requires forall r :: 0 <= r < rows ==> i < Off(g, r, 0) || Off(g, r, cols) <= i
    ensures PutRows(mem, g, f, rows, cols)[i] == mem[i]
  {
    if rows > 0 {
      RowsFrame(mem, g, f, rows - 1, cols, i);
      RowFrame(PutRows(mem, g, f, rows - 1, cols), g, f, rows - 1, cols, i);
    }
  }

  /** Each cell ends as the cell function makes it of the bytes it held before the first cell was touched. */
  lemma {:induction false} RowsCell(mem: seq<byte>, g: Grid, f: CellFn, rows: nat, cols: nat, r: nat, c: nat, k: nat)
    requires cols <= g.stride
    requires r < rows && c < cols && k < g.bpp && 0 <= Off(g, r, c) + k < |mem|
    ensures PutRows(mem, g, f, rows, cols)[Off(g, r, c) + k]
         == Peek(f(r, c, Slice(mem, Off(g, r, c), g.bpp)), k)
  {
    var m := PutRows(mem, g, f, rows - 1, cols);
    CellInRow(g, r, c, cols);
    if r == rows - 1 {
      forall i | Off(g, r, c) <= i < Off(g, r, c) + g.bpp && 0 <= i < |mem| ensures m[i] == mem[i] {
        forall s | 0 <= s < r ensures Off(g, s, cols) <= i {
          RowsApart(g, s, r, cols);
        }
        RowsFrame(mem, g, f, rows - 1, cols, i);
      }
      SliceSame(m, mem, Off(g, r, c), g.bpp);
      RowCell(m, g, f, r, cols, c, k);
    } else {
      RowsCell(mem, g, f, rows - 1, cols, r, c, k);
      RowsApart(g, r, rows - 1, cols);
      RowFrame(m, g, f, rows - 1, cols, Off(g, r, c) + k);
    }
  }

  /** The whole cell at once, when it lies inside the buffer. */
  lemma RowsSlice(mem: seq<byte>, g: Grid, f: CellFn, rows: nat, cols: nat, r: nat, c: nat)
    requires cols <= g.stride && r < rows && c < cols
    requires 0 <= Off(g, r, c) && Off(g, r, c) + g.bpp <= |mem|
    requires |f(r, c, Slice(mem, Off(g, r, c), g.bpp))| == g.bpp
    ensures Slice(PutRows(mem, g, f, rows, cols), Off(g, r, c), g.bpp) == f(r, c, Slice(mem, Off(g, r, c), g.bpp))
  {
    forall k | 0 <= k < g.bpp
      ensures Peek(PutRows(mem, g, f, rows, cols), Off(g, r, c) + k) == f(r, c, Slice(mem, Off(g, r, c), g.bpp))[k]
    {
      RowsCell(mem, g, f, rows, cols, r, c, k);
    }
  }

  ghost predicate Agree(f: CellFn, h: CellFn, rows: nat, cols: nat, bpp: nat) {
    forall r, c, px :: 0 <= r < rows && 0 <= c < cols && |px| == bpp ==> f(r, c, px) == h(r, c, px)
  }

  /** Cell functions that agree on the cells of the grid do the same to a buffer. */
  lemma {:induction false} RowsCongruent(mem: seq<byte>, g: Grid, f: CellFn, h: CellFn, rows: nat, cols: nat)
    requires Agree(f, h, rows, cols, g.bpp)
    ensures PutRows(mem, g, f, rows, cols) == PutRows(mem, g, h, rows, cols)
  {
    if rows > 0 {
      RowsCongruent(mem, g, f, h, rows - 1, cols);
      RowCongruent(PutRows(mem, g, f, rows - 1, cols), g, f, h, rows - 1, cols);
    }
  }

  lemma {:induction false} RowCongruent(mem: seq<byte>, g: Grid, f: CellFn, h: CellFn, r: int, cols: nat)
    requires forall c, px :: 0 <= c < cols && |px| == g.bpp ==> f(r, c, px) == h(r, c, px)
    ensures PutRow(mem, g, f, r, cols) == PutRow(mem, g, h, r, cols)
  {
    if cols > 0 {
      RowCongruent(mem, g, f, h, r, cols - 1);
    }
  }

  /** Columns where the cell function changes nothing may be left out of a row. */
  lemma {:induction false} RowClip(mem: seq<byte>, g: Grid, f: CellFn, r: int, few: nat, cols: nat)
    requires few <= cols
    requires forall c, px :: few <= c < cols && |px| == g.bpp ==> f(r, c, px) == px
    ensures PutRow(mem, g, f, r, cols) == PutRow(mem, g, f, r, few)
  {
    if few < cols {
      RowClip(mem, g, f, r, few, cols - 1);
      SpliceSelf(PutRow(mem, g, f, r, cols - 1), Off(g, r, cols - 1), g.bpp);
    }
  }

  /** Cells that the cell function leaves alone below or to the right of a smaller rectangle may be left out. */
  lemma {:induction false} RowsClip(mem: seq<byte>, g: Grid, f: CellFn, top: nat, rows: nat, few: nat, cols: nat)
    requires few <= cols && top <= rows
    requires forall r, c, px :: 0 <= r < rows && 0 <= c < cols && (top <= r || few <= c) && |px| == g.bpp ==>
               f(r, c, px) == px
    ensures PutRows(mem, g, f, rows, cols) == PutRows(mem, g, f, top, few)
  {
    if rows > 0 {
      var m := PutRows(mem, g, f, rows - 1, cols);
      if top < rows {
        RowsClip(mem, g, f, top, rows - 1, few, cols);
        RowClip(m, g, f, rows - 1, 0, cols);
      } else {
        RowsClip(mem, g, f, top - 1, rows - 1, few, cols);
        RowClip(m, g, f, rows - 1, few, cols);
      }
    }
  }
}
