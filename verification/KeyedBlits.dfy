/**
 When the blitter that leaves out a transparent colour does the same as the one that does not.  Lines
 of a bitmap wider than the frame overlap there, so a pixel may be drawn over by a later one.
 */
module KeyedBlits {
  import opened Arithmetic
  import opened Bytes
  import opened DrawGimps
  import opened Painter
  import opened Raster

  // ----- the last word drawn at an offset

  /** The last word that a row draws at an offset, or what was drawn there before. */
  ghost function RowWord(g: Grid, skip: (int, int) -> bool, words: (int, int) -> seq<byte>, r: int, cols: nat, at: int,
                         before: Option<seq<byte>>): Option<seq<byte>> {
    if cols == 0 then before
    else if Off(g, r, cols - 1) == at && !skip(r, cols - 1) then Some(words(r, cols - 1))
    else RowWord(g, skip, words, r, cols - 1, at, before)
  }

  ghost function LastWord(g: Grid, skip: (int, int) -> bool, words: (int, int) -> seq<byte>, rows: nat, cols: nat,
                          at: int)
    : Option<seq<byte>>
  {
    if rows == 0 then None
    else RowWord(g, skip, words, rows - 1, cols, at, LastWord(g, skip, words, rows - 1, cols, at))
  }

  /** A byte of memory after the word at `at`, if any, has been drawn. */
  ghost function ByteAfter(word: Option<seq<byte>>, at: int, i: int, was: byte): byte {
    if word.Some? then Peek(word.value, i - at) else was
  }

  /** Words lie a multiple of four bytes apart. */
  lemma SameWord(g: Grid, r: int, c: int, k: int, at: int, i: int)
    requires g.bpp == 4 && at == g.base + 4 * k && at <= i < at + 4
    ensures Off(g, r, c) == at <==> Off(g, r, c) <= i < Off(g, r, c) + 4
  {
    var j := (g.y + r) * g.stride + g.x + c;
    assert Off(g, r, c) == g.base + 4 * j;
  }

  lemma CellByte(mem: seq<byte>, g: Grid, skip: (int, int) -> bool, words: (int, int) -> seq<byte>, r: int, c: int,
                 k: int, at: int, i: nat)
    requires g.bpp == 4 && at == g.base + 4 * k && at <= i < at + 4 && i < |mem|
    ensures PutCell(mem, g, KeyedCell(skip, words), r, c)[i]
         == if Off(g, r, c) == at && !skip(r, c) then Peek(words(r, c), i - at) else mem[i]
  {
    var off := Off(g, r, c);
    SameWord(g, r, c, k, at, i);
    SpliceSelf(mem, off, 4);
    CellAt(mem, g, KeyedCell(skip, words), r, c, off, KeyedCell(skip, words)(r, c, Slice(mem, off, 4)));
  }

  lemma {:induction false} RowByte(mem: seq<byte>, was: byte, g: Grid, skip: (int, int) -> bool,
                                   words: (int, int) -> seq<byte>, r: int, cols: nat, k: int, at: int, i: nat,
                                   before: Option<seq<byte>>)
    requires g.bpp == 4 && at == g.base + 4 * k && at <= i < at + 4 && i < |mem|
    requires mem[i] == ByteAfter(before, at, i, was)
    ensures PutRow(mem, g, KeyedCell(skip, words), r, cols)[i]
         == ByteAfter(RowWord(g, skip, words, r, cols, at, before), at, i, was)
  {
    if cols > 0 {
      RowByte(mem, was, g, skip, words, r, cols - 1, k, at, i, before);
      CellByte(PutRow(mem, g, KeyedCell(skip, words), r, cols - 1), g, skip, words, r, cols - 1, k, at, i);
    }
  }

  /** A byte of memory after a blit is that of the last word drawn over it. */
  lemma {:induction false} RowsByte(mem: seq<byte>, g: Grid, skip: (int, int) -> bool, words: (int, int) -> seq<byte>,
                                    rows: nat, cols: nat, k: int, at: int, i: nat)
    requires g.bpp == 4 && at == g.base + 4 * k && at <= i < at + 4 && i < |mem|
    ensures PutRows(mem, g, KeyedCell(skip, words), rows, cols)[i]
         == ByteAfter(LastWord(g, skip, words, rows, cols, at), at, i, mem[i])
  {
    if rows > 0 {
      var m := PutRows(mem, g, KeyedCell(skip, words), rows - 1, cols);
      RowsByte(mem, g, skip, words, rows - 1, cols, k, at, i);
      RowByte(m, mem[i], g, skip, words, rows - 1, cols, k, at, i, LastWord(g, skip, words, rows - 1, cols, at));
    }
  }

  predicate After(r: int, c: int, s: int, d: int) {
    r < s || (r == s && c < d)
  }

  /** The cell is drawn at this offset, and no later one is drawn over it with another word. */
  ghost predicate Stays(g: Grid, skip: (int, int) -> bool, words: (int, int) -> seq<byte>, rows: nat, cols: nat,
                        at: int, r: int, c: int) {
    && 0 <= r < rows && 0 <= c < cols && Off(g, r, c) == at && !skip(r, c)
    && forall s, d :: 0 <= s < rows && 0 <= d < cols && After(r, c, s, d) && Off(g, s, d) == at && !skip(s, d) ==>
         words(s, d) == words(r, c)
  }

  lemma {:induction false} RowKeeps(g: Grid, skip: (int, int) -> bool, words: (int, int) -> seq<byte>, r: int,
                                    from: int, cols: nat, at: int, before: Option<seq<byte>>, word: seq<byte>)
    requires from < cols && (from < 0 ==> before == Some(word))
    requires from >= 0 ==> Off(g, r, from) == at && !skip(r, from)
    requires forall d :: 0 <= d < cols && from <= d && Off(g, r, d) == at && !skip(r, d) ==> words(r, d) == word
    ensures RowWord(g, skip, words, r, cols, at, before) == Some(word)
  {
    if from < cols - 1 && cols > 0 {
      RowKeeps(g, skip, words, r, from, cols - 1, at, before, word);
    }
  }

  /** A word that stays is the last one. */
  lemma {:induction false} StaysIsLast(g: Grid, skip: (int, int) -> bool, words: (int, int) -> seq<byte>, rows: nat,
                                       cols: nat, at: int, r: int, c: int)
    requires Stays(g, skip, words, rows, cols, at, r, c)
    ensures LastWord(g, skip, words, rows, cols, at) == Some(words(r, c))
  {
    var before := LastWord(g, skip, words, rows - 1, cols, at);
    if r == rows - 1 {
      RowKeeps(g, skip, words, r, c, cols, at, before, words(r, c));
    } else {
      StaysIsLast(g, skip, words, rows - 1, cols, at, r, c);
      RowKeeps(g, skip, words, rows - 1, -1, cols, at, before, words(r, c));
    }
  }

  /** The last word a row draws is that of one of its cells, with none drawn over it. */
  lemma {:induction false} RowSource(g: Grid, skip: (int, int) -> bool, words: (int, int) -> seq<byte>, r: int,
                                     cols: nat, at: int, before: Option<seq<byte>>) returns (c: int)
    ensures -1 <= c < cols
    ensures forall d :: c < d < cols && 0 <= d ==> !(Off(g, r, d) == at && !skip(r, d))
    ensures c < 0 ==> RowWord(g, skip, words, r, cols, at, before) == before
    ensures c >= 0
        ==> Off(g, r, c) == at && !skip(r, c) && RowWord(g, skip, words, r, cols, at, before) == Some(words(r, c))
  {
    if cols == 0 {
      c := -1;
    } else if Off(g, r, cols - 1) == at && !skip(r, cols - 1) {
      c := cols - 1;
    } else {
      c := RowSource(g, skip, words, r, cols - 1, at, before);
    }
  }

  lemma {:induction false} LastSource(g: Grid, skip: (int, int) -> bool, words: (int, int) -> seq<byte>, rows: nat,
                                      cols: nat, at: int) returns (r: int, c: int)
    requires LastWord(g, skip, words, rows, cols, at).Some?
    ensures 0 <= r < rows && 0 <= c < cols && Off(g, r, c) == at && !skip(r, c)
    ensures LastWord(g, skip, words, rows, cols, at) == Some(words(r, c))
    ensures forall s, d :: 0 <= s < rows && 0 <= d < cols && After(r, c, s, d) ==> !(Off(g, s, d) == at && !skip(s, d))
  {
    var before := LastWord(g, skip, words, rows - 1, cols, at);
    var from := RowSource(g, skip, words, rows - 1, cols, at, before);
    if from >= 0 {
      r, c := rows - 1, from;
    } else {
      r, c := LastSource(g, skip, words, rows - 1, cols, at);
    }
  }

  // ----- the same words with and without one that is left out

  /** The cells skipped are those skipped anyway, and those of the word that is left out. */
  ghost predicate LeavesOut(skip: (int, int) -> bool, base: (int, int) -> bool, words: (int, int) -> seq<byte>,
                            key: seq<byte>) {
    forall r, c :: skip(r, c) <==> base(r, c) || words(r, c) == key
  }

  /** Leaving a word out makes a difference only where it would come last. */
  ghost predicate Alike(out: Option<seq<byte>>, all: Option<seq<byte>>, key: seq<byte>) {
    out != Some(key) && (all != Some(key) ==> out == all)
  }

  lemma {:induction false} RowsAlike(g: Grid, skip: (int, int) -> bool, base: (int, int) -> bool,
                                     words: (int, int) -> seq<byte>, key: seq<byte>, r: int, cols: nat, at: int,
                                     out: Option<seq<byte>>, all: Option<seq<byte>>)
    requires LeavesOut(skip, base, words, key) && Alike(out, all, key)
    ensures Alike(RowWord(g, skip, words, r, cols, at, out), RowWord(g, base, words, r, cols, at, all), key)
  {
    if cols > 0 {
      RowsAlike(g, skip, base, words, key, r, cols - 1, at, out, all);
      assert skip(r, cols - 1) <==> base(r, cols - 1) || words(r, cols - 1) == key;
    }
  }

  lemma {:induction false} LastAlike(g: Grid, skip: (int, int) -> bool, base: (int, int) -> bool,
                                     words: (int, int) -> seq<byte>, key: seq<byte>, rows: nat, cols: nat, at: int)
    requires LeavesOut(skip, base, words, key)
    ensures Alike(LastWord(g, skip, words, rows, cols, at), LastWord(g, base, words, rows, cols, at), key)
  {
    if rows > 0 {
      LastAlike(g, skip, base, words, key, rows - 1, cols, at);
      RowsAlike(g, skip, base, words, key, rows - 1, cols, at, LastWord(g, skip, words, rows - 1, cols, at),
                LastWord(g, base, words, rows - 1, cols, at));
    }
  }

  // ----- the two blitters

  function PixelWords(src: seq<byte>, srcWidth: int): (int, int) -> seq<byte> {
    (r, c) => Opaque(BitmapPixel(src, srcWidth, r, c))
  }

  /** The pixels that a blit does not draw. */
  function Skipped(src: seq<byte>, srcWidth: int, wFit: int, hFit: int, key: Option<seq<byte>>): (int, int) -> bool {
    (r, c) => !(r <= hFit && c <= wFit && key != Some(PixelWords(src, srcWidth)(r, c)))
  }

  lemma BlitIsKeyed(mem: seq<byte>, dest: int, src: seq<byte>, destWidth: int, srcWidth: int, srcHeight: int,
                    x: int, y: int, wFit: int, hFit: int, key: Option<seq<byte>>)
    ensures Blit(mem, dest, src, destWidth, srcWidth, srcHeight, x, y, wFit, hFit, key)
         == PutRows(mem, Grid(dest, destWidth, 4, x, y),
                    KeyedCell(Skipped(src, srcWidth, wFit, hFit, key), PixelWords(src, srcWidth)),
                    ToNat(srcHeight), ToNat(srcWidth))
  {
    var a := BlitCell(src, srcWidth, wFit, hFit, key);
    var b := KeyedCell(Skipped(src, srcWidth, wFit, hFit, key), PixelWords(src, srcWidth));
    forall r, c, px: seq<byte> ensures a(r, c, px) == b(r, c, px) {
      BlitCellAt(src, srcWidth, wFit, hFit, key, r, c, px);
    }
    RowsCongruent(mem, Grid(dest, destWidth, 4, x, y), a, b, ToNat(srcHeight), ToNat(srcWidth));
  }

  /** Some pixel that the blit would write has the transparent colour. */
  ghost predicate KeyOccurs(src: seq<byte>, srcWidth: int, srcHeight: int, wFit: int, hFit: int, key: seq<byte>) {
    exists r, c :: 0 <= r < srcHeight && 0 <= c < srcWidth && r <= hFit && c <= wFit
                   && Opaque(BitmapPixel(src, srcWidth, r, c)) == key
  }

  /** A later pixel of the fit, of another colour, comes to lie on the same place of the frame. */
  ghost predicate DrawnOver(g: Grid, src: seq<byte>, srcWidth: int, srcHeight: int, wFit: int, hFit: int,
                            key: seq<byte>, r: int, c: int) {
    exists s, d :: 0 <= s < srcHeight && 0 <= d < srcWidth && s <= hFit && d <= wFit
                   && After(r, c, s, d) && Off(g, s, d) == Off(g, r, c)
                           && Opaque(BitmapPixel(src, srcWidth, s, d)) != key
  }

  /** Every pixel of the fit that has the transparent colour is drawn over. */
  ghost predicate KeyHidden(g: Grid, src: seq<byte>, srcWidth: int, srcHeight: int, wFit: int, hFit: int,
                            key: seq<byte>) {
    forall r, c :: 0 <= r < srcHeight && 0 <= c < srcWidth && r <= hFit && c <= wFit
                   && Opaque(BitmapPixel(src, srcWidth, r, c)) == key ==>
                     DrawnOver(g, src, srcWidth, srcHeight, wFit, hFit, key, r, c)
  }

  /** The blits with and without the transparent colour do the same to every memory of a size. */
  ghost predicate SameBlits(len: nat, dest: int, src: seq<byte>, destWidth: int, srcWidth: int, srcHeight: int,
                            x: int, y: int, wFit: int, hFit: int, key: seq<byte>) {
    forall mem: seq<byte> :: |mem| == len ==>
      Blit(mem, dest, src, destWidth, srcWidth, srcHeight, x, y, wFit, hFit, Some(key))
      == Blit(mem, dest, src, destWidth, srcWidth, srcHeight, x, y, wFit, hFit, None)
  }

  /** If the transparent colour comes last somewhere, it is not hidden there. */
  lemma LastIsSeen(g: Grid, src: seq<byte>, srcWidth: int, srcHeight: int, wFit: int, hFit: int, key: seq<byte>,
                   at: int)
    ensures LastWord(g, Skipped(src, srcWidth, wFit, hFit, None), PixelWords(src, srcWidth), ToNat(srcHeight),
                     ToNat(srcWidth), at) == Some(key)
        ==> !KeyHidden(g, src, srcWidth, srcHeight, wFit, hFit, key)
  {
    var base, words := Skipped(src, srcWidth, wFit, hFit, None), PixelWords(src, srcWidth);
    if LastWord(g, base, words, ToNat(srcHeight), ToNat(srcWidth), at) == Some(key) {
      var r, c := LastSource(g, base, words, ToNat(srcHeight), ToNat(srcWidth), at);
      assert words(r, c) == Opaque(BitmapPixel(src, srcWidth, r, c)) == key;
      forall s, d | 0 <= s < srcHeight && 0 <= d < srcWidth && s <= hFit && d <= wFit && After(r, c, s, d)
        ensures Off(g, s, d) != Off(g, r, c)
      {
        assert !base(s, d);
      }
      assert !DrawnOver(g, src, srcWidth, srcHeight, wFit, hFit, key, r, c);
    }
  }

  lemma HiddenSame(mem: seq<byte>, dest: int, src: seq<byte>, destWidth: int, srcWidth: int, srcHeight: int,
                   x: int, y: int, wFit: int, hFit: int, key: seq<byte>)
    requires KeyHidden(Grid(dest, destWidth, 4, x, y), src, srcWidth, srcHeight, wFit, hFit, key)
    ensures Blit(mem, dest, src, destWidth, srcWidth, srcHeight, x, y, wFit, hFit, Some(key))
         == Blit(mem, dest, src, destWidth, srcWidth, srcHeight, x, y, wFit, hFit, None)
  {
    var g, words := Grid(dest, destWidth, 4, x, y), PixelWords(src, srcWidth);
    var skip, base := Skipped(src, srcWidth, wFit, hFit, Some(key)), Skipped(src, srcWidth, wFit, hFit, None);
    var rows, cols := ToNat(srcHeight), ToNat(srcWidth);
    var a, b := PutRows(mem, g, KeyedCell(skip, words), rows, cols), PutRows(mem, g, KeyedCell(base, words), rows,
                                                                             cols);
    BlitIsKeyed(mem, dest, src, destWidth, srcWidth, srcHeight, x, y, wFit, hFit, Some(key));
    BlitIsKeyed(mem, dest, src, destWidth, srcWidth, srcHeight, x, y, wFit, hFit, None);
    forall i | 0 <= i < |mem| ensures a[i] == b[i] {
      var k := (i - dest) / 4;
      var at := dest + 4 * k;
      RowsByte(mem, g, skip, words, rows, cols, k, at, i);
      RowsByte(mem, g, base, words, rows, cols, k, at, i);
      LastAlike(g, skip, base, words, key, rows, cols, at);
      LastIsSeen(g, src, srcWidth, srcHeight, wFit, hFit, key, at);
    }
  }

  /** Where no pixel in the fit has the transparent colour, the blit is the one without such a colour. */
  lemma KeyAbsent(mem: seq<byte>, dest: int, src: seq<byte>, destWidth: int, srcWidth: int, srcHeight: int,
                  x: int, y: int, wFit: int, hFit: int, key: seq<byte>)
    requires !KeyOccurs(src, srcWidth, srcHeight, wFit, hFit, key)
    ensures Blit(mem, dest, src, destWidth, srcWidth, srcHeight, x, y, wFit, hFit, Some(key))
         == Blit(mem, dest, src, destWidth, srcWidth, srcHeight, x, y, wFit, hFit, None)
  {
    HiddenSame(mem, dest, src, destWidth, srcWidth, srcHeight, x, y, wFit, hFit, key);
  }

  /** With a transparent value outside the 24-bit colours that is so for all inputs. */
  lemma WideKeyDrawsAll(mem: seq<byte>, dest: int, src: seq<byte>, destWidth: int, srcWidth: int, srcHeight: int,
                        x: int, y: int, wFit: int, hFit: int, key: seq<byte>)
    requires |key| == 4 && key[3] != 0
    ensures Blit(mem, dest, src, destWidth, srcWidth, srcHeight, x, y, wFit, hFit, Some(key))
         == Blit(mem, dest, src, destWidth, srcWidth, srcHeight, x, y, wFit, hFit, None)
  {
    KeyAbsent(mem, dest, src, destWidth, srcWidth, srcHeight, x, y, wFit, hFit, key);
  }

  /** A memory with the top byte of every word set, which a drawn colour clears, tells the two blits apart. */
  lemma KeyShows(len: nat, dest: int, src: seq<byte>, destWidth: int, srcWidth: int, srcHeight: int,
                 x: int, y: int, wFit: int, hFit: int, key: seq<byte>, r: int, c: int) returns (mem: seq<byte>)
    requires 0 <= r < srcHeight && 0 <= c < srcWidth && r <= hFit && c <= wFit
    requires key == Opaque(BitmapPixel(src, srcWidth, r, c))
    requires !DrawnOver(Grid(dest, destWidth, 4, x, y), src, srcWidth, srcHeight, wFit, hFit, key, r, c)
    requires BlitFits(Grid(dest, destWidth, 4, x, y), srcHeight, srcWidth, wFit, hFit, len)
    ensures |mem| == len
    ensures Blit(mem, dest, src, destWidth, srcWidth, srcHeight, x, y, wFit, hFit, Some(key))
         != Blit(mem, dest, src, destWidth, srcWidth, srcHeight, x, y, wFit, hFit, None)
  {
    var g, words := Grid(dest, destWidth, 4, x, y), PixelWords(src, srcWidth);
    var skip, base := Skipped(src, srcWidth, wFit, hFit, Some(key)), Skipped(src, srcWidth, wFit, hFit, None);
    mem := seq(len, i => 0xff);
    BlitIsKeyed(mem, dest, src, destWidth, srcWidth, srcHeight, x, y, wFit, hFit, Some(key));
    BlitIsKeyed(mem, dest, src, destWidth, srcWidth, srcHeight, x, y, wFit, hFit, None);
    KeyStays(g, src, srcWidth, srcHeight, wFit, hFit, key, r, c);
    TellsApart(mem, g, skip, base, words, key, srcHeight, srcWidth, r, c);
  }

  lemma TellsApart(mem: seq<byte>, g: Grid, skip: (int, int) -> bool, base: (int, int) -> bool,
                   words: (int, int) -> seq<byte>, key: seq<byte>, rows: nat, cols: nat, r: int, c: int)
    requires LeavesOut(skip, base, words, key) && Stays(g, base, words, rows, cols, Off(g, r, c), r, c)
    requires words(r, c) == key && |key| == 4 && key[3] == 0 && forall s, d :: |words(s, d)| == 4
    requires g.bpp == 4 && 0 <= Off(g, r, c) && Off(g, r, c) + 4 <= |mem|
    requires forall i :: 0 <= i < |mem| ==> mem[i] == 0xff
    ensures PutRows(mem, g, KeyedCell(skip, words), rows, cols) != PutRows(mem, g, KeyedCell(base, words), rows, cols)
  {
    var at, k := Off(g, r, c), (g.y + r) * g.stride + g.x + c;
    var last := LastWord(g, skip, words, rows, cols, at);
    StaysIsLast(g, base, words, rows, cols, at, r, c);
    LastAlike(g, skip, base, words, key, rows, cols, at);
    if last.Some? {
      var s, d := LastSource(g, skip, words, rows, cols, at);
    }
    var t := DifferentByte(last, key, at);
    RowsByte(mem, g, skip, words, rows, cols, k, at, at + t);
    RowsByte(mem, g, base, words, rows, cols, k, at, at + t);
  }

  lemma KeyStays(g: Grid, src: seq<byte>, srcWidth: int, srcHeight: int, wFit: int, hFit: int, key: seq<byte>, r: int,
                 c: int)
    requires 0 <= r < srcHeight && 0 <= c < srcWidth && r <= hFit && c <= wFit
    requires key == Opaque(BitmapPixel(src, srcWidth, r, c))
    requires !DrawnOver(g, src, srcWidth, srcHeight, wFit, hFit, key, r, c)
    ensures Stays(g, Skipped(src, srcWidth, wFit, hFit, None), PixelWords(src, srcWidth), srcHeight, srcWidth,
                  Off(g, r, c), r, c)
  {
    var base, words := Skipped(src, srcWidth, wFit, hFit, None), PixelWords(src, srcWidth);
    forall s, d | 0 <= s < srcHeight && 0 <= d < srcWidth && After(r, c, s, d) && Off(g, s, d) == Off(g, r,
                                                                                                      c) && !base(s, d)
      ensures words(s, d) == words(r, c)
    {
      assert words(s, d) == Opaque(BitmapPixel(src, srcWidth, s, d));
    }
  }

  /** A byte in which what a blit leaves at a place differs from the transparent colour. */
  lemma DifferentByte(last: Option<seq<byte>>, key: seq<byte>, at: int) returns (t: nat)
    requires |key| == 4 && key[3] == 0 && last != Some(key) && (last.Some? ==> |last.value| == 4)
    ensures t < 4 && ByteAfter(last, at, at + t, 0xff) != key[t]
  {
    t := 3;
    if last.Some? {
      var v := last.value;
      t := if v[0] != key[0] then 0 else if v[1] != key[1] then 1 else if v[2] != key[2] then 2 else 3;
      assert v == [v[0], v[1], v[2], v[3]] && key == [key[0], key[1], key[2], key[3]];
    }
  }

  /**
   The two blits agree on every memory that holds the fit exactly if each pixel of the transparent
   colour is drawn over.
   */
  lemma KeyMatters(len: nat, dest: int, src: seq<byte>, destWidth: int, srcWidth: int, srcHeight: int,
                   x: int, y: int, wFit: int, hFit: int, key: seq<byte>)
    ensures KeyHidden(Grid(dest, destWidth, 4, x, y), src, srcWidth, srcHeight, wFit, hFit, key)
        ==> SameBlits(len, dest, src, destWidth, srcWidth, srcHeight, x, y, wFit, hFit, key)
    ensures BlitFits(Grid(dest, destWidth, 4, x, y), srcHeight, srcWidth, wFit, hFit, len)
            && SameBlits(len, dest, src, destWidth, srcWidth, srcHeight, x, y, wFit, hFit, key)
        ==> KeyHidden(Grid(dest, destWidth, 4, x, y), src, srcWidth, srcHeight, wFit, hFit, key)
  {
    var g := Grid(dest, destWidth, 4, x, y);
    if KeyHidden(g, src, srcWidth, srcHeight, wFit, hFit, key) {
      forall mem: seq<byte> | |mem| == len
        ensures Blit(mem, dest, src, destWidth, srcWidth, srcHeight, x, y, wFit, hFit, Some(key))
             == Blit(mem, dest, src, destWidth, srcWidth, srcHeight, x, y, wFit, hFit, None)
      {
        HiddenSame(mem, dest, src, destWidth, srcWidth, srcHeight, x, y, wFit, hFit, key);
      }
    } else if BlitFits(g, srcHeight, srcWidth, wFit, hFit, len) {
      var r, c :| 0 <= r < srcHeight && 0 <= c < srcWidth && r <= hFit && c <= wFit
                  && Opaque(BitmapPixel(src, srcWidth, r, c)) == key
                  && !DrawnOver(g, src, srcWidth, srcHeight, wFit, hFit, key, r, c);
      var mem := KeyShows(len, dest, src, destWidth, srcWidth, srcHeight, x, y, wFit, hFit, key, r, c);
    }
  }

  /**
   If the bitmap is no wider than the frame, nothing is drawn over, so then they agree exactly if the
   colour does not occur.
   */
  lemma NarrowKeyMatters(g: Grid, src: seq<byte>, srcWidth: int, srcHeight: int, wFit: int, hFit: int, key: seq<byte>)
    requires srcWidth <= g.stride && g.bpp == 4
    ensures KeyHidden(g, src, srcWidth, srcHeight, wFit, hFit, key)
       <==> !KeyOccurs(src, srcWidth, srcHeight, wFit, hFit, key)
  {
    forall r, c | 0 <= r < srcHeight && 0 <= c < srcWidth
      ensures !DrawnOver(g, src, srcWidth, srcHeight, wFit, hFit, key, r, c)
    {
      forall s, d | 0 <= s < srcHeight && 0 <= d < srcWidth && After(r, c, s, d) ensures Off(g, s, d) != Off(g, r, c) {
        if r < s {
          CellInRow(g, r, c, srcWidth);
          CellInRow(g, s, d, srcWidth);
          RowsApart(g, r, s, srcWidth);
        } else {
          OffColumn(g, r, c, d - c);
        }
      }
    }
  }

  /**
   Two lines of a bitmap one pixel wider than the frame: the second line begins where the first one
   ends, and so hides a transparent pixel there.
   */
  lemma OverlapHidesKey(mem: seq<byte>, dest: int, src: seq<byte>, w: int, key: seq<byte>)
    requires w > 1 && key == Opaque(BitmapPixel(src, w, 0, w - 1))
    requires forall r, c :: 0 <= r < 2 && 0 <= c < w && (r, c) != (0, w - 1) ==>
               Opaque(BitmapPixel(src, w, r, c)) != key
    ensures KeyOccurs(src, w, 2, w, 2, key)
    ensures Blit(mem, dest, src, w - 1, w, 2, 0, 0, w, 2, Some(key))
         == Blit(mem, dest, src, w - 1, w, 2, 0, 0, w, 2, None)
  {
    var g := Grid(dest, w - 1, 4, 0, 0);
    OffRow(g, 0, 0, 1);
    OffColumn(g, 0, 0, w - 1);
    assert Opaque(BitmapPixel(src, w, 1, 0)) != key;
    assert DrawnOver(g, src, w, 2, w, 2, key, 0, w - 1);
    HiddenSame(mem, dest, src, w - 1, w, 2, 0, 0, w, 2, key);
  }
}
