/** Memory as bytes, and the little-endian words the firmware keeps in it. */
module Bytes {

  datatype Option<+T> = None | Some(value: T)

  type byte = x: int | 0 <= x < 256

  const TWO_TO_THE_32: int := 0x1_0000_0000

  /** A C value converted to a 32-bit unsigned integer. */
  function ToU32(x: int): int {
    x % TWO_TO_THE_32
  }

  /** What a 32-bit word holds is in its range, and a multiple of 2^32 away from the value stored. */
  ghost predicate IsWord(word: int, x: int) {
    0 <= word < 0x1_0000_0000 && exists k :: WordsAway(word, x, k)
  }

  predicate WordsAway(word: int, x: int, k: int) {
    x == word + 0x1_0000_0000 * k
  }

  lemma WordIs(x: int)
    ensures IsWord(ToU32(x), x)
    ensures 0 <= x < 0x1_0000_0000 ==> ToU32(x) == x
  {
    assert WordsAway(ToU32(x), x, x / TWO_TO_THE_32);
  }

  /** An unsigned value stored in a 16-bit short. */
  function ToShort(x: int): int {
    (x + 0x8000) % 0x1_0000 - 0x8000
  }

  /** What a short holds is in its range, and a multiple of 2^16 away from the value stored. */
  ghost predicate IsShort(short: int, x: int) {
    -0x8000 <= short < 0x8000 && exists k :: Away(short, x, k)
  }

  predicate Away(short: int, x: int, k: int) {
    x == short + 0x1_0000 * k
  }

  lemma ShortIs(x: int)
    ensures IsShort(ToShort(x), x)
    ensures -0x8000 <= x < 0x8000 ==> ToShort(x) == x
  {
    assert Away(ToShort(x), x, (x + 0x8000) / 0x1_0000);
  }

  function ToNat(x: int): nat {
    if x < 0 then 0 else x
  }

  function Peek(s: seq<byte>, i: int): byte {
    if 0 <= i < |s| then s[i] else 0
  }

  /** The `n` bytes that start at `at`. */
  function Slice(s: seq<byte>, at: int, n: nat): (r: seq<byte>)
    ensures |r| == n
  {
    seq<byte>(n, k requires 0 <= k < n => Peek(s, at + k))
  }

  /** `s` with its `n` bytes from `at` on replaced by those of `chunk`. */
  function Splice(s: seq<byte>, at: int, n: nat, chunk: seq<byte>): (r: seq<byte>)
    ensures |r| == |s|
  {
    seq<byte>(|s|, i requires 0 <= i < |s| => SpliceByte(s, at, n, chunk, i))
  }

  function SpliceByte(s: seq<byte>, at: int, n: nat, chunk: seq<byte>, i: nat): byte
    requires i < |s|
  {
    if at <= i < at + n then Peek(chunk, i - at) else s[i]
  }

  /** The four bytes of a 32-bit value, low byte first. */
  function LittleEndian(x: int): (r: seq<byte>)
    ensures |r| == 4
  {
    [x % 0x100, x / 0x100 % 0x100, x / 0x1_0000 % 0x100, x / 0x100_0000 % 0x100]
  }

  /** The 32-bit value that starts at byte `at`. */
  function Word(s: seq<byte>, at: int): int {
    Peek(s, at) + 0x100 * Peek(s, at + 1) + 0x1_0000 * Peek(s, at + 2) + 0x100_0000 * Peek(s, at + 3)
  }

  lemma WordOfLittleEndian(x: int)
    ensures Word(LittleEndian(x), 0) == ToU32(x)
  {
    var q1 := x / 0x100;
    var q2 := q1 / 0x100;
    var q3 := q2 / 0x100;
    assert x / 0x1_0000 == q2 && x / 0x100_0000 == q3;
    assert x == (q3 / 0x100) * TWO_TO_THE_32 + Word(LittleEndian(x), 0);
  }

  /** Equal bytes, equal 32-bit values. */
  lemma SameBytesSameValue(x: int, y: int)
    ensures LittleEndian(x) == LittleEndian(y) <==> ToU32(x) == ToU32(y)
  {
    WordOfLittleEndian(x);
    WordOfLittleEndian(y);
    BytesOfU32(x);
    BytesOfU32(y);
  }

  /** Equal 32-bit values are a multiple of 2^32 apart. */
  lemma SameU32(x: int, y: int)
    ensures ToU32(x) == ToU32(y) <==> (x - y) % 0x1_0000_0000 == 0
  {
    assert x - y == TWO_TO_THE_32 * (x / TWO_TO_THE_32 - y / TWO_TO_THE_32) + (ToU32(x) - ToU32(y));
  }

  lemma BytesOfU32(x: int)
    ensures LittleEndian(ToU32(x)) == LittleEndian(x)
  {
    var q := x / TWO_TO_THE_32;
    var y := ToU32(x);
    ShiftByte(y, 0x100_0000 * q);
    assert x / 0x100 == y / 0x100 + 0x100_0000 * q;
    ShiftByte(y / 0x100, 0x1_0000 * q);
    assert x / 0x1_0000 == y / 0x1_0000 + 0x1_0000 * q;
    ShiftByte(y / 0x1_0000, 0x100 * q);
    assert x / 0x100_0000 == y / 0x100_0000 + 0x100 * q;
    ShiftByte(y / 0x100_0000, q);
  }

  lemma ShiftByte(a: int, m: int)
    ensures (a + 0x100 * m) % 0x100 == a % 0x100
  {
  }

  lemma IsSlice(s: seq<byte>, at: nat, n: nat)
    requires at + n <= |s|
    ensures Slice(s, at, n) == s[at..at + n]
  {
    forall k | 0 <= k < n ensures Slice(s, at, n)[k] == s[at..at + n][k] {
      assert s[at..at + n][k] == s[at + k] == Peek(s, at + k);
    }
  }

  lemma IsSplice(m: seq<byte>, r: seq<byte>, at: nat, n: nat, chunk: seq<byte>)
    requires |r| == |m| && |chunk| == n && at + n <= |m|
    requires forall k :: 0 <= k < n ==> r[at + k] == chunk[k]
    requires forall i :: 0 <= i < |m| && !(at <= i < at + n) ==> r[i] == m[i]
    ensures r == Splice(m, at, n, chunk)
  {
    forall i | 0 <= i < |m| ensures r[i] == SpliceByte(m, at, n, chunk, i) {
      if at <= i < at + n {
        assert r[at + (i - at)] == chunk[i - at];
      }
    }
  }

  lemma SliceSame(s: seq<byte>, t: seq<byte>, at: int, n: nat)
    requires |s| == |t|
    requires forall i :: at <= i < at + n && 0 <= i < |s| ==> s[i] == t[i]
    ensures Slice(s, at, n) == Slice(t, at, n)
  {
    forall k | 0 <= k < n ensures Slice(s, at, n)[k] == Slice(t, at, n)[k] {
      var i := at + k;
      assert 0 <= i < |s| ==> s[i] == t[i];
      assert Peek(s, i) == Peek(t, i);
      assert Slice(s, at, n)[k] == Peek(s, i);
      assert Slice(t, at, n)[k] == Peek(t, i);
    }
  }

  /** Two adjacent stretches written one after the other are one stretch. */
  lemma SpliceJoin(m: seq<byte>, at: int, n: nat, p: seq<byte>, k: nat, q: seq<byte>)
    requires |p| == n && |q| == k
    ensures Splice(Splice(m, at, n, p), at + n, k, q) == Splice(m, at, n + k, p + q)
  {
    var one, whole := Splice(m, at, n, p), Splice(m, at, n + k, p + q);
    var two := Splice(one, at + n, k, q);
    forall i | 0 <= i < |m| ensures two[i] == whole[i] {
      assert one[i] == SpliceByte(m, at, n, p, i);
      assert two[i] == SpliceByte(one, at + n, k, q, i);
    }
  }

  lemma SliceJoin(s: seq<byte>, at: int, n: nat, k: nat)
    ensures Slice(s, at, n) + Slice(s, at + n, k) == Slice(s, at, n + k)
  {
    var parts, whole := Slice(s, at, n) + Slice(s, at + n, k), Slice(s, at, n + k);
    forall i | 0 <= i < n + k ensures parts[i] == whole[i] {
      assert Slice(s, at, n + k)[i] == Peek(s, at + i);
      assert i >= n ==> Slice(s, at + n, k)[i - n] == Peek(s, at + n + (i - n));
    }
  }

  lemma SpliceSelf(mem: seq<byte>, at: int, n: nat)
    ensures Splice(mem, at, n, Slice(mem, at, n)) == mem
  {
    forall i | 0 <= i < |mem| ensures SpliceByte(mem, at, n, Slice(mem, at, n), i) == mem[i] {
      if at <= i < at + n {
        assert Slice(mem, at, n)[i - at] == Peek(mem, at + (i - at));
      }
    }
  }
}
