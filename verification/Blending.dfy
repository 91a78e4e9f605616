/** Colour channels and alpha blending, after `graphic_lib/simple_text.c`. */
module Blending {
  import opened Arithmetic
  import opened Bytes
  import opened GimpBmp

  datatype Channels = Channels(red: int, green: int, blue: int)

  /** The bytes a pixel takes in the frame; a depth that is not supported takes none. */
  function Bpp(depth: int): nat {
    if depth == 32 then 4 else if depth == 24 then 3 else if depth == 16 then 2 else 0
  }

  predicate InRange(depth: int, c: Channels) {
    if depth == 16 then 0 <= c.red < 0x20 && 0 <= c.green < 0x40 && 0 <= c.blue < 0x20
    else if depth == 24 || depth == 32 then 0 <= c.red < 0x100 && 0 <= c.green < 0x100 && 0 <= c.blue < 0x100
    else c == Channels(0, 0, 0)
  }

  /** A 5-6-5 value. */
  function Half(red: int, green: int, blue: int): int {
    blue + green * 0x20 + red * 0x800
  }

  function Fields(t: int): Channels {
    Channels(t / 0x800 % 0x20, t / 0x20 % 0x40, t % 0x20)
  }

  function MergedHalf(c: Channels): int {
    Half(c.red % 0x20, c.green % 0x40, c.blue % 0x20)
  }

  /** The channels of a colour given by its bytes in memory. */
  function Separate(depth: int, color: seq<byte>): (c: Channels)
    ensures InRange(depth, c)
  {
    if depth == 16 then
      Fields(Peek(color, 0) + 0x100 * Peek(color, 1))
    else if depth == 24 || depth == 32 then
      Channels(Peek(color, 2), Peek(color, 1), Peek(color, 0))
    else
      Channels(0, 0, 0)
  }

  /** The colour merged from its channels, as the four bytes of an integer whose other bytes were `stale`. */
  function Merge(depth: int, c: Channels, stale: seq<byte>): (p: seq<byte>)
    requires |stale| == 4
    ensures |p| == 4
  {
    if depth == 16 then
      var t := MergedHalf(c);
      [t % 0x100, t / 0x100 % 0x100, stale[2], stale[3]]
    else if depth == 24 || depth == 32 then
      [c.blue % 0x100, c.green % 0x100, c.red % 0x100, stale[3]]
    else
      [0, 0, 0, stale[3]]
  }

  /** One channel: `alpha` parts of the foreground and the rest of the background. */
  function Blend(f: int, b: int, alpha: byte): int {
    (Product(f, alpha) + Product(b, 255 - alpha)) / 255
  }

  function Clip(x: int, max: int): int {
    if x > max then max else x
  }

  function BlendChannels(depth: int, f: Channels, b: Channels, alpha: byte): Channels {
    var red, green, blue := Blend(f.red, b.red, alpha), Blend(f.green, b.green, alpha), Blend(f.blue, b.blue, alpha);
    if depth == 16 then Channels(Clip(red, 0x1f), Clip(green, 0x3f), Clip(blue, 0x1f))
    else if depth == 24 || depth == 32 then Channels(Clip(red, 0xff), Clip(green, 0xff), Clip(blue, 0xff))
    else f
  }

  // ----- blending

  lemma BlendIs(f: int, b: int, alpha: byte)
    ensures Blend(f, b, alpha) == (f * alpha + b * (255 - alpha)) / 255
  {
    ProductIs(f, alpha);
    ProductIs(b, 255 - alpha);
  }

  /** The blend lies between its inputs, is either of them at the ends of alpha, and is the exact mix rounded down. */
  lemma BlendBetween(f: int, b: int, alpha: byte)
    ensures f <= b ==> f <= Blend(f, b, alpha) <= b
    ensures b <= f ==> b <= Blend(f, b, alpha) <= f
    ensures Blend(f, b, 0) == b && Blend(f, b, 255) == f
    ensures 0 <= f * alpha + b * (255 - alpha) - 255 * Blend(f, b, alpha) < 255
  {
    BlendIs(f, b, alpha);
    BlendIs(f, b, 0);
    BlendIs(f, b, 255);
    MixBetween(f, b, alpha);
  }

  lemma MixBetween(f: int, b: int, a: int)
    requires 0 <= a <= 255
    ensures f <= b ==> 255 * f <= f * a + b * (255 - a) <= 255 * b
    ensures b <= f ==> 255 * b <= f * a + b * (255 - a) <= 255 * f
  {
    MixOf(f, b, a);
    if f <= b {
      MulMonotone(0, a, b - f);
      MulMonotone(0, 255 - a, b - f);
    } else {
      MulMonotone(0, a, f - b);
      MulMonotone(0, 255 - a, f - b);
    }
  }

  /** The mix, as a distance from either end. */
  lemma MixOf(f: int, b: int, a: int)
    ensures f * a + b * (255 - a) == 255 * b + a * (f - b) == 255 * b - a * (b - f)
    ensures f * a + b * (255 - a) == 255 * f + (255 - a) * (b - f) == 255 * f - (255 - a) * (f - b)
  {
  }

  /** More alpha moves the blend towards the foreground. */
  lemma BlendMonotone(f: int, b: int, less: byte, more: byte)
    requires less <= more
    ensures b <= f ==> Blend(f, b, less) <= Blend(f, b, more)
    ensures f <= b ==> Blend(f, b, more) <= Blend(f, b, less)
  {
    BlendIs(f, b, less);
    BlendIs(f, b, more);
    MixMonotone(f, b, less, more);
  }

  lemma MixMonotone(f: int, b: int, less: int, more: int)
    requires less <= more
    ensures b <= f ==> f * less + b * (255 - less) <= f * more + b * (255 - more)
    ensures f <= b ==> f * more + b * (255 - more) <= f * less + b * (255 - less)
  {
    MixOf(f, b, less);
    MixOf(f, b, more);
    if b <= f {
      MulMonotone(less, more, f - b);
    } else {
      MulMonotone(less, more, b - f);
    }
  }

  /** A colour blended with itself is itself. */
  lemma BlendSelf(c: int, alpha: byte)
    ensures Blend(c, c, alpha) == c
  {
    BlendBetween(c, c, alpha);
  }

  /** The clips never take effect, at any depth: channels in range blend to channels in range. */
  lemma ClipsIdle(depth: int, f: Channels, b: Channels, alpha: byte)
    requires InRange(depth, f) && InRange(depth, b)
    ensures InRange(depth, BlendChannels(depth, f, b, alpha))
    ensures BlendChannels(depth, f, b, alpha)
         == Channels(Blend(f.red, b.red, alpha), Blend(f.green, b.green, alpha), Blend(f.blue, b.blue, alpha))
  {
    BlendBetween(f.red, b.red, alpha);
    BlendBetween(f.green, b.green, alpha);
    BlendBetween(f.blue, b.blue, alpha);
  }

  // ----- packing

  /** Channels in range survive being merged into a pixel, whatever the stale bytes. */
  lemma SeparateAfterMerge(depth: int, c: Channels, stale: seq<byte>)
    requires InRange(depth, c) && |stale| == 4
    ensures Separate(depth, Merge(depth, c, stale)[..Bpp(depth)]) == c
  {
    if depth == 16 {
      SeparateAfterMerge16(c, stale);
    }
  }

  lemma SeparateAfterMerge16(c: Channels, stale: seq<byte>)
    requires InRange(16, c) && |stale| == 4
    ensures Separate(16, Merge(16, c, stale)[..2]) == c
  {
    var t := Half(c.red, c.green, c.blue);
    FieldsOfHalf(c.red, c.green, c.blue);
    HalfMerged(c, stale);
    SeparateHalf(t, Merge(16, c, stale)[..2]);
  }

  lemma HalfMerged(c: Channels, stale: seq<byte>)
    requires InRange(16, c) && |stale| == 4
    ensures var t := Half(c.red, c.green, c.blue);
            0 <= t && Merge(16, c, stale)[..2] == [t % 0x100, t / 0x100 % 0x100]
  {
    assert c.red % 0x20 == c.red && c.green % 0x40 == c.green && c.blue % 0x20 == c.blue;
  }

  lemma SeparateHalf(t: int, p: seq<byte>)
    requires 0 <= t < 0x1_0000 && p == [t % 0x100, t / 0x100 % 0x100]
    ensures Separate(16, p) == Fields(t)
  {
    BytesOfHalf(t);
    assert Peek(p, 0) == t % 0x100 && Peek(p, 1) == t / 0x100 % 0x100;
  }

  lemma BytesOfHalf(t: int)
    requires 0 <= t < 0x1_0000
    ensures t % 0x100 + 0x100 * (t / 0x100 % 0x100) == t
  {
  }

  /** A 5-6-5 value fits two bytes, and its fields can be told apart. */
  lemma FieldsOfHalf(red: int, green: int, blue: int)
    requires 0 <= red < 0x20 && 0 <= green < 0x40 && 0 <= blue < 0x20
    ensures 0 <= Half(red, green, blue) < 0x1_0000
    ensures Fields(Half(red, green, blue)) == Channels(red, green, blue)
  {
    assert Half(red, green, blue) / 0x20 == green + red * 0x40;
  }

  lemma HalfOfFields(t: int)
    requires 0 <= t < 0x1_0000
    ensures Half(Fields(t).red, Fields(t).green, Fields(t).blue) == t
    ensures MergedHalf(Fields(t)) == t
  {
    assert t / 0x800 == t / 0x20 / 0x40;
  }

  /** A pixel survives being separated and merged again, but for the unused top byte at depth 32. */
  lemma MergeAfterSeparate(depth: int, p: seq<byte>, stale: seq<byte>)
    requires |p| == Bpp(depth) && |stale| == 4
    ensures depth != 32 ==> Merge(depth, Separate(depth, p), stale)[..Bpp(depth)] == p
    ensures depth == 32 ==> Merge(depth, Separate(depth, p), stale) == p[3 := stale[3]]
  {
    if depth == 16 {
      MergeAfterSeparate16(p, stale);
    }
  }

  lemma MergeAfterSeparate16(p: seq<byte>, stale: seq<byte>)
    requires |p| == 2 && |stale| == 4
    ensures Merge(16, Separate(16, p), stale)[..2] == p
  {
    var c := Separate(16, p);
    FieldsAndBack(p[0], p[1]);
    assert c == Fields(p[0] + 0x100 * p[1] as int);
    MergedBytes(c, p[0], p[1], stale);
  }

  lemma MergedBytes(c: Channels, low: byte, high: byte, stale: seq<byte>)
    requires InRange(16, c) && |stale| == 4
    requires MergedHalf(c) % 0x100 == low && MergedHalf(c) / 0x100 % 0x100 == high
    ensures Merge(16, c, stale)[..2] == [low, high]
  {
  }

  lemma FieldsAndBack(low: int, high: int)
    requires 0 <= low < 0x100 && 0 <= high < 0x100
    ensures MergedHalf(Fields(low + 0x100 * high)) % 0x100 == low
    ensures MergedHalf(Fields(low + 0x100 * high)) / 0x100 % 0x100 == high
  {
    HalfOfBytes(low, high);
    HalfOfFields(low + 0x100 * high);
  }

  lemma HalfOfBytes(low: int, high: int)
    requires 0 <= low < 0x100 && 0 <= high < 0x100
    ensures 0 <= low + 0x100 * high < 0x1_0000
    ensures (low + 0x100 * high) % 0x100 == low && (low + 0x100 * high) / 0x100 % 0x100 == high
  {
  }

  /** Images converted to 16 bits use the same layout: their channels come out as the leading bits of the image's. */
  lemma ImagesShareTheLayout(f: Format, p: seq<byte>)
    requires (f.F24To16? || f.F32To16?) && |p| == SrcBytes(f)
    ensures Separate(16, Reformat(f, p)) == Channels(p[0] / 8, p[1] / 4, p[2] / 8)
  {
    var red: int, green: int, blue: int := p[0] / 8, p[1] / 4, p[2] / 8;
    FieldsOfHalf(red, green, blue);
    var t := Half(red, green, blue);
    assert Reformat(f, p) == [t % 0x100, t / 0x100];
  }

  // ----- the mix

  /** `shown` is the mix of `alpha` parts of `f` and the rest of `b`, rounded down. */
  ghost predicate Mixed(f: int, b: int, alpha: int, shown: int) {
    0 <= f * alpha + b * (255 - alpha) - 255 * shown < 255
  }

  /** Each channel is mixed. */
  ghost predicate ChannelsMixed(f: Channels, b: Channels, alpha: int, shown: Channels) {
    Mixed(f.red, b.red, alpha, shown.red) && Mixed(f.green, b.green, alpha, shown.green)
    && Mixed(f.blue, b.blue, alpha, shown.blue)
  }

  lemma ChannelMixed(f: int, b: int, alpha: byte)
    ensures Mixed(f, b, alpha, Blend(f, b, alpha))
  {
    BlendBetween(f, b, alpha);
  }

  lemma BlendMixes(depth: int, f: Channels, b: Channels, alpha: byte, c: Channels)
    requires InRange(depth, f) && InRange(depth, b) && c == BlendChannels(depth, f, b, alpha)
    ensures ChannelsMixed(f, b, alpha, c)
  {
    ClipsIdle(depth, f, b, alpha);
    ChannelMixed(f.red, b.red, alpha);
    ChannelMixed(f.green, b.green, alpha);
    ChannelMixed(f.blue, b.blue, alpha);
  }
}
