/**
 * The per-pixel part of the resizer: the colour types, coordinate clamping
 * (`clamp`) and the 2x2 box filter (`average2x2`) of images_resizer.go.
 */
module Sampler {

  /** A channel as `color.Color.RGBA()` reports it: 16 bits, 0..65535. */
  type Channel16 = c: int | 0 <= c < 0x1_0000

  /** A channel of a `color.RGBA` value: 8 bits, 0..255. */
  type Channel8 = c: int | 0 <= c < 0x100

  /** The four 16-bit channels of a source pixel (the result of `RGBA()`). */
  datatype Color16 = Color16(r: Channel16, g: Channel16, b: Channel16, a: Channel16)

  /** An 8-bit `color.RGBA` pixel of the output image. */
  datatype Color8 = Color8(r: Channel8, g: Channel8, b: Channel8, a: Channel8)

  /** The zero value of `color.RGBA`, which a fresh `image.RGBA` holds everywhere. */
  const Transparent := Color8(0, 0, 0, 0)

  /** How an 8-bit channel is reported on the 16-bit scale: v is repeated in both bytes. */
  function WidenChannel(v: Channel8): (c: Channel16)
    ensures c / 256 == v && c % 256 == v
  {
    v * 257
  }

  /** The 16-bit view of an 8-bit colour. */
  function Widen(c: Color8): Color16
  {
    Color16(WidenChannel(c.r), WidenChannel(c.g), WidenChannel(c.b), WidenChannel(c.a))
  }

  /** The high byte of each 16-bit channel. */
  function Narrow(c: Color16): Color8
  {
    Color8(c.r / 256, c.g / 256, c.b / 256, c.a / 256)
  }

  function Min4(a: int, b: int, c: int, d: int): (m: int)
    ensures m <= a && m <= b && m <= c && m <= d
    ensures m == a || m == b || m == c || m == d
  {
    var ab := if a <= b then a else b;
    var cd := if c <= d then c else d;
    if ab <= cd then ab else cd
  }

  function Max4(a: int, b: int, c: int, d: int): (m: int)
    ensures m >= a && m >= b && m >= c && m >= d
    ensures m == a || m == b || m == c || m == d
  {
    var ab := if a >= b then a else b;
    var cd := if c >= d then c else d;
    if ab >= cd then ab else cd
  }

  /**
   * One channel of `average2x2`: the sum of four 16-bit samples divided by
   * 1024 and truncated to 8 bits. The sum is at most 262140 < 2^24, so the
   * `float32` division of the source is exact and this integer floor is it.
   */
  function AverageChannel(c00: Channel16, c01: Channel16, c10: Channel16, c11: Channel16): (v: Channel8)
    ensures 1024 * v <= c00 + c01 + c10 + c11 < 1024 * (v + 1)
    ensures Min4(c00, c01, c10, c11) / 256 <= v <= Max4(c00, c01, c10, c11) / 256
  {
    (c00 + c01 + c10 + c11) / 1024
  }

  /** `average2x2`: the channel-wise truncated average of a 2x2 neighbourhood. */
  function Average2x2(c00: Color16, c01: Color16, c10: Color16, c11: Color16): Color8
  {
    Color8(AverageChannel(c00.r, c01.r, c10.r, c11.r),
           AverageChannel(c00.g, c01.g, c10.g, c11.g),
           AverageChannel(c00.b, c01.b, c10.b, c11.b),
           AverageChannel(c00.a, c01.a, c10.a, c11.a))
  }

  /** Averaging four copies of one colour keeps its high byte in every channel. */
  lemma AverageOfEqual(c: Color16)
    ensures Average2x2(c, c, c, c) == Narrow(c)
  {
    assert AverageChannel(c.r, c.r, c.r, c.r) == c.r / 256;
    assert AverageChannel(c.g, c.g, c.g, c.g) == c.g / 256;
    assert AverageChannel(c.b, c.b, c.b, c.b) == c.b / 256;
    assert AverageChannel(c.a, c.a, c.a, c.a) == c.a / 256;
  }

  /** Narrowing undoes widening: an 8-bit colour survives the trip through 16 bits. */
  lemma NarrowWiden(c: Color8)
    ensures Narrow(Widen(c)) == c
  {
  }

  /** A solid 8-bit colour, reported as 16-bit samples, averages back to exactly itself. */
  lemma AverageOfSolid(c: Color8)
    ensures Average2x2(Widen(c), Widen(c), Widen(c), Widen(c)) == c
  {
    AverageOfEqual(Widen(c));
    NarrowWiden(c);
  }

  /**
   * `clamp`: each coordinate is snapped into 0..w-1 (resp. 0..h-1) on its own.
   * For a non-empty axis the result is the point of the axis nearest to the
   * argument, and an in-range coordinate comes back unchanged.
   */
  function Clamp(x: int, y: int, w: int, h: int): (p: (int, int))
    ensures w >= 1 ==> 0 <= p.0 < w && forall k :: 0 <= k < w ==> Dist(p.0, x) <= Dist(k, x)
    ensures h >= 1 ==> 0 <= p.1 < h && forall k :: 0 <= k < h ==> Dist(p.1, y) <= Dist(k, y)
    ensures 0 <= x < w ==> p.0 == x
    ensures 0 <= y < h ==> p.1 == y
  {
    var x' := if x < 0 then 0 else if x > w - 1 then w - 1 else x;
    var y' := if y < 0 then 0 else if y > h - 1 then h - 1 else y;
    (x', y')
  }

  function Dist(a: int, b: int): nat
  {
    if a <= b then b - a else a - b
  }

  /** The x result of `clamp` does not depend on y or h, nor the y result on x or w. */
  lemma ClampAxesIndependent(x: int, y: int, w: int, h: int, x': int, y': int, w': int, h': int)
    ensures Clamp(x, y, w, h).0 == Clamp(x, y', w, h').0
    ensures Clamp(x, y, w, h).1 == Clamp(x', y, w', h).1
  {
  }
}
