/** Pixels, rectangular images and the "over" rule of alpha compositing. */
module Raster {

  /** One 8-bit channel value. */
  type Byte = x: int | 0 <= x < 256

  /** A pixel of an opaque colour image. */
  datatype Rgb = Rgb(r: Byte, g: Byte, b: Byte)

  /** A pixel of an image with an alpha channel (255 is opaque, 0 fully transparent). */
  datatype Rgba = Rgba(r: Byte, g: Byte, b: Byte, a: Byte)

  /** The fill of a freshly created overlay: black and fully transparent. */
  const Transparent: Rgba := Rgba(0, 0, 0, 0)

  /** `g` is an image of `height` rows of `width` pixels each. */
  predicate IsGrid<T>(g: seq<seq<T>>, width: nat, height: nat)
  {
    |g| == height && forall y :: 0 <= y < height ==> |g[y]| == width
  }

  /** Two images have the same number of rows and the same row lengths. */
  predicate SameShape<A, B>(p: seq<seq<A>>, q: seq<seq<B>>)
  {
    |p| == |q| && forall y :: 0 <= y < |p| ==> |p[y]| == |q[y]|
  }

  function Min(a: int, b: int): int { if a <= b then a else b }

  function Max(a: int, b: int): int { if a <= b then b else a }

  lemma MulMonotone(a: int, b: int, k: nat)
    requires a <= b
    ensures a * k <= b * k
  {
    assert b * k - a * k == (b - a) * k;
  }

  lemma QuotientBounds(n: int, d: int, lo: int, hi: int)
    requires d > 0 && lo * d <= n <= hi * d
    ensures lo <= n / d <= hi
  {
    var q := n / d;
    assert q * d <= n < q * d + d;
    if q > hi {
      MulMonotone(hi + 1, q, d);
    }
    if q < lo {
      MulMonotone(q + 1, lo, d);
    }
  }

  lemma MixFacts(s: Byte, d: Byte, ws: nat, wd: nat)
    requires ws > 0
    ensures Min(s, d) <= (s * ws + d * wd) / (ws + wd) <= Max(s, d)
    ensures wd == 0 ==> (s * ws + d * wd) / (ws + wd) == s
  {
    MulMonotone(Min(s, d), s, ws);
    MulMonotone(s, Max(s, d), ws);
    MulMonotone(Min(s, d), d, wd);
    MulMonotone(d, Max(s, d), wd);
    QuotientBounds(s * ws + d * wd, ws + wd, Min(s, d), Max(s, d));
    if wd == 0 {
      QuotientBounds(s * ws, ws, s, s);
    }
  }

  /** The mean of a source and a destination channel weighted by `ws` and `wd`, rounded down. */
  function Mix(s: Byte, d: Byte, ws: nat, wd: nat): (c: Byte)
    requires ws > 0
    ensures Min(s, d) <= c <= Max(s, d)
    ensures wd == 0 ==> c == s
  {
    MixFacts(s, d, ws, wd);
    (s * ws + d * wd) / (ws + wd)
  }

  lemma AlphaFacts(sa: Byte, da: Byte)
    requires sa > 0
    ensures 0 <= da * (255 - sa) <= 255 * (255 - sa)
    ensures sa <= (sa * 255 + da * (255 - sa)) / 255 <= 255
    ensures da == 255 ==> (sa * 255 + da * (255 - sa)) / 255 == 255
    ensures sa == 255 ==> da * (255 - sa) == 0
    ensures da <= (sa * 255 + da * (255 - sa)) / 255
  {
    MulMonotone(0, da, 255 - sa);
    MulMonotone(da, 255, 255 - sa);
    QuotientBounds(sa * 255 + da * (255 - sa), 255, sa, 255);
    MulMonotone(0, sa, 255 - da);
    assert sa * 255 + da * (255 - sa) == da * 255 + sa * (255 - da);
    QuotientBounds(sa * 255 + da * (255 - sa), 255, da, 255);
  }

  /** `src` composited over `dst` (the source's alpha weighs the source's colour against the
      destination's, whose own weight is its alpha times what the source lets through). A
      source pixel with alpha 0 leaves the destination pixel as it is. */
  function Over(dst: Rgba, src: Rgba): (out: Rgba)
    ensures src.a == 0 ==> out == dst
    ensures src.a == 255 ==> out == src
    ensures dst.a == 255 ==> out.a == 255
    ensures dst.a <= out.a
    ensures src.a > 0 ==> src.a <= out.a
    ensures src.a > 0 ==> Min(src.r, dst.r) <= out.r <= Max(src.r, dst.r)
    ensures src.a > 0 ==> Min(src.g, dst.g) <= out.g <= Max(src.g, dst.g)
    ensures src.a > 0 ==> Min(src.b, dst.b) <= out.b <= Max(src.b, dst.b)
    ensures src.a > 0 && dst.a == 0 ==> out.r == src.r && out.g == src.g && out.b == src.b
  {
    if src.a == 0 then dst
    else
      AlphaFacts(src.a, dst.a);
      var blend := dst.a * (255 - src.a);
      var total := src.a * 255 + blend;
      Rgba(Mix(src.r, dst.r, src.a * 255, blend),
           Mix(src.g, dst.g, src.a * 255, blend),
           Mix(src.b, dst.b, src.a * 255, blend),
           total / 255)
  }

  /** A new image of the given size filled with `Transparent`. */
  function Blank(width: nat, height: nat): (img: seq<seq<Rgba>>)
    ensures IsGrid(img, width, height)
    ensures forall y, x :: 0 <= y < height && 0 <= x < width ==> img[y][x] == Transparent
  {
    seq(height, _ => seq(width, _ => Transparent))
  }

  /** The image `src` composited over the image `dst`, pixel by pixel. */
  function Composite(dst: seq<seq<Rgba>>, src: seq<seq<Rgba>>): (out: seq<seq<Rgba>>)
    requires SameShape(dst, src)
    ensures SameShape(out, dst)
    ensures forall y, x :: 0 <= y < |dst| && 0 <= x < |dst[y]| ==> out[y][x] == Over(dst[y][x], src[y][x])
  {
    seq(|dst|, y requires 0 <= y < |dst| =>
      seq(|dst[y]|, x requires 0 <= x < |dst[y]| => Over(dst[y][x], src[y][x])))
  }

  /** A colour pixel converted to RGBA: the same colour, fully opaque. */
  function ToRgba(p: Rgb): Rgba
  {
    Rgba(p.r, p.g, p.b, 255)
  }

  /** An opaque colour image converted to RGBA. */
  function ToRgbaImage(img: seq<seq<Rgb>>): (out: seq<seq<Rgba>>)
    ensures SameShape(out, img)
    ensures forall y, x :: 0 <= y < |img| && 0 <= x < |img[y]| ==> out[y][x] == ToRgba(img[y][x])
  {
    seq(|img|, y requires 0 <= y < |img| => seq(|img[y]|, x requires 0 <= x < |img[y]| => ToRgba(img[y][x])))
  }
}
