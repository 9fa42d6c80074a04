/** The pixel-level edits: channel clamping, the brightness rule, grayscale detection and
    conversion, cropping, painting and the fit-to-viewport resize. */
module Effects {
  import opened Images
  import opened Geometry

  // ---------------------------------------------------------------- brightness

  /** `clamp`: `Math.max(0, Math.min(255, val))`, the value forced into [0, 255]. */
  function Clamp(v: int): (r: Channel)
    ensures 0 <= v <= 255 ==> r == v
    ensures v < 0 ==> r == 0
    ensures v > 255 ==> r == 255
  {
    Max(0, Min(255, v))
  }

  /** Java's `(int)` cast of `n / d`: the quotient rounded toward zero. */
  function TruncDiv(n: int, d: int): (q: int)
    requires d > 0
    ensures n >= 0 ==> 0 <= q && q * d <= n < q * d + d
    ensures n < 0 ==> q <= 0 && q * d - d < n <= q * d
  {
    if n >= 0 then DivBounds(n, d); n / d
    else DivBounds(-n, d); NegatedProduct((-n) / d, d); -((-n) / d)
  }

  /** Euclidean division of a non-negative numerator: the quotient times the divisor is within
      one divisor below the numerator. */
  lemma DivBounds(m: int, d: int)
    requires m >= 0 && d > 0
    ensures 0 <= m / d && (m / d) * d <= m < (m / d) * d + d
  {
    assert m == (m / d) * d + m % d;
  }

  lemma NegatedProduct(k: int, d: int)
    ensures (-k) * d == -(k * d)
  {
  }

  /** `offsetVal` times 100 for a slider value `value` (factor = value / 100):
      `factor * 25` when brightening, `factor * 50` otherwise. */
  function Offset100(value: int): int {
    if value > 0 then 25 * value else 50 * value
  }

  /** One colour channel under the manual brightness loop:
      `clamp((int) (c * (1 + factor) + offsetVal))`, written over integers as
      `(c * (100 + value) + 100 * offsetVal) / 100` rounded toward zero. */
  function BrightenChannel(c: Channel, value: int): (r: Channel)
    ensures value == 0 ==> r == c
  {
    Clamp(TruncDiv(c * (100 + value) + Offset100(value), 100))
  }

  /** A positive slider value never darkens a channel; a value in [-100, 0] never brightens it. */
  lemma {:induction false} BrightenChannelDirection(c: Channel, value: int)
    requires -100 <= value
    ensures value >= 0 ==> BrightenChannel(c, value) >= c
    ensures value <= 0 ==> BrightenChannel(c, value) <= c
  {
    var n := c * (100 + value) + Offset100(value);
    if value >= 0 {
      assert c * (100 + value) == 100 * c + c * value;
      assert c * value >= 0;
      assert n >= 100 * c;
      assert TruncDiv(n, 100) >= c;
    } else {
      assert c * (100 + value) == 100 * c + c * value;
      assert c * value <= 0;
      assert n <= 100 * c;
      assert TruncDiv(n, 100) <= c;
    }
  }

  /** The brightness rule preserves the order of channel values when the factor is in [-1, 1]. */
  lemma {:induction false} BrightenChannelMonotone(c: Channel, d: Channel, value: int)
    requires -100 <= value && c <= d
    ensures BrightenChannel(c, value) <= BrightenChannel(d, value)
  {
    assert d * (100 + value) - c * (100 + value) == (d - c) * (100 + value);
    assert (d - c) * (100 + value) >= 0;
    TruncDivMonotone(c * (100 + value) + Offset100(value), d * (100 + value) + Offset100(value), 100);
  }

  lemma TruncDivMonotone(m: int, n: int, d: int)
    requires d > 0 && m <= n
    ensures TruncDiv(m, d) <= TruncDiv(n, d)
  {
    if m >= 0 {
      DivMonotone(m, n, d);
    } else if n < 0 {
      DivMonotone(-n, -m, d);
    }
  }

  lemma DivMonotone(m: int, n: int, d: int)
    requires d > 0 && 0 <= m <= n
    ensures m / d <= n / d
  {
    var p, q := m / d, n / d;
    assert p * d <= m && n < (q + 1) * d;
    LessFromProducts(p, q + 1, d);
  }

  lemma LessFromProducts(a: int, b: int, d: int)
    requires d > 0 && a * d < b * d
    ensures a < b
  {
    if a >= b {
      MulMonotone(b, a, d);
    }
  }

  lemma MulMonotone(a: int, b: int, d: int)
    requires d > 0 && a <= b
    ensures a * d <= b * d
  {
    assert b * d - a * d == (b - a) * d;
  }

  /** One pixel under the manual loop: the colour channels follow the rule, alpha is kept. */
  function BrightenPixel(p: Pixel, value: int): (q: Pixel)
    ensures q.a == p.a
    ensures value == 0 ==> q == p
  {
    Pixel(BrightenChannel(p.r, value), BrightenChannel(p.g, value), BrightenChannel(p.b, value), p.a)
  }

  /** The image produced by `applyBrightnessEffect` for slider value `value`. */
  function Brighten(img: Image, value: int): (r: Image)
    requires img.Wf()
    ensures r.Wf() && r.width == img.width && r.height == img.height && r.kind == img.kind
    ensures forall x: nat, y: nat :: x < img.width && y < img.height ==>
              r.At(x, y) == BrightenPixel(img.At(x, y), value)
  {
    img.(rows := seq(img.height, y requires 0 <= y < img.height =>
                   seq(img.width, x requires 0 <= x < img.width => BrightenPixel(img.rows[y][x], value))))
  }

  /** A factor of 0 leaves the image exactly as it was. */
  lemma {:induction false} BrightenZero(img: Image)
    requires img.Wf()
    ensures Brighten(img, 0) == img
  {
    var r := Brighten(img, 0);
    forall y | 0 <= y < img.height
      ensures r.rows[y] == img.rows[y]
    {
      forall x | 0 <= x < img.width
        ensures r.rows[y][x] == img.rows[y][x]
      {
        assert r.At(x, y) == BrightenPixel(img.At(x, y), 0);
      }
    }
  }

  /** The manual loop of `applyBrightnessEffect`: every pixel, row by row, rewritten in place. */
  method ApplyBrightness(a: array2<Pixel>, value: int)
    modifies a
    ensures forall y, x :: 0 <= y < a.Length0 && 0 <= x < a.Length1 ==>
              a[y, x] == BrightenPixel(old(a[y, x]), value)
  {
    var y := 0;
    while y < a.Length0
      invariant 0 <= y <= a.Length0
      invariant forall j, i :: 0 <= j < y && 0 <= i < a.Length1 ==> a[j, i] == BrightenPixel(old(a[j, i]), value)
      invariant forall j, i :: y <= j < a.Length0 && 0 <= i < a.Length1 ==> a[j, i] == old(a[j, i])
    {
      var x := 0;
      while x < a.Length1
        invariant 0 <= x <= a.Length1
        invariant forall j, i :: 0 <= j < y && 0 <= i < a.Length1 ==> a[j, i] == BrightenPixel(old(a[j, i]), value)
        invariant forall i :: 0 <= i < x ==> a[y, i] == BrightenPixel(old(a[y, i]), value)
        invariant forall j, i :: y <= j < a.Length0 && (j > y || x <= i) && 0 <= i < a.Length1 ==> a[j, i] == old(a[j, i])
      {
        a[y, x] := BrightenPixel(a[y, x], value);
        x := x + 1;
      }
      y := y + 1;
    }
  }

  /** `applyBrightnessEffect` on an image: load its raster into a buffer, run the loop, read back. */
  method BrightenImage(img: Image, value: int) returns (r: Image)
    requires img.Wf()
    ensures r == Brighten(img, value)
  {
    var a := new Pixel[img.height, img.width]((y, x) requires 0 <= y < img.height && 0 <= x < img.width => img.rows[y][x]);
    ApplyBrightness(a, value);
    var rows := seq(img.height, y requires 0 <= y < img.height reads a =>
                  seq(img.width, x requires 0 <= x < img.width reads a => a[y, x]));
    r := img.(rows := rows);
    var expected := Brighten(img, value);
    forall y | 0 <= y < img.height
      ensures r.rows[y] == expected.rows[y]
    {
      forall x | 0 <= x < img.width
        ensures r.rows[y][x] == expected.rows[y][x]
      {
        assert expected.At(x, y) == BrightenPixel(img.At(x, y), value);
      }
    }
  }

  // ---------------------------------------------------------------- grayscale

  /** The block `isEffectivelyGrayscale` samples: the top-left min(10, W) by min(10, H) pixels. */
  function SampleWidth(img: Image): nat { Min(10, img.width) }
  function SampleHeight(img: Image): nat { Min(10, img.height) }

  /** A gray raster, or one whose sampled corner block has only gray pixels. */
  predicate SampledGray(img: Image)
    requires img.Wf()
  {
    img.kind == ByteGray ||
    forall x: nat, y: nat :: x < SampleWidth(img) && y < SampleHeight(img) ==> IsGray(img.At(x, y))
  }

  /** What `isEffectivelyGrayscale` answers: false for a null image. */
  predicate SampleIsGray(img: Option<Image>)
    requires WfOpt(img)
  {
    img.Some? && SampledGray(img.value)
  }

  /** `isEffectivelyGrayscale`: scan the corner block column by column, stop at the first
      pixel whose colour channels disagree. */
  method IsEffectivelyGrayscale(img: Option<Image>) returns (gray: bool)
    requires WfOpt(img)
    ensures gray == SampleIsGray(img)
  {
    if img.None? {
      return false;
    }
    var im := img.value;
    if im.kind == ByteGray {
      return true;
    }
    var i := 0;
    while i < SampleWidth(im)
      invariant 0 <= i <= SampleWidth(im)
      invariant forall x: nat, y: nat :: x < i && y < SampleHeight(im) ==> IsGray(im.At(x, y))
    {
      var j := 0;
      while j < SampleHeight(im)
        invariant 0 <= j <= SampleHeight(im)
        invariant forall y: nat :: y < j ==> IsGray(im.At(i, y))
      {
        var c := im.At(i, j);
        if c.r != c.g || c.g != c.b {
          return false;
        }
        j := j + 1;
      }
      i := i + 1;
    }
    return true;
  }

  /** Only the corner block matters: two images of the same type that agree there are
      classified alike, whatever their other pixels. */
  lemma SampleIgnoresOutside(a: Image, b: Image)
    requires a.Wf() && b.Wf() && a.kind == b.kind
    requires SampleWidth(a) == SampleWidth(b) && SampleHeight(a) == SampleHeight(b)
    requires forall x: nat, y: nat :: x < SampleWidth(a) && y < SampleHeight(a) ==> a.At(x, y) == b.At(x, y)
    ensures SampledGray(a) == SampledGray(b)
  {
  }

  const Black := Pixel(0, 0, 0, 255)
  const Red := Pixel(255, 0, 0, 255)
  const Green := Pixel(0, 255, 0, 255)
  const Blue := Pixel(0, 0, 255, 255)
  const White := Pixel(255, 255, 255, 255)

  /** A colour image whose only coloured pixel lies outside the sampled block reads as gray. */
  lemma SampleMissesColourOutsideBlock()
    ensures var row := seq(11, x requires 0 <= x < 11 => if x == 10 then Red else Black);
            var img := Image(11, 1, IntArgb, [row]);
            img.Wf() && !IsGray(img.At(10, 0)) && SampledGray(img)
  {
    var row := seq(11, x requires 0 <= x < 11 => if x == 10 then Red else Black);
    var img := Image(11, 1, IntArgb, [row]);
    assert SampleWidth(img) == 10;
    forall x: nat, y: nat | x < SampleWidth(img) && y < SampleHeight(img)
      ensures IsGray(img.At(x, y))
    {
      assert img.At(x, y) == Black;
    }
  }

  /** The stand-in for the colour conversion of `drawImage` into a `TYPE_BYTE_GRAY` raster:
      integer luminance weights; a gray raster has no alpha. */
  function GrayPixel(p: Pixel): (q: Pixel)
    ensures IsGray(q) && q.a == 255
  {
    var l := (299 * p.r + 587 * p.g + 114 * p.b) / 1000;
    Pixel(l, l, l, 255)
  }

  /** The grayscale branch of `toggleGrayscale`: a new gray raster of the same extent. */
  function ToGray(img: Image): (r: Image)
    requires img.Wf()
    ensures r.Wf() && r.width == img.width && r.height == img.height && r.kind == ByteGray
    ensures forall x: nat, y: nat :: x < r.width && y < r.height ==> IsGray(r.At(x, y))
  {
    Image(img.width, img.height, ByteGray,
          seq(img.height, y requires 0 <= y < img.height =>
            seq(img.width, x requires 0 <= x < img.width => GrayPixel(img.rows[y][x]))))
  }

  // ---------------------------------------------------------------- painting

  /** What a pixel write leaves in an image of the given type: a gray raster keeps luminance only. */
  function Stored(k: Kind, p: Pixel): Pixel {
    if k == ByteGray then GrayPixel(p) else p
  }

  /** `Graphics2D` painting in one colour: the pixels in `covered` (which the rasteriser
      determines) take the colour, every other pixel is kept. */
  function Paint(img: Image, covered: set<Point>, colour: Pixel): (r: Image)
    requires img.Wf()
    ensures r.Wf() && r.width == img.width && r.height == img.height && r.kind == img.kind
    ensures forall x: nat, y: nat :: x < img.width && y < img.height ==>
              r.At(x, y) == if Point(x, y) in covered then Stored(img.kind, colour) else img.At(x, y)
  {
    img.(rows := seq(img.height, y requires 0 <= y < img.height =>
                   seq(img.width, x requires 0 <= x < img.width =>
                     if Point(x, y) in covered then Stored(img.kind, colour) else img.rows[y][x])))
  }

  // ---------------------------------------------------------------- crop and resize

  /** `getSubimage(r.x, r.y, r.width, r.height)`, as an independent value. */
  function SubImage(img: Image, r: Rect): (s: Image)
    requires img.Wf() && InBounds(r, img.width, img.height)
    ensures s.Wf() && s.width == r.width && s.height == r.height && s.kind == img.kind
    ensures forall x: nat, y: nat :: x < s.width && y < s.height ==> s.At(x, y) == img.At(r.x + x, r.y + y)
  {
    Image(r.width, r.height, img.kind,
          seq(r.height, j requires 0 <= j < r.height => img.rows[r.y + j][r.x .. r.x + r.width]))
  }

  /** The source index a nearest-neighbour resample of `n` positions onto `m` reads for `i`. */
  function ScaledIndex(i: nat, m: nat, n: nat): (k: nat)
    requires i < m && n > 0
    ensures k < n
  {
    ScaledIndexBound(i, m, n);
    i * n / m
  }

  lemma ScaledIndexBound(i: nat, m: nat, n: nat)
    requires i < m && n > 0
    ensures i * n / m < n
  {
    DivBounds(i * n, m);
    MulMonotone(i + 1, m, n);
    assert (i + 1) * n == i * n + n;
    assert (i * n / m) * m < n * m;
    LessFromProducts(i * n / m, n, m);
  }

  /** Resampling onto the same extent reads every position from itself. */
  lemma ScaledIndexIdentity(i: nat, n: nat)
    requires i < n
    ensures ScaledIndex(i, n, n) == i
  {
    DivBounds(i * n, n);
    var k := i * n / n;
    assert (i + 1) * n == i * n + n;
    assert (k + 1) * n == k * n + n;
    LessFromProducts(k, i + 1, n);
    LessFromProducts(i, k + 1, n);
  }

  /** The stand-in for `getScaledInstance(w, h, SCALE_SMOOTH)` drawn into a new
      `TYPE_INT_ARGB` image: only the extent and the type are those of the source. */
  function Resample(img: Image, w: nat, h: nat): (s: Image)
    requires img.Wf() && img.width > 0 && img.height > 0
    ensures s.Wf() && s.width == w && s.height == h && s.kind == IntArgb
  {
    Image(w, h, IntArgb,
          seq(h, j requires 0 <= j < h =>
            seq(w, i requires 0 <= i < w => img.rows[ScaledIndex(j, h, img.height)][ScaledIndex(i, w, img.width)])))
  }

  /** Resampling onto the image's own extent keeps every pixel. */
  lemma ResampleSameExtent(img: Image)
    requires img.Wf() && img.width > 0 && img.height > 0
    ensures Resample(img, img.width, img.height).rows == img.rows
  {
    var r := Resample(img, img.width, img.height);
    forall y | 0 <= y < img.height
      ensures r.rows[y] == img.rows[y]
    {
      ScaledIndexIdentity(y, img.height);
      forall x | 0 <= x < img.width
        ensures r.rows[y][x] == img.rows[y][x]
      {
        ScaledIndexIdentity(x, img.width);
      }
    }
  }
}
