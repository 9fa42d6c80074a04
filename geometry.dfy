/** Points, rectangles and the coordinate arithmetic of the image panel and of cropping. */
module Geometry {
  import opened Images

  datatype Point = Point(x: int, y: int)

  /** `java.awt.Rectangle`: top-left corner and extent. */
  datatype Rect = Rect(x: int, y: int, width: int, height: int)

  /** A width and a height, as a component's `getWidth()`/`getHeight()` report them. */
  datatype Size = Size(width: int, height: int)

  function Min(a: int, b: int): int { if a <= b then a else b }
  function Max(a: int, b: int): int { if a >= b then a else b }
  function Abs(a: int): int { if a < 0 then -a else a }

  /** The rectangle the mouse handlers and `applyCrop` span between two points: its corner is
      the smaller coordinate on each axis and its extent the distance between the points. */
  function Span(a: Point, b: Point): (r: Rect)
    ensures r.width >= 0 && r.height >= 0
    ensures (r.x == a.x && r.x + r.width == b.x) || (r.x == b.x && r.x + r.width == a.x)
    ensures (r.y == a.y && r.y + r.height == b.y) || (r.y == b.y && r.y + r.height == a.y)
  {
    Rect(Min(a.x, b.x), Min(a.y, b.y), Abs(a.x - b.x), Abs(a.y - b.y))
  }

  /** The boundary adjustment of `applyCrop` for a `w` by `h` image: a negative corner is moved
      to 0, and an extent that runs past the right or bottom edge is cut back to the edge. */
  function ClampRect(r: Rect, w: int, h: int): (c: Rect)
    ensures c.x >= 0 && c.y >= 0 && c.x + c.width <= w && c.y + c.height <= h
    ensures c.x == Max(0, r.x) && c.y == Max(0, r.y)
    ensures c.width <= r.width && c.height <= r.height
    ensures r.x >= 0 ==> c.width == Min(r.width, w - r.x)
    ensures r.y >= 0 ==> c.height == Min(r.height, h - r.y)
  {
    var x := Max(0, r.x);
    var y := Max(0, r.y);
    var width := if x + r.width > w then w - x else r.width;
    var height := if y + r.height > h then h - y else r.height;
    Rect(x, y, width, height)
  }

  /** A rectangle that lies inside a `w` by `h` image and covers at least one pixel. */
  predicate InBounds(r: Rect, w: int, h: int) {
    0 <= r.x && 0 <= r.y && 0 < r.width && 0 < r.height && r.x + r.width <= w && r.y + r.height <= h
  }

  /** Java's `n / 2` on `int`, which truncates toward zero. */
  function Half(n: int): (q: int)
    ensures n >= 0 ==> 0 <= q && 2 * q <= n <= 2 * q + 1
    ensures n < 0 ==> q <= 0 && 2 * q - 1 <= n <= 2 * q
  {
    if n >= 0 then n / 2 else -((-n) / 2)
  }

  /** Where the panel draws the top-left corner of a `shown` image: centred in the panel.
      A shorthand; `PanelToImageOfDrawnPixel` and `PanelToImageOutside` state its role. */
  function Offset(shown: Size, panel: Size): Point {
    Point(Half(panel.width - shown.width), Half(panel.height - shown.height))
  }

  /** `ImagePanel.convertPanelPointToImagePoint`: with no (or an empty) image displayed the
      point passes through; otherwise it is taken relative to the centred image and clamped
      onto the image. */
  function PanelToImage(p: Point, shown: Option<Size>, panel: Size): (q: Point)
    ensures shown.None? || shown.value.width <= 0 || shown.value.height <= 0 ==> q == p
    ensures shown.Some? && shown.value.width > 0 && shown.value.height > 0 ==>
              0 <= q.x < shown.value.width && 0 <= q.y < shown.value.height
  {
    if shown.None? || shown.value.width <= 0 || shown.value.height <= 0 then p
    else
      var o := Offset(shown.value, panel);
      Point(Max(0, Min(p.x - o.x, shown.value.width - 1)),
            Max(0, Min(p.y - o.y, shown.value.height - 1)))
  }

  /** A panel point over the drawn image maps to the image pixel under it: converting the
      position where `paintComponent` draws pixel (i, j) gives back (i, j). */
  lemma PanelToImageOfDrawnPixel(shown: Size, panel: Size, i: int, j: int)
    requires 0 <= i < shown.width && 0 <= j < shown.height
    ensures var o := Offset(shown, panel);
            PanelToImage(Point(o.x + i, o.y + j), Some(shown), panel) == Point(i, j)
  {
  }

  /** A panel point left of or above the image maps to the first column or row; one right of
      or below it to the last. */
  lemma PanelToImageOutside(p: Point, shown: Size, panel: Size)
    requires shown.width > 0 && shown.height > 0
    ensures var o := Offset(shown, panel); var q := PanelToImage(p, Some(shown), panel);
            (p.x < o.x ==> q.x == 0) && (p.x >= o.x + shown.width ==> q.x == shown.width - 1) &&
            (p.y < o.y ==> q.y == 0) && (p.y >= o.y + shown.height ==> q.y == shown.height - 1)
  {
  }

  function RMin(a: real, b: real): real { if a <= b then a else b }

  /** The target extent of `resizeImageToFitPanel` for a `w` by `h` image in a `pw` by `ph`
      viewport: scale by min(1, pw / w, ph / h) and truncate. The image is never enlarged and
      the result fits the viewport. Exact reals stand in for Java's `double`. */
  function FitSize(w: int, h: int, pw: int, ph: int): (s: Size)
    requires w > 0 && h > 0 && pw > 0 && ph > 0
    ensures 0 <= s.width <= w && 0 <= s.height <= h
    ensures s.width <= pw && s.height <= ph
    ensures w <= pw && h <= ph ==> s == Size(w, h)
  {
    var scale := RMin(1.0, RMin(pw as real / w as real, ph as real / h as real));
    RatioAtLeastOne(w, pw);
    RatioAtLeastOne(h, ph);
    var sw := FitExtent(w, pw, scale);
    var sh := FitExtent(h, ph, scale);
    Size(sw, sh)
  }

  /** m / n is at least 1 exactly when n <= m. */
  lemma RatioAtLeastOne(n: int, m: int)
    requires n > 0 && m > 0
    ensures n <= m <==> m as real / n as real >= 1.0
    ensures m as real / n as real > 0.0
  {
    assert (m as real / n as real) * n as real == m as real;
  }

  /** `(int) (n * scale)` for a factor in [0, min(1, m / n)]: within both `n` and `m`. */
  function FitExtent(n: int, m: int, scale: real): (k: int)
    requires n > 0 && m > 0 && 0.0 <= scale <= 1.0 && scale <= m as real / n as real
    ensures 0 <= k <= n && k <= m
    ensures scale == 1.0 ==> k == n
  {
    FitBound(n, m, scale);
    (n as real * scale).Floor
  }

  /** Scaling an extent `n` by a factor in [0, min(1, m / n)] stays within both `n` and `m`. */
  lemma FitBound(n: int, m: int, scale: real)
    requires n > 0 && m > 0 && 0.0 <= scale <= 1.0 && scale <= m as real / n as real
    ensures 0.0 <= n as real * scale <= n as real
    ensures n as real * scale <= m as real
  {
    assert n as real * (m as real / n as real) == m as real;
  }
}
