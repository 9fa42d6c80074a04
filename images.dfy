/** The raster model of the editor: pixels, image types and images as values.
    A Java `BufferedImage` reference that may be null becomes an `Option<Image>`;
    value semantics stand in for the editor's `deepCopy` discipline. */
module Images {

  datatype Option<T> = None | Some(value: T)

  /** An 8-bit colour or alpha sample. */
  type Channel = c: int | 0 <= c < 256

  /** One pixel as `getRGB` reports it: red, green, blue and alpha. */
  datatype Pixel = Pixel(r: Channel, g: Channel, b: Channel, a: Channel)

  /** The `BufferedImage` type codes the editor tells apart; `Custom` is `TYPE_CUSTOM` (code 0). */
  datatype Kind = Custom | IntRgb | IntArgb | ByteGray | OtherKind

  /** An image: `rows[y][x]` is the pixel in column `x` of row `y`. */
  datatype Image = Image(width: nat, height: nat, kind: Kind, rows: seq<seq<Pixel>>)
  {
    /** The raster has exactly `height` rows of `width` pixels each. */
    predicate Wf() {
      |rows| == height && forall y :: 0 <= y < |rows| ==> |rows[y]| == width
    }

    /** `getRGB(x, y)`. */
    function At(x: nat, y: nat): Pixel
      requires Wf() && x < width && y < height
    {
      rows[y][x]
    }
  }

  /** A possibly-null image slot holds a well-formed raster. */
  predicate WfOpt(img: Option<Image>) {
    img.Some? ==> img.value.Wf()
  }

  /** A pixel whose three colour channels agree. */
  predicate IsGray(p: Pixel) {
    p.r == p.g && p.g == p.b
  }

  /** `deepCopy` replaces `TYPE_CUSTOM` by `TYPE_INT_ARGB` and keeps every other type. */
  function NormalizedKind(k: Kind): Kind {
    if k == Custom then IntArgb else k
  }

  /** `deepCopy`: no copy of a null image or of one with an empty extent; otherwise an
      independent image with the same extent and the same pixels, never of `TYPE_CUSTOM`. */
  function DeepCopy(img: Option<Image>): (r: Option<Image>)
    ensures r.Some? <==> img.Some? && img.value.width > 0 && img.value.height > 0
    ensures r.Some? ==> r.value.width == img.value.width && r.value.height == img.value.height
    ensures r.Some? ==> r.value.rows == img.value.rows && r.value.kind != Custom
    ensures r.Some? && img.value.kind != Custom ==> r == img
    ensures WfOpt(img) ==> WfOpt(r)
  {
    if img.None? || img.value.width == 0 || img.value.height == 0 then None
    else Some(img.value.(kind := NormalizedKind(img.value.kind)))
  }

  /** Copying a copy changes nothing: every slot filled by `deepCopy` is already normal. */
  lemma DeepCopyIdempotent(img: Option<Image>)
    ensures DeepCopy(DeepCopy(img)) == DeepCopy(img)
  {
  }
}
