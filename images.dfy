/**
 * Pixels, images, masks and region descriptors, and the image-processing
 * library calls the pipeline makes, passed in as functions.
 */
module Images {
  import opened Geometry

  /** A normalised RGB pixel (each channel in 0..1 for a decoded image). */
  datatype Rgb = Rgb(r: real, g: real, b: real)

  /** A normalised HSV pixel: hue, saturation and value. */
  datatype Hsv = Hsv(h: real, s: real, v: real)

  // Images and masks are row-major grids: img[row][column].
  type RgbImage = seq<seq<Rgb>>
  type HsvImage = seq<seq<Hsv>>
  type Mask = seq<seq<bool>>
  /** Connected-component labels: 0 is background, each region a positive id. */
  type LabelMap = seq<seq<nat>>

  /**
   * The shape descriptor of one labelled region: its centroid as
   * (row, column), its signed orientation in radians and the length of the
   * major axis of its second-moment ellipse.
   */
  datatype Region = Region(centroid: (real, real), orientation: real, majorAxisLength: real)

  /**
   * The library calls the pipeline relies on. Erosion is always taken with a
   * disk of radius 3 and dilation with a disk of radius 6, so each is one
   * mask-to-mask function; `regionprops` lists a label map's regions in
   * label order; a warp maps an image through the projective transform
   * estimated from the four correspondences.
   */
  datatype Library = Library(
    rgbToHsv: RgbImage -> HsvImage,
    erodeSmall: Mask -> Mask,
    dilateLarge: Mask -> Mask,
    labelComponents: Mask -> LabelMap,
    regionprops: LabelMap -> seq<Region>,
    warpRgb: (RgbImage, seq<Correspondence>) -> RgbImage,
    warpHsv: (HsvImage, seq<Correspondence>) -> HsvImage)

  /** The trigonometric functions of the host platform, left uninterpreted. */
  datatype Trig = Trig(sin: real -> real, cos: real -> real)

  predicate SameShape<A, B>(a: seq<seq<A>>, b: seq<seq<B>>) {
    |a| == |b| && forall i :: 0 <= i < |a| ==> |a[i]| == |b[i]|
  }

  /** A morphological operation returns a mask of its input's shape. */
  ghost predicate PreservesShape(f: Mask -> Mask) {
    forall m :: SameShape(f(m), m)
  }

  /** Erosion by a structuring element that holds its origin never adds a pixel. */
  ghost predicate Shrinks(f: Mask -> Mask) {
    forall m :: SameShape(f(m), m) &&
      forall i, j :: 0 <= i < |m| && 0 <= j < |m[i]| && f(m)[i][j] ==> m[i][j]
  }
}
