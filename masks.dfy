/**
 * The pointwise threshold masks: the corner-marker mask of the original
 * image, and the coarse "piece" mask and per-colour masks of the cropped one.
 * All comparisons are strict.
 */
module Masks {
  import opened Images

  /** An open hue interval (start, end). */
  datatype HueRange = HueRange(start: real, end: real)

  /** A configured piece colour: its name and its hue interval. */
  type ColorBlock = (string, HueRange)

  /** The default piece colours, in declaration order. */
  const DefaultColorBlocks: seq<ColorBlock> :=
    [("green", HueRange(0.4, 0.6)), ("yellow", HueRange(0.05, 0.18))]

  /** A marker pixel: saturated, bright, and with a hue in (0.8, 0.95). */
  predicate CornerPixel(p: Hsv) {
    p.s > 0.2 && p.v > 0.3 && p.h > 0.8 && p.h < 0.95
  }

  /** A pixel that may belong to a piece: saturated and bright, whatever its hue. */
  predicate PiecePixel(p: Hsv) {
    p.s > 0.2 && p.v > 0.3
  }

  predicate InHueRange(p: Hsv, range: HueRange) {
    p.h > range.start && p.h < range.end
  }

  /** The element-wise application of a pixel predicate to a whole image. */
  function PixelMask<P>(img: seq<seq<P>>, keep: P -> bool): (m: Mask)
    ensures SameShape(m, img)
    ensures forall i, j :: 0 <= i < |img| && 0 <= j < |img[i]| ==> m[i][j] == keep(img[i][j])
  {
    seq(|img|, i requires 0 <= i < |img| =>
      seq(|img[i]|, j requires 0 <= j < |img[i]| => keep(img[i][j])))
  }

  /** The corner mask before dilation. */
  function CornerMask(hsv: HsvImage): (m: Mask)
    ensures SameShape(m, hsv)
    ensures forall i, j :: 0 <= i < |hsv| && 0 <= j < |hsv[i]| ==>
              (m[i][j] <==> hsv[i][j].s > 0.2 && hsv[i][j].v > 0.3 && 0.8 < hsv[i][j].h < 0.95)
  {
    PixelMask(hsv, CornerPixel)
  }

  /** The coarse piece mask before cleaning. */
  function PieceMask(hsv: HsvImage): (m: Mask)
    ensures SameShape(m, hsv)
    ensures forall i, j :: 0 <= i < |hsv| && 0 <= j < |hsv[i]| ==>
              (m[i][j] <==> hsv[i][j].s > 0.2 && hsv[i][j].v > 0.3)
  {
    PixelMask(hsv, PiecePixel)
  }

  /** The coarse piece mask, cleaned by erosion and then dilation. */
  function BlocksMask(hsv: HsvImage, lib: Library): Mask {
    lib.dilateLarge(lib.erodeSmall(PieceMask(hsv)))
  }

  /** A colour's mask before its final erosion: the cleaned blocks mask AND the hue band. */
  function ColorMask(blocks: Mask, hsv: HsvImage, range: HueRange): (m: Mask)
    requires SameShape(blocks, hsv)
    ensures SameShape(m, hsv)
    ensures forall i, j :: 0 <= i < |hsv| && 0 <= j < |hsv[i]| ==>
              (m[i][j] <==> blocks[i][j] && range.start < hsv[i][j].h < range.end)
  {
    seq(|hsv|, i requires 0 <= i < |hsv| =>
      seq(|hsv[i]|, j requires 0 <= j < |hsv[i]| => blocks[i][j] && InHueRange(hsv[i][j], range)))
  }

  /** `seek_color`: a colour's mask, sharpened by one more erosion. */
  function SeekColor(blocks: Mask, hsv: HsvImage, range: HueRange, lib: Library): (r: Mask)
    requires SameShape(blocks, hsv)
    requires PreservesShape(lib.erodeSmall)
    ensures SameShape(r, hsv)
  {
    assert SameShape(lib.erodeSmall(ColorMask(blocks, hsv, range)), ColorMask(blocks, hsv, range));
    lib.erodeSmall(ColorMask(blocks, hsv, range))
  }

  /**
   * The labelled mask of every configured colour, keyed by colour name in
   * configuration order.
   */
  function BlockLabels(hsv: HsvImage, colors: seq<ColorBlock>, lib: Library): (r: seq<(string, LabelMap)>)
    requires PreservesShape(lib.erodeSmall) && PreservesShape(lib.dilateLarge)
    ensures |r| == |colors|
    ensures forall k :: 0 <= k < |colors| ==> r[k].0 == colors[k].0
    ensures forall k :: 0 <= k < |colors| ==>
              r[k].1 == lib.labelComponents(SeekColor(BlocksMask(hsv, lib), hsv, colors[k].1, lib))
  {
    var blocks := BlocksMask(hsv, lib);
    assert SameShape(lib.erodeSmall(PieceMask(hsv)), hsv);
    seq(|colors|, k requires 0 <= k < |colors| =>
      (colors[k].0, lib.labelComponents(SeekColor(blocks, hsv, colors[k].1, lib))))
  }

  lemma BlocksMaskShape(hsv: HsvImage, lib: Library)
    requires PreservesShape(lib.erodeSmall) && PreservesShape(lib.dilateLarge)
    ensures SameShape(BlocksMask(hsv, lib), hsv)
  {
    assert SameShape(lib.erodeSmall(PieceMask(hsv)), hsv);
  }

  /** A colour's mask never leaves the cleaned blocks mask it was cut from. */
  lemma ColorMaskWithinBlocks(blocks: Mask, hsv: HsvImage, range: HueRange, i: nat, j: nat)
    requires SameShape(blocks, hsv)
    requires i < |hsv| && j < |hsv[i]|
    ensures ColorMask(blocks, hsv, range)[i][j] ==> blocks[i][j]
  {
  }

  /** Colours whose open hue bands do not overlap get disjoint masks. */
  lemma ColorMasksDisjoint(blocks: Mask, hsv: HsvImage, a: HueRange, b: HueRange, i: nat, j: nat)
    requires SameShape(blocks, hsv)
    requires a.end <= b.start || b.end <= a.start
    requires i < |hsv| && j < |hsv[i]|
    ensures !(ColorMask(blocks, hsv, a)[i][j] && ColorMask(blocks, hsv, b)[i][j])
  {
  }

  /** With the default bands, no pixel is both green and yellow. */
  lemma DefaultColorsDisjoint(blocks: Mask, hsv: HsvImage, i: nat, j: nat)
    requires SameShape(blocks, hsv)
    requires i < |hsv| && j < |hsv[i]|
    ensures DefaultColorBlocks[0].0 == "green" && DefaultColorBlocks[1].0 == "yellow"
    ensures !(ColorMask(blocks, hsv, DefaultColorBlocks[0].1)[i][j] &&
              ColorMask(blocks, hsv, DefaultColorBlocks[1].1)[i][j])
  {
    ColorMasksDisjoint(blocks, hsv, DefaultColorBlocks[0].1, DefaultColorBlocks[1].1, i, j);
  }

  /**
   * When the small erosion never adds a pixel, the final masks of two colours
   * with non-overlapping bands are still disjoint.
   */
  lemma SeekColorDisjoint(hsv: HsvImage, a: HueRange, b: HueRange, lib: Library, i: nat, j: nat)
    requires Shrinks(lib.erodeSmall) && PreservesShape(lib.erodeSmall) && PreservesShape(lib.dilateLarge)
    requires a.end <= b.start || b.end <= a.start
    requires i < |hsv| && j < |hsv[i]|
    ensures SameShape(BlocksMask(hsv, lib), hsv)
    ensures !(SeekColor(BlocksMask(hsv, lib), hsv, a, lib)[i][j] &&
              SeekColor(BlocksMask(hsv, lib), hsv, b, lib)[i][j])
  {
    BlocksMaskShape(hsv, lib);
    var blocks := BlocksMask(hsv, lib);
    var ma := ColorMask(blocks, hsv, a);
    var mb := ColorMask(blocks, hsv, b);
    assert SameShape(lib.erodeSmall(ma), ma);
    assert SameShape(lib.erodeSmall(mb), mb);
    assert lib.erodeSmall(ma)[i][j] ==> ma[i][j];
    assert lib.erodeSmall(mb)[i][j] ==> mb[i][j];
    ColorMasksDisjoint(blocks, hsv, a, b, i, j);
  }

  /**
   * A corner-marker pixel passes the coarse piece thresholds but lies in
   * neither default colour band.
   */
  lemma CornerPixelIsNoPiece(p: Hsv)
    requires CornerPixel(p)
    ensures PiecePixel(p)
    ensures forall k :: 0 <= k < |DefaultColorBlocks| ==> !InHueRange(p, DefaultColorBlocks[k].1)
  {
  }
}
