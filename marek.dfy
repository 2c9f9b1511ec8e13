/**
 * The solver object: it holds the decoded image, crops the board out of it,
 * then finds the coloured pieces on the cropped board.
 */
module Marek {
  import opened Errors
  import opened Geometry
  import opened Images
  import opened Masks
  import opened Rectifier
  import opened Describer

  /** The correspondences the board's transform is estimated from, given at least four corner regions. */
  function CropCorrespondences(regions: seq<Region>): seq<Correspondence>
    requires |regions| >= 4
  {
    var points := CornerPoints(regions);
    Pair(Slots(points, Center(points).value))
  }

  class MarekSolution {
    const img: RgbImage
    const hsv: HsvImage
    /** Piece colours and their hue bands, in declaration order. */
    var colorBlocks: seq<ColorBlock>
    /** The cropped board, once `CropImage` has succeeded (the RGB one only when asked for). */
    var cropImg: Option<RgbImage>
    var cropHsv: Option<HsvImage>

    /** Keeps the decoded image and its HSV conversion; nothing is cropped yet. */
    constructor (image: RgbImage, lib: Library)
      ensures img == image && hsv == lib.rgbToHsv(image)
      ensures colorBlocks == DefaultColorBlocks
      ensures cropImg == None && cropHsv == None
    {
      img := image;
      hsv := lib.rgbToHsv(image);
      colorBlocks := DefaultColorBlocks;
      cropImg := None;
      cropHsv := None;
    }

    /** `_find_corners`: the labelled, dilated marker mask of the original image. */
    function FindCorners(lib: Library): LabelMap {
      lib.labelComponents(lib.dilateLarge(CornerMask(hsv)))
    }

    /**
     * `crop_image`: locate the corners, pair them with the canonical
     * rectangle and warp the image through the resulting transform. With
     * fewer than four corner regions it fails and nothing is cropped.
     */
    method CropImage(withImg: bool, lib: Library) returns (outcome: Outcome)
      modifies this`cropImg, this`cropHsv
      ensures var regions := lib.regionprops(FindCorners(lib));
              (outcome.Fail? <==> |regions| < 4) &&
              (outcome.Fail? ==> outcome.error == NotEnoughCorners &&
                                 cropImg == old(cropImg) && cropHsv == old(cropHsv)) &&
              (outcome.Pass? ==>
                 cropHsv == Some(lib.warpHsv(hsv, CropCorrespondences(regions))) &&
                 cropImg == if withImg then Some(lib.warpRgb(img, CropCorrespondences(regions)))
                            else old(cropImg))
    {
      var corners := FindCorners(lib);
      var regions := lib.regionprops(corners);
      var found := PositionsOfCorners(regions);
      if found.Err? {
        return Fail(found.error);
      }
      var cornerPoints := found.value;
      var center := Center(cornerPoints).value;
      var tform := MakeTransformToCrop(cornerPoints, center);
      if withImg {
        cropImg := Some(lib.warpRgb(img, tform));
      }
      cropHsv := Some(lib.warpHsv(hsv, tform));
      outcome := Pass;
    }

    /**
     * `find_blocks`: the labelled mask of every configured colour, keyed by
     * colour name in configuration order. Fails when nothing was cropped yet.
     */
    function FindBlocks(lib: Library): (r: Result<seq<(string, LabelMap)>>)
      requires PreservesShape(lib.erodeSmall) && PreservesShape(lib.dilateLarge)
      reads this
      ensures r.Err? <==> cropHsv.None?
      ensures r.Err? ==> r.error == NotCropped
      ensures r.Ok? ==> |r.value| == |colorBlocks| &&
                        forall k :: 0 <= k < |colorBlocks| ==> r.value[k].0 == colorBlocks[k].0
    {
      if cropHsv.None? then Err(NotCropped) else Ok(BlockLabels(cropHsv.value, colorBlocks, lib))
    }
  }

  /** The regions of each colour's label map, keys and order kept. */
  function RegionsOf(labels: seq<(string, LabelMap)>, lib: Library): (b: Blocks)
    ensures |b| == |labels|
    ensures forall k :: 0 <= k < |labels| ==> b[k] == (labels[k].0, lib.regionprops(labels[k].1))
  {
    seq(|labels|, k requires 0 <= k < |labels| => (labels[k].0, lib.regionprops(labels[k].1)))
  }

  /**
   * The whole pipeline as its caller runs it: crop with the RGB image, find
   * the blocks, emit the records. It fails, with no record at all, exactly
   * when fewer than four corner regions are found; otherwise records appear
   * only under the default colour names, as many per colour as it has regions.
   */
  method Solve(image: RgbImage, lib: Library, trig: Trig) returns (r: Result<Solution>)
    requires PreservesShape(lib.erodeSmall) && PreservesShape(lib.dilateLarge)
    ensures var cornerMask := CornerMask(lib.rgbToHsv(image));
            r.Err? <==> |lib.regionprops(lib.labelComponents(lib.dilateLarge(cornerMask)))| < 4
    ensures r.Err? ==> r.error == NotEnoughCorners
    ensures r.Ok? ==> r.value.kind == SolutionType
    ensures r.Ok? ==> forall i :: 0 <= i < |r.value.objs| ==> r.value.objs[i].angle >= 0.0
    ensures r.Ok? ==> forall name :: (forall k :: 0 <= k < |DefaultColorBlocks| ==> DefaultColorBlocks[k].0 != name) ==>
              CountColor(r.value.objs, name) == 0
    ensures r.Ok? ==>
              var hsv := lib.rgbToHsv(image);
              var regions := lib.regionprops(lib.labelComponents(lib.dilateLarge(CornerMask(hsv))));
              |regions| >= 4 &&
              var labels := BlockLabels(lib.warpHsv(hsv, CropCorrespondences(regions)), DefaultColorBlocks, lib);
              forall k :: 0 <= k < |DefaultColorBlocks| ==>
                CountColor(r.value.objs, DefaultColorBlocks[k].0) == |lib.regionprops(labels[k].1)|
  {
    var solution := new MarekSolution(image, lib);
    var cropped := solution.CropImage(true, lib);
    if cropped.Fail? {
      return Err(cropped.error);
    }
    var found := solution.FindBlocks(lib);
    assert found.Ok?;
    var labels := found.value;
    var blocks := RegionsOf(labels, lib);
    var data := TransformBlocksToJson(blocks, trig);
    forall name | forall k :: 0 <= k < |DefaultColorBlocks| ==> DefaultColorBlocks[k].0 != name
      ensures CountColor(data.objs, name) == 0
    {
      NoRecordsForOtherColors(blocks, trig, name);
    }
    assert DistinctNames(blocks);
    forall k | 0 <= k < |DefaultColorBlocks|
      ensures CountColor(data.objs, DefaultColorBlocks[k].0) == |lib.regionprops(labels[k].1)|
    {
      RecordsPerColor(blocks, trig, k);
    }
    return Ok(data);
  }
}
