# Board rectification and piece detection: a Dafny model

This project models the geometric and book-keeping part of `MarekSolution`, a
solver that finds a rectangular playing board in a photograph and reports the
coloured pieces on it. Four coloured corner markers locate the board.
The pipeline runs in this order:

1. Threshold the HSV image for marker pixels, dilate, and label the regions.
2. Reduce each region to its centroid point, with `(row, column)` swapped to `(x, y)`.
   Fail when fewer than four exist.
3. Take the arithmetic mean of the points as the centre. Put each point in a
   4-slot integer array at the slot of its quadrant around the centre.
4. Pair the slots with the corners of a fixed 1000 x 500 rectangle.
   A library warps the image through a transform estimated from those pairs.
5. On the cropped HSV image, build a coarse saturation/value mask. Erode it,
   then dilate it, then cut one mask per configured colour out of it by hue.
6. Turn every labelled region into a record (colour, unsigned angle in degrees,
   line start, length). Collect the records into a `marek-solution` value.

Modules, leaf first:

- `Errors` (errors.dfy): the pipeline's error cases and the `Option`/`Result`/`Outcome` wrappers.
- `Geometry` (geometry.dfy): points, float-to-integer truncation, the `reduce` sum and the centre, the quadrant rule.
- `Images` (images.dfy): pixels, images, masks, region descriptors. It also holds the
  library calls as function-valued fields of `Library`, and `sin`/`cos` as `Trig`.
- `Masks` (masks.dfy): the strict threshold predicates and the masks built from them.
- `Rectifier` (rectifier.dfy): the corner list, the 4-slot array and the src/dst pairing.
- `Describer` (describer.dfy): piece records and `transform_blocks_to_json`.
- `Marek` (marek.dfy): the `MarekSolution` class and the caller's pipeline.

Modelling choices:

- The code does things step by step in three places, and the model keeps them as methods with loops:
  - `PositionsOfCorners` appends one point per region.
  - `PointsToTransform` overwrites the slots of a fresh `array` of four integer points.
  - `TransformBlocksToJson` appends records in two nested loops.
  
  Each is proved against a specification function: `CornerPoints`, `Slots` and `Records`, in that order.
  Lemmas state the properties of those functions.
- The object's fields `crop_img`/`crop_hsv` become `Option` fields of the
  class `MarekSolution`. `CropImage` sets them; `FindBlocks` reads them.
  Calling `find_blocks` before `crop_image` raises `AttributeError` in the source.
  The model returns `Err(NotCropped)` instead.
- The centre, the quadrant rule and the masks are pure, so they are functions.
- A Python dictionary is a sequence of `(key, value)` pairs in insertion order.
- The integer `dst_points` array stores a float by truncating it toward zero (`Trunc`).
- `degrees` is `a * 180 / Pi`, where `Pi` is the literal 3.141592653589793.
  `sin` and `cos` are uninterpreted parameters.
- The foreign calls (`rgb2hsv`, `erosion`/`dilation` with their fixed disks, `label`,
  `regionprops`, `warp`) are parameters of type `Library`. Some contracts assume facts
  about them, and they state those facts as hypotheses:
  - morphological operations keep the mask's shape (`PreservesShape`). This is a
    `requires` of `Masks.SeekColor`, `Masks.BlockLabels`, `Masks.BlocksMaskShape`,
    `Masks.SeekColorDisjoint`, `Marek.MarekSolution.FindBlocks` and `Marek.Solve`, so the
    pipeline's own contract rests on it;
  - the small erosion never adds a pixel (`Shrinks`). Only `Masks.SeekColorDisjoint` assumes this.
- `transform_blocks_to_json` takes each colour's regions, that is, the result of
  `regionprops(labels)`. In the pipeline, `RegionsOf` makes that call.

## Model

| member | source | states |
|---|---|---|
| `Geometry.Trunc` | marek.py:162-173 | storing a float coordinate into the integer `dst_points` array keeps a value between 0 and the coordinate, less than 1 away from it (truncation toward zero) |
| `Geometry.ReduceIsSum` | marek.py:154-157 | the `reduce` fold that starts from the first point equals the component-wise sum of all points |
| `Geometry.Center` | marek.py:152-158 | the centre is the sum of the points divided by their count; an empty list gives `Err(EmptyPoints)`, because `reduce` has no value for it |
| `Geometry.CenterInBox` | marek.py:152-158 | the centre lies inside every axis-aligned box that holds all the points |
| `Geometry.CenterPermutation` | marek.py:152-158 | reordering the points does not change the centre |
| `Geometry.CornerIndex` | marek.py:164-169 | UP_LEFT iff y < cy and x < cx, UP_RIGHT iff y < cy and x >= cx, DOWN_LEFT iff y >= cy and x < cx, DOWN_RIGHT iff y >= cy and x >= cx; the index is below 4 |
| `Geometry.CenterLinesGoDownRight` | marek.py:165-169 | a point on the vertical centre line is RIGHT, one on the horizontal line is DOWN, and the centre itself is DOWN_RIGHT |
| `Rectifier.PositionsOfCorners` | marek.py:144-150 | succeeds iff there are at least 4 regions, else `NotEnoughCorners`; on success, `CornerPoints(regions)`: one point per region in region order, each the centroid `(y, x)` swapped to `(x, y)` |
| `Rectifier.PointsToTransform` | marek.py:160-174 | returns a fresh array of exactly 4 slots whose contents are the slots after writing every point, in input order and truncated, into its quadrant's slot |
| `Rectifier.SlotIsLastWrite` | marek.py:171-173 | if no later point shares a point's quadrant, that quadrant's slot holds the point, truncated (last write wins) |
| `Rectifier.SlotNeverWritten` | marek.py:162-173 | a quadrant that no point falls in keeps its initial (0, 0) |
| `Rectifier.WriteTouchesOneSlot` | marek.py:172-173 | writing one more point changes only its own quadrant's slot |
| `Rectifier.SlotFromQuadrant` | marek.py:162-173 | slot q is (0, 0) when no point is in quadrant q; otherwise it is the truncated last point of quadrant q |
| `Rectifier.SlotsOrderIndependent` | marek.py:171-173 | when every quadrant receives exactly one point, any reordering of the points gives the same four slots |
| `Rectifier.MakeTransformToCrop` | marek.py:176-183 | exactly the `Pair` of the slots: 4 correspondences; correspondence k pairs canonical corner k of (0,0), (0,500), (1000,500), (1000,0) with slot k |
| `Rectifier.PairedWithMatchingCorner` | marek.py:164-183 | the last point of a quadrant is paired with the canonical corner on its own sides: x = 0 iff the point is left of the centre, y = 0 iff it is above it |
| `Rectifier.PairingOrderIndependent` | marek.py:152-183 | with the centre taken from the points themselves and one point per quadrant, reordering the points does not change the correspondences |
| `Masks.CornerMask` | marek.py:136-139 | the marker mask before dilation has the image's shape and is true exactly where s > 0.2, v > 0.3 and 0.8 < h < 0.95 |
| `Masks.ColorMask` | marek.py:80-84 | a colour's mask before erosion has the image's shape and is true exactly where the cleaned blocks mask is true and start < hue < end |
| `Masks.ColorMaskWithinBlocks` | marek.py:81-84 | a colour's mask is included in the cleaned blocks mask |
| `Masks.ColorMasksDisjoint` | marek.py:80-84 | colours with non-overlapping open hue bands never share a pixel |
| `Masks.DefaultColorsDisjoint` | marek.py:22-26 | the default green (0.4, 0.6) and yellow (0.05, 0.18) masks never share a pixel |
| `Masks.SeekColorDisjoint` | marek.py:80-86 | if the small erosion never adds a pixel, the final masks of colours with non-overlapping bands are disjoint |
| `Masks.CornerPixelIsNoPiece` | marek.py:136-139 | a marker pixel passes the coarse piece thresholds (s > 0.2, v > 0.3) but lies in neither default colour band |
| `Masks.PieceMask` | marek.py:76 | the coarse piece mask before cleaning has the image's shape and is true exactly where sat > 0.2 and val > 0.3 |
| `Masks.BlocksMaskShape` | marek.py:76-78 | the coarse piece mask, after erosion then dilation, has the image's shape |
| `Masks.SeekColor` | marek.py:80-86 | a colour's final mask, the small erosion of its `ColorMask`, has the image's shape |
| `Masks.BlockLabels` | marek.py:80-104 | one labelled mask per configured colour, keyed by colour name in configuration order |
| `Describer.Degrees` | marek.py:119 | the degree value times pi is 180 times the radian value, and it is non-negative for a non-negative angle |
| `Describer.Describe` | marek.py:112-123 | colour is the key; length is the major axis length; angle = degrees(abs(orientation)) >= 0; the centroid lies half a length from the start along (sin, cos) of the unsigned angle |
| `Describer.DescribeIgnoresSign` | marek.py:113 | negating a region's orientation leaves its record unchanged |
| `Describer.RecordsLength` | marek.py:109-123 | the number of records is the total number of regions over all colours |
| `Describer.RecordAt` | marek.py:109-123 | region k of colour c is at index (regions of the colours before c) + k: colours in key order, regions in label order |
| `Describer.RecordAnglesUnsigned` | marek.py:113-119 | every record's angle is non-negative |
| `Describer.RecordsPerColor` | marek.py:109-123 | with distinct keys, the records carrying a colour's name number exactly that colour's regions |
| `Describer.NoRecordsForOtherColors` | marek.py:109-123 | no record carries a name that is not a key |
| `Describer.TransformBlocksToJson` | marek.py:107-128 | the type is `marek-solution`; the records are those of the specification, one per region, all with non-negative angles |
| `Marek.MarekSolution.constructor` | marek.py:28-35 | keeps the decoded image and its HSV conversion, with nothing cropped yet and the default colours |
| `Marek.MarekSolution.CropImage` | marek.py:37-68 | fails with `NotEnoughCorners` iff fewer than 4 corner regions exist, and then leaves both crops unchanged; otherwise the HSV crop, and the RGB crop iff asked for, is the warp through the correspondences of the corner regions |
| `Marek.MarekSolution.FindBlocks` | marek.py:71-105 | fails with `NotCropped` iff nothing was cropped; otherwise one labelled mask per configured colour, names in configuration order |
| `Marek.Solve` | marek_game.py:36-39 | the caller's run fails, with no records, iff fewer than 4 corner regions exist; otherwise it gives a `marek-solution` with non-negative angles, no records under a name outside the default colours, and under each default colour as many records as its label map has regions |

## Left out

- Image decoding and the optional pre-scaling in `__init__` (marek.py:29-34). `imread`, `resize` and `img_as_float` are file I/O and library resampling. The constructor receives the decoded float image. The source passes `(w, h)` to `resize`, where the library expects `(rows, columns)`. The model does not follow this, because the call is not modelled.
- `erosion`, `dilation`, `disk`, `label`, `regionprops`, `rgb2hsv`: foreign library calls. They are fields of `Library`. Only shape preservation and, for `SeekColorDisjoint`, non-growth of the erosion are assumed, each as a stated hypothesis.
- `ProjectiveTransform.estimate` and `warp` (marek.py:61-62, 184-185): the floating-point homography solve and the resampling. The model stops at the four correspondences. The warp is a library function of the image and the correspondences.
- `Marek.MarekSolution.FindCorners` has no contract of its own. It is the library's labelling of the dilated `CornerMask`.
- No distinct error for a degenerate transform: `_make_transform_to_crop` ignores the result of `estimate` (marek.py:185), so collinear or coincident points go straight on to `warp`. The model has no such error either.
- Rounding: the model uses exact reals. The float64 rounding of sums, means and the start-point arithmetic is not modelled. Neither are NaN pixels.
- `Geometry.Trunc`: does not model int64 overflow of `dst_points`, because image coordinates are far below that bound.
- `Describer.Degrees`: pi is the literal 3.141592653589793, the host's double, not the real number pi. `sin` and `cos` are uninterpreted, so the model proves nothing about their values.
- `Describer.RecordAnglesUnsigned`: states non-negativity only, not the upper bound of 90 degrees. That bound depends on `regionprops` keeping orientations within [-pi/2, pi/2], and the model does not assume this.
- The `debug`/`debug_small` paths, `time()` measurements, `print` and matplotlib rendering (marek.py:38-68, 93-99): debug output only.
- Python's `assert` is dropped under `python -O`. The model always fails on fewer than four corners.
- The viewer in marek_game.py (window, pixel copy, drawing, event loop) and the plotting helpers in utils.py: user interface, not modelled. Only the viewer's call sequence (marek_game.py:36-39) is modelled, as `Marek.Solve`.
