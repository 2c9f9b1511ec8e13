/**
 * Turning labelled regions into piece records, and the records into the
 * solution value handed to the viewer.
 */
module Describer {
  import opened Images

  /** One detected piece: colour name, unsigned angle in degrees, line start and length. */
  datatype PieceRecord = PieceRecord(color: string, angle: real, x: real, y: real, length: real)

  /** The output value: its type tag and the records. */
  datatype Solution = Solution(kind: string, objs: seq<PieceRecord>)

  const SolutionType: string := "marek-solution"

  /** The double closest to pi, as the host's `math.pi`. */
  const Pi: real := 3.141592653589793

  /** The regions found for each colour, keyed by colour name in configuration order. */
  type Blocks = seq<(string, seq<Region>)>

  function Abs(r: real): (a: real)
    ensures a >= 0.0 && (a == r || a == -r)
  {
    if r < 0.0 then -r else r
  }

  /** Radians to degrees: multiplying back by pi gives 180 times the angle. */
  function Degrees(a: real): (d: real)
    ensures d * Pi == a * 180.0
    ensures a >= 0.0 ==> d >= 0.0
  {
    a * 180.0 / Pi
  }

  /**
   * The record of one region: the unsigned orientation, in degrees, and the
   * line start found by walking back half the major axis from the centroid.
   */
  function Describe(color: string, region: Region, trig: Trig): (r: PieceRecord)
    ensures r.color == color && r.length == region.majorAxisLength
    ensures r.angle >= 0.0 && r.angle == Degrees(Abs(region.orientation))
    ensures var a := Abs(region.orientation);
            r.x + trig.sin(a) * (r.length / 2.0) == region.centroid.1 &&
            r.y + trig.cos(a) * (r.length / 2.0) == region.centroid.0
  {
    var (cy, cx) := region.centroid;
    var angle := Abs(region.orientation);
    var length := region.majorAxisLength;
    PieceRecord(color, Degrees(angle), cx - trig.sin(angle) * 0.5 * length,
                cy - trig.cos(angle) * 0.5 * length, length)
  }

  /** The sign of the orientation is dropped: mirrored regions give the same record. */
  lemma DescribeIgnoresSign(color: string, region: Region, trig: Trig)
    ensures Describe(color, region.(orientation := -region.orientation), trig) ==
            Describe(color, region, trig)
  {
  }

  /** The records of one colour, one per region in label order. */
  function ColorRecords(color: string, regions: seq<Region>, trig: Trig): seq<PieceRecord> {
    seq(|regions|, k requires 0 <= k < |regions| => Describe(color, regions[k], trig))
  }

  /** All records: colours in configuration order, each colour's regions in label order. */
  function Records(blocks: Blocks, trig: Trig): seq<PieceRecord>
    decreases |blocks|
  {
    if blocks == [] then []
    else
      var last := blocks[|blocks| - 1];
      Records(blocks[..|blocks| - 1], trig) + ColorRecords(last.0, last.1, trig)
  }

  /** How many regions there are over all colours. */
  function TotalRegions(blocks: Blocks): nat
    decreases |blocks|
  {
    if blocks == [] then 0 else TotalRegions(blocks[..|blocks| - 1]) + |blocks[|blocks| - 1].1|
  }

  /** How many records carry colour `name`. */
  function CountColor(objs: seq<PieceRecord>, name: string): nat
    decreases |objs|
  {
    if objs == [] then 0
    else CountColor(objs[..|objs| - 1], name) + if objs[|objs| - 1].color == name then 1 else 0
  }

  /** One record per region: nothing merged, nothing dropped. */
  lemma {:induction false} RecordsLength(blocks: Blocks, trig: Trig)
    ensures |Records(blocks, trig)| == TotalRegions(blocks)
    decreases |blocks|
  {
    if blocks != [] {
      RecordsLength(blocks[..|blocks| - 1], trig);
    }
  }

  /**
   * Order: region `k` of colour `c` is described at position
   * (regions of the colours before `c`) + `k`.
   */
  lemma {:induction false} RecordAt(blocks: Blocks, trig: Trig, c: nat, k: nat)
    requires c < |blocks| && k < |blocks[c].1|
    ensures TotalRegions(blocks[..c]) + k < |Records(blocks, trig)|
    ensures Records(blocks, trig)[TotalRegions(blocks[..c]) + k] ==
              Describe(blocks[c].0, blocks[c].1[k], trig)
    decreases |blocks|
  {
    var n := |blocks|;
    var init := blocks[..n - 1];
    RecordsLength(init, trig);
    if c == n - 1 {
      assert blocks[..c] == init;
    } else {
      assert blocks[..c] == init[..c];
      assert init[c] == blocks[c];
      RecordAt(init, trig, c, k);
    }
  }

  /** Every record's angle is non-negative. */
  lemma {:induction false} RecordAnglesUnsigned(blocks: Blocks, trig: Trig)
    ensures forall i :: 0 <= i < |Records(blocks, trig)| ==> Records(blocks, trig)[i].angle >= 0.0
    decreases |blocks|
  {
    if blocks != [] {
      RecordAnglesUnsigned(blocks[..|blocks| - 1], trig);
    }
  }

  lemma {:induction false} CountColorAppend(a: seq<PieceRecord>, b: seq<PieceRecord>, name: string)
    ensures CountColor(a + b, name) == CountColor(a, name) + CountColor(b, name)
    decreases |b|
  {
    if b == [] {
      assert a + b == a;
    } else {
      assert (a + b)[..|a + b| - 1] == a + b[..|b| - 1];
      CountColorAppend(a, b[..|b| - 1], name);
    }
  }

  lemma {:induction false} CountColorRecords(color: string, regions: seq<Region>, trig: Trig, name: string)
    ensures CountColor(ColorRecords(color, regions, trig), name) == if color == name then |regions| else 0
    decreases |regions|
  {
    if regions != [] {
      var init := regions[..|regions| - 1];
      CountColorRecords(color, init, trig, name);
      assert ColorRecords(color, regions, trig)[..|regions| - 1] == ColorRecords(color, init, trig);
    }
  }

  /** Colour keys are distinct, as in a dictionary. */
  predicate DistinctNames(blocks: Blocks) {
    forall i, j :: 0 <= i < j < |blocks| ==> blocks[i].0 != blocks[j].0
  }

  /** How many regions are listed under `name`. */
  function RegionsNamed(blocks: Blocks, name: string): nat
    decreases |blocks|
  {
    if blocks == [] then 0
    else RegionsNamed(blocks[..|blocks| - 1], name) +
         if blocks[|blocks| - 1].0 == name then |blocks[|blocks| - 1].1| else 0
  }

  lemma {:induction false} CountColorIsRegionsNamed(blocks: Blocks, trig: Trig, name: string)
    ensures CountColor(Records(blocks, trig), name) == RegionsNamed(blocks, name)
    decreases |blocks|
  {
    if blocks != [] {
      var n := |blocks|;
      CountColorIsRegionsNamed(blocks[..n - 1], trig, name);
      CountColorAppend(Records(blocks[..n - 1], trig), ColorRecords(blocks[n - 1].0, blocks[n - 1].1, trig), name);
      CountColorRecords(blocks[n - 1].0, blocks[n - 1].1, trig, name);
    }
  }

  lemma {:induction false} RegionsNamedAbsent(blocks: Blocks, name: string)
    requires forall i :: 0 <= i < |blocks| ==> blocks[i].0 != name
    ensures RegionsNamed(blocks, name) == 0
    decreases |blocks|
  {
    if blocks != [] {
      RegionsNamedAbsent(blocks[..|blocks| - 1], name);
    }
  }

  lemma {:induction false} RegionsNamedUnique(blocks: Blocks, c: nat)
    requires DistinctNames(blocks) && c < |blocks|
    ensures RegionsNamed(blocks, blocks[c].0) == |blocks[c].1|
    decreases |blocks|
  {
    var n := |blocks|;
    var init := blocks[..n - 1];
    if c == n - 1 {
      RegionsNamedAbsent(init, blocks[c].0);
    } else {
      assert init[c] == blocks[c];
      RegionsNamedUnique(init, c);
    }
  }

  /** Per colour, the record count is the number of that colour's regions. */
  lemma RecordsPerColor(blocks: Blocks, trig: Trig, c: nat)
    requires DistinctNames(blocks) && c < |blocks|
    ensures CountColor(Records(blocks, trig), blocks[c].0) == |blocks[c].1|
  {
    CountColorIsRegionsNamed(blocks, trig, blocks[c].0);
    RegionsNamedUnique(blocks, c);
  }

  /** No record carries a colour name that is not a key. */
  lemma NoRecordsForOtherColors(blocks: Blocks, trig: Trig, name: string)
    requires forall i :: 0 <= i < |blocks| ==> blocks[i].0 != name
    ensures CountColor(Records(blocks, trig), name) == 0
  {
    CountColorIsRegionsNamed(blocks, trig, name);
    RegionsNamedAbsent(blocks, name);
  }

  /**
   * `transform_blocks_to_json`: one record per region, appended colour by
   * colour and, within a colour, region by region.
   */
  method TransformBlocksToJson(blocks: Blocks, trig: Trig) returns (sol: Solution)
    ensures sol.kind == SolutionType
    ensures sol.objs == Records(blocks, trig)
    ensures |sol.objs| == TotalRegions(blocks)
    ensures forall i :: 0 <= i < |sol.objs| ==> sol.objs[i].angle >= 0.0
  {
    var objs: seq<PieceRecord> := [];
    for c := 0 to |blocks|
      invariant objs == Records(blocks[..c], trig)
    {
      var (colorName, regions) := blocks[c];
      assert blocks[..c + 1][..c] == blocks[..c];
      for k := 0 to |regions|
        invariant objs == Records(blocks[..c], trig) + ColorRecords(colorName, regions[..k], trig)
      {
        var region := regions[k];
        var (cy, cx) := region.centroid;
        var angle := Abs(region.orientation);
        var length := region.majorAxisLength;
        var sx := cx - trig.sin(angle) * 0.5 * length;
        var sy := cy - trig.cos(angle) * 0.5 * length;
        assert PieceRecord(colorName, Degrees(angle), sx, sy, length) == Describe(colorName, region, trig);
        objs := objs + [PieceRecord(colorName, Degrees(angle), sx, sy, length)];
        assert ColorRecords(colorName, regions[..k + 1], trig) ==
               ColorRecords(colorName, regions[..k], trig) + [Describe(colorName, region, trig)];
      }
      assert regions[..|regions|] == regions;
    }
    assert blocks[..|blocks|] == blocks;
    RecordsLength(blocks, trig);
    RecordAnglesUnsigned(blocks, trig);
    sol := Solution(SolutionType, objs);
  }
}
