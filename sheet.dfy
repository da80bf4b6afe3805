/**
 * One answer sheet from image to result (`process_gabarito`, corretor.py):
 * find the markers, lay the 18 x 9 grid over them, read the student number
 * from six cells of row 4, the variant number from four cells of row 5 and
 * the answers from rows 7..16.
 */
module Sheet {
  import opened Wrappers
  import opened Markers
  import opened Grid
  import opened Sampling

  /**
   * What OpenCV hands over for one file: nothing when the image cannot be
   * opened, otherwise the thresholded image and the bounding boxes of its
   * outer contours.
   */
  datatype Picture = Unreadable | Loaded(binary: Image, boxes: seq<Box>)

  /** The dictionary `process_gabarito` returns. */
  datatype SheetResult = SheetResult(studentId: nat, variantId: nat, answers: seq<string>)

  const Rows: nat := 18
  const Cols: nat := 9

  predicate WellLoaded(p: Picture) {
    p.Loaded? ==> p.binary.Valid()
  }

  /** Columns 2..7 of row 4. */
  function IdPoints(grid: seq<seq<Point>>): (ps: seq<Point>)
    requires |grid| > 4 && |grid[4]| >= 8
    ensures |ps| == 6
  {
    seq(6, k requires 0 <= k < 6 => grid[4][2 + k])
  }

  /** Columns 2..5 of row 5. */
  function VariantPoints(grid: seq<seq<Point>>): (ps: seq<Point>)
    requires |grid| > 5 && |grid[5]| >= 6
    ensures |ps| == 4
  {
    seq(4, k requires 0 <= k < 4 => grid[5][2 + k])
  }

  /** The result of one sheet, stated on the reading functions. */
  function SheetOf(p: Picture): Option<SheetResult>
    requires WellLoaded(p)
  {
    match p
    case Unreadable => None
    case Loaded(img, boxes) =>
      match SelectMarkers(boxes)
      case None => None
      case Some(c) =>
        var grid := GridCenters(c, Rows, Cols);
        Some(SheetResult(WeightedSum(Bits(img, IdPoints(grid))), WeightedSum(Bits(img, VariantPoints(grid))), Answers(img, grid)))
  }

  lemma SmallPowers()
    ensures Pow2(4) == 16 && Pow2(6) == 64
  {
    assert Pow2(4) == 16;
    assert Pow2(6) == 4 * Pow2(4);
  }

  /**
   * A sheet is refused when the image cannot be opened or fewer than four
   * boxes pass the marker window; otherwise it has a student number below
   * 64 and a variant number below 16, each the bits of its cells read most
   * significant first, and ten answers.
   */
  lemma SheetOfMeaning(p: Picture)
    requires WellLoaded(p)
    ensures SheetOf(p).None? <==> p.Unreadable? || |Candidates(p.boxes)| < 4
    ensures SheetOf(p).Some? ==>
      var r := SheetOf(p).value;
      var g := GridCenters(SelectMarkers(p.boxes).value, Rows, Cols);
      && r.studentId < 64 && r.variantId < 16 && |r.answers| == 10
      && ToBinary(r.studentId, 6) == Bits(p.binary, IdPoints(g))
      && ToBinary(r.variantId, 4) == Bits(p.binary, VariantPoints(g))
  {
    if p.Loaded? {
      SelectMarkersMeaning(p.boxes);
      if SelectMarkers(p.boxes).Some? {
        var g := GridCenters(SelectMarkers(p.boxes).value, Rows, Cols);
        var ids := Bits(p.binary, IdPoints(g));
        var vs := Bits(p.binary, VariantPoints(g));
        FromBinaryIsWeightedSum(ids);
        FromBinaryBound(ids);
        ToFromBinary(ids);
        FromBinaryIsWeightedSum(vs);
        FromBinaryBound(vs);
        ToFromBinary(vs);
        SmallPowers();
      }
    }
  }

  /** `process_gabarito`, on the reading methods. */
  method ProcessSheet(p: Picture) returns (r: Option<SheetResult>)
    requires WellLoaded(p)
    ensures r == SheetOf(p)
    ensures r.None? <==> p.Unreadable? || |Candidates(p.boxes)| < 4
  {
    if p.Unreadable? {
      return None;
    }
    var binary := p.binary;
    var markers := FindAlignmentRectangles(p.boxes);
    if markers.None? {
      return None;
    }
    var grid := ComputeGridCenters(markers.value, Rows, Cols);
    var studentId := ReadBinaryValue(binary, IdPoints(grid));
    var variantId := ReadBinaryValue(binary, VariantPoints(grid));
    var answers := ReadAnswers(binary, grid);
    r := Some(SheetResult(studentId, variantId, answers));
  }

  /**
   * The grid of a sheet whose markers have non-negative coordinates stays at
   * non-negative coordinates, so every cell is read from a window of at most
   * 5 x 5 pixels, and on a thresholded image a cell reads as 1 exactly when
   * at least half of its window is foreground.
   */
  lemma CellsReadByMajority(img: Image, c: Corners, i: nat, j: nat)
    requires IsBinary(img)
    requires forall b :: b in [c.topLeft, c.topRight, c.bottomLeft, c.bottomRight] ==> b.x >= 0 && b.y >= 0 && b.w >= 0 && b.h >= 0
    requires i < Rows && j < Cols
    ensures var p := GridPoint(c, Rows, Cols, i, j);
      && Size(WindowAt(img, p)) <= 25
      && (Bit(img, p) == '1' <==> Size(WindowAt(img, p)) > 0 && 2 * WindowOnes(img, p) >= Size(WindowAt(img, p)))
  {
    var p := GridPoint(c, Rows, Cols, i, j);
    GridWithinCorners(c, Rows, Cols, i, j);
    assert c.topLeft in [c.topLeft, c.topRight, c.bottomLeft, c.bottomRight];
    assert c.topRight in [c.topLeft, c.topRight, c.bottomLeft, c.bottomRight];
    assert c.bottomLeft in [c.topLeft, c.topRight, c.bottomLeft, c.bottomRight];
    assert c.bottomRight in [c.topLeft, c.topRight, c.bottomLeft, c.bottomRight];
    WindowAround(img, p);
    BitMeaning(img, p);
  }
}
