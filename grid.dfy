/**
 * The grid of bubble centres (`compute_grid_centers`, corretor.py): the
 * centres of the four markers, interpolated linearly along the left and
 * right edges and then across each row. numpy computes the interpolation in
 * floating point; the model computes it exactly and truncates toward zero,
 * as `astype(int)` does.
 */
module Grid {
  import opened Markers

  /** A pixel position: column x, row y. */
  datatype Point = Point(x: int, y: int)

  /** The centre of a box in whole pixels, x + w // 2 and y + h // 2 (for a positive divisor Dafny's / is Python's //). */
  function Center(b: Box): Point {
    Point(b.x + b.w / 2, b.y + b.h / 2)
  }

  /** `astype(int)`: truncation toward zero. */
  function Trunc(r: real): int {
    if r >= 0.0 then r.Floor else -((-r).Floor)
  }

  /** a + (b - a) * k / n, the interpolation the source writes. */
  function Lerp(a: real, b: real, k: int, n: int): real
    requires n > 0
  {
    a + (b - a) * (k as real) / (n as real)
  }

  /** Point (i, j) of a rows x cols grid spanned by the marker centres. */
  function GridPoint(c: Corners, rows: int, cols: int, i: int, j: int): Point
    requires rows >= 2 && cols >= 2
  {
    var tl, tr := Center(c.topLeft), Center(c.topRight);
    var bl, br := Center(c.bottomLeft), Center(c.bottomRight);
    var leftX := Lerp(tl.x as real, bl.x as real, i, rows - 1);
    var leftY := Lerp(tl.y as real, bl.y as real, i, rows - 1);
    var rightX := Lerp(tr.x as real, br.x as real, i, rows - 1);
    var rightY := Lerp(tr.y as real, br.y as real, i, rows - 1);
    Point(Trunc(Lerp(leftX, rightX, j, cols - 1)), Trunc(Lerp(leftY, rightY, j, cols - 1)))
  }

  /** The whole grid, row by row. */
  function GridCenters(c: Corners, rows: nat, cols: nat): seq<seq<Point>>
    requires rows >= 2 && cols >= 2
  {
    seq(rows, i => seq(cols, j => GridPoint(c, rows, cols, i, j)))
  }

  /** The grid's four corners are the marker centres themselves, exactly. */
  lemma GridCorners(c: Corners, rows: int, cols: int)
    requires rows >= 2 && cols >= 2
    ensures GridPoint(c, rows, cols, 0, 0) == Center(c.topLeft)
    ensures GridPoint(c, rows, cols, 0, cols - 1) == Center(c.topRight)
    ensures GridPoint(c, rows, cols, rows - 1, 0) == Center(c.bottomLeft)
    ensures GridPoint(c, rows, cols, rows - 1, cols - 1) == Center(c.bottomRight)
  {
    var tl, tr := Center(c.topLeft), Center(c.topRight);
    var bl, br := Center(c.bottomLeft), Center(c.bottomRight);
    CornerPoint(tl.x, tr.x, bl.x, br.x, rows, cols);
    CornerPoint(tl.y, tr.y, bl.y, br.y, rows, cols);
  }

  /** One coordinate of the four grid corners, from the corner values. */
  lemma CornerPoint(tl: int, tr: int, bl: int, br: int, rows: int, cols: int)
    requires rows >= 2 && cols >= 2
    ensures Trunc(Lerp(Lerp(tl as real, bl as real, 0, rows - 1), Lerp(tr as real, br as real, 0, rows - 1), 0, cols - 1)) == tl
    ensures Trunc(Lerp(Lerp(tl as real, bl as real, 0, rows - 1), Lerp(tr as real, br as real, 0, rows - 1), cols - 1, cols - 1)) == tr
    ensures Trunc(Lerp(Lerp(tl as real, bl as real, rows - 1, rows - 1), Lerp(tr as real, br as real, rows - 1, rows - 1), 0, cols - 1)) == bl
    ensures Trunc(Lerp(Lerp(tl as real, bl as real, rows - 1, rows - 1), Lerp(tr as real, br as real, rows - 1, rows - 1), cols - 1, cols - 1)) == br
  {
    LerpEnds(tl as real, bl as real, rows - 1);
    LerpEnds(tr as real, br as real, rows - 1);
    LerpEnds(tl as real, tr as real, cols - 1);
    LerpEnds(bl as real, br as real, cols - 1);
    TruncInt(tl); TruncInt(tr); TruncInt(bl); TruncInt(br);
  }

  /** Interpolating at the first and the last step gives the end points. */
  lemma LerpEnds(a: real, b: real, n: int)
    requires n > 0
    ensures Lerp(a, b, 0, n) == a && Lerp(a, b, n, n) == b
  {
    assert (b - a) * (n as real) / (n as real) == b - a;
  }

  lemma TruncInt(k: int)
    ensures Trunc(k as real) == k
  {
  }

  function Min(a: real, b: real): real { if a <= b then a else b }
  function Max(a: real, b: real): real { if a <= b then b else a }

  /** Interpolating at 0 <= k <= n stays between the end points. */
  lemma LerpBetween(a: real, b: real, k: int, n: int)
    requires 0 <= k <= n && n > 0
    ensures Min(a, b) <= Lerp(a, b, k, n) <= Max(a, b)
  {
    var t := (k as real) / (n as real);
    FractionInUnit(k, n);
    LerpScale(a, b, k, n);
    ScaleBetween(b - a, t);
  }

  lemma LerpScale(a: real, b: real, k: int, n: int)
    requires n > 0
    ensures Lerp(a, b, k, n) == a + (b - a) * ((k as real) / (n as real))
  {
    DivideProduct(b - a, k as real, n as real);
  }

  lemma FractionInUnit(k: int, n: int)
    requires 0 <= k <= n && n > 0
    ensures 0.0 <= (k as real) / (n as real) <= 1.0
  {
  }

  lemma DivideProduct(d: real, k: real, n: real)
    requires n != 0.0
    ensures d * k / n == d * (k / n)
  {
  }

  lemma ScaleBetween(d: real, t: real)
    requires 0.0 <= t <= 1.0
    ensures Min(0.0, d) <= d * t <= Max(0.0, d)
  {
    assert d * t + d * (1.0 - t) == d;
    if d >= 0.0 {
      MulNonnegative(d, t);
      MulNonnegative(d, 1.0 - t);
    } else {
      MulNonnegative(-d, t);
      MulNonnegative(-d, 1.0 - t);
    }
  }

  lemma MulNonnegative(x: real, y: real)
    requires x >= 0.0 && y >= 0.0
    ensures x * y >= 0.0
  {
  }

  /** Truncating a value that lies between two integers stays between them. */
  lemma TruncBetween(r: real, lo: int, hi: int)
    requires lo as real <= r <= hi as real
    ensures lo <= Trunc(r) <= hi
  {
  }

  /**
   * Every grid point lies in the box spanned by the four marker centres
   * (the grid never leaves the area between the markers).
   */
  lemma GridWithinCorners(c: Corners, rows: int, cols: int, i: int, j: int)
    requires rows >= 2 && cols >= 2 && 0 <= i < rows && 0 <= j < cols
    ensures var p := GridPoint(c, rows, cols, i, j);
      var cs := [Center(c.topLeft), Center(c.topRight), Center(c.bottomLeft), Center(c.bottomRight)];
      && (exists k :: 0 <= k < 4 && cs[k].x <= p.x) && (exists k :: 0 <= k < 4 && p.x <= cs[k].x)
      && (exists k :: 0 <= k < 4 && cs[k].y <= p.y) && (exists k :: 0 <= k < 4 && p.y <= cs[k].y)
  {
    var tl, tr := Center(c.topLeft), Center(c.topRight);
    var bl, br := Center(c.bottomLeft), Center(c.bottomRight);
    var cs := [tl, tr, bl, br];
    var p := GridPoint(c, rows, cols, i, j);
    var xs := [tl.x, tr.x, bl.x, br.x];
    var ys := [tl.y, tr.y, bl.y, br.y];
    var loX, hiX := AxisWithin(xs, i, rows, j, cols);
    var loY, hiY := AxisWithin(ys, i, rows, j, cols);
    assert cs[loX].x <= p.x <= cs[hiX].x;
    assert cs[loY].y <= p.y <= cs[hiY].y;
  }

  /**
   * One coordinate of a grid point, interpolated from the corner values
   * vs = [top left, top right, bottom left, bottom right], lies between two
   * of them.
   */
  lemma AxisWithin(vs: seq<int>, i: int, rows: int, j: int, cols: int) returns (lo: nat, hi: nat)
    requires |vs| == 4 && rows >= 2 && cols >= 2 && 0 <= i < rows && 0 <= j < cols
    ensures lo < 4 && hi < 4
    ensures var left := Lerp(vs[0] as real, vs[2] as real, i, rows - 1);
      var right := Lerp(vs[1] as real, vs[3] as real, i, rows - 1);
      vs[lo] <= Trunc(Lerp(left, right, j, cols - 1)) <= vs[hi]
  {
    var left := Lerp(vs[0] as real, vs[2] as real, i, rows - 1);
    var right := Lerp(vs[1] as real, vs[3] as real, i, rows - 1);
    LerpBetween(vs[0] as real, vs[2] as real, i, rows - 1);
    LerpBetween(vs[1] as real, vs[3] as real, i, rows - 1);
    LerpBetween(left, right, j, cols - 1);
    lo := if Min(left, right) == left then (if vs[0] <= vs[2] then 0 else 2) else (if vs[1] <= vs[3] then 1 else 3);
    hi := if Max(left, right) == left then (if vs[0] <= vs[2] then 2 else 0) else (if vs[1] <= vs[3] then 3 else 1);
    TruncBetween(Lerp(left, right, j, cols - 1), vs[lo], vs[hi]);
  }

  /**
   * `compute_grid_centers`: the nested loops of lines 59-67, called with
   * rows, cols >= 2 (the defaults are 18 and 9).
   */
  method ComputeGridCenters(c: Corners, rows: nat, cols: nat) returns (grid: seq<seq<Point>>)
    requires rows >= 2 && cols >= 2
    ensures grid == GridCenters(c, rows, cols)
    ensures |grid| == rows && forall i :: 0 <= i < rows ==> |grid[i]| == cols
    ensures grid[0][0] == Center(c.topLeft) && grid[0][cols - 1] == Center(c.topRight)
    ensures grid[rows - 1][0] == Center(c.bottomLeft) && grid[rows - 1][cols - 1] == Center(c.bottomRight)
  {
    var tl, tr := Center(c.topLeft), Center(c.topRight);
    var bl, br := Center(c.bottomLeft), Center(c.bottomRight);
    grid := [];
    for i := 0 to rows
      invariant grid == GridCenters(c, rows, cols)[..i]
    {
      var row: seq<Point> := [];
      var leftX := Lerp(tl.x as real, bl.x as real, i, rows - 1);
      var leftY := Lerp(tl.y as real, bl.y as real, i, rows - 1);
      var rightX := Lerp(tr.x as real, br.x as real, i, rows - 1);
      var rightY := Lerp(tr.y as real, br.y as real, i, rows - 1);
      for j := 0 to cols
        invariant |row| == j
        invariant forall k :: 0 <= k < j ==> row[k] == GridPoint(c, rows, cols, i, k)
      {
        var pointX := Lerp(leftX, rightX, j, cols - 1);
        var pointY := Lerp(leftY, rightY, j, cols - 1);
        row := row + [Point(Trunc(pointX), Trunc(pointY))];
      }
      assert row == GridCenters(c, rows, cols)[i];
      grid := grid + [row];
    }
    GridCorners(c, rows, cols);
  }
}
