/**
 * Locating the four registration rectangles (`find_alignment_rectangles`,
 * corretor.py). OpenCV's contour search is outside the model: its input is
 * the list of bounding boxes `cv2.boundingRect` gives for the external
 * contours, in the order OpenCV reports them.
 */
module Markers {
  import opened Wrappers
  import opened Sorting

  /** A bounding box: left column, top row, width and height in pixels. */
  datatype Box = Box(x: int, y: int, w: int, h: int)

  /** The four markers in the roles the grid gives them. */
  datatype Corners = Corners(topLeft: Box, topRight: Box, bottomLeft: Box, bottomRight: Box)

  const ExpectedWidth: real := 70.0
  const ExpectedHeight: real := 46.0
  const Tolerance: real := 0.2

  /** The size window: width and height within 20% of the expected 70 x 46. */
  predicate Plausible(b: Box) {
    ExpectedWidth * (1.0 - Tolerance) <= b.w as real <= ExpectedWidth * (1.0 + Tolerance)
    && ExpectedHeight * (1.0 - Tolerance) <= b.h as real <= ExpectedHeight * (1.0 + Tolerance)
  }

  /** For whole-pixel sizes the window is 56..84 by 37..55. */
  lemma PlausibleSizes(b: Box)
    ensures Plausible(b) <==> 56 <= b.w <= 84 && 37 <= b.h <= 55
  {
  }

  /** The boxes that pass the size window, in the order they were found. */
  function Candidates(boxes: seq<Box>): seq<Box>
    decreases |boxes|
  {
    if boxes == [] then []
    else
      var last := boxes[|boxes| - 1];
      Candidates(boxes[..|boxes| - 1]) + (if Plausible(last) then [last] else [])
  }

  /** A box is kept iff it was found and passes the window, as often as it was found. */
  lemma {:induction false} CandidatesMeaning(boxes: seq<Box>)
    ensures forall b :: b in Candidates(boxes) <==> b in boxes && Plausible(b)
    ensures forall b :: multiset(Candidates(boxes))[b] == if Plausible(b) then multiset(boxes)[b] else 0
    decreases |boxes|
  {
    if boxes != [] {
      var init, last := boxes[..|boxes| - 1], boxes[|boxes| - 1];
      CandidatesMeaning(init);
      assert boxes == init + [last];
    }
  }

  /** Python's order on the key (y, x): by row, then by column. */
  predicate ByRowThenColumn(a: Box, b: Box) {
    a.y < b.y || (a.y == b.y && a.x <= b.x)
  }

  /** Python's order on the key x. */
  predicate ByColumn(a: Box, b: Box) {
    a.x <= b.x
  }

  lemma OrdersArePreorders()
    ensures TotalPreorder(ByRowThenColumn) && TotalPreorder(ByColumn)
  {
  }

  /** Lines 47-50: sort by (y, x), then order the first two and the rest by x. */
  function Arrange(kept: seq<Box>): Corners
    requires |kept| >= 4
  {
    var rows := Sort(kept, ByRowThenColumn);
    var top := Sort(rows[..2], ByColumn);
    var bottom := Sort(rows[2..], ByColumn);
    Corners(top[0], top[1], bottom[0], bottom[1])
  }

  /** What `find_alignment_rectangles` returns for these boxes. */
  function SelectMarkers(boxes: seq<Box>): Option<Corners> {
    var kept := Candidates(boxes);
    if |kept| < 4 then None else Some(Arrange(kept))
  }

  lemma SortedByRowThenColumn(s: seq<Box>)
    ensures multiset(Sort(s, ByRowThenColumn)) == multiset(s) && Sorted(Sort(s, ByRowThenColumn), ByRowThenColumn)
  {
    OrdersArePreorders();
    SortPermutes(s, ByRowThenColumn);
    SortSorted(s, ByRowThenColumn);
  }

  lemma SortedByColumn(s: seq<Box>)
    ensures multiset(Sort(s, ByColumn)) == multiset(s) && Sorted(Sort(s, ByColumn), ByColumn)
  {
    OrdersArePreorders();
    SortPermutes(s, ByColumn);
    SortSorted(s, ByColumn);
  }

  /**
   * c takes four of the kept boxes. Its top two come no later in (y, x)
   * order than any other kept box; its bottom two have the smallest x among
   * the boxes left after the top two; each pair is in x order.
   */
  ghost predicate ArrangedFrom(c: Corners, kept: seq<Box>) {
    var top := multiset{c.topLeft, c.topRight};
    var bottom := multiset{c.bottomLeft, c.bottomRight};
    && top + bottom <= multiset(kept)
    && c.topLeft.x <= c.topRight.x && c.bottomLeft.x <= c.bottomRight.x
    && (forall b :: b in multiset(kept) - top ==>
          ByRowThenColumn(c.topLeft, b) && ByRowThenColumn(c.topRight, b))
    && (forall b :: b in multiset(kept) - (top + bottom) ==>
          c.bottomLeft.x <= b.x && c.bottomRight.x <= b.x)
  }

  lemma MultisetSplit(rows: seq<Box>, n: nat)
    requires n <= |rows|
    ensures multiset(rows) == multiset(rows[..n]) + multiset(rows[n..])
  {
    assert rows == rows[..n] + rows[n..];
  }

  lemma AddThenRemove(a: multiset<Box>, b: multiset<Box>)
    ensures (a + b) - a == b && a <= a + b
  {
    assert forall x :: ((a + b) - a)[x] == b[x];
  }

  lemma PairMultiset(s: seq<Box>)
    requires |s| >= 2
    ensures multiset(s) == multiset{s[0], s[1]} + multiset(s[2..])
  {
    MultisetSplit(s, 2);
    assert s[..2] == [s[0], s[1]];
  }

  /** The boxes Arrange sets aside, as multisets. */
  lemma ArrangeTakes(kept: seq<Box>, rows: seq<Box>, top: seq<Box>, bottom: seq<Box>)
    requires multiset(rows) == multiset(kept) && |rows| >= 4
    requires multiset(top) == multiset(rows[..2]) && |top| == 2
    requires multiset(bottom) == multiset(rows[2..]) && |bottom| == |rows| - 2
    ensures multiset(kept) - multiset{top[0], top[1]} == multiset(rows[2..])
    ensures multiset(kept) - (multiset{top[0], top[1]} + multiset{bottom[0], bottom[1]}) == multiset(bottom[2..])
    ensures multiset{top[0], top[1]} + multiset{bottom[0], bottom[1]} <= multiset(kept)
  {
    var t := multiset{top[0], top[1]};
    var b := multiset{bottom[0], bottom[1]};
    var r := multiset(rows[2..]);
    var rest := multiset(bottom[2..]);
    var k := multiset(kept);
    assert k == t + r by {
      PairMultiset(top);
      MultisetSplit(rows, 2);
    }
    assert r == b + rest by {
      PairMultiset(bottom);
    }
    TwoStepRemove(k, t, r, b, rest);
  }

  lemma TwoStepRemove(k: multiset<Box>, t: multiset<Box>, r: multiset<Box>, b: multiset<Box>, rest: multiset<Box>)
    requires k == t + r && r == b + rest
    ensures k - t == r && k - (t + b) == rest && t + b <= k
  {
    assert forall x :: (k - t)[x] == r[x];
    assert forall x :: (k - (t + b))[x] == rest[x];
  }

  lemma TopBeforeRest(rows: seq<Box>, top: seq<Box>, b: Box)
    requires Sorted(rows, ByRowThenColumn) && |rows| >= 2 && |top| == 2
    requires multiset(top) == multiset(rows[..2])
    requires b in rows[2..]
    ensures ByRowThenColumn(top[0], b) && ByRowThenColumn(top[1], b)
  {
    var i :| 2 <= i < |rows| && rows[i] == b;
    assert top[0] in multiset(rows[..2]) && top[1] in multiset(rows[..2]);
    assert rows[..2] == [rows[0], rows[1]];
    assert ByRowThenColumn(rows[0], rows[i]) && ByRowThenColumn(rows[1], rows[i]);
  }

  lemma BottomBeforeRest(bottom: seq<Box>, b: Box)
    requires Sorted(bottom, ByColumn) && |bottom| >= 2
    requires b in bottom[2..]
    ensures bottom[0].x <= b.x && bottom[1].x <= b.x
  {
    var j :| 2 <= j < |bottom| && bottom[j] == b;
    assert ByColumn(bottom[0], bottom[j]) && ByColumn(bottom[1], bottom[j]);
  }

  /** The facts about Arrange, for any sorted sequences standing in for the three sorts. */
  lemma ArrangeFromSorted(kept: seq<Box>, rows: seq<Box>, top: seq<Box>, bottom: seq<Box>)
    requires multiset(rows) == multiset(kept) && Sorted(rows, ByRowThenColumn) && |rows| >= 4
    requires multiset(top) == multiset(rows[..2]) && Sorted(top, ByColumn) && |top| == 2
    requires multiset(bottom) == multiset(rows[2..]) && Sorted(bottom, ByColumn) && |bottom| == |rows| - 2
    ensures ArrangedFrom(Corners(top[0], top[1], bottom[0], bottom[1]), kept)
  {
    ArrangeTakes(kept, rows, top, bottom);
    assert ByColumn(top[0], top[1]) && ByColumn(bottom[0], bottom[1]);
    forall b | b in multiset(kept) - multiset{top[0], top[1]}
      ensures ByRowThenColumn(top[0], b) && ByRowThenColumn(top[1], b)
    {
      TopBeforeRest(rows, top, b);
    }
    forall b | b in multiset(kept) - (multiset{top[0], top[1]} + multiset{bottom[0], bottom[1]})
      ensures bottom[0].x <= b.x && bottom[1].x <= b.x
    {
      BottomBeforeRest(bottom, b);
    }
  }

  /** Lines 47-50 arrange the kept boxes as ArrangedFrom describes. */
  lemma ArrangeMeaning(kept: seq<Box>)
    requires |kept| >= 4
    ensures ArrangedFrom(Arrange(kept), kept)
  {
    var rows := Sort(kept, ByRowThenColumn);
    SortedByRowThenColumn(kept);
    SortedByColumn(rows[..2]);
    SortedByColumn(rows[2..]);
    ArrangeFromSorted(kept, rows, Sort(rows[..2], ByColumn), Sort(rows[2..], ByColumn));
  }

  /**
   * The selection fails exactly when fewer than four boxes pass the window;
   * otherwise its four markers are found boxes that pass it, arranged as
   * ArrangedFrom says.
   */
  lemma SelectMarkersMeaning(boxes: seq<Box>)
    ensures SelectMarkers(boxes).None? <==> |Candidates(boxes)| < 4
    ensures SelectMarkers(boxes).Some? ==>
      var c := SelectMarkers(boxes).value;
      && ArrangedFrom(c, Candidates(boxes))
      && (forall b :: b in [c.topLeft, c.topRight, c.bottomLeft, c.bottomRight] ==> b in boxes && Plausible(b))
  {
    var kept := Candidates(boxes);
    CandidatesMeaning(boxes);
    if |kept| >= 4 {
      var c := Arrange(kept);
      ArrangeMeaning(kept);
      forall b | b in [c.topLeft, c.topRight, c.bottomLeft, c.bottomRight]
        ensures b in boxes && Plausible(b)
      {
        assert b in multiset{c.topLeft, c.topRight} + multiset{c.bottomLeft, c.bottomRight};
        assert b in multiset(kept);
      }
    }
  }

  /**
   * `find_alignment_rectangles`: keep the boxes that pass the size window
   * (the loop of lines 38-41), fail with None when fewer than four are kept,
   * and arrange four of them otherwise.
   */
  method FindAlignmentRectangles(boxes: seq<Box>) returns (r: Option<Corners>)
    ensures r == SelectMarkers(boxes)
    ensures r.None? <==> |Candidates(boxes)| < 4
    ensures r.Some? ==> ArrangedFrom(r.value, Candidates(boxes))
  {
    var rectangles: seq<Box> := [];
    for i := 0 to |boxes|
      invariant rectangles == Candidates(boxes[..i])
    {
      var b := boxes[i];
      assert boxes[..i + 1][..i] == boxes[..i];
      if Plausible(b) {
        rectangles := rectangles + [b];
      }
    }
    assert boxes[..|boxes|] == boxes;
    if |rectangles| < 4 {
      return None;
    }
    var rows := Sort(rectangles, ByRowThenColumn);
    var top := Sort(rows[..2], ByColumn);
    var bottom := Sort(rows[2..], ByColumn);
    r := Some(Corners(top[0], top[1], bottom[0], bottom[1]));
    SelectMarkersMeaning(boxes);
  }
}
