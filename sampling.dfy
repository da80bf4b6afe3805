/**
 * Reading the sheet's pixels (`read_binary_value` and `read_answers`,
 * corretor.py). The image is the thresholded grayscale picture; every
 * reading looks at the 5x5 window around a grid point, clipped to the image
 * the way numpy slicing clips it, and takes its mean exactly (the sum over
 * the count; the empty window's mean is NaN, and every comparison with NaN
 * is false).
 */
module Sampling {
  import Grid

  /** A grayscale image: `height` rows of `width` pixel values. */
  datatype Image = Image(height: nat, width: nat, pixels: seq<seq<int>>) {
    predicate Valid() {
      |pixels| == height && forall r :: 0 <= r < height ==> |pixels[r]| == width
    }
  }

  /** What `cv2.threshold(..., THRESH_BINARY_INV)` produces: every pixel is 0 or 255. */
  predicate IsBinary(img: Image) {
    img.Valid() && forall r, c :: 0 <= r < img.height && 0 <= c < img.width ==> img.pixels[r][c] in {0, 255}
  }

  /** How Python normalises a bound of a step-1 slice of a sequence of length n. */
  function SliceBound(i: int, n: nat): (r: nat)
    ensures r <= n
    ensures 0 <= i <= n ==> r == i
  {
    if i < 0 then (if i + n < 0 then 0 else i + n) else if i > n then n else i
  }

  function Larger(a: int, b: int): int { if a >= b then a else b }
  function Smaller(a: int, b: int): int { if a <= b then a else b }

  /** The half-open pixel ranges of a window: rows top..bottom, columns left..right. */
  datatype Window = Window(top: nat, bottom: nat, left: nat, right: nat)

  /**
   * `binary[max(y-2,0):min(y+3,H), max(x-2,0):min(x+3,W)]` around point p.
   */
  function WindowAt(img: Image, p: Grid.Point): (w: Window)
    ensures w.bottom <= img.height && w.right <= img.width
  {
    Window(SliceBound(Larger(p.y - 2, 0), img.height), SliceBound(Smaller(p.y + 3, img.height), img.height),
           SliceBound(Larger(p.x - 2, 0), img.width), SliceBound(Smaller(p.x + 3, img.width), img.width))
  }

  /** The number of pixels in a window (an empty range on either axis gives none). */
  function Size(w: Window): nat {
    if w.bottom > w.top && w.right > w.left then (w.bottom - w.top) * (w.right - w.left) else 0
  }

  function RowSum(row: seq<int>, lo: nat, hi: nat): int
    requires lo <= hi <= |row|
    decreases hi - lo
  {
    if lo == hi then 0 else RowSum(row, lo, hi - 1) + row[hi - 1]
  }

  function RectSum(img: Image, top: nat, bottom: nat, left: nat, right: nat): int
    requires img.Valid() && top <= bottom <= img.height && left <= right <= img.width
    decreases bottom - top
  {
    if top == bottom then 0 else RectSum(img, top, bottom - 1, left, right) + RowSum(img.pixels[bottom - 1], left, right)
  }

  /** A mean computed by numpy: a number, or NaN for an empty window. */
  datatype Mean = NaN | Val(v: real)

  /** `mean > t`, false for NaN. */
  predicate Above(m: Mean, t: real) {
    m.Val? && m.v > t
  }

  /** `np.mean` of the window around p. */
  function WindowMean(img: Image, p: Grid.Point): Mean
    requires img.Valid()
  {
    var w := WindowAt(img, p);
    if Size(w) == 0 then NaN
    else
      assert w.top <= w.bottom && w.left <= w.right;
      Val(RectSum(img, w.top, w.bottom, w.left, w.right) as real / Size(w) as real)
  }

  // ---------- what a window of a thresholded image says ----------

  function RowOnes(row: seq<int>, lo: nat, hi: nat): nat
    requires lo <= hi <= |row|
    decreases hi - lo
  {
    if lo == hi then 0 else RowOnes(row, lo, hi - 1) + (if row[hi - 1] == 255 then 1 else 0)
  }

  /** The number of foreground (255) pixels in a rectangle. */
  function RectOnes(img: Image, top: nat, bottom: nat, left: nat, right: nat): nat
    requires img.Valid() && top <= bottom <= img.height && left <= right <= img.width
    decreases bottom - top
  {
    if top == bottom then 0 else RectOnes(img, top, bottom - 1, left, right) + RowOnes(img.pixels[bottom - 1], left, right)
  }

  lemma {:induction false} RowSumOfBinary(img: Image, r: nat, lo: nat, hi: nat)
    requires IsBinary(img) && r < img.height && lo <= hi <= img.width
    ensures RowSum(img.pixels[r], lo, hi) == 255 * RowOnes(img.pixels[r], lo, hi)
    ensures RowOnes(img.pixels[r], lo, hi) <= hi - lo
    decreases hi - lo
  {
    if lo < hi {
      RowSumOfBinary(img, r, lo, hi - 1);
      assert img.pixels[r][hi - 1] in {0, 255};
    }
  }

  lemma {:induction false} RectSumOfBinary(img: Image, top: nat, bottom: nat, left: nat, right: nat)
    requires IsBinary(img) && top <= bottom <= img.height && left <= right <= img.width
    ensures RectSum(img, top, bottom, left, right) == 255 * RectOnes(img, top, bottom, left, right)
    ensures RectOnes(img, top, bottom, left, right) <= (bottom - top) * (right - left)
    decreases bottom - top
  {
    if top < bottom {
      RectSumOfBinary(img, top, bottom - 1, left, right);
      RowSumOfBinary(img, bottom - 1, left, right);
      assert (bottom - top) * (right - left) == (bottom - 1 - top) * (right - left) + (right - left);
    }
  }

  /** The number of foreground pixels in the window around p. */
  function WindowOnes(img: Image, p: Grid.Point): nat
    requires img.Valid()
  {
    var w := WindowAt(img, p);
    if Size(w) == 0 then 0 else RectOnes(img, w.top, w.bottom, w.left, w.right)
  }

  /**
   * Around a point with non-negative coordinates the window is at most 5x5
   * and contains the point's pixel when the point lies in the image.
   */
  lemma WindowAround(img: Image, p: Grid.Point)
    requires p.x >= 0 && p.y >= 0
    ensures var w := WindowAt(img, p);
      && w.bottom <= w.top + 5 && w.right <= w.left + 5 && Size(w) <= 25
      && (p.y < img.height && p.x < img.width ==> w.top <= p.y < w.bottom && w.left <= p.x < w.right)
  {
    var w := WindowAt(img, p);
    if w.bottom > w.top && w.right > w.left {
      MulBounded(w.bottom - w.top, w.right - w.left, 5);
    }
  }

  lemma MulBounded(a: nat, b: nat, k: nat)
    requires a <= k && b <= k
    ensures a * b <= k * k
  {
    assert a * b <= a * k;
    assert a * k <= k * k;
  }

  /**
   * On a thresholded image the window reads as 1 (its mean exceeds 127)
   * exactly when 255 times its foreground count exceeds 127 times its size,
   * and for a window of at most 255 pixels that is exactly when at least
   * half of its pixels are foreground.
   */
  lemma BitMeaning(img: Image, p: Grid.Point)
    requires IsBinary(img)
    ensures var w := WindowAt(img, p);
      && (Above(WindowMean(img, p), 127.0) <==> Size(w) > 0 && 255 * WindowOnes(img, p) > 127 * Size(w))
      && (Size(w) <= 255 ==> (Above(WindowMean(img, p), 127.0) <==> Size(w) > 0 && 2 * WindowOnes(img, p) >= Size(w)))
  {
    var w := WindowAt(img, p);
    if Size(w) > 0 {
      RectSumOfBinary(img, w.top, w.bottom, w.left, w.right);
      var ones := WindowOnes(img, p);
      var n := Size(w);
      assert WindowMean(img, p) == Val((255 * ones) as real / n as real);
      QuotientAbove(255 * ones, n, 127);
    }
  }

  lemma QuotientAbove(s: int, n: nat, t: int)
    requires n > 0
    ensures (s as real / n as real > t as real) <==> s > t * n
  {
    var q := s as real / n as real;
    assert q * n as real == s as real;
    if s > t * n {
      assert q * n as real > (t as real) * (n as real);
    }
    if q > t as real {
      assert q * n as real > (t as real) * (n as real);
    }
  }

  // ---------- read_binary_value ----------

  function Pow2(n: nat): (r: nat)
    ensures r >= 1
  {
    if n == 0 then 1 else 2 * Pow2(n - 1)
  }

  function BitValue(c: char): nat {
    if c == '1' then 1 else 0
  }

  predicate IsBitString(s: string) {
    forall k :: 0 <= k < |s| ==> s[k] in "01"
  }

  /** `int(s, 2)` on a string of '0' and '1' characters, read as the source builds it: digit by digit from the left. */
  function FromBinary(s: string): nat {
    if s == [] then 0 else 2 * FromBinary(s[..|s| - 1]) + BitValue(s[|s| - 1])
  }

  /** The positional reading: bit k weighs 2^(n-1-k), most significant first. */
  function WeightedSum(s: string): nat {
    if s == [] then 0 else BitValue(s[0]) * Pow2(|s| - 1) + WeightedSum(s[1..])
  }

  /** n binary digits of v, most significant first. */
  function ToBinary(v: nat, n: nat): (s: string)
    ensures |s| == n && IsBitString(s)
  {
    if n == 0 then [] else ToBinary(v / 2, n - 1) + [if v % 2 == 1 then '1' else '0']
  }

  lemma {:induction false} WeightedSumSnoc(s: string, c: char)
    ensures WeightedSum(s + [c]) == 2 * WeightedSum(s) + BitValue(c)
  {
    if s != [] {
      assert (s + [c])[1..] == s[1..] + [c];
      WeightedSumSnoc(s[1..], c);
    } else {
      assert [c][1..] == [];
    }
  }

  /** `int(s, 2)` is the sum of bit_k * 2^(n-1-k). */
  lemma {:induction false} FromBinaryIsWeightedSum(s: string)
    ensures FromBinary(s) == WeightedSum(s)
  {
    if s != [] {
      var init := s[..|s| - 1];
      FromBinaryIsWeightedSum(init);
      WeightedSumSnoc(init, s[|s| - 1]);
      assert init + [s[|s| - 1]] == s;
    }
  }

  /** An n-digit binary number is below 2^n. */
  lemma {:induction false} FromBinaryBound(s: string)
    ensures FromBinary(s) < Pow2(|s|)
  {
    if s != [] {
      FromBinaryBound(s[..|s| - 1]);
    }
  }

  /** Reading back the digits of a value that fits recovers it. */
  lemma {:induction false} FromToBinary(v: nat, n: nat)
    requires v < Pow2(n)
    ensures FromBinary(ToBinary(v, n)) == v
  {
    if n > 0 {
      var s := ToBinary(v, n);
      assert s[..|s| - 1] == ToBinary(v / 2, n - 1);
      FromToBinary(v / 2, n - 1);
    }
  }

  /** Writing out the value of a bit string recovers the string. */
  lemma {:induction false} ToFromBinary(s: string)
    requires IsBitString(s)
    ensures ToBinary(FromBinary(s), |s|) == s
  {
    if s != [] {
      var init, c := s[..|s| - 1], s[|s| - 1];
      BitStringInit(s);
      ToFromBinary(init);
      ToBinarySnoc(FromBinary(init), c, |init|);
      assert init + [c] == s;
    }
  }

  /** Writing 2x + c in n + 1 digits is writing x in n digits, then c. */
  lemma ToBinarySnoc(x: nat, c: char, n: nat)
    requires c in "01"
    ensures ToBinary(2 * x + BitValue(c), n + 1) == ToBinary(x, n) + [c]
  {
    HalfOf(x, BitValue(c));
  }

  lemma BitStringInit(s: string)
    requires IsBitString(s) && s != []
    ensures IsBitString(s[..|s| - 1]) && s[|s| - 1] in "01"
  {
    assert forall k :: 0 <= k < |s| - 1 ==> s[..|s| - 1][k] == s[k];
  }

  lemma HalfOf(x: nat, b: nat)
    requires b < 2
    ensures (2 * x + b) / 2 == x && (2 * x + b) % 2 == b
  {
  }

  /** The bit read at point p: "1" when the window's mean exceeds 127. */
  function Bit(img: Image, p: Grid.Point): char
    requires img.Valid()
  {
    if Above(WindowMean(img, p), 127.0) then '1' else '0'
  }

  function Bits(img: Image, points: seq<Grid.Point>): (s: string)
    requires img.Valid()
    ensures |s| == |points| && IsBitString(s)
  {
    seq(|points|, k requires 0 <= k < |points| => Bit(img, points[k]))
  }

  /**
   * `read_binary_value`: one bit per point, first point most significant.
   * `int("", 2)` raises, so at least one point is needed.
   */
  method ReadBinaryValue(img: Image, points: seq<Grid.Point>) returns (value: nat)
    requires img.Valid() && |points| > 0
    ensures value == WeightedSum(Bits(img, points))
    ensures value < Pow2(|points|)
    ensures ToBinary(value, |points|) == Bits(img, points)
  {
    var digits := "";
    for k := 0 to |points|
      invariant digits == Bits(img, points)[..k]
    {
      var mean := WindowMean(img, points[k]);
      digits := digits + (if Above(mean, 127.0) then "1" else "0");
    }
    assert digits == Bits(img, points);
    value := FromBinary(digits);
    FromBinaryIsWeightedSum(digits);
    FromBinaryBound(digits);
    ToFromBinary(digits);
  }

  // ---------- read_answers ----------

  /** The answer letters "A".."E" of columns 3..7. */
  function Letter(i: nat): string
    requires i < 26
  {
    [(65 + i) as char]
  }

  /** The running maximum of the source's inner loop after `n` columns. */
  datatype Pick = Pick(best: real, index: int)

  function Scan(ms: seq<Mean>, n: nat): (r: Pick)
    requires n <= |ms|
    ensures -1 <= r.index < n
    ensures r.index == -1 ==> r.best == 0.0
    ensures r.index >= 0 ==> ms[r.index] == Val(r.best) && r.best > 0.0
  {
    if n == 0 then Pick(0.0, -1)
    else
      var p := Scan(ms, n - 1);
      if Above(ms[n - 1], p.best) then Pick(ms[n - 1].v, n - 1) else p
  }

  /**
   * Column i holds the first strictly greatest positive mean among the first
   * n: every earlier mean is smaller (or NaN), no later one is greater.
   */
  predicate FirstMax(ms: seq<Mean>, n: nat, i: nat)
    requires i < n <= |ms|
  {
    && Above(ms[i], 0.0)
    && (forall j :: 0 <= j < i ==> !(ms[j].Val? && ms[j].v >= ms[i].v))
    && (forall j :: i < j < n ==> !Above(ms[j], ms[i].v))
  }

  lemma {:induction false} ScanMeaning(ms: seq<Mean>, n: nat)
    requires n <= |ms|
    ensures Scan(ms, n).index == -1 <==> forall j :: 0 <= j < n ==> !Above(ms[j], 0.0)
    ensures Scan(ms, n).index >= 0 ==> FirstMax(ms, n, Scan(ms, n).index)
  {
    if n > 0 {
      ScanMeaning(ms, n - 1);
    }
  }

  /** At most one column is the first strict maximum. */
  lemma FirstMaxUnique(ms: seq<Mean>, n: nat, i: nat, k: nat)
    requires i < n <= |ms| && k < n
    requires FirstMax(ms, n, i) && FirstMax(ms, n, k)
    ensures i == k
  {
  }

  /** The entry for one question, from the means of its five columns. */
  function RowAnswer(ms: seq<Mean>): string
    requires |ms| == 5
  {
    var p := Scan(ms, 5);
    if p.best < 10.0 then "-" else Letter(p.index)
  }

  /**
   * The entry is "-" exactly when no column's mean reaches 10, and it is the
   * letter of column i exactly when column i holds the first strictly
   * greatest mean and that mean is at least 10.
   */
  lemma RowAnswerMeaning(ms: seq<Mean>)
    requires |ms| == 5
    ensures RowAnswer(ms) == "-" <==> forall j :: 0 <= j < 5 ==> !(ms[j].Val? && ms[j].v >= 10.0)
    ensures forall i :: 0 <= i < 5 ==> (RowAnswer(ms) == Letter(i) <==> FirstMax(ms, 5, i) && ms[i].v >= 10.0)
  {
    ScanMeaning(ms, 5);
    var p := Scan(ms, 5);
    forall i | 0 <= i < 5
      ensures RowAnswer(ms) == Letter(i) <==> FirstMax(ms, 5, i) && ms[i].v >= 10.0
    {
      if FirstMax(ms, 5, i) && p.index >= 0 {
        FirstMaxUnique(ms, 5, i, p.index);
      }
      if RowAnswer(ms) == Letter(i) {
        assert Letter(p.index)[0] == Letter(i)[0];
      }
    }
    if p.index >= 0 && p.best < 10.0 {
      forall j | 0 <= j < 5 ensures !(ms[j].Val? && ms[j].v >= 10.0) {
        if j != p.index {
          assert !Above(ms[j], p.best) || j < p.index;
        }
      }
    }
  }

  /** The means of columns 3..7 of grid row `row`. */
  function RowMeans(img: Image, grid: seq<seq<Grid.Point>>, row: nat): (ms: seq<Mean>)
    requires img.Valid() && row < |grid| && |grid[row]| >= 8
    ensures |ms| == 5
  {
    seq(5, i requires 0 <= i < 5 => WindowMean(img, grid[row][3 + i]))
  }

  /** Rows 7..16 exist and reach column 7. */
  predicate AnswerGrid(grid: seq<seq<Grid.Point>>) {
    |grid| >= 17 && forall r :: 7 <= r < 17 ==> |grid[r]| >= 8
  }

  /** The ten entries, for grid rows 7..16. */
  function Answers(img: Image, grid: seq<seq<Grid.Point>>): (answers: seq<string>)
    requires img.Valid() && AnswerGrid(grid)
    ensures |answers| == 10
  {
    seq(10, q requires 0 <= q < 10 => RowAnswer(RowMeans(img, grid, 7 + q)))
  }

  /**
   * `read_answers` without the debug drawing: for each of rows 7..16 the
   * running maximum over columns 3..7, starting from 0, replaced only by a
   * strictly greater mean; "-" when the maximum stays below 10.
   */
  method ReadAnswers(img: Image, grid: seq<seq<Grid.Point>>) returns (answers: seq<string>)
    requires img.Valid() && AnswerGrid(grid)
    ensures answers == Answers(img, grid)
    ensures |answers| == 10
    ensures forall q :: 0 <= q < 10 ==> answers[q] == "-" || exists i :: 0 <= i < 5 && answers[q] == Letter(i)
  {
    answers := [];
    for q := 0 to 10
      invariant answers == Answers(img, grid)[..q]
    {
      var row := 7 + q;
      var maxMean := 0.0;
      var selected := "-";
      ghost var index := -1;
      for i := 0 to 5
        invariant Scan(RowMeans(img, grid, row), i) == Pick(maxMean, index)
        invariant selected == if index < 0 then "-" else Letter(index)
      {
        var mean := WindowMean(img, grid[row][3 + i]);
        if Above(mean, maxMean) {
          maxMean := mean.v;
          selected := Letter(i);
          index := i;
        }
      }
      answers := answers + [if maxMean < 10.0 then "-" else selected];
    }
    forall q | 0 <= q < 10
      ensures answers[q] == "-" || exists i :: 0 <= i < 5 && answers[q] == Letter(i)
    {
      var p := Scan(RowMeans(img, grid, 7 + q), 5);
      if p.best >= 10.0 {
        assert answers[q] == Letter(p.index);
      }
    }
  }
}
