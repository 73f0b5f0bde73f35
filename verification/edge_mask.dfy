/**
 `EdgeMaskView`: masks out the default-valued pixels that reach inward from
 the four edges of an image.

 Construction scans plane 0 of the source once by rows and once by columns
 and records four bound vectors: for each row `j`, `left[j]` and `right[j]`;
 for each column `i`, `top[i]` and `bottom[i]`.  A pixel `(i, j)` is then
 valid when it lies strictly inside all four bounds of its row and column.
 A pixel counts as no-data when it equals the default pixel `dflt`.
 */
module EdgeMask {
  import opened PixelMasks
  import opened Runs
  import opened Images

  /** The four edge vectors of an `EdgeMaskView`. */
  datatype EdgeIndex = EdgeIndex(left: seq<int>, right: seq<int>, top: seq<int>, bottom: seq<int>)
  {
    /** One left/right entry per row and one top/bottom entry per column. */
    predicate Fits(rows: nat, cols: nat) {
      |left| == rows && |right| == rows && |top| == cols && |bottom| == cols
    }
  }

  // ---------------------------------------------------------------------
  // Reference definitions

  /**
   The bound left by a scan from the start of a line (`left` for a row,
   `top` for a column): the index of the last pixel of the leading no-data
   run, or the initial value 0 when there is no such run.
   */
  function StartBound<T(==)>(line: seq<T>, d: T): int {
    var n := LeadRun(line, d);
    if n == 0 then 0 else n - 1
  }

  /**
   The bound left by a scan from the end of a line (`right` for a row,
   `bottom` for a column): the index of the first pixel of the trailing
   no-data run, which is the line length when there is no such run.
   */
  function EndBound<T(==)>(line: seq<T>, d: T): int {
    |line| - TrailRun(line, d)
  }

  /** The edge vectors the constructor computes for `img`. */
  function EdgeIndexOf<T(==)>(img: Image<T>, d: T): (idx: EdgeIndex)
    requires img.WellFormed()
    ensures idx.Fits(img.rows, img.cols)
  {
    EdgeIndex(
      seq(img.rows, j requires 0 <= j < img.rows => StartBound(img.Row(j), d)),
      seq(img.rows, j requires 0 <= j < img.rows => EndBound(img.Row(j), d)),
      seq(img.cols, i requires 0 <= i < img.cols => StartBound(img.Column(i), d)),
      seq(img.cols, i requires 0 <= i < img.cols => EndBound(img.Column(i), d)))
  }

  /**
   The edge vectors right after they are sized and filled, before any scan:
   every row starts with left bound 0 and right bound `cols`, every column
   with top bound 0 and bottom bound `rows`.
   */
  function InitialIndex(rows: nat, cols: nat): (idx: EdgeIndex)
    ensures idx.Fits(rows, cols)
    ensures forall j :: 0 <= j < rows ==> idx.left[j] == 0 && idx.right[j] == cols
    ensures forall i :: 0 <= i < cols ==> idx.top[i] == 0 && idx.bottom[i] == rows
  {
    EdgeIndex(seq(rows, _ => 0), seq(rows, _ => cols as int), seq(cols, _ => 0), seq(cols, _ => rows as int))
  }

  // ---------------------------------------------------------------------
  // Construction

  /**
   The search from the start of a line: walks forward over pixels equal to
   `d`, storing each index into the bound, which starts at `init`.
   */
  method ScanFromStart<T(==)>(line: seq<T>, d: T, init: int) returns (bound: int)
    ensures LeadRun(line, d) == 0 ==> bound == init
    ensures LeadRun(line, d) > 0 ==> bound == LeadRun(line, d) - 1
  {
    bound := init;
    var i := 0;
    while i < |line| && line[i] == d
      invariant 0 <= i <= |line|
      invariant forall k :: 0 <= k < i ==> line[k] == d
      invariant bound == if i == 0 then init else i - 1
    {
      bound := i;
      i := i + 1;
    }
  }

  /**
   The search from the end of a line: walks backward over pixels equal to
   `d`, storing each index into the bound, which starts at `init`.
   */
  method ScanFromEnd<T(==)>(line: seq<T>, d: T, init: int) returns (bound: int)
    ensures TrailRun(line, d) == 0 ==> bound == init
    ensures TrailRun(line, d) > 0 ==> bound == |line| - TrailRun(line, d)
  {
    bound := init;
    var i := |line| - 1;
    while i >= 0 && line[i] == d
      invariant -1 <= i < |line|
      invariant forall k :: i < k < |line| ==> line[k] == d
      invariant bound == if i == |line| - 1 then init else i + 1
      decreases i
    {
      bound := i;
      i := i - 1;
    }
  }

  /**
   The row pass: for every row, the left and right searches update that
   row's entries of `left` and `right`; `top` and `bottom` are untouched.
   */
  method ScanRows<T(==)>(img: Image<T>, d: T, start: EdgeIndex) returns (idx: EdgeIndex)
    requires img.WellFormed()
    requires start.Fits(img.rows, img.cols)
    ensures idx.Fits(img.rows, img.cols)
    ensures idx.top == start.top && idx.bottom == start.bottom
    ensures forall j :: 0 <= j < img.rows ==>
      idx.left[j] == (if LeadRun(img.Row(j), d) == 0 then start.left[j] else LeadRun(img.Row(j), d) - 1)
    ensures forall j :: 0 <= j < img.rows ==>
      idx.right[j] == (if TrailRun(img.Row(j), d) == 0 then start.right[j] else img.cols - TrailRun(img.Row(j), d))
  {
    var left, right := start.left, start.right;
    var j := 0;
    while j < img.rows
      invariant 0 <= j <= img.rows
      invariant |left| == img.rows && |right| == img.rows
      invariant forall k :: 0 <= k < j ==>
        left[k] == (if LeadRun(img.Row(k), d) == 0 then start.left[k] else LeadRun(img.Row(k), d) - 1)
      invariant forall k :: 0 <= k < j ==>
        right[k] == (if TrailRun(img.Row(k), d) == 0 then start.right[k] else img.cols - TrailRun(img.Row(k), d))
      invariant forall k :: j <= k < img.rows ==> left[k] == start.left[k] && right[k] == start.right[k]
    {
      var row := img.Row(j);
      var l := ScanFromStart(row, d, left[j]);
      var r := ScanFromEnd(row, d, right[j]);
      left := left[j := l];
      right := right[j := r];
      j := j + 1;
    }
    idx := start.(left := left, right := right);
  }

  /**
   The column pass: for every column, the top and bottom searches update
   that column's entries of `top` and `bottom`; `left` and `right` are
   untouched.
   */
  method ScanColumns<T(==)>(img: Image<T>, d: T, start: EdgeIndex) returns (idx: EdgeIndex)
    requires img.WellFormed()
    requires start.Fits(img.rows, img.cols)
    ensures idx.Fits(img.rows, img.cols)
    ensures idx.left == start.left && idx.right == start.right
    ensures forall i :: 0 <= i < img.cols ==>
      idx.top[i] == (if LeadRun(img.Column(i), d) == 0 then start.top[i] else LeadRun(img.Column(i), d) - 1)
    ensures forall i :: 0 <= i < img.cols ==>
      idx.bottom[i] == (if TrailRun(img.Column(i), d) == 0 then start.bottom[i] else img.rows - TrailRun(img.Column(i), d))
  {
    var top, bottom := start.top, start.bottom;
    var i := 0;
    while i < img.cols
      invariant 0 <= i <= img.cols
      invariant |top| == img.cols && |bottom| == img.cols
      invariant forall k :: 0 <= k < i ==>
        top[k] == (if LeadRun(img.Column(k), d) == 0 then start.top[k] else LeadRun(img.Column(k), d) - 1)
      invariant forall k :: 0 <= k < i ==>
        bottom[k] == (if TrailRun(img.Column(k), d) == 0 then start.bottom[k] else img.rows - TrailRun(img.Column(k), d))
      invariant forall k :: i <= k < img.cols ==> top[k] == start.top[k] && bottom[k] == start.bottom[k]
    {
      var column := img.Column(i);
      var t := ScanFromStart(column, d, top[i]);
      var b := ScanFromEnd(column, d, bottom[i]);
      top := top[i := t];
      bottom := bottom[i := b];
      i := i + 1;
    }
    idx := start.(top := top, bottom := bottom);
  }

  /**
   The `EdgeMaskView` constructor: size and fill the four vectors, then run
   the row pass and the column pass.
   */
  method BuildEdgeIndex<T(==)>(img: Image<T>, d: T) returns (idx: EdgeIndex)
    requires img.WellFormed()
    ensures idx.Fits(img.rows, img.cols)
    ensures idx == EdgeIndexOf(img, d)
  {
    var initial := InitialIndex(img.rows, img.cols);
    var afterRows := ScanRows(img, d, initial);
    idx := ScanColumns(img, d, afterRows);
  }

  // ---------------------------------------------------------------------
  // Queries

  /** The validity test `valid(i, j)`: strictly inside all four bounds. */
  predicate IsValid(idx: EdgeIndex, i: int, j: int)
    requires 0 <= j < |idx.left| && 0 <= j < |idx.right|
    requires 0 <= i < |idx.top| && 0 <= i < |idx.bottom|
  {
    i > idx.left[j] && i < idx.right[j] && j > idx.top[i] && j < idx.bottom[i]
  }

  /**
   The pixel `operator()(i, j, p)`: the source pixel wrapped as a valid mask
   pixel where the bounds admit it, the default mask pixel elsewhere.
   */
  function Query<T>(img: Image<T>, idx: EdgeIndex, d: T, i: int, j: int, p: int): (r: PixelMask<T>)
    requires img.WellFormed() && idx.Fits(img.rows, img.cols)
    requires 0 <= i < img.cols && 0 <= j < img.rows && 0 <= p < img.planes
    ensures r.valid <==> IsValid(idx, i, j)
    ensures r.valid ==> r.child == img.At(i, j, p)
    ensures !r.valid ==> r == InvalidPixel(d)
  {
    if IsValid(idx, i, j) then ValidPixel(img.At(i, j, p)) else InvalidPixel(d)
  }

  // ---------------------------------------------------------------------
  // Properties of the built index

  /**
   A pixel is valid exactly when it is off row 0 and column 0, past the
   leading no-data run and before the trailing one of its row, and
   likewise within its column.
   */
  lemma ValidIffInsideRuns<T>(img: Image<T>, d: T, i: int, j: int)
    requires img.WellFormed()
    requires 0 <= i < img.cols && 0 <= j < img.rows
    ensures IsValid(EdgeIndexOf(img, d), i, j) <==>
      && 1 <= i && LeadRun(img.Row(j), d) <= i < img.cols - TrailRun(img.Row(j), d)
      && 1 <= j && LeadRun(img.Column(i), d) <= j < img.rows - TrailRun(img.Column(i), d)
  {
  }

  /**
   The left bound keeps its initial value 0 both when the row has no
   leading no-data run and when that run is a single pixel; the right
   bound keeps its initial value, the row length, only when there is no
   trailing run.  The same holds of the top and bottom bounds of a column.
   */
  lemma StartBoundZeroIffShortRun<T>(line: seq<T>, d: T)
    ensures StartBound(line, d) == 0 <==> LeadRun(line, d) <= 1
    ensures EndBound(line, d) == |line| <==> TrailRun(line, d) == 0
  {
  }

  /**
   Whenever a row starts with a no-data pixel, every pixel up to and
   including its left bound is no-data; whenever it ends with one, every
   pixel from its right bound on is no-data.
   */
  lemma BoundsCoverEdgeRuns<T>(img: Image<T>, d: T, j: int)
    requires img.WellFormed()
    requires 0 <= j < img.rows
    ensures img.cols > 0 && img.At(0, j, 0) == d ==>
      forall i :: 0 <= i <= EdgeIndexOf(img, d).left[j] ==> img.At(i, j, 0) == d
    ensures forall i :: EdgeIndexOf(img, d).right[j] <= i < img.cols ==> img.At(i, j, 0) == d
  {
  }

  /**
   The same for a column: whenever it starts with a no-data pixel, every
   pixel up to and including its top bound is no-data; every pixel from its
   bottom bound on is no-data.
   */
  lemma BoundsCoverEdgeRunsOfColumn<T>(img: Image<T>, d: T, i: int)
    requires img.WellFormed()
    requires 0 <= i < img.cols
    ensures img.rows > 0 && img.At(i, 0, 0) == d ==>
      forall j :: 0 <= j <= EdgeIndexOf(img, d).top[i] ==> img.At(i, j, 0) == d
    ensures forall j :: EdgeIndexOf(img, d).bottom[i] <= j < img.rows ==> img.At(i, j, 0) == d
  {
  }

  /**
   A view without rows, possibly without planes, gets empty row vectors and
   column vectors that keep their initial values 0 and 0; symmetrically for
   a view without columns.
   */
  lemma EmptyViewBounds<T>(img: Image<T>, d: T)
    requires img.WellFormed()
    ensures img.rows == 0 ==> EdgeIndexOf(img, d).left == [] && EdgeIndexOf(img, d).right == []
    ensures img.rows == 0 ==> forall i :: 0 <= i < img.cols ==>
      EdgeIndexOf(img, d).top[i] == 0 && EdgeIndexOf(img, d).bottom[i] == 0
    ensures img.cols == 0 ==> EdgeIndexOf(img, d).top == [] && EdgeIndexOf(img, d).bottom == []
    ensures img.cols == 0 ==> forall j :: 0 <= j < img.rows ==>
      EdgeIndexOf(img, d).left[j] == 0 && EdgeIndexOf(img, d).right[j] == 0
  {
  }

  /** Every pixel of row 0 and of column 0 is invalid, whatever the image holds. */
  lemma EdgeRowAndColumnInvalid<T>(img: Image<T>, d: T, i: int, j: int)
    requires img.WellFormed()
    requires 0 <= i < img.cols && 0 <= j < img.rows
    ensures i == 0 || j == 0 ==> !IsValid(EdgeIndexOf(img, d), i, j)
  {
  }

  /** In an image made entirely of the default pixel, every pixel is invalid. */
  lemma BlankImageAllInvalid<T>(img: Image<T>, d: T)
    requires img.WellFormed()
    requires forall i, j :: 0 <= i < img.cols && 0 <= j < img.rows ==> img.At(i, j, 0) == d
    ensures forall i, j :: 0 <= i < img.cols && 0 <= j < img.rows ==> !IsValid(EdgeIndexOf(img, d), i, j)
  {
  }

  /**
   In an image with no default pixel at all, exactly the pixels off row 0
   and column 0 are valid: the first row and column are lost even though
   no scan moved their bounds.
   */
  lemma NoBorderLosesFirstRowAndColumn<T>(img: Image<T>, d: T)
    requires img.WellFormed()
    requires forall i, j :: 0 <= i < img.cols && 0 <= j < img.rows ==> img.At(i, j, 0) != d
    ensures forall i, j :: 0 <= i < img.cols && 0 <= j < img.rows ==>
      (IsValid(EdgeIndexOf(img, d), i, j) <==> i >= 1 && j >= 1)
  {
  }

  /** The default pixels of `img` form a frame of width `w` around a data rectangle. */
  ghost predicate Framed<T>(img: Image<T>, d: T, w: nat)
    requires img.WellFormed()
  {
    forall i, j :: 0 <= i < img.cols && 0 <= j < img.rows ==>
      (img.At(i, j, 0) == d <==> !(w <= i < img.cols - w && w <= j < img.rows - w))
  }

  /**
   For a frame of default pixels at least one pixel wide around a
   non-empty data rectangle, the valid pixels are exactly the rectangle.
   */
  lemma FramedImageValidRegion<T>(img: Image<T>, d: T, w: nat)
    requires img.WellFormed()
    requires 1 <= w && 2 * w < img.cols && 2 * w < img.rows
    requires Framed(img, d, w)
    ensures forall i, j :: 0 <= i < img.cols && 0 <= j < img.rows ==>
      (IsValid(EdgeIndexOf(img, d), i, j) <==> w <= i < img.cols - w && w <= j < img.rows - w)
  {
    forall i, j | 0 <= i < img.cols && 0 <= j < img.rows
      ensures IsValid(EdgeIndexOf(img, d), i, j) <==> w <= i < img.cols - w && w <= j < img.rows - w
    {
      var row, column := img.Row(j), img.Column(i);
      if w <= j < img.rows - w {
        FramedLineRuns(row, d, w);
      } else {
        BlankLineRuns(row, d);
      }
      if w <= i < img.cols - w {
        FramedLineRuns(column, d, w);
      } else {
        BlankLineRuns(column, d);
      }
    }
  }

  /** A 10 x 10 single-plane image with a two-pixel border of 0 around 1s: valid exactly on the 6 x 6 interior. */
  lemma TenByTenFrame()
    ensures var img := Image(10, 10, 1, [seq(10, j => seq(10, i => if 2 <= i < 8 && 2 <= j < 8 then 1 else 0))]);
      && img.WellFormed()
      && forall i, j :: 0 <= i < 10 && 0 <= j < 10 ==>
           (IsValid(EdgeIndexOf(img, 0), i, j) <==> 2 <= i < 8 && 2 <= j < 8)
  {
    var img := Image(10, 10, 1, [seq(10, j => seq(10, i => if 2 <= i < 8 && 2 <= j < 8 then 1 else 0))]);
    FramedImageValidRegion(img, 0, 2);
  }

  /**
   The bounds only see no-data reaching in from the edges: a default pixel
   enclosed by data is reported valid.
   */
  lemma EnclosedHoleIsValid()
    ensures var img := Image(3, 3, 1, [[[1, 1, 1], [1, 0, 1], [1, 1, 1]]]);
      && img.WellFormed()
      && img.At(1, 1, 0) == 0
      && IsValid(EdgeIndexOf(img, 0), 1, 1)
  {
  }

  /**
   The validity of a queried pixel does not depend on the plane, and a
   valid query returns the source pixel of the queried plane.
   */
  lemma QueryValidityIgnoresPlane<T>(img: Image<T>, d: T, i: int, j: int, p: int, q: int)
    requires img.WellFormed()
    requires 0 <= i < img.cols && 0 <= j < img.rows && 0 <= p < img.planes && 0 <= q < img.planes
    ensures var idx := EdgeIndexOf(img, d);
      && Query(img, idx, d, i, j, p).valid == Query(img, idx, d, i, j, q).valid
      && (Query(img, idx, d, i, j, p).valid ==> Query(img, idx, d, i, j, p).child == img.At(i, j, p))
  {
  }
}
