/**
 * The layout calculator of src/utils/gridLayout.js (`calculateLayout`): from
 * the ordered decoded images and the settings, the grid shape, one target
 * aspect ratio shared by every cell, the cell size, the row-major position of
 * each cell and the size of the whole composite.
 *
 * In `width_col` mode the total width and the column count are fixed and the
 * height follows; in every other mode the total height and the row count are
 * fixed and the width follows. Placement is row-major by the column count in
 * both modes.
 */
module GridLayout {
  import opened Wrappers
  import opened Media

  /**
   * The settings record. `mode` and `fitMode` are kept as the strings the
   * control panel stores; `fitMode` is absent from the initial settings.
   * `anchor` and `backgroundColor` are read by other parts of the application,
   * never by the layout.
   */
  datatype Settings = Settings(
    mode: string,
    width: real,
    height: real,
    rows: int,
    cols: int,
    gap: real,
    fitMode: Option<string>,
    anchor: Option<string>,
    backgroundColor: string)

  /** One grid slot: its rectangle, the image placed in it and the two ratios the fit step compares. */
  datatype Cell = Cell(
    image: LoadedImage,
    x: real,
    y: real,
    width: real,
    height: real,
    imgRatio: real,
    cellRatio: real)

  datatype Layout = Layout(totalWidth: real, totalHeight: real, cells: seq<Cell>)

  /** The intermediate quantities `calculateLayout` solves for before placing cells. */
  datatype Grid = Grid(
    numRows: int,
    numCols: int,
    cellWidth: real,
    cellHeight: real,
    totalWidth: real,
    totalHeight: real)

  /** `Math.max` on two integers: the larger of the two. */
  function MaxInt(a: int, b: int): (m: int)
    ensures m >= a && m >= b
    ensures m == a || m == b
  {
    if a >= b then a else b
  }

  /** `Math.ceil(count / n)` for a positive `n`: at least one line when there is an item. */
  function CeilDiv(count: nat, n: int): (q: nat)
    requires n >= 1
    ensures count >= 1 ==> q >= 1
  {
    (count + n - 1) / n
  }

  /** `CeilDiv(count, n)` is the least number of lines of `n` slots that hold `count` items. */
  lemma CeilDivBounds(count: nat, n: int)
    requires n >= 1
    ensures var q := CeilDiv(count, n);
      (q - 1) * n < count <= q * n
  {
    var q := (count + n - 1) / n;
    var r := (count + n - 1) % n;
    assert q * n + r == count + n - 1;
    assert (q - 1) * n == q * n - n;
  }

  // ---------------------------------------------------------------------------
  // Target aspect ratio
  // ---------------------------------------------------------------------------

  /** `images.map(img => img.width / img.height)`. */
  function Ratios(images: seq<LoadedImage>): (ratios: seq<real>)
    requires WellSized(images)
    ensures |ratios| == |images|
    ensures forall k :: 0 <= k < |ratios| ==> ratios[k] > 0.0 && ratios[k] == AspectRatio(images[k])
  {
    seq(|images|, k requires 0 <= k < |images| => AspectRatio(images[k]))
  }

  /**
   * `ratios.reduce((sum, r) => sum + r, 0)`, a left fold from 0: the empty
   * list sums to 0 and a single value to itself.
   */
  function Sum(xs: seq<real>): (total: real)
    ensures xs == [] ==> total == 0.0
    ensures |xs| == 1 ==> total == xs[0]
  {
    if xs == [] then 0.0 else Sum(xs[..|xs| - 1]) + xs[|xs| - 1]
  }

  /** `Math.min(...xs)` of a non-empty list: an element no larger than any other. */
  function Min(xs: seq<real>): (m: real)
    requires |xs| >= 1
    ensures m in xs
    ensures forall k :: 0 <= k < |xs| ==> m <= xs[k]
  {
    if |xs| == 1 then xs[0]
    else
      var m := Min(xs[..|xs| - 1]);
      if m <= xs[|xs| - 1] then m else xs[|xs| - 1]
  }

  /** `Math.max(...xs)` of a non-empty list: an element no smaller than any other. */
  function Max(xs: seq<real>): (m: real)
    requires |xs| >= 1
    ensures m in xs
    ensures forall k :: 0 <= k < |xs| ==> xs[k] <= m
  {
    if |xs| == 1 then xs[0]
    else
      var m := Max(xs[..|xs| - 1]);
      if m >= xs[|xs| - 1] then m else xs[|xs| - 1]
  }

  /** A list whose elements all lie in `[lo, hi]` sums to between `n·lo` and `n·hi`. */
  lemma {:induction false} SumBounds(xs: seq<real>, lo: real, hi: real)
    requires forall k :: 0 <= k < |xs| ==> lo <= xs[k] <= hi
    ensures |xs| as real * lo <= Sum(xs) <= |xs| as real * hi
  {
    if xs != [] {
      var init := xs[..|xs| - 1];
      assert forall k :: 0 <= k < |init| ==> init[k] == xs[k];
      SumBounds(init, lo, hi);
      BoundsStep(|init| as real, lo, hi, Sum(init), xs[|xs| - 1]);
    }
  }

  /** One more term in `[lo, hi]` moves the bounds of a sum of `n` terms to those of `n + 1`. */
  lemma BoundsStep(n: real, lo: real, hi: real, sum: real, x: real)
    requires n * lo <= sum <= n * hi && lo <= x <= hi
    ensures (n + 1.0) * lo <= sum + x <= (n + 1.0) * hi
  {
    assert (n + 1.0) * lo == n * lo + lo && (n + 1.0) * hi == n * hi + hi;
  }

  /** `sum / count`: the arithmetic mean, which lies between the smallest and the largest element. */
  function Mean(xs: seq<real>): (m: real)
    requires |xs| >= 1
    ensures Min(xs) <= m <= Max(xs)
  {
    MeanWithin(xs, Min(xs), Max(xs));
    Sum(xs) / |xs| as real
  }

  /** The mean of values that all lie in `[lo, hi]` lies in `[lo, hi]`. */
  lemma {:induction false} MeanWithin(xs: seq<real>, lo: real, hi: real)
    requires |xs| >= 1
    requires forall k :: 0 <= k < |xs| ==> lo <= xs[k] <= hi
    ensures lo <= Sum(xs) / |xs| as real <= hi
  {
    var total, n := Sum(xs), |xs| as real;
    SumBounds(xs, lo, hi);
    QuotientBetween(total, n, lo, hi);
    assert lo <= total / n <= hi;
  }

  lemma QuotientBetween(total: real, n: real, lo: real, hi: real)
    requires n > 0.0 && n * lo <= total <= n * hi
    ensures lo <= total / n <= hi
  {
    var q := total / n;
    assert q * n == total;
    assert (q - lo) * n >= 0.0;
    assert (hi - q) * n >= 0.0;
  }

  /**
   * The one aspect ratio every cell is given: the narrowest for `portrait`,
   * the widest for `landscape`, the arithmetic mean for anything else
   * (including an absent fit mode). It always lies between the narrowest and
   * the widest ratio.
   */
  function TargetRatio(ratios: seq<real>, fitMode: Option<string>): (t: real)
    requires |ratios| >= 1
    ensures Min(ratios) <= t <= Max(ratios)
  {
    if fitMode == Some("portrait") then Min(ratios)
    else if fitMode == Some("landscape") then Max(ratios)
    else Mean(ratios)
  }

  /**
   * What each fit mode picks, stated without Min, Max or Mean: `portrait`
   * picks a ratio of the list no larger than any other, `landscape` one no
   * smaller than any other, and anything else the sum of the ratios over
   * their count.
   */
  lemma TargetRatioChoice(ratios: seq<real>, fitMode: Option<string>)
    requires |ratios| >= 1
    ensures var t := TargetRatio(ratios, fitMode);
      (fitMode == Some("portrait") ==> t in ratios && forall k :: 0 <= k < |ratios| ==> t <= ratios[k]) &&
      (fitMode == Some("landscape") ==> t in ratios && forall k :: 0 <= k < |ratios| ==> ratios[k] <= t) &&
      (fitMode != Some("portrait") && fitMode != Some("landscape") ==> t == Sum(ratios) / |ratios| as real)
  {
  }

  /** Worked values: mean of 2 and 0.5 is 1.25; over {2, 0.5, 1} portrait picks 0.5 and landscape 2. */
  lemma TargetRatioExamples()
    ensures TargetRatio([2.0, 0.5], Some("average")) == 1.25
    ensures TargetRatio([2.0, 0.5], None) == 1.25
    ensures TargetRatio([2.0, 0.5, 1.0], Some("portrait")) == 0.5
    ensures TargetRatio([2.0, 0.5, 1.0], Some("landscape")) == 2.0
  {
    assert [2.0, 0.5][..1] == [2.0] && [2.0][..0] == [];
    assert Sum([2.0, 0.5]) == 2.5;
    assert [2.0, 0.5, 1.0][..2] == [2.0, 0.5];
  }

  // ---------------------------------------------------------------------------
  // Grid solve and placement
  // ---------------------------------------------------------------------------

  /** The target ratio of a non-empty image list under the settings' fit mode; positive like every image ratio. */
  function LayoutRatio(images: seq<LoadedImage>, s: Settings): (t: real)
    requires |images| >= 1 && WellSized(images)
    ensures t > 0.0
  {
    var ratios := Ratios(images);
    TargetRatio(ratios, s.fitMode)
  }

  /**
   * Grid shape, cell size and totals for `count >= 1` images whose target
   * ratio is `targetRatio`; both counts are at least one.
   */
  function SolveGrid(count: nat, s: Settings, targetRatio: real): (g: Grid)
    requires count >= 1 && targetRatio > 0.0
    ensures g.numRows >= 1 && g.numCols >= 1
  {
    if s.mode == "width_col" then
      var numCols := MaxInt(1, s.cols);
      var numRows := CeilDiv(count, numCols);
      var cellWidth := (s.width - MaxInt(0, numCols - 1) as real * s.gap) / numCols as real;
      var cellHeight := cellWidth / targetRatio;
      Grid(numRows, numCols, cellWidth, cellHeight,
           s.width, numRows as real * cellHeight + MaxInt(0, numRows - 1) as real * s.gap)
    else
      var numRows := MaxInt(1, s.rows);
      var numCols := CeilDiv(count, numRows);
      var cellHeight := (s.height - MaxInt(0, numRows - 1) as real * s.gap) / numRows as real;
      var cellWidth := cellHeight * targetRatio;
      Grid(numRows, numCols, cellWidth, cellHeight,
           numCols as real * cellWidth + MaxInt(0, numCols - 1) as real * s.gap, s.height)
  }

  /**
   * The count the mode fixes is clamped to at least one; the other count is
   * the ceiling of the image count over it, so the grid has room for every
   * image. Placement is row-major, so in `width_col` every row holds an
   * image; in the other modes every column does, but trailing rows can stay
   * empty (`HeightRowEmptyRow`).
   */
  lemma GridShape(count: nat, s: Settings, targetRatio: real)
    requires count >= 1 && targetRatio > 0.0
    ensures var g := SolveGrid(count, s, targetRatio);
      (s.mode == "width_col" ==>
        g.numCols == MaxInt(1, s.cols) && (g.numRows - 1) * g.numCols < count <= g.numRows * g.numCols) &&
      (s.mode != "width_col" ==>
        g.numRows == MaxInt(1, s.rows) && (g.numCols - 1) * g.numRows < count <= g.numCols * g.numRows)
  {
    if s.mode == "width_col" {
      CeilDivBounds(count, MaxInt(1, s.cols));
    } else {
      CeilDivBounds(count, MaxInt(1, s.rows));
    }
  }

  /**
   * Fixed height with three rows and four images: two columns, so the images
   * fill rows 0 and 1 and row 2, a third of the fixed height, holds none.
   */
  lemma HeightRowEmptyRow(s: Settings, t: real)
    requires s.mode != "width_col" && s.rows == 3 && t > 0.0
    ensures var g := SolveGrid(4, s, t);
      g.numRows == 3 && g.numCols == 2 &&
      forall i :: 0 <= i < 4 ==> i / g.numCols < g.numRows - 1
  {
  }

  /**
   * A non-empty list of well-sized images and a positive target ratio for
   * which the source's `cellRatio` division is defined: the solved cell
   * height is not zero (the fixed dimension is not used up exactly by the
   * gaps).
   */
  predicate Solvable(images: seq<LoadedImage>, s: Settings, t: real)
  {
    |images| >= 1 && WellSized(images) && t > 0.0 && SolveGrid(|images|, s, t).cellHeight != 0.0
  }

  /** The solved grid has a slot for every image. */
  lemma GridHasRoom(count: nat, s: Settings, t: real)
    requires count >= 1 && t > 0.0
    ensures count <= SolveGrid(count, s, t).numRows * SolveGrid(count, s, t).numCols
  {
    GridShape(count, s, t);
  }

  /** `calculateLayout` is defined on the images and settings: the layout's own target ratio is solvable. */
  predicate CellRatioDefined(images: seq<LoadedImage>, s: Settings)
    requires WellSized(images)
  {
    |images| >= 1 ==> Solvable(images, s, LayoutRatio(images, s))
  }

  /**
   * The cell of image number `i`: the image with its own ratio, the grid's
   * common size, whose ratio it records, in column `i % numCols` and row
   * `i / numCols`, one cell plus one gap per step.
   */
  function PlaceCell(img: LoadedImage, i: nat, g: Grid, gap: real): (cell: Cell)
    requires img.width > 0.0 && img.height > 0.0
    requires g.numCols >= 1 && g.cellHeight != 0.0
    ensures cell.image == img && cell.imgRatio == AspectRatio(img)
    ensures cell.width == g.cellWidth && cell.height == g.cellHeight
    ensures cell.cellRatio * g.cellHeight == g.cellWidth
    ensures cell.x == (i % g.numCols) as real * (g.cellWidth + gap)
    ensures cell.y == (i / g.numCols) as real * (g.cellHeight + gap)
  {
    var r := i / g.numCols;
    var c := i % g.numCols;
    Cell(img,
         c as real * (g.cellWidth + gap),
         r as real * (g.cellHeight + gap),
         g.cellWidth, g.cellHeight,
         AspectRatio(img),
         g.cellWidth / g.cellHeight)
  }

  /**
   * The second half of `calculateLayout`, once the target ratio `t` is
   * known: solve the grid for `t`, put image `i` in slot `i`, and report the
   * grid's totals.
   */
  function LayoutFor(images: seq<LoadedImage>, s: Settings, t: real): (layout: Layout)
    requires Solvable(images, s, t)
    ensures |layout.cells| == |images|
  {
    var g := SolveGrid(|images|, s, t);
    Layout(g.totalWidth, g.totalHeight,
           seq(|images|, i requires 0 <= i < |images| => PlaceCell(images[i], i, g, s.gap)))
  }

  /**
   * `calculateLayout`. No images give an empty zero-sized layout; otherwise
   * there is exactly one cell per image, in input order, carrying that image
   * and its own aspect ratio, and all cells have the same size.
   */
  function CalculateLayout(images: seq<LoadedImage>, s: Settings): (layout: Layout)
    requires WellSized(images)
    requires CellRatioDefined(images, s)
    ensures |images| == 0 ==> layout == Layout(0.0, 0.0, [])
    ensures |layout.cells| == |images|
    ensures forall i :: 0 <= i < |images| ==>
      layout.cells[i].image == images[i] &&
      layout.cells[i].imgRatio == AspectRatio(images[i])
    ensures forall i :: 0 <= i < |images| ==>
      layout.cells[i].width == layout.cells[0].width && layout.cells[i].height == layout.cells[0].height
  {
    if |images| == 0 then Layout(0.0, 0.0, [])
    else LayoutFor(images, s, LayoutRatio(images, s))
  }

  // ---------------------------------------------------------------------------
  // Properties of the solved grid (for any target ratio)
  // ---------------------------------------------------------------------------

  /** `n` sides and the `n - 1` gaps between them fill the fixed dimension they were solved from. */
  lemma Tiling(n: int, side: real, gap: real, total: real)
    requires n >= 1
    requires side == (total - MaxInt(0, n - 1) as real * gap) / n as real
    ensures n as real * side + (n - 1) as real * gap == total
  {
    assert side * n as real == total - (n - 1) as real * gap;
  }

  /** Both totals are the cells of one row (column) plus the gaps between them. */
  predicate Spans(g: Grid, gap: real)
  {
    g.totalWidth == g.numCols as real * g.cellWidth + (g.numCols - 1) as real * gap &&
    g.totalHeight == g.numRows as real * g.cellHeight + (g.numRows - 1) as real * gap
  }

  /**
   * `width_col`: the total width is the configured width, which the columns
   * and their gaps fill exactly; the cell has the target ratio.
   */
  lemma WidthColGrid(count: nat, s: Settings, targetRatio: real)
    requires count >= 1 && targetRatio > 0.0 && s.mode == "width_col"
    ensures var g := SolveGrid(count, s, targetRatio);
      g.totalWidth == s.width && Spans(g, s.gap) && g.cellHeight * targetRatio == g.cellWidth
  {
    var g := SolveGrid(count, s, targetRatio);
    Tiling(g.numCols, g.cellWidth, s.gap, s.width);
    assert g.cellHeight == g.cellWidth / targetRatio;
  }

  /**
   * Any other mode: the total height is the configured height, which the rows
   * and their gaps fill exactly; the cell has the target ratio.
   */
  lemma HeightRowGrid(count: nat, s: Settings, targetRatio: real)
    requires count >= 1 && targetRatio > 0.0 && s.mode != "width_col"
    ensures var g := SolveGrid(count, s, targetRatio);
      g.totalHeight == s.height && Spans(g, s.gap) && g.cellHeight * targetRatio == g.cellWidth
  {
    var g := SolveGrid(count, s, targetRatio);
    Tiling(g.numRows, g.cellHeight, s.gap, s.height);
  }

  /** Slot `k` of `n` ends no later than the whole run of `n` slots with gaps between them. */
  lemma SlotWithinRun(k: int, n: int, side: real, gap: real)
    requires 0 <= k < n && side > 0.0 && gap >= 0.0
    ensures k as real * (side + gap) + side <= n as real * side + (n - 1) as real * gap
  {
    var spare := (n - 1 - k) as real;
    assert spare * (side + gap) >= 0.0;
    assert n as real * side + (n - 1) as real * gap == (n - 1) as real * (side + gap) + side;
  }

  /** An earlier slot ends no later than a later one begins. */
  lemma SlotsSeparate(a: int, b: int, side: real, gap: real)
    requires 0 <= a < b && side > 0.0 && gap >= 0.0
    ensures a as real * (side + gap) + side <= b as real * (side + gap)
  {
    var step := (b - a) as real;
    NonNegativeProduct(step - 1.0, side + gap);
    assert b as real * (side + gap) == a as real * (side + gap) + step * (side + gap);
  }

  lemma NonNegativeProduct(a: real, b: real)
    requires a >= 0.0 && b >= 0.0
    ensures a * b >= 0.0
  {
  }

  /** An index below `rows · cols` lies in one of the first `rows` rows. */
  lemma RowBelow(i: int, cols: int, rows: int)
    requires cols >= 1 && 0 <= i < rows * cols
    ensures i / cols < rows
  {
    assert (i / cols) * cols <= i;
  }

  /** In a grid that spans its totals, slot `i` of the first `numRows · numCols` lies inside the totals. */
  lemma PlacedInside(img: LoadedImage, i: nat, g: Grid, gap: real)
    requires img.width > 0.0 && img.height > 0.0
    requires g.numCols >= 1 && i < g.numRows * g.numCols
    requires g.cellWidth > 0.0 && g.cellHeight > 0.0 && gap >= 0.0 && Spans(g, gap)
    ensures var c := PlaceCell(img, i, g, gap);
      0.0 <= c.x && c.x + c.width <= g.totalWidth &&
      0.0 <= c.y && c.y + c.height <= g.totalHeight
  {
    var c := PlaceCell(img, i, g, gap);
    var col, row := i % g.numCols, i / g.numCols;
    RowBelow(i, g.numCols, g.numRows);
    SlotWithinRun(col, g.numCols, g.cellWidth, gap);
    SlotWithinRun(row, g.numRows, g.cellHeight, gap);
    NonNegativeProduct(col as real, g.cellWidth + gap);
    NonNegativeProduct(row as real, g.cellHeight + gap);
  }

  /** Two different indices in the same column are in different rows. */
  lemma DistinctSlots(i: nat, j: nat, n: int)
    requires n >= 1 && i != j && i % n == j % n
    ensures i / n != j / n
  {
    assert i == (i / n) * n + i % n && j == (j / n) * n + j % n;
  }

  /** Two rectangles whose interiors do not meet. */
  predicate Disjoint(a: Cell, b: Cell)
  {
    a.x + a.width <= b.x || b.x + b.width <= a.x ||
    a.y + a.height <= b.y || b.y + b.height <= a.y
  }

  /** Distinct slots of a grid with positive cells and non-negative gaps do not overlap. */
  lemma PlacedApart(a: LoadedImage, b: LoadedImage, i: nat, j: nat, g: Grid, gap: real)
    requires a.width > 0.0 && a.height > 0.0 && b.width > 0.0 && b.height > 0.0
    requires g.numCols >= 1 && i != j
    requires g.cellWidth > 0.0 && g.cellHeight > 0.0 && gap >= 0.0
    ensures Disjoint(PlaceCell(a, i, g, gap), PlaceCell(b, j, g, gap))
  {
    var n := g.numCols;
    if i % n < j % n {
      SlotsSeparate(i % n, j % n, g.cellWidth, gap);
    } else if j % n < i % n {
      SlotsSeparate(j % n, i % n, g.cellWidth, gap);
    } else {
      DistinctSlots(i, j, n);
      if i / n < j / n {
        SlotsSeparate(i / n, j / n, g.cellHeight, gap);
      } else {
        SlotsSeparate(j / n, i / n, g.cellHeight, gap);
      }
    }
  }

  // ---------------------------------------------------------------------------
  // Properties of the layout
  // ---------------------------------------------------------------------------

  /**
   * `calculateLayout` picks the target ratio first and then solves and places
   * for it: a non-empty layout is the layout for its target ratio. Every
   * property below is proved for any positive target ratio, so it holds for
   * this one.
   */
  lemma LayoutThroughTargetRatio(images: seq<LoadedImage>, s: Settings)
    requires WellSized(images) && CellRatioDefined(images, s) && |images| >= 1
    ensures Solvable(images, s, LayoutRatio(images, s))
    ensures CalculateLayout(images, s) == LayoutFor(images, s, LayoutRatio(images, s))
  {
  }

  /** Cell `i` is image `i` placed in slot `i` of the solved grid, and the totals are the grid's. */
  lemma LayoutIsPlaced(images: seq<LoadedImage>, s: Settings, t: real, i: int)
    requires Solvable(images, s, t) && 0 <= i < |images|
    ensures var layout := LayoutFor(images, s, t);
      var g := SolveGrid(|images|, s, t);
      layout.cells[i] == PlaceCell(images[i], i, g, s.gap) &&
      layout.totalWidth == g.totalWidth && layout.totalHeight == g.totalHeight
  {
  }

  /** Cell `i` sits at column `i % numCols`, row `i / numCols`, one cell-plus-gap per step. */
  lemma RowMajorPlacement(images: seq<LoadedImage>, s: Settings, t: real, i: int)
    requires Solvable(images, s, t) && 0 <= i < |images|
    ensures var g := SolveGrid(|images|, s, t);
      var cell := LayoutFor(images, s, t).cells[i];
      cell.width == g.cellWidth && cell.height == g.cellHeight &&
      cell.x == (i % g.numCols) as real * (g.cellWidth + s.gap) &&
      cell.y == (i / g.numCols) as real * (g.cellHeight + s.gap)
  {
    LayoutIsPlaced(images, s, t, i);
  }

  /** Every cell's `cellRatio` is the target ratio, in both modes. */
  lemma CellsHaveTargetRatio(images: seq<LoadedImage>, s: Settings, t: real)
    requires Solvable(images, s, t)
    ensures forall i :: 0 <= i < |images| ==> LayoutFor(images, s, t).cells[i].cellRatio == t
  {
    var g := SolveGrid(|images|, s, t);
    if s.mode == "width_col" {
      WidthColGrid(|images|, s, t);
    } else {
      HeightRowGrid(|images|, s, t);
    }
    QuotientOf(g.cellWidth, g.cellHeight, t);
    forall i | 0 <= i < |images|
      ensures LayoutFor(images, s, t).cells[i].cellRatio == t
    {
      LayoutIsPlaced(images, s, t, i);
    }
  }

  lemma QuotientOf(a: real, b: real, q: real)
    requires b != 0.0 && b * q == a
    ensures a / b == q
  {
  }

  /**
   * `width_col`: the layout is exactly the configured width, which the
   * columns and their gaps fill; its height is the rows and their gaps.
   */
  lemma WidthColTotals(images: seq<LoadedImage>, s: Settings, t: real)
    requires Solvable(images, s, t) && s.mode == "width_col"
    ensures var g := SolveGrid(|images|, s, t);
      var layout := LayoutFor(images, s, t);
      layout.totalWidth == s.width &&
      g.numCols as real * g.cellWidth + (g.numCols - 1) as real * s.gap == s.width &&
      layout.totalHeight == g.numRows as real * g.cellHeight + (g.numRows - 1) as real * s.gap
  {
    WidthColGrid(|images|, s, t);
    LayoutIsPlaced(images, s, t, 0);
  }

  /**
   * Every other mode, transposed: the layout is exactly the configured
   * height, which the rows and their gaps fill; its width is the columns and
   * their gaps.
   */
  lemma HeightRowTotals(images: seq<LoadedImage>, s: Settings, t: real)
    requires Solvable(images, s, t) && s.mode != "width_col"
    ensures var g := SolveGrid(|images|, s, t);
      var layout := LayoutFor(images, s, t);
      layout.totalHeight == s.height &&
      g.numRows as real * g.cellHeight + (g.numRows - 1) as real * s.gap == s.height &&
      layout.totalWidth == g.numCols as real * g.cellWidth + (g.numCols - 1) as real * s.gap
  {
    HeightRowGrid(|images|, s, t);
    LayoutIsPlaced(images, s, t, 0);
  }

  /** A solvable grid whose cells have positive size, with non-negative gaps. */
  predicate ProperGrid(images: seq<LoadedImage>, s: Settings, t: real)
  {
    Solvable(images, s, t) && s.gap >= 0.0 &&
    SolveGrid(|images|, s, t).cellWidth > 0.0 && SolveGrid(|images|, s, t).cellHeight > 0.0
  }

  /** With non-negative gaps and positive cell sizes, every cell lies inside the composite, in both modes. */
  lemma CellInsideCanvas(images: seq<LoadedImage>, s: Settings, t: real, i: int)
    requires ProperGrid(images, s, t) && 0 <= i < |images|
    ensures var layout := LayoutFor(images, s, t);
      var cell := layout.cells[i];
      0.0 <= cell.x && cell.x + cell.width <= layout.totalWidth &&
      0.0 <= cell.y && cell.y + cell.height <= layout.totalHeight
  {
    var g := SolveGrid(|images|, s, t);
    if s.mode == "width_col" {
      WidthColGrid(|images|, s, t);
    } else {
      HeightRowGrid(|images|, s, t);
    }
    GridHasRoom(|images|, s, t);
    LayoutIsPlaced(images, s, t, i);
    PlacedInside(images[i], i, g, s.gap);
  }

  /** With non-negative gaps and positive cell sizes, no two cells overlap. */
  lemma CellsDisjoint(images: seq<LoadedImage>, s: Settings, t: real, i: int, j: int)
    requires ProperGrid(images, s, t)
    requires 0 <= i < |images| && 0 <= j < |images| && i != j
    ensures var layout := LayoutFor(images, s, t);
      Disjoint(layout.cells[i], layout.cells[j])
  {
    LayoutIsPlaced(images, s, t, i);
    LayoutIsPlaced(images, s, t, j);
    PlacedApart(images[i], images[j], i, j, SolveGrid(|images|, s, t), s.gap);
  }

  /** Square images have ratio 1, so whatever the fit mode the target ratio is 1. */
  lemma SquaresTargetRatio(images: seq<LoadedImage>, s: Settings)
    requires |images| == 3 && forall k :: 0 <= k < 3 ==> images[k].width == 500.0 && images[k].height == 500.0
    ensures WellSized(images) && LayoutRatio(images, s) == 1.0
  {
    var ratios := Ratios(images);
    assert ratios == [1.0, 1.0, 1.0] by {
      forall k | 0 <= k < 3 ensures ratios[k] == 1.0 {
        assert AspectRatio(images[k]) == 500.0 / 500.0;
      }
    }
    assert ratios[..2] == [1.0, 1.0] && ratios[..2][..1] == [1.0] && ratios[..2][..1][..0] == [];
  }

  /** Three slots of ratio 1 in three columns 1200 wide without gaps: one row of 400×400 cells. */
  lemma ThreeColumnGrid(s: Settings)
    requires s.mode == "width_col" && s.width == 1200.0 && s.cols == 3 && s.gap == 0.0
    ensures var g := SolveGrid(3, s, 1.0);
      g.numRows == 1 && g.numCols == 3 && g.cellWidth == 400.0 && g.cellHeight == 400.0 &&
      g.totalWidth == 1200.0 && g.totalHeight == 400.0
  {
  }

  /**
   * Three 500×500 images, 1200 wide in three columns without gaps: three
   * 400×400 cells side by side, 400 high in all.
   */
  lemma ThreeSquaresExample(images: seq<LoadedImage>, s: Settings)
    requires |images| == 3 && forall k :: 0 <= k < 3 ==> images[k].width == 500.0 && images[k].height == 500.0
    requires s.mode == "width_col" && s.width == 1200.0 && s.cols == 3 && s.gap == 0.0
    ensures WellSized(images) && CellRatioDefined(images, s)
    ensures var layout := CalculateLayout(images, s);
      layout.totalWidth == 1200.0 && layout.totalHeight == 400.0 &&
      layout.cells[0].x == 0.0 && layout.cells[1].x == 400.0 && layout.cells[2].x == 800.0 &&
      forall k :: 0 <= k < 3 ==>
        layout.cells[k].y == 0.0 && layout.cells[k].width == 400.0 && layout.cells[k].height == 400.0
  {
    SquaresTargetRatio(images, s);
    ThreeColumnGrid(s);
    LayoutThroughTargetRatio(images, s);
    RowMajorPlacement(images, s, 1.0, 0);
    RowMajorPlacement(images, s, 1.0, 1);
    RowMajorPlacement(images, s, 1.0, 2);
    LayoutIsPlaced(images, s, 1.0, 0);
  }
}
