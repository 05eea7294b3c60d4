/**
 * The geometry of src/components/PreviewCanvas.jsx: how each on-screen cell
 * scales and crops its picture (the `SortableItem` fit), the rectangles the
 * "Save Image" export clips to and draws into (`handleDownload`), and the
 * decision taken when a drag ends (`handleDragEnd`).
 *
 * Both fits are cover with a centred crop; neither reads the anchor setting.
 */
module Preview {
  import opened Wrappers
  import opened Media
  import Anchor
  import opened GridLayout

  /** An axis-aligned rectangle: top-left corner, width and height. */
  datatype Rect = Rect(x: real, y: real, w: real, h: real)

  /** `outer` covers all of `inner`. */
  predicate Covers(outer: Rect, inner: Rect)
  {
    outer.x <= inner.x && inner.x + inner.w <= outer.x + outer.w &&
    outer.y <= inner.y && inner.y + inner.h <= outer.y + outer.h
  }

  /** The rectangle a layout cell occupies. */
  function CellRect(cell: Cell): Rect
  {
    Rect(cell.x, cell.y, cell.width, cell.height)
  }

  /**
   * A cell the cover fit is well defined on: positive size, a positive image
   * ratio, and the cell's own ratio being its width over its height (as every
   * cell `calculateLayout` produces with positive sides).
   */
  predicate CoverReady(cell: Cell)
  {
    cell.width > 0.0 && cell.height > 0.0 && cell.imgRatio > 0.0 &&
    cell.cellRatio == cell.width / cell.height
  }

  // ---------------------------------------------------------------------------
  // On-screen cell
  // ---------------------------------------------------------------------------

  /**
   * The `SortableItem` fit: the picture's size, and its offset from the
   * cell's corner. An image wider than the cell takes the cell's height and
   * is shifted left by half its overhang; any other takes the cell's width
   * and is shifted up by half its overhang. The picture keeps its aspect.
   */
  function PreviewPlacement(cell: Cell): (r: Rect)
    requires cell.imgRatio != 0.0
    ensures r.w == r.h * cell.imgRatio
  {
    var wider := cell.imgRatio > cell.cellRatio;
    var renderW := if wider then cell.height * cell.imgRatio else cell.width;
    var renderH := if wider then cell.height else cell.width / cell.imgRatio;
    var renderX := if wider then -(renderW - cell.width) / 2.0 else 0.0;
    var renderY := if wider then 0.0 else -(renderH - cell.height) / 2.0;
    Rect(renderX, renderY, renderW, renderH)
  }

  /**
   * The preview fit is the resolver's cover size (`isContain` false) at the
   * resolver's offset for the `center` anchor.
   */
  lemma PreviewMatchesAnchor(cell: Cell)
    requires cell.imgRatio != 0.0
    ensures var r := PreviewPlacement(cell);
      var d := Anchor.RenderDimensions(cell.width, cell.height, cell.imgRatio, cell.cellRatio, false);
      var o := Anchor.RenderPosition(cell.width, cell.height, d.renderW, d.renderH, Some("center"));
      r == Rect(o.renderX, o.renderY, d.renderW, d.renderH)
  {
    Anchor.ParseAnchorDefault(Some("center"));
  }

  /** The preview picture covers its whole cell (in cell coordinates). */
  lemma PreviewCovers(cell: Cell)
    requires CoverReady(cell)
    ensures Covers(PreviewPlacement(cell), Rect(0.0, 0.0, cell.width, cell.height))
  {
    PreviewMatchesAnchor(cell);
    Anchor.CoverPlacementCovers(cell.width, cell.height, cell.imgRatio, Some("center"));
  }

  /**
   * The crop is always centred: the picture overhangs the cell by the same
   * amount on the left as on the right, and at the top as at the bottom,
   * whatever anchor the settings hold.
   */
  lemma PreviewCentred(cell: Cell)
    requires cell.imgRatio != 0.0
    ensures var r := PreviewPlacement(cell);
      0.0 - r.x == (r.x + r.w) - cell.width &&
      0.0 - r.y == (r.y + r.h) - cell.height
  {
  }

  // ---------------------------------------------------------------------------
  // Export
  // ---------------------------------------------------------------------------

  /** One `drawImage` call: the clip rectangle in force and the destination rectangle. */
  datatype Draw = Draw(clip: Rect, dest: Rect)

  /**
   * What the export leaves on the canvas: its size in pixels, the colour the
   * whole of it is filled with first, and the picture draws in order.
   */
  datatype Frame = Frame(width: int, height: int, background: string, draws: seq<Draw>)

  const UnsignedLongRange: int := 0x1_0000_0000
  const MaxCanvasDim: int := 0x7FFF_FFFF
  const DefaultCanvasWidth: int := 300
  const DefaultCanvasHeight: int := 150

  /** A real truncated toward zero, as JavaScript's integer conversions do. */
  function Truncate(v: real): (n: int)
    ensures v >= 0.0 ==> n as real <= v < n as real + 1.0
    ensures v < 0.0 ==> n as real - 1.0 < v <= n as real
  {
    if v >= 0.0 then v.Floor else -((-v).Floor)
  }

  /**
   * The size a canvas reports after `canvas.width = v` (or `height`): the
   * value is converted to an unsigned 32-bit integer (truncated toward zero,
   * then wrapped modulo 2^32), and a result above 2^31 - 1 is replaced by the
   * attribute's default.
   */
  function CanvasDim(v: real, default: int): (n: int)
    requires 0 <= default <= MaxCanvasDim
    ensures 0 <= n <= MaxCanvasDim
  {
    var wrapped := Truncate(v) % UnsignedLongRange;
    if wrapped <= MaxCanvasDim then wrapped else default
  }

  /** A size in `[0, 2^31)` becomes its whole part. */
  lemma CanvasDimInRange(v: real, default: int)
    requires 0 <= default <= MaxCanvasDim
    requires 0.0 <= v < MaxCanvasDim as real + 1.0
    ensures CanvasDim(v, default) == v.Floor
    ensures CanvasDim(v, default) as real <= v < CanvasDim(v, default) as real + 1.0
  {
  }

  /**
   * A negative size: one above -1 truncates to zero; one whose whole part is
   * between -2^31 and -1 wraps to a value above 2^31 - 1 and the default is
   * used; one further below wraps round to `2^32` plus its whole part.
   */
  lemma CanvasDimNegative(v: real, default: int)
    requires 0 <= default <= MaxCanvasDim
    requires -(UnsignedLongRange as real) < v < 0.0
    ensures -1.0 < v ==> CanvasDim(v, default) == 0
    ensures -(MaxCanvasDim as real) - 2.0 < v <= -1.0 ==> CanvasDim(v, default) == default
    ensures v <= -(MaxCanvasDim as real) - 2.0 ==> CanvasDim(v, default) == Truncate(v) + UnsignedLongRange
  {
    var t := Truncate(v);
    assert -UnsignedLongRange < t <= 0;
    if t < 0 {
      assert t % UnsignedLongRange == t + UnsignedLongRange;
    }
  }

  /** Every cell of the layout has a ratio the fit can divide by. */
  predicate Drawable(layout: Layout)
  {
    forall k :: 0 <= k < |layout.cells| ==> layout.cells[k].imgRatio != 0.0
  }

  /** A rectangle moved by `(dx, dy)`. */
  function Translate(r: Rect, dx: real, dy: real): Rect
  {
    Rect(r.x + dx, r.y + dy, r.w, r.h)
  }

  /**
   * The draws the export is meant to make: each cell clipped to its own
   * rectangle, in cell order, with the on-screen picture placement moved to
   * the cell's position on the canvas.
   */
  function ExportPlan(layout: Layout): (plan: seq<Draw>)
    requires Drawable(layout)
    ensures |plan| == |layout.cells|
    ensures forall k :: 0 <= k < |plan| ==> plan[k].clip == CellRect(layout.cells[k])
  {
    seq(|layout.cells|, k requires 0 <= k < |layout.cells| =>
      var cell := layout.cells[k];
      Draw(CellRect(cell), Translate(PreviewPlacement(cell), cell.x, cell.y)))
  }

  /**
   * `handleDownload`: size the canvas from the layout's totals, fill it with
   * the background colour, then for each cell in turn clip to the cell and
   * draw the picture at the cover size with a centred crop. The draws made
   * are exactly the on-screen placements moved onto the canvas.
   */
  method HandleDownload(layout: Layout, backgroundColor: string) returns (frame: Frame)
    requires Drawable(layout)
    ensures frame.width == CanvasDim(layout.totalWidth, DefaultCanvasWidth)
    ensures frame.height == CanvasDim(layout.totalHeight, DefaultCanvasHeight)
    ensures frame.background == backgroundColor
    ensures frame.draws == ExportPlan(layout)
  {
    var width := CanvasDim(layout.totalWidth, DefaultCanvasWidth);
    var height := CanvasDim(layout.totalHeight, DefaultCanvasHeight);
    var draws: seq<Draw> := [];
    var i := 0;
    while i < |layout.cells|
      invariant 0 <= i <= |layout.cells|
      invariant draws == ExportPlan(layout)[..i]
    {
      var cell := layout.cells[i];
      var renderW, renderH, renderX, renderY;
      if cell.imgRatio > cell.cellRatio {
        renderH := cell.height;
        renderW := cell.height * cell.imgRatio;
        renderY := cell.y;
        renderX := cell.x - (renderW - cell.width) / 2.0;
      } else {
        renderW := cell.width;
        renderH := cell.width / cell.imgRatio;
        renderX := cell.x;
        renderY := cell.y - (renderH - cell.height) / 2.0;
      }
      var draw := Draw(Rect(cell.x, cell.y, cell.width, cell.height),
                       Rect(renderX, renderY, renderW, renderH));
      assert draw == ExportPlan(layout)[i];
      assert ExportPlan(layout)[..i + 1] == ExportPlan(layout)[..i] + [draw];
      draws := draws + [draw];
      i := i + 1;
    }
    frame := Frame(width, height, backgroundColor, draws);
  }

  /** Each export draw covers the whole of the cell it is clipped to. */
  lemma ExportDrawCoversClip(layout: Layout, k: int)
    requires Drawable(layout) && 0 <= k < |layout.cells|
    requires CoverReady(layout.cells[k])
    ensures Covers(ExportPlan(layout)[k].dest, ExportPlan(layout)[k].clip)
  {
    PreviewCovers(layout.cells[k]);
  }

  /**
   * Every cell of a proper grid is ready for the cover fit; this covers
   * `calculateLayout`'s own result, which is the layout for its target ratio.
   */
  lemma LayoutCellsCoverReady(images: seq<LoadedImage>, s: Settings, t: real, k: int)
    requires ProperGrid(images, s, t) && 0 <= k < |images|
    ensures CoverReady(LayoutFor(images, s, t).cells[k])
  {
    LayoutIsPlaced(images, s, t, k);
  }

  /** A layout of well-sized images can always be exported. */
  lemma LayoutDrawable(images: seq<LoadedImage>, s: Settings)
    requires WellSized(images) && CellRatioDefined(images, s)
    ensures Drawable(CalculateLayout(images, s))
  {
  }

  /**
   * On a proper grid the export clips every draw to a rectangle inside the
   * composite, no two clips overlap, and each draw covers its clip.
   */
  lemma ExportOfLayout(images: seq<LoadedImage>, s: Settings, t: real, i: int, j: int)
    requires ProperGrid(images, s, t)
    requires 0 <= i < |images| && 0 <= j < |images|
    ensures var layout := LayoutFor(images, s, t);
      Drawable(layout) &&
      var plan := ExportPlan(layout);
      Covers(Rect(0.0, 0.0, layout.totalWidth, layout.totalHeight), plan[i].clip) &&
      Covers(plan[i].dest, plan[i].clip) &&
      (i != j ==> Disjoint(layout.cells[i], layout.cells[j]))
  {
    var layout := LayoutFor(images, s, t);
    assert Drawable(layout) by {
      forall k | 0 <= k < |images| ensures layout.cells[k].imgRatio != 0.0 {
        LayoutIsPlaced(images, s, t, k);
      }
    }
    CellInsideCanvas(images, s, t, i);
    LayoutCellsCoverReady(images, s, t, i);
    ExportDrawCoversClip(layout, i);
    if i != j {
      CellsDisjoint(images, s, t, i, j);
    }
  }

  // ---------------------------------------------------------------------------
  // Drag end
  // ---------------------------------------------------------------------------

  /**
   * `findIndex` by id: the first position holding the id, or -1 when no
   * image has it.
   */
  function FindIndex(images: seq<LoadedImage>, id: string): (k: int)
    ensures -1 <= k < |images|
    ensures k >= 0 ==> images[k].Id() == id && forall j :: 0 <= j < k ==> images[j].Id() != id
    ensures k == -1 <==> forall j :: 0 <= j < |images| ==> images[j].Id() != id
  {
    if |images| == 0 then -1
    else if images[0].Id() == id then 0
    else
      var k := FindIndex(images[1..], id);
      if k == -1 then -1 else k + 1
  }

  /** What the application is asked to do when a drag ends. */
  datatype DragOutcome =
    | RemoveImage(id: string)
    | Unchanged
    | ReorderImages(oldIndex: int, newIndex: int)

  /**
   * `handleDragEnd`: dropped outside every cell removes the dragged image;
   * dropped on itself does nothing; dropped on another cell reorders from
   * the dragged image's position to the target's.
   */
  function HandleDragEnd(loaded: seq<LoadedImage>, activeId: string, overId: Option<string>): (outcome: DragOutcome)
    ensures outcome.RemoveImage? <==> overId.None?
    ensures outcome.RemoveImage? ==> outcome.id == activeId
    ensures outcome.Unchanged? <==> overId == Some(activeId)
    ensures outcome.ReorderImages? ==>
      -1 <= outcome.oldIndex < |loaded| && -1 <= outcome.newIndex < |loaded|
  {
    if overId.None? then RemoveImage(activeId)
    else if activeId != overId.value then
      ReorderImages(FindIndex(loaded, activeId), FindIndex(loaded, overId.value))
    else Unchanged
  }

  /**
   * The three outcomes: no drop target removes the dragged id, the same id
   * changes nothing, and two ids present in the list reorder between the
   * positions that hold them.
   */
  lemma DragEndOutcomes(loaded: seq<LoadedImage>, activeId: string, overId: Option<string>)
    ensures overId == None ==> HandleDragEnd(loaded, activeId, overId) == RemoveImage(activeId)
    ensures overId == Some(activeId) ==> HandleDragEnd(loaded, activeId, overId) == Unchanged
    ensures overId.Some? && overId.value != activeId ==>
      var outcome := HandleDragEnd(loaded, activeId, overId);
      outcome.ReorderImages? &&
      (outcome.oldIndex == outcome.newIndex ==> outcome.oldIndex == -1) &&
      (outcome.oldIndex >= 0 ==> loaded[outcome.oldIndex].Id() == activeId) &&
      (outcome.newIndex >= 0 ==> loaded[outcome.newIndex].Id() == overId.value)
  {
  }

  /** When both ids are on screen, the reorder indices are real positions. */
  lemma DragEndIndicesInRange(loaded: seq<LoadedImage>, activeId: string, overId: string, i: int, j: int)
    requires 0 <= i < |loaded| && loaded[i].Id() == activeId
    requires 0 <= j < |loaded| && loaded[j].Id() == overId
    requires activeId != overId
    ensures var outcome := HandleDragEnd(loaded, activeId, Some(overId));
      outcome.ReorderImages? &&
      0 <= outcome.oldIndex <= i && 0 <= outcome.newIndex <= j
  {
  }
}
