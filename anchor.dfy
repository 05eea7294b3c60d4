/**
 * The fit/anchor resolver of src/utils/anchor.js: turning a nine-point anchor
 * token into normalised coordinates, scaling an image to cover or to fit a
 * cell, and offsetting the scaled image inside the cell toward the anchor.
 *
 * Nothing else in the application imports this module; it stands alone.
 */
module Anchor {
  import opened Wrappers

  /** Normalised anchor coordinates (`anchorX`, `anchorY`). */
  datatype AnchorPoint = AnchorPoint(anchorX: real, anchorY: real)

  /** Size of the scaled image (`renderW`, `renderH`). */
  datatype RenderSize = RenderSize(renderW: real, renderH: real)

  /** Offset of the scaled image relative to the cell's top-left corner (`renderX`, `renderY`). */
  datatype RenderOffset = RenderOffset(renderX: real, renderY: real)

  /** The three positions along one axis: start, middle, end. */
  predicate OnAnchorGrid(v: real)
  {
    v == 0.0 || v == 0.5 || v == 1.0
  }

  // ---------------------------------------------------------------------------
  // Tokens
  // ---------------------------------------------------------------------------

  /** `parts.join('-')`. */
  function Join(parts: seq<string>): string
    requires |parts| >= 1
  {
    if |parts| == 1 then parts[0] else parts[0] + "-" + Join(parts[1..])
  }

  /** Position of the first dash in `s`. */
  function DashIndex(s: string): (k: nat)
    requires '-' in s
    ensures k < |s| && s[k] == '-' && '-' !in s[..k]
  {
    if s[0] == '-' then 0
    else
      assert s == [s[0]] + s[1..];
      var k := 1 + DashIndex(s[1..]);
      assert s[..k] == [s[0]] + s[1..][..k - 1];
      k
  }

  /**
   * `s.split('-')`: the segments of `s` between dashes, in order (two
   * adjacent dashes give an empty segment). There is
   * always at least one segment (`"".split('-')` is `[""]`), no segment holds a
   * dash, and joining the segments with dashes gives `s` back.
   */
  function Split(s: string): (parts: seq<string>)
    ensures |parts| >= 1
    ensures forall k :: 0 <= k < |parts| ==> '-' !in parts[k]
    ensures Join(parts) == s
    decreases |s|
  {
    if '-' !in s then [s]
    else
      var k := DashIndex(s);
      var rest := Split(s[k + 1..]);
      assert s == s[..k] + "-" + s[k + 1..];
      assert Join([s[..k]] + rest) == s[..k] + "-" + Join(rest);
      [s[..k]] + rest
  }

  /** A dash-free string is a single segment. */
  lemma SplitSegment(p: string)
    requires '-' !in p
    ensures Split(p) == [p]
  {
  }

  /** Splitting `p-t` for a dash-free `p` yields `p` followed by the segments of `t`. */
  lemma SplitAfterSegment(p: string, t: string)
    requires '-' !in p
    ensures Split(p + "-" + t) == [p] + Split(t)
  {
    var s := p + "-" + t;
    assert s[|p|] == '-';
    assert s[..|p|] == p;
    assert s[|p| + 1..] == t;
  }

  /** Split inverts Join on dash-free segments: the round trip the other way. */
  lemma {:induction false} SplitJoin(parts: seq<string>)
    requires |parts| >= 1
    requires forall k :: 0 <= k < |parts| ==> '-' !in parts[k]
    ensures Split(Join(parts)) == parts
  {
    if |parts| == 1 {
      SplitSegment(parts[0]);
    } else {
      SplitJoin(parts[1..]);
      SplitAfterSegment(parts[0], Join(parts[1..]));
      assert [parts[0]] + parts[1..] == parts;
    }
  }

  /**
   * `parseAnchor`: a missing token, the empty token and `center` give the
   * middle; otherwise the first segment decides the vertical coordinate and
   * any `left` (failing that, any `right`) segment decides the horizontal one.
   */
  function ParseAnchor(anchor: Option<string>): (a: AnchorPoint)
    ensures OnAnchorGrid(a.anchorX) && OnAnchorGrid(a.anchorY)
  {
    if anchor.None? || anchor.value == "" || anchor.value == "center" then
      AnchorPoint(0.5, 0.5)
    else
      var parts := Split(anchor.value);
      var anchorY := if parts[0] == "top" then 0.0 else if parts[0] == "bottom" then 1.0 else 0.5;
      var anchorX := if "left" in parts then 0.0 else if "right" in parts then 1.0 else 0.5;
      AnchorPoint(anchorX, anchorY)
  }

  /** A missing token, the empty token and `center` all mean the middle of the cell. */
  lemma ParseAnchorDefault(anchor: Option<string>)
    requires anchor == None || anchor == Some("") || anchor == Some("center")
    ensures ParseAnchor(anchor) == AnchorPoint(0.5, 0.5)
  {
  }

  /**
   * The anchor a token made of the given dash-free segments denotes: vertical
   * from the first segment only, horizontal from any segment with `left`
   * taking precedence over `right`.
   */
  lemma ParseAnchorSegments(parts: seq<string>)
    requires |parts| >= 1
    requires forall k :: 0 <= k < |parts| ==> '-' !in parts[k]
    requires Join(parts) != "" && Join(parts) != "center"
    ensures ParseAnchor(Some(Join(parts))).anchorY ==
      (if parts[0] == "top" then 0.0 else if parts[0] == "bottom" then 1.0 else 0.5)
    ensures ParseAnchor(Some(Join(parts))).anchorX ==
      (if "left" in parts then 0.0 else if "right" in parts then 1.0 else 0.5)
  {
    SplitJoin(parts);
  }

  /**
   * A token any of whose segments is `left` and any other `right`
   * (`left-right`, `right-left`, `top-left-right`, `left-center-right`, ...)
   * anchors to the left.
   */
  lemma LeftBeatsRight(parts: seq<string>)
    requires |parts| >= 1
    requires forall k :: 0 <= k < |parts| ==> '-' !in parts[k]
    requires "left" in parts && "right" in parts
    ensures ParseAnchor(Some(Join(parts))).anchorX == 0.0
  {
    SplitJoin(parts);
    if Join(parts) == "" || Join(parts) == "center" {
      SplitSegment(Join(parts));
      assert false;
    }
    ParseAnchorSegments(parts);
  }

  /**
   * The nine tokens the control panel offers (`top-left` … `bottom-right`,
   * with `center` standing alone for the middle) land on the nine distinct
   * points of the 3×3 grid: the first word picks the row, the second the column.
   */
  lemma NineAnchors(v: string, h: string)
    requires v in {"top", "center", "bottom"} && h in {"left", "center", "right"}
    ensures ParseAnchor(Some(if v == h then v else v + "-" + h)) ==
      AnchorPoint(if h == "left" then 0.0 else if h == "right" then 1.0 else 0.5,
                  if v == "top" then 0.0 else if v == "bottom" then 1.0 else 0.5)
  {
    if v != h {
      var parts := [v, h];
      assert Join(parts) == v + "-" + h;
      assert (v + "-" + h)[|v|] == '-';
      ParseAnchorSegments(parts);
    }
  }

  // ---------------------------------------------------------------------------
  // Scaling
  // ---------------------------------------------------------------------------

  /**
   * `calculateRenderDimensions`: contain scales the image to fit inside the
   * cell, cover scales it to fill the cell; the side that touches the cell is
   * chosen by comparing the image's ratio with the cell's. Every branch keeps
   * the image's aspect ratio.
   */
  function RenderDimensions(cellWidth: real, cellHeight: real, imgRatio: real, cellRatio: real,
                            isContain: bool): (d: RenderSize)
    requires imgRatio != 0.0
    ensures d.renderW == d.renderH * imgRatio
  {
    if isContain then
      if imgRatio > cellRatio then RenderSize(cellWidth, cellWidth / imgRatio)
      else RenderSize(cellHeight * imgRatio, cellHeight)
    else
      if imgRatio > cellRatio then RenderSize(cellHeight * imgRatio, cellHeight)
      else RenderSize(cellWidth, cellWidth / imgRatio)
  }

  /** Cover: the scaled image reaches or overhangs the cell on both axes and matches it exactly on one. */
  lemma CoverFillsCell(cellWidth: real, cellHeight: real, imgRatio: real)
    requires cellWidth > 0.0 && cellHeight > 0.0 && imgRatio > 0.0
    ensures var d := RenderDimensions(cellWidth, cellHeight, imgRatio, cellWidth / cellHeight, false);
      d.renderW >= cellWidth && d.renderH >= cellHeight &&
      (d.renderW == cellWidth || d.renderH == cellHeight)
  {
    var cellRatio := cellWidth / cellHeight;
    assert cellRatio * cellHeight == cellWidth;
    if imgRatio > cellRatio {
      MulLess(cellRatio, imgRatio, cellHeight);
    } else {
      var renderH := cellWidth / imgRatio;
      assert renderH * imgRatio == cellWidth;
      MulLessEq(imgRatio, cellRatio, cellHeight);
      MulMonoInverse(cellHeight, renderH, imgRatio);
    }
  }

  /** Contain: the scaled image stays inside the cell on both axes and matches it exactly on one. */
  lemma ContainFitsCell(cellWidth: real, cellHeight: real, imgRatio: real)
    requires cellWidth > 0.0 && cellHeight > 0.0 && imgRatio > 0.0
    ensures var d := RenderDimensions(cellWidth, cellHeight, imgRatio, cellWidth / cellHeight, true);
      d.renderW <= cellWidth && d.renderH <= cellHeight &&
      (d.renderW == cellWidth || d.renderH == cellHeight)
  {
    var cellRatio := cellWidth / cellHeight;
    assert cellRatio * cellHeight == cellWidth;
    if imgRatio > cellRatio {
      var renderH := cellWidth / imgRatio;
      assert renderH * imgRatio == cellWidth;
      MulLess(cellRatio, imgRatio, cellHeight);
      MulMonoInverse(renderH, cellHeight, imgRatio);
    } else {
      MulLessEq(imgRatio, cellRatio, cellHeight);
    }
  }

  lemma MulLess(a: real, b: real, k: real)
    requires a < b && k > 0.0
    ensures a * k < b * k
  {
  }

  lemma MulLessEq(a: real, b: real, k: real)
    requires a <= b && k > 0.0
    ensures a * k <= b * k
  {
  }

  lemma MulMonoInverse(a: real, b: real, k: real)
    requires k > 0.0 && a * k <= b * k
    ensures a <= b
  {
  }

  // ---------------------------------------------------------------------------
  // Offsets
  // ---------------------------------------------------------------------------

  /**
   * `calculateRenderPosition`: the free space `cell - render` on each axis,
   * scaled by the anchor coordinate. The offset is never outside the free
   * space: an overhanging image is shifted left/up by at most its overhang,
   * a smaller image stays inside the cell.
   */
  function RenderPosition(cellWidth: real, cellHeight: real, renderW: real, renderH: real,
                          anchor: Option<string>): (o: RenderOffset)
    ensures renderW >= cellWidth ==> cellWidth - renderW <= o.renderX <= 0.0
    ensures renderW <= cellWidth ==> 0.0 <= o.renderX && o.renderX + renderW <= cellWidth
    ensures renderH >= cellHeight ==> cellHeight - renderH <= o.renderY <= 0.0
    ensures renderH <= cellHeight ==> 0.0 <= o.renderY && o.renderY + renderH <= cellHeight
  {
    var a := ParseAnchor(anchor);
    RenderOffset(Share(cellWidth - renderW, a.anchorX), Share(cellHeight - renderH, a.anchorY))
  }

  /**
   * `(cell - render) * anchor` on one axis: an anchor fraction of the spare
   * room, which is negative when the image overhangs the cell; the offset
   * stays between no shift and the whole room.
   */
  function Share(room: real, anchor: real): (o: real)
    requires OnAnchorGrid(anchor)
    ensures room >= 0.0 ==> 0.0 <= o <= room
    ensures room <= 0.0 ==> room <= o <= 0.0
  {
    room * anchor
  }

  /** Cover at any anchor: after offsetting, the image still covers the whole cell. */
  lemma CoverPlacementCovers(cellWidth: real, cellHeight: real, imgRatio: real, anchor: Option<string>)
    requires cellWidth > 0.0 && cellHeight > 0.0 && imgRatio > 0.0
    ensures var d := RenderDimensions(cellWidth, cellHeight, imgRatio, cellWidth / cellHeight, false);
      var o := RenderPosition(cellWidth, cellHeight, d.renderW, d.renderH, anchor);
      o.renderX <= 0.0 && o.renderY <= 0.0 &&
      o.renderX + d.renderW >= cellWidth && o.renderY + d.renderH >= cellHeight
  {
    CoverFillsCell(cellWidth, cellHeight, imgRatio);
  }

  /** Contain at any anchor: after offsetting, the image lies wholly inside the cell. */
  lemma ContainPlacementInside(cellWidth: real, cellHeight: real, imgRatio: real, anchor: Option<string>)
    requires cellWidth > 0.0 && cellHeight > 0.0 && imgRatio > 0.0
    ensures var d := RenderDimensions(cellWidth, cellHeight, imgRatio, cellWidth / cellHeight, true);
      var o := RenderPosition(cellWidth, cellHeight, d.renderW, d.renderH, anchor);
      0.0 <= o.renderX && o.renderX + d.renderW <= cellWidth &&
      0.0 <= o.renderY && o.renderY + d.renderH <= cellHeight
  {
    ContainFitsCell(cellWidth, cellHeight, imgRatio);
  }

  /**
   * A 100×100 cell and an image twice as wide as tall: cover renders it
   * 200×100, and the centre anchor shows its middle 100 pixels of width.
   * The token is a parameter equal to `"center"` rather than the literal,
   * which keeps the verifier from comparing string literals and is much
   * cheaper to prove.
   */
  lemma CoverWorkedExample(center: string)
    requires center == "center"
    ensures RenderDimensions(100.0, 100.0, 2.0, 1.0, false) == RenderSize(200.0, 100.0)
    ensures RenderPosition(100.0, 100.0, 200.0, 100.0, Some(center)) == RenderOffset(-50.0, 0.0)
  {
    NineAnchors("center", "center");
  }

  /**
   * The same 200×100 render in the 100×100 cell: `top-left` shows its left
   * half, `bottom-right` its right half. The tokens are built from their
   * words, passed as parameters, for the same reason of proof cost.
   */
  lemma CoverWorkedCorners(top: string, left: string, bottom: string, right: string)
    requires top == "top" && left == "left" && bottom == "bottom" && right == "right"
    ensures RenderPosition(100.0, 100.0, 200.0, 100.0, Some(top + "-" + left)) == RenderOffset(0.0, 0.0)
    ensures RenderPosition(100.0, 100.0, 200.0, 100.0, Some(bottom + "-" + right)) == RenderOffset(-100.0, 0.0)
  {
    NineAnchors(top, left);
    NineAnchors(bottom, right);
  }
}
