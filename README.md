# Image grid combine: geometry model

This project models, in Dafny, the geometry of a browser app that combines
several images into one grid picture. The core has four parts:

- **The layout calculator**, `calculateLayout` in `src/utils/gridLayout.js`.
  From the decoded image sizes and the settings it works out the grid shape.
  It picks one target aspect ratio for all cells and solves the common cell
  size. It places every image row-major and returns the composite's total size.
- **The fit/anchor resolver**, `src/utils/anchor.js`. It turns an anchor
  token such as `top-left` into coordinates in {0, 0.5, 1}². It scales an
  image to cover or to fit a cell. It offsets the scaled image toward the
  anchor.
- **The preview and export geometry**, `src/components/PreviewCanvas.jsx`.
  This covers the on-screen cover fit with a centred crop and the clip and
  destination rectangles of the "Save Image" export. It also covers the
  decision taken when a drag ends.
- **The image-list edits**, `src/App.jsx`. Uploads are appended, a reorder
  is done with two `splice` calls, and a remove filters by id.

Modules:

| module | file | models |
|---|---|---|
| `Wrappers` | `wrappers.dfy` | `Option` for values that may be absent |
| `Media` | `media.dfy` | the uploaded item, the decoded image and its aspect ratio |
| `Anchor` | `anchor.dfy` | `src/utils/anchor.js` |
| `GridLayout` | `grid_layout.dfy` | `src/utils/gridLayout.js` |
| `Preview` | `preview_canvas.dfy` | the fit, export and drag-end code of `src/components/PreviewCanvas.jsx` |
| `Gallery` | `app.dfy` | the list edits of `src/App.jsx` |

Modelling choices:

- Dimensions and ratios are `real`. Counts and indices are `int`.
- `Math.ceil(count / n)` is `(count + n - 1) / n` for `n >= 1`.
- `mode` and `fitMode` stay the strings the settings record holds. Any
  `mode` other than `width_col` takes the fixed-height branch.
- `fitMode` is an `Option`, because App's initial settings do not have one.
  An absent fit mode, like any other value, gives the mean.
- The anchor token is an `Option<string>`. `None` and the empty string are
  both "falsy", as in `!anchor`.
- `anchor.split('-')` is modelled as `Split`. Its contract says that joining
  the parts with dashes gives the token back and that no part holds a dash.
- The export sets `canvas.width = layout.totalWidth`. This goes through the
  WebIDL `unsigned long` conversion: truncation toward zero, then wrapping
  modulo 2^32. The HTML rule for reflected attributes then replaces a value
  above 2^31 − 1 with the default (300 wide, 150 high). `Preview.CanvasDim`
  models both steps. The background fill covers the canvas at that integer
  size.
- The export loop is a `method` with a loop invariant. Its postcondition is
  that the draws it makes are exactly the preview placements moved to each
  cell's position. This is preview/export parity.
- `handleReorder` is a method. It copies the list and performs the two
  `splice` calls with JavaScript's rules for negative and too-large indices.
  Its result is proved equal to the specification function `Move`.

Three points about the code itself, which the model follows:

- Both the preview and the export use cover with a centred crop and never
  read `settings.anchor`; nothing imports `anchor.js`. The resolver is
  modelled on its own, and `Preview.PreviewMatchesAnchor` shows the preview
  equals the resolver's cover fit at the `center` anchor.
- `calculateLayout` has no `max_dimensions` or `original` branch: every fit
  mode other than `portrait` and `landscape`, an absent one included, gives
  the mean.
- The exported canvas has integer sizes (`CanvasDim`), so its size can
  differ from the layout's real-valued totals.

## Model

| member | source | states |
|---|---|---|
| Media.AspectRatio | src/utils/gridLayout.js:83 | an image's ratio is positive and times its height gives its width |
| GridLayout.MaxInt | src/utils/gridLayout.js:17 | `Math.max` of two integers: at least both, and one of them |
| GridLayout.CeilDiv | src/utils/gridLayout.js:18 | the ceiling of count/n is at least 1 when there is an image (exact bounds in CeilDivBounds) |
| GridLayout.CeilDivBounds | src/utils/gridLayout.js:18 | the ceiling q of count/n satisfies (q−1)·n < count ≤ q·n: q lines of n slots hold every image, and the last of the q lines is not empty |
| GridLayout.Ratios | src/utils/gridLayout.js:26 | one positive ratio per image, in order, each width/height of that image |
| GridLayout.Sum | src/utils/gridLayout.js:34 | the `reduce` fold starts from 0: the empty list sums to 0, a single ratio to itself (bounds in SumBounds) |
| GridLayout.Min | src/utils/gridLayout.js:29 | `Math.min(...ratios)` is an element no larger than any element |
| GridLayout.Max | src/utils/gridLayout.js:31 | `Math.max(...ratios)` is an element no smaller than any element |
| GridLayout.SumBounds | src/utils/gridLayout.js:34 | a sum of n values in [lo, hi] lies in [n·lo, n·hi] (induction over the `reduce` fold) |
| GridLayout.MeanWithin | src/utils/gridLayout.js:34 | the sum-over-count mean of values in [lo, hi] lies in [lo, hi] |
| GridLayout.Mean | src/utils/gridLayout.js:34 | the mean lies between the smallest and the largest ratio |
| GridLayout.TargetRatio | src/utils/gridLayout.js:28-35 | the target ratio of any fit mode lies between the smallest and the largest image ratio |
| GridLayout.TargetRatioChoice | src/utils/gridLayout.js:28-35 | `portrait` picks a least ratio of the list, `landscape` a greatest, anything else (absent included) the sum over the count |
| GridLayout.TargetRatioExamples | src/utils/gridLayout.js:28-35 | worked values: mean of 2 and 0.5 is 1.25 with or without a fit mode; over {2, 0.5, 1} portrait gives 0.5, landscape 2 |
| GridLayout.LayoutRatio | src/utils/gridLayout.js:26-35 | the target ratio of a non-empty list of well-sized images is positive |
| GridLayout.SolveGrid | src/utils/gridLayout.js:15-66 | both counts are at least 1 |
| GridLayout.GridShape | src/utils/gridLayout.js:15-66 | `width_col` fixes numCols = max(1, cols) and numRows is the ceiling of count/numCols; every other mode fixes numRows = max(1, rows) and numCols is the ceiling of count/numRows |
| GridLayout.HeightRowEmptyRow | src/utils/gridLayout.js:43-48 | fixed height, 3 rows, 4 images: numCols = 2, so the row-major placement (lines 70-71) leaves the last row, a third of the height, empty |
| GridLayout.GridHasRoom | src/utils/gridLayout.js:15-66 | the solved grid has a slot for every image |
| GridLayout.LayoutFor | src/utils/gridLayout.js:15-93 | for a given target ratio: one cell per image |
| GridLayout.CalculateLayout | src/utils/gridLayout.js:7-94 | no images give a 0×0 layout with no cells; otherwise one cell per image in input order, carrying that image and its own ratio, all cells the same size |
| GridLayout.LayoutThroughTargetRatio | src/utils/gridLayout.js:7-94 | a non-empty layout is the layout for its own target ratio, which is solvable; so every property proved for any positive target ratio holds for `calculateLayout`'s result |
| GridLayout.WidthColGrid | src/utils/gridLayout.js:17-39 | `width_col`: total width is the configured width, columns plus gaps fill it exactly, total height is rows plus gaps, cell height × target = cell width |
| GridLayout.HeightRowGrid | src/utils/gridLayout.js:43-65 | other modes, transposed: total height is the configured height, rows plus gaps fill it, total width is columns plus gaps, cell height × target = cell width |
| GridLayout.PlaceCell | src/utils/gridLayout.js:69-87 | cell i carries its image and that image's ratio, has the grid's common size, records a cellRatio that times cellHeight gives cellWidth, and sits at x = (i mod numCols)·(cellWidth+gap), y = (i div numCols)·(cellHeight+gap) |
| GridLayout.SlotWithinRun | src/utils/gridLayout.js:73-74 | slot k of n ends no later than the run of n slots with n−1 gaps |
| GridLayout.SlotsSeparate | src/utils/gridLayout.js:73-74 | with gap ≥ 0, an earlier slot ends no later than a later slot begins |
| GridLayout.RowBelow | src/utils/gridLayout.js:70 | the row index of an image that fits the grid is below the row count |
| GridLayout.PlacedInside | src/utils/gridLayout.js:69-74 | a placed cell lies inside the grid's totals |
| GridLayout.PlacedApart | src/utils/gridLayout.js:69-74 | cells in distinct slots do not overlap |
| GridLayout.LayoutIsPlaced | src/utils/gridLayout.js:69-93 | for any positive target ratio, cell i of the layout is image i in slot i of the grid solved for that ratio; the totals are the grid's |
| GridLayout.RowMajorPlacement | src/utils/gridLayout.js:70-81 | cell i sits at column i % numCols, row floor(i / numCols), one cell-plus-gap per step, with the common size |
| GridLayout.CellsHaveTargetRatio | src/utils/gridLayout.js:37-84 | every cell's cellRatio equals the target ratio the grid was solved for, in both modes |
| GridLayout.WidthColTotals | src/utils/gridLayout.js:15-39 | `width_col` layout: totalWidth = width = numCols·cellWidth + (numCols−1)·gap, totalHeight = numRows·cellHeight + (numRows−1)·gap |
| GridLayout.HeightRowTotals | src/utils/gridLayout.js:41-65 | other modes: totalHeight = height = numRows·cellHeight + (numRows−1)·gap, totalWidth = numCols·cellWidth + (numCols−1)·gap |
| GridLayout.CellInsideCanvas | src/utils/gridLayout.js:69-74 | with gap ≥ 0 and positive cells, every cell lies in [0,totalWidth]×[0,totalHeight], in both modes |
| GridLayout.CellsDisjoint | src/utils/gridLayout.js:69-74 | with gap ≥ 0 and positive cells, distinct cells do not overlap |
| GridLayout.SquaresTargetRatio | src/utils/gridLayout.js:26-35 | three 500×500 images have target ratio 1 in every fit mode |
| GridLayout.ThreeColumnGrid | src/utils/gridLayout.js:15-39 | ratio 1, width 1200, 3 columns, no gap: one row of three 400×400 cells, total 1200×400 |
| GridLayout.ThreeSquaresExample | src/utils/gridLayout.js:7-94 | three 500×500 images, width 1200, 3 columns, no gap: 400×400 cells at x = 0, 400, 800, y = 0, total 1200×400 |
| Anchor.DashIndex | src/utils/anchor.js:14 | the position found holds the first dash |
| Anchor.Split | src/utils/anchor.js:14 | `split('-')` yields at least one dash-free part, and joining the parts with dashes gives the token back |
| Anchor.SplitJoin | src/utils/anchor.js:14 | splitting dash-joined dash-free parts gives the parts back |
| Anchor.SplitAfterSegment | src/utils/anchor.js:14 | splitting `p-t` for a dash-free p yields p followed by the parts of t |
| Anchor.ParseAnchor | src/utils/anchor.js:6-31 | both coordinates are always 0, 0.5 or 1 |
| Anchor.ParseAnchorDefault | src/utils/anchor.js:10-12 | a missing, empty or `center` anchor gives (0.5, 0.5) |
| Anchor.ParseAnchorSegments | src/utils/anchor.js:14-28 | vertical comes from the first segment only (top 0, bottom 1, else 0.5); horizontal is 0 if any segment is left, else 1 if any is right, else 0.5 |
| Anchor.LeftBeatsRight | src/utils/anchor.js:24-28 | any token of dash-free segments among which are both `left` and `right` anchors left (x = 0) |
| Anchor.NineAnchors | src/utils/anchor.js:6-31 | the nine tokens top/center/bottom × left/center/right land on the matching nine grid points |
| Anchor.RenderDimensions | src/utils/anchor.js:43-67 | all four branches keep the aspect: renderW = renderH · imgRatio |
| Anchor.CoverFillsCell | src/utils/anchor.js:55-64 | cover: renderW ≥ cellWidth and renderH ≥ cellHeight, with one equality |
| Anchor.ContainFitsCell | src/utils/anchor.js:46-54 | contain: renderW ≤ cellWidth and renderH ≤ cellHeight, with one equality |
| Anchor.Share | src/utils/anchor.js:82-83 | an anchor fraction of the spare room lies between no shift and the whole room, for negative room (overhang) as well |
| Anchor.RenderPosition | src/utils/anchor.js:79-86 | an overhanging image is offset by between its overhang and 0; a smaller one stays inside the cell; per axis |
| Anchor.CoverPlacementCovers | src/utils/anchor.js:79-86 | cover at any anchor: the offset image still covers the whole cell |
| Anchor.ContainPlacementInside | src/utils/anchor.js:79-86 | contain at any anchor: the offset image lies wholly inside the cell |
| Anchor.CoverWorkedExample | src/utils/anchor.js:57-83 | 100×100 cell, ratio 2, cover: rendered 200×100, offset (−50, 0) at `center` |
| Anchor.CoverWorkedCorners | src/utils/anchor.js:79-86 | the same 200×100 render in a 100×100 cell: offset (0, 0) at `top-left`, (−100, 0) at `bottom-right` |
| Preview.PreviewPlacement | src/components/PreviewCanvas.jsx:49-52 | the on-screen picture keeps the image's aspect |
| Preview.PreviewMatchesAnchor | src/components/PreviewCanvas.jsx:49-52 | the on-screen size is the resolver's cover size and the offset is the resolver's `center` offset |
| Preview.PreviewCovers | src/components/PreviewCanvas.jsx:49-52 | the on-screen picture covers its whole cell |
| Preview.PreviewCentred | src/components/PreviewCanvas.jsx:49-52 | the crop is centred on both axes, whatever the anchor setting |
| Preview.Truncate | src/components/PreviewCanvas.jsx:135-136 | truncation toward zero: the integer is within 1 of the value, on the zero side |
| Preview.CanvasDim | src/components/PreviewCanvas.jsx:135-136 | the canvas size is always in [0, 2^31 − 1] |
| Preview.CanvasDimInRange | src/components/PreviewCanvas.jsx:135-136 | a total in [0, 2^31) becomes its whole part |
| Preview.CanvasDimNegative | src/components/PreviewCanvas.jsx:135-136 | a total in (−1, 0) gives 0; one whose whole part is in [−2^31, −1] gives the default; one further below wraps to 2^32 plus its whole part |
| Preview.ExportPlan | src/components/PreviewCanvas.jsx:143-150 | one draw per cell, in cell order, each clipped to its own cell rectangle |
| Preview.HandleDownload | src/components/PreviewCanvas.jsx:132-175 | canvas sized by `CanvasDim` of the totals, filled with the background colour; the draws are exactly the on-screen placements moved to each cell (preview/export parity) |
| Preview.ExportDrawCoversClip | src/components/PreviewCanvas.jsx:161-171 | each export draw covers the cell it is clipped to |
| Preview.LayoutCellsCoverReady | src/utils/gridLayout.js:80-84 | for any target ratio with positive cells, every cell has positive size, a positive image ratio and cellRatio = width/height |
| Preview.LayoutDrawable | src/utils/gridLayout.js:83 | every layout of well-sized images can be exported (no zero image ratio) |
| Preview.ExportOfLayout | src/components/PreviewCanvas.jsx:143-171 | exporting a layout with gap ≥ 0 and positive cells, for any target ratio: it is drawable, each clip lies inside the composite, each draw covers its clip, distinct clips do not overlap |
| Preview.FindIndex | src/components/PreviewCanvas.jsx:126-127 | `findIndex`: the first position holding the id, or −1 exactly when no image has it |
| Preview.HandleDragEnd | src/components/PreviewCanvas.jsx:112-130 | a removal exactly when there is no drop target, of the dragged id; nothing exactly when dropped on itself; otherwise a reorder whose indices are positions or −1 |
| Preview.DragEndOutcomes | src/components/PreviewCanvas.jsx:120-129 | no drop target removes the dragged id; the same id changes nothing; another id reorders from the dragged image's position to the target's |
| Preview.DragEndIndicesInRange | src/components/PreviewCanvas.jsx:125-128 | when both ids are on screen the reorder indices are real positions |
| Gallery.NewItems | src/App.jsx:21-26 | one item per file, in file order, with the given id and URL and the file's name |
| Gallery.HandleUpload | src/App.jsx:19-29 | the existing items unchanged, followed by the new items in file order |
| Gallery.HandleRemove | src/App.jsx:45-50 | no kept item has the id; every other item is kept as often as it occurred |
| Gallery.RemoveConcat | src/App.jsx:49 | removing from a concatenation removes from each part |
| Gallery.RemoveAbsent | src/App.jsx:47-49 | removing an id no item has leaves the list unchanged |
| Gallery.RemoveIdempotent | src/App.jsx:49 | removing an id twice equals removing it once |
| Gallery.UploadThenRemove | src/App.jsx:19-50 | uploading one file and removing its fresh id gives the earlier list back |
| Gallery.RelativeIndex | src/App.jsx:39-40 | the position a `splice` start denotes is within the list, and an in-range start is itself |
| Gallery.Splice | src/App.jsx:39-40 | `splice` takes out exactly min(max(deleteCount, 0), items from the start to the end) items, starting at the normalised start; keeps the prefix before it, puts the inserted items there, and keeps the rest |
| Gallery.MoveProperties | src/App.jsx:37-42 | a move keeps length and multiset, puts the moved item at the new index, and leaves all other items in their relative order |
| Gallery.MoveIdentity | src/App.jsx:38-41 | moving an item to its own index changes nothing |
| Gallery.MoveInverse | src/App.jsx:36-43 | moving back undoes a move |
| Gallery.HandleReorder | src/App.jsx:36-43 | the two splices move the item at the normalised old index to the normalised new index of the shortened list |
| Gallery.ReorderSamePosition | src/App.jsx:36-43 | reordering between two equal in-range indices is the identity |
| Gallery.DragOntoAnother | src/components/PreviewCanvas.jsx:125-128 | dragging one image onto another with unique ids reorders from one's index to the other's; the dragged item lands at the target's index and no item is lost |

## Left out

- Image preloading (`src/components/PreviewCanvas.jsx:89-106`) is asynchronous decoding. The model takes each decoded width and height as given, both positive. The 100×100 fallback for a failed decode is not modelled.
- Canvas side effects are not modelled: the pixels drawn by `fillRect` and `drawImage`, `toDataURL`, and the download link with its `Date.now()` file name. Only the canvas size, the fill colour and the rectangles of each draw are modelled.
- A CSS colour string the canvas rejects leaves the previous fill style in place. This is not modelled; the frame records the string as given.
- Zoom, the scroll overflow style, and the dnd-kit sensors and collision detection are not modelled. The drag end is taken as given: an active id and an optional target id.
- IEEE floating point is not modelled. NaN and Infinity would come from zero heights, from `cellHeight == 0` or from a zero image ratio. The model requires positive image sizes (`WellSized`), a non-zero solved cell height (`CellRatioDefined`) and non-zero image ratios (`Drawable`). Rounding error is not modelled either, because `real` is exact.
- The `settings` back-reference stored on each cell (`src/utils/gridLayout.js:85`) is not modelled. No modelled code reads it.
- The `File` handle carried by each uploaded item is not modelled; the model keeps only its name. The ids from `Math.random` and the URLs from `URL.createObjectURL` are parameters. `URL.revokeObjectURL` in remove and clear is not modelled.
- The `onRemove`/`onReorder` presence checks are not modelled; App always passes both callbacks.
- Gallery.HandleReorder: requires a non-empty list and `oldIndex < length`. Without that, the first `splice` removes nothing and the second inserts `undefined` into the list, which the item type cannot hold.
- `src/components/ImageUploader.jsx`, `src/components/ControlPanel.jsx`, `src/components/NumberStepper.jsx` and `vite.config.js` are not part of this model. They are UI widgets and build configuration.
- Settings that are not whole numbers for rows or columns are not modelled. The counts are `int`, as the control panel's `parseInt` produces.
