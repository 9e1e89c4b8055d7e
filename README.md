# MassignApp massing engine in Dafny

MassignApp is a volumetric massing tool. A building is an ordered list of
*spaces*. Each space is a polygon footprint extruded to a height from a base
elevation. A space flagged `isCore` is a void: it is subtracted from the main
(non-core) volumes it overlaps, and it is not counted as floor area.

This project models the geometry engine behind the viewer, the application
shell and the IFC export service, and proves properties of that model. The
modules are:

- `Volumes`: the space record and the `|| 1` / `|| 0` defaults.
- `Polygon`: shoelace area.
- `FaceMap`: the triangle-to-logical-face table of an extruded prism, the face lookup, the highlight colour buffer and face picking.
- `Metrics`: Z-overlap, GFA and per-level area net of the cores that overlap. This covers both copies of the metrics, the viewer's and the application's, and the clipped slabs the renderer subtracts.
- `Levels`: splitting a volume into stacked levels.
- `Edits`: the list edits. These are side push/pull, vertex drag, height set, space type and core height, delete, and the volume, polygon and core completion rules.
- `PlanTransform`: the plan mapping `p / scale + offset`, grid snapping and the two-point calibration.
- `DxfImport`: DXF polyline import. It converts centimetres to metres, drops polylines of one vertex or none, centres on the centroid, rescales conditionally, stages shapes for review and builds "Add All" records.
- `History`: the undo/redo stacks around the single write gate.
- `BottomFace`: bottom-face extraction. It scans for the minimum Z, keeps the points within the tolerance and runs the monotone-chain hull.
- `Export`: the export record mapping, the backend's validation, `close_boundary`, the main/core partition, void selection and the emitted extrusion parameters.

Each event handler is one atomic transition. A handler that can return early
gives `Option<seq<Space>>`. `None` means the write gate was never called, and
`Some(list)` means the gate was called with `list`. Loops in the source become
methods proved equal to a specification function. The colour buffer is
rewritten in place, so it is an `array`.

Numbers are modelled as `real`. An undefined base is `None`. A height is
`Undefined` (no such property), `NaN` (what `parseFloat` stores once a height
field is cleared) or `Val(h)` (`Volumes.Height`). The `height || 1` default
turns `Undefined`, `NaN` and `0` into 1 (`Volumes.HeightOrOne`). The split
handler's destructuring default `height = 1` applies only to `Undefined`; a
`NaN` height fails `z < height` at once, so that volume gives no slice and is
removed (`Levels.SplitHeight`, `Levels.SplitFlatVolume`). The export writes a
`NaN` height as `null` and leaves an undefined one out; the backend rejects
both (`Export.ParseRecord`).

Where the prose description of the system and the code differ, the model
follows the code:

- **DXF rescale threshold.** The code divides the extent by 100 a second time before comparing it with 20, so a drawing is rescaled only when its extent exceeds 2000 m. The comments speak of a 20 m limit. `DxfImport.ScaleFactor` and `DxfImport.RescaledExtent` follow the code.
- **Export origin.** The backend comment says stacking ignores the incoming `baseZ`. The code extrudes every solid from the incoming `baseZ`, and its running `current_baseZ` is never used (`Export.StackedBaseIgnored`).
- **Add All history.** "Add All" calls `onAddSpace` once per pending shape within one event, and every call pushes the same pre-import list onto the history. This is modelled as written (`History.AddAll`).

## Model

| member | source | states |
|---|---|---|
| Volumes.HeightOrOne | frontend/src/components/ThreeDView.js:553 | the height-or-1 default: the result is never 0; an undefined or NaN height reads as 1; a non-zero height reads as itself |
| Volumes.Parsed | frontend/src/components/ThreeDView.js:1265 | `parseFloat` of a field stores a number when the field holds one and NaN otherwise, never an undefined height |
| Volumes.BaseOrZero | frontend/src/components/ThreeDView.js:552 | `baseZ` or 0: an undefined base reads as 0, any other as itself |
| Volumes.Mains | frontend/src/components/ThreeDView.js:892 | the main-volume filter keeps only non-core spaces and is never longer than the list |
| Volumes.Cores | frontend/src/App.js:158 | the core filter keeps only core spaces |
| Volumes.MainsAppend | frontend/src/components/ThreeDView.js:892 | the main-volume filter distributes over concatenation, so order is preserved |
| Volumes.CoresAppend | frontend/src/App.js:158 | the core filter distributes over concatenation |
| Polygon.ShoelaceArea | frontend/src/components/ThreeDView.js:898-905 | the accumulation loop over edges `(i, (i + 1) % n)` returns exactly the shoelace area `abs(sum) / 2` |
| Polygon.Area | frontend/src/components/ThreeDView.js:905 | the area is never negative |
| Polygon.RectangleArea | frontend/src/components/ThreeDView.js:279-284 | the drawn rectangle's area is `abs(x2 - x1) * abs(y2 - y1)` whatever the drag direction |
| Polygon.RectangleAreaBothWindings | frontend/src/components/ThreeDView.js:279-284 | clockwise and counter-clockwise rectangles have the same area `w * h` |
| FaceMap.CapCount | frontend/src/components/ThreeDView.js:58 | `n - 2` triangles per cap; no cap loop iterations when `n < 2` |
| FaceMap.BuildFaceMap | frontend/src/components/ThreeDView.js:57-75 | the three loops with the running triangle counter build exactly the table `FaceMapOf(n)`, which depends only on the vertex count |
| FaceMap.InFaceMap | frontend/src/components/ThreeDView.js:57-75 | the table's keys are exactly `0 .. 2(n-2) + 2n - 1` |
| FaceMap.FaceMapSize | frontend/src/components/ThreeDView.js:57-75 | for `n >= 3` the table has `4n - 4` entries |
| FaceMap.CapTriangles | frontend/src/components/ThreeDView.js:62-68 | face 0 (top) owns exactly triangles `0 .. n-3` and face 1 (bottom) exactly `n-2 .. 2n-5` |
| FaceMap.SideTriangles | frontend/src/components/ThreeDView.js:70-75 | side k (face `2 + k`) owns exactly triangles `2(n-2) + 2k` and `2(n-2) + 2k + 1` |
| FaceMap.NoOtherFaces | frontend/src/components/ThreeDView.js:57-75 | face ids below 0 or above `n + 1`, and the cap ids of a polygon with fewer than 3 vertices, own no triangle |
| FaceMap.TrianglesForFace | frontend/src/components/ThreeDView.js:105-111 | the lookup returns exactly the triangles the table maps to the face, each once and in increasing order |
| FaceMap.HighlightOf | frontend/src/components/ThreeDView.js:124-132 | a non-negative selected face wins with the selection colour; otherwise a non-negative hovered face gets the hover colour; otherwise nothing is highlighted |
| FaceMap.PaintTriangle | frontend/src/components/ThreeDView.js:136-141 | painting a triangle sets its nine components to the colour's r, g, b, and no other entry changes |
| FaceMap.HighlightBuffer | frontend/src/components/ThreeDView.js:114-143 | the buffer has `9 * faceCount` entries; the components of the highlighted face's triangles carry the highlight colour, and every other entry carries the base colour |
| FaceMap.NothingHighlighted | frontend/src/components/ThreeDView.js:120-122 | with neither a selected nor a hovered face the whole buffer is the base colour |
| FaceMap.HoveredFace | frontend/src/components/ThreeDView.js:149-155 | hovering a triangle reports the table's face for it, and nothing for a triangle outside the table |
| FaceMap.PickedFace | frontend/src/components/ThreeDView.js:161-170 | a click selects a face exactly when the triangle is in the table with a non-negative id, and then it selects that id |
| FaceMap.FaceSelect | frontend/src/components/ThreeDView.js:840-851 | a missing or negative face clears the selection; otherwise shape and face are stored, and a side face `f >= 2` also selects edge `f - 2` |
| FaceMap.PickResolvesEdge | frontend/src/components/ThreeDView.js:840-851 | clicking any triangle of an n-gon prism selects its face, and the edge index appears exactly for side triangles and names the side that owns the triangle |
| Metrics.ZOverlap | frontend/src/components/ThreeDView.js:909-916 | the Z-overlap of two volumes is never more than either volume's height |
| Metrics.OverlapPositiveIff | frontend/src/components/ThreeDView.js:908-917 | the overlap `min(tops) - max(bases)` is positive exactly when each volume starts below the other's top and both have positive height |
| Metrics.OverlapBounds | frontend/src/components/ThreeDView.js:914-916 | the overlap is symmetric, and a positive overlap is no more than either volume's height |
| Metrics.GfaDeduction | frontend/src/components/ThreeDView.js:908-931 | the GFA removed by the cores is never negative |
| Metrics.NetGfa | frontend/src/components/ThreeDView.js:932 | the clamped GFA is never negative |
| Metrics.NetArea | frontend/src/components/ThreeDView.js:933 | the clamped per-level area is never negative |
| Metrics.DeductionStep | frontend/src/components/ThreeDView.js:917-930 | each further core adds `coreArea * overlap` to the GFA deduction and `coreArea` to the area deduction when the overlap is positive, and nothing otherwise |
| Metrics.VolumeFigures | frontend/src/components/ThreeDView.js:898-933 | the per-volume loop returns exactly the clamped net GFA and net area |
| Metrics.NoOverlapNoDeduction | frontend/src/components/ThreeDView.js:917 | cores that do not overlap in Z deduct nothing, so GFA is `max(0, area * height)` and area is the shoelace area |
| Metrics.NetBelowGross | frontend/src/components/ThreeDView.js:928-933 | the net figures never exceed the gross figures |
| Metrics.SingleCoreExample | frontend/src/components/ThreeDView.js:906-933 | a 100 m² × 5 m volume with a 10 m² × 10 m core from z=2 has GFA 470 and area 90; with the core from z=10 it has 500 and 100 |
| Metrics.VisibleCoresUpTo | frontend/src/components/ThreeDView.js:893 | the visibility filter keeps only cores |
| Metrics.VisibleCoreIndices | frontend/src/components/ThreeDView.js:893 | the indices, in the whole list, of the cores not hidden increase strictly and lie below k |
| Metrics.VisibleCoreIndicesExact | frontend/src/components/ThreeDView.js:893 | an index i below k is listed exactly when the space at i is a core and `coreVisibility[i] !== false`, for any mix of hidden and shown cores |
| Metrics.VisibleCoresAtIndices | frontend/src/components/ThreeDView.js:893 | the filter keeps exactly the spaces at those indices, in list order |
| Metrics.AllCoresVisible | frontend/src/components/ThreeDView.js:893 | with no core hidden, the visible cores are all the cores in order |
| Metrics.NoCoreVisible | frontend/src/components/ThreeDView.js:893 | with every core hidden, no core is visible |
| Metrics.ComputeViewMetrics | frontend/src/components/ThreeDView.js:890-938 | the viewer's memo: one entry per main volume with net GFA and net area against the visible cores, and height-or-1; totalGFA is the sum; totalLevels is the main count |
| Metrics.ComputeAppMetrics | frontend/src/App.js:155-215 | the application's memo: one entry per space, cores included, with idx, name and isCore; each main volume is net of all cores; the three totals sum only non-core entries; totalLevels is the main count |
| Metrics.CoreEntryUndeducted | frontend/src/App.js:173-175 | a core's own entry is `max(0, area * height)` with its full area: nothing is subtracted from a core |
| Metrics.AppTotalOverMains | frontend/src/App.js:203 | the application's non-core GFA total equals the sum of net GFA over the main volumes |
| Metrics.ViewTotalOverMains | frontend/src/components/ThreeDView.js:934 | the viewer's total is the sum of net GFA over the main volumes |
| Metrics.MainIndices | frontend/src/App.js:206 | the p-th main volume is at application index `MainIndices(spaces)[p]`, so viewer entry p (whose `idx` is the position among the main volumes) and application entry `MainIndices(spaces)[p]` describe the same space |
| Metrics.ViewAgreesWithApp | frontend/src/components/ThreeDView.js:890-938 | with every core visible, the two copies agree on totalGFA and totalLevels, and on each main volume's GFA, area and height |
| Metrics.ViewEntryAgrees | frontend/src/components/ThreeDView.js:896-935 | with every core visible, a viewer entry equals the application's entry for the same space |
| Metrics.HiddenCoresIgnored | frontend/src/components/ThreeDView.js:893 | with every core hidden, the viewer reports each main volume's gross figures |
| Metrics.CutWithinBoth | frontend/src/components/ThreeDView.js:567-584 | each slab the renderer subtracts uses the core's profile, starts at `max(bases)`, has positive depth `overlapHeight` and lies within both volumes' Z extents |
| Metrics.CarvedVolumeIsDeduction | frontend/src/components/ThreeDView.js:550-590 | the total volume of the subtracted slabs equals the GFA deduction the metrics apply |
| Levels.OffsetIsProduct | frontend/src/components/ThreeDView.js:1034 | after k steps of `z += levelInterval`, z is `k * interval` |
| Levels.SliceCountSpec | frontend/src/components/ThreeDView.js:1034 | the loop makes a slice k exactly when `k * interval < height` |
| Levels.LevelIndex | frontend/src/components/ThreeDView.js:1037 | slice k's `Math.floor(z / levelInterval)` is k, so its name suffix is `(L k+1)` |
| Levels.SlicesUpTo | frontend/src/components/ThreeDView.js:1034-1043 | the first k pushes produce slices 0 .. k-1 in order |
| Levels.BuildSlices | frontend/src/components/ThreeDView.js:1033-1043 | the push loop builds exactly the slice list `LevelSlices` |
| Levels.SliceShape | frontend/src/components/ThreeDView.js:1035-1042 | every slice has height in `(0, interval]`, the same boundary, no core flag, its level name and base `baseZ + k * interval` |
| Levels.SlicesStack | frontend/src/components/ThreeDView.js:1035-1040 | the first slice starts at the volume's base, and each later one starts where the previous one ends |
| Levels.SliceHeightsSum | frontend/src/components/ThreeDView.js:1034-1035 | the slice heights sum to the original height (0 for a non-positive height) |
| Levels.SplitExample | frontend/src/components/ThreeDView.js:1034-1043 | a 7 m volume at 3 m interval splits into 3, 3 and 1 at bases 0, 3 and 6 |
| Levels.SplitHeight | frontend/src/components/ThreeDView.js:1030-1034 | the split compares with 1 for an undefined height, with the height itself when it is a number (0 stays 0), and with nothing for NaN |
| Levels.SplitMissingHeight | frontend/src/components/ThreeDView.js:1030 | a volume without a height is split as if it were 1 high |
| Levels.SplitAllLevels | frontend/src/components/ThreeDView.js:1027-1032 | the split does nothing with no valid selection, a non-positive interval or a core |
| Levels.SplitSplice | frontend/src/components/ThreeDView.js:1045-1053 | the elements before and after the selected index are untouched, and the selected element is replaced by its slices in order |
| Levels.SplitFlatVolume | frontend/src/components/ThreeDView.js:1030-1053 | with height `<= 0` or NaN no slice is produced, so the volume is removed from the list |
| Levels.SplitKeepsCores | frontend/src/components/ThreeDView.js:1044-1053 | the split leaves the list of cores unchanged |
| Edits.ReplaceAt | frontend/src/components/ThreeDView.js:656-661 | `prev.map` with an index test changes exactly one position and keeps the length |
| Edits.ShiftEdge | frontend/src/components/ThreeDView.js:869-885 | the moved boundary has as many vertices as before |
| Edits.ShiftEdgeCopy | frontend/src/components/ThreeDView.js:869-885 | the copy-and-assign on the boundary array returns exactly `ShiftEdge` |
| Edits.ShiftEdgeMovesOnlyEdge | frontend/src/components/ThreeDView.js:872-884 | only vertices e and `(e + 1) % n` move, both by the same offset; the boundary length and all other vertices are unchanged |
| Edits.ShiftEdgeKeepsEdgeVector | frontend/src/components/ThreeDView.js:883-884 | the edge is translated: its vector is unchanged |
| Edits.ShiftEdgePerpendicular | frontend/src/components/ThreeDView.js:877-880 | the offset `(-dy, dx) * delta / len` is perpendicular to the edge |
| Edits.ShiftEdgeDistance | frontend/src/components/ThreeDView.js:878-883 | when len is the edge length, the edge moves exactly delta |
| Edits.ShiftDegenerateEdge | frontend/src/components/ThreeDView.js:878 | Falling back to 1 for a zero `len` keeps a zero-length edge in place instead of dividing by zero |
| Edits.ExtrudeSide | frontend/src/components/ThreeDView.js:864-866 | side push/pull does nothing exactly when no volume is selected or the face is missing or below 2 |
| Edits.ExtrudeSideFrame | frontend/src/components/ThreeDView.js:864-886 | only the selected volume changes, and of it only the boundary, keeping its length; that boundary is the old one with edge `faceIdx - 2` shifted (`ShiftEdge`), and with no such volume or edge the list is unchanged |
| Edits.ExtrudeSideMovesOnlyEdge | frontend/src/components/ThreeDView.js:864-886 | of the selected volume only vertices e and (e + 1) % n move, with e = `faceIdx - 2`, both by the same offset along the edge normal, and the edge vector is kept |
| Edits.DragVertex | frontend/src/components/ThreeDView.js:641 | the drag does nothing without a dragged shape and vertex, and keeps the list length |
| Edits.DragMovesOneVertex | frontend/src/components/ThreeDView.js:656-661 | the dragged vertex goes to the point; every other vertex, field and space is unchanged |
| Edits.PushPull | frontend/src/components/ThreeDView.js:853-861 | with a selected volume, its height becomes the new height and nothing else changes; without one nothing happens |
| Edits.SteppedHeight | frontend/src/components/ThreeDView.js:1361 | the up/down buttons request at least 0.1 m, and exactly `(height or 1) + step` when that is at least 0.1 |
| Edits.SetCoreHeight | frontend/src/App.js:319-322 | the core height field sets that space's height to `parseFloat` of the input (NaN when it is cleared) and changes nothing else; an index out of range changes nothing |
| Edits.SetSpaceType | frontend/src/App.js:347-351 | the space-type selector sets that space's type and changes nothing else |
| Edits.KeptIndices | frontend/src/components/ThreeDView.js:796 | the kept indices increase strictly and are exactly those below n that are not dropped |
| Edits.RemoveIndicesKeeps | frontend/src/components/ThreeDView.js:796 | the filter keeps exactly the spaces at the kept indices, in order |
| Edits.DeleteSelected | frontend/src/components/ThreeDView.js:790-800 | Delete does nothing outside volume mode, or with neither a valid selected volume nor a multi-selection |
| Edits.RemoveOne | frontend/src/components/ThreeDView.js:799 | single delete removes exactly the selected index: `spaces[..i] + spaces[i+1..]` |
| Edits.DeleteMultiKeeps | frontend/src/components/ThreeDView.js:795-796 | multi-delete takes precedence and keeps, in order, exactly the spaces whose index is not selected |
| Edits.StackedBase | frontend/src/components/ThreeDView.js:814-818 | a new volume starts at the top (`baseZ || 0` plus `height || 1`) of the selected volume, or at 0 without a valid selection |
| Edits.CoreBase | frontend/src/components/ThreeDView.js:1012-1016 | a new core starts at the base of the volume it is drawn for, or at 0 without one |
| Edits.Truthy | frontend/src/components/ThreeDView.js:1068 | `name && height` fails for an empty name, a NaN height or a zero height, and holds otherwise |
| Edits.CompleteRectangle | frontend/src/components/ThreeDView.js:814-821 | a named rectangle with a non-zero height is appended with base at the selected volume's top (0 without a selection); otherwise nothing is added |
| Edits.CompletePolygon | frontend/src/components/ThreeDView.js:1059-1070 | a polygon of at least 3 points with a name and a non-zero height is appended stacked on the selected volume; otherwise nothing is added |
| Edits.CompleteCore | frontend/src/components/ThreeDView.js:1006-1018 | a core with a name and a non-zero height is appended as a core at its pending volume's base (0 without one); otherwise nothing is added |
| Edits.StackedVolumeClearsSelected | frontend/src/components/ThreeDView.js:816-818 | a volume stacked on the selected one has no Z-overlap with it |
| Edits.CoreOverlapsItsVolume | frontend/src/components/ThreeDView.js:1013-1018 | a core drawn for a volume overlaps it by `min(volume height, core height)` |
| PlanTransform.Round | frontend/src/components/ThreeDView.js:260 | `Math.round` gives the integer within half a unit, halves rounded up |
| PlanTransform.SnapWithinHalfCell | frontend/src/components/ThreeDView.js:259-262 | a snapped coordinate is at most half a grid cell from the original |
| PlanTransform.SnapIdempotent | frontend/src/components/ThreeDView.js:260-261 | snapping twice equals snapping once |
| PlanTransform.SnapToUnitGrid | frontend/src/components/ThreeDView.js:610 | on the 1-unit grid a snapped coordinate is the rounded value, within 0.5 |
| PlanTransform.SnapOnGrid | frontend/src/components/ThreeDView.js:260-261 | a snapped coordinate is a whole number of grid cells |
| PlanTransform.PlanPoint | frontend/src/components/ThreeDView.js:255-258 | the plan mapping `p / scale + offset` is undone by the inverse map for every non-zero scale |
| PlanTransform.PlanRoundTrip | frontend/src/components/ThreeDView.js:255-258 | the other direction: the plan mapping undoes the inverse map, so with `PlanPoint` the two are inverse bijections for every non-zero scale |
| PlanTransform.WorldPoint | frontend/src/components/ThreeDView.js:254-263 | without snapping the point is the plan-mapped hit (the raw hit without a plan image); with snapping both coordinates are on the grid |
| PlanTransform.WorldPointNearUnsnapped | frontend/src/components/ThreeDView.js:370-381 | snapping moves each coordinate of the cursor position by at most half a cell |
| PlanTransform.CalibrationClick | frontend/src/components/ThreeDView.js:952-967 | without a plan image a click is ignored; otherwise the mapped point starts a pair, completes the pending one, or starts over after a full pair |
| PlanTransform.FinishCalibration | frontend/src/components/ThreeDView.js:987-1000 | with two points in calibrate mode, the scale becomes `realDist / dist` when realDist is a non-zero number and `dist > 0`, and the points and tool are cleared in every case |
| PlanTransform.CalibrationKeepsScale | frontend/src/components/ThreeDView.js:961-994 | calibration never holds more than two points and never makes the scale 0 |
| PlanTransform.CalibrationCycle | frontend/src/components/ThreeDView.js:963-967 | three clicks go through one point, a pair, then a fresh single point |
| PlanTransform.CalibratedDistance | frontend/src/components/ThreeDView.js:990-994 | after calibration the picked distance times the new scale is the typed distance |
| DxfImport.LayerPolylines | frontend/src/components/ThreeDView.js:1155-1158 | keeps exactly the LWPOLYLINE and POLYLINE entities on the chosen layer |
| DxfImport.LayerIndices | frontend/src/components/ThreeDView.js:1155-1158 | the positions of the layer's polylines in the entity list increase strictly, and each holds a wanted polyline |
| DxfImport.LayerAtIndices | frontend/src/components/ThreeDView.js:1155-1158 | the p-th polyline of the layer is the entity at the p-th of those positions |
| DxfImport.ToMetres | frontend/src/components/ThreeDView.js:1162-1164 | each coordinate is divided by 100, and the vertex count is kept |
| DxfImport.Converted | frontend/src/components/ThreeDView.js:1160-1166 | each polyline becomes a boundary with as many points as its `vertices` (else `points`, else none) |
| DxfImport.MultiVertex | frontend/src/components/ThreeDView.js:1167 | keeps exactly the boundaries with more than one vertex |
| DxfImport.MultiVertexIndices | frontend/src/components/ThreeDView.js:1167 | the positions of the kept boundaries increase strictly, and each holds a boundary of more than one vertex |
| DxfImport.MultiVertexAtIndices | frontend/src/components/ThreeDView.js:1167 | the p-th kept boundary is the boundary at the p-th of those positions |
| DxfImport.Extent | frontend/src/components/ThreeDView.js:1172-1178 | the running min/max loop returns the minimum and maximum x and y of all points |
| DxfImport.SeqMinAttained | frontend/src/components/ThreeDView.js:1174-1175 | the minimum is one of the coordinates |
| DxfImport.SeqMaxAttained | frontend/src/components/ThreeDView.js:1176-1177 | the maximum is one of the coordinates |
| DxfImport.ScaleFactor | frontend/src/components/ThreeDView.js:1185-1192 | the scale is positive, at most 1, and differs from 1 exactly when `max(width, height) / 100 > 20` |
| DxfImport.RescaledExtent | frontend/src/components/ThreeDView.js:1187-1190 | when the rescale applies, the rescaled extent is 2000 |
| DxfImport.ImportPolylines | frontend/src/components/ThreeDView.js:1160-1192 | every imported boundary has more than one vertex |
| DxfImport.ImportKeepsVertexCounts | frontend/src/components/ThreeDView.js:1155-1192 | the i-th imported boundary comes from its own wanted polyline, at a position of the entity list that increases with i, and has that polyline's vertex count, at least two |
| DxfImport.Normalise | frontend/src/components/ThreeDView.js:1169-1192 | centring and the optional rescale keep the number of boundaries and each boundary's vertex count |
| DxfImport.CentredSumsToZero | frontend/src/components/ThreeDView.js:1180-1183 | after centring on the centroid all coordinates sum to (0, 0) |
| DxfImport.NormaliseCentred | frontend/src/components/ThreeDView.js:1169-1192 | the sums stay (0, 0) after the optional rescale |
| DxfImport.ImportIsCentred | frontend/src/components/ThreeDView.js:1147-1194 | the whole import leaves the coordinates summing to (0, 0) |
| DxfImport.FlattenCentred | frontend/src/components/ThreeDView.js:1183 | centring each boundary is centring the flattened point list |
| DxfImport.SumScaled | frontend/src/components/ThreeDView.js:1191 | scaling every point scales their sum |
| DxfImport.PendingShapes | frontend/src/components/ThreeDView.js:1196-1203 | one pending shape per boundary, with that boundary, height 3 and no core flag |
| DxfImport.EditPending | frontend/src/components/ThreeDView.js:1260-1271 | a review edit changes only the shape at its index |
| DxfImport.AddedRecords | frontend/src/components/ThreeDView.js:1228-1235 | "Add All" builds one record per pending shape, in order (the handler then empties the pending list, line 1237) |
| DxfImport.ImportedVolumes | frontend/src/components/ThreeDView.js:1196-1235 | unedited imports become main volumes with the imported boundary, height 3 and base 0 |
| DxfImport.NoCoresKept | frontend/src/components/ThreeDView.js:1234 | records with no core flag are all main volumes |
| History.Undo | frontend/src/App.js:218-223 | on empty history nothing changes; otherwise the top of history becomes current, history shrinks by one and the old list goes to the front of future |
| History.Redo | frontend/src/App.js:224-229 | on empty future nothing changes; otherwise the front of future becomes current and the old list goes on top of history |
| History.Commit | frontend/src/App.js:232-236 | the gate pushes the current list, clears future and installs the new list |
| History.Apply | frontend/src/App.js:232-236 | a handler that returns early changes nothing; one that calls the gate commits its list |
| History.AddSpace | frontend/src/App.js:268 | `onAddSpace` appends the space through the gate |
| History.UndoRedoOnEmpty | frontend/src/App.js:218-229 | undo with no history and redo with no future change nothing |
| History.UndoRedoRoundTrip | frontend/src/App.js:218-229 | undo then redo restores current list, history and future exactly, and so does redo then undo |
| History.UndoKeepsTimeline | frontend/src/App.js:218-223 | undo keeps the ordered list of snapshots and their number history length + future length + 1 |
| History.RedoKeepsTimeline | frontend/src/App.js:224-229 | redo keeps the ordered list of snapshots and their number |
| History.CommitClearsFuture | frontend/src/App.js:232-236 | after an edit there is nothing to redo, and undo brings back the replaced list |
| History.EarlyReturnNoHistory | frontend/src/App.js:232-236 | the history changes exactly when the handler called the gate |
| History.AddAll | frontend/src/components/ThreeDView.js:1227-1238 | "Add All" of k records appends them all, clears the redo stack, keeps the old history and pushes k copies of the pre-import list; with no records nothing changes |
| History.AddAllUndo | frontend/src/components/ThreeDView.js:1227-1238 | "Add All" of k records appends them all and pushes k copies of the pre-import list, so one undo already restores it and k - 1 more undos repeat it |
| History.AddAllAppends | frontend/src/components/ThreeDView.js:1227-1238 | the list "Add All" leaves is the one adding the records one event at a time would leave |
| BottomFace.MinZ | frontend/src/App.js:93-98 | the minimum is at most every offset Z |
| BottomFace.MaxZ | frontend/src/App.js:93-98 | the maximum is at least every offset Z |
| BottomFace.MinZAttained | frontend/src/App.js:93-98 | the minimum is attained by some vertex |
| BottomFace.ZRange | frontend/src/App.js:93-98 | the scan gives the minimum and maximum offset Z, and no range for a mesh without vertices |
| BottomFace.BottomPoints | frontend/src/App.js:100-104 | keeps exactly the (x, y) of vertices within 1e-4 of the minimum Z |
| BottomFace.BottomNonEmpty | frontend/src/App.js:100-104 | at least one vertex lies at the minimum Z |
| BottomFace.SortLex | frontend/src/App.js:107 | the sort orders by x then y and is a permutation |
| BottomFace.Chain | frontend/src/App.js:110-120 | each chain consists of input points in input order, begins with the first point and ends with the last, and every three consecutive entries make a strict left turn |
| BottomFace.ExtractBottomFace | frontend/src/App.js:87-122 | the range is the Z scan; the boundary is empty exactly without vertices or with fewer than 3 bottom points; otherwise it is lower and upper chains without their last points, both left-turning and sharing their end points, and every hull point is a bottom point |
| BottomFace.IncreasingBound | frontend/src/App.js:110-120 | a chain's strictly increasing input positions number no more than the inputs |
| Export.RecordOf | frontend/src/App.js:61-66 | the export record keeps name, boundary and the raw height; base is `baseZ` or 0; isCore is `!!isCore` |
| Export.Records | frontend/src/App.js:127-133 | one record per space, in order |
| Export.ParseRecord | backend/main.py:24-29 | a record is accepted exactly when its height is a number; a missing height fails as missing and a NaN height (sent as `null`) fails as null, both with the record's index |
| Export.ParseAll | backend/main.py:31-35 | an accepted request holds one input per record |
| Export.ExportValidates | backend/main.py:24-35 | a list whose spaces all have numeric heights is accepted as those spaces; otherwise it fails at the first space whose height is missing or NaN |
| Export.ClearedHeightRejected | frontend/src/App.js:319-322 | clearing a core's height field stores NaN: the metrics then read the core as 1 high, while its export record is rejected and so is the whole export |
| Export.MainInputs | backend/main.py:64 | `main_spaces` is no longer than the input and holds only non-core inputs taken from it |
| Export.CoreInputs | backend/main.py:65 | `core_spaces` is no longer than the input and holds only core inputs taken from it |
| Export.PartitionExact | backend/main.py:64-65 | every space goes to exactly one of the main and core lists |
| Export.MainInputsAppend | backend/main.py:64 | the main list is taken in order |
| Export.CoreInputsAppend | backend/main.py:65 | the core list is taken in order |
| Export.SamePartition | backend/main.py:64-65 | the backend partition of the validated spaces is the validated frontend partition |
| Export.Close | backend/main.py:67-70 | the result starts and ends with `boundary[0]`; a closed boundary is unchanged; otherwise exactly `boundary[0]` is appended |
| Export.CloseIdempotent | backend/main.py:67-70 | closing twice equals closing once and adds at most one point |
| Export.Overlap | backend/main.py:84-90 | the backend's Z-overlap is never more than either space's height |
| Export.VoidsFor | backend/main.py:81-97 | there are no more voids than cores |
| Export.VoidsSound | backend/main.py:82-97 | each void is the closed boundary of a core with positive Z-overlap that the main polygon contains |
| Export.VoidsComplete | backend/main.py:82-97 | every such core's closed boundary is among the voids |
| Export.NoOverlapNoVoids | backend/main.py:84-96 | cores with no Z-overlap give no void |
| Export.SolidsOf | backend/main.py:72-110 | one solid per main space |
| Export.GenerateSolids | backend/main.py:57-128 | the main loop emits exactly `SolidsOf`, and its running `current_baseZ` is the sum of `height - 0.001` |
| Export.SolidsUseIncomingBase | backend/main.py:73-110 | solid i is named after main space i; its outer profile is the closed boundary, its origin Z is the space's `baseZ` and its depth is the space's height |
| Export.StackedBaseIgnored | backend/main.py:57-58 | two spaces at base 0 both extrude from 0 although `current_baseZ` moved to `height - 0.001` |

## Left out

- Rendering and interaction: meshes, materials, camera, gizmos, the preview rectangle, level planes, the plan image render and drag selection. These are display only.
- Raycasting from screen to the ground plane is left out. It is a foreign THREE call, so the hit point is a parameter of `PlanTransform.WorldPoint` and `Edits.DragVertex`.
- Square roots are parameters, since Dafny's reals have no square root. The calibration distance is `dist` in `PlanTransform.FinishCalibration`. The edge length is `len` in `Edits.ShiftEdge`; `Edits.ShiftEdgeDistance` assumes `len * len` is the squared edge length.
- Floating-point rounding is not modelled; numbers are exact reals. `Math.round` is `Floor(x + 0.5)`.
- `prompt`, `confirm`, `alert`, `setTimeout`, event listeners and keyboard shortcuts are left out. A typed value is a parameter of type `Option<real>`, where `None` stands for a `parseFloat` that found no number. Where the typed value only passes a `name && height` gate it is not stored, so `None` just fails the gate. Where it is stored (the pending-shape and core height fields), `Volumes.Parsed` turns `None` into a `NaN` height.
- React batching and stale closures are left out. Each handler is one atomic transition. The exception is "Add All", whose repeated gate calls within one event are modelled as written.
- BottomFace.ZRange: the loop's `±Infinity` start for an empty mesh is an absent range (`None`), not a pair of infinities.
- Edits.ExtrudeSide: an out-of-range edge gives the unchanged list, where the source throws a TypeError at `p1[0]`. An out-of-range volume index leaves the list unchanged in the source too.
- Edits.DragVertex: an out-of-range vertex leaves the list unchanged. JavaScript would extend the array.
- FaceMap.HighlightBuffer: writes for triangles at or beyond `faceCount` are dropped, where JavaScript would grow the array.
- FaceMap.HighlightBuffer: the base colour is a parameter, because the conversion of `#4A6FA5` to linear RGB is a THREE call. The startup debug colouring per face is display only.
- `THREE.ExtrudeGeometry` triangulation and `CSG.subtract` are foreign libraries. Only the overlap decision and the clipped slab parameters are modelled (`Metrics.CutFor`, `Metrics.CutWithinBoth`).
- BottomFace.ExtractBottomFace: the hull length is proved to be at most `2 * |verts| - 2`, not at most `|verts|`. The tighter bound needs convex-position geometry.
- DxfImport.RescaledExtent: the rescaled extent is tied to 2000 arithmetically. It is not re-measured on the rescaled points.
- DXF text parsing, PDF rendering, file reading, the axios POST and the blob download are I/O or foreign parsers. The import starts from parsed entities.
- Shapely `contains`, `is_valid` and `buffer(0)` are one uninterpreted predicate over the closed main and core boundaries (`Export.Contains`).
- ifcopenshell entity creation, storey and placement, temporary files, CORS and the HTTP layer are left out.
- Pydantic validation is modelled only for the required height. The validator reports every failing record; `Export.ParseAll` reports only the first one, which decides acceptance all the same. The Python `getattr(s, 'isCore', False)` default is the frontend's `!!isCore`.
- The frontend metrics read height with `|| 1`, while the backend uses the raw height. Each side follows its own code, and no lemma relates them.
- The toolbar list, the colour palettes and the camera fit are display only.
