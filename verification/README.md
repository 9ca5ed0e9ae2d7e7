# TravFloorPlan placement engine — a Dafny model

This project models the core of the TravFloorPlan floor-plan editor:

- the closed shape catalog: seven singleton object types (`Room`, `CircularRoom`,
  `TriangularRoom`, `Door`, `Window`, `Table`, `Chair`), each with a name and one of three
  singleton palette groups (`Rooms`, `Doorways`, `Others`), and the `AllTypes` enumeration
  (`object_group.dfy`, `object_type.dfy`);
- the catalog-level placed object, its property defaults and its area in grid cells
  (`placed_object.dfy`);
- the integer geometry of the editor form: the rectangle spanned by a drag, grid snapping
  with .NET's round-half-to-even, and angle normalisation (`geometry.dfy`);
- the editor form's placement engine: its state fields, the keyboard handler (R/E rotate the
  next placement by a quarter turn, G toggles snapping), the mouse down/move/up state machine
  that places objects, and the topmost-first hit test behind click selection
  (`form_logic.dfy`).

Values are immutable datatypes and every event handler is a pure transition
`FormState -> FormState`. `Step` and `Run` apply keyboard, pointer and palette events in order,
and `ReachableStatesValid` proves the invariant that every state those events reach from
start-up keeps.

Modelling decisions:

- The form file declares its own five-kind enum (`Wall`, `Door`, `Window`, `Table`, `Chair`) and
  its own three-field placed-object record. Inside the form these shadow the catalog classes.
  The state machine is modelled over them (`FormObjectType`, `FormObject`). The catalog's
  seven-type `ObjectType` and full `PlacedObject` are modelled separately, as the code has them.
- The area code tests for `ObjectType.TriangleRight` and `ObjectType.TriangleIso`. The catalog
  does not declare either of them; its only triangle is `TriangularRoom`. The model classifies
  triangles with `IsTriangle`, which holds for `TriangularRoom` alone.
- The selected object is kept as its index in `objects`. The source keeps a reference. This
  engine only ever appends objects, so an index names the same object for the life of the state.
- `PointInRotatedRect` builds a GDI+ path, rotates it and asks `IsVisible`. The model takes it
  as a parameter `inside(point, rect, degrees)`. The hit test is proved correct with respect to
  any such function: it returns the highest-index object `inside` accepts.
- Angles are whole degrees (`int`). The placement rotation `_currentRotation` starts at 0 and
  only moves in ±90 steps, so it is always whole, and every object the mouse places copies it.
  Rotations typed into the property grid can be fractional; those edits are not modelled. `NormalizeAngle` follows C#'s float `%`: a truncated
  remainder that carries the sign of the dividend, plus 360 when it is negative.
- `Math.Round(double)` rounds an exact half to the even neighbour. `RoundQuotient` models this
  exactly on integers, from the floored quotient and the remainder.
- The area is a `real`. `Pi` is a positive real constant.

Facts of the code that a reader might expect otherwise:

- The fallback area for doors, windows, tables and chairs is the rectangle formula, not 0.
- A placed door keeps the dragged rectangle; it is not forced to one grid cell.
- The catalog has seven types, with a single triangular room.
- Snapping uses the form's grid for every kind; there is no smaller snap size for doorways.

## Model

| member | source | states |
|---|---|---|
| ObjectGroups.ObjectGroup.ToString | ObjectGroup.cs:7 | the string shown is the group's name, and looking that name up gives back the same group |
| ObjectGroups.AllGroups | ObjectGroup.cs:9-11 | exactly three groups exist, each listed once, in the declaration order Rooms, Doorways, Others |
| ObjectGroups.GroupNamesDistinct | ObjectGroup.cs:9-11 | the names "Rooms", "Doorways", "Others" are pairwise distinct: equal names mean the same group |
| ObjectTypes.ObjectType.ToString | ObjectType.cs:10 | the string shown is the type's name, and looking that name up in the catalog gives back the same type |
| ObjectTypes.AllTypes | ObjectType.cs:20-24 | the enumeration has seven entries, every type appears, none repeats, the entries follow the declaration order Room, CircularRoom, TriangularRoom, Door, Window, Table, Chair, so rooms come before the doorway and the doorway before the others |
| ObjectTypes.TypeNamesDistinct | ObjectType.cs:12-18 | the seven names, each equal to its identifier, are pairwise distinct |
| ObjectTypes.GroupMembership | ObjectType.cs:12-18 | Room, CircularRoom and TriangularRoom are Rooms; Door alone is a Doorway; Window, Table and Chair are Others |
| ObjectTypes.MembersOf | ObjectType.cs:12-24 | the members of a group listed by the enumeration are exactly the types of that group, in enumeration order, and every group has at least one |
| ObjectTypes.DoorwaysIsDoorOnly | ObjectType.cs:15 | the Doorways group contains exactly one type, Door |
| PlacedObjects.NewPlacedObject | PlacedObject.cs:10-32 | a fresh object is not mirrored and has line width 4, a black outline and a transparent (alpha 0) background; it has no name, no rotation and no grid size for area |
| PlacedObjects.IsTriangle | PlacedObject.cs:48 | the triangle test of the area code holds exactly for the one room type that is neither the rectangular nor the circular room, `TriangularRoom` |
| PlacedObjects.AreaGrid | PlacedObject.cs:41 | the grid used for the area is at least 1: the stored size when positive, otherwise 1 |
| PlacedObjects.AreaGridUnits | PlacedObject.cs:37-52 | the area is non-negative for every type whenever width and height are |
| PlacedObjects.RoomAreaIsCellProduct | PlacedObject.cs:42-45 | a room measures its width in cells times its height in cells |
| PlacedObjects.CircularAreaIsQuarterPi | PlacedObject.cs:46-47 | a circular room measures pi/4 of its bounding rectangle, which is strictly less when the rectangle is non-empty |
| PlacedObjects.TriangleAreaIsHalf | PlacedObject.cs:48-49 | a triangular room measures exactly half of its bounding rectangle |
| PlacedObjects.OtherTypesUseRectangleArea | PlacedObject.cs:50 | doors, windows, tables and chairs measure the same as a room with the same rectangle, which is positive for a non-empty rectangle |
| PlacedObjects.NonPositiveGridMeansOne | PlacedObject.cs:41 | a stored grid size of 0 or less measures the same as grid size 1 |
| PlacedObjects.AreaDependsOnSizeOnly | PlacedObject.cs:41-50 | the area depends only on the type, the width, the height and the grid, not on position, rotation, name or style |
| PlacedObjects.WholeCellsArea | PlacedObject.cs:41-45 | a room of a by b whole cells measures a*b |
| PlacedObjects.OneCellAreas | PlacedObject.cs:41-49 | a 20x20 rectangle on grid 20 measures 1 as a room, pi/4 as a circular room and 1/2 as a triangular room |
| PlacedObjects.FreshObjectAreaInUnits | PlacedObject.cs:41-45 | a fresh room has no grid size yet, so its area is its width times its height in raw units |
| Geometry.GetCurrentRect | Form1.Logic.cs:192-199 | the spanned rectangle's left/right edges are the min/max of the two x values and its top/bottom edges the min/max of the two y values; width and height are the absolute differences |
| Geometry.GetCurrentRectSymmetric | Form1.Logic.cs:192-199 | swapping the two corners gives the same rectangle |
| Geometry.GetCurrentRectOfCorners | Form1.Logic.cs:192-199 | a rectangle of non-negative size is rebuilt exactly from its top-left and bottom-right corners |
| Geometry.RoundQuotient | Form1.Logic.cs:203-204 | the rounded quotient puts q*g within g/2 of x, and an exact tie picks an even q |
| Geometry.SnapCoord | Form1.Logic.cs:203-204 | a snapped coordinate is a multiple of the grid within grid/2 of the input, and a tie goes to the even multiple |
| Geometry.SnapCoordFixesGrid | Form1.Logic.cs:203-204 | a coordinate already on the grid is unchanged |
| Geometry.SnapCoordIdempotent | Form1.Logic.cs:203-204 | snapping a coordinate twice equals snapping it once |
| Geometry.SnapCoordIsNearest | Form1.Logic.cs:203-204 | no grid line is closer to the input than the snapped one |
| Geometry.SnapCoordBracket | Form1.Logic.cs:203-204 | the snapped line is the grid line at or just below the input, or the one just above |
| Geometry.SnapCoordMonotone | Form1.Logic.cs:203-204 | snapping preserves the order of coordinates |
| Geometry.SnapCoordMinMax | Form1.Logic.cs:208-213 | snapping commutes with taking the smaller or the larger of two coordinates |
| Geometry.SnapPoint | Form1.Logic.cs:201-206 | both coordinates of a snapped point are grid multiples within grid/2 of the input, with ties going to the even multiple |
| Geometry.SnapCoordFitsInt32AtTwenty | Form1.Logic.cs:203-204 | at the form's grid of 20, snapping a 32-bit coordinate gives a 32-bit coordinate, so the `* grid` never wraps there |
| Geometry.SnapPointFixesGrid | Form1.Logic.cs:201-206 | a point already on the grid is unchanged |
| Geometry.SnapPointIdempotent | Form1.Logic.cs:201-206 | snapping a point twice equals snapping it once |
| Geometry.SnapRect | Form1.Logic.cs:208-213 | all four edges of a snapped rectangle are grid multiples and its size is non-negative; for a rectangle of non-negative size each edge is the snap of the matching input edge |
| Geometry.SnappedCornersOrdered | Form1.Logic.cs:208-213 | snapping keeps the corners of a rectangle of non-negative size in order |
| Geometry.SnapRectFixesGrid | Form1.Logic.cs:208-213 | a rectangle of non-negative size whose edges are on the grid is unchanged |
| Geometry.SnapRectIdempotent | Form1.Logic.cs:208-213 | snapping a rectangle twice equals snapping it once |
| Geometry.TruncRem360 | Form1.Logic.cs:78 | C#'s remainder by 360 lies strictly between -360 and 360, has the sign of the dividend, and differs from it by a multiple of 360 |
| Geometry.NormalizeAngle | Form1.Logic.cs:76-81 | the normalised angle lies in [0,360) and is congruent to the input mod 360 |
| Geometry.NormalizeAngleIsEuclidean | Form1.Logic.cs:76-81 | the normalised angle equals the Euclidean remainder mod 360 |
| Geometry.NormalizeAngleIdempotent | Form1.Logic.cs:76-81 | normalising twice equals normalising once |
| FloorPlanForm.PaletteItems | Form1.Logic.cs:35 | the palette lists each of the form's five kinds exactly once, in declaration order Wall, Door, Window, Table, Chair |
| FloorPlanForm.Initial | Form1.Logic.cs:22-31 | the initial fields satisfy the invariant: nothing placed or selected, not placing, rotation 0, snapping on, grid 20 |
| FloorPlanForm.KeyDown | Form1.Logic.cs:57-74 | R adds 90 and E subtracts 90 from the rotation mod 360; G flips snapping; any other key changes nothing; no other field changes |
| FloorPlanForm.RotateThenUnrotate | Form1.Logic.cs:59-68 | from a normalised rotation, R then E (or E then R) restores the whole state |
| FloorPlanForm.FourQuarterTurns | Form1.Logic.cs:59-63 | four presses of R restore the whole state |
| FloorPlanForm.ToggleSnapTwice | Form1.Logic.cs:69-73 | two presses of G restore the whole state |
| FloorPlanForm.QuarterTurnsClosed | Form1.Logic.cs:59-68 | a quarter turn either way from 0, 90, 180 or 270 lands on one of those four |
| FloorPlanForm.Track | Form1.Logic.cs:165 | with snapping on, the recorded pointer is on the grid within grid/2 of the real one, and an exact half goes to the even multiple; with snapping off it is the real one |
| FloorPlanForm.MouseDown | Form1.Logic.cs:153-161 | a left press with a type chosen starts placing, anchored at the press point (snapped iff snapping is on), with the last pointer position equal to the anchor; any other press changes nothing |
| FloorPlanForm.MouseMove | Form1.Logic.cs:163-168 | a move changes only the last pointer position, snapped iff snapping is on |
| FloorPlanForm.ReleaseRect | Form1.Logic.cs:174-179 | the placed rectangle has non-negative size; with snapping on all four edges are on the grid and it is the rectangle spanned by the snapped anchor and the snapped release point, with snapping off it is the rectangle from the anchor to the release point |
| FloorPlanForm.SnapRectOfSnappedEnd | Form1.Logic.cs:174-179 | snapping the rectangle from an anchor to a snapped end equals spanning the snapped anchor and the snapped end, so the second snap only moves an anchor taken while snapping was off |
| FloorPlanForm.MouseUp | Form1.Logic.cs:170-190 | exactly one object is appended, at the end, selected, with the current rotation and the release rectangle, iff placing with the left button and a chosen type and a rectangle wider and taller than 4; otherwise only the placing flag changes; placing is false afterwards in every case |
| FloorPlanForm.HitBelow | Form1.Logic.cs:130-139 | among the first n objects, the result is the highest index whose outline contains the point, and none exactly when no such object exists |
| FloorPlanForm.HitTest | Form1.Logic.cs:130-139 | the result is the highest-index object whose outline contains the point, and null exactly when no outline does |
| FloorPlanForm.HitTestScan | Form1.Logic.cs:130-139 | the downward scan returns the topmost hit, the same answer as the hit-test function |
| FloorPlanForm.MouseClick | Form1.Logic.cs:114-128 | a left click sets the selection to the hit-test result, a right click clears it, other buttons change nothing; nothing but the selection changes |
| FloorPlanForm.SelectType | Form1.Logic.cs:36-40 | choosing a palette entry sets only the type queued for placement |
| FloorPlanForm.Step | Form1.Logic.cs:57-190 | one keyboard, pointer or palette event keeps the grid size, appends at most one object and leaves every existing object unchanged |
| FloorPlanForm.Run | Form1.Logic.cs:57-190 | a sequence of n keyboard, pointer or palette events keeps the grid size, appends at most n objects and leaves the objects already placed unchanged |
| FloorPlanForm.StepPreservesValid | Form1.Logic.cs:57-190 | every keyboard, pointer or palette event keeps the invariant: quarter-turn rotation, selection in range, placing only with a type chosen, every object larger than 4x4 with a quarter-turn rotation |
| FloorPlanForm.RunPreservesValid | Form1.Logic.cs:57-190 | every sequence of keyboard, pointer or palette events keeps the invariant |
| FloorPlanForm.ReachableStatesValid | Form1.Logic.cs:22-31 | after any keyboard, pointer or palette events from start-up, the placement rotation is always 0, 90, 180 or 270, the grid stays 20, every placed object is larger than 4x4 with a quarter-turn rotation, and a selection names a placed object |

## Left out

- Painting is left out: `CanvasPanel_Paint`, `DrawGrid`, `DrawObject`, `DrawRotatedRectangle` and
  `FillRotatedRectangle` only issue GDI+ drawing calls and change no state.
- UI wiring is left out: event subscription in `InitializeFloorPlanUi` and `OnLoad`,
  `propertyGrid.SelectedObject` assignments and `Invalidate()` are treated as no-ops. The palette
  order and the palette selection handler are modelled (`PaletteItems`, `SelectType`).
- `PointInRotatedRect` is a parameter of the hit test: it uses GDI+ paths, matrices and
  `IsVisible`, with float and boundary semantics that cannot be modelled here.
- Geometry.NormalizeAngle: takes whole degrees, not `float`; the placement rotation is always
  whole, but a rotation typed into the property grid may be fractional, and float rounding is
  out of scope.
- Property-grid edits are left out: the grid lets the user change a selected object's `Rect` and
  `RotationDegrees` directly, outside the handlers modelled here. So `Step`, `Run` and
  `ReachableStatesValid` cover keyboard, pointer and palette events only; an object edited
  through the grid need not stay larger than 4x4 or keep a quarter-turn rotation.
- PlacedObjects.AreaGridUnits: computed over exact reals with a fixed value of pi; `float`
  rounding of the width, height and product is not modelled.
- Geometry.SnapPoint: requires a positive grid (the form's grid is fixed at 20). The `(int)` cast
  of the rounded quotient always fits, but the `* grid` after it can wrap for some grids at
  coordinates near the 32-bit limit (grid 2 at `int.MaxValue` rounds up to 2^31); that wrap is
  not modelled. At grid 20 it cannot happen (`SnapCoordFitsInt32AtTwenty`). Integers are
  unbounded throughout, so `Rectangle` and `Point` arithmetic never wraps.
- The relative order in which the window system raises the click and release handlers of one
  gesture is not modelled; each handler is a separate transition, and `Run` applies whatever
  order it is given.
- The plan data transfer objects carry only field declarations. No JSON mapping or loader
  code is part of this model, so there is no round trip to state.
- Zoom and pan (`AdjustZoom` in the main form) are not part of this model. Move and resize
  handles, undo, clipboard, per-side hiding, type-specific snap sizes and triangle outlines have
  no code in the modelled files.
- The pointer handlers, `Step` and `Run` require a positive grid size. The form's grid is the
  constant 20 and no handler changes it, so every reachable state meets this.
