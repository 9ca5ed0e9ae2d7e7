/** The catalog-level placed object: a shape type, its rectangle and rotation,
    an optional name, the grid size its area is measured in, and its style.
    Only the state and the computed area are modelled; the property-grid
    attributes are display metadata. */
module PlacedObjects {
  import opened Wrappers
  import opened Geometry
  import opened ObjectTypes
  import opened ObjectGroups

  /** `System.Drawing.Color` as its four ARGB channels (0..255 each). */
  datatype Color = Color(a: int, r: int, g: int, b: int)

  /** `Color.Black`: opaque black. */
  const Black: Color := Color(255, 0, 0, 0)

  /** `Color.Transparent`: white with alpha 0, so it paints nothing. */
  const Transparent: Color := Color(0, 255, 255, 255)

  /** The value of pi the circular-room area uses (`System.Math.PI`); the proofs
      only rely on it being positive. */
  const Pi: real := 3.141592653589793

  datatype PlacedObject = PlacedObject(
    kind: ObjectType,
    rect: Rect,
    rotationDegrees: real,
    name: Option<string>,
    gridSizeForArea: int,
    mirrored: bool,
    lineWidth: real,
    lineColor: Color,
    backgroundColor: Color)

  /** `new PlacedObject { Type = kind, Rect = rect }`: every other property keeps
      its initialiser or the C# default. A fresh object is not mirrored, has a
      4-unit black outline and no fill, no name, no rotation, and no grid size
      for its area yet. */
  function NewPlacedObject(kind: ObjectType, rect: Rect): (o: PlacedObject)
    ensures o.kind == kind && o.rect == rect
    ensures !o.mirrored
    ensures o.lineWidth == 4.0 && o.lineColor == Black
    ensures o.backgroundColor.a == 0 && o.backgroundColor == Transparent
    ensures o.name.None? && o.rotationDegrees == 0.0 && o.gridSizeForArea == 0
  {
    PlacedObject(kind, rect, 0.0, None, 0, false, 4.0, Black, Transparent)
  }

  /** The area code classifies the two triangle shapes by the names
      `TriangleRight` and `TriangleIso`, which the catalog does not declare; the
      catalog's only triangle is `TriangularRoom`, so that is the one type this
      classification holds for. */
  predicate IsTriangle(t: ObjectType)
    ensures IsTriangle(t) <==> t.Group() == Rooms && t != Room && t != CircularRoom
  {
    t == TriangularRoom
  }

  /** The grid size the area divides by: the stored one when positive, else 1. */
  function AreaGrid(o: PlacedObject): (g: int)
    ensures g >= 1
    ensures o.gridSizeForArea > 0 ==> g == o.gridSizeForArea
    ensures o.gridSizeForArea <= 0 ==> g == 1
  {
    if o.gridSizeForArea > 0 then o.gridSizeForArea else 1
  }

  /** Width and height measured in grid cells. */
  function CellsWide(o: PlacedObject): real {
    o.rect.width as real / AreaGrid(o) as real
  }

  function CellsHigh(o: PlacedObject): real {
    o.rect.height as real / AreaGrid(o) as real
  }

  /** The area in grid cells, split on the shape type. */
  function AreaGridUnits(o: PlacedObject): (area: real)
    ensures o.rect.width >= 0 && o.rect.height >= 0 ==> area >= 0.0
  {
    var w := CellsWide(o);
    var h := CellsHigh(o);
    if o.kind == Room then w * h
    else if o.kind == CircularRoom then Pi * 0.25 * w * h
    else if IsTriangle(o.kind) then 0.5 * w * h
    else w * h
  }

  /** The rectangle formula: what a plain room of the same rectangle and grid
      measures. */
  function RectangleArea(o: PlacedObject): real {
    AreaGridUnits(o.(kind := Room))
  }

  /** A room measures its cell width times its cell height. */
  lemma RoomAreaIsCellProduct(o: PlacedObject)
    requires o.kind == Room
    ensures AreaGridUnits(o) == CellsWide(o) * CellsHigh(o)
  {
  }

  /** A circular room measures pi/4 of its bounding rectangle. */
  lemma CircularAreaIsQuarterPi(o: PlacedObject)
    requires o.kind == CircularRoom
    ensures AreaGridUnits(o) == (Pi / 4.0) * RectangleArea(o)
    ensures o.rect.width > 0 && o.rect.height > 0 ==> AreaGridUnits(o) < RectangleArea(o)
  {
    assert Pi * 0.25 * CellsWide(o) * CellsHigh(o) == (Pi / 4.0) * (CellsWide(o) * CellsHigh(o));
  }

  /** A triangular room measures exactly half its bounding rectangle. */
  lemma TriangleAreaIsHalf(o: PlacedObject)
    requires IsTriangle(o.kind)
    ensures AreaGridUnits(o) == RectangleArea(o) / 2.0
  {
  }

  /** Doors, windows, tables and chairs fall through to the rectangle formula:
      they measure what a room of the same rectangle would, not zero. */
  lemma OtherTypesUseRectangleArea(o: PlacedObject)
    requires o.kind in {Door, Window, Table, Chair}
    ensures AreaGridUnits(o) == RectangleArea(o)
    ensures o.rect.width > 0 && o.rect.height > 0 ==> AreaGridUnits(o) > 0.0
  {
    assert CellsWide(o) * CellsHigh(o) == RectangleArea(o);
    if o.rect.width > 0 && o.rect.height > 0 {
      assert CellsWide(o) > 0.0 && CellsHigh(o) > 0.0;
    }
  }

  /** A stored grid size of zero or less measures in unit cells. */
  lemma NonPositiveGridMeansOne(o: PlacedObject)
    requires o.gridSizeForArea <= 0
    ensures AreaGridUnits(o) == AreaGridUnits(o.(gridSizeForArea := 1))
  {
  }

  /** Moving, rotating, renaming or restyling an object leaves its area alone:
      only the type, the size and the grid size enter. */
  lemma AreaDependsOnSizeOnly(o: PlacedObject, p: PlacedObject)
    requires o.kind == p.kind && AreaGrid(o) == AreaGrid(p)
    requires o.rect.width == p.rect.width && o.rect.height == p.rect.height
    ensures AreaGridUnits(o) == AreaGridUnits(p)
  {
  }

  /** A rectangle of `a` by `b` whole cells on a positive grid measures `a * b`
      as a room. */
  lemma WholeCellsArea(o: PlacedObject, a: int, b: int)
    requires o.kind == Room && o.gridSizeForArea > 0
    requires o.rect.width == a * o.gridSizeForArea && o.rect.height == b * o.gridSizeForArea
    ensures AreaGridUnits(o) == (a * b) as real
  {
    var g := o.gridSizeForArea as real;
    assert (a * o.gridSizeForArea) as real == a as real * g;
    assert (b * o.gridSizeForArea) as real == b as real * g;
    assert CellsWide(o) == a as real;
    assert CellsHigh(o) == b as real;
  }

  /** One 20x20 cell on a 20-unit grid: 1 as a room, pi/4 as a circle, 1/2 as a
      triangle. */
  lemma OneCellAreas(r: Rect)
    requires r.width == 20 && r.height == 20
    ensures AreaGridUnits(PlacedObject(Room, r, 0.0, None, 20, false, 4.0, Black, Transparent)) == 1.0
    ensures AreaGridUnits(PlacedObject(CircularRoom, r, 0.0, None, 20, false, 4.0, Black, Transparent)) == Pi / 4.0
    ensures AreaGridUnits(PlacedObject(TriangularRoom, r, 0.0, None, 20, false, 4.0, Black, Transparent)) == 0.5
  {
  }

  /** A fresh object has no grid size yet, so its area counts raw units. */
  lemma FreshObjectAreaInUnits(r: Rect)
    ensures AreaGridUnits(NewPlacedObject(Room, r)) == (r.width * r.height) as real
  {
  }
}
