/** The placement engine of the editor form: the interaction state, one pure
    transition per keyboard or pointer event, and the topmost-first hit test.
    The form declares its own five-kind object enum and its own three-field
    placed-object record, which shadow the catalog classes inside the form; the
    engine is modelled over those. Repainting and `Invalidate()` produce no
    state and are left out; so are edits the user makes through the property
    grid, which can change a selected object's rectangle and rotation. */
module FloorPlanForm {
  import opened Wrappers
  import opened Geometry

  /** The form's nested object kind. */
  datatype FormObjectType = Wall | Door | Window | Table | Chair {

    /** Position of the enum member's declaration among the five. */
    function Ordinal(): nat {
      match this
      case Wall => 0
      case Door => 1
      case Window => 2
      case Table => 3
      case Chair => 4
    }
  }

  /** The palette entries, in the order the list box shows them: every kind
      once, in declaration order. */
  function PaletteItems(): (r: seq<FormObjectType>)
    ensures |r| == 5
    ensures forall t: FormObjectType :: t in r
    ensures forall i, j :: 0 <= i < j < |r| ==> r[i] != r[j]
    ensures forall i, j :: 0 <= i < j < |r| ==> r[i].Ordinal() < r[j].Ordinal()
  {
    var r := [Wall, Door, Window, Table, Chair];
    EveryKindListed(r);
    r
  }

  lemma EveryKindListed(r: seq<FormObjectType>)
    requires r == [Wall, Door, Window, Table, Chair]
    ensures forall t: FormObjectType :: t in r
  {
    forall t: FormObjectType ensures t in r {
      match t
      case Wall => assert r[0] == t;
      case Door => assert r[1] == t;
      case Window => assert r[2] == t;
      case Table => assert r[3] == t;
      case Chair => assert r[4] == t;
    }
  }

  /** The form's nested placed-object record. */
  datatype FormObject = FormObject(kind: FormObjectType, rect: Rect, rotationDegrees: int)

  /** The keys the handler distinguishes; every other key code is `OtherKey`. */
  datatype Key = KeyR | KeyE | KeyG | OtherKey(code: nat)

  /** `MouseButtons` as reported for a single pointer event. */
  datatype Button = Left | Right | Middle | XButton1 | XButton2 | NoButton

  /** The form's fields. `selectedObject` is the index in `objects` of the
      selected object: objects are only ever appended here, so an index names
      the same object for as long as the state exists. */
  datatype FormState = FormState(
    objects: seq<FormObject>,
    selectedObject: Option<nat>,
    selectedType: Option<FormObjectType>,
    isPlacing: bool,
    placeStart: Point,
    lastMouse: Point,
    currentRotation: int,
    gridSize: int,
    snapEnabled: bool)

  /** The grid spacing the form is created with. */
  const DefaultGridSize: int := 20

  /** A placed rectangle must be larger than this in both directions. */
  const MinPlacedSize: int := 4

  /** The field initialisers: nothing placed or selected, no rotation, snapping
      on a 20-pixel grid. */
  function Initial(): (s: FormState)
    ensures Valid(s) && |s.objects| == 0
    ensures s.selectedObject.None? && s.selectedType.None? && !s.isPlacing
    ensures s.currentRotation == 0 && s.snapEnabled && s.gridSize == DefaultGridSize
  {
    FormState([], None, None, false, Point(0, 0), Point(0, 0), 0, DefaultGridSize, true)
  }

  /** The four orientations reachable from 0 by quarter turns. */
  predicate IsQuarterTurn(deg: int) {
    deg == 0 || deg == 90 || deg == 180 || deg == 270
  }

  /** What every object placed by the form satisfies. */
  predicate WellPlaced(o: FormObject) {
    o.rect.width > MinPlacedSize && o.rect.height > MinPlacedSize && IsQuarterTurn(o.rotationDegrees)
  }

  /** The invariant every reachable state keeps. */
  predicate Valid(s: FormState) {
    && s.gridSize > 0
    && IsQuarterTurn(s.currentRotation)
    && (s.selectedObject.Some? ==> s.selectedObject.value < |s.objects|)
    && (s.isPlacing ==> s.selectedType.Some?)
    && forall i :: 0 <= i < |s.objects| ==> WellPlaced(s.objects[i])
  }

  // ---------------------------------------------------------------------------
  // Keyboard
  // ---------------------------------------------------------------------------

  /** R turns the next placement a quarter turn clockwise, E a quarter turn
      back, G toggles snapping; any other key changes nothing. */
  function KeyDown(s: FormState, key: Key): (r: FormState)
    ensures r == s.(currentRotation := r.currentRotation, snapEnabled := r.snapEnabled)
    ensures key == KeyR ==> r.currentRotation == (s.currentRotation + 90) % 360 && r.snapEnabled == s.snapEnabled
    ensures key == KeyE ==> r.currentRotation == (s.currentRotation - 90) % 360 && r.snapEnabled == s.snapEnabled
    ensures key == KeyG ==> r.currentRotation == s.currentRotation && r.snapEnabled != s.snapEnabled
    ensures key.OtherKey? ==> r == s
  {
    NormalizeAngleIsEuclidean(s.currentRotation + 90);
    NormalizeAngleIsEuclidean(s.currentRotation - 90);
    match key
    case KeyR => s.(currentRotation := NormalizeAngle(s.currentRotation + 90))
    case KeyE => s.(currentRotation := NormalizeAngle(s.currentRotation - 90))
    case KeyG => s.(snapEnabled := !s.snapEnabled)
    case OtherKey(_) => s
  }

  /** R and E move a normalised rotation to the next or previous quarter
      position, wrapping at 360. */
  lemma KeyRotateState(s: FormState)
    requires 0 <= s.currentRotation < 360
    ensures KeyDown(s, KeyR) == s.(currentRotation := NextQuarter(s.currentRotation))
    ensures KeyDown(s, KeyE) == s.(currentRotation := PrevQuarter(s.currentRotation))
  {
    var deg := s.currentRotation;
    if deg < 270 {
      assert (deg + 90) % 360 == deg + 90;
    } else {
      assert (deg + 90) % 360 == deg - 270;
    }
    if deg < 90 {
      assert (deg - 90) % 360 == deg + 270;
    } else {
      assert (deg - 90) % 360 == deg - 90;
    }
  }

  /** A quarter turn forward on [0, 360), written without remainders. */
  function NextQuarter(deg: int): int {
    if deg < 270 then deg + 90 else deg - 270
  }

  /** A quarter turn back on [0, 360), written without remainders. */
  function PrevQuarter(deg: int): int {
    if deg < 90 then deg + 270 else deg - 90
  }

  /** From a normalised rotation, R then E (or E then R) restores the state. */
  lemma RotateThenUnrotate(s: FormState)
    requires 0 <= s.currentRotation < 360
    ensures KeyDown(KeyDown(s, KeyR), KeyE) == s
    ensures KeyDown(KeyDown(s, KeyE), KeyR) == s
  {
    KeyRotateState(s);
    KeyRotateState(KeyDown(s, KeyR));
    KeyRotateState(KeyDown(s, KeyE));
  }

  /** Four presses of R are a full turn: the state comes back. */
  lemma FourQuarterTurns(s: FormState)
    requires 0 <= s.currentRotation < 360
    ensures KeyDown(KeyDown(KeyDown(KeyDown(s, KeyR), KeyR), KeyR), KeyR) == s
  {
    var one := KeyDown(s, KeyR);
    KeyRotateState(s);
    var two := KeyDown(one, KeyR);
    KeyRotateState(one);
    var three := KeyDown(two, KeyR);
    KeyRotateState(two);
    KeyRotateState(three);
  }

  /** Pressing G twice restores the state. */
  lemma ToggleSnapTwice(s: FormState)
    ensures KeyDown(KeyDown(s, KeyG), KeyG) == s
  {
  }

  // ---------------------------------------------------------------------------
  // Pointer
  // ---------------------------------------------------------------------------

  /** The pointer location as the form records it: snapped when snapping is on. */
  function Track(s: FormState, at: Point): (p: Point)
    requires s.gridSize > 0
    ensures s.snapEnabled ==> OnGrid(p.x, s.gridSize) && OnGrid(p.y, s.gridSize)
    ensures s.snapEnabled ==> 2 * Abs(p.x - at.x) <= s.gridSize && 2 * Abs(p.y - at.y) <= s.gridSize
    ensures s.snapEnabled && 2 * Abs(p.x - at.x) == s.gridSize ==> (p.x / s.gridSize) % 2 == 0
    ensures s.snapEnabled && 2 * Abs(p.y - at.y) == s.gridSize ==> (p.y / s.gridSize) % 2 == 0
    ensures !s.snapEnabled ==> p == at
  {
    if s.snapEnabled then SnapPoint(at, s.gridSize) else at
  }

  /** A left press with a palette type chosen starts a placement anchored at the
      (possibly snapped) press point; any other press leaves the state alone. */
  function MouseDown(s: FormState, button: Button, at: Point): (r: FormState)
    requires s.gridSize > 0
    ensures button == Left && s.selectedType.Some? ==>
      && r == s.(isPlacing := true, placeStart := r.placeStart, lastMouse := r.placeStart)
      && (s.snapEnabled ==> r.placeStart == SnapPoint(at, s.gridSize))
      && (!s.snapEnabled ==> r.placeStart == at)
    ensures !(button == Left && s.selectedType.Some?) ==> r == s
  {
    if button == Left && s.selectedType.Some? then
      var start := Track(s, at);
      s.(isPlacing := true, placeStart := start, lastMouse := start)
    else s
  }

  /** A move only records the (possibly snapped) pointer position. */
  function MouseMove(s: FormState, at: Point): (r: FormState)
    requires s.gridSize > 0
    ensures r == s.(lastMouse := r.lastMouse)
    ensures s.snapEnabled ==> r.lastMouse == SnapPoint(at, s.gridSize)
    ensures !s.snapEnabled ==> r.lastMouse == at
  {
    s.(lastMouse := Track(s, at))
  }

  /** The rectangle a release at `at` would place: spanned from the anchor to
      the (possibly snapped) release point, then snapped as a whole when
      snapping is on. */
  function ReleaseRect(s: FormState, at: Point): (r: Rect)
    requires s.gridSize > 0
    ensures r.width >= 0 && r.height >= 0
    ensures s.snapEnabled ==> OnGrid(r.Left(), s.gridSize) && OnGrid(r.Right(), s.gridSize)
    ensures s.snapEnabled ==> OnGrid(r.Top(), s.gridSize) && OnGrid(r.Bottom(), s.gridSize)
    ensures s.snapEnabled ==> r == GetCurrentRect(SnapPoint(s.placeStart, s.gridSize), SnapPoint(at, s.gridSize))
    ensures !s.snapEnabled ==> r == GetCurrentRect(s.placeStart, at)
  {
    var rect := GetCurrentRect(s.placeStart, Track(s, at));
    if s.snapEnabled then
      SnapRectOfSnappedEnd(s.placeStart, at, s.gridSize);
      SnapRect(rect, s.gridSize)
    else rect
  }

  /** Spanning from an anchor to a snapped end and snapping the result is the
      same as spanning between the snapped anchor and the snapped end: the
      second snap only moves the anchor, and only when it was not already on
      the grid (snapping was switched on during the drag). */
  lemma SnapRectOfSnappedEnd(start: Point, end: Point, g: int)
    requires g > 0
    ensures SnapRect(GetCurrentRect(start, SnapPoint(end, g)), g)
         == GetCurrentRect(SnapPoint(start, g), SnapPoint(end, g))
  {
    var e := SnapPoint(end, g);
    SnapCoordIdempotent(end.x, g);
    SnapCoordIdempotent(end.y, g);
    SnapCoordMinMax(start.x, e.x, g);
    SnapCoordMinMax(start.y, e.y, g);
  }

  /** When a release places a new object: during a placement, with the left
      button, a type chosen, and a rectangle larger than the minimum both ways. */
  predicate PlacementAccepted(s: FormState, button: Button, at: Point)
    requires s.gridSize > 0
  {
    && s.isPlacing && button == Left && s.selectedType.Some?
    && ReleaseRect(s, at).width > MinPlacedSize
    && ReleaseRect(s, at).height > MinPlacedSize
  }

  /** A release ends any placement. It appends exactly one object, selected,
      with the current placement rotation and the release rectangle, when the
      placement is accepted; otherwise the objects and the selection stay as
      they were. */
  function MouseUp(s: FormState, button: Button, at: Point): (r: FormState)
    requires s.gridSize > 0
    ensures !r.isPlacing
    ensures |r.objects| == |s.objects| + 1 <==> PlacementAccepted(s, button, at)
    ensures PlacementAccepted(s, button, at) ==>
      && r.objects == s.objects + [FormObject(s.selectedType.value, ReleaseRect(s, at), s.currentRotation)]
      && r == s.(objects := r.objects, selectedObject := Some(|s.objects|), isPlacing := false)
    ensures !PlacementAccepted(s, button, at) ==> r == s.(isPlacing := false)
  {
    if s.isPlacing && button == Left && s.selectedType.Some? then
      var rect := ReleaseRect(s, at);
      if rect.width > MinPlacedSize && rect.height > MinPlacedSize then
        var o := FormObject(s.selectedType.value, rect, s.currentRotation);
        s.(objects := s.objects + [o], selectedObject := Some(|s.objects|), isPlacing := false)
      else s.(isPlacing := false)
    else s.(isPlacing := false)
  }

  // ---------------------------------------------------------------------------
  // Hit test and click selection
  // ---------------------------------------------------------------------------

  /** True when `o`'s rotated outline contains `p`, as the caller-supplied
      geometry `inside(point, rect, degrees)` decides. */
  predicate Hits(inside: (Point, Rect, int) -> bool, o: FormObject, p: Point) {
    inside(p, o.rect, o.rotationDegrees)
  }

  /** `r` is the topmost object containing `p`, or none when no object does. */
  predicate IsTopmostHit(objs: seq<FormObject>, p: Point, inside: (Point, Rect, int) -> bool, r: Option<nat>) {
    && (r.None? <==> forall j :: 0 <= j < |objs| ==> !Hits(inside, objs[j], p))
    && (r.Some? ==>
         && r.value < |objs|
         && Hits(inside, objs[r.value], p)
         && forall j :: r.value < j < |objs| ==> !Hits(inside, objs[j], p))
  }

  /** The last of the first `n` objects that contains `p`. */
  function HitBelow(objs: seq<FormObject>, p: Point, inside: (Point, Rect, int) -> bool, n: nat): (r: Option<nat>)
    requires n <= |objs|
    ensures r.None? <==> forall j :: 0 <= j < n ==> !Hits(inside, objs[j], p)
    ensures r.Some? ==>
      && r.value < n
      && Hits(inside, objs[r.value], p)
      && forall j :: r.value < j < n ==> !Hits(inside, objs[j], p)
    decreases n
  {
    if n == 0 then None
    else if Hits(inside, objs[n - 1], p) then Some(n - 1)
    else HitBelow(objs, p, inside, n - 1)
  }

  /** The topmost object (highest index, painted last) containing `p`. */
  function HitTest(objs: seq<FormObject>, p: Point, inside: (Point, Rect, int) -> bool): (r: Option<nat>)
    ensures IsTopmostHit(objs, p, inside, r)
  {
    HitBelow(objs, p, inside, |objs|)
  }

  /** At most one answer meets the topmost-hit description. */
  lemma TopmostHitUnique(objs: seq<FormObject>, p: Point, inside: (Point, Rect, int) -> bool, r1: Option<nat>, r2: Option<nat>)
    requires IsTopmostHit(objs, p, inside, r1) && IsTopmostHit(objs, p, inside, r2)
    ensures r1 == r2
  {
  }

  /** The form's loop: scan from the last object down, return the first hit. */
  method HitTestScan(objs: seq<FormObject>, p: Point, inside: (Point, Rect, int) -> bool) returns (r: Option<nat>)
    ensures IsTopmostHit(objs, p, inside, r)
    ensures r == HitTest(objs, p, inside)
  {
    var i := |objs| - 1;
    while i >= 0
      invariant -1 <= i < |objs|
      invariant forall j :: i < j < |objs| ==> !Hits(inside, objs[j], p)
    {
      if Hits(inside, objs[i], p) {
        r := Some(i);
        TopmostHitUnique(objs, p, inside, r, HitTest(objs, p, inside));
        return;
      }
      i := i - 1;
    }
    r := None;
    TopmostHitUnique(objs, p, inside, r, HitTest(objs, p, inside));
  }

  /** A left click selects the topmost object under the pointer (or nothing),
      a right click clears the selection, other buttons change nothing. */
  function MouseClick(s: FormState, button: Button, at: Point, inside: (Point, Rect, int) -> bool): (r: FormState)
    ensures r == s.(selectedObject := r.selectedObject)
    ensures button == Left ==> IsTopmostHit(s.objects, at, inside, r.selectedObject)
    ensures button == Right ==> r.selectedObject.None?
    ensures button != Left && button != Right ==> r == s
  {
    match button
    case Left => s.(selectedObject := HitTest(s.objects, at, inside))
    case Right => s.(selectedObject := None)
    case _ => s
  }

  /** Choosing an entry in the palette queues that kind for placement. */
  function SelectType(s: FormState, t: FormObjectType): (r: FormState)
    ensures r.selectedType == Some(t)
    ensures r == s.(selectedType := r.selectedType)
  {
    s.(selectedType := Some(t))
  }

  // ---------------------------------------------------------------------------
  // Event sequences
  // ---------------------------------------------------------------------------

  datatype Event =
    | KeyDownEvent(key: Key)
    | MouseDownEvent(button: Button, at: Point)
    | MouseMoveEvent(at: Point)
    | MouseUpEvent(button: Button, at: Point)
    | MouseClickEvent(button: Button, at: Point)
    | PaletteEvent(kind: FormObjectType)

  /** One event. The grid never changes, at most one object is appended, and
      the objects already placed are never modified. */
  function Step(s: FormState, e: Event, inside: (Point, Rect, int) -> bool): (r: FormState)
    requires s.gridSize > 0
    ensures r.gridSize == s.gridSize
    ensures |s.objects| <= |r.objects| <= |s.objects| + 1
    ensures r.objects[..|s.objects|] == s.objects
  {
    match e
    case KeyDownEvent(k) => KeyDown(s, k)
    case MouseDownEvent(b, p) => MouseDown(s, b, p)
    case MouseMoveEvent(p) => MouseMove(s, p)
    case MouseUpEvent(b, p) => MouseUp(s, b, p)
    case MouseClickEvent(b, p) => MouseClick(s, b, p, inside)
    case PaletteEvent(t) => SelectType(s, t)
  }

  /** Events applied in order. */
  function Run(s: FormState, events: seq<Event>, inside: (Point, Rect, int) -> bool): (r: FormState)
    requires s.gridSize > 0
    ensures r.gridSize == s.gridSize
    ensures |s.objects| <= |r.objects| <= |s.objects| + |events|
    ensures r.objects[..|s.objects|] == s.objects
    decreases |events|
  {
    if |events| == 0 then s
    else
      var t := Step(s, events[0], inside);
      var r := Run(t, events[1..], inside);
      assert r.objects[..|s.objects|] == r.objects[..|t.objects|][..|s.objects|];
      r
  }

  /** A quarter turn either way keeps the rotation one of the four orientations. */
  lemma QuarterTurnsClosed(deg: int)
    requires IsQuarterTurn(deg)
    ensures IsQuarterTurn(NormalizeAngle(deg + 90)) && IsQuarterTurn(NormalizeAngle(deg - 90))
  {
    NormalizeAngleIsEuclidean(deg + 90);
    NormalizeAngleIsEuclidean(deg - 90);
  }

  /** Every event keeps the invariant. */
  lemma StepPreservesValid(s: FormState, e: Event, inside: (Point, Rect, int) -> bool)
    requires Valid(s)
    ensures Valid(Step(s, e, inside))
  {
    match e
    case KeyDownEvent(k) => QuarterTurnsClosed(s.currentRotation);
    case MouseUpEvent(b, p) => MouseUpPreservesValid(s, b, p);
    case _ =>
  }

  /** A release keeps the invariant: a new object is larger than the minimum
      and carries the current quarter-turn rotation, and it becomes the
      selection. */
  lemma MouseUpPreservesValid(s: FormState, button: Button, at: Point)
    requires Valid(s)
    ensures Valid(MouseUp(s, button, at))
  {
    var r := MouseUp(s, button, at);
    if PlacementAccepted(s, button, at) {
      assert WellPlaced(r.objects[|s.objects|]);
      assert forall i :: 0 <= i < |s.objects| ==> r.objects[i] == s.objects[i];
    }
  }

  /** Every sequence of events keeps the invariant. */
  lemma {:induction false} RunPreservesValid(s: FormState, events: seq<Event>, inside: (Point, Rect, int) -> bool)
    requires Valid(s)
    ensures Valid(Run(s, events, inside))
    decreases |events|
  {
    if |events| > 0 {
      StepPreservesValid(s, events[0], inside);
      RunPreservesValid(Step(s, events[0], inside), events[1..], inside);
    }
  }

  /** Whatever keyboard, pointer and palette events follow start-up, the
      placement rotation is one of 0, 90, 180, 270, every placed object is
      larger than the minimum with a quarter-turn rotation, and a selection
      names a placed object. Edits made through the property grid are not
      events of this model. */
  lemma ReachableStatesValid(events: seq<Event>, inside: (Point, Rect, int) -> bool)
    ensures var s := Run(Initial(), events, inside);
      && IsQuarterTurn(s.currentRotation)
      && s.gridSize == DefaultGridSize
      && (forall i :: 0 <= i < |s.objects| ==> WellPlaced(s.objects[i]))
      && (s.selectedObject.Some? ==> s.selectedObject.value < |s.objects|)
  {
    RunPreservesValid(Initial(), events, inside);
  }
}
