/** The closed shape catalog: seven singleton types, each with a name and a
    palette group. As with the groups, the private constructor means these
    seven values are the only ones. */
module ObjectTypes {
  import opened Wrappers
  import opened ObjectGroups

  datatype ObjectType = Room | CircularRoom | TriangularRoom | Door | Window | Table | Chair {

    /** The name each singleton is constructed with: its own identifier. */
    function Name(): string {
      match this
      case Room => "Room"
      case CircularRoom => "CircularRoom"
      case TriangularRoom => "TriangularRoom"
      case Door => "Door"
      case Window => "Window"
      case Table => "Table"
      case Chair => "Chair"
    }

    /** Position of the singleton's declaration among the seven. */
    function Ordinal(): nat {
      match this
      case Room => 0
      case CircularRoom => 1
      case TriangularRoom => 2
      case Door => 3
      case Window => 4
      case Table => 5
      case Chair => 6
    }

    /** The palette group each singleton is constructed with. */
    function Group(): ObjectGroup {
      match this
      case Room | CircularRoom | TriangularRoom => Rooms
      case Door => Doorways
      case Window | Table | Chair => Others
    }

    /** `ToString()` shows the name, and the name identifies the type. */
    function ToString(): (s: string)
      ensures TypeFromName(s) == Some(this)
    {
      TypeNamed(AllTypes(), this);
      Name()
    }
  }

  /** The catalog enumeration: every type exactly once, in declaration order,
      which puts the rooms first, then the doorway, then the other furniture. */
  function AllTypes(): (r: seq<ObjectType>)
    ensures |r| == 7
    ensures forall t: ObjectType :: t in r
    ensures forall i, j :: 0 <= i < j < |r| ==> r[i] != r[j]
    ensures forall i, j :: 0 <= i < j < |r| ==> r[i].Ordinal() < r[j].Ordinal()
    ensures forall i, j :: 0 <= i < j < |r| ==> r[i].Group().Ordinal() <= r[j].Group().Ordinal()
  {
    var r := [Room, CircularRoom, TriangularRoom, Door, Window, Table, Chair];
    EveryTypeListed(r);
    r
  }

  lemma EveryTypeListed(r: seq<ObjectType>)
    requires r == [Room, CircularRoom, TriangularRoom, Door, Window, Table, Chair]
    ensures forall t: ObjectType :: t in r
  {
    forall t: ObjectType ensures t in r {
      match t
      case Room => assert r[0] == t;
      case CircularRoom => assert r[1] == t;
      case TriangularRoom => assert r[2] == t;
      case Door => assert r[3] == t;
      case Window => assert r[4] == t;
      case Table => assert r[5] == t;
      case Chair => assert r[6] == t;
    }
  }

  /** First type in `ts` whose name is `name`, scanning in order. */
  function FindByName(ts: seq<ObjectType>, name: string): (r: Option<ObjectType>)
    ensures r.Some? ==> r.value in ts && r.value.Name() == name
    ensures r.Some? ==> exists k :: 0 <= k < |ts| && ts[k] == r.value && NoneNamedBefore(ts, k, name)
    ensures r.None? <==> forall i :: 0 <= i < |ts| ==> ts[i].Name() != name
  {
    if |ts| == 0 then None
    else if ts[0].Name() == name then Some(ts[0])
    else FindByName(ts[1..], name)
  }

  /** No entry of `ts` before position `k` is named `name`. */
  predicate NoneNamedBefore(ts: seq<ObjectType>, k: int, name: string)
    requires 0 <= k <= |ts|
  {
    forall i :: 0 <= i < k ==> ts[i].Name() != name
  }

  /** Reference lookup by exact name over the catalog enumeration. */
  function TypeFromName(name: string): Option<ObjectType> {
    FindByName(AllTypes(), name)
  }

  /** The first entry of `ts` named like `t` is `t`, when no other entry shares its name. */
  lemma {:induction false} TypeNamed(ts: seq<ObjectType>, t: ObjectType)
    requires t in ts
    requires forall i :: 0 <= i < |ts| && ts[i] != t ==> ts[i].Name() != t.Name()
    ensures FindByName(ts, t.Name()) == Some(t)
  {
    if ts[0] != t {
      TypeNamed(ts[1..], t);
    }
  }

  /** The seven names are pairwise distinct: equal names mean the same type. */
  lemma TypeNamesDistinct(a: ObjectType, b: ObjectType)
    ensures a.Name() == b.Name() <==> a == b
  {
    assert TypeFromName(a.ToString()) == Some(a);
    assert TypeFromName(b.ToString()) == Some(b);
  }

  /** Group membership: three rooms, one doorway, three others. */
  lemma GroupMembership(t: ObjectType)
    ensures t.Group() == Rooms <==> t in {Room, CircularRoom, TriangularRoom}
    ensures t.Group() == Doorways <==> t == Door
    ensures t.Group() == Others <==> t in {Window, Table, Chair}
  {
  }

  /** The members of a group, in enumeration order. */
  function MembersOf(g: ObjectGroup): (r: seq<ObjectType>)
    ensures forall t :: t in r <==> t.Group() == g
    ensures |r| >= 1
    ensures forall i, j :: 0 <= i < j < |r| ==> r[i].Ordinal() < r[j].Ordinal()
  {
    FilterKeepsOrder(AllTypes(), g);
    Filter(AllTypes(), g)
  }

  /** Ordered by `Ordinal`. */
  predicate Increasing(ts: seq<ObjectType>) {
    forall i, j :: 0 <= i < j < |ts| ==> ts[i].Ordinal() < ts[j].Ordinal()
  }

  /** Filtering keeps the survivors in their original order. */
  lemma {:induction false} FilterKeepsOrder(ts: seq<ObjectType>, g: ObjectGroup)
    requires Increasing(ts)
    ensures Increasing(Filter(ts, g))
  {
    if |ts| > 0 {
      var tail := ts[1..];
      assert Increasing(tail);
      FilterKeepsOrder(tail, g);
      if ts[0].Group() == g {
        var f := Filter(tail, g);
        forall t | t in f ensures ts[0].Ordinal() < t.Ordinal() {
          var k :| 0 <= k < |tail| && tail[k] == t;
          assert ts[k + 1] == t;
        }
        assert Filter(ts, g) == [ts[0]] + f;
      }
    }
  }

  function Filter(ts: seq<ObjectType>, g: ObjectGroup): (r: seq<ObjectType>)
    ensures forall t :: t in r <==> t in ts && t.Group() == g
    ensures |r| <= |ts|
  {
    if |ts| == 0 then []
    else if ts[0].Group() == g then [ts[0]] + Filter(ts[1..], g)
    else Filter(ts[1..], g)
  }

  /** Filtering a list with a known head: the head is kept exactly when it
      belongs to the group. */
  lemma FilterCons(x: ObjectType, ts: seq<ObjectType>, g: ObjectGroup)
    ensures Filter([x] + ts, g) == (if x.Group() == g then [x] else []) + Filter(ts, g)
  {
    assert ([x] + ts)[1..] == ts;
  }

  /** No type after the door is a doorway. */
  lemma NoDoorwayAfterDoor()
    ensures Filter([Window, Table, Chair], Doorways) == []
  {
    FilterCons(Chair, [], Doorways);
    FilterCons(Table, [Chair], Doorways);
    FilterCons(Window, [Table, Chair], Doorways);
  }

  /** From the door on, the door is the only doorway. */
  lemma DoorOnlyFromDoor()
    ensures Filter([Door, Window, Table, Chair], Doorways) == [Door]
  {
    NoDoorwayAfterDoor();
    FilterCons(Door, [Window, Table, Chair], Doorways);
  }

  /** In the declared list, the door is the only doorway. */
  lemma DoorOnlyDoorwayDeclared()
    ensures Filter([Room, CircularRoom, TriangularRoom, Door, Window, Table, Chair], Doorways) == [Door]
  {
    var rest := [Door, Window, Table, Chair];
    DoorOnlyFromDoor();
    FilterCons(TriangularRoom, rest, Doorways);
    FilterCons(CircularRoom, [TriangularRoom] + rest, Doorways);
    FilterCons(Room, [CircularRoom] + ([TriangularRoom] + rest), Doorways);
  }

  /** The Doorways group holds the door alone. */
  lemma DoorwaysIsDoorOnly()
    ensures MembersOf(Doorways) == [Door]
  {
    DoorOnlyDoorwayDeclared();
    assert AllTypes() == [Room, CircularRoom, TriangularRoom, Door, Window, Table, Chair];
  }
}
