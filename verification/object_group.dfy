/** The closed set of palette groups. The source class has a private constructor
    and three static singletons, so a datatype with three constructors holds
    exactly the values that can exist. */
module ObjectGroups {
  import opened Wrappers

  datatype ObjectGroup = Rooms | Doorways | Others {

    /** The display name each singleton is constructed with. */
    function Name(): string {
      match this
      case Rooms => "Rooms"
      case Doorways => "Doorways"
      case Others => "Others"
    }

    /** Position of the singleton's declaration among the three. */
    function Ordinal(): nat {
      match this
      case Rooms => 0
      case Doorways => 1
      case Others => 2
    }

    /** `ToString()` shows the name, and the name identifies the group. */
    function ToString(): (s: string)
      ensures GroupFromName(s) == Some(this)
    {
      Name()
    }
  }

  /** Every group, in declaration order. */
  function AllGroups(): (r: seq<ObjectGroup>)
    ensures |r| == 3
    ensures forall g: ObjectGroup :: g in r
    ensures forall i, j :: 0 <= i < j < |r| ==> r[i] != r[j]
    ensures forall i, j :: 0 <= i < j < |r| ==> r[i].Ordinal() < r[j].Ordinal()
  {
    var r := [Rooms, Doorways, Others];
    EveryGroupListed(r);
    r
  }

  lemma EveryGroupListed(r: seq<ObjectGroup>)
    requires r == [Rooms, Doorways, Others]
    ensures forall g: ObjectGroup :: g in r
  {
    forall g: ObjectGroup ensures g in r {
      match g
      case Rooms => assert r[0] == g;
      case Doorways => assert r[1] == g;
      case Others => assert r[2] == g;
    }
  }

  /** Lookup by exact name against the three group names; used to state that
      the names single out their groups. */
  function GroupFromName(name: string): (r: Option<ObjectGroup>)
    ensures r.Some? ==> r.value.Name() == name
    ensures r.None? ==> forall g: ObjectGroup :: g.Name() != name
  {
    if name == Rooms.Name() then Some(Rooms)
    else if name == Doorways.Name() then Some(Doorways)
    else if name == Others.Name() then Some(Others)
    else None
  }

  /** The three names are pairwise distinct: equal names mean the same group. */
  lemma GroupNamesDistinct(a: ObjectGroup, b: ObjectGroup)
    ensures a.Name() == b.Name() <==> a == b
  {
    assert GroupFromName(a.Name()) == Some(a);
    assert GroupFromName(b.Name()) == Some(b);
  }
}
