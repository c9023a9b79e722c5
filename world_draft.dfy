/** The World of src/components.rs, the earlier draft: the same table,
    without `RefCell`, grown one entity at a time by `new_entity`. */
module EcsDraft {
  import opened Wrappers
  import opened Components
  import opened Table

  class World {
    var entitiesCount: nat
    var componentVecs: seq<Column>

    ghost predicate Valid()
      reads this
    {
      Wellformed(entitiesCount, componentVecs)
    }

    /** `World::new`: no entities and no columns. */
    constructor()
      ensures Valid()
      ensures entitiesCount == 0 && componentVecs == []
    {
      entitiesCount := 0;
      componentVecs := [];
    }

    /** Returns the old count as the new entity's id, after pushing one empty
        slot onto every existing column; the invariant holds for one more. */
    method NewEntity() returns (entityId: nat)
      requires Valid()
      modifies this
      ensures Valid()
      ensures entityId == old(entitiesCount) && entitiesCount == old(entitiesCount) + 1
      ensures componentVecs == Grown(old(componentVecs))
    {
      entityId := entitiesCount;
      var i := 0;
      while i < |componentVecs|
        invariant 0 <= i <= |componentVecs| == |old(componentVecs)|
        invariant forall j :: 0 <= j < i ==> componentVecs[j] == PushNone(old(componentVecs)[j])
        invariant forall j :: i <= j < |componentVecs| ==> componentVecs[j] == old(componentVecs)[j]
        invariant entitiesCount == old(entitiesCount)
      {
        componentVecs := componentVecs[i := PushNone(componentVecs[i])];
        i := i + 1;
      }
      entitiesCount := entitiesCount + 1;
      GrownWellformed(old(entitiesCount), old(componentVecs));
    }

    /** Writes `c` into slot `entity` of the column of its kind, creating
        that column (backfilled with empty slots) if the kind is new. */
    method AddComponentToEntity(entity: nat, c: Component)
      requires Valid()
      requires entity < entitiesCount
      modifies this
      ensures Valid()
      ensures entitiesCount == old(entitiesCount)
      ensures componentVecs == Inserted(old(componentVecs), entitiesCount, entity, c)
    {
      var k := KindOf(c);
      var i := 0;
      while i < |componentVecs|
        invariant 0 <= i <= |componentVecs|
        invariant componentVecs == old(componentVecs)
        invariant forall j :: 0 <= j < i ==> componentVecs[j].kind != k
      {
        if componentVecs[i].kind == k {
          componentVecs := componentVecs[i := componentVecs[i].(slots := componentVecs[i].slots[entity := Some(c)])];
          return;
        }
        i := i + 1;
      }
      var newComponentVec: seq<Option<Component>> := [];
      var n := 0;
      while n < entitiesCount
        invariant n <= entitiesCount
        invariant newComponentVec == Nones(n)
      {
        newComponentVec := newComponentVec + [None];
        n := n + 1;
      }
      newComponentVec := newComponentVec[entity := Some(c)];
      componentVecs := componentVecs + [Column(k, newComponentVec)];
    }
  }

  /** `run_game`: one entity with Health(100) and then Position(10, 10)
      gives a count of 1 and two one-slot columns, Health first. */
  method RunGame() returns (count: nat, columns: seq<Column>)
    ensures count == 1
    ensures columns == [Column(HealthKind, [Some(HealthComp(Health(100)))]),
                        Column(PositionKind, [Some(PositionComp(Position(10, 10)))])]
  {
    var world := new World();
    var player := world.NewEntity();
    assert world.componentVecs == [];
    world.AddComponentToEntity(player, HealthComp(Health(100)));
    assert Nones(1)[0 := Some(HealthComp(Health(100)))] == [Some(HealthComp(Health(100)))];
    world.AddComponentToEntity(player, PositionComp(Position(10, 10)));
    assert Nones(1)[0 := Some(PositionComp(Position(10, 10)))] == [Some(PositionComp(Position(10, 10)))];
    count, columns := world.entitiesCount, world.componentVecs;
  }
}
