/** The World of src/components/components.rs: an entity counter and an
    ordered list of columns, each behind a `RefCell`. The `RefCell` borrow
    flags are explicit here, one per column. */
module Ecs {
  import opened Wrappers
  import opened Numeric
  import opened Components
  import opened Table

  /** The run-time borrow flag of one column's `RefCell`. */
  datatype BorrowState = Unborrowed | Shared(readers: nat) | Exclusive

  /** What a borrow request yields: no column of that kind; a conflicting
      borrow still alive (where `RefCell` panics); or a view of the column. */
  datatype BorrowOutcome = NoColumn | BorrowConflict | View(slots: seq<Option<Component>>)

  class World {
    var entitiesCount: nat
    var componentVecs: seq<Column>
    var borrows: seq<BorrowState>

    ghost predicate Valid()
      reads this
    {
      && Wellformed(entitiesCount, componentVecs)
      && |borrows| == |componentVecs|
      && forall i :: 0 <= i < |borrows| ==> borrows[i] != Shared(0)
    }

    /** No `Ref` or `RefMut` into the World is alive, as `&mut self` guarantees. */
    predicate NothingBorrowed()
      reads this
    {
      forall i :: 0 <= i < |borrows| ==> borrows[i] == Unborrowed
    }

    /** No column is mutably borrowed, so every column may be read. */
    predicate NoWriter()
      reads this
    {
      forall i :: 0 <= i < |borrows| ==> borrows[i] != Exclusive
    }

    /** `World::new`: no entities and no columns. */
    constructor()
      ensures Valid() && NothingBorrowed()
      ensures entitiesCount == 0 && componentVecs == [] && borrows == []
    {
      entitiesCount := 0;
      componentVecs := [];
      borrows := [];
    }

    /** Writes `c` into slot `entity` of the column of its kind, creating
        that column (backfilled with empty slots) if the kind is new. */
    method AddComponentToEntity(entity: nat, c: Component)
      requires Valid() && NothingBorrowed()
      requires entity < entitiesCount
      modifies this
      ensures Valid() && NothingBorrowed()
      ensures entitiesCount == old(entitiesCount)
      ensures componentVecs == Inserted(old(componentVecs), entitiesCount, entity, c)
    {
      var k := KindOf(c);
      var i := 0;
      while i < |componentVecs|
        invariant 0 <= i <= |componentVecs|
        invariant componentVecs == old(componentVecs)
        invariant forall j :: 0 <= j < i ==> componentVecs[j].kind != k
      {
        if componentVecs[i].kind == k {
          componentVecs := componentVecs[i := componentVecs[i].(slots := componentVecs[i].slots[entity := Some(c)])];
          return;
        }
        i := i + 1;
      }
      var newComponentVec: seq<Option<Component>> := [];
      var n := 0;
      while n < entitiesCount
        invariant n <= entitiesCount
        invariant newComponentVec == Nones(n)
      {
        newComponentVec := newComponentVec + [None];
        n := n + 1;
      }
      newComponentVec := newComponentVec[entity := Some(c)];
      componentVecs := componentVecs + [Column(k, newComponentVec)];
      borrows := borrows + [Unborrowed];
    }

    /** The `push_none` loop of `spawn`: one more empty slot in every column. */
    method PushNoneAll()
      requires Valid() && NothingBorrowed()
      modifies this
      ensures entitiesCount == old(entitiesCount) && borrows == old(borrows)
      ensures componentVecs == Grown(old(componentVecs))
    {
      var i := 0;
      while i < |componentVecs|
        invariant 0 <= i <= |componentVecs| == |old(componentVecs)|
        invariant forall j :: 0 <= j < i ==> componentVecs[j] == PushNone(old(componentVecs)[j])
        invariant forall j :: i <= j < |componentVecs| ==> componentVecs[j] == old(componentVecs)[j]
        invariant entitiesCount == old(entitiesCount) && borrows == old(borrows)
      {
        componentVecs := componentVecs[i := PushNone(componentVecs[i])];
        i := i + 1;
      }
    }

    /** Allocates the next entity id, grows every column by one empty slot,
        then applies `components` to the new entity in list order. */
    method Spawn(components: seq<Component>) returns (entityId: nat)
      requires Valid() && NothingBorrowed()
      modifies this
      ensures Valid() && NothingBorrowed()
      ensures entityId == old(entitiesCount) && entitiesCount == old(entitiesCount) + 1
      ensures componentVecs == InsertedAll(Grown(old(componentVecs)), entitiesCount, entityId, components)
    {
      entityId := entitiesCount;
      PushNoneAll();
      entitiesCount := entitiesCount + 1;
      GrownWellformed(old(entitiesCount), old(componentVecs));
      ghost var grown := componentVecs;
      var j := 0;
      while j < |components|
        invariant 0 <= j <= |components|
        invariant Valid() && NothingBorrowed()
        invariant entitiesCount == old(entitiesCount) + 1 && entityId < entitiesCount
        invariant Wellformed(entitiesCount, grown)
        invariant componentVecs == InsertedAll(grown, entitiesCount, entityId, components[..j])
      {
        AddComponentToEntity(entityId, components[j]);
        assert components[..j + 1][..j] == components[..j];
        j := j + 1;
      }
      assert components[..|components|] == components;
    }

    /** `borrow_compvec`: a shared view of the column of kind `k`. It fails
        only while that same column is mutably borrowed. */
    method BorrowCompvec(k: Kind) returns (r: BorrowOutcome)
      requires Valid()
      modifies this
      ensures Valid()
      ensures entitiesCount == old(entitiesCount) && componentVecs == old(componentVecs)
      ensures FindColumn(componentVecs, k).None? ==> r == NoColumn && borrows == old(borrows)
      ensures FindColumn(componentVecs, k).Some? ==>
        var i := FindColumn(componentVecs, k).value;
        match old(borrows)[i]
        case Exclusive => r == BorrowConflict && borrows == old(borrows)
        case Unborrowed => r == View(componentVecs[i].slots) && borrows == old(borrows)[i := Shared(1)]
        case Shared(n) => r == View(componentVecs[i].slots) && borrows == old(borrows)[i := Shared(n + 1)]
    {
      var i := 0;
      while i < |componentVecs|
        invariant 0 <= i <= |componentVecs|
        invariant borrows == old(borrows)
        invariant forall j :: 0 <= j < i ==> componentVecs[j].kind != k
      {
        if componentVecs[i].kind == k {
          match borrows[i] {
            case Exclusive =>
              r := BorrowConflict;
            case Unborrowed =>
              borrows := borrows[i := Shared(1)];
              r := View(componentVecs[i].slots);
            case Shared(n) =>
              borrows := borrows[i := Shared(n + 1)];
              r := View(componentVecs[i].slots);
          }
          return;
        }
        i := i + 1;
      }
      r := NoColumn;
    }

    /** `borrow_compvec_mut`: an exclusive view of the column of kind `k`. It
        fails while that same column has any live borrow. */
    method BorrowCompvecMut(k: Kind) returns (r: BorrowOutcome)
      requires Valid()
      modifies this
      ensures Valid()
      ensures entitiesCount == old(entitiesCount) && componentVecs == old(componentVecs)
      ensures FindColumn(componentVecs, k).None? ==> r == NoColumn && borrows == old(borrows)
      ensures FindColumn(componentVecs, k).Some? ==>
        var i := FindColumn(componentVecs, k).value;
        if old(borrows)[i] == Unborrowed
        then r == View(componentVecs[i].slots) && borrows == old(borrows)[i := Exclusive]
        else r == BorrowConflict && borrows == old(borrows)
    {
      var i := 0;
      while i < |componentVecs|
        invariant 0 <= i <= |componentVecs|
        invariant borrows == old(borrows)
        invariant forall j :: 0 <= j < i ==> componentVecs[j].kind != k
      {
        if componentVecs[i].kind == k {
          if borrows[i] == Unborrowed {
            borrows := borrows[i := Exclusive];
            r := View(componentVecs[i].slots);
          } else {
            r := BorrowConflict;
          }
          return;
        }
        i := i + 1;
      }
      r := NoColumn;
    }

    /** Dropping one shared view of the column of kind `k`. */
    method ReleaseCompvec(k: Kind)
      requires Valid()
      requires FindColumn(componentVecs, k).Some? && borrows[FindColumn(componentVecs, k).value].Shared?
      modifies this
      ensures Valid()
      ensures entitiesCount == old(entitiesCount) && componentVecs == old(componentVecs)
      ensures var i := FindColumn(componentVecs, k).value;
              var n := old(borrows)[i].readers;
              borrows == old(borrows)[i := if n == 1 then Unborrowed else Shared(n - 1)]
    {
      var i := FindColumn(componentVecs, k).value;
      var n := borrows[i].readers;
      borrows := borrows[i := if n == 1 then Unborrowed else Shared(n - 1)];
    }

    /** Dropping the exclusive view of the column of kind `k`: what was
        written through it, `slots`, is the column's contents from now on.
        The view is exclusive, so nothing could observe the column meanwhile. */
    method ReleaseCompvecMut(k: Kind, slots: seq<Option<Component>>)
      requires Valid()
      requires FindColumn(componentVecs, k).Some? && borrows[FindColumn(componentVecs, k).value] == Exclusive
      requires |slots| == entitiesCount && WellTyped(Column(k, slots))
      modifies this
      ensures Valid()
      ensures entitiesCount == old(entitiesCount)
      ensures var i := FindColumn(old(componentVecs), k).value;
              componentVecs == old(componentVecs)[i := Column(k, slots)] && borrows == old(borrows)[i := Unborrowed]
    {
      var i := FindColumn(componentVecs, k).value;
      componentVecs := componentVecs[i := Column(k, slots)];
      borrows := borrows[i := Unborrowed];
    }

    /** The body of `debug_entity`: the non-empty renderings of the entity's
        slots, in column creation order, separated by ", ". Every column is
        read through `RefCell::borrow`, so none may be mutably borrowed. */
    method DebugEntity(entity: nat, render: Component -> string) returns (out: string)
      requires Valid() && NoWriter()
      ensures out == JoinNonEmpty(Renderings(componentVecs, entity, render))
    {
      out := "";
      var first := true;
      var i := 0;
      while i < |componentVecs|
        invariant 0 <= i <= |componentVecs|
        invariant out == JoinNonEmpty(Renderings(componentVecs[..i], entity, render))
        invariant first <==> out == ""
      {
        var output := FmtEntity(componentVecs[i], entity, render);
        assert Renderings(componentVecs[..i + 1], entity, render)
            == Renderings(componentVecs[..i], entity, render) + [output];
        if output != "" {
          if !first {
            out := out + ", ";
          }
          out := out + output;
          first := false;
        }
        i := i + 1;
      }
      assert componentVecs[..i] == componentVecs;
    }
  }

  /** `ComponentVec::fmt_entity`: the rendering of the slot's component, and
      nothing when `entity` is out of range or the slot is empty. */
  function FmtEntity(col: Column, entity: nat, render: Component -> string): (r: string)
    ensures r != "" ==> entity < |col.slots| && col.slots[entity].Some?
    ensures entity < |col.slots| && col.slots[entity].Some? ==> r == render(col.slots[entity].value)
  {
    if entity < |col.slots| && col.slots[entity].Some? then render(col.slots[entity].value) else ""
  }

  function Renderings(cols: seq<Column>, entity: nat, render: Component -> string): (r: seq<string>)
    ensures |r| == |cols| && forall i :: 0 <= i < |cols| ==> r[i] == FmtEntity(cols[i], entity, render)
  {
    seq(|cols|, i requires 0 <= i < |cols| => FmtEntity(cols[i], entity, render))
  }

  /** The non-empty parts, in order, separated by ", ". */
  function JoinNonEmpty(parts: seq<string>): (r: string)
    ensures r == "" <==> forall i :: 0 <= i < |parts| ==> parts[i] == ""
  {
    if |parts| == 0 then ""
    else
      var prev := JoinNonEmpty(parts[..|parts| - 1]);
      var last := parts[|parts| - 1];
      if last == "" then prev
      else if prev == "" then last
      else prev + ", " + last
  }

  /** What `spawn` does to every slot: the rows of earlier entities keep
      their contents, the new row holds the last component of each kind in
      the list (last write wins) and is empty for kinds the list lacks. */
  lemma SpawnedSlot(count: nat, cols: seq<Column>, components: seq<Component>, k: Kind, e: nat)
    requires Wellformed(count, cols)
    ensures Wellformed(count + 1, Grown(cols))
    ensures Slot(InsertedAll(Grown(cols), count + 1, count, components), k, e) ==
            if e < count then Slot(cols, k, e)
            else if e == count then LastOfKind(components, k)
            else None
  {
    GrownWellformed(count, cols);
    InsertedAllSlot(Grown(cols), count + 1, count, components, k, e);
    GrownSlot(count, cols, k, e);
  }

  /** Spawning A with Health(100) and Position(10, 10), then B with
      Health(50) only, leaves a Health column [100, 50] and a Position column
      with A's position and an empty slot for B. */
  method SpawnScenario() returns (healths: BorrowOutcome, positions: BorrowOutcome)
    ensures healths == View([Some(HealthComp(Health(100))), Some(HealthComp(Health(50)))])
    ensures positions == View([Some(PositionComp(Position(10, 10))), None])
  {
    var world := new World();
    var a := world.Spawn([HealthComp(Health(100)), PositionComp(Position(10, 10))]);
    var b := world.Spawn([HealthComp(Health(50))]);
    healths := world.BorrowCompvec(HealthKind);
    positions := world.BorrowCompvec(PositionKind);
  }

  /** Round trip: a component just added to an entity is what a shared view
      of its column shows at that entity's row. */
  method BorrowAfterAdd(world: World, entity: nat, c: Component) returns (r: BorrowOutcome)
    requires world.Valid() && world.NothingBorrowed()
    requires entity < world.entitiesCount
    modifies world
    ensures world.Valid() && world.entitiesCount == old(world.entitiesCount)
    ensures r.View? && |r.slots| == world.entitiesCount && r.slots[entity] == Some(c)
  {
    world.AddComponentToEntity(entity, c);
    InsertedSlot(old(world.componentVecs), world.entitiesCount, entity, c, KindOf(c), entity);
    r := world.BorrowCompvec(KindOf(c));
  }

  /** While the Position column is mutably borrowed, a shared borrow of the
      Health column still succeeds, and a shared borrow of Position fails
      (where the source panics, so nothing follows it). */
  method BorrowScenario() returns (writer: BorrowOutcome, reader: BorrowOutcome, other: BorrowOutcome)
    ensures writer == View([Some(PositionComp(Position(10, 10)))])
    ensures reader == BorrowConflict
    ensures other == View([Some(HealthComp(Health(100)))])
  {
    var world := new World();
    var a := world.Spawn([HealthComp(Health(100)), PositionComp(Position(10, 10))]);
    writer := world.BorrowCompvecMut(PositionKind);
    other := world.BorrowCompvec(HealthKind);
    reader := world.BorrowCompvec(PositionKind);
  }
}
