/** The table both World drafts keep: an ordered list of columns, one per
    component kind, each holding one nullable slot per entity. The
    functions here are the values the World methods are proved against. */
module Table {
  import opened Wrappers
  import opened Components

  /** A `Vec<Option<T>>` together with the kind `T` it was created for. */
  datatype Column = Column(kind: Kind, slots: seq<Option<Component>>)

  /** Every filled slot holds a component of the column's kind. */
  predicate WellTyped(col: Column) {
    forall e :: 0 <= e < |col.slots| && col.slots[e].Some? ==> KindOf(col.slots[e].value) == col.kind
  }

  /** The World invariant: every column has one slot per entity, and no two
      columns share a kind. */
  predicate Wellformed(count: nat, cols: seq<Column>) {
    && (forall i :: 0 <= i < |cols| ==> |cols[i].slots| == count && WellTyped(cols[i]))
    && (forall i, j :: 0 <= i < j < |cols| ==> cols[i].kind != cols[j].kind)
  }

  /** The index of the first column of kind `k`, as the linear downcast scan finds it. */
  function FindColumn(cols: seq<Column>, k: Kind): (r: Option<nat>)
    ensures r.None? <==> forall i :: 0 <= i < |cols| ==> cols[i].kind != k
    ensures r.Some? ==> r.value < |cols| && cols[r.value].kind == k
    ensures r.Some? ==> forall i :: 0 <= i < r.value ==> cols[i].kind != k
  {
    if |cols| == 0 then None
    else if cols[0].kind == k then Some(0)
    else match FindColumn(cols[1..], k)
      case None => None
      case Some(i) => Some(i + 1)
  }

  /** The scan only looks at kinds: two tables with the same kinds in the
      same order find the same column. */
  lemma {:induction false} FindColumnByKinds(a: seq<Column>, b: seq<Column>, k: Kind)
    requires |a| == |b| && forall i :: 0 <= i < |a| ==> a[i].kind == b[i].kind
    ensures FindColumn(a, k) == FindColumn(b, k)
  {
    if |a| > 0 && a[0].kind != k {
      FindColumnByKinds(a[1..], b[1..], k);
    }
  }

  /** Appending a column of another kind does not change where `k` is found. */
  lemma {:induction false} FindColumnAppend(cols: seq<Column>, col: Column, k: Kind)
    requires col.kind != k
    ensures FindColumn(cols + [col], k) == FindColumn(cols, k)
  {
    if |cols| > 0 && cols[0].kind != k {
      assert (cols + [col])[1..] == cols[1..] + [col];
      FindColumnAppend(cols[1..], col, k);
    }
  }

  /** The component in slot `entity` of the column of kind `k`; `None` when
      that column does not exist or the slot is empty. */
  function Slot(cols: seq<Column>, k: Kind, entity: nat): Option<Component> {
    match FindColumn(cols, k)
    case None => None
    case Some(i) => if entity < |cols[i].slots| then cols[i].slots[entity] else None
  }

  /** `ComponentVec::push_none`. */
  function PushNone(col: Column): (r: Column)
    ensures r.kind == col.kind && |r.slots| == |col.slots| + 1
    ensures r.slots[..|col.slots|] == col.slots && r.slots[|col.slots|] == None
  {
    col.(slots := col.slots + [None])
  }

  /** Every column after `push_none`, in order. */
  function Grown(cols: seq<Column>): (r: seq<Column>)
    ensures |r| == |cols| && forall i :: 0 <= i < |cols| ==> r[i] == PushNone(cols[i])
  {
    seq(|cols|, i requires 0 <= i < |cols| => PushNone(cols[i]))
  }

  /** Growing every column by one empty slot keeps the invariant for one
      more entity. */
  lemma GrownWellformed(count: nat, cols: seq<Column>)
    requires Wellformed(count, cols)
    ensures Wellformed(count + 1, Grown(cols))
  {
    var g := Grown(cols);
    forall i | 0 <= i < |g| ensures WellTyped(g[i]) {
      assert forall e :: 0 <= e < count ==> g[i].slots[e] == cols[i].slots[e];
    }
  }

  /** Growing leaves the existing slots alone and leaves the new row empty. */
  lemma GrownSlot(count: nat, cols: seq<Column>, k: Kind, e: nat)
    requires Wellformed(count, cols)
    ensures Slot(Grown(cols), k, e) == if e < count then Slot(cols, k, e) else None
  {
    FindColumnByKinds(cols, Grown(cols), k);
  }

  function Nones(n: nat): (r: seq<Option<Component>>)
    ensures |r| == n && forall i :: 0 <= i < n ==> r[i] == None
  {
    seq(n, _ => None)
  }

  /** The column created for a kind seen for the first time: backfilled with
      one empty slot per existing entity, then `c` written at `entity`. */
  function NewColumn(count: nat, entity: nat, c: Component): (r: Column)
    requires entity < count
    ensures r.kind == KindOf(c) && |r.slots| == count
    ensures forall e :: 0 <= e < count ==> r.slots[e] == if e == entity then Some(c) else None
  {
    Column(KindOf(c), Nones(count)[entity := Some(c)])
  }

  /** The table after `add_component_to_entity(entity, c)`: overwrite slot
      `entity` of the column of `c`'s kind, or append a new column for it. */
  function Inserted(cols: seq<Column>, count: nat, entity: nat, c: Component): (r: seq<Column>)
    requires Wellformed(count, cols) && entity < count
    ensures Wellformed(count, r)
  {
    match FindColumn(cols, KindOf(c))
    case Some(i) => cols[i := cols[i].(slots := cols[i].slots[entity := Some(c)])]
    case None => cols + [NewColumn(count, entity, c)]
  }

  /** When the kind has a column: only slot `entity` of it changes, to
      `Some(c)`; every other slot, every other column and the order of the
      columns stay as they were. */
  lemma InsertedExisting(cols: seq<Column>, count: nat, entity: nat, c: Component)
    requires Wellformed(count, cols) && entity < count
    requires FindColumn(cols, KindOf(c)).Some?
    ensures var i := FindColumn(cols, KindOf(c)).value;
            var r := Inserted(cols, count, entity, c);
            && |r| == |cols|
            && r[i].kind == cols[i].kind
            && r[i].slots[entity] == Some(c)
            && (forall e :: 0 <= e < count && e != entity ==> r[i].slots[e] == cols[i].slots[e])
            && (forall j :: 0 <= j < |cols| && j != i ==> r[j] == cols[j])
  {
  }

  /** When the kind has no column: one column is appended last, of length
      `count`, empty everywhere except `Some(c)` at `entity`. */
  lemma InsertedNew(cols: seq<Column>, count: nat, entity: nat, c: Component)
    requires Wellformed(count, cols) && entity < count
    requires FindColumn(cols, KindOf(c)).None?
    ensures var r := Inserted(cols, count, entity, c);
            && |r| == |cols| + 1
            && r[..|cols|] == cols
            && r[|cols|].kind == KindOf(c)
            && |r[|cols|].slots| == count
            && forall e :: 0 <= e < count ==> r[|cols|].slots[e] == (if e == entity then Some(c) else None)
  {
  }

  /** Read back through the kind: the slot just written holds `c`, and every
      other (kind, entity) slot reads as before. */
  lemma InsertedSlot(cols: seq<Column>, count: nat, entity: nat, c: Component, k: Kind, e: nat)
    requires Wellformed(count, cols) && entity < count
    ensures Slot(Inserted(cols, count, entity, c), k, e) ==
            if k == KindOf(c) && e == entity then Some(c) else Slot(cols, k, e)
  {
    if FindColumn(cols, KindOf(c)).Some? {
      InsertedSlotExisting(cols, count, entity, c, k, e);
    } else {
      InsertedSlotNew(cols, count, entity, c, k, e);
    }
  }

  lemma InsertedSlotExisting(cols: seq<Column>, count: nat, entity: nat, c: Component, k: Kind, e: nat)
    requires Wellformed(count, cols) && entity < count
    requires FindColumn(cols, KindOf(c)).Some?
    ensures Slot(Inserted(cols, count, entity, c), k, e) ==
            if k == KindOf(c) && e == entity then Some(c) else Slot(cols, k, e)
  {
    var i := FindColumn(cols, KindOf(c)).value;
    var r := cols[i := cols[i].(slots := cols[i].slots[entity := Some(c)])];
    assert Inserted(cols, count, entity, c) == r;
    FindColumnByKinds(cols, r, k);
  }

  lemma InsertedSlotNew(cols: seq<Column>, count: nat, entity: nat, c: Component, k: Kind, e: nat)
    requires Wellformed(count, cols) && entity < count
    requires FindColumn(cols, KindOf(c)).None?
    ensures Slot(Inserted(cols, count, entity, c), k, e) ==
            if k == KindOf(c) && e == entity then Some(c) else Slot(cols, k, e)
  {
    var col := NewColumn(count, entity, c);
    var r := cols + [col];
    assert Inserted(cols, count, entity, c) == r;
    if k != KindOf(c) {
      FindColumnAppend(cols, col, k);
    } else {
      assert r[|cols|].kind == k;
      assert forall i :: 0 <= i < |cols| ==> r[i] == cols[i];
      assert FindColumn(r, k) == Some(|cols|);
    }
  }

  /** Inserting can only append columns: the existing ones keep their place and kind. */
  lemma InsertedKeepsKinds(cols: seq<Column>, count: nat, entity: nat, c: Component)
    requires Wellformed(count, cols) && entity < count
    ensures var r := Inserted(cols, count, entity, c);
            |cols| <= |r| <= |cols| + 1 && forall i :: 0 <= i < |cols| ==> r[i].kind == cols[i].kind
  {
  }

  /** The table after applying `cs` to `entity` one after the other, in list order. */
  function InsertedAll(cols: seq<Column>, count: nat, entity: nat, cs: seq<Component>): (r: seq<Column>)
    requires Wellformed(count, cols) && entity < count
    ensures Wellformed(count, r)
    decreases |cs|
  {
    if |cs| == 0 then cols
    else Inserted(InsertedAll(cols, count, entity, cs[..|cs| - 1]), count, entity, cs[|cs| - 1])
  }

  /** The last component of kind `k` in `cs`, if any. */
  function LastOfKind(cs: seq<Component>, k: Kind): (r: Option<Component>)
    ensures r.Some? ==> r.value in cs && KindOf(r.value) == k
    ensures r.None? <==> forall i :: 0 <= i < |cs| ==> KindOf(cs[i]) != k
    ensures r.Some? ==> exists i :: 0 <= i < |cs| && cs[i] == r.value && forall j :: i < j < |cs| ==> KindOf(cs[j]) != k
  {
    if |cs| == 0 then None
    else if KindOf(cs[|cs| - 1]) == k then Some(cs[|cs| - 1])
    else LastOfKind(cs[..|cs| - 1], k)
  }

  /** Last write wins: after applying `cs`, slot `entity` of kind `k` holds
      the last component of that kind in `cs`; every other slot, and that one
      when `cs` has no component of kind `k`, is as before. */
  lemma {:induction false} InsertedAllSlot(cols: seq<Column>, count: nat, entity: nat, cs: seq<Component>, k: Kind, e: nat)
    requires Wellformed(count, cols) && entity < count
    ensures Slot(InsertedAll(cols, count, entity, cs), k, e) ==
            if e == entity && LastOfKind(cs, k).Some? then LastOfKind(cs, k) else Slot(cols, k, e)
    decreases |cs|
  {
    if |cs| > 0 {
      var init := cs[..|cs| - 1];
      InsertedAllSlot(cols, count, entity, init, k, e);
      InsertedSlot(InsertedAll(cols, count, entity, init), count, entity, cs[|cs| - 1], k, e);
    }
  }

  /** Applying components only appends columns, so creation order is kept. */
  lemma {:induction false} InsertedAllKeepsKinds(cols: seq<Column>, count: nat, entity: nat, cs: seq<Component>)
    requires Wellformed(count, cols) && entity < count
    ensures var r := InsertedAll(cols, count, entity, cs);
            |cols| <= |r| <= |cols| + |cs| && forall i :: 0 <= i < |cols| ==> r[i].kind == cols[i].kind
    decreases |cs|
  {
    if |cs| > 0 {
      var init := cs[..|cs| - 1];
      InsertedAllKeepsKinds(cols, count, entity, init);
      InsertedKeepsKinds(InsertedAll(cols, count, entity, init), count, entity, cs[|cs| - 1]);
    }
  }
}
