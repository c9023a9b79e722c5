/** The component value types of both World drafts, and the closed set of
    component kinds that stands in for Rust's run-time type identity. */
module Components {
  import opened Numeric
  import opened Constants
  import opened Grid

  datatype Health = Health(hp: i32)

  /** A grid position. `Position::add` mutates `self`; here it returns the
      updated value, which the caller stores back. */
  datatype Position = Position(x: i32, y: i32) {
    /** `x + dx` and `y + dy` do not overflow `i32`. */
    predicate CanAdd(delta: (i32, i32)) {
      ShiftFits((x, y), delta)
    }

    /** Adds `delta` and clamps the result into the grid. */
    function Add(delta: (i32, i32)): (r: Position)
      requires CanAdd(delta)
      ensures InGrid(r.x as int, r.y as int)
      ensures (r.x as int == x as int + delta.0 as int && r.y as int == y as int + delta.1 as int)
              <==> InGrid(x as int + delta.0 as int, y as int + delta.1 as int)
      // each axis is clamped on its own
      ensures 0 <= x as int + delta.0 as int < WINDOW_WIDTH ==> r.x as int == x as int + delta.0 as int
      ensures 0 <= y as int + delta.1 as int < WINDOW_HEIGHT ==> r.y as int == y as int + delta.1 as int
      ensures x as int + delta.0 as int < 0 ==> r.x == 0
      ensures y as int + delta.1 as int < 0 ==> r.y == 0
      ensures WINDOW_WIDTH <= x as int + delta.0 as int ==> r.x as int == WINDOW_WIDTH - 1
      ensures WINDOW_HEIGHT <= y as int + delta.1 as int ==> r.y as int == WINDOW_HEIGHT - 1
    {
      var p := ClampToGrid(x as int + delta.0 as int, y as int + delta.1 as int);
      Position(p.0, p.1)
    }
  }

  /** An integer velocity (the later draft; the earlier draft's is `f32`). */
  datatype Velocity = Velocity(x: i32, y: i32) {
    predicate CanAdd(delta: (i32, i32)) {
      ShiftFits((x, y), delta)
    }

    /** Unclamped componentwise sum. */
    function Add(delta: (i32, i32)): (r: Velocity)
      requires CanAdd(delta)
      ensures r.x as int - x as int == delta.0 as int && r.y as int - y as int == delta.1 as int
    {
      Velocity(x + delta.0, y + delta.1)
    }

    function Zero(): (r: Velocity)
      ensures r.x == 0 && r.y == 0
    {
      Velocity(0, 0)
    }
  }

  /** Adding a delta and then its negation gives back the velocity. */
  lemma VelocityAddInverse(v: Velocity, delta: (i32, i32))
    requires v.CanAdd(delta) && InI32(-(delta.0 as int)) && InI32(-(delta.1 as int))
    ensures v.Add(delta).CanAdd((-delta.0, -delta.1))
    ensures v.Add(delta).Add((-delta.0, -delta.1)) == v
  {
  }

  /** After `zero`, adding a delta sets the velocity to that delta. */
  lemma ZeroThenAdd(v: Velocity, delta: (i32, i32))
    ensures v.Zero().CanAdd(delta)
    ensures v.Zero().Add(delta) == Velocity(delta.0, delta.1)
  {
  }

  datatype Sprite = Sprite(sprite: string) {
    function ToString(): (r: string)
      ensures |r| == |sprite| && forall i :: 0 <= i < |r| ==> r[i] == sprite[i]
    {
      sprite
    }
  }

  /** One kind per component type; two columns have the same type exactly
      when they have the same kind. */
  datatype Kind = HealthKind | PositionKind | VelocityKind | SpriteKind

  /** A component value of any kind, as passed to `add_component_to_entity`
      and held in a column slot. */
  datatype Component =
    | HealthComp(health: Health)
    | PositionComp(position: Position)
    | VelocityComp(velocity: Velocity)
    | SpriteComp(sprite: Sprite)

  function KindOf(c: Component): Kind {
    match c
    case HealthComp(_) => HealthKind
    case PositionComp(_) => PositionKind
    case VelocityComp(_) => VelocityKind
    case SpriteComp(_) => SpriteKind
  }
}
