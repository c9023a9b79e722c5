/** The two systems of src/systems/movement.rs. Each receives the contents
    of borrowed columns (the targets of a `RefMut` or a `Ref`) as arrays
    and updates them in place. */
module Movement {
  import opened Wrappers
  import opened Numeric
  import opened Constants
  import opened Input
  import opened Components

  /** `p.x += v.x; p.y += v.y` cannot overflow `i32` when both slots are filled. */
  predicate StepFits(p: Option<Position>, v: Option<Velocity>) {
    p.Some? && v.Some? ==>
      InI32(p.value.x as int + v.value.x as int) && InI32(p.value.y as int + v.value.y as int)
  }

  /** One slot of the lock-step pass: moved by its velocity, unclamped, when
      both slots are filled; unchanged otherwise. */
  function Stepped(p: Option<Position>, v: Option<Velocity>): (r: Option<Position>)
    requires StepFits(p, v)
    ensures r.Some? <==> p.Some?
    ensures v.None? ==> r == p
    ensures p.Some? && v.Some? ==>
      r.value.x as int - p.value.x as int == v.value.x as int &&
      r.value.y as int - p.value.y as int == v.value.y as int
  {
    match (p, v)
    case (Some(p'), Some(v')) => Some(Position(p'.x + v'.x, p'.y + v'.y))
    case _ => p
  }

  /** `advance_position_sys`: zips the two columns; rows past the shorter one
      and rows with an empty side are left alone; velocities are only read. */
  method AdvancePositionSys(positions: array<Option<Position>>, velocities: array<Option<Velocity>>)
    requires forall i :: 0 <= i < positions.Length && i < velocities.Length ==> StepFits(positions[i], velocities[i])
    modifies positions
    ensures forall i :: 0 <= i < positions.Length && i < velocities.Length ==>
      positions[i] == Stepped(old(positions[i]), velocities[i])
    ensures forall i :: velocities.Length <= i < positions.Length ==> positions[i] == old(positions[i])
    ensures velocities[..] == old(velocities[..])
  {
    var n := if positions.Length < velocities.Length then positions.Length else velocities.Length;
    var i := 0;
    while i < n
      invariant 0 <= i <= n
      invariant forall j :: 0 <= j < i ==> positions[j] == Stepped(old(positions[j]), velocities[j])
      invariant forall j :: i <= j < positions.Length ==> positions[j] == old(positions[j])
    {
      match (positions[i], velocities[i]) {
        case (Some(p), Some(v)) =>
          positions[i] := Some(Position(p.x + v.x, p.y + v.y));
        case _ =>
      }
      i := i + 1;
    }
  }

  /** The velocity for one key: the player's up/down/right/left delta. */
  function VelocityFor(input: Key): (v: Velocity)
    ensures v.x == 0 || v.y == 0
    ensures (v.x, v.y) == ControlDelta(PLAYER_CONTROLS, input)
  {
    var d := ControlDelta(PLAYER_CONTROLS, input);
    Velocity(d.0, d.1)
  }

  /** W, S, D and A give (0, -speed), (0, speed), (speed, 0) and (-speed, 0);
      every other key gives (0, 0). */
  lemma VelocityForKeys(input: Key)
    ensures VelocityFor(input) ==
      match input
      case W => Velocity(0, -PLAYER_SPEED)
      case S => Velocity(0, PLAYER_SPEED)
      case D => Velocity(PLAYER_SPEED, 0)
      case A => Velocity(-PLAYER_SPEED, 0)
      case _ => Velocity(0, 0)
  {
    PlayerControlsDelta(input);
  }

  /** `advance_velocity_sys`: no input leaves every velocity alone; a key
      overwrites every filled slot with that key's velocity and leaves empty
      slots empty. */
  method AdvanceVelocitySys(velocities: array<Option<Velocity>>, input: Option<Key>)
    modifies velocities
    ensures input.None? ==> velocities[..] == old(velocities[..])
    ensures input.Some? ==> forall i :: 0 <= i < velocities.Length ==>
      velocities[i] == if old(velocities[i]).Some? then Some(VelocityFor(input.value)) else None
  {
    var inputKey := Q;
    match input {
      case Some(ik) =>
        inputKey := ik;
      case None =>
        return;
    }
    var vNew := VelocityFor(inputKey);
    var i := 0;
    while i < velocities.Length
      invariant 0 <= i <= velocities.Length
      invariant forall j :: 0 <= j < i ==> velocities[j] == if old(velocities[j]).Some? then Some(vNew) else None
      invariant forall j :: i <= j < velocities.Length ==> velocities[j] == old(velocities[j])
    {
      if velocities[i].Some? {
        velocities[i] := Some(vNew);
      }
      i := i + 1;
    }
  }

  /** A at (10, 10) with velocity (1, 1) moves to (11, 11); B at (0, 0)
      without a velocity stays. */
  method MovementScenario() returns (after: seq<Option<Position>>)
    ensures after == [Some(Position(11, 11)), Some(Position(0, 0))]
  {
    var positions := new Option<Position>[2];
    positions[0], positions[1] := Some(Position(10, 10)), Some(Position(0, 0));
    var velocities := new Option<Velocity>[2];
    velocities[0], velocities[1] := Some(Velocity(1, 1)), None;
    AdvancePositionSys(positions, velocities);
    after := positions[..];
  }
}
