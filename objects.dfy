/** src/object.rs: a plain object (sprite and position), and the player and
    enemy that own one and move it inside the grid. */
module Objects {
  import opened Numeric
  import opened Constants
  import opened Grid
  import opened Input

  /** `Object::new(sprite, pos)` is the constructor `Object(sprite, pos)`. */
  datatype Object = Object(sprite: string, pos: (i32, i32))

  /** The position `move_pos` produces: `pos + delta`, clamped into the grid. */
  function Moved(pos: (i32, i32), delta: (i32, i32)): (r: (i32, i32))
    requires ShiftFits(pos, delta)
    ensures InGrid(r.0 as int, r.1 as int)
    // each axis is clamped on its own
    ensures 0 <= pos.0 as int + delta.0 as int < WINDOW_WIDTH ==> r.0 as int == pos.0 as int + delta.0 as int
    ensures 0 <= pos.1 as int + delta.1 as int < WINDOW_HEIGHT ==> r.1 as int == pos.1 as int + delta.1 as int
    ensures pos.0 as int + delta.0 as int < 0 ==> r.0 == 0
    ensures pos.1 as int + delta.1 as int < 0 ==> r.1 == 0
    ensures WINDOW_WIDTH <= pos.0 as int + delta.0 as int ==> r.0 as int == WINDOW_WIDTH - 1
    ensures WINDOW_HEIGHT <= pos.1 as int + delta.1 as int ==> r.1 as int == WINDOW_HEIGHT - 1
  {
    ClampToGrid(pos.0 as int + delta.0 as int, pos.1 as int + delta.1 as int)
  }

  /** The move is exact exactly when the sum lies inside the grid. */
  lemma MovedIsExactIffInGrid(pos: (i32, i32), delta: (i32, i32))
    requires ShiftFits(pos, delta)
    ensures var r := Moved(pos, delta);
            (r.0 as int == pos.0 as int + delta.0 as int && r.1 as int == pos.1 as int + delta.1 as int)
            <==> InGrid(pos.0 as int + delta.0 as int, pos.1 as int + delta.1 as int)
  {
  }

  /** A key bound to no direction leaves an in-grid position where it is. */
  lemma UnmappedKeyKeepsPosition(c: Controls, k: Key, pos: (i32, i32))
    requires k !in {c.up, c.down, c.right, c.left}
    requires InGrid(pos.0 as int, pos.1 as int)
    ensures ShiftFits(pos, ControlDelta(c, k))
    ensures Moved(pos, ControlDelta(c, k)) == pos
  {
    ClampInGridIsIdentity(pos);
  }

  class Player {
    var obj: Object
    var controls: Controls

    /** `Player::new`: the given sprite and position, with the W/S/D/A controls. */
    constructor(sprite: string, pos: (i32, i32))
      ensures obj == Object(sprite, pos) && controls == PLAYER_CONTROLS
    {
      obj := Object(sprite, pos);
      controls := PLAYER_CONTROLS;
    }

    /** `Movable::move_pos`: only the position changes, to the clamped sum. */
    method MovePos(delta: (i32, i32))
      requires ShiftFits(obj.pos, delta)
      modifies this
      ensures obj == old(obj).(pos := Moved(old(obj.pos), delta))
      ensures controls == old(controls)
    {
      obj := obj.(pos := Moved(obj.pos, delta));
    }

    /** Moves by the delta of one key (up, down, right, left, in that order). */
    method ApplyInput(input: Key)
      requires ShiftFits(obj.pos, ControlDelta(controls, input))
      modifies this
      ensures obj == old(obj).(pos := Moved(old(obj.pos), ControlDelta(old(controls), input)))
      ensures controls == old(controls)
    {
      var delta :=
        if input == controls.up then (0, -PLAYER_SPEED)
        else if input == controls.down then (0, PLAYER_SPEED)
        else if input == controls.right then (PLAYER_SPEED, 0)
        else if input == controls.left then (-PLAYER_SPEED, 0)
        else (0, 0);
      MovePos(delta);
    }

    /** `test_update` with the held keys as a parameter: the delta is
        accumulated key by key, then the clamped move is applied once. */
    method TestUpdate(keys: seq<Key>)
      requires ShiftFits(obj.pos, HeldDelta(controls, keys))
      modifies this
      ensures obj == old(obj).(pos := Moved(old(obj.pos), HeldDelta(old(controls), keys)))
      ensures controls == old(controls)
    {
      var delta: (i32, i32) := (0, 0);
      if controls.right in keys {
        delta := (delta.0 + PLAYER_SPEED, delta.1);
      }
      if controls.left in keys {
        delta := (delta.0 - PLAYER_SPEED, delta.1);
      }
      if controls.up in keys {
        delta := (delta.0, delta.1 - PLAYER_SPEED);
      }
      if controls.down in keys {
        delta := (delta.0, delta.1 + PLAYER_SPEED);
      }
      MovePos(delta);
    }
  }

  class Enemy {
    var obj: Object

    /** `Enemy::new`: the given sprite and position. */
    constructor(sprite: string, pos: (i32, i32))
      ensures obj == Object(sprite, pos)
    {
      obj := Object(sprite, pos);
    }

    /** `Movable::move_pos`: as for the player, only the position changes. */
    method MovePos(delta: (i32, i32))
      requires ShiftFits(obj.pos, delta)
      modifies this
      ensures obj == old(obj).(pos := Moved(old(obj.pos), delta))
    {
      obj := obj.(pos := Moved(obj.pos, delta));
    }
  }
}
