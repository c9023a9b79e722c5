/** How keys become movement deltas: the single-key `match` shared by
    `Player::apply_input` and `advance_velocity_sys`, and the held-key
    accumulation of `Player::update` / `Player::test_update`. */
module Input {
  import opened Numeric
  import opened Constants

  /** The delta for one key, tested in the order up, down, right, left;
      a key bound to none of them does not move. */
  function ControlDelta(c: Controls, k: Key): (d: (i32, i32))
    ensures d.0 == 0 || d.1 == 0
    ensures -PLAYER_SPEED <= d.0 <= PLAYER_SPEED && -PLAYER_SPEED <= d.1 <= PLAYER_SPEED
    ensures d != (0, 0) <==> k in {c.up, c.down, c.right, c.left}
  {
    if k == c.up then (0, -PLAYER_SPEED)
    else if k == c.down then (0, PLAYER_SPEED)
    else if k == c.right then (PLAYER_SPEED, 0)
    else if k == c.left then (-PLAYER_SPEED, 0)
    else (0, 0)
  }

  /** With the player's W/S/D/A bindings each key moves one way only. */
  lemma PlayerControlsDelta(k: Key)
    ensures ControlDelta(PLAYER_CONTROLS, k) ==
      match k
      case W => (0, -PLAYER_SPEED)
      case S => (0, PLAYER_SPEED)
      case D => (PLAYER_SPEED, 0)
      case A => (-PLAYER_SPEED, 0)
      case _ => (0, 0)
  {
  }

  /** The match tests `up` first: a key bound both to up and to another
      direction moves up. */
  lemma UpTakesPriority(c: Controls)
    ensures ControlDelta(c, c.up) == (0, -PLAYER_SPEED)
  {
  }

  /** With no key bound to two directions, each binding moves its own way. */
  lemma DistinctControlsDelta(c: Controls)
    requires DistinctControls(c)
    ensures ControlDelta(c, c.up) == (0, -PLAYER_SPEED)
    ensures ControlDelta(c, c.down) == (0, PLAYER_SPEED)
    ensures ControlDelta(c, c.right) == (PLAYER_SPEED, 0)
    ensures ControlDelta(c, c.left) == (-PLAYER_SPEED, 0)
  {
  }

  function Held(c: Key, keys: seq<Key>): int {
    if c in keys then PLAYER_SPEED as int else 0
  }

  /** The delta for a set of held keys: right adds and left subtracts on x,
      down adds and up subtracts on y. */
  function HeldDelta(c: Controls, keys: seq<Key>): (d: (i32, i32))
    ensures d.0 as int == Held(c.right, keys) - Held(c.left, keys)
    ensures d.1 as int == Held(c.down, keys) - Held(c.up, keys)
  {
    ((Held(c.right, keys) - Held(c.left, keys)) as i32,
     (Held(c.down, keys) - Held(c.up, keys)) as i32)
  }

  /** Opposite keys cancel: holding right and left leaves x alone, holding
      up and down leaves y alone. */
  lemma OppositeKeysCancel(c: Controls, keys: seq<Key>)
    ensures (c.right in keys <==> c.left in keys) ==> HeldDelta(c, keys).0 == 0
    ensures (c.up in keys <==> c.down in keys) ==> HeldDelta(c, keys).1 == 0
  {
  }

  /** Holding a single key moves as pressing it does, as long as no key is
      bound to two directions. */
  lemma SingleHeldKeyIsControlDelta(c: Controls, k: Key)
    requires DistinctControls(c)
    ensures HeldDelta(c, [k]) == ControlDelta(c, k)
  {
  }
}
