/** Game-wide constants: the character grid and the player's controls. */
module Constants {
  import opened Numeric

  const WINDOW_WIDTH: nat := 40
  const WINDOW_HEIGHT: nat := 20

  /** The keyboard keys the game distinguishes; every other key code is `OtherKey`. */
  datatype Key = W | S | D | A | Q | OtherKey(code: nat)

  datatype Controls = Controls(up: Key, down: Key, right: Key, left: Key)

  /** Up W, down S, right D, left A. */
  const PLAYER_CONTROLS: Controls := Controls(W, S, D, A)

  /** Cells moved per step. */
  const PLAYER_SPEED: i32 := 1

  /** No key is bound to two directions. */
  predicate DistinctControls(c: Controls) {
    && c.up != c.down && c.up != c.right && c.up != c.left
    && c.down != c.right && c.down != c.left
    && c.right != c.left
  }
}
