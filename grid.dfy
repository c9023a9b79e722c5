/** The clamp onto the `WINDOW_WIDTH` x `WINDOW_HEIGHT` grid that both
    `Position::add` and `Movable::move_pos` apply after adding a delta. */
module Grid {
  import opened Numeric
  import opened Constants

  predicate InGrid(x: int, y: int) {
    0 <= x < WINDOW_WIDTH && 0 <= y < WINDOW_HEIGHT
  }

  /** A coordinate pair clamped into the grid, axis by axis. */
  function ClampToGrid(x: int, y: int): (r: (i32, i32))
    ensures InGrid(r.0 as int, r.1 as int)
    ensures (r.0 as int, r.1 as int) == (x, y) <==> InGrid(x, y)
    ensures 0 <= x < WINDOW_WIDTH ==> r.0 as int == x
    ensures 0 <= y < WINDOW_HEIGHT ==> r.1 as int == y
    ensures x < 0 ==> r.0 == 0
    ensures y < 0 ==> r.1 == 0
    ensures WINDOW_WIDTH <= x ==> r.0 as int == WINDOW_WIDTH - 1
    ensures WINDOW_HEIGHT <= y ==> r.1 as int == WINDOW_HEIGHT - 1
  {
    (Clamp(x, 0, WINDOW_WIDTH - 1) as i32, Clamp(y, 0, WINDOW_HEIGHT - 1) as i32)
  }

  /** `pos + delta` does not overflow `i32` on either axis. */
  predicate ShiftFits(pos: (i32, i32), delta: (i32, i32)) {
    InI32(pos.0 as int + delta.0 as int) && InI32(pos.1 as int + delta.1 as int)
  }

  /** Clamping is idempotent: a cell already in the grid stays where it is. */
  lemma ClampInGridIsIdentity(pos: (i32, i32))
    requires InGrid(pos.0 as int, pos.1 as int)
    ensures ClampToGrid(pos.0 as int, pos.1 as int) == pos
  {
  }
}
