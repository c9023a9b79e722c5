# A verified model of the rust-2d-game entity-component World

This project models, in Dafny, the core of a small terminal game written in
Rust: its entity-component storage ("World") in two drafts, and the grid,
input and movement rules around it.

- **World.** The World keeps an entity counter and an ordered list of
  columns, one per component type. Each column holds one nullable slot per
  entity.
  - Spawning an entity returns the old count and grows every column by one
    empty slot.
  - Adding a component to an entity overwrites that entity's slot in the
    column of the component's type. If no such column exists yet, it appends
    a new one, backfilled with empty slots.
  - Columns are looked up by a linear scan in creation order.
- **Later draft** (`src/components/components.rs`, module `Ecs`). Each column
  sits behind a `RefCell`, so systems can borrow columns at run time. The model
  gives each column an explicit borrow flag: unborrowed, shared by n readers,
  or exclusive.
- **Earlier draft** (`src/components.rs`, module `EcsDraft`). There is no
  `RefCell`, and entities are created with `new_entity`.
- **Shared value types** (modules `Components` and `Table`). Rust's
  `Any`/`downcast` type erasure becomes a closed `Kind`
  (Health, Position, Velocity, Sprite) plus a `Component` value datatype. A
  column is a `Column(kind, slots)` value, and the World's list of columns is
  a `seq<Column>` field that the methods reassign.
- **Key-to-delta rules** (`Input`). The up, down, right, left match moves a
  player or sets a velocity. The held-key accumulation adds right and down and
  subtracts left and up.
- **Grid clamp** (`Grid`). Positions are clamped onto the 40 x 20 grid.
- **The two systems** (`Movement`). They update borrowed columns in lock-step.
- **`object.rs` and `entity.rs` players and enemies** (`Objects`, `Entities`).
- **The character screen** (`Screens`).

What is proved:
- The World invariant holds after every operation: every column has one slot
  per entity, every filled slot holds its column's kind, and no two columns
  share a kind.
- Frame conditions: adding a component changes only one slot, or appends one
  column.
- Last write wins within one `spawn`.
- A value just written reads back.
- Backfill: a new column is empty except for the slot just written.
- Borrow exclusivity holds per column: one writer or many readers.
- Every grid clamp lands in the grid, and it is exact exactly when the sum is
  already in range.
- Opposite held keys cancel out.
- After an update, each screen cell holds the filler, or the sprite of the
  last object drawn on it.

Three facts about the code shape the model:
- **Column order.** Columns are kept in creation order and scanned linearly,
  and `debug_entity` shows them in that order, so the model keeps the order.
- **Backfill length.** A new column is backfilled with one empty slot per
  entity, up to `entities_count` (src/components/components.rs:100).
- **Borrows during mutation.** `borrow_compvec` and `borrow_compvec_mut`
  borrow `&self`, while `spawn` and `add_component_to_entity` take
  `&mut self`, so neither can run while a view is alive. The model therefore
  requires that no column is borrowed for those two operations.

## Model

| member | source | states |
|---|---|---|
| Numeric.Clamp | src/object.rs:40-41 | `clamp(lo, hi)` gives the nearest point of `[lo, hi]`: `v` itself when it is in range, `lo` below the range, `hi` above it |
| Grid.ClampToGrid | src/components.rs:102-106 | the clamped pair always lies in the 40 x 20 grid; it equals the input exactly when the input is in the grid (both directions); off-grid axes go to 0 or to width-1 / height-1 |
| Grid.ClampInGridIsIdentity | src/object.rs:38-43 | clamping a cell already in the grid leaves it unchanged |
| Components.Position.Add | src/components/components.rs:179-182 | each axis is clamped on its own: the sum on an axis whose sum is in range, 0 below it, width-1 / height-1 above it; so the result is in the grid, and it is the exact sum `(x+dx, y+dy)` exactly when that sum is in the grid; i32 overflow of the sum is excluded |
| Components.Velocity.Add | src/components/components.rs:196-200 | unclamped componentwise sum |
| Components.Velocity.Zero | src/components/components.rs:201-204 | both fields become 0 |
| Components.VelocityAddInverse | src/components/components.rs:196-200 | adding a delta and then its negation restores the velocity |
| Components.ZeroThenAdd | src/components/components.rs:196-204 | after `zero`, adding a delta sets the velocity to that delta |
| Components.Sprite.ToString | src/components.rs:142-144 | returns the stored string, character for character |
| Input.ControlDelta | src/object.rs:55-61 | one-key delta: at most one axis moves, by at most the speed, and the delta is non-zero exactly when the key is bound to one of the four directions |
| Input.PlayerControlsDelta | src/constants.rs:16-29 | with the player's controls, W, S, D and A give (0,-speed), (0,speed), (speed,0) and (-speed,0); any other key gives (0,0) |
| Input.DistinctControlsDelta | src/entity.rs:46-52 | with no key bound to two directions, up gives (0, -speed), down (0, speed), right (speed, 0) and left (-speed, 0) |
| Input.UpTakesPriority | src/entity.rs:46-52 | the match tests `up` first, so a key bound to up moves up whatever else it is bound to |
| Input.HeldDelta | src/object.rs:67-80 | the accumulated delta of a key set: x is +speed for right minus speed for left, and y is +speed for down minus speed for up |
| Input.OppositeKeysCancel | src/entity.rs:61-74 | holding both or neither of right/left gives dx = 0; the same holds for up/down and dy |
| Input.SingleHeldKeyIsControlDelta | src/object.rs:53-83 | with distinct bindings, holding one key gives the same delta as `apply_input` with that key |
| Table.FindColumn | src/components/components.rs:89-96 | the scan finds the first column of the kind; it returns None exactly when no column has that kind |
| Table.FindColumnByKinds | src/components/components.rs:123-128 | the scan depends only on the column kinds, in order |
| Table.PushNone | src/components/components.rs:51-53 | `push_none` keeps the kind and every existing slot and appends one empty slot |
| Table.Grown | src/components/components.rs:110-112 | every column, in order, gets exactly one more empty slot |
| Table.GrownWellformed | src/components/components.rs:109-113 | growing every column keeps the invariant for a count that is one higher |
| Table.GrownSlot | src/components.rs:55-62 | growing leaves every existing slot as it was and leaves the new row empty |
| Table.NewColumn | src/components/components.rs:99-104 | a new column of `c`'s kind with one slot per entity, `Some(c)` at `entity` and `None` everywhere else |
| Table.Inserted | src/components/components.rs:87-105 | adding a component preserves the invariant: one slot per entity, well-typed slots, at most one column per kind |
| Table.InsertedExisting | src/components/components.rs:89-95 | when the kind has a column, only slot `entity` of that column changes, to `Some(c)`; all other slots and columns and the column order are unchanged |
| Table.InsertedNew | src/components/components.rs:99-104 | when the kind has no column, one column is appended last, with length `entities_count`, holding `None` everywhere except `Some(c)` at `entity` |
| Table.InsertedSlot | src/components.rs:66-84 | read back by kind: the slot written holds `c`, and every other (kind, entity) slot reads as before |
| Table.InsertedKeepsKinds | src/components.rs:77-83 | adding only ever appends a column; existing columns keep their place and kind |
| Table.InsertedAll | src/components/components.rs:116-118 | applying a list of components one after another preserves the invariant |
| Table.LastOfKind | src/components/components.rs:116-118 | the last component of kind `k` in the list `spawn` applies: it has that kind and no later component does; None exactly when no component has that kind |
| Table.InsertedAllSlot | src/components/components.rs:116-118 | last write wins: slot `entity` of kind `k` holds the last component of that kind in the list; every other slot is unchanged |
| Table.InsertedAllKeepsKinds | src/components/components.rs:99-104 | applying a list only appends columns, at most one per component, so creation order is kept |
| Ecs.World.constructor | src/components/components.rs:77-82 | a new World has 0 entities, no columns and no borrows |
| Ecs.World.AddComponentToEntity | src/components/components.rs:87-105 | requires `entity < entities_count`; the count is unchanged and the columns become `Inserted(old columns, ...)`, so the invariant is kept |
| Ecs.World.PushNoneAll | src/components/components.rs:110-112 | the `push_none` loop appends one empty slot to every column and changes nothing else |
| Ecs.World.Spawn | src/components/components.rs:107-120 | returns the old count, increases the count by one, grows every column, then applies the components in list order; the invariant is kept |
| Ecs.SpawnedSlot | src/components/components.rs:107-120 | after `spawn`, the rows of earlier entities are unchanged; the new row holds the last component of each kind in the list, and `None` for kinds the list lacks |
| Ecs.World.BorrowCompvec | src/components/components.rs:133-142 | no column of that kind gives `NoColumn`; a column that is mutably borrowed gives a conflict; otherwise the result is a view of that column and its reader count goes up by one; no other column's flag changes |
| Ecs.World.BorrowCompvecMut | src/components/components.rs:122-131 | no column gives `NoColumn`; if that column has any live borrow the result is a conflict; otherwise the result is a view and the column becomes exclusively borrowed; no other column's flag changes |
| Ecs.World.ReleaseCompvec | src/components/components.rs:138 | dropping a shared view decrements that column's reader count, and the column becomes unborrowed after its last reader |
| Ecs.World.ReleaseCompvecMut | src/components/components.rs:127 | dropping the exclusive view stores its contents as the column and makes the column unborrowed |
| Ecs.FmtEntity | src/components/components.rs:61-67 | writes nothing when `entity` is out of range or the slot is empty; otherwise writes the slot's rendering |
| Ecs.Renderings | src/components/components.rs:148-151 | one rendering per column, in column order |
| Ecs.JoinNonEmpty | src/components/components.rs:152-158 | the joined text is empty exactly when every part is empty |
| Ecs.World.DebugEntity | src/components/components.rs:145-161 | the loop with the `first` flag produces exactly the non-empty renderings joined by ", ", in column order; no column may be mutably borrowed |
| Ecs.SpawnScenario | src/components/components.rs:107-142 | after spawning A with Health(100) and Position(10,10), then B with Health(50), the Health view is `[100, 50]` and the Position view is `[(10,10), None]` |
| Ecs.BorrowAfterAdd | src/components/components.rs:87-142 | a component just added to an entity is what a shared view of its column shows at that entity's row, and the view has one slot per entity |
| Ecs.BorrowScenario | src/components/components.rs:122-142 | while the Position column is mutably borrowed, a shared borrow of the Health column still yields its contents, and a shared borrow of Position then conflicts (the step where the source panics comes last) |
| EcsDraft.World.constructor | src/components.rs:48-53 | a new World has 0 entities and no columns |
| EcsDraft.World.NewEntity | src/components.rs:55-62 | returns the old count, increments it by one, and appends exactly one `None` to every existing column; the invariant is kept |
| EcsDraft.World.AddComponentToEntity | src/components.rs:66-84 | requires `entity < entities_count`; overwrites the slot of an existing column, or appends a backfilled column; the invariant is kept |
| EcsDraft.RunGame | src/game.rs:2-8 | after `new_entity`, Health(100) and Position(10,10), the count is 1 and the columns are `[Health: [Some(100)], Position: [Some((10,10))]]`, in that order |
| Movement.Stepped | src/systems/movement.rs:18-22 | when both slots are filled, the position moves by the velocity, unclamped; otherwise the slot stays as it was |
| Movement.AdvancePositionSys | src/systems/movement.rs:14-23 | every row below both lengths becomes `Stepped(old position, velocity)`; rows past the velocity column are unchanged; velocities are unchanged |
| Movement.VelocityFor | src/systems/movement.rs:39-45 | the velocity for a key is the player-controls delta; at most one axis is non-zero |
| Movement.VelocityForKeys | src/systems/movement.rs:40-44 | up (W) gives (0,-S), down (S) gives (0,S), right (D) gives (S,0), left (A) gives (-S,0); any other key gives (0,0) |
| Movement.AdvanceVelocitySys | src/systems/movement.rs:26-53 | no input leaves the column unchanged; with a key, every filled slot becomes that key's velocity and empty slots stay empty |
| Movement.MovementScenario | src/systems/movement.rs:14-23 | A at (10,10) with velocity (1,1) moves to (11,11); B at (0,0) with no velocity stays at (0,0) |
| Objects.Moved | src/object.rs:38-43 | the position after `move_pos` is always in the grid; each axis is the sum when that sum is in range, 0 below it and width-1 / height-1 above it |
| Objects.MovedIsExactIffInGrid | src/object.rs:39-42 | `move_pos` gives exactly `pos + delta` if and only if that sum is in the grid |
| Objects.UnmappedKeyKeepsPosition | src/object.rs:60-62 | a key bound to no direction leaves an in-grid position unchanged |
| Objects.Player.constructor | src/object.rs:47-52 | stores the given sprite and position, with the W/S/D/A controls |
| Objects.Player.MovePos | src/object.rs:38-43 | only the position changes, to `Moved(pos, delta)`; the sprite and controls are unchanged |
| Objects.Player.ApplyInput | src/object.rs:53-63 | moves by `ControlDelta(controls, key)`, clamped |
| Objects.Player.TestUpdate | src/object.rs:64-83 | the sequential `if` updates build `HeldDelta(controls, keys)`, and the clamped move is applied once |
| Objects.Enemy.constructor | src/object.rs:93-97 | stores the given sprite and position |
| Objects.Enemy.MovePos | src/object.rs:101-106 | only the position changes, to the clamped sum |
| Entities.GetSprite | src/entity.rs:13-18 | the wrapped player's or enemy's sprite string |
| Entities.GetPos | src/entity.rs:19-24 | `(pos.x, pos.y)` of the wrapped player or enemy |
| Entities.NewEnemy | src/entity.rs:89-95 | the wrapped enemy reports the sprite and position it was created with |
| Entities.Player.constructor | src/entity.rs:36-42 | pos is `(x, y)`, the sprite is `sprite_str`, and the controls are W/S/D/A |
| Entities.Player.ApplyInput | src/entity.rs:44-54 | pos becomes `pos.add(ControlDelta(controls, key))`, which is in the grid; the sprite and controls are unchanged |
| Entities.Player.Update | src/entity.rs:57-77 | the accumulated delta is `HeldDelta(controls, keys)`, applied once through `Position::add` |
| Entities.NewPlayerEntity | src/entity.rs:13-24 | a new player wrapped as an entity returns, through `get_sprite` and `get_pos`, exactly the sprite string and `(x, y)` it was built with |
| Screens.Filled | src/screen.rs:21 | `height` rows of `width` cells, every cell the filler |
| Screens.Painted | src/screen.rs:31-37 | drawing the objects keeps the grid `height` x `width` |
| Screens.LastSpriteAt | src/screen.rs:33-35 | None exactly when no object is drawn at the cell |
| Screens.PaintedCell | src/screen.rs:32-36 | after reset and drawing, a cell that no object targets holds the filler; a targeted cell holds the sprite of the last object drawn there (row y, column x) |
| Screens.Screen.constructor | src/screen.rs:15-23 | the dimensions are as given, the filler is " ", and every cell is " " |
| Screens.Screen.ResetGrid | src/screen.rs:26-28 | every cell becomes the filler; width, height and filler are unchanged |
| Screens.Screen.UpdateGrid | src/screen.rs:31-37 | width, height and filler are unchanged, and the grid is the reset grid with the objects drawn in list order |

## Left out

- `src/utils/utils.rs`: `clear_screen` starts a process, `read_input`
  busy-polls the keyboard and `pos_rel_to_abs` scales with `f32` and rounds.
  So `UpdateGrid` takes each object's grid cell directly. Those cells must be
  in range, because the source indexes the grid and would panic otherwise.
- Keyboard state is a parameter: `TestUpdate` and `Update` take the held keys
  as a sequence, and `AdvanceVelocitySys` takes the optional key.
- `Screen::render`, `World::debug_entity`'s printing, the `Debug`
  implementations, and the `println!` calls in `advance_velocity_sys` are
  output. `DebugEntity` returns the text between the brackets and leaves out
  the `Entity(id): [` prefix. The rendering of a component is a function
  parameter.
- `run_game_1` (a frame-timed loop using `Instant` and `thread::sleep`),
  `main.rs` and `TARGET_FPS` are the game loop, not part of this model.
- `Enemy::update` in src/entity.rs draws random numbers and uses an `f32`
  velocity with `as i32` casts, so it is left out. So is the earlier draft's
  `f32` `Velocity`. `EnemyState` has no velocity.
- The capability wrapper (`AnyComponent::insert_into_entity`) only forwards to
  `add_component_to_entity`. `Spawn` therefore takes `Component` values and
  calls `AddComponentToEntity` directly.
- `RefCell`: the panic on a conflicting borrow is the `BorrowConflict`
  outcome. A view is a copy of the column. Dropping a `RefMut`
  (`ReleaseCompvecMut`) writes the copy back. While the view is exclusive,
  nothing else can observe the column, so the copy is not observable.
- Ecs.World.ReleaseCompvecMut: requires the view to keep one slot per entity
  and to hold only components of the column's kind. `RefMut` would let a
  system push or clear, which would break the World invariant. No system in
  the source does that.
- Ecs.World.DebugEntity: requires that no column is mutably borrowed. In the
  source, `fmt_entity` calls `borrow()` on every column, which panics on a
  live `RefMut`; the model states that case as a precondition instead of a
  conflict outcome.
- Ecs.World.Spawn, Ecs.World.AddComponentToEntity: require that no column is
  borrowed. This restates what the borrow checker enforces, since both take
  `&mut self` while views borrow `&self`.
- `i32` arithmetic is a newtype. An overflowing sum is excluded by a
  precondition, as in a debug build where it panics. Release-build wrap-around
  is not modelled.
- `PLAYER_SPEED` is the `f32` 0.02 in src/constants.rs, but the integer code
  uses it as an `i32` (which does not type-check). The model uses the `i32`
  constant 1.
- `Keycode` is reduced to the keys the game binds (W, S, D, A), the `Q`
  default of `advance_velocity_sys`, and `OtherKey(code)`.
- The `object` field of src/object.rs's `Player` and `Enemy` is named `obj`,
  because `object` is a Dafny keyword.
- `Position::new`, `Velocity::new`, `Sprite::new` and `Object::new` are the
  datatype constructors. `&mut self` updates of `Position` and `Velocity` are
  functions that return the updated value, which the caller stores back.
  These records are held by value in columns and fields, and Rust forbids
  aliasing them while they are mutated.
- `ComponentVec::{as_any, as_any_mut, fmt}` are type-erasure and output
  machinery, replaced by the `kind` of a column.
- Draft inconsistencies are not modelled: `v_new` is reused in a loop without
  `Copy`, `update_grid` is called with `Entity` values, `pos_rel_to_abs` is
  given `i32` positions, and module paths do not match.
