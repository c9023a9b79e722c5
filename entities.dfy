/** src/entity.rs: the player and enemy built on the earlier draft's
    Position and Sprite components, and the `Entity` enum that wraps a copy
    of either for drawing. */
module Entities {
  import opened Numeric
  import opened Constants
  import opened Input
  import opened Components

  /** A copy (`clone`) of a player's fields. */
  datatype PlayerState = PlayerState(pos: Position, sprite: Sprite, controls: Controls)

  /** A copy of an enemy's position and sprite. */
  datatype EnemyState = EnemyState(pos: Position, sprite: Sprite)

  datatype Entity = PlayerEntity(player: PlayerState) | EnemyEntity(enemy: EnemyState)

  /** The wrapped player's or enemy's sprite text. */
  function GetSprite(e: Entity): (r: string)
    ensures e.PlayerEntity? ==> r == e.player.sprite.sprite
    ensures e.EnemyEntity? ==> r == e.enemy.sprite.sprite
  {
    match e
    case PlayerEntity(p) => p.sprite.ToString()
    case EnemyEntity(n) => n.sprite.ToString()
  }

  /** The wrapped player's or enemy's coordinates. */
  function GetPos(e: Entity): (r: (i32, i32))
    ensures e.PlayerEntity? ==> r == (e.player.pos.x, e.player.pos.y)
    ensures e.EnemyEntity? ==> r == (e.enemy.pos.x, e.enemy.pos.y)
  {
    match e
    case PlayerEntity(p) => (p.pos.x, p.pos.y)
    case EnemyEntity(n) => (n.pos.x, n.pos.y)
  }

  /** `Enemy::new` without its floating-point velocity. */
  function NewEnemy(spriteStr: string, x: i32, y: i32): (r: EnemyState)
    ensures GetSprite(EnemyEntity(r)) == spriteStr && GetPos(EnemyEntity(r)) == (x, y)
  {
    EnemyState(Position(x, y), Sprite(spriteStr))
  }

  class Player {
    var pos: Position
    var sprite: Sprite
    var controls: Controls

    /** `Player::new`: position `(x, y)`, sprite `spriteStr`, W/S/D/A controls. */
    constructor(spriteStr: string, x: i32, y: i32)
      ensures pos == Position(x, y) && sprite == Sprite(spriteStr) && controls == PLAYER_CONTROLS
    {
      pos := Position(x, y);
      sprite := Sprite(spriteStr);
      controls := PLAYER_CONTROLS;
    }

    /** `player.clone()`. */
    function Clone(): PlayerState
      reads this
    {
      PlayerState(pos, sprite, controls)
    }

    /** Moves by the delta of one key (up, down, right, left, in that order)
        through `Position::add`, so the result stays in the grid. */
    method ApplyInput(input: Key)
      requires pos.CanAdd(ControlDelta(controls, input))
      modifies this
      ensures pos == old(pos).Add(ControlDelta(old(controls), input))
      ensures sprite == old(sprite) && controls == old(controls)
    {
      var delta :=
        if input == controls.up then (0, -PLAYER_SPEED)
        else if input == controls.down then (0, PLAYER_SPEED)
        else if input == controls.right then (PLAYER_SPEED, 0)
        else if input == controls.left then (-PLAYER_SPEED, 0)
        else (0, 0);
      pos := pos.Add(delta);
    }

    /** `update` with the held keys as a parameter: the delta is accumulated
        key by key, then `Position::add` is applied once. */
    method Update(keys: seq<Key>)
      requires pos.CanAdd(HeldDelta(controls, keys))
      modifies this
      ensures pos == old(pos).Add(HeldDelta(old(controls), keys))
      ensures sprite == old(sprite) && controls == old(controls)
    {
      var delta: (i32, i32) := (0, 0);
      if controls.right in keys {
        delta := (delta.0 + PLAYER_SPEED, delta.1);
      }
      if controls.left in keys {
        delta := (delta.0 - PLAYER_SPEED, delta.1);
      }
      if controls.up in keys {
        delta := (delta.0, delta.1 - PLAYER_SPEED);
      }
      if controls.down in keys {
        delta := (delta.0, delta.1 + PLAYER_SPEED);
      }
      pos := pos.Add(delta);
    }
  }

  /** A new player wrapped as an entity, as the game loop does with
      `Entity::Player(player.clone())`, reports exactly the sprite and
      position it was created with. */
  method NewPlayerEntity(spriteStr: string, x: i32, y: i32) returns (e: Entity)
    ensures GetSprite(e) == spriteStr && GetPos(e) == (x, y)
    ensures e.PlayerEntity? && e.player.controls == PLAYER_CONTROLS
  {
    var player := new Player(spriteStr, x, y);
    e := PlayerEntity(player.Clone());
  }
}
