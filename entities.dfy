/**
 * Values shared by the game loop: 2D vectors, the records of the entities
 * the loop touches, tile-map placements and the game's settings.
 */
module Entities {

  datatype Option<+T> = None | Some(value: T)

  /** A pygame `vec` (Vector2); coordinates are exact reals here. */
  datatype Vec = Vec(x: real, y: real)

  const Zero: Vec := Vec(0.0, 0.0)

  function Add(a: Vec, b: Vec): Vec {
    Vec(a.x + b.x, a.y + b.y)
  }

  /** The part of a `Mob` sprite the collision rules read or write. */
  datatype Mob = Mob(pos: Vec, vel: Vec, rot: real, health: int)

  /** An `Item` sprite; `alive` is its membership of the sprite groups (`kill()` clears it). */
  datatype Item = Item(pos: Vec, kind: string, alive: bool)

  /** An `Obstacle`: a static rectangle at its top-left corner. */
  datatype Wall = Wall(x: real, y: real, width: real, height: real)

  /** One object of the tile map's object layer. */
  datatype MapObject = MapObject(name: string, x: real, y: real, width: real, height: real)

  /** Object names the spawner knows; "health" is also the kind of the item it makes. */
  const PlayerName: string := "player"
  const ThugName: string := "thug"
  const WallName: string := "wall"
  const HealthName: string := "health"

  predicate IsSpawnName(name: string) {
    name == PlayerName || name == ThugName || name == WallName || name == HealthName
  }

  /**
   * The settings the core reads (settings.py) and the two operations it calls
   * on code outside the core: `Player.add_health` and `Vector2.rotate`.
   */
  datatype Config = Config(
    playerHealth: int,             // PLAYER_HEALTH
    mobHealth: int,                // MOB_HEALTH, a new mob's health
    mobDamage: int,                // MOB_DAMAGE
    fistDamage: int,               // FIST_DAMAGE
    healthPackAmount: int,         // HEALTH_PACK_AMOUNT
    mobKnockback: real,            // MOB_KNOCKBACK
    addHealth: (int, int) -> int,  // health after `add_health(amount)` from the health before
    rotate: (Vec, real) -> Vec     // `v.rotate(degrees)`
  )
}
