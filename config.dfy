/** The game's tuning constants (src/main.rs:7-23), with f32 read as exact reals. */
module Config {
  import opened Geometry

  const ARENA_W: real := 800.0
  const ARENA_H: real := 600.0
  /** Side of one maze tile; the 20x15 grid fills the 800x600 arena exactly. */
  const TILE: real := 40.0

  const PLAYER_SIZE: Vec := Vec(32.0, 32.0)

  const BULLET_SPEED: real := 600.0
  const BULLET_SIZE: Vec := Vec(6.0, 12.0)

  const ENEMY_SIZE: Vec := Vec(28.0, 28.0)
  /** Live enemies beyond which the spawner stops creating new ones. */
  const ENEMY_CAP: nat := 24

  /** Number of equal sub-steps a blocked axis move is divided into. */
  const SWEEP_STEPS: nat := 6
}
