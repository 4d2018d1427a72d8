/** The game state the systems of src/main.rs work on, and one method per system:
    startup (build_maze then spawn_player), handle_fire, move_with_collisions, bullet_hits,
    bullet_wall_cull, enemy_spawner and clamp_to_arena. */
module Game {
  import opened Geometry
  import opened Config
  import opened Collision
  import opened Maze
  import opened Combat
  import opened Spawner
  import opened Arena

  /** A freshly spawned enemy: standing still at `pos`. */
  function NewEnemy(pos: Vec): Mover {
    Mover(pos, Vec(0.0, 0.0), ENEMY_SIZE)
  }

  /** A bullet fired by `shooter` along the unit vector `forward`: it starts 0.6 shooter
      widths ahead of the shooter's centre and flies at BULLET_SPEED. */
  function NewBullet(shooter: Mover, forward: Vec): Mover {
    Mover(Add(shooter.pos, Scale(forward, shooter.size.x * 0.6)), Scale(forward, BULLET_SPEED), BULLET_SIZE)
  }

  class World {
    /** Wall tiles: created at startup and never changed. */
    const walls: seq<Box>
    /** SpawnPoints.points: fixed at startup. */
    const spawnPoints: seq<Vec>
    /** SpawnPoints.next: the round-robin cursor. */
    var spawnNext: nat
    var player: Mover
    var enemies: seq<Mover>
    var bullets: seq<Mover>

    /** The enemy cap holds and the cursor points into the spawn list (0 if it is empty). */
    ghost predicate Valid()
      reads this
    {
      && |enemies| <= ENEMY_CAP
      && (if |spawnPoints| == 0 then spawnNext == 0 else spawnNext < |spawnPoints|)
    }

    /** Startup: the layout build_maze produced, and spawn_player's player standing at
        its start position. */
    constructor (layout: MazeLayout)
      ensures Valid()
      ensures walls == layout.walls && spawnPoints == layout.spawnPoints && spawnNext == 0
      ensures player == Mover(layout.playerStart, Vec(0.0, 0.0), PLAYER_SIZE)
      ensures enemies == [] && bullets == []
    {
      walls := layout.walls;
      spawnPoints := layout.spawnPoints;
      spawnNext := 0;
      player := Mover(layout.playerStart, Vec(0.0, 0.0), PLAYER_SIZE);
      enemies := [];
      bullets := [];
    }

    /** handle_fire after its timer tick: fire only on a fresh press with the cooldown
        finished and a non-zero facing direction `forward`. */
    method HandleFire(justPressed: bool, cooldownFinished: bool, forward: Vec)
      requires Valid()
      modifies this`bullets
      ensures Valid()
      ensures justPressed && cooldownFinished && LengthSquared(forward) != 0.0 ==>
                bullets == old(bullets) + [NewBullet(player, forward)]
      ensures !(justPressed && cooldownFinished && LengthSquared(forward) != 0.0) ==>
                bullets == old(bullets)
    {
      if !justPressed || !cooldownFinished {
        return;
      }
      if LengthSquared(forward) == 0.0 {
        return;
      }
      bullets := bullets + [NewBullet(player, forward)];
    }

    /** move_with_collisions: every mover takes its axis-separated step against the walls. */
    method MoveWithCollisions(dt: real)
      requires Valid()
      modifies this`player, this`enemies, this`bullets
      ensures Valid()
      ensures player == Moved(walls, old(player), dt)
      ensures enemies == MovedAll(walls, old(enemies), dt)
      ensures bullets == MovedAll(walls, old(bullets), dt)
    {
      player := MoveMover(walls, player, dt);
      enemies := MoveEach(walls, enemies, dt);
      bullets := MoveEach(walls, bullets, dt);
    }

    /** bullet_hits: each bullet is tested against the enemies in order and the first one
        it overlaps is picked; afterwards the picking bullets and the picked enemies are
        despawned. */
    method BulletHits()
      requires Valid()
      modifies this`bullets, this`enemies
      ensures Valid()
      ensures bullets == Select(old(bullets), BulletsKept(old(bullets), old(enemies)))
      ensures enemies == Select(old(enemies), EnemiesKept(old(enemies), Killed(old(bullets), old(enemies))))
    {
      var bs, es := bullets, enemies;
      var keepBullet, killed := ResolveHits(bs, es);
      var keepEnemy := EnemiesKept(es, killed);
      SelectLength(es, keepEnemy);
      bullets := Select(bs, keepBullet);
      enemies := Select(es, keepEnemy);
    }

    /** bullet_wall_cull: every bullet that overlaps a wall is despawned. */
    method BulletWallCull()
      requires Valid()
      modifies this`bullets
      ensures Valid()
      ensures bullets == Select(old(bullets), BulletsClearOfWalls(walls, old(bullets)))
    {
      var bs := bullets;
      var keep: seq<bool> := [];
      for i := 0 to |bs|
        invariant |keep| == i
        invariant forall k :: 0 <= k < i ==> keep[k] == !HitsWall(walls, bs[k].pos, Half(bs[k].size))
      {
        var hit := OverlapsAny(bs[i].pos, Half(bs[i].size), walls);
        keep := keep + [!hit];
      }
      assert keep == BulletsClearOfWalls(walls, bs);
      bullets := Select(bs, keep);
    }

    /** enemy_spawner after its timer tick: unless a guard says to skip, one enemy appears
        at the point under the cursor and the cursor moves on, wrapping at the end. */
    method EnemySpawner(timerFinished: bool)
      requires Valid()
      modifies this`enemies, this`spawnNext
      ensures Valid()
      ensures SpawnAllowed(timerFinished, |old(enemies)|, |spawnPoints|) ==>
                && enemies == old(enemies) + [NewEnemy(NextSpawn(spawnPoints, old(spawnNext)).0)]
                && spawnNext == NextSpawn(spawnPoints, old(spawnNext)).1
      ensures !SpawnAllowed(timerFinished, |old(enemies)|, |spawnPoints|) ==>
                enemies == old(enemies) && spawnNext == old(spawnNext)
    {
      if !timerFinished {
        return;
      }
      if |enemies| >= ENEMY_CAP {
        return;
      }
      if |spawnPoints| == 0 {
        return;
      }
      var idx := spawnNext % |spawnPoints|;
      var pos := spawnPoints[idx];
      enemies := enemies + [NewEnemy(pos)];
      spawnNext := (spawnNext + 1) % |spawnPoints|;
    }

    /** clamp_to_arena: the player, every enemy and every bullet are put back inside the
        arena. */
    method ClampToArena()
      requires Valid()
      modifies this`player, this`enemies, this`bullets
      ensures Valid()
      ensures player == ClampMover(old(player))
      ensures enemies == ClampedAll(old(enemies))
      ensures bullets == ClampedAll(old(bullets))
    {
      player := ClampMover(player);
      enemies := ClampEach(enemies);
      bullets := ClampEach(bullets);
    }
  }
}
