/** The round-robin choice of enemy_spawner (src/main.rs:316-344): the guards that skip a
    spawn, and the cursor over the spawn points that advances and wraps. */
module Spawner {
  import opened Geometry
  import opened Config

  /** enemy_spawner goes ahead only when the spawn timer has just finished, fewer than
      ENEMY_CAP enemies are alive and there is at least one spawn point. */
  predicate SpawnAllowed(timerFinished: bool, enemyCount: nat, pointCount: nat) {
    timerFinished && enemyCount < ENEMY_CAP && pointCount > 0
  }

  /** The point used by a spawn and the cursor after it. */
  function NextSpawn(points: seq<Vec>, next: nat): (r: (Vec, nat))
    requires |points| > 0
    ensures r.0 in points && r.1 < |points|
    ensures next < |points| ==> r.0 == points[next]
    ensures next < |points| - 1 ==> r.1 == next + 1
    ensures next == |points| - 1 ==> r.1 == 0
  {
    (points[next % |points|], (next + 1) % |points|)
  }

  /** Where `n` consecutive successful spawns put their enemies, starting from cursor `next`. */
  function SpawnRun(points: seq<Vec>, next: nat, n: nat): (run: seq<Vec>)
    requires |points| > 0
    ensures |run| == n
    decreases n
  {
    if n == 0 then []
    else
      var (p, after) := NextSpawn(points, next);
      [p] + SpawnRun(points, after, n - 1)
  }

  /** Adding one whole turn does not change a position on the cycle. */
  lemma ModPeriod(a: nat, len: nat)
    requires len > 0
    ensures (a + len) % len == a % len
  {
    var q1, r1 := a / len, a % len;
    var q2, r2 := (a + len) / len, (a + len) % len;
    assert len * q1 + r1 == a;
    assert len * q2 + r2 == a + len;
    var k := q2 - q1 - 1;
    assert len * k == r1 - r2 by {
      assert len * q2 - len * q1 - len == len * (q2 - q1 - 1);
    }
  }

  /** Moving the cursor `i` places on from one place on is moving it `i + 1` places on. */
  lemma WrapShift(next: nat, len: nat, i: nat)
    requires next < len
    ensures ((next + 1) % len + i) % len == (next + 1 + i) % len
  {
    if next + 1 == len {
      ModPeriod(i, len);
    } else {
      assert (next + 1) % len == next + 1;
    }
  }

  /** The `i`-th of consecutive spawns uses the point `i` places after the cursor, wrapping
      around the list. */
  lemma {:induction false} SpawnRunCycles(points: seq<Vec>, next: nat, n: nat, i: nat)
    requires |points| > 0 && next < |points| && i < n
    ensures SpawnRun(points, next, n)[i] == points[(next + i) % |points|]
    decreases n
  {
    var len := |points|;
    if i > 0 {
      var after := (next + 1) % len;
      SpawnRunCycles(points, after, n - 1, i - 1);
      WrapShift(next, len, i - 1);
    }
  }

  /** From a fresh cursor the spawns visit p0, p1, ..., p(len-1), p0, ... */
  lemma SpawnRunFromStart(points: seq<Vec>, n: nat, i: nat)
    requires |points| > 0 && i < n
    ensures SpawnRun(points, 0, n)[i] == points[i % |points|]
  {
    SpawnRunCycles(points, 0, n, i);
  }

  /** The sequence of spawn positions repeats with period `|points|`. */
  lemma SpawnRunPeriodic(points: seq<Vec>, next: nat, n: nat, i: nat)
    requires |points| > 0 && next < |points| && i + |points| < n
    ensures SpawnRun(points, next, n)[i + |points|] == SpawnRun(points, next, n)[i]
  {
    SpawnRunCycles(points, next, n, i);
    SpawnRunCycles(points, next, n, i + |points|);
    ModPeriod(next + i, |points|);
  }
}
