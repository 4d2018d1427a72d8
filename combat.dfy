/** Which bullets and enemies bullet_hits and bullet_wall_cull despawn
    (src/main.rs:276-305). Despawns go through Bevy's Commands and take effect after the
    pass, so every decision in one pass is made against the entities as they were when
    the pass began; the removals are then applied as a keep-mask over each group. */
module Combat {
  import opened Wrappers
  import opened Geometry
  import opened Collision

  /** The elements of `s` whose mask entry is true, in their original order. */
  function Select<T>(s: seq<T>, keep: seq<bool>): seq<T>
    requires |keep| == |s|
    decreases |s|
  {
    if s == [] then []
    else
      var n := |s| - 1;
      Select(s[..n], keep[..n]) + (if keep[n] then [s[n]] else [])
  }

  /** Number of true entries of a mask. */
  function Count(keep: seq<bool>): nat
    decreases |keep|
  {
    if keep == [] then 0 else Count(keep[..|keep| - 1]) + (if keep[|keep| - 1] then 1 else 0)
  }

  /** An element survives exactly when its mask entry says so. */
  lemma {:induction false} SelectMember<T>(s: seq<T>, keep: seq<bool>, x: T)
    requires |keep| == |s|
    ensures x in Select(s, keep) <==> exists i :: 0 <= i < |s| && keep[i] && s[i] == x
    decreases |s|
  {
    if s != [] {
      var n := |s| - 1;
      SelectMember(s[..n], keep[..n], x);
      if exists i :: 0 <= i < |s| && keep[i] && s[i] == x {
        var i :| 0 <= i < |s| && keep[i] && s[i] == x;
        if i < n {
          assert keep[..n][i] && s[..n][i] == x;
        }
      }
      if exists i :: 0 <= i < n && keep[..n][i] && s[..n][i] == x {
        var i :| 0 <= i < n && keep[..n][i] && s[..n][i] == x;
        assert keep[i] && s[i] == x;
      }
    }
  }

  /** As many elements survive as the mask has true entries. */
  lemma {:induction false} SelectLength<T>(s: seq<T>, keep: seq<bool>)
    requires |keep| == |s|
    ensures |Select(s, keep)| == Count(keep) <= |s|
    decreases |s|
  {
    if s != [] {
      SelectLength(s[..|s| - 1], keep[..|s| - 1]);
    }
  }

  /** Bullet `b` overlaps enemy `e` (aabb_overlap on their half sizes). */
  predicate Hits(b: Mover, e: Mover) {
    AabbOverlap(b.pos, Half(b.size), e.pos, Half(e.size))
  }

  /** The first enemy at index `j` or later that bullet `b` overlaps, if any. */
  function FirstHitFrom(b: Mover, enemies: seq<Mover>, j: nat): (r: Option<nat>)
    requires j <= |enemies|
    ensures r.Some? ==> j <= r.value < |enemies|
    decreases |enemies| - j
  {
    if j == |enemies| then None
    else if Hits(b, enemies[j]) then Some(j)
    else FirstHitFrom(b, enemies, j + 1)
  }

  /** The enemy a bullet kills: the first one, in iteration order, that it overlaps. */
  function FirstHit(b: Mover, enemies: seq<Mover>): (r: Option<nat>)
    ensures r.Some? ==> r.value < |enemies|
  {
    FirstHitFrom(b, enemies, 0)
  }

  /** FirstHitFrom finds an overlapping enemy with none before it (from `j` on), and finds
      nothing exactly when no enemy from `j` on overlaps. */
  lemma {:induction false} FirstHitFromIsFirst(b: Mover, enemies: seq<Mover>, j: nat)
    requires j <= |enemies|
    ensures var r := FirstHitFrom(b, enemies, j);
      && (r.Some? ==> Hits(b, enemies[r.value]))
      && (r.Some? ==> forall k :: j <= k < r.value ==> !Hits(b, enemies[k]))
      && (r.None? <==> forall k :: j <= k < |enemies| ==> !Hits(b, enemies[k]))
    decreases |enemies| - j
  {
    if j < |enemies| && !Hits(b, enemies[j]) {
      FirstHitFromIsFirst(b, enemies, j + 1);
    }
  }

  /** The picked enemy overlaps the bullet and no earlier enemy does; no enemy is picked
      exactly when the bullet overlaps none. */
  lemma FirstHitIsFirst(b: Mover, enemies: seq<Mover>)
    ensures var r := FirstHit(b, enemies);
      && (r.Some? ==> Hits(b, enemies[r.value]))
      && (r.Some? ==> forall k :: 0 <= k < r.value ==> !Hits(b, enemies[k]))
      && (r.None? <==> forall k :: 0 <= k < |enemies| ==> !Hits(b, enemies[k]))
  {
    FirstHitFromIsFirst(b, enemies, 0);
  }

  /** The enemy chosen for a bullet, as a set of at most one index. */
  function Target(b: Mover, enemies: seq<Mover>): (t: set<nat>)
    ensures |t| <= 1
  {
    match FirstHit(b, enemies)
    case None => {}
    case Some(k) => {k}
  }

  /** Bullet `b` picks enemy `j`: it is the first enemy the bullet overlaps. */
  predicate Picks(b: Mover, enemies: seq<Mover>, j: nat) {
    FirstHit(b, enemies) == Some(j)
  }

  /** Indices of the enemies despawned by a pass over `bullets`. */
  function Killed(bullets: seq<Mover>, enemies: seq<Mover>): set<nat>
    decreases |bullets|
  {
    if bullets == [] then {}
    else
      var n := |bullets| - 1;
      Killed(bullets[..n], enemies) + Target(bullets[n], enemies)
  }

  /** Bullets that bullet_hits keeps: those that overlap no enemy. */
  function BulletsKept(bullets: seq<Mover>, enemies: seq<Mover>): (keep: seq<bool>)
    ensures |keep| == |bullets|
  {
    seq(|bullets|, i requires 0 <= i < |bullets| => FirstHit(bullets[i], enemies).None?)
  }

  /** Enemies that bullet_hits keeps: those that no bullet picked. */
  function EnemiesKept(enemies: seq<Mover>, killed: set<nat>): (keep: seq<bool>)
    ensures |keep| == |enemies|
  {
    seq(|enemies|, j requires 0 <= j < |enemies| => j !in killed)
  }

  /** Bullets that bullet_wall_cull keeps: those that overlap no wall. */
  function BulletsClearOfWalls(walls: seq<Box>, bullets: seq<Mover>): (keep: seq<bool>)
    ensures |keep| == |bullets|
  {
    seq(|bullets|, i requires 0 <= i < |bullets| => !HitsWall(walls, bullets[i].pos, Half(bullets[i].size)))
  }

  /** The inner loop of bullet_hits: scan the enemies in order and stop at the first one
      the bullet overlaps. */
  method FindFirstHit(b: Mover, enemies: seq<Mover>) returns (r: Option<nat>)
    ensures r == FirstHit(b, enemies)
  {
    var j := 0;
    while j < |enemies|
      invariant 0 <= j <= |enemies|
      invariant FirstHitFrom(b, enemies, j) == FirstHit(b, enemies)
    {
      if Hits(b, enemies[j]) {
        return Some(j);
      }
      j := j + 1;
    }
    return None;
  }

  /** The outer loop of bullet_hits: for every bullet, whether it survives, and the set of
      enemies picked so far. */
  method ResolveHits(bullets: seq<Mover>, enemies: seq<Mover>) returns (keep: seq<bool>, killed: set<nat>)
    ensures keep == BulletsKept(bullets, enemies)
    ensures killed == Killed(bullets, enemies)
  {
    keep, killed := [], {};
    for i := 0 to |bullets|
      invariant keep == BulletsKept(bullets[..i], enemies)
      invariant killed == Killed(bullets[..i], enemies)
    {
      var target := FindFirstHit(bullets[i], enemies);
      if target.Some? {
        killed := killed + {target.value};
      }
      HitStep(bullets, enemies, i);
      keep := keep + [target.None?];
    }
    assert bullets[..|bullets|] == bullets;
  }

  /** One more bullet adds its own verdict to the mask and its target to the killed set. */
  lemma HitStep(bullets: seq<Mover>, enemies: seq<Mover>, i: nat)
    requires i < |bullets|
    ensures BulletsKept(bullets[..i + 1], enemies) ==
            BulletsKept(bullets[..i], enemies) + [FirstHit(bullets[i], enemies).None?]
    ensures Killed(bullets[..i + 1], enemies) == Killed(bullets[..i], enemies) + Target(bullets[i], enemies)
  {
    assert bullets[..i + 1][..i] == bullets[..i];
  }

  /** An enemy is killed exactly when it is the first enemy some bullet overlaps. */
  lemma {:induction false} KilledMember(bullets: seq<Mover>, enemies: seq<Mover>, j: nat)
    ensures j in Killed(bullets, enemies) <==> exists i :: 0 <= i < |bullets| && Picks(bullets[i], enemies, j)
    decreases |bullets|
  {
    if bullets != [] {
      var n := |bullets| - 1;
      var init := bullets[..n];
      KilledMember(init, enemies, j);
      assert j in Target(bullets[n], enemies) <==> Picks(bullets[n], enemies, j);
      if exists i :: 0 <= i < |bullets| && Picks(bullets[i], enemies, j) {
        var i :| 0 <= i < |bullets| && Picks(bullets[i], enemies, j);
        if i < n {
          assert init[i] == bullets[i];
        }
      }
      if exists i :: 0 <= i < n && Picks(init[i], enemies, j) {
        var i :| 0 <= i < n && Picks(init[i], enemies, j);
        assert bullets[i] == init[i];
      }
    }
  }

  /** Only real enemy indices are killed, and no more enemies than bullets that hit. */
  lemma {:induction false} KilledBound(bullets: seq<Mover>, enemies: seq<Mover>)
    ensures forall j :: j in Killed(bullets, enemies) ==> j < |enemies|
    ensures |Killed(bullets, enemies)| <= |bullets| - Count(BulletsKept(bullets, enemies))
    decreases |bullets|
  {
    if bullets != [] {
      var n := |bullets| - 1;
      KilledBound(bullets[..n], enemies);
      assert BulletsKept(bullets, enemies)[..n] == BulletsKept(bullets[..n], enemies);
      var t := Target(bullets[n], enemies);
      assert |Killed(bullets[..n], enemies) + t| <= |Killed(bullets[..n], enemies)| + |t|;
    }
  }

  /** Removing the killed indices removes at most as many enemies as there are indices. */
  lemma {:induction false} EnemiesKeptBound(enemies: seq<Mover>, killed: set<nat>)
    ensures |enemies| - Count(EnemiesKept(enemies, killed)) <= |killed|
    decreases |enemies|
  {
    if enemies != [] {
      var n := |enemies| - 1;
      var rest := killed - {n};
      EnemiesKeptBound(enemies[..n], rest);
      assert EnemiesKept(enemies, killed)[..n] == EnemiesKept(enemies[..n], rest);
    }
  }

  /** Each bullet takes at most one enemy with it: a bullet_hits pass removes no more
      enemies than bullets. */
  lemma AtMostOneKillPerBullet(bullets: seq<Mover>, enemies: seq<Mover>)
    ensures var killed := Killed(bullets, enemies);
      |enemies| - |Select(enemies, EnemiesKept(enemies, killed))|
        <= |bullets| - |Select(bullets, BulletsKept(bullets, enemies))|
  {
    var killed := Killed(bullets, enemies);
    KilledBound(bullets, enemies);
    EnemiesKeptBound(enemies, killed);
    SelectLength(enemies, EnemiesKept(enemies, killed));
    SelectLength(bullets, BulletsKept(bullets, enemies));
  }

  /** A bullet survives bullet_hits exactly when it overlaps no enemy. */
  lemma BulletSurvivesIffNoHit(bullets: seq<Mover>, enemies: seq<Mover>, i: nat)
    requires i < |bullets|
    ensures BulletsKept(bullets, enemies)[i] <==> forall k :: 0 <= k < |enemies| ==> !Hits(bullets[i], enemies[k])
  {
    FirstHitIsFirst(bullets[i], enemies);
  }

  /** After bullet_wall_cull no bullet overlaps a wall, and every bullet that overlapped
      none is still there. */
  lemma WallCullExact(walls: seq<Box>, bullets: seq<Mover>)
    ensures var kept := Select(bullets, BulletsClearOfWalls(walls, bullets));
      && (forall b :: b in kept ==> !HitsWall(walls, b.pos, Half(b.size)))
      && (forall i :: 0 <= i < |bullets| && !HitsWall(walls, bullets[i].pos, Half(bullets[i].size)) ==> bullets[i] in kept)
  {
    var keep := BulletsClearOfWalls(walls, bullets);
    var kept := Select(bullets, keep);
    forall b | b in kept
      ensures !HitsWall(walls, b.pos, Half(b.size))
    {
      SelectMember(bullets, keep, b);
    }
    forall i | 0 <= i < |bullets| && !HitsWall(walls, bullets[i].pos, Half(bullets[i].size))
      ensures bullets[i] in kept
    {
      SelectMember(bullets, keep, bullets[i]);
    }
  }
}
