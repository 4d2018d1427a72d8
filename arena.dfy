/** clamp_to_arena (src/main.rs:307-314): players, enemies and bullets are kept inside the
    800x600 arena centred on the origin. */
module Arena {
  import opened Geometry
  import opened Config

  /** f32::clamp: `lo` below the range, `hi` above it, `v` itself inside it. */
  function Clamp(v: real, lo: real, hi: real): (r: real)
    requires lo <= hi
    ensures lo <= r <= hi
    ensures lo <= v <= hi ==> r == v
  {
    if v < lo then lo else if v > hi then hi else v
  }

  /** The clamped value is the point of the range nearest to `v`. */
  lemma ClampIsNearest(v: real, lo: real, hi: real, t: real)
    requires lo <= t <= hi
    ensures Abs(Clamp(v, lo, hi) - v) <= Abs(t - v)
  {
  }

  predicate InArena(p: Vec) {
    -ARENA_W * 0.5 <= p.x <= ARENA_W * 0.5 && -ARENA_H * 0.5 <= p.y <= ARENA_H * 0.5
  }

  /** A position after clamp_to_arena: inside the arena, and unchanged if it already was. */
  function ClampPosition(p: Vec): (q: Vec)
    ensures InArena(q)
    ensures InArena(p) ==> q == p
  {
    Vec(Clamp(p.x, -ARENA_W * 0.5, ARENA_W * 0.5), Clamp(p.y, -ARENA_H * 0.5, ARENA_H * 0.5))
  }

  /** Clamping twice is clamping once. */
  lemma ClampIdempotent(p: Vec)
    ensures ClampPosition(ClampPosition(p)) == ClampPosition(p)
  {
  }

  /** A mover after clamp_to_arena: only its translation changes. */
  function ClampMover(m: Mover): (r: Mover)
    ensures InArena(r.pos) && r.vel == m.vel && r.size == m.size
    ensures InArena(m.pos) ==> r == m
  {
    m.(pos := ClampPosition(m.pos))
  }

  function ClampedAll(ms: seq<Mover>): (r: seq<Mover>)
    ensures |r| == |ms|
    ensures forall i :: 0 <= i < |ms| ==> InArena(r[i].pos)
  {
    seq(|ms|, i requires 0 <= i < |ms| => ClampMover(ms[i]))
  }

  /** The loop of clamp_to_arena over a group of movers, each updated in place. */
  method ClampEach(ms: seq<Mover>) returns (r: seq<Mover>)
    ensures r == ClampedAll(ms)
  {
    r := ms;
    for i := 0 to |ms|
      invariant |r| == |ms|
      invariant forall j :: 0 <= j < i ==> r[j] == ClampMover(ms[j])
      invariant forall j :: i <= j < |ms| ==> r[j] == ms[j]
    {
      var x := Clamp(r[i].pos.x, -ARENA_W * 0.5, ARENA_W * 0.5);
      var y := Clamp(r[i].pos.y, -ARENA_H * 0.5, ARENA_H * 0.5);
      r := r[i := r[i].(pos := Vec(x, y))];
    }
  }
}
