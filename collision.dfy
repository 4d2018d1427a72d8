/** Wall collision for movers: overlaps_any, sweep_axis and the per-axis update of
    move_with_collisions (src/main.rs:246-274, 353-392). */
module Collision {
  import opened Geometry
  import opened Config

  /** The box of half-extents `half` centred at `pos` overlaps wall `w`. */
  predicate OverlapsWall(pos: Vec, half: Vec, w: Box) {
    AabbOverlap(pos, half, w.pos, Half(w.size))
  }

  /** Some wall of `walls` overlaps the box at `pos`, the walls taken one after another. */
  predicate HitsWall(walls: seq<Box>, pos: Vec, half: Vec)
    decreases |walls|
  {
    |walls| > 0 && (HitsWall(walls[..|walls| - 1], pos, half) || OverlapsWall(pos, half, walls[|walls| - 1]))
  }

  /** HitsWall holds exactly when some wall of the list overlaps the box. */
  lemma {:induction false} HitsWallIffSome(walls: seq<Box>, pos: Vec, half: Vec)
    ensures HitsWall(walls, pos, half) <==> exists i :: 0 <= i < |walls| && OverlapsWall(pos, half, walls[i])
    decreases |walls|
  {
    if |walls| > 0 {
      var init := walls[..|walls| - 1];
      HitsWallIffSome(init, pos, half);
      if HitsWall(init, pos, half) {
        var i :| 0 <= i < |init| && OverlapsWall(pos, half, init[i]);
        assert walls[i] == init[i];
      }
      if exists i :: 0 <= i < |walls| && OverlapsWall(pos, half, walls[i]) {
        var i :| 0 <= i < |walls| && OverlapsWall(pos, half, walls[i]);
        if i < |init| {
          assert init[i] == walls[i];
        }
      }
    }
  }

  /** overlaps_any: scans the walls and stops at the first one that overlaps. */
  method OverlapsAny(pos: Vec, half: Vec, walls: seq<Box>) returns (hit: bool)
    ensures hit <==> HitsWall(walls, pos, half)
  {
    for i := 0 to |walls|
      invariant !HitsWall(walls[..i], pos, half)
    {
      assert walls[..i + 1][..i] == walls[..i];
      if OverlapsWall(pos, half, walls[i]) {
        assert HitsWall(walls[..i + 1], pos, half);
        HitsWallPrefix(walls, i + 1, pos, half);
        return true;
      }
    }
    assert walls[..|walls|] == walls;
    return false;
  }

  /** A wall hit by a prefix of the list is hit by the whole list. */
  lemma {:induction false} HitsWallPrefix(walls: seq<Box>, n: nat, pos: Vec, half: Vec)
    requires n <= |walls|
    requires HitsWall(walls[..n], pos, half)
    ensures HitsWall(walls, pos, half)
    decreases |walls| - n
  {
    if n < |walls| {
      assert walls[..n + 1][..n] == walls[..n];
      HitsWallPrefix(walls, n + 1, pos, half);
    } else {
      assert walls[..n] == walls;
    }
  }

  /** Distance covered by `j` sub-steps of length `step`, summed one sub-step at a time. */
  function Travel(step: real, j: nat): real {
    if j == 0 then 0.0 else Travel(step, j - 1) + step
  }

  /** `j` sub-steps never go further than `k >= j` sub-steps, and never against the sign
      of `step`. */
  lemma {:induction false} TravelMonotone(step: real, j: nat, k: nat)
    requires j <= k
    ensures 0.0 <= step ==> 0.0 <= Travel(step, j) <= Travel(step, k)
    ensures step <= 0.0 ==> Travel(step, k) <= Travel(step, j) <= 0.0
    decreases k
  {
    if j < k {
      TravelMonotone(step, j, k - 1);
    } else if j > 0 {
      TravelMonotone(step, j - 1, j - 1);
    }
  }

  /** All six sub-steps together cover `6 * step`, which is the whole attempted move. */
  lemma TravelWhole(step: real)
    ensures Travel(step, SWEEP_STEPS) == SWEEP_STEPS as real * step
  {
    TravelIsProduct(step, SWEEP_STEPS);
  }

  /** Position after `j` sub-steps of length `step` along `axis`. */
  function SubStep(pos: Vec, axis: Axis, step: real, j: nat): Vec {
    Shift(pos, axis, Travel(step, j))
  }

  /** Number of sub-steps taken by the sweep, given that sub-steps 1..j are already known
      to be clear: all taken sub-steps are clear, and the next one (if any) is blocked. */
  function ClearSteps(walls: seq<Box>, pos: Vec, half: Vec, axis: Axis, step: real, j: nat): (k: nat)
    requires j <= SWEEP_STEPS
    ensures j <= k <= SWEEP_STEPS
    decreases SWEEP_STEPS - j
  {
    if j == SWEEP_STEPS then SWEEP_STEPS
    else if HitsWall(walls, SubStep(pos, axis, step, j + 1), half) then j
    else ClearSteps(walls, pos, half, axis, step, j + 1)
  }

  /** The sweep stops exactly before the first blocked sub-step: every sub-step it keeps
      (after the first `j`) is clear, and if it stops early the next one is blocked. */
  lemma {:induction false} ClearStepsStopsAtWall(walls: seq<Box>, pos: Vec, half: Vec, axis: Axis, step: real, j: nat)
    requires j <= SWEEP_STEPS
    ensures var k := ClearSteps(walls, pos, half, axis, step, j);
      && (forall i :: j < i <= k ==> !HitsWall(walls, SubStep(pos, axis, step, i), half))
      && (k < SWEEP_STEPS ==> HitsWall(walls, SubStep(pos, axis, step, k + 1), half))
    decreases SWEEP_STEPS - j
  {
    if j < SWEEP_STEPS && !HitsWall(walls, SubStep(pos, axis, step, j + 1), half) {
      ClearStepsStopsAtWall(walls, pos, half, axis, step, j + 1);
    }
  }

  /** Distance the sweep keeps: zero for a zero move, otherwise the clear sub-steps of
      `delta / 6`; never longer than `delta` and never against its sign. */
  function SweepDistance(walls: seq<Box>, pos: Vec, half: Vec, axis: Axis, delta: real): (moved: real)
    ensures delta == 0.0 ==> moved == 0.0
    ensures 0.0 <= delta ==> 0.0 <= moved <= delta
    ensures delta <= 0.0 ==> delta <= moved <= 0.0
  {
    if delta == 0.0 then 0.0
    else
      var step := delta / SWEEP_STEPS as real;
      var k := ClearSteps(walls, pos, half, axis, step, 0);
      TravelMonotone(step, k, SWEEP_STEPS);
      TravelWhole(step);
      Travel(step, k)
  }

  /** `j` sub-steps summed one at a time cover exactly `j * step`. */
  lemma {:induction false} TravelIsProduct(step: real, j: nat)
    ensures Travel(step, j) == j as real * step
  {
    if j > 0 {
      TravelIsProduct(step, j - 1);
      assert j as real * step == (j - 1) as real * step + step;
    }
  }

  /** `pos + j*step` on `axis`. */
  function StepPosition(pos: Vec, axis: Axis, step: real, j: nat): Vec {
    Shift(pos, axis, j as real * step)
  }

  /** After `j` sub-steps the mover stands at `pos + j*step`. */
  lemma SubStepIsStepPosition(pos: Vec, axis: Axis, step: real, j: nat)
    ensures SubStep(pos, axis, step, j) == StepPosition(pos, axis, step, j)
  {
    TravelIsProduct(step, j);
  }

  /** For a non-zero move the sweep lands exactly on `pos + k * (delta / 6)`, where `k` is
      the number of clear sub-steps (0 <= k <= 6, by ClearSteps). */
  lemma SweepIsWholeSubSteps(walls: seq<Box>, pos: Vec, half: Vec, axis: Axis, delta: real)
    requires delta != 0.0
    ensures var step := delta / SWEEP_STEPS as real;
      Shift(pos, axis, SweepDistance(walls, pos, half, axis, delta)) ==
        StepPosition(pos, axis, step, ClearSteps(walls, pos, half, axis, step, 0))
  {
    var step := delta / SWEEP_STEPS as real;
    var k := ClearSteps(walls, pos, half, axis, step, 0);
    SweepIsTravel(walls, pos, half, axis, delta);
    SubStepIsStepPosition(pos, axis, step, k);
  }

  /** Unfolds SweepDistance for a non-zero move. */
  lemma SweepIsTravel(walls: seq<Box>, pos: Vec, half: Vec, axis: Axis, delta: real)
    requires delta != 0.0
    ensures var step := delta / SWEEP_STEPS as real;
      SweepDistance(walls, pos, half, axis, delta) == Travel(step, ClearSteps(walls, pos, half, axis, step, 0))
  {
  }

  /** The `k` sub-steps the sweep keeps are all clear: each of the positions after
      sub-steps 1..k overlaps no wall, and if `k < 6` the position after sub-step `k + 1`
      overlaps one. */
  lemma SweepKeepsClearSubSteps(walls: seq<Box>, pos: Vec, half: Vec, axis: Axis, delta: real)
    requires delta != 0.0
    ensures var step := delta / SWEEP_STEPS as real;
      var k := ClearSteps(walls, pos, half, axis, step, 0);
      && (forall i :: 1 <= i <= k ==> !HitsWall(walls, StepPosition(pos, axis, step, i), half))
      && (k < SWEEP_STEPS ==> HitsWall(walls, StepPosition(pos, axis, step, k + 1), half))
  {
    var step := delta / SWEEP_STEPS as real;
    var k := ClearSteps(walls, pos, half, axis, step, 0);
    ClearStepsStopsAtWall(walls, pos, half, axis, step, 0);
    forall i | 1 <= i <= k
      ensures !HitsWall(walls, StepPosition(pos, axis, step, i), half)
    {
      SubStepIsStepPosition(pos, axis, step, i);
    }
    if k < SWEEP_STEPS {
      SubStepIsStepPosition(pos, axis, step, k + 1);
    }
  }

  /** sweep_axis: advances sub-step by sub-step and stops before the first blocked one. */
  method SweepAxis(pos: Vec, half: Vec, delta: real, axis: Axis, walls: seq<Box>) returns (moved: real)
    ensures moved == SweepDistance(walls, pos, half, axis, delta)
  {
    if delta == 0.0 {
      return 0.0;
    }
    var steps := SWEEP_STEPS;
    var step := delta / steps as real;
    var p := pos;
    moved := 0.0;
    var i := 0;
    while i < steps
      invariant 0 <= i <= steps
      invariant moved == Travel(step, i)
      invariant p == SubStep(pos, axis, step, i)
      invariant ClearSteps(walls, pos, half, axis, step, i) == ClearSteps(walls, pos, half, axis, step, 0)
    {
      p := Shift(p, axis, step);
      assert p == SubStep(pos, axis, step, i + 1);
      var blocked := OverlapsAny(p, half, walls);
      if blocked {
        p := Shift(p, axis, -step);
        break;
      } else {
        moved := moved + step;
      }
      i := i + 1;
    }
  }

  /** The coordinate of `p` on `axis`. */
  function Coord(p: Vec, axis: Axis): real {
    match axis
    case X => p.x
    case Y => p.y
  }

  /** One axis phase of move_with_collisions: take the whole move if it is clear,
      otherwise go back and keep only what the sweep allows. The other coordinate is
      untouched and the distance covered is a part of `d`, with its sign. */
  function MoveAxis(walls: seq<Box>, pos: Vec, half: Vec, axis: Axis, d: real): (q: Vec)
    ensures axis == X ==> q.y == pos.y
    ensures axis == Y ==> q.x == pos.x
    ensures !HitsWall(walls, Shift(pos, axis, d), half) ==> q == Shift(pos, axis, d)
  {
    var full := Shift(pos, axis, d);
    if HitsWall(walls, full, half) then Shift(pos, axis, SweepDistance(walls, pos, half, axis, d))
    else full
  }

  /** An axis phase covers part of `d`, with the sign of `d`, and never more than `d`. */
  lemma MoveAxisWithinMove(walls: seq<Box>, pos: Vec, half: Vec, axis: Axis, d: real)
    ensures var q := MoveAxis(walls, pos, half, axis, d);
      && (0.0 <= d ==> Coord(pos, axis) <= Coord(q, axis) <= Coord(pos, axis) + d)
      && (d <= 0.0 ==> Coord(pos, axis) + d <= Coord(q, axis) <= Coord(pos, axis))
  {
  }

  /** A mover that overlaps no wall before an axis phase overlaps none after it: the
      sweep only keeps sub-steps that were found clear. */
  lemma MoveAxisKeepsClear(walls: seq<Box>, pos: Vec, half: Vec, axis: Axis, d: real)
    requires !HitsWall(walls, pos, half)
    ensures !HitsWall(walls, MoveAxis(walls, pos, half, axis, d), half)
  {
    var full := Shift(pos, axis, d);
    if HitsWall(walls, full, half) {
      assert d != 0.0;
      var step := d / SWEEP_STEPS as real;
      var k := ClearSteps(walls, pos, half, axis, step, 0);
      assert SweepDistance(walls, pos, half, axis, d) == Travel(step, k);
      if k == 0 {
        assert Shift(pos, axis, 0.0) == pos;
      } else {
        ClearStepsStopsAtWall(walls, pos, half, axis, step, 0);
        assert !HitsWall(walls, SubStep(pos, axis, step, k), half);
      }
    }
  }

  /** Both phases of one movement step: X by `dx`, then Y by `dy` from where X ended. */
  function TwoPhase(walls: seq<Box>, pos: Vec, half: Vec, dx: real, dy: real): Vec {
    MoveAxis(walls, MoveAxis(walls, pos, half, X, dx), half, Y, dy)
  }

  /** The mover move_with_collisions leaves after `dt`: position from the two phases with
      displacements `v*dt`; velocity and size are kept. */
  function Moved(walls: seq<Box>, m: Mover, dt: real): Mover {
    var d := Scale(m.vel, dt);
    m.(pos := TwoPhase(walls, m.pos, Half(m.size), d.x, d.y))
  }

  /** Per-axis facts of one movement step: the X phase leaves y alone and the Y phase
      leaves x alone, so x is decided by the X phase and y by the Y phase alone; a phase
      whose whole move is clear lands exactly at old + d. */
  lemma TwoPhaseAxes(walls: seq<Box>, pos: Vec, half: Vec, dx: real, dy: real)
    ensures var r := TwoPhase(walls, pos, half, dx, dy);
      && r.x == MoveAxis(walls, pos, half, X, dx).x
      && r.y == MoveAxis(walls, Vec(r.x, pos.y), half, Y, dy).y
      && (!HitsWall(walls, Vec(pos.x + dx, pos.y), half) ==> r.x == pos.x + dx)
      && (!HitsWall(walls, Vec(r.x, pos.y + dy), half) ==> r.y == pos.y + dy)
  {
    var afterX := MoveAxis(walls, pos, half, X, dx);
    var afterY := MoveAxis(walls, afterX, half, Y, dy);
    assert afterX == Vec(afterY.x, pos.y);
    assert Shift(pos, X, dx) == Vec(pos.x + dx, pos.y);
    assert Shift(afterX, Y, dy) == Vec(afterY.x, pos.y + dy);
  }

  /** With no walls in the way every mover moves by exactly v*dt, velocity and size kept. */
  lemma MovedWithoutWalls(m: Mover, dt: real)
    ensures Moved([], m, dt) == Mover(Add(m.pos, Scale(m.vel, dt)), m.vel, m.size)
  {
  }

  /** A mover clear of every wall stays clear of every wall after it moves. */
  lemma MovedKeepsClear(walls: seq<Box>, m: Mover, dt: real)
    requires !HitsWall(walls, m.pos, Half(m.size))
    ensures !HitsWall(walls, Moved(walls, m, dt).pos, Half(m.size))
  {
    var half := Half(m.size);
    var dx, dy := m.vel.x * dt, m.vel.y * dt;
    MoveAxisKeepsClear(walls, m.pos, half, X, dx);
    MoveAxisKeepsClear(walls, MoveAxis(walls, m.pos, half, X, dx), half, Y, dy);
  }

  /** One phase of move_with_collisions: move the whole way, and if that overlaps a wall,
      undo it and add what sweep_axis allows. */
  method MovePhase(walls: seq<Box>, start: Vec, half: Vec, axis: Axis, d: real) returns (pos: Vec)
    ensures pos == MoveAxis(walls, start, half, axis, d)
  {
    pos := Shift(start, axis, d);
    var hit := OverlapsAny(pos, half, walls);
    if hit {
      pos := Shift(pos, axis, -d);
      var moved := SweepAxis(pos, half, d, axis, walls);
      pos := Shift(pos, axis, moved);
    }
  }

  /** X phase, then Y phase from where the X phase ended. */
  method MoveBothAxes(walls: seq<Box>, start: Vec, half: Vec, dx: real, dy: real) returns (pos: Vec)
    ensures pos == TwoPhase(walls, start, half, dx, dy)
  {
    pos := MovePhase(walls, start, half, X, dx);
    pos := MovePhase(walls, pos, half, Y, dy);
  }

  /** The body of move_with_collisions for one mover: both phases with displacement v*dt,
      then the translation is written back. */
  method MoveMover(walls: seq<Box>, m: Mover, dt: real) returns (r: Mover)
    ensures r == Moved(walls, m, dt)
  {
    var d := Scale(m.vel, dt);
    var pos := MoveBothAxes(walls, m.pos, Half(m.size), d.x, d.y);
    r := m.(pos := pos);
  }

  /** Every mover after move_with_collisions, in query order. */
  function MovedAll(walls: seq<Box>, ms: seq<Mover>, dt: real): (r: seq<Mover>)
    ensures |r| == |ms|
  {
    seq(|ms|, i requires 0 <= i < |ms| => Moved(walls, ms[i], dt))
  }

  /** The loop of move_with_collisions over a group of movers, each updated in place. */
  method MoveEach(walls: seq<Box>, ms: seq<Mover>, dt: real) returns (r: seq<Mover>)
    ensures r == MovedAll(walls, ms, dt)
  {
    r := ms;
    for i := 0 to |ms|
      invariant |r| == |ms|
      invariant forall j :: 0 <= j < i ==> r[j] == Moved(walls, ms[j], dt)
      invariant forall j :: i <= j < |ms| ==> r[j] == ms[j]
    {
      var moved := MoveMover(walls, r[i], dt);
      r := r[i := moved];
    }
  }
}
