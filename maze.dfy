/** build_maze (src/main.rs:53-71, 112-156): the fixed character grid becomes wall tiles,
    an ordered list of enemy spawn points and the player's start position. */
module Maze {
  import opened Wrappers
  import opened Geometry
  import opened Config

  /** The 20x15 maze: '#' wall, 'S' enemy spawn, 'P' player start, ' ' floor. */
  const MAZE: seq<string> := [
    "####################",
    "#P             #  S#",
    "### #### ####### ###",
    "#   #   #     #   ##",
    "# ### # # ### ###  #",
    "# #   #   # #     S#",
    "#         # # ######",
    "# #     #   #     ##",
    "# ##### ###     #  #",
    "#     #     #   #  #",
    "### # ### # ### ####",
    "# S #   # #   #    #",
    "### ### # ### # ####",
    "#      S#     #   S#",
    "####################"
  ]

  /** A grid position: row from the top, column from the left, both from 0. */
  datatype Cell = Cell(row: nat, col: nat)

  datatype MazeError =
    | NoRows                                          // the grid has no first row to measure
    | RowWidth(row: nat, width: nat, expected: nat)   // the first row whose width differs from row 0

  datatype MazeLayout = MazeLayout(walls: seq<Box>, spawnPoints: seq<Vec>, playerStart: Vec)

  /** World centre of the top-left cell, so that the grid is centred in the arena. */
  const ORIGIN: Vec := Vec(-ARENA_W * 0.5 + TILE * 0.5, ARENA_H * 0.5 - TILE * 0.5)

  /** Start position used when the grid has no 'P'. */
  const FALLBACK_START: Vec := Vec(0.0, -ARENA_H * 0.35)

  /** World centre of a cell: columns go right, rows go down. */
  function CellCenter(c: Cell): Vec {
    Vec(ORIGIN.x + c.col as real * TILE, ORIGIN.y - c.row as real * TILE)
  }

  /** The wall tile spawned for a '#' cell. */
  function WallAt(c: Cell): Box {
    Box(CellCenter(c), Vec(TILE, TILE))
  }

  /** Every row has the width of row 0 (the check build_maze makes before anything else). */
  predicate Rectangular(grid: seq<string>) {
    |grid| > 0 && forall i :: 0 <= i < |grid| ==> |grid[i]| == |grid[0]|
  }

  /** The cells among the first `n` of row `r` that hold `ch`, left to right. */
  function RowCells(line: string, r: nat, ch: char, n: nat): seq<Cell>
    requires n <= |line|
  {
    if n == 0 then []
    else RowCells(line, r, ch, n - 1) + (if line[n - 1] == ch then [Cell(r, n - 1)] else [])
  }

  /** The cells of `grid` that hold `ch`, in row-major scan order. */
  function CellsOf(grid: seq<string>, ch: char): seq<Cell>
    decreases |grid|
  {
    if grid == [] then []
    else
      var r := |grid| - 1;
      CellsOf(grid[..r], ch) + RowCells(grid[r], r, ch, |grid[r]|)
  }

  function Walls(cells: seq<Cell>): (ws: seq<Box>)
    ensures |ws| == |cells|
  {
    seq(|cells|, i requires 0 <= i < |cells| => WallAt(cells[i]))
  }

  function Centers(cells: seq<Cell>): (ps: seq<Vec>)
    ensures |ps| == |cells|
  {
    seq(|cells|, i requires 0 <= i < |cells| => CellCenter(cells[i]))
  }

  /** The last marker cell wins; with none the fallback start is used. */
  function StartFrom(markers: seq<Cell>): Vec {
    if markers == [] then FALLBACK_START else CellCenter(markers[|markers| - 1])
  }

  /** What build_maze produces from a grid that passes the width check. */
  function Layout(grid: seq<string>): MazeLayout {
    MazeLayout(Walls(CellsOf(grid, '#')), Centers(CellsOf(grid, 'S')), StartFrom(CellsOf(grid, 'P')))
  }

  /** build_maze: reject a grid whose rows differ in width, naming the first such row;
      otherwise scan it row by row and column by column, spawning a wall per '#',
      appending a spawn point per 'S' and overwriting the start position at each 'P'. */
  method BuildMaze(grid: seq<string>) returns (res: Result<MazeLayout, MazeError>)
    ensures res.Success? <==> Rectangular(grid)
    ensures res.Success? ==> res.value == Layout(grid)
    ensures grid == [] ==> res == Failure(NoRows)
    ensures res.Failure? && grid != [] ==>
      && res.error.RowWidth?
      && res.error.row < |grid|
      && res.error.width == |grid[res.error.row]| != res.error.expected == |grid[0]|
      && forall i :: 0 <= i < res.error.row ==> |grid[i]| == |grid[0]|
  {
    if |grid| == 0 {
      return Failure(NoRows);
    }
    var expectedCols := |grid[0]|;
    for i := 0 to |grid|
      invariant forall j :: 0 <= j < i ==> |grid[j]| == expectedCols
    {
      if |grid[i]| != expectedCols {
        return Failure(RowWidth(i, |grid[i]|, expectedCols));
      }
    }

    var walls: seq<Box> := [];
    var spawnPoints: seq<Vec> := [];
    var playerStart := FALLBACK_START;
    ghost var wallCells: seq<Cell> := [];
    ghost var spawnCells: seq<Cell> := [];
    ghost var playerCells: seq<Cell> := [];

    for r := 0 to |grid|
      invariant wallCells == CellsOf(grid[..r], '#')
      invariant spawnCells == CellsOf(grid[..r], 'S')
      invariant playerCells == CellsOf(grid[..r], 'P')
      invariant walls == Walls(wallCells)
      invariant spawnPoints == Centers(spawnCells)
      invariant playerStart == StartFrom(playerCells)
    {
      var line := grid[r];
      for c := 0 to |line|
        invariant wallCells == CellsOf(grid[..r], '#') + RowCells(line, r, '#', c)
        invariant spawnCells == CellsOf(grid[..r], 'S') + RowCells(line, r, 'S', c)
        invariant playerCells == CellsOf(grid[..r], 'P') + RowCells(line, r, 'P', c)
        invariant walls == Walls(wallCells)
        invariant spawnPoints == Centers(spawnCells)
        invariant playerStart == StartFrom(playerCells)
      {
        var pos := CellCenter(Cell(r, c));
        match line[c] {
          case '#' =>
            walls := walls + [Box(pos, Vec(TILE, TILE))];
            wallCells := wallCells + [Cell(r, c)];
          case 'S' =>
            spawnPoints := spawnPoints + [pos];
            spawnCells := spawnCells + [Cell(r, c)];
          case 'P' =>
            playerStart := pos;
            playerCells := playerCells + [Cell(r, c)];
          case _ =>
        }
      }
      assert grid[..r + 1][..r] == grid[..r];
    }
    assert grid[..|grid|] == grid;
    return Success(MazeLayout(walls, spawnPoints, playerStart));
  }

  /** `c` lies inside the grid and holds `ch`. */
  predicate IsMarker(grid: seq<string>, c: Cell, ch: char) {
    c.row < |grid| && c.col < |grid[c.row]| && grid[c.row][c.col] == ch
  }

  /** `a` comes strictly before `b` in a row-major scan. */
  predicate Before(a: Cell, b: Cell) {
    a.row < b.row || (a.row == b.row && a.col < b.col)
  }

  /** The cells are in strictly increasing row-major order (hence without repeats). */
  predicate RowMajor(cells: seq<Cell>) {
    forall i, j :: 0 <= i < j < |cells| ==> Before(cells[i], cells[j])
  }

  /** Number of `ch` characters in the grid. */
  function Occurrences(grid: seq<string>, ch: char): nat
    decreases |grid|
  {
    if grid == [] then 0 else Occurrences(grid[..|grid| - 1], ch) + multiset(grid[|grid| - 1])[ch]
  }

  lemma {:induction false} RowCellsMember(line: string, r: nat, ch: char, n: nat, c: Cell)
    requires n <= |line|
    ensures c in RowCells(line, r, ch, n) <==> c.row == r && c.col < n && line[c.col] == ch
  {
    if n > 0 {
      RowCellsMember(line, r, ch, n - 1, c);
    }
  }

  lemma {:induction false} RowCellsSorted(line: string, r: nat, ch: char, n: nat)
    requires n <= |line|
    ensures RowMajor(RowCells(line, r, ch, n))
  {
    if n > 0 {
      RowCellsSorted(line, r, ch, n - 1);
      var init := RowCells(line, r, ch, n - 1);
      var cells := RowCells(line, r, ch, n);
      forall i, j | 0 <= i < j < |cells|
        ensures Before(cells[i], cells[j])
      {
        if j == |init| {
          assert cells[i] == init[i] && cells[j] == Cell(r, n - 1);
          assert init[i] in init;
          RowCellsMember(line, r, ch, n - 1, init[i]);
        } else {
          assert cells[i] == init[i] && cells[j] == init[j];
          assert Before(init[i], init[j]);
        }
      }
    }
  }

  lemma {:induction false} RowCellsCount(line: string, r: nat, ch: char, n: nat)
    requires n <= |line|
    ensures |RowCells(line, r, ch, n)| == multiset(line[..n])[ch]
  {
    if n > 0 {
      RowCellsCount(line, r, ch, n - 1);
      assert line[..n] == line[..n - 1] + [line[n - 1]];
    }
  }

  /** CellsOf lists exactly the cells of the grid that hold `ch`. */
  lemma {:induction false} CellsOfMember(grid: seq<string>, ch: char, c: Cell)
    ensures c in CellsOf(grid, ch) <==> IsMarker(grid, c, ch)
    decreases |grid|
  {
    if grid != [] {
      var r := |grid| - 1;
      var upper := CellsOf(grid[..r], ch);
      var lower := RowCells(grid[r], r, ch, |grid[r]|);
      assert CellsOf(grid, ch) == upper + lower;
      CellsOfMember(grid[..r], ch, c);
      RowCellsMember(grid[r], r, ch, |grid[r]|, c);
      if c.row < r {
        assert grid[..r][c.row] == grid[c.row];
        assert c in upper <==> IsMarker(grid, c, ch);
        assert c !in lower;
      } else {
        assert c !in upper;
        assert c in lower <==> IsMarker(grid, c, ch);
      }
    }
  }

  /** CellsOf lists its cells in strictly increasing row-major order (so without repeats). */
  lemma {:induction false} CellsOfSorted(grid: seq<string>, ch: char)
    ensures RowMajor(CellsOf(grid, ch))
    decreases |grid|
  {
    if grid != [] {
      var r := |grid| - 1;
      var upper := CellsOf(grid[..r], ch);
      var lower := RowCells(grid[r], r, ch, |grid[r]|);
      CellsOfSorted(grid[..r], ch);
      RowCellsSorted(grid[r], r, ch, |grid[r]|);
      forall c | c in upper
        ensures c.row < r
      {
        CellsOfMember(grid[..r], ch, c);
      }
      forall c | c in lower
        ensures c.row == r
      {
        RowCellsMember(grid[r], r, ch, |grid[r]|, c);
      }
      var cells := upper + lower;
      forall i, j | 0 <= i < j < |cells|
        ensures Before(cells[i], cells[j])
      {
        if i < |upper| && j >= |upper| {
          assert cells[i] == upper[i] && cells[j] == lower[j - |upper|];
          assert cells[i] in upper && cells[j] in lower;
        } else if i < |upper| {
          assert cells[i] == upper[i] && cells[j] == upper[j];
          assert Before(upper[i], upper[j]);
        } else {
          assert cells[i] == lower[i - |upper|] && cells[j] == lower[j - |upper|];
          assert Before(lower[i - |upper|], lower[j - |upper|]);
        }
      }
    }
  }

  /** CellsOf has one entry per occurrence of `ch`. */
  lemma {:induction false} CellsOfCount(grid: seq<string>, ch: char)
    ensures |CellsOf(grid, ch)| == Occurrences(grid, ch)
    decreases |grid|
  {
    if grid != [] {
      var r := |grid| - 1;
      CellsOfCount(grid[..r], ch);
      RowCellsCount(grid[r], r, ch, |grid[r]|);
      assert grid[r][..|grid[r]|] == grid[r];
    }
  }

  /** One wall per '#' character, one spawn point per 'S' character. */
  lemma LayoutCounts(grid: seq<string>)
    ensures |Layout(grid).walls| == Occurrences(grid, '#')
    ensures |Layout(grid).spawnPoints| == Occurrences(grid, 'S')
  {
    CellsOfCount(grid, '#');
    CellsOfCount(grid, 'S');
  }

  /** Every '#' cell gets a tile-sized wall centred on it, and every wall is such a tile. */
  lemma WallsMatchMarkers(grid: seq<string>)
    ensures forall c :: IsMarker(grid, c, '#') ==> WallAt(c) in Layout(grid).walls
    ensures forall w :: w in Layout(grid).walls ==> exists c :: IsMarker(grid, c, '#') && w == WallAt(c)
  {
    var cells := CellsOf(grid, '#');
    var walls := Layout(grid).walls;
    forall c | IsMarker(grid, c, '#')
      ensures WallAt(c) in walls
    {
      CellsOfMember(grid, '#', c);
      var i :| 0 <= i < |cells| && cells[i] == c;
      assert walls[i] == WallAt(c);
    }
    forall w | w in walls
      ensures exists c :: IsMarker(grid, c, '#') && w == WallAt(c)
    {
      var i :| 0 <= i < |walls| && walls[i] == w;
      CellsOfMember(grid, '#', cells[i]);
    }
  }

  /** Spawn point `i` is the centre of the `i`-th 'S' in row-major order: each lies on an
      'S' cell, and the cells come in strictly increasing scan order. */
  lemma SpawnPointsInScanOrder(grid: seq<string>)
    ensures var cells := CellsOf(grid, 'S');
      && Layout(grid).spawnPoints == Centers(cells)
      && (forall i :: 0 <= i < |cells| ==> IsMarker(grid, cells[i], 'S'))
      && RowMajor(cells)
  {
    var cells := CellsOf(grid, 'S');
    forall i | 0 <= i < |cells|
      ensures IsMarker(grid, cells[i], 'S')
    {
      CellsOfMember(grid, 'S', cells[i]);
    }
    CellsOfSorted(grid, 'S');
  }

  /** The player starts on the last 'P' in row-major order. */
  lemma PlayerStartIsLastMarker(grid: seq<string>, last: Cell)
    requires IsMarker(grid, last, 'P')
    requires forall c :: IsMarker(grid, c, 'P') ==> c == last || Before(c, last)
    ensures Layout(grid).playerStart == CellCenter(last)
  {
    var cells := CellsOf(grid, 'P');
    CellsOfMember(grid, 'P', last);
    CellsOfSorted(grid, 'P');
    var n := |cells| - 1;
    CellsOfMember(grid, 'P', cells[n]);
  }

  /** Without any 'P' the player starts at the fallback position. */
  lemma PlayerStartFallback(grid: seq<string>)
    requires forall c :: !IsMarker(grid, c, 'P')
    ensures Layout(grid).playerStart == FALLBACK_START
  {
    if CellsOf(grid, 'P') != [] {
      CellsOfMember(grid, 'P', CellsOf(grid, 'P')[0]);
    }
  }

  /** The game's own maze passes the width check: 15 rows of 20 characters. */
  lemma MazeIsRectangular()
    ensures |MAZE| == 15 && |MAZE[0]| == 20 && Rectangular(MAZE)
  {
  }

  /** The single row "#P  S#": walls at columns 0 and 5, the spawn point at column 4,
      the player at column 1, all on row 0. */
  lemma SampleRow()
    ensures Layout(["#P  S#"]) ==
      MazeLayout([WallAt(Cell(0, 0)), WallAt(Cell(0, 5))], [CellCenter(Cell(0, 4))], CellCenter(Cell(0, 1)))
  {
    var g: seq<string> := ["#P  S#"];
    var line := g[0];
    assert g[..0] == [];
    assert RowCells(line, 0, '#', 6) == [Cell(0, 0), Cell(0, 5)] by {
      assert RowCells(line, 0, '#', 1) == [Cell(0, 0)];
      assert RowCells(line, 0, '#', 5) == RowCells(line, 0, '#', 1);
    }
    assert RowCells(line, 0, 'S', 6) == [Cell(0, 4)] by {
      assert RowCells(line, 0, 'S', 4) == [];
    }
    assert RowCells(line, 0, 'P', 6) == [Cell(0, 1)] by {
      assert RowCells(line, 0, 'P', 2) == [Cell(0, 1)];
      assert RowCells(line, 0, 'P', 6) == RowCells(line, 0, 'P', 2);
    }
  }
}
