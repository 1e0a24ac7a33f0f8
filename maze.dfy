/** `MazeConstructor`: builds the padded grid, carves it with a randomized
    depth-first backtracker, and cleans it into the finished maze. The random
    choices of `main.py`'s `create_maze` and `__make_path` (`randint`,
    `choice`) are nondeterministic choices here, so every property holds for
    every sequence of choices. */
module Mazes {
  import opened Vectors
  import opened Grids
  import opened Carving
  import opened Cleanup
  import opened Rendering

  /** A requested dimension rounded up to odd and padded by two cells on each
      side: the least odd number that is at least `n + 4`. It is at least 5
      exactly when the request is not negative. */
  function StoredDimension(n: int): (r: int)
    ensures r % 2 == 1 && n + 4 <= r < n + 6
    ensures r >= 5 <==> n >= 0
  {
    (if n % 2 == 1 then n else n + 1) + 4
  }

  /** The position of the first occurrence of `x` in `s`. */
  function FirstIndex(s: seq<Direction>, x: Direction): (i: nat)
    requires x in s
    ensures i < |s| && s[i] == x && x !in s[..i]
  {
    if s[0] == x then 0 else
      var k := FirstIndex(s[1..], x);
      assert s[..k + 1] == [s[0]] + s[1..][..k];
      k + 1
  }

  /** List removal of `x` (`list.remove`), which Python only allows when `x` is
      in the list: the first occurrence goes and the rest keep their order. */
  function Remove(s: seq<Direction>, x: Direction): (r: seq<Direction>)
    requires x in s
    ensures |r| == |s| - 1
    ensures multiset(r) == multiset(s) - multiset{x}
    ensures forall e :: e != x ==> (e in r <==> e in s)
    ensures forall k :: 0 <= k < |s| && s[k] == x && x !in s[..k] ==> r == s[..k] + s[k + 1..]
  {
    var i := FirstIndex(s, x);
    assert s == s[..i] + [x] + s[i + 1..];
    assert multiset(s) == multiset(s[..i]) + multiset{x} + multiset(s[i + 1..]);
    var r := s[..i] + s[i + 1..];
    assert multiset(r) == multiset(s[..i]) + multiset(s[i + 1..]);
    forall k | 0 <= k < |s| && s[k] == x && x !in s[..k]
      ensures k == i
    {
    }
    r
  }

  class MazeConstructor {
    var width: int
    var height: int
    var maze: Grid

    /** The invariant of the padded grid while it is being carved. */
    ghost predicate Valid()
      reads this
    {
      GridOk(maze, height, width)
    }

    /** `MazeConstructor(height, width)`: stores the padded odd dimensions and
        builds the fresh grid. */
    constructor (height: int, width: int)
      ensures this.width == StoredDimension(width) && this.height == StoredDimension(height)
      ensures maze == FreshGrid(this.height, this.width)
      ensures this.width >= 5 && this.height >= 5 ==> Valid()
    {
      var oddWidth := if width % 2 == 1 then width else width + 1;
      this.width := oddWidth + 4;
      var oddHeight := if height % 2 == 1 then height else height + 1;
      this.height := oddHeight + 4;
      new;
      maze := InitMazeGrid();
      if this.width >= 5 && this.height >= 5 {
        FreshGridShape(this.height, this.width);
      }
    }

    /** `__init_maze_grid`: row by row, the outer ring `Vis`, even/even cells
        `Free`, every other cell `Wall`. */
    method InitMazeGrid() returns (grid: Grid)
      ensures grid == FreshGrid(height, width)
    {
      ghost var target := FreshGrid(height, width);
      grid := [];
      var i := 0;
      while i < height
        invariant 0 <= i <= Max0(height)
        invariant grid == target[..i]
      {
        var row: seq<State> := [];
        var j := 0;
        while j < width
          invariant 0 <= j <= Max0(width)
          invariant row == target[i][..j]
        {
          var edgeCase := i == 0 || j == 0 || i == height - 1 || j == width - 1;
          if edgeCase {
            row := row + [Vis];
          } else if i % 2 == 0 && j % 2 == 0 {
            row := row + [Free];
          } else {
            row := row + [Wall];
          }
          assert row == target[i][..j + 1];
          j := j + 1;
        }
        assert row == target[i];
        grid := grid + [row];
        assert grid == target[..i + 1];
        i := i + 1;
      }
      assert grid == target;
    }

    /** `create_maze`: picks a random room, carves from it and cleans the grid.
        When a stored dimension is below 5, `randint(1, size // 2 - 1)` has an
        empty range and raises; the grid is then left as it was. Otherwise the
        carved grid is a spanning tree of the rooms rooted at the start room,
        and the maze left behind is that grid cleaned. */
    method CreateMaze() returns (ok: bool, ghost carved: Grid, ghost start: IntVector)
      requires width % 2 == 1 && height % 2 == 1 && maze == FreshGrid(height, width)
      modifies this`maze
      ensures ok <==> width >= 5 && height >= 5
      ensures !ok ==> maze == old(maze)
      ensures ok ==> SpanningTree(carved, height, width, start) && maze == Finish(carved)
    {
      assert (width / 2 - 1 < 1 || height / 2 - 1 < 1) <==> width < 5 || height < 5;
      if width / 2 - 1 < 1 || height / 2 - 1 < 1 {
        return false, maze, IntVector(0, 0);
      }
      var kx :| 1 <= kx <= width / 2 - 1;
      var ky :| 1 <= ky <= height / 2 - 1;
      var startX := kx * 2;
      var startY := ky * 2;
      var startCell := IntVector(startX, startY);
      StartCells(height, width, startCell);
      FreshStart(height, width, startCell);
      MakePath(startCell);
      SpanningFromFresh(maze, height, width, startCell);
      start := startCell;
      carved := maze;
      CleanMaze();
      ok := true;
    }

    /** `__make_path`: marks `cell` visited; unless all four neighbours are
        already visited, tries the four directions in a random order and, for
        each neighbour still `Free`, carves the wall in between and recurses
        into it.
        On return the grid has only grown (cells became `Vis`, nothing else),
        `cell` and every room visited by this call has no `Free` neighbour,
        every carved link joins two visited rooms, every room this call visited
        is reachable from `cell` through carved walls, and the call visited
        exactly one more room than it carved walls when `cell` was `Free`
        (as many when it was not). */
    method MakePath(cell: IntVector)
      requires Valid() && IsRoom(height, width, cell)
      requires LinksClosedExcept(maze, height, width, cell)
      modifies this`maze
      ensures Valid() && Grows(old(maze), maze)
      ensures At(maze, cell) == Vis && Exhausted(maze, cell)
      ensures LinksClosed(maze, height, width)
      ensures forall r :: Newly(old(maze), maze, height, width, r) ==>
        Exhausted(maze, r) && Reach(maze, cell, r)
      ensures |VisRooms(maze, height, width)| + |Carved(old(maze), height, width)| ==
        |VisRooms(old(maze), height, width)| + |Carved(maze, height, width)| +
        (if At(old(maze), cell) == Free then 1 else 0)
      decreases FreeRooms(maze, height, width), if At(maze, cell) == Free then 0 else 1
    {
      ghost var entry := maze;
      ghost var bonus := if At(entry, cell) == Free then 1 else 0;
      ProgressStart(entry, height, width, cell);
      maze := maze[cell.y := maze[cell.y][cell.x := Vis]];
      assert maze == Put(entry, cell, Vis);

      var allVisited := AllSurroundingVisited(cell);
      if allVisited {
        ProgressFinish(entry, maze, height, width, cell, bonus);
        return;
      }

      var directions := [N, E, S, W];
      forall d: Direction
        ensures d in directions
      {
        DirectionTable(d, d);
      }
      while directions != []
        invariant Progress(entry, maze, height, width, cell, bonus)
        invariant forall d: Direction :: d !in directions ==> Neighbour(maze, cell, d) != Free
        decreases |directions|
      {
        assert directions[0] in directions;
        var direction :| direction in directions;
        directions := Remove(directions, direction);

        var free := DirectionFree(cell, direction);
        if !free {
          continue;
        }

        var (wallBetween, nextCell) := GoFromTo(cell, direction);
        ghost var before := maze;
        CarveStep(entry, maze, height, width, cell, bonus, direction);
        maze := maze[wallBetween.y := maze[wallBetween.y][wallBetween.x := Vis]];
        ghost var withWall := maze;
        assert withWall == Put(before, wallBetween, Vis);
        MakePath(nextCell);
        ProgressStep(entry, before, height, width, cell, bonus, direction, withWall, maze);
      }
      ProgressFinish(entry, maze, height, width, cell, bonus);
    }

    /** `__go_from_to`: the wall between `cell` and its neighbour in `direction`,
        and that neighbour; the wall is the exact midpoint of the two. */
    static function GoFromTo(cell: IntVector, direction: Direction): (r: (IntVector, IntVector))
      ensures r.0.x * 2 == cell.x + r.1.x && r.0.y * 2 == cell.y + r.1.y
      ensures r.0 == cell.Add(direction.Half()) && r.1 == cell.Add(direction.Vec())
    {
      var nextCell := cell.Add(direction.Vec());
      var wallBetween := cell.Add(direction.Vec().TrueDiv(2));
      (wallBetween, nextCell)
    }

    /** `__direction_free`: the neighbour of the room `cell` in `direction` is
        `Free`; the read stays inside the grid. */
    function DirectionFree(cell: IntVector, direction: Direction): (free: bool)
      reads this
      requires Valid() && IsRoom(height, width, cell)
      ensures free <==> Neighbour(maze, cell, direction) == Free
    {
      var nextCell := cell.Add(direction.Vec());
      StepGeometry(height, width, cell, direction);
      maze[nextCell.y][nextCell.x] == Free
    }

    /** `__all_surrounding_visited`: all four neighbours of the room `cell` are
        `Vis`; the reads stay inside the grid. */
    method AllSurroundingVisited(cell: IntVector) returns (allVisited: bool)
      requires Valid() && IsRoom(height, width, cell)
      ensures allVisited <==> forall d: Direction :: Neighbour(maze, cell, d) == Vis
    {
      allVisited := true;
      var moves := AllDirections;
      for k := 0 to |moves|
        invariant allVisited <==> forall m :: 0 <= m < k ==> Neighbour(maze, cell, moves[m]) == Vis
      {
        var nextCell := cell.Add(moves[k].Vec());
        StepGeometry(height, width, cell, moves[k]);
        var cellIsVisited := maze[nextCell.y][nextCell.x] == Vis;
        allVisited := allVisited && cellIsVisited;
      }
      assert moves == [N, E, S, W];
      assert allVisited <==> forall d: Direction :: d in moves ==> Neighbour(maze, cell, d) == Vis;
    }

    /** `__clean_maze`: rewrites every `Vis` cell to `Free` in place, then keeps
        rows `1 .. len - 2`, each without its first and last cell. */
    method CleanMaze()
      modifies this`maze
      ensures maze == Finish(old(maze))
    {
      ghost var original := maze;
      ghost var normal := Normalize(original);
      var i := 0;
      while i < |maze|
        invariant 0 <= i <= |maze| == |original|
        invariant forall k :: 0 <= k < i ==> maze[k] == normal[k]
        invariant forall k :: i <= k < |maze| ==> maze[k] == original[k]
      {
        var j := 0;
        while j < |maze[i]|
          invariant |maze| == |original| && |maze[i]| == |original[i]|
          invariant 0 <= j <= |maze[i]|
          invariant forall k :: 0 <= k < i ==> maze[k] == normal[k]
          invariant forall k :: i < k < |maze| ==> maze[k] == original[k]
          invariant forall l :: 0 <= l < j ==> maze[i][l] == normal[i][l]
          invariant forall l :: j <= l < |maze[i]| ==> maze[i][l] == original[i][l]
        {
          if maze[i][j] == Vis {
            maze := maze[i := maze[i][j := Free]];
          }
          j := j + 1;
        }
        assert maze[i] == normal[i];
        i := i + 1;
      }
      assert maze == normal;

      var newMaze: Grid := [];
      i := 1;
      while i < |maze| - 1
        invariant 1 <= i <= Max0(|maze| - 2) + 1
        invariant newMaze == Trim(normal)[..i - 1]
      {
        var rowLen := |maze[i]|;
        var inner := if rowLen >= 2 then maze[i][1..rowLen - 1] else [];
        newMaze := newMaze + [inner];
        assert newMaze == Trim(normal)[..i];
        i := i + 1;
      }
      assert newMaze == Trim(normal);
      maze := newMaze;
    }

    /** `__repr__`: one character per cell, each row followed by a newline. */
    method Repr() returns (repr: string)
      ensures repr == Render(maze)
    {
      repr := "";
      for i := 0 to |maze|
        invariant repr == Render(maze[..i])
      {
        var row := maze[i];
        for j := 0 to |row|
          invariant repr == Render(maze[..i]) + RenderRow(row[..j])
        {
          var cell := row[j];
          if cell == Free {
            repr := repr + " ";
          } else if cell == Vis {
            repr := repr + "X";
          } else {
            repr := repr + [WallGlyph];
          }
          assert row[..j + 1][..j] == row[..j];
        }
        assert row[..|row|] == row;
        assert maze[..i + 1][..i] == maze[..i];
        repr := repr + "\n";
      }
      assert maze[..|maze|] == maze;
    }
  }
}
