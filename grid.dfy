/** The maze grid: three-valued cells, the classification of positions, the
    freshly built grid and the geometry of one carving step. */
module Grids {
  import opened Vectors

  /** `FREE` (not yet visited), `WALL`, `VIS` (visited). */
  datatype State = Free | Wall | Vis

  /** Rows of cells: `g[y][x]`. */
  type Grid = seq<seq<State>>

  /** `n`, or `0` for a negative `n` (the length of Python's `range(n)`). */
  function Max0(n: int): nat
  {
    if n < 0 then 0 else n
  }

  /** `g` has `h` rows of `w` cells each. */
  predicate Shaped(g: Grid, h: int, w: int)
  {
    |g| == h && forall i :: 0 <= i < |g| ==> |g[i]| == w
  }

  predicate InGrid(g: Grid, p: IntVector)
  {
    0 <= p.y < |g| && 0 <= p.x < |g[p.y]|
  }

  predicate Inside(h: int, w: int, p: IntVector)
  {
    0 <= p.x < w && 0 <= p.y < h
  }

  /** Total cell lookup for specifications (positions off the grid read as `Wall`). */
  function At(g: Grid, p: IntVector): State
  {
    if InGrid(g, p) then g[p.y][p.x] else Wall
  }

  /** The grid with the cell at `p` set to `s` (`maze[p.y][p.x] = s`). */
  function Put(g: Grid, p: IntVector, s: State): (r: Grid)
    requires InGrid(g, p)
    ensures |r| == |g| && forall i :: 0 <= i < |g| ==> |r[i]| == |g[i]|
    ensures forall q :: InGrid(g, q) ==> At(r, q) == if q == p then s else At(g, q)
  {
    g[p.y := g[p.y][p.x := s]]
  }

  /** Stored dimensions of a grid that can be carved: odd and at least 5. */
  predicate Dims(h: int, w: int)
  {
    h % 2 == 1 && w % 2 == 1 && h >= 5 && w >= 5
  }

  /** What a position of an `h` by `w` grid is for:
      Edge  -- the outermost ring, a permanent "visited" sentinel;
      Room  -- an even/even interior cell, a node of the maze;
      Link  -- the cell between two horizontally or vertically adjacent rooms;
      Solid -- an odd/odd cell or the ring just inside the edge: never carved. */
  datatype Kind = Edge | Room | Link | Solid

  function KindOf(h: int, w: int, p: IntVector): Kind
  {
    if p.y == 0 || p.x == 0 || p.y == h - 1 || p.x == w - 1 then Edge
    else if p.y % 2 == 0 && p.x % 2 == 0 then Room
    else if p.y % 2 == 1 && p.x % 2 == 1 then Solid
    else if p.y == 1 || p.x == 1 || p.y == h - 2 || p.x == w - 2 then Solid
    else Link
  }

  /** The states a cell of each kind may hold while the maze is being carved. */
  predicate Allowed(k: Kind, s: State)
  {
    match k
    case Edge => s == Vis
    case Room => s != Wall
    case Link => s != Free
    case Solid => s == Wall
  }

  /** The invariant of the padded grid during carving. */
  ghost predicate GridOk(g: Grid, h: int, w: int)
  {
    Dims(h, w) && Shaped(g, h, w) &&
    forall p :: Inside(h, w, p) ==> Allowed(KindOf(h, w, p), At(g, p))
  }

  predicate IsRoom(h: int, w: int, p: IntVector)
  {
    Inside(h, w, p) && KindOf(h, w, p) == Room
  }

  predicate IsLink(h: int, w: int, p: IntVector)
  {
    Inside(h, w, p) && KindOf(h, w, p) == Link
  }

  /** The cell `__init_maze_grid` puts at row `i`, column `j`. */
  function FreshCell(h: int, w: int, i: int, j: int): State
  {
    if i == 0 || j == 0 || i == h - 1 || j == w - 1 then Vis
    else if i % 2 == 0 && j % 2 == 0 then Free
    else Wall
  }

  /** The grid `__init_maze_grid` builds: `h` rows of `w` cells (none for a
      negative count, as `range` of a negative number is empty). */
  function FreshGrid(h: int, w: int): (g: Grid)
  {
    seq(Max0(h), i => seq(Max0(w), j => FreshCell(h, w, i, j)))
  }

  /** The state a fresh grid holds at a position of each kind. */
  function Initial(k: Kind): State
  {
    match k
    case Edge => Vis
    case Room => Free
    case Link => Wall
    case Solid => Wall
  }

  /** The fresh grid has exactly `h` rows of `w` cells, its outer ring is `Vis`,
      every room is `Free` and every other cell is `Wall`; so it satisfies the
      carving invariant. */
  lemma FreshGridShape(h: int, w: int)
    requires Dims(h, w)
    ensures Shaped(FreshGrid(h, w), h, w)
    ensures forall p :: Inside(h, w, p) ==> At(FreshGrid(h, w), p) == Initial(KindOf(h, w, p))
    ensures GridOk(FreshGrid(h, w), h, w)
  {
    var g := FreshGrid(h, w);
    forall p | Inside(h, w, p)
      ensures At(g, p) == Initial(KindOf(h, w, p))
    {
      assert At(g, p) == FreshCell(h, w, p.y, p.x);
    }
  }

  /** The start coordinates of `create_maze`, `2 * randint(1, size // 2 - 1)` on
      each axis, are exactly the rooms of the grid. */
  lemma StartCells(h: int, w: int, p: IntVector)
    requires Dims(h, w)
    ensures IsRoom(h, w, p) <==>
      (p.x % 2 == 0 && p.y % 2 == 0 &&
       1 <= p.x / 2 <= w / 2 - 1 && 1 <= p.y / 2 <= h / 2 - 1)
  {
  }

  /** One step from a room in direction `d`: the next cell (`cell + d`) and the
      wall between (`cell + d / 2`) lie inside the grid, the wall is the exact
      midpoint, and the next cell is a room or part of the outer ring. When it
      is a room, the wall between is a link; otherwise the wall is solid. */
  lemma StepGeometry(h: int, w: int, cell: IntVector, d: Direction)
    requires Dims(h, w) && IsRoom(h, w, cell)
    ensures Inside(h, w, cell.Add(d.Vec())) && Inside(h, w, cell.Add(d.Half()))
    ensures cell.Add(d.Half()).x * 2 == cell.x + cell.Add(d.Vec()).x
    ensures cell.Add(d.Half()).y * 2 == cell.y + cell.Add(d.Vec()).y
    ensures KindOf(h, w, cell.Add(d.Vec())) in {Room, Edge}
    ensures KindOf(h, w, cell.Add(d.Vec())) == Room <==> KindOf(h, w, cell.Add(d.Half())) == Link
    ensures KindOf(h, w, cell.Add(d.Half())) in {Link, Solid}
  {
  }
}
