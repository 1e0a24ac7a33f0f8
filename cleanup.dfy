/** The finishing pass of `__clean_maze`: every `Vis` cell becomes `Free`, then
    the outermost ring of rows and columns is dropped. */
module Cleanup {
  import opened Vectors
  import opened Grids
  import opened Carving

  function Unvisit(s: State): (r: State)
    ensures r != Vis && (s != Vis ==> r == s)
  {
    if s == Vis then Free else s
  }

  /** The grid after the in-place `VIS` to `FREE` pass. */
  function Normalize(g: Grid): (r: Grid)
    ensures |r| == |g| && forall i :: 0 <= i < |g| ==> |r[i]| == |g[i]|
  {
    seq(|g|, i requires 0 <= i < |g| => seq(|g[i]|, j requires 0 <= j < |g[i]| => Unvisit(g[i][j])))
  }

  /** `row[1:len(row) - 1]` with Python's slicing, which yields an empty list for
      a row shorter than two cells. */
  function Inner(row: seq<State>): (r: seq<State>)
    ensures |row| >= 2 ==> |r| == |row| - 2 && forall j :: 0 <= j < |r| ==> r[j] == row[j + 1]
    ensures |row| < 2 ==> r == []
  {
    if |row| >= 2 then row[1..|row| - 1] else []
  }

  /** The grid rebuilt from rows `1 .. len - 2`, each cut to its inner part. */
  function Trim(g: Grid): Grid
  {
    seq(Max0(|g| - 2), i requires 0 <= i < Max0(|g| - 2) => Inner(g[i + 1]))
  }

  /** Trimming keeps every row but the first and the last, each without its
      first and last cell, for any grid: `result[i][j] == grid[i + 1][j + 1]`. */
  lemma TrimCells(g: Grid)
    ensures |Trim(g)| == Max0(|g| - 2)
    ensures forall i :: 0 <= i < |Trim(g)| ==>
      |Trim(g)[i]| == Max0(|g[i + 1]| - 2) &&
      forall j :: 0 <= j < |Trim(g)[i]| ==> Trim(g)[i][j] == g[i + 1][j + 1]
  {
  }

  /** What `__clean_maze` leaves in `self.maze`. */
  function Finish(g: Grid): Grid
  {
    Trim(Normalize(g))
  }

  /** After the pass no cell is `Vis`; `Vis` cells became `Free` and every other
      cell kept its state. */
  lemma NormalizeCells(g: Grid)
    ensures forall p :: InGrid(g, p) ==> InGrid(Normalize(g), p) && At(Normalize(g), p) != Vis
    ensures forall p :: InGrid(g, p) ==>
      At(Normalize(g), p) == if At(g, p) == Vis then Free else At(g, p)
  {
    forall p | InGrid(g, p)
      ensures InGrid(Normalize(g), p) && At(Normalize(g), p) == Unvisit(At(g, p))
    {
    }
  }

  /** Running the pass twice gives what running it once gives, and the pass
      leaves a grid unchanged exactly when it has no `Vis` cell. */
  lemma NormalizeIdempotent(g: Grid)
    ensures Normalize(Normalize(g)) == Normalize(g)
    ensures Normalize(g) == g <==> forall i, j :: 0 <= i < |g| && 0 <= j < |g[i]| ==> g[i][j] != Vis
  {
    var n := Normalize(g);
    assert |Normalize(n)| == |n|;
    forall i | 0 <= i < |n|
      ensures Normalize(n)[i] == n[i]
    {
      assert |Normalize(n)[i]| == |n[i]|;
      forall j | 0 <= j < |n[i]|
        ensures Normalize(n)[i][j] == n[i][j]
      {
      }
    }
    if forall i, j :: 0 <= i < |g| && 0 <= j < |g[i]| ==> g[i][j] != Vis {
      forall i | 0 <= i < |g|
        ensures n[i] == g[i]
      {
        assert |n[i]| == |g[i]|;
        forall j | 0 <= j < |g[i]|
          ensures n[i][j] == g[i][j]
        {
        }
      }
    }
    if n == g {
      forall i, j | 0 <= i < |g| && 0 <= j < |g[i]|
        ensures g[i][j] != Vis
      {
        assert n[i][j] == Unvisit(g[i][j]);
      }
    }
  }

  /** Trimming an `h` by `w` grid leaves `h - 2` rows of `w - 2` cells, with
      `result[i][j] == grid[i + 1][j + 1]`. */
  lemma TrimShape(g: Grid, h: int, w: int)
    requires Shaped(g, h, w) && h >= 2 && w >= 2
    ensures Shaped(Trim(g), h - 2, w - 2)
    ensures forall p :: Inside(h - 2, w - 2, p) ==> At(Trim(g), p) == At(g, p.Add(IntVector(1, 1)))
  {
    forall p | Inside(h - 2, w - 2, p)
      ensures At(Trim(g), p) == At(g, p.Add(IntVector(1, 1)))
    {
      assert Trim(g)[p.y][p.x] == g[p.y + 1][p.x + 1];
    }
  }

  /** One cell of the finished maze, read off the carved grid at the position
      one down and one to the right. */
  lemma FinishedCell(g: Grid, h: int, w: int, p: IntVector)
    requires GridOk(g, h, w) && Inside(h - 2, w - 2, p)
    ensures At(Finish(g), p) != Vis
    ensures (p.x == 0 || p.y == 0 || p.x == w - 3 || p.y == h - 3) ==> At(Finish(g), p) == Wall
    ensures At(Finish(g), p) == Free <==>
      (IsRoom(h, w, p.Add(IntVector(1, 1))) || p.Add(IntVector(1, 1)) in Carved(g, h, w))
  {
    var q := p.Add(IntVector(1, 1));
    FinishedAt(g, h, w, p);
    assert q == IntVector(p.x + 1, p.y + 1) && Inside(h, w, q);
    var k := KindOf(h, w, q);
    assert Allowed(k, At(g, q));
    assert IsRoom(h, w, q) <==> k == Room;
    assert q in Carved(g, h, w) <==> k == Link && At(g, q) == Vis;
    RingIsSolid(h, w, p);
  }

  /** The outer ring of the finished maze lies over the solid ring just inside
      the edge of the carved grid. */
  lemma RingIsSolid(h: int, w: int, p: IntVector)
    requires Dims(h, w) && Inside(h - 2, w - 2, p)
    ensures (p.x == 0 || p.y == 0 || p.x == w - 3 || p.y == h - 3) ==>
      KindOf(h, w, p.Add(IntVector(1, 1))) == Solid
  {
  }

  /** A cell of the finished maze is the cell one down and one to the right in
      the carved grid, with `Vis` turned into `Free`. */
  lemma FinishedAt(g: Grid, h: int, w: int, p: IntVector)
    requires Shaped(g, h, w) && Inside(h - 2, w - 2, p)
    ensures InGrid(g, p.Add(IntVector(1, 1)))
    ensures At(Finish(g), p) == Unvisit(At(g, p.Add(IntVector(1, 1))))
  {
    var q := p.Add(IntVector(1, 1));
    var n := Normalize(g);
    assert InGrid(g, q);
    assert Trim(n)[p.y] == Inner(n[q.y]);
    assert Inner(n[q.y])[p.x] == n[q.y][q.x] == Unvisit(g[q.y][q.x]);
  }

  /** The maze handed back after carving a spanning tree: `h - 2` rows of `w - 2`
      cells, no `Vis` cell, its outer ring all `Wall`, and a cell is `Free`
      exactly when it is a room or a carved wall of the carved grid. */
  lemma FinishedMaze(g: Grid, h: int, w: int, root: IntVector)
    requires SpanningTree(g, h, w, root)
    ensures Shaped(Finish(g), h - 2, w - 2)
    ensures forall p :: InGrid(Finish(g), p) ==> At(Finish(g), p) != Vis
    ensures forall p :: Inside(h - 2, w - 2, p) && (p.x == 0 || p.y == 0 || p.x == w - 3 || p.y == h - 3) ==>
      At(Finish(g), p) == Wall
    ensures forall p :: Inside(h - 2, w - 2, p) ==>
      (At(Finish(g), p) == Free <==>
       (IsRoom(h, w, p.Add(IntVector(1, 1))) || p.Add(IntVector(1, 1)) in Carved(g, h, w)))
  {
    var n := Normalize(g);
    assert Shaped(n, h, w);
    TrimShape(n, h, w);
    forall p | Inside(h - 2, w - 2, p)
      ensures At(Finish(g), p) != Vis
      ensures (p.x == 0 || p.y == 0 || p.x == w - 3 || p.y == h - 3) ==> At(Finish(g), p) == Wall
      ensures At(Finish(g), p) == Free <==>
        (IsRoom(h, w, p.Add(IntVector(1, 1))) || p.Add(IntVector(1, 1)) in Carved(g, h, w))
    {
      FinishedCell(g, h, w, p);
    }
  }
}
