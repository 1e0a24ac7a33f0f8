/** What the recursive backtracker keeps true while it carves: cells only ever
    become `Vis`, finished rooms have no `Free` neighbour, carved links join
    visited rooms, and every visited room is reachable through carved links. */
module Carving {
  import opened Vectors
  import opened Grids

  /** `b` arises from `a` by turning cells into `Vis` and changing nothing else. */
  ghost predicate Grows(a: Grid, b: Grid)
  {
    |a| == |b| && (forall i :: 0 <= i < |a| ==> |a[i]| == |b[i]|) &&
    forall p :: InGrid(a, p) ==> At(b, p) == At(a, p) || At(b, p) == Vis
  }

  /** The neighbour of `c` two cells away in direction `d`. */
  function Neighbour(g: Grid, c: IntVector, d: Direction): State
  {
    At(g, c.Add(d.Vec()))
  }

  /** None of the four distance-2 neighbours of `c` is `Free`. */
  ghost predicate Exhausted(g: Grid, c: IntVector)
  {
    forall d: Direction :: Neighbour(g, c, d) != Free
  }

  /** `r` is a room that became `Vis` between `a` and `b`. */
  ghost predicate Newly(a: Grid, b: Grid, h: int, w: int, r: IntVector)
  {
    IsRoom(h, w, r) && At(a, r) != Vis && At(b, r) == Vis
  }

  /** The two rooms a link position separates. */
  function Ends(q: IntVector): (e: (IntVector, IntVector))
    ensures e.0.x + e.1.x == 2 * q.x && e.0.y + e.1.y == 2 * q.y
  {
    if q.y % 2 == 0 then (IntVector(q.x - 1, q.y), IntVector(q.x + 1, q.y))
    else (IntVector(q.x, q.y - 1), IntVector(q.x, q.y + 1))
  }

  /** Every carved link joins two visited rooms, except that an end may be `e`
      (the room about to be entered). */
  ghost predicate LinksClosedExcept(g: Grid, h: int, w: int, e: IntVector)
  {
    forall q :: IsLink(h, w, q) && At(g, q) == Vis ==>
      (At(g, Ends(q).0) == Vis || Ends(q).0 == e) &&
      (At(g, Ends(q).1) == Vis || Ends(q).1 == e)
  }

  /** Every carved link joins two visited rooms. */
  ghost predicate LinksClosed(g: Grid, h: int, w: int)
  {
    forall q :: IsLink(h, w, q) && At(g, q) == Vis ==>
      At(g, Ends(q).0) == Vis && At(g, Ends(q).1) == Vis
  }

  /** Following the moves `ds` from `p` passes only through carved cells and ends at `q`. */
  ghost predicate Walk(g: Grid, p: IntVector, ds: seq<Direction>, q: IntVector)
    decreases |ds|
  {
    if ds == [] then p == q
    else At(g, p.Add(ds[0].Half())) == Vis && Walk(g, p.Add(ds[0].Vec()), ds[1..], q)
  }

  /** `q` can be reached from `p` through carved passages. */
  ghost predicate Reach(g: Grid, p: IntVector, q: IntVector)
  {
    exists ds :: Walk(g, p, ds, q)
  }

  /** The positions of row `y` with a column below `w`. */
  function RowCells(y: int, w: int): (s: set<IntVector>)
    ensures forall p {:trigger p in s} :: p in s <==> p.y == y && 0 <= p.x < w
    decreases w
  {
    if w <= 0 then {} else RowCells(y, w - 1) + {IntVector(w - 1, y)}
  }

  /** Every position of an `h` by `w` grid. */
  function Cells(h: int, w: int): (s: set<IntVector>)
    ensures forall p {:trigger p in s} :: p in s <==> Inside(h, w, p)
    decreases h
  {
    if h <= 0 then {} else Cells(h - 1, w) + RowCells(h - 1, w)
  }

  /** The rooms of an `h` by `w` grid. */
  function Rooms(h: int, w: int): (s: set<IntVector>)
    ensures forall p {:trigger p in s} :: p in s <==> IsRoom(h, w, p)
  {
    set p | p in Cells(h, w) && KindOf(h, w, p) == Room
  }

  /** The rooms already visited. */
  function VisRooms(g: Grid, h: int, w: int): (s: set<IntVector>)
    ensures forall p {:trigger p in s} :: p in s <==> IsRoom(h, w, p) && At(g, p) == Vis
  {
    set p | p in Cells(h, w) && KindOf(h, w, p) == Room && At(g, p) == Vis
  }

  /** The rooms still waiting to be visited. */
  function FreeRooms(g: Grid, h: int, w: int): (s: set<IntVector>)
    ensures forall p {:trigger p in s} :: p in s <==> IsRoom(h, w, p) && At(g, p) == Free
  {
    set p | p in Cells(h, w) && KindOf(h, w, p) == Room && At(g, p) == Free
  }

  /** The carved walls: link positions that are `Vis`. */
  function Carved(g: Grid, h: int, w: int): (s: set<IntVector>)
    ensures forall p {:trigger p in s} :: p in s <==> IsLink(h, w, p) && At(g, p) == Vis
  {
    set p | p in Cells(h, w) && KindOf(h, w, p) == Link && At(g, p) == Vis
  }

  /** A carved grid whose passages form a spanning tree of the rooms rooted at
      `root`: every room is visited and reachable from `root` through carved links,
      every carved link joins two visited rooms, and there is one carved link
      fewer than there are rooms. */
  ghost predicate SpanningTree(g: Grid, h: int, w: int, root: IntVector)
  {
    GridOk(g, h, w) && IsRoom(h, w, root) &&
    (forall r :: IsRoom(h, w, r) ==> At(g, r) == Vis && Reach(g, root, r)) &&
    LinksClosed(g, h, w) &&
    |Carved(g, h, w)| + 1 == |Rooms(h, w)|
  }

  // ---------------------------------------------------------------------
  // Growth

  /** Growth is transitive, and it never brings a cell back to `Free` or turns
      a `Vis` cell into anything else. */
  lemma GrowsTrans(a: Grid, b: Grid, c: Grid)
    requires Grows(a, b) && Grows(b, c)
    ensures Grows(a, c)
  {
    forall p | InGrid(a, p)
      ensures At(c, p) == At(a, p) || At(c, p) == Vis
    {
      assert InGrid(b, p);
    }
  }

  lemma GrowsKeepsNotFree(a: Grid, b: Grid, p: IntVector)
    requires Grows(a, b) && At(a, p) != Free
    ensures At(b, p) != Free
    ensures At(a, p) == Vis ==> At(b, p) == Vis
  {
    if !InGrid(a, p) {
      assert !InGrid(b, p);
    }
  }

  lemma GrowsKeepsExhausted(a: Grid, b: Grid, c: IntVector)
    requires Grows(a, b) && Exhausted(a, c)
    ensures Exhausted(b, c)
  {
    forall d: Direction
      ensures Neighbour(b, c, d) != Free
    {
      assert Neighbour(a, c, d) != Free;
      GrowsKeepsNotFree(a, b, c.Add(d.Vec()));
    }
  }

  /** The free rooms only shrink as the grid grows. */
  lemma GrowsShrinksFree(a: Grid, b: Grid, h: int, w: int)
    requires Grows(a, b)
    ensures FreeRooms(b, h, w) <= FreeRooms(a, h, w)
  {
    forall p | p in FreeRooms(b, h, w)
      ensures p in FreeRooms(a, h, w)
    {
      if At(a, p) != Free {
        GrowsKeepsNotFree(a, b, p);
      }
    }
  }

  lemma {:induction false} WalkGrows(a: Grid, b: Grid, p: IntVector, ds: seq<Direction>, q: IntVector)
    requires Grows(a, b) && Walk(a, p, ds, q)
    ensures Walk(b, p, ds, q)
    decreases |ds|
  {
    if ds != [] {
      GrowsKeepsNotFree(a, b, p.Add(ds[0].Half()));
      WalkGrows(a, b, p.Add(ds[0].Vec()), ds[1..], q);
    }
  }

  lemma ReachGrows(a: Grid, b: Grid, p: IntVector, q: IntVector)
    requires Grows(a, b) && Reach(a, p, q)
    ensures Reach(b, p, q)
  {
    var ds :| Walk(a, p, ds, q);
    WalkGrows(a, b, p, ds, q);
  }

  lemma {:induction false} WalkConcat(g: Grid, p: IntVector, xs: seq<Direction>, q: IntVector,
                                      ys: seq<Direction>, r: IntVector)
    requires Walk(g, p, xs, q) && Walk(g, q, ys, r)
    ensures Walk(g, p, xs + ys, r)
    decreases |xs|
  {
    if xs == [] {
      assert xs + ys == ys;
    } else {
      var d, next := xs[0], p.Add(xs[0].Vec());
      WalkFirst(g, p, xs, q);
      WalkConcat(g, next, xs[1..], q, ys, r);
      assert xs + ys == [d] + (xs[1..] + ys);
      WalkPrepend(g, p, d, xs[1..] + ys, r);
    }
  }

  /** The first move of a non-empty walk crosses a carved cell. */
  lemma WalkFirst(g: Grid, p: IntVector, ds: seq<Direction>, q: IntVector)
    requires ds != [] && Walk(g, p, ds, q)
    ensures At(g, p.Add(ds[0].Half())) == Vis && Walk(g, p.Add(ds[0].Vec()), ds[1..], q)
  {
  }

  /** A carved first move followed by a walk is a walk. */
  lemma WalkPrepend(g: Grid, p: IntVector, d: Direction, ds: seq<Direction>, q: IntVector)
    requires At(g, p.Add(d.Half())) == Vis && Walk(g, p.Add(d.Vec()), ds, q)
    ensures Walk(g, p, [d] + ds, q)
  {
    assert ([d] + ds)[0] == d && ([d] + ds)[1..] == ds;
  }

  // ---------------------------------------------------------------------
  // The two updates of `__make_path`

  /** Marking the room `c` visited (main.py:76) keeps the grid invariant, grows
      the grid, closes every carved link and visits no other room. It adds `c`
      to the visited rooms unless it was already visited, and carves no wall. */
  lemma MarkRoom(g: Grid, h: int, w: int, c: IntVector)
    requires GridOk(g, h, w) && IsRoom(h, w, c) && LinksClosedExcept(g, h, w, c)
    ensures InGrid(g, c)
    ensures GridOk(Put(g, c, Vis), h, w) && Grows(g, Put(g, c, Vis))
    ensures LinksClosed(Put(g, c, Vis), h, w)
    ensures forall r :: Newly(g, Put(g, c, Vis), h, w, r) ==> r == c
    ensures VisRooms(Put(g, c, Vis), h, w) == VisRooms(g, h, w) + {c}
    ensures c !in VisRooms(g, h, w) <==> At(g, c) == Free
    ensures |VisRooms(Put(g, c, Vis), h, w)| == |VisRooms(g, h, w)| + if At(g, c) == Free then 1 else 0
    ensures Carved(Put(g, c, Vis), h, w) == Carved(g, h, w)
  {
    OpenKeepsOk(g, h, w, c);
    MarkCloses(g, h, w, c);
    MarkSets(g, h, w, c);
  }

  /** Both ends of a link lie inside the grid. */
  lemma LinkEnds(h: int, w: int, q: IntVector)
    requires IsLink(h, w, q)
    ensures Inside(h, w, Ends(q).0) && Inside(h, w, Ends(q).1)
  {
  }

  /** Once the room `c` is visited, every carved link joins visited rooms. */
  lemma MarkCloses(g: Grid, h: int, w: int, c: IntVector)
    requires GridOk(g, h, w) && IsRoom(h, w, c) && LinksClosedExcept(g, h, w, c)
    ensures InGrid(g, c) && LinksClosed(Put(g, c, Vis), h, w)
  {
    assert InGrid(g, c);
    var g' := Put(g, c, Vis);
    forall q | IsLink(h, w, q) && At(g', q) == Vis
      ensures At(g', Ends(q).0) == Vis && At(g', Ends(q).1) == Vis
    {
      assert InGrid(g, q) && q != c;
      LinkEnds(h, w, q);
      assert InGrid(g, Ends(q).0) && InGrid(g, Ends(q).1);
    }
  }

  /** Marking the room `c` adds it to the visited rooms, one more of them
      exactly when it was `Free`, and carves nothing. */
  lemma MarkSets(g: Grid, h: int, w: int, c: IntVector)
    requires GridOk(g, h, w) && IsRoom(h, w, c)
    ensures InGrid(g, c)
    ensures VisRooms(Put(g, c, Vis), h, w) == VisRooms(g, h, w) + {c}
    ensures c !in VisRooms(g, h, w) <==> At(g, c) == Free
    ensures |VisRooms(Put(g, c, Vis), h, w)| == |VisRooms(g, h, w)| + if At(g, c) == Free then 1 else 0
    ensures Carved(Put(g, c, Vis), h, w) == Carved(g, h, w)
  {
    assert InGrid(g, c);
    var g' := Put(g, c, Vis);
    assert Allowed(KindOf(h, w, c), At(g, c));
    forall p | p in VisRooms(g', h, w)
      ensures p in VisRooms(g, h, w) + {c}
    {
      assert InGrid(g, p);
    }
    forall p | p in VisRooms(g, h, w) + {c}
      ensures p in VisRooms(g', h, w)
    {
      assert InGrid(g, p);
    }
    forall p | p in Carved(g', h, w)
      ensures p in Carved(g, h, w)
    {
      assert InGrid(g, p);
    }
    forall p | p in Carved(g, h, w)
      ensures p in Carved(g', h, w)
    {
      assert InGrid(g, p);
    }
    var visited := VisRooms(g, h, w);
    if At(g, c) == Free {
      assert c !in visited && |visited + {c}| == |visited| + 1;
    } else {
      assert c in visited && visited + {c} == visited;
    }
  }

  /** Setting a `Wall` link to `Vis` visits no room and adds exactly that link
      to the carved walls. */
  lemma CarveSets(g: Grid, h: int, w: int, m: IntVector)
    requires Shaped(g, h, w) && IsLink(h, w, m) && At(g, m) == Wall
    ensures InGrid(g, m)
    ensures VisRooms(Put(g, m, Vis), h, w) == VisRooms(g, h, w)
    ensures FreeRooms(Put(g, m, Vis), h, w) == FreeRooms(g, h, w)
    ensures Carved(Put(g, m, Vis), h, w) == Carved(g, h, w) + {m}
    ensures m !in Carved(g, h, w)
    ensures |Carved(Put(g, m, Vis), h, w)| == |Carved(g, h, w)| + 1
  {
    assert InGrid(g, m);
    var g' := Put(g, m, Vis);
    forall p | p in VisRooms(g', h, w)
      ensures p in VisRooms(g, h, w)
    {
      assert InGrid(g, p);
    }
    forall p | p in VisRooms(g, h, w)
      ensures p in VisRooms(g', h, w)
    {
      assert InGrid(g, p);
    }
    forall p | p in FreeRooms(g', h, w)
      ensures p in FreeRooms(g, h, w)
    {
      assert InGrid(g, p);
    }
    forall p | p in FreeRooms(g, h, w)
      ensures p in FreeRooms(g', h, w)
    {
      assert InGrid(g, p);
    }
    forall p | p in Carved(g', h, w)
      ensures p in Carved(g, h, w) + {m}
    {
      assert InGrid(g, p);
    }
    forall p | p in Carved(g, h, w) + {m}
      ensures p in Carved(g', h, w)
    {
      assert InGrid(g, p);
    }
    var carved := Carved(g, h, w);
    assert |carved + {m}| == |carved| + 1;
  }

  /** Carving the wall between the visited room `c` and its `Free` neighbour in
      direction `d` (main.py:95-96). That wall is a link and still `Wall`, so the
      step adds exactly one carved wall and visits no room; the neighbour is a
      `Free` room whose only open link is the new one, and it is one step from
      `c` through carved cells. */
  lemma CarveLink(g: Grid, h: int, w: int, c: IntVector, d: Direction)
    requires GridOk(g, h, w) && IsRoom(h, w, c) && At(g, c) == Vis && LinksClosed(g, h, w)
    requires Neighbour(g, c, d) == Free
    ensures IsRoom(h, w, c.Add(d.Vec())) && IsLink(h, w, c.Add(d.Half()))
    ensures InGrid(g, c.Add(d.Half())) && At(g, c.Add(d.Half())) == Wall
    ensures GridOk(Put(g, c.Add(d.Half()), Vis), h, w)
    ensures Grows(g, Put(g, c.Add(d.Half()), Vis))
    ensures LinksClosedExcept(Put(g, c.Add(d.Half()), Vis), h, w, c.Add(d.Vec()))
    ensures At(Put(g, c.Add(d.Half()), Vis), c.Add(d.Vec())) == Free
    ensures At(Put(g, c.Add(d.Half()), Vis), c) == Vis
    ensures VisRooms(Put(g, c.Add(d.Half()), Vis), h, w) == VisRooms(g, h, w)
    ensures Carved(Put(g, c.Add(d.Half()), Vis), h, w) == Carved(g, h, w) + {c.Add(d.Half())}
    ensures c.Add(d.Half()) !in Carved(g, h, w)
    ensures FreeRooms(Put(g, c.Add(d.Half()), Vis), h, w) == FreeRooms(g, h, w)
    ensures Walk(Put(g, c.Add(d.Half()), Vis), c, [d], c.Add(d.Vec()))
  {
    var n, m := c.Add(d.Vec()), c.Add(d.Half());
    CarveTarget(g, h, w, c, d);
    OpenKeepsOk(g, h, w, m);
    OpenLinkCloses(g, h, w, c, d);
    CarveSets(g, h, w, m);
    CarveWalk(g, c, d);
  }

  /** Setting a room or a link to `Vis` keeps the grid invariant. */
  lemma OpenKeepsOk(g: Grid, h: int, w: int, m: IntVector)
    requires GridOk(g, h, w) && (IsRoom(h, w, m) || IsLink(h, w, m))
    ensures InGrid(g, m) && GridOk(Put(g, m, Vis), h, w)
  {
    var g' := Put(g, m, Vis);
    assert InGrid(g, m);
    forall p | Inside(h, w, p)
      ensures Allowed(KindOf(h, w, p), At(g', p))
    {
      assert InGrid(g, p);
    }
  }

  /** After carving the wall towards the `Free` neighbour in direction `d`,
      every carved link joins visited rooms except at that neighbour. */
  lemma OpenLinkCloses(g: Grid, h: int, w: int, c: IntVector, d: Direction)
    requires GridOk(g, h, w) && IsRoom(h, w, c) && At(g, c) == Vis && LinksClosed(g, h, w)
    requires Neighbour(g, c, d) == Free
    ensures InGrid(g, c.Add(d.Half()))
    ensures LinksClosedExcept(Put(g, c.Add(d.Half()), Vis), h, w, c.Add(d.Vec()))
  {
    var n, m := c.Add(d.Vec()), c.Add(d.Half());
    CarveTarget(g, h, w, c, d);
    var g' := Put(g, m, Vis);
    forall q | IsLink(h, w, q) && At(g', q) == Vis
      ensures (At(g', Ends(q).0) == Vis || Ends(q).0 == n) &&
              (At(g', Ends(q).1) == Vis || Ends(q).1 == n)
    {
      assert InGrid(g, q);
      if q != m {
        LinkEnds(h, w, q);
        assert InGrid(g, Ends(q).0) && InGrid(g, Ends(q).1);
      }
    }
  }

  /** The wall towards a `Free` neighbour of a room is a link that is still
      `Wall`, and the neighbour is a room. */
  lemma CarveTarget(g: Grid, h: int, w: int, c: IntVector, d: Direction)
    requires GridOk(g, h, w) && IsRoom(h, w, c) && LinksClosed(g, h, w)
    requires Neighbour(g, c, d) == Free
    ensures IsRoom(h, w, c.Add(d.Vec())) && IsLink(h, w, c.Add(d.Half()))
    ensures InGrid(g, c.Add(d.Vec())) && InGrid(g, c.Add(d.Half())) && At(g, c.Add(d.Half())) == Wall
  {
    var n, m := c.Add(d.Vec()), c.Add(d.Half());
    StepGeometry(h, w, c, d);
    assert Inside(h, w, n) && InGrid(g, n);
    assert KindOf(h, w, n) == Room;
    assert Ends(m) == (c, n) || Ends(m) == (n, c);
    assert InGrid(g, m);
    assert At(g, m) == Wall;
  }

  /** Opening the wall in direction `d` only grows the grid and joins `c` to
      its neighbour in one step. */
  lemma CarveWalk(g: Grid, c: IntVector, d: Direction)
    requires InGrid(g, c.Add(d.Half()))
    ensures Grows(g, Put(g, c.Add(d.Half()), Vis))
    ensures Walk(Put(g, c.Add(d.Half()), Vis), c, [d], c.Add(d.Vec()))
  {
    var g' := Put(g, c.Add(d.Half()), Vis);
    assert At(g', c.Add(d.Half())) == Vis;
    assert [d][1..] == [];
    assert Walk(g', c.Add(d.Vec()), [], c.Add(d.Vec()));
  }

  // ---------------------------------------------------------------------
  // From local exhaustion to all rooms visited

  /** A visited room with no `Free` neighbour has every neighbouring room visited. */
  lemma SpreadStep(g: Grid, h: int, w: int, a: IntVector, d: Direction)
    requires GridOk(g, h, w) && Exhausted(g, a) && IsRoom(h, w, a.Add(d.Vec()))
    ensures At(g, a.Add(d.Vec())) == Vis
  {
    var n := a.Add(d.Vec());
    assert Neighbour(g, a, d) != Free;
    assert Allowed(KindOf(h, w, n), At(g, n));
  }

  /** The room two columns from `a` towards column `tx` (a room column of the same
      row) is a room, and it is one step closer to `tx`. */
  lemma TowardsX(h: int, w: int, a: IntVector, tx: int) returns (d: Direction)
    requires IsRoom(h, w, a) && IsRoom(h, w, IntVector(tx, a.y)) && tx != a.x
    ensures IsRoom(h, w, a.Add(d.Vec())) && a.Add(d.Vec()).y == a.y
    ensures tx < a.x ==> a.x - 2 == a.Add(d.Vec()).x && tx <= a.Add(d.Vec()).x
    ensures tx > a.x ==> a.x + 2 == a.Add(d.Vec()).x && a.Add(d.Vec()).x <= tx
  {
    d := if tx < a.x then W else E;
  }

  /** The room two rows from `a` towards row `ty` (a room row of the same
      column) is a room, and it is one step closer to `ty`. */
  lemma TowardsY(h: int, w: int, a: IntVector, ty: int) returns (d: Direction)
    requires IsRoom(h, w, a) && IsRoom(h, w, IntVector(a.x, ty)) && ty != a.y
    ensures IsRoom(h, w, a.Add(d.Vec())) && a.Add(d.Vec()).x == a.x
    ensures ty < a.y ==> a.y - 2 == a.Add(d.Vec()).y && ty <= a.Add(d.Vec()).y
    ensures ty > a.y ==> a.y + 2 == a.Add(d.Vec()).y && a.Add(d.Vec()).y <= ty
  {
    d := if ty < a.y then N else S;
  }

  lemma {:induction false} SpreadX(g: Grid, h: int, w: int, a: IntVector, tx: int)
    requires GridOk(g, h, w) && IsRoom(h, w, a) && At(g, a) == Vis
    requires forall r :: IsRoom(h, w, r) && At(g, r) == Vis ==> Exhausted(g, r)
    requires IsRoom(h, w, IntVector(tx, a.y))
    ensures At(g, IntVector(tx, a.y)) == Vis
    decreases if tx < a.x then a.x - tx else tx - a.x
  {
    if tx != a.x {
      var d := TowardsX(h, w, a, tx);
      SpreadStep(g, h, w, a, d);
      SpreadX(g, h, w, a.Add(d.Vec()), tx);
    }
  }

  lemma {:induction false} SpreadY(g: Grid, h: int, w: int, a: IntVector, ty: int)
    requires GridOk(g, h, w) && IsRoom(h, w, a) && At(g, a) == Vis
    requires forall r :: IsRoom(h, w, r) && At(g, r) == Vis ==> Exhausted(g, r)
    requires IsRoom(h, w, IntVector(a.x, ty))
    ensures At(g, IntVector(a.x, ty)) == Vis
    decreases if ty < a.y then a.y - ty else ty - a.y
  {
    if ty != a.y {
      var d := TowardsY(h, w, a, ty);
      SpreadStep(g, h, w, a, d);
      SpreadY(g, h, w, a.Add(d.Vec()), ty);
    }
  }

  /** When one room is visited and no visited room has a `Free` neighbour, every
      room is visited: the rooms form a connected lattice. */
  lemma AllRoomsVisited(g: Grid, h: int, w: int, s: IntVector)
    requires GridOk(g, h, w) && IsRoom(h, w, s) && At(g, s) == Vis
    requires forall r :: IsRoom(h, w, r) && At(g, r) == Vis ==> Exhausted(g, r)
    ensures forall r :: IsRoom(h, w, r) ==> At(g, r) == Vis
    ensures VisRooms(g, h, w) == Rooms(h, w)
  {
    forall r | IsRoom(h, w, r)
      ensures At(g, r) == Vis
    {
      var corner := IntVector(r.x, s.y);
      SpreadX(g, h, w, s, r.x);
      SpreadY(g, h, w, corner, r.y);
    }
  }

  // ---------------------------------------------------------------------
  // One call of `__make_path`

  /** What holds of the grid `g` part-way through the call of `__make_path` on
      `cell` that began on `entry`: the grid invariant holds and has only grown,
      `cell` is visited, every carved link joins visited rooms, every room
      visited since `entry` other than `cell` is exhausted and all of them are
      reachable from `cell`, and the call has so far visited `bonus` more rooms
      than it has carved walls (`bonus` is 1 when `cell` was `Free` at `entry`). */
  ghost predicate Progress(entry: Grid, g: Grid, h: int, w: int, cell: IntVector, bonus: int)
  {
    GridOk(g, h, w) && Grows(entry, g) && At(g, cell) == Vis && LinksClosed(g, h, w) &&
    (forall r :: Newly(entry, g, h, w, r) && r != cell ==> Exhausted(g, r)) &&
    (forall r :: Newly(entry, g, h, w, r) ==> Reach(g, cell, r)) &&
    |VisRooms(g, h, w)| + |Carved(entry, h, w)| == |VisRooms(entry, h, w)| + |Carved(g, h, w)| + bonus
  }

  /** Marking `cell` starts the call's progress. */
  lemma ProgressStart(entry: Grid, h: int, w: int, cell: IntVector)
    requires GridOk(entry, h, w) && IsRoom(h, w, cell) && LinksClosedExcept(entry, h, w, cell)
    ensures InGrid(entry, cell)
    ensures Progress(entry, Put(entry, cell, Vis), h, w, cell, if At(entry, cell) == Free then 1 else 0)
  {
    var g := Put(entry, cell, Vis);
    var bonus := if At(entry, cell) == Free then 1 else 0;
    MarkRoom(entry, h, w, cell);
    assert Walk(g, cell, [], cell);
    assert forall r :: Newly(entry, g, h, w, r) ==> Reach(g, cell, r);
    assert At(g, cell) == Vis;
  }

  /** Carving the wall towards the `Free` neighbour in direction `d` sets up the
      recursive call of `__make_path` (main.py:95-97): the neighbour is a room,
      still `Free`, every carved link but the new one joins visited rooms, and
      the pair (free rooms, whether the current room was free on entry) has
      decreased, which bounds the recursion. */
  lemma CarveStep(entry: Grid, g: Grid, h: int, w: int, cell: IntVector, bonus: int, d: Direction)
    requires IsRoom(h, w, cell) && Progress(entry, g, h, w, cell, bonus)
    requires bonus == if At(entry, cell) == Free then 1 else 0
    requires Neighbour(g, cell, d) == Free
    ensures InGrid(g, cell.Add(d.Half())) && IsRoom(h, w, cell.Add(d.Vec()))
    ensures GridOk(Put(g, cell.Add(d.Half()), Vis), h, w)
    ensures LinksClosedExcept(Put(g, cell.Add(d.Half()), Vis), h, w, cell.Add(d.Vec()))
    ensures At(Put(g, cell.Add(d.Half()), Vis), cell.Add(d.Vec())) == Free
    ensures FreeRooms(Put(g, cell.Add(d.Half()), Vis), h, w) < FreeRooms(entry, h, w) ||
      (FreeRooms(Put(g, cell.Add(d.Half()), Vis), h, w) == FreeRooms(entry, h, w) && bonus == 0)
  {
    CarveLink(g, h, w, cell, d);
    GrowsShrinksFree(entry, g, h, w);
    assert cell !in FreeRooms(g, h, w);
    if bonus == 1 {
      assert cell in FreeRooms(entry, h, w);
    }
  }

  /** One successful iteration of the loop of `__make_path` (main.py:92-97):
      from a grid `g` where the call has made progress, carving the wall towards
      the `Free` neighbour in direction `d` gives `g1`, and the recursive call on
      that neighbour turns `g1` into `g2` (its contract is the requires below).
      Then the call has still made progress in `g2`, the grid has only grown, and
      the neighbour in direction `d` is no longer `Free`. */
  lemma ProgressStep(entry: Grid, g: Grid, h: int, w: int, cell: IntVector, bonus: int,
                     d: Direction, g1: Grid, g2: Grid)
    requires IsRoom(h, w, cell) && Progress(entry, g, h, w, cell, bonus)
    requires Neighbour(g, cell, d) == Free
    requires InGrid(g, cell.Add(d.Half())) && g1 == Put(g, cell.Add(d.Half()), Vis)
    requires GridOk(g2, h, w) && Grows(g1, g2) && LinksClosed(g2, h, w)
    requires At(g2, cell.Add(d.Vec())) == Vis
    requires forall r :: Newly(g1, g2, h, w, r) ==> Exhausted(g2, r) && Reach(g2, cell.Add(d.Vec()), r)
    requires |VisRooms(g2, h, w)| + |Carved(g1, h, w)| == |VisRooms(g1, h, w)| + |Carved(g2, h, w)| + 1
    ensures Progress(entry, g2, h, w, cell, bonus)
    ensures forall e: Direction :: Neighbour(g, cell, e) != Free ==> Neighbour(g2, cell, e) != Free
    ensures Neighbour(g2, cell, d) != Free
  {
    var n, m := cell.Add(d.Vec()), cell.Add(d.Half());
    CarveTarget(g, h, w, cell, d);
    CarveSets(g, h, w, m);
    CarveWalk(g, cell, d);
    GrowsTrans(g, g1, g2);
    GrowsTrans(entry, g, g2);
    GrowsKeepsNotFree(g, g2, cell);
    forall e: Direction | Neighbour(g, cell, e) != Free
      ensures Neighbour(g2, cell, e) != Free
    {
      GrowsKeepsNotFree(g, g2, cell.Add(e.Vec()));
    }
    NewlyAfterStep(entry, g, h, w, cell, d, g1, g2);
  }

  /** The rooms visited since `entry` after one iteration are those visited
      before it and those the recursive call visited. */
  lemma NewlyAfterStep(entry: Grid, g: Grid, h: int, w: int, cell: IntVector,
                       d: Direction, g1: Grid, g2: Grid)
    requires IsRoom(h, w, cell) && GridOk(g, h, w) && Grows(entry, g)
    requires forall r :: Newly(entry, g, h, w, r) && r != cell ==> Exhausted(g, r)
    requires forall r :: Newly(entry, g, h, w, r) ==> Reach(g, cell, r)
    requires IsLink(h, w, cell.Add(d.Half())) && InGrid(g, cell.Add(d.Half()))
    requires g1 == Put(g, cell.Add(d.Half()), Vis)
    requires Grows(g, g1) && Grows(g1, g2) && Walk(g1, cell, [d], cell.Add(d.Vec()))
    requires forall r :: Newly(g1, g2, h, w, r) ==> Exhausted(g2, r) && Reach(g2, cell.Add(d.Vec()), r)
    ensures forall r :: Newly(entry, g2, h, w, r) && r != cell ==> Exhausted(g2, r)
    ensures forall r :: Newly(entry, g2, h, w, r) ==> Reach(g2, cell, r)
  {
    var n, m := cell.Add(d.Vec()), cell.Add(d.Half());
    GrowsTrans(g, g1, g2);
    forall r | Newly(entry, g2, h, w, r)
      ensures r != cell ==> Exhausted(g2, r)
      ensures Reach(g2, cell, r)
    {
      if Newly(entry, g, h, w, r) {
        if r != cell {
          GrowsKeepsExhausted(g, g2, r);
        }
        ReachGrows(g, g2, cell, r);
      } else {
        assert InGrid(g, r) && r != m;
        assert Newly(g1, g2, h, w, r);
        var ds :| Walk(g2, n, ds, r);
        WalkGrows(g1, g2, cell, [d], n);
        WalkConcat(g2, cell, [d], n, ds, r);
      }
    }
  }

  /** A call whose `cell` is exhausted has finished: every room it visited is
      exhausted and reachable from `cell`. */
  lemma ProgressFinish(entry: Grid, g: Grid, h: int, w: int, cell: IntVector, bonus: int)
    requires Progress(entry, g, h, w, cell, bonus)
    requires forall d: Direction :: Neighbour(g, cell, d) != Free
    ensures GridOk(g, h, w) && Grows(entry, g) && LinksClosed(g, h, w)
    ensures At(g, cell) == Vis && Exhausted(g, cell)
    ensures forall r :: Newly(entry, g, h, w, r) ==> Exhausted(g, r) && Reach(g, cell, r)
    ensures |VisRooms(g, h, w)| + |Carved(entry, h, w)| == |VisRooms(entry, h, w)| + |Carved(g, h, w)| + bonus
  {
  }

  /** The fresh grid has no visited room, no carved wall and every room free. */
  lemma FreshGridCarving(h: int, w: int)
    requires Dims(h, w)
    ensures VisRooms(FreshGrid(h, w), h, w) == {}
    ensures Carved(FreshGrid(h, w), h, w) == {}
    ensures forall e :: LinksClosedExcept(FreshGrid(h, w), h, w, e)
    ensures forall r :: IsRoom(h, w, r) ==> At(FreshGrid(h, w), r) == Free
  {
    var f := FreshGrid(h, w);
    FreshGridShape(h, w);
    forall p | p in VisRooms(f, h, w)
      ensures false
    {
    }
    forall p | p in Carved(f, h, w)
      ensures false
    {
    }
  }

  /** A room of the fresh grid is a valid start for `__make_path`: the grid
      satisfies the carving invariant, the room is `Free` and no link is carved. */
  lemma FreshStart(h: int, w: int, start: IntVector)
    requires Dims(h, w) && IsRoom(h, w, start)
    ensures GridOk(FreshGrid(h, w), h, w)
    ensures LinksClosedExcept(FreshGrid(h, w), h, w, start)
    ensures At(FreshGrid(h, w), start) == Free
  {
    FreshGridCarving(h, w);
  }

  /** Carving from a room of the fresh grid, with the contract of `__make_path`
      on return, yields a spanning tree of the rooms rooted at the start room
      (main.py:56-63). */
  lemma SpanningFromFresh(g: Grid, h: int, w: int, start: IntVector)
    requires Dims(h, w) && IsRoom(h, w, start)
    requires GridOk(g, h, w) && Grows(FreshGrid(h, w), g) && LinksClosed(g, h, w)
    requires At(g, start) == Vis && Exhausted(g, start)
    requires forall r :: Newly(FreshGrid(h, w), g, h, w, r) ==> Exhausted(g, r) && Reach(g, start, r)
    requires |VisRooms(g, h, w)| + |Carved(FreshGrid(h, w), h, w)| ==
             |VisRooms(FreshGrid(h, w), h, w)| + |Carved(g, h, w)| + 1
    ensures SpanningTree(g, h, w, start)
  {
    var f := FreshGrid(h, w);
    FreshGridCarving(h, w);
    forall r | IsRoom(h, w, r) && At(g, r) == Vis
      ensures Newly(f, g, h, w, r)
    {
    }
    AllRoomsVisited(g, h, w, start);
  }
}
