/** The text form of a grid produced by `__repr__`: one character per cell and
    a newline after every row. */
module Rendering {
  import opened Grids

  /** The solid block drawn for a wall. */
  const WallGlyph: char := '\U{2588}'

  /** The character for one cell: a space for `FREE`, `X` for `VIS`, the block
      for `WALL`; distinct states get distinct characters, none a newline. */
  function Glyph(s: State): (c: char)
    ensures c != '\n'
  {
    match s
    case Free => ' '
    case Vis => 'X'
    case Wall => WallGlyph
  }

  /** The wall literal of `__repr__` as the file spells it: the UTF-8 bytes of the
      block read as Windows-1252, which a UTF-8 reading of the file turns into
      the three characters U+00E2, U+2013 and U+02C6. */
  const WallTextAsWritten: string := ['\U{00E2}', '\U{2013}', '\U{02C6}']

  /** The text appended for one cell with the literal as spelled. */
  function GlyphAsWritten(s: State): (t: string)
    ensures '\n' !in t && (s == Wall <==> |t| == 3) && (s != Wall <==> t == [Glyph(s)])
  {
    if s == Wall then WallTextAsWritten else [Glyph(s)]
  }

  /** A row drawn with the literal as spelled. */
  function RenderRowAsWritten(row: seq<State>): string
  {
    if row == [] then "" else RenderRowAsWritten(row[..|row| - 1]) + GlyphAsWritten(row[|row| - 1])
  }

  /** With the literal as spelled, a row of `n` cells of which `k` are walls is
      drawn as `n + 2 * k` characters, so a row with a wall is longer than its
      cell count, and a single wall is drawn as three characters where the block
      is one. */
  lemma {:induction false} RenderRowAsWrittenLength(row: seq<State>)
    ensures |RenderRowAsWritten(row)| == |row| + 2 * multiset(row)[Wall]
    ensures |RenderRowAsWritten([Wall])| == 3 && |RenderRow([Wall])| == 1
  {
    if row != [] {
      RenderRowAsWrittenLength(row[..|row| - 1]);
      assert row == row[..|row| - 1] + [row[|row| - 1]];
    }
  }

  /** Distinct states get distinct characters, so the text determines the grid. */
  lemma GlyphInjective(s: State, t: State)
    ensures Glyph(s) == Glyph(t) ==> s == t
  {
  }

  /** Offset of column `j` of line `i` when every line holds `w` cells and a
      newline. It is defined line by line, as `Render` appends the lines, so the
      inductive proofs below unfold it one line at a time without multiplying;
      `OffsetValue` gives its closed form `i * (w + 1) + j`. */
  function Offset(i: nat, j: int, w: int): int
  {
    if i == 0 then j else Offset(i - 1, j, w) + w + 1
  }

  /** The offset is `i * (w + 1) + j`. */
  lemma {:induction false} OffsetValue(i: nat, j: int, w: int)
    ensures Offset(i, j, w) == i * (w + 1) + j
  {
    if i > 0 {
      OffsetValue(i - 1, j, w);
    }
  }

  function RenderRow(row: seq<State>): string
  {
    if row == [] then "" else RenderRow(row[..|row| - 1]) + [Glyph(row[|row| - 1])]
  }

  function Render(g: Grid): string
  {
    if g == [] then "" else Render(g[..|g| - 1]) + RenderRow(g[|g| - 1]) + "\n"
  }

  /** A row renders to one glyph per cell, in order. */
  lemma {:induction false} RenderRowAt(row: seq<State>)
    ensures |RenderRow(row)| == |row|
    ensures forall j :: 0 <= j < |row| ==> RenderRow(row)[j] == Glyph(row[j])
  {
    if row != [] {
      RenderRowAt(row[..|row| - 1]);
    }
  }

  /** An `h` by `w` grid renders to `h` lines of `w` glyphs, each line ended by a
      newline: the cell in row `i`, column `j` is character `i * (w + 1) + j`. */
  lemma RenderAt(g: Grid, h: nat, w: nat)
    requires Shaped(g, h, w)
    ensures |Render(g)| == Offset(h, 0, w)
    ensures forall i, j :: 0 <= i < h && 0 <= j < w ==>
      0 <= Offset(i, j, w) < |Render(g)| && Render(g)[Offset(i, j, w)] == Glyph(g[i][j])
    ensures forall i :: 0 <= i < h ==>
      0 <= Offset(i, w, w) < |Render(g)| && Render(g)[Offset(i, w, w)] == '\n'
  {
    RenderCells(g, h, w);
    RenderNewlines(g, h, w);
  }

  /** The text of an `h` by `w` grid has `h` lines of `w + 1` characters. */
  lemma {:induction false} RenderLength(g: Grid, h: nat, w: nat)
    requires Shaped(g, h, w)
    ensures |Render(g)| == Offset(h, 0, w)
  {
    if h > 0 {
      RenderLength(g[..h - 1], h - 1, w);
      RenderRowAt(g[h - 1]);
      NextLine(h - 1, w);
    }
  }

  lemma {:induction false} RenderCells(g: Grid, h: nat, w: nat)
    requires Shaped(g, h, w)
    ensures |Render(g)| == Offset(h, 0, w)
    ensures forall i, j :: 0 <= i < h && 0 <= j < w ==>
      0 <= Offset(i, j, w) < |Render(g)| && Render(g)[Offset(i, j, w)] == Glyph(g[i][j])
  {
    RenderLength(g, h, w);
    if h > 0 {
      var front := g[..h - 1];
      RenderCells(front, h - 1, w);
      forall i, j | 0 <= i < h && 0 <= j < w
        ensures 0 <= Offset(i, j, w) < |Render(g)| && Render(g)[Offset(i, j, w)] == Glyph(g[i][j])
      {
        RenderCellStep(g, h, w, i, j);
      }
    }
  }

  /** The step of `RenderCells`: a cell of the last line is drawn in that line,
      and a cell of an earlier line where the lines before the last draw it. */
  lemma RenderCellStep(g: Grid, h: nat, w: nat, i: int, j: int)
    requires Shaped(g, h, w) && 0 <= i < h && 0 <= j < w
    requires i < h - 1 ==>
      0 <= Offset(i, j, w) < |Render(g[..h - 1])| && Render(g[..h - 1])[Offset(i, j, w)] == Glyph(g[..h - 1][i][j])
    ensures 0 <= Offset(i, j, w) < |Render(g)| && Render(g)[Offset(i, j, w)] == Glyph(g[i][j])
  {
    var front := g[..h - 1];
    RenderLength(front, h - 1, w);
    RenderRowAt(g[h - 1]);
    NextLine(h - 1, w);
    assert Render(g) == Render(front) + RenderRow(g[h - 1]) + "\n";
    if i < h - 1 {
      assert front[i] == g[i];
      assert Render(g)[Offset(i, j, w)] == Render(front)[Offset(i, j, w)];
    } else {
      var base := Offset(h - 1, 0, w);
      assert Offset(i, j, w) == base + j;
      assert Render(g)[base + j] == RenderRow(g[h - 1])[j];
    }
  }

  lemma {:induction false} RenderNewlines(g: Grid, h: nat, w: nat)
    requires Shaped(g, h, w)
    ensures |Render(g)| == Offset(h, 0, w)
    ensures forall i :: 0 <= i < h ==>
      0 <= Offset(i, w, w) < |Render(g)| && Render(g)[Offset(i, w, w)] == '\n'
  {
    RenderLength(g, h, w);
    if h > 0 {
      var front := g[..h - 1];
      RenderNewlines(front, h - 1, w);
      RenderRowAt(g[h - 1]);
      var base := Offset(h - 1, 0, w);
      NextLine(h - 1, w);
      assert Render(g) == Render(front) + RenderRow(g[h - 1]) + "\n";
      forall i | 0 <= i < h
        ensures 0 <= Offset(i, w, w) < |Render(g)| && Render(g)[Offset(i, w, w)] == '\n'
      {
        if i < h - 1 {
          LineBefore(i, h - 1, w, w);
        } else {
          assert Offset(i, w, w) == base + w;
        }
      }
    }
  }

  lemma {:induction false} NextLine(i: nat, w: int)
    ensures Offset(i + 1, 0, w) == Offset(i, 0, w) + w + 1
    ensures forall j :: Offset(i, j, w) == Offset(i, 0, w) + j
  {
    OffsetValue(i, 0, w);
    forall j
      ensures Offset(i, j, w) == Offset(i, 0, w) + j
    {
      OffsetValue(i, j, w);
    }
  }

  /** Character `j <= w` of line `i` comes before line `k > i`. */
  lemma {:induction false} LineBefore(i: nat, k: nat, w: nat, j: nat)
    requires i < k && j <= w
    ensures 0 <= Offset(i, j, w) < Offset(k, 0, w)
    decreases k
  {
    if i < k - 1 {
      LineBefore(i, k - 1, w, j);
    } else {
      NextLine(i, w);
      OffsetValue(i, 0, w);
    }
  }

  /** A grid with no `Vis` cell renders without any `X`. */
  lemma {:induction false} RenderWithoutVisited(g: Grid)
    requires forall i, j :: 0 <= i < |g| && 0 <= j < |g[i]| ==> g[i][j] != Vis
    ensures 'X' !in Render(g)
  {
    if g != [] {
      var last := g[|g| - 1];
      RenderWithoutVisited(g[..|g| - 1]);
      RenderRowAt(last);
      assert forall j :: 0 <= j < |last| ==> last[j] != Vis;
    }
  }
}
