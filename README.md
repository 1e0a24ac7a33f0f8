# Maze generator: a verified model

This project models the maze generator in `main.py`. `MazeConstructor(height, width)`:

- rounds each requested dimension up to an odd number and pads it by four;
- builds a grid whose outer ring is `VIS`, whose even/even interior cells are `FREE` rooms, and whose other cells are `WALL`.

`create_maze` works in three steps:

1. It picks a random room.
2. It carves from that room with a randomized depth-first backtracker (`__make_path`). The backtracker marks the current room `VIS`. It then tries the four directions in random order. For every neighbour two cells away that is still `FREE`, it turns the wall in between into `VIS` and recurses into that neighbour.
3. `__clean_maze` turns every `VIS` back into `FREE` and removes the outermost ring.

`__repr__` draws the grid as text.

The Dafny modules follow that structure:

- `Vectors` (`vector.dfy`): `IntVector` arithmetic with Python's floor division, and the `Direction` table. `IntVector.Add` is a plain definition. What the maze relies on about it, that `cell + d` and `cell + d / 2` stay in the grid and the wall is the exact midpoint, is stated by `Grids.StepGeometry` and `Mazes.MazeConstructor.GoFromTo`.
- `Grids` (`grid.dfy`): the three cell states, and the classification of positions (outer ring, room, link between two rooms, solid wall). It also holds the fresh grid, the carving invariant `GridOk`, and the geometry of one step.
- `Carving` (`carving.dfy`): growth of the grid, local exhaustion, carved links and walks through them, the sets of rooms and carved walls, the spanning-tree predicate, and the lemmas that carry one call of `__make_path`.
- `Cleanup` (`cleanup.dfy`): the `VIS`→`FREE` pass and the trimming, with their properties.
- `Rendering` (`render.dfy`): the text form of a grid.
- `Mazes` (`maze.dfy`): the class `MazeConstructor`. The constructor sets its fields `width`, `height` and `maze`; afterwards only `maze` changes. The grid is a `seq<seq<State>>`; the constructor assigns the one `InitMazeGrid` builds row by row. `MakePath` and the VIS→FREE pass of `CleanMaze` reassign it one cell at a time; `CleanMaze` then replaces it with the trimmed grid, as main.py:111 does.

The random choices are modelled as nondeterministic choices:

- each `rd.randint` in `create_maze` becomes `:|` over its range;
- `rd.choice` becomes `:|` over the remaining directions.

Every property therefore holds for every sequence of random outcomes.

The main results are these. For every choice, `CreateMaze`:

- fails exactly when a stored dimension is below 5;
- otherwise carves a spanning tree of the rooms rooted at the start room. Every room is visited and reachable through carved walls, every carved wall joins two visited rooms, and there is one carved wall fewer than there are rooms;
- then leaves behind the cleaned grid: two rows and two columns smaller, no `VIS` cell, an outer ring that is all `WALL`, and a cell is `FREE` exactly when it is a room or a carved wall.

`MakePath` terminates. Its measure is the pair (set of `FREE` rooms, 0 if `cell` is `FREE` and 1 otherwise), ordered lexicographically. Every recursive call in `main.py` enters a `FREE` room, and the set of `FREE` rooms then strictly shrinks before the next recursive call. The second component is for a call on a room that is already `VIS`. `main.py` never makes such a call, but the contract of `MakePath` allows it.

## Model

| member | source | states |
|---|---|---|
| Vectors.FloorDivInt | main.py:20-21 | Python's `a // b`: the quotient rounded toward negative infinity, for either sign of the divisor |
| Vectors.IntVector.FloorDiv | main.py:19-22 | each component is floor-divided: `divisor * r <= v < divisor * r + divisor` for a positive divisor, mirrored for a negative one |
| Vectors.IntVector.TrueDiv | main.py:25-26 | `/` gives the same floored components as `//` and no fraction |
| Vectors.Direction.Vec | main.py:37-41 | each direction moves exactly two cells along one axis |
| Vectors.Direction.Half | main.py:116 | `direction.value / 2` is exactly half the displacement on both axes |
| Vectors.DirectionTable | main.py:37-41 | `[N, E, S, W]` lists every direction, and distinct directions have distinct displacements |
| Grids.Put | main.py:76 | the assignment `maze[y][x] = s` keeps the shape, changes the cell at `p` to `s` and leaves every other cell as it was |
| Grids.FreshGridShape | main.py:135-151 | the fresh grid has `height` rows of `width` cells, its outer ring is `VIS`, rooms are `FREE` and every other cell is `WALL`; so it satisfies the carving invariant |
| Grids.StartCells | main.py:57-58 | the start cells `2 * randint(1, size // 2 - 1)` are exactly the rooms of the grid |
| Grids.StepGeometry | main.py:114-129 | from a room, the next cell `cell + d` and the wall `cell + d / 2` are inside the grid, so the reads are in bounds. The wall is the exact midpoint, and the next cell is a room or on the outer ring. The wall is a link exactly when the next cell is a room. |
| Carving.GrowsTrans | main.py:75-97 | growth (cells only become `VIS`) is transitive |
| Carving.GrowsKeepsNotFree | main.py:75-97 | as the grid grows, no cell returns to `FREE` and `VIS` cells stay `VIS` |
| Carving.GrowsKeepsExhausted | main.py:78-97 | a room with no `FREE` neighbour keeps none as the grid grows |
| Carving.GrowsShrinksFree | main.py:75-97 | the set of `FREE` rooms only shrinks as the grid grows |
| Carving.WalkGrows | main.py:96 | a walk through carved cells stays a walk as the grid grows |
| Carving.ReachGrows | main.py:96 | reachability through carved cells is kept as the grid grows |
| Carving.WalkFirst | main.py:95-97 | a non-empty walk crosses a carved wall first and goes on as a walk from the next room |
| Carving.WalkPrepend | main.py:95-97 | a carved wall followed by a walk from the room beyond it is a walk |
| Carving.WalkConcat | main.py:95-97 | two walks that meet join into one walk |
| Carving.MarkRoom | main.py:76 | marking a room keeps the invariant, grows the grid and closes every carved link. It adds the room to the visited rooms, one more of them exactly when it was `FREE`, and carves no wall. |
| Carving.LinkEnds | main.py:114-117 | the two rooms a wall position lies between are both inside the grid |
| Carving.MarkCloses | main.py:76 | once the room about to be entered is marked, every carved link joins two visited rooms |
| Carving.MarkSets | main.py:76 | marking adds exactly that room to the visited rooms and leaves the carved walls as they were |
| Carving.CarveLink | main.py:95-96 | carving towards a `FREE` neighbour opens a link that was `WALL`. It adds exactly that link to the carved walls and visits no room. The neighbour is a `FREE` room whose only open link is the new one, and it is one step from the cell through carved cells. |
| Carving.CarveSets | main.py:96 | opening a `WALL` link leaves the visited and free rooms as they were and adds exactly one carved wall |
| Carving.OpenKeepsOk | main.py:76-96 | setting a room or a link to `VIS` keeps the carving invariant (edge `VIS`, solid `WALL`, rooms never `WALL`, links never `FREE`) |
| Carving.OpenLinkCloses | main.py:95-96 | after the wall is carved, every carved link joins two visited rooms, except at the neighbour about to be entered |
| Carving.CarveTarget | main.py:92-95 | the wall towards a `FREE` neighbour of a room is a link still `WALL`, and the neighbour is a room |
| Carving.CarveWalk | main.py:95-96 | the carved wall joins the cell to its neighbour in one step and only grows the grid |
| Carving.SpreadStep | main.py:78-97 | an exhausted room has every neighbouring room `VIS` |
| Carving.TowardsX | main.py:37-41 | between two rooms of one row, a direction leads to a room one step closer |
| Carving.TowardsY | main.py:37-41 | between two rooms of one column, a direction leads to a room one step closer |
| Carving.SpreadX | main.py:75-97 | along a row, exhaustion of all visited rooms spreads the visit to every room of that row |
| Carving.SpreadY | main.py:75-97 | along a column, exhaustion of all visited rooms spreads the visit to every room of that column |
| Carving.AllRoomsVisited | main.py:75-97 | one visited room plus exhaustion of every visited room means every room is visited |
| Carving.ProgressStart | main.py:76 | marking `cell` establishes the loop invariant of the call |
| Carving.CarveStep | main.py:95-97 | before the recursive call: the neighbour is a `FREE` room, every link but the new one is closed, and the termination measure has decreased |
| Carving.ProgressStep | main.py:88-97 | one successful iteration, given the recursive call's contract, keeps the loop invariant, keeps non-`FREE` neighbours non-`FREE`, and leaves the tried neighbour non-`FREE` |
| Carving.NewlyAfterStep | main.py:95-97 | after an iteration, every room visited since entry is exhausted (except `cell`) and reachable from `cell` |
| Carving.ProgressFinish | main.py:78-97 | when `cell` has no `FREE` neighbour, the call's contract holds |
| Carving.FreshGridCarving | main.py:135-151 | the fresh grid has no visited room and no carved wall, and every room is `FREE` |
| Carving.FreshStart | main.py:57-62 | any room of the fresh grid is a valid start for the carver |
| Carving.SpanningFromFresh | main.py:56-63 | carving from a room of the fresh grid, with the carver's contract on return, yields a spanning tree. Every room is visited and reachable, every carved wall joins visited rooms, and there are rooms − 1 carved walls. |
| Cleanup.Unvisit | main.py:103-104 | a cell is never `VIS` after the pass, and a non-`VIS` cell is unchanged |
| Cleanup.Normalize | main.py:101-104 | the pass keeps the grid's shape |
| Cleanup.Inner | main.py:109 | `row[1:len - 1]` drops the first and last cell, and is empty for a row with fewer than two cells |
| Cleanup.TrimCells | main.py:106-111 | for any grid, the rebuilt grid has `len - 2` rows (none for a shorter grid), row `i` has `len(row) - 2` cells of row `i + 1` (none for a shorter row), and `r[i][j] == g[i + 1][j + 1]` |
| Cleanup.NormalizeCells | main.py:100-104 | after the pass no cell is `VIS`; `VIS` became `FREE`, and `FREE` and `WALL` cells are unchanged |
| Cleanup.NormalizeIdempotent | main.py:100-104 | the pass is idempotent, and it changes nothing exactly when no cell is `VIS` |
| Cleanup.TrimShape | main.py:106-111 | trimming leaves `h - 2` rows of `w - 2` cells with `result[i][j] == grid[i + 1][j + 1]` |
| Cleanup.FinishedAt | main.py:100-111 | a cell of the finished maze is the carved cell one down and one right, with `VIS` turned into `FREE` |
| Cleanup.RingIsSolid | main.py:139-147 | a position one step inside the border, on the outer ring of the finished maze, is a wall that is never carved |
| Cleanup.FinishedCell | main.py:100-111 | a finished cell is never `VIS`. It is `WALL` on the outer ring, and `FREE` exactly when the carved position under it is a room or a carved wall. |
| Cleanup.FinishedMaze | main.py:100-111 | the finished maze has `h - 2` by `w - 2` cells and no `VIS` cell. Its whole outer ring is `WALL`, and a cell is `FREE` exactly when it is a room or a carved wall of the spanning tree. |
| Rendering.Glyph | main.py:158-163 | no cell is drawn as a newline |
| Rendering.GlyphInjective | main.py:158-163 | distinct states are drawn as distinct characters |
| Rendering.OffsetValue | main.py:156-166 | character `j` of line `i` is at `i * (w + 1) + j` |
| Rendering.RenderRowAt | main.py:157-165 | a row is drawn as one glyph per cell, in order |
| Rendering.GlyphAsWritten | main.py:163 | with the literal as spelled, a wall is drawn as three characters and every other cell as its glyph |
| Rendering.RenderRowAsWrittenLength | main.py:157-165 | with the literal as spelled, a row of `n` cells of which `k` are walls is drawn as `n + 2 * k` characters; a single wall is three characters where the block is one |
| Rendering.RenderLength | main.py:154-168 | the text of an `h` by `w` grid has `h * (w + 1)` characters |
| Rendering.RenderCells | main.py:154-168 | the cell in row `i`, column `j` is drawn at offset `i * (w + 1) + j` |
| Rendering.RenderCellStep | main.py:154-168 | drawing one more line keeps every earlier glyph at its offset and puts the new line's glyphs after them |
| Rendering.RenderNewlines | main.py:166 | every line ends with a newline at offset `i * (w + 1) + w` |
| Rendering.RenderAt | main.py:154-168 | the text has `h` lines of `w` glyphs, each ended by a newline, and each cell sits at its offset |
| Rendering.NextLine | main.py:166 | each line starts `w + 1` characters after the previous one |
| Rendering.LineBefore | main.py:156-166 | every character of a line comes before every later line |
| Rendering.RenderWithoutVisited | main.py:160-161 | a grid without `VIS` cells is drawn without any `X` |
| Mazes.StoredDimension | main.py:47-51 | the stored dimension is odd and lies in `[n + 4, n + 6)`. It is at least 5 exactly when the request is not negative. |
| Mazes.FirstIndex | main.py:90 | the position `list.remove` deletes: it holds `x`, and no earlier position does |
| Mazes.Remove | main.py:90 | `list.remove` drops the first occurrence of `x`: the result is the list without that position, in the same order. So the length drops by one, the multiset loses one `x`, and every other element stays. |
| Mazes.MazeConstructor.constructor | main.py:46-53 | stores the padded dimensions and the fresh grid, which satisfies the invariant whenever both dimensions are at least 5 |
| Mazes.MazeConstructor.InitMazeGrid | main.py:135-151 | the nested loops build exactly the fresh grid |
| Mazes.MazeConstructor.CreateMaze | main.py:56-63 | fails, leaving the grid unchanged, exactly when a stored dimension is below 5 (`randint` on an empty range). Otherwise the carved grid is a spanning tree rooted at the start room, and the stored maze is that grid cleaned. |
| Mazes.MazeConstructor.MakePath | main.py:75-97 | keeps the invariant, only grows the grid, and marks `cell`. On return `cell` has no `FREE` neighbour and every link is closed. Every room it visited is exhausted and reachable from `cell`. It visited one more room than it carved walls when `cell` was `FREE`. |
| Mazes.MazeConstructor.GoFromTo | main.py:114-117 | returns the wall between and the next cell; the wall is the exact midpoint |
| Mazes.MazeConstructor.DirectionFree | main.py:120-122 | true exactly when the neighbour in that direction is `FREE`; the read is in bounds |
| Mazes.MazeConstructor.AllSurroundingVisited | main.py:125-132 | true exactly when all four neighbours are `VIS`; the reads are in bounds |
| Mazes.MazeConstructor.CleanMaze | main.py:100-111 | the grid becomes the cleaned grid: the `VIS`→`FREE` pass, then trimming |
| Mazes.MazeConstructor.Repr | main.py:154-168 | the string built is the text form of the grid |

## Left out

- `__parse_args` and `__main` (main.py:171-197): command-line parsing, `sys.setrecursionlimit` and `print` are input/output and runtime configuration.
- The random number generator (main.py:57-58, main.py:89): it is replaced by nondeterministic choice, and no distribution is modelled.
- `get_maze` (main.py:66-72): it iterates over a new empty list and always returns `[]`; it is not part of the maze logic.
- The `?` branch of `__repr__` (main.py:164-165): a cell is always one of the three states, so that branch cannot be reached.
- The Python `Enum` machinery (`.value`, iteration over `Direction`): it is modelled by a datatype with a displacement function and the fixed order `[N, E, S, W]`.
- The wall literal at main.py:163 is mis-encoded. Its bytes are the UTF-8 encoding of U+2588 (a full block) read as Windows-1252, so Python, reading the file as UTF-8, sees three characters, U+00E2, U+2013 and U+02C6, and appends all three for every `WALL` cell. The model draws each wall as the single character U+2588 (see "## Findings"). That choice is why `Rendering.RenderLength`, `Rendering.RenderCells`, `Rendering.RenderNewlines`, `Rendering.RenderAt`, `Rendering.OffsetValue` and `Mazes.MazeConstructor.Repr` count one character per cell. As written, the text is longer than `h * (w + 1)` whenever a wall is drawn.
- Python's recursion depth limit is not modelled: the recursion is unbounded in the model.
- In-place mutation of nested lists is modelled as reassigning the `seq<seq<State>>` field; aliasing between rows is not modelled, and the source has none.
- Rendering.Glyph: draws a wall as the one character U+2588, not the three characters of the literal as spelled at main.py:163 (see "## Findings").
- Mazes.MazeConstructor.Repr: appends one character per wall, U+2588, where main.py:163 as spelled appends three; its text is therefore `Render` of the corrected glyphs.
- Mazes.MazeConstructor.CreateMaze: requires the grid to still be the fresh grid built by the constructor; a second call on an already carved maze is not modelled.
- Mazes.MazeConstructor.MakePath: requires that every carved link already joins two visited rooms except possibly at `cell`, a ghost invariant that both call sites establish. It is needed to count carved walls.
- Mazes.Remove: requires `x` to be in the list, as Python's `list.remove` raises otherwise; the only call passes an element from the list.
- Vectors.FloorDivInt: requires a nonzero divisor, as Python raises `ZeroDivisionError`; every call divides by 2.

## Findings

| source | as written | input that shows it | evidently intended | confidence | as-written member | corrected member |
|---|---|---|---|---|---|---|
| main.py:163 | the wall literal is the UTF-8 bytes of U+2588 read as Windows-1252, three characters U+00E2 U+2013 U+02C6 | a one-cell row `[WALL]` is drawn as three characters | one full-block character U+2588 per wall, so the text has `h` lines of `w + 1` characters | high on the bytes, not executed | Rendering.RenderRowAsWrittenLength | Rendering.RenderAt |
