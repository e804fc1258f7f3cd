# pvp-conways: a verified model of the engine, the grid font and the play sessions

pvp-conways is a two-player variant of Conway's Game of Life on a typed
grid. A cell holds 0 (dead), 1 (player), 2 (enemy), 3 (shrapnel) or 4
(base). Its state may also hold any other integer, which counts as alive
but as no kind. This project models three parts of the program in Dafny
and proves what each promises:

- **The engine** (`grid.py`):
  - `life_rules.dfy` (module `LifeRules`) states the per-cell rule.
    - Neighbour counts are toroidal.
    - Liveness follows B3/S23.
    - The typed colour field sums per-kind masks exactly as the code does.
    - `ResolveKind` is an independent case-by-case statement of the kind a living cell receives, and `NextKindResolves` proves the mask arithmetic equal to it.
    - `TypedStep` and `PlainStep` are whole generations, with the two outermost rows and columns cleared.
  - `life_grid.dfy` (module `LifeGrid`) holds the engine objects.
    - `Grid` and `ColouredGrid` own a 2-D `array2<int>`.
    - An update computes the next generation into a fresh array from the old one, installs it, then clears the border in place.
    - Each update is proved equal to `PlainStep` or `TypedStep` of the old contents.
    - The per-cell `damagedBase` mask is computed against the base mask frozen at construction.
- **The grid font** (`gridfont.py`), in `grid_font.dfy` (module `GridFont`):
  - `AsGrid` renders a word.
  - `ExpandGrid` pads a matrix to a minimum size.
  - `Arrange` word-wraps a text into lines of exactly `width` columns.
  - The glyph table is a parameter: a map from each known character to its 12-row matrix.
  - Each imperative routine is a method proved equal to a recursive specification function, and the shape, placement and order properties are proved about those functions.
- **The sessions** (`game.py`), in `game.dfy` (module `LifeGame`):
  - `Game` and `LevelEditor` are a small state machine: time on or off, the view's pixel position, one-cell edits while time is stopped, and ticks.
  - In the editor, starting time stores a copy of the grid and stopping time restores it. `PlayAndRewind` proves that a start/stop pair leaves the grid as it was, however many ticks ran in between.

A surviving player, enemy or base cell does not always keep its kind. In
`grid.py:61-68` the masks of kinds 1, 2 and 4 are not exclusive of each
other. Take a surviving cell of kind k (k in 1, 2, 4) whose neighbours
show exactly one kind from 1..4, and let that kind be j. If j is 1, 2 or 4
and differs from k, the cell gets k + j. So 1 beside only 2s becomes 3,
and 1 or 2 beside only 4s becomes 5 or 6. When two or more kinds show
around it, the cell keeps k: a 1 among 1s and 2s stays 1. `ResolveKind`,
`NextKindResolves` and `NextKind` state this.

`arrange` has a layout quirk, which the model keeps. When a line's first
word leaves fewer than three columns, no gap follows it. A next word that
fits into the remaining one or two columns is then appended directly,
with no gap (`gridfont.py:36-42`). `LineWords` states both cases.

## Model

| member | source | states |
|---|---|---|
| LifeRules.CountFrom | grid.py:27-32 | the sum of the rolled indicator arrays over the offsets from k on is at most the number of those offsets |
| LifeRules.Neighbours | grid.py:13 | a live-neighbour count is at most 8 |
| LifeRules.NextAlive | grid.py:14-18 | a cell alive next has 2 or 3 live neighbours; 3 always makes it alive; with 2 it is alive next exactly when it is alive now |
| LifeRules.Colour | grid.py:58-68 | shrapnel wins: an old 3, or a dead cell with a 3 or several kinds around, is coloured 3; a dead cell with no kind around is 0; a 1, 2 or 4 without exactly one kind around keeps its own kind |
| LifeRules.CountFromIsHitCount | grid.py:27-32 | the summed rolled arrays count exactly the set of the 8 offsets whose wrapped neighbour matches the probe |
| LifeRules.NeighboursCountsLiveOffsets | grid.py:27-32 | a cell's neighbour count is the number of its 8 toroidal neighbours that are nonzero, so it lies in 0..8 |
| LifeRules.HasNeighbourWitness | grid.py:51-56 | "has a neighbour of kind k" holds iff some wrapped neighbour offset holds k |
| LifeRules.LivenessRule | grid.py:11-18 | a dead cell is alive next iff exactly 3 neighbours are alive; a live cell iff 2 or 3 are |
| LifeRules.KindsAroundIsCardinality | grid.py:58-59 | the summed neighbour-kind masks equal the number of distinct kinds 1..4 among the neighbours |
| LifeRules.NextKindResolves | grid.py:49-69 | the colour field times new liveness equals the case rule: a newborn takes the single kind around it, 3 among several kinds, 0 with none; 3 stays 3; a survivor of kind k in {1,2,4} keeps k unless exactly one kind from 1..4 shows around it and that kind is some j in {1,2,4} other than k, in which case it gets k+j; a cell not alive next is 0 |
| LifeRules.NextKind | grid.py:61-69 | every typed next value lies in 0..6, and a nonzero value means alive next generation |
| LifeRules.TypedStep | grid.py:10-25 | a typed generation keeps the board's dimensions and has a dead two-cell border |
| LifeRules.PlainStep | grid.py:10-37 | a plain generation holds only 0 and 1, an inner cell is 1 iff alive next, and the border is 0 |
| LifeRules.TypedStepCells | grid.py:47-69 | every inner cell of a typed generation is its resolved kind when alive next and 0 otherwise; all values lie in 0..6; a cell with a kind is alive in the plain generation |
| LifeGrid.ClearEdges | grid.py:21-25 | rows 0, 1, h-2, h-1 and columns 0, 1, w-2, w-1 become 0 and every other cell is unchanged |
| LifeGrid.Grid.constructor | grid.py:7-8 | the grid owns the given array (not a copy) |
| LifeGrid.Grid.Update | grid.py:10-37 | the new array keeps the dimensions and equals the plain generation of the old contents |
| LifeGrid.ColouredGrid.constructor | grid.py:43-45 | the base mask is frozen as "cell == 4" of the initial array |
| LifeGrid.ColouredGrid.Update | grid.py:10-70 | the new array equals the typed generation of the old contents; damagedBase is, per cell, the exclusive-or of the frozen base mask and "typed next value == 4" taken before the border is cleared, and so agrees with the new array off the border |
| LifeGame.Clamp | game.py:77 | min(max(lo, v), hi) never exceeds hi, is at least lo when lo <= hi, and is v when v already lies in range |
| LifeGame.PlayEdit | game.py:102-105 | a cell changes iff a left press hits a 0 or a right press hits a 1, and then it becomes 1 - v |
| LifeGame.EditorEdit | game.py:176-179 | a cell changes iff a left press hits a value below 4 or a right press a value above 0; it steps by one, so 0..4 stays 0..4 |
| LifeGame.RightClickUndoesLeftClick | game.py:176-179 | a right press undoes a left press that changed a cell in play, and in the editor for values 0..3 |
| LifeGame.Game.constructor | game.py:24-37 | a session starts with time off, the view two cells in from the corner, and a typed grid on the given array |
| LifeGame.Game.HandleDirectionKey | game.py:74-77 | the view moves 10 pixels along the key's axis and is clamped per coordinate; it never exceeds the upper bound and is at least two cells in when the range allows |
| LifeGame.Game.HandleSpace | game.py:79-81 | space flips whether time runs |
| LifeGame.Game.HandleGridClick | game.py:95-105 | while time is stopped the clicked cell becomes PlayEdit of its value; every other cell, and every cell while time runs, is unchanged |
| LifeGame.Game.Tick | game.py:49-52 | a tick advances the grid one typed generation when time is on, with a fresh damage mask flagging each cell where the frozen base mask and the new typed value disagree about a base, taken before the border is cleared; with time off, nothing changes, the damage mask included |
| LifeGame.LevelEditor.constructor | game.py:139-140 | an editor session is a play session with the default cell size 20 and a 600 by 600 view |
| LifeGame.LevelEditor.HandleSpace | game.py:157-162 | starting time stores a fresh copy of the grid; stopping time installs that copy as the grid; time flips |
| LifeGame.LevelEditor.HandleGridClick | game.py:170-179 | while time is stopped the clicked cell becomes EditorEdit of its value; nothing else changes |
| LifeGame.LevelEditor.Tick | game.py:150-153 | a tick advances the grid one typed generation when time is on and recomputes the damage mask from the frozen bases and the typed values computed before the border is cleared, leaving the stored copy alone; with time off, the grid and the damage mask stay as they were |
| LifeGame.LevelEditor.PlayAndRewind | game.py:157-162 | starting time, any number of ticks, then stopping time leaves the grid contents exactly as before |
| GridFont.Render | gridfont.py:60-74 | a rendered word is a well-formed matrix 12 rows tall |
| GridFont.AsGrid | gridfont.py:60-74 | the character-by-character loop yields the rendering of the whole word |
| GridFont.RenderWidth | gridfont.py:63-73 | the width is the first glyph's width (1 if unknown) plus, per later character, 1 + its glyph width (1 if unknown) |
| GridFont.RenderPrefix | gridfont.py:68-73 | each row of a prefix's rendering is a prefix of the whole rendering's row: later characters only append |
| GridFont.RenderStep | gridfont.py:69-73 | one more character appends a zero column and then its glyph if it has one |
| GridFont.PlacementOfLater | gridfont.py:68-71 | a later character is preceded by an all-zero column and its glyph appears unchanged at its start column |
| GridFont.RenderPlacement | gridfont.py:63-73 | known glyphs appear unchanged left to right at their start columns, each after the first preceded by a zero column; an unknown first character is a zero column |
| GridFont.PadColumns | gridfont.py:80-86 | column padding yields width max(w, sx) and keeps the height |
| GridFont.PadRows | gridfont.py:87-93 | row padding yields height max(h, sy) and keeps the width |
| GridFont.ExpandGrid | gridfont.py:76-94 | the result is max(w, sx) wide and max(h, sy) tall |
| GridFont.PadColumnsAt | gridfont.py:81-86 | (sx - w) // 2 zero columns go on each side, an odd extra one on the left, and the input sits unchanged between them |
| GridFont.PadRowsAt | gridfont.py:88-93 | with ye = (sy - h) // 2 >= 1, ye + 1 zero rows go on top and ye - 1 at the bottom, an odd extra one at the bottom, and the input sits unchanged between them |
| GridFont.ExpandGridPlacement | gridfont.py:79-93 | the input appears unchanged as one block at (TopPad, LeftPad) and every added cell is 0 |
| GridFont.WordLength | gridfont.py:27 | a word runs over non-space characters up to the next space or the end |
| GridFont.SplitWords | gridfont.py:27 | splitting yields non-empty words free of whitespace |
| GridFont.SplitWordsKeepsLetters | gridfont.py:27 | the words put back to back are exactly the non-space characters of the text, in order |
| GridFont.SplitWordsOfJoin | gridfont.py:27 | whitespace-free words joined by single spaces split back into the same words |
| GridFont.FillLine | gridfont.py:38-46 | the inner loop never makes the row wider than width and never moves backwards over the words |
| GridFont.StartLine | gridfont.py:31-46 | a line that starts with a fitting word takes at least that word and is at most width wide |
| GridFont.FillLineStops | gridfont.py:38-46 | where the inner loop adds no further gap, it returns at once the words so far joined by gaps, perhaps with a trailing gap, with the row full, the words run out, or the next word not fitting after a gap |
| GridFont.FillLineWords | gridfont.py:38-46 | the inner loop adds words in input order, each after a 3-column gap, and stops only when the row is full, the words run out, or the next word does not fit after a gap |
| GridFont.LineWords | gridfont.py:31-46 | a line is its words in order joined by gaps; when the first word leaves no room for a gap, it is that word alone, or that word glued to the next one; it is glued exactly when a next word exists, the first word is narrower than width, and the two together fit in width |
| GridFont.TrimRight | gridfont.py:50-51 | trimming keeps a leading block of columns whose last column has a nonzero sum |
| GridFont.TrimRightRemovesBlanks | gridfont.py:50-51 | every column trimming removes sums to 0, and trimming fails exactly when every column sums to 0 |
| GridFont.FinishLine | gridfont.py:47-52 | every finished line is exactly width columns and 12 rows; finishing fails exactly when the line is centered and every column sums to 0 |
| GridFont.FinishLinePads | gridfont.py:47-48 | a left-aligned line is the row followed by zero columns |
| GridFont.LayOut | gridfont.py:30-54 | there are at most as many lines as words left, and the layout fails only on a centered blank line |
| GridFont.ArrangeSpec | gridfont.py:24-58 | an arranged text is width wide; it fails on a centered blank line only when centered, and for lack of rows to drop only when spacing is positive and no line was laid out |
| GridFont.LayOutLines | gridfont.py:30-54 | the lines take consecutive runs of words in input order, starting at the first word, each run non-empty and each line exactly width wide and 12 rows tall |
| GridFont.LayOutFirst | gridfont.py:30-54 | a successful layout is its first line, which starts at the current word and ends after it, followed by the layout from where that line ends |
| GridFont.LayOutCovers | gridfont.py:30-35 | when no remaining word is wider than width, the last line ends at the last word, so every word is laid out |
| GridFont.EmittedIsStackedThenGap | gridfont.py:53-57 | the body built line by line is the stacked lines followed by one block of spacing rows |
| GridFont.StackedHeight | gridfont.py:53-57 | k lines stacked with spacing rows between them have 12k + spacing(k-1) rows of width columns |
| GridFont.ArrangeShape | gridfont.py:24-58 | an arranged text is exactly width wide, with 12k + spacing(k-1) rows for k lines, or 0 rows when there are no lines and spacing is 0 |
| GridFont.BuildLine | gridfont.py:31-46 | the loop that builds a line yields the row and next word StartLine describes |
| GridFont.Finish | gridfont.py:47-52 | padding, or trimming column by column and centering, yields FinishLine |
| GridFont.DropSpacing | gridfont.py:55-57 | removing the first row and then spacing trailing rows yields the stacked lines, and fails when there are none to remove |
| GridFont.Arrange | gridfont.py:24-58 | the imperative layout returns exactly the stacked lines of LayOut, or the error LayOut or the row removal runs into |

## Left out

- Rendering (`Game.draw`, colour lookup, pygame surfaces), the event loops (`Game.main`, `LevelEditor.main`), the clock and sleeping are not modelled: they are graphics and timing. A clock tick is a call to `Tick`.
- `Game.handle_events`, `Game.handle_click` and the pixel-to-cell translation in `handle_grid_click` are not modelled: they dispatch pygame events and hit-test rectangles. Clicks arrive as a press or release, a button number and an in-range cell.
- Game.HandleGridClick: takes in-range cell coordinates, so numpy's negative-index wrap-around on an off-grid click is not modelled.
- `Game.handle_escape` (which leaves the session) and `LevelEditor.handle_s_key` (which writes `savedgrid.csv`) are not modelled: they are session exit and file output.
- `Font.__init__` and its glyph CSV files are not modelled: the glyph table is a parameter of every font operation, and `Font.inventory` is unused by the core.
- `lifegui.py` and `main.py` are not part of this model: the menu widgets, and an abandoned prototype of the engine.
- Cell values are modelled as unbounded integers; the arrays the program loads are floats holding small whole numbers.
- The intermediate masks that `update` and `update_cell` keep as attributes (`bool_array`, `neighbors`, `mask_list`, `mask_neighbors`, `type_masks` and the like) are not kept as fields: nothing reads them after the update.
- LifeGrid.Grid.Update: requires at least 2 rows and 2 columns, because clearing the border indexes rows and columns 0, 1, -2 and -1, which fails on a smaller array.
- LifeGrid.ColouredGrid.constructor: `damagedBase` is an empty array until the first update, where the program has no such attribute yet.
- LifeGame.LevelEditor.constructor: the stored copy starts as the initial array itself, where the program has no such attribute before time is first started.
- GridFont.Arrange: two of the ways the program raises an exception are returned as `Err` values: a centered line with no nonzero column, and no lines laid out while spacing rows are to be removed.
- GridFont.Arrange: width and spacing are taken as natural numbers, so the model does not represent the exceptions numpy raises for negative sizes: a negative width fails at the initial body (`gridfont.py:28`), and a negative spacing fails once a line is laid out (`gridfont.py:54`).
