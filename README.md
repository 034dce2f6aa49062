# Minesweeper board engine in Dafny

This project models the board-state engine of `minesweeper.py`, a 15 x 15
Minesweeper game, and proves properties of it. The graphical front end is
not modelled. The model has three modules:

- `Board` (board.dfy) holds the board as values:
  - positions, tile records and the three tile states;
  - the neighbour list of `get_neighbors`;
  - the adjacency mine count that `setup_game` stores in each tile;
  - tile counting;
  - the right-click flag toggle on one tile and its two counters;
  - the end-of-game marking of one tile in `game_over`.
- `Flood` (flood.dfy) describes a run of `clear_surrounding_tiles` over grid
  values:
  - which tiles the run dequeues;
  - which tiles it sets Clicked;
  - how much it adds to `clickedCount`;
  - what follows for the region of zero-count tiles around the start tile.
- `Game` (minesweeper.dfy) is the `Minesweeper` class:
  - a 15 x 15 `array2` of tile records updated in place;
  - the counters `flagCount`, `correctFlagCount`, `clickedCount` and `mines`;
  - the methods `setup_game`, `on_click`, `on_right_click`,
    `clear_surrounding_tiles` and `game_over`, each of which reads and writes
    that array. `setup_game`, `clear_surrounding_tiles` and the marking pass
    of `game_over` keep their loops.

  A ghost value `grid` mirrors the array. Every method is proved against the
  `Board` and `Flood` functions on that value.

Some of the program's behaviour looks unintended. The model keeps it exactly
as the code has it:

- `mines` is set to 0 by `setup_game` and never changes. The win test
  therefore compares `clickedCount` with 225.
- The flood sets every neighbour of a dequeued tile Clicked, whatever its
  state, and adds 1 to `clickedCount` for each one. A tile can be counted
  several times. A Flagged tile can be cleared this way while
  `flagCount` stays as it was (`Flood.FloodDropsFlags`).
- The start tile of a flood can be queued a second time by a neighbour.
- Clicking again on a revealed tile with count 0 runs the flood again. When
  all its neighbours are already Clicked, no tile changes, but
  `clickedCount` still grows by the number of its neighbours
  (`Flood.RefloodRevealsNothing`).
- A flood can set a Flagged tile Clicked. That tile's left click stays
  unbound until the next set-up, because only unflagging binds it again.

## Model

| member | source | states |
|---|---|---|
| Board.Offset | minesweeper.py:118-122 | each of the 8 coordinates listed around (x, y) is next to it and is not (x, y) itself |
| Board.KeepInBounds | minesweeper.py:123-127 | a coordinate is kept iff it names a tile of the board; no repeat is introduced and the result is no longer than the input |
| Board.Neighbors | minesweeper.py:116-128 | a position is a neighbour of c iff it is on the board and one of the 8 around c; no repeats, never c itself, at most 8 |
| Board.MinesAmong | minesweeper.py:79 | the sum over a neighbour list counts at most one per neighbour |
| Board.MinesAmongIsCardinality | minesweeper.py:79 | over a list without repeats, the sum is the number of listed positions that hold a mine |
| Board.CountMines | minesweeper.py:79-80 | a stored mine count is at most 8 |
| Board.CountMinesIsMinedAround | minesweeper.py:77-80 | the stored count of a tile equals the number of mined tiles among the on-board tiles of the 3 x 3 block around it, the tile itself excluded |
| Board.NoMineBesideZero | minesweeper.py:77-80 | no neighbour of a tile with count 0 holds a mine |
| Board.ToggleFlag | minesweeper.py:156-178 | Default becomes Flagged and Flagged becomes Default, with flagCount moving by +1 or -1 and correctFlagCount moving with it exactly when the tile holds a mine; a Clicked tile and both counters stay as they were; the mine bit and count never change |
| Board.ToggleFlagTwice | minesweeper.py:160-178 | two right-clicks on the same tile restore the tile and both counters |
| Board.ToggleFlagKeepsCounters | minesweeper.py:160-178 | if flagCount counts the Flagged tiles and correctFlagCount the Flagged mines before a right-click, both still do after it |
| Board.NoFlagsCountersZero | minesweeper.py:48-49 | on a board without flags, counters of 0 are exact |
| Board.Marking | minesweeper.py:93-96 | a tile is marked wrong iff it is Flagged without a mine, shown as a mine iff it has a mine and is not Flagged, and left alone iff it is Flagged exactly when it holds a mine |
| Flood.InitialGrid | minesweeper.py:55-80 | the board after set-up holds the layout's mine bits and the adjacency counts, and every tile is Default |
| Flood.SetStateMatchesLayout | minesweeper.py:150-151 | changing a tile's state never changes a mine bit or a stored count |
| Flood.NeighbourTotal | minesweeper.py:195-196 | the flood adds at most 8 to clickedCount per dequeued tile |
| Flood.Queueable | minesweeper.py:187-191 | a neighbour is appended to the queue iff it is still Default and has count 0; no repeats are appended |
| Flood.FloodStart | minesweeper.py:181 | the queue starts holding only the start tile, with nothing changed |
| Flood.FloodStep | minesweeper.py:183-196 | one iteration keeps the flood invariant. The tiles Clicked so far are exactly the neighbours of the dequeued tiles. Every queued tile after the first is queueable, Clicked, never repeated, and a neighbour of a tile dequeued before it. Every queueable touched tile has been queued after the start. The Default tiles drop by at least the number appended |
| Flood.FloodEnd | minesweeper.py:183 | when the queue is empty, the dequeued tiles form a complete run: each tile after the start was queued by an earlier one, and every queueable neighbour was queued. The board shows exactly their neighbours Clicked |
| Flood.ZeroPathInFlood | minesweeper.py:180-196 | every tile reachable from the start through queueable neighbours is dequeued, after the start when the path has a step |
| Flood.InFloodReachable | minesweeper.py:183-191 | every tile dequeued after the start is reachable from the start through queueable neighbours |
| Flood.FloodQueuesReachable | minesweeper.py:180-196 | a tile is dequeued after the start iff it is reachable from the start through queueable neighbours |
| Flood.NeighbourTotalPermutation | minesweeper.py:195-196 | the amount a flood adds to clickedCount does not depend on the order of the dequeued tiles |
| Flood.FloodRunsAgree | minesweeper.py:180-196 | any two runs from the same start over the same board leave the same board and add the same amount to clickedCount, so both are fixed by the board and the start |
| Flood.FloodClicksZeroRegion | minesweeper.py:180-196 | every tile of the zero region around the start, other than the start, ends Clicked, and so does every neighbour of it |
| Flood.FloodSparesMines | minesweeper.py:187-196 | a flood from a tile with count 0 leaves every mine as it was |
| Flood.FloodDropsFlags | minesweeper.py:195-196 | a flood that reaches a Flagged tile leaves fewer Flagged tiles. flagCount is not in what `Game.Minesweeper.OnClick` may modify, so it no longer counts them |
| Flood.ClickSparesMines | minesweeper.py:136-154 | a click on a tile without a mine leaves every mine as it was |
| Flood.RefloodRevealsNothing | minesweeper.py:144-146 | a flood from a tile whose neighbours are all Clicked dequeues only its start and changes no tile, yet it adds the number of its neighbours, between 1 and 8, to clickedCount |
| Game.Minesweeper.constructor | minesweeper.py:19-32 | a new game holds the laid-out board with all counters at 0, the clock not started and the game in progress |
| Game.Minesweeper.SetupGame | minesweeper.py:47-80 | a fresh board holds the layout's mines and their adjacency counts, every tile is Default, all counters are 0 and exact, the clock is reset, no tile shows an end-of-game mark, every left click is bound and the game is in progress |
| Game.Minesweeper.OnRightClick | minesweeper.py:156-178 | the tile and the counters become ToggleFlag of their old values, and no other tile changes. Flagging unbinds the tile's left click and unflagging binds it again. The counters stay exact, Flagged tiles keep their click unbound, and the clock is started |
| Game.Minesweeper.OnClick | minesweeper.py:136-154 | a click reaches only a tile whose left click is bound. A mine ends the game as lost with the board unchanged. Any other tile floods when its count is 0 and is then set Clicked. clickedCount grows by the flood's total plus 1 when the tile was newly clicked. The game is won exactly when clickedCount reaches SIZE_X * SIZE_Y - mines. The flood run is a FloodRun, which fixes the new board and count (`Flood.FloodRunsAgree`). Flagged tiles still have their click unbound |
| Game.Minesweeper.SetState | minesweeper.py:150-151 | one tile's state is written in the array and in its value view; no other tile changes, and the tile keeps its mine bit and count. Every state write of the program goes through it: lines 151, 162, 172 and 195 |
| Game.Minesweeper.Reveal | minesweeper.py:144-152 | a tile with count 0 floods from itself and no other tile does. The clicked tile then ends Clicked, every other tile shows the flood's result, and clickedCount grows as OnClick states |
| Game.Minesweeper.GameOver | minesweeper.py:90-104 | the outcome records a win or a loss, and every tile shows its end-of-game marking |
| Game.Minesweeper.EndMarks | minesweeper.py:91-96 | returns the marking of every tile of the board |
| Game.Minesweeper.ClearSurroundingTiles | minesweeper.py:180-196 | the dequeued tiles form a complete flood run from the start: the start, then exactly the tiles reachable from it through queueable neighbours, each once. The board ends with exactly their neighbours set Clicked, and clickedCount grows by their neighbour total |
| Game.Minesweeper.ClickNeighbours | minesweeper.py:187-196 | one iteration sets every neighbour of the dequeued tile Clicked and nothing else; it appends exactly the queueable ones, in order; clickedCount grows by the number of neighbours |
| Game.LayTiles | minesweeper.py:53-75 | a fresh board whose every tile carries its layout mine bit, count 0 and state Default |
| Game.CountAllMines | minesweeper.py:77-80 | every tile's count becomes the number of mines among its neighbours |
| Game.CountRowMines | minesweeper.py:78-80 | one row's counts are set and every other row is unchanged |

## Left out

- The Tkinter interface is not modelled: windows, frames, buttons, images, labels and `refresh_labels`. The picture a tile shows is not modelled, except for the end-of-game marks that `game_over` puts up.
- Button binding is modelled only for the left click, as the set `unbound` of tiles whose click `on_right_click` unbound. The right-click binding is never changed by the program and is not modelled.
- `on_click_wrapper` and `on_right_click_wrapper` are not modelled. They become the coordinates passed to `OnClick` and `OnRightClick`.
- The random mine placement (`random.uniform(0.0, 1.0) < 0.1`) is not modelled. The mine layout is a parameter of the constructor and of `SetupGame`.
- The clock and `update_timer` are not modelled. `startTime` becomes the boolean `started`.
- The "Play again?" dialog, `restart`, `tk.update` and `tk.quit` are not modelled. `game_over` records the outcome in the field `outcome` and the marks in `shown`. A restart is `SetupGame` again.
- The tile fields `id` and `coords` are not modelled, nor the `"x_y"` key that the flood queue carries and splits again. Tiles are named by `Pos` values.
- The Darwin/other choice of the right mouse button and `main` are not modelled.
- Game.Minesweeper.ClearSurroundingTiles: does not state the breadth-first order in which the deque hands out tiles. It states which tiles are dequeued, and `Flood.FloodRunsAgree` shows that the board and the count do not depend on the order.
- Game.Minesweeper.OnClick: does not state that the flag counters stay exact, because a flood can clear a Flagged tile without updating them (`Flood.FloodDropsFlags`).
