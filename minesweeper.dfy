/** The board-state engine of the Minesweeper class: a 15 x 15 array of
    tile records updated in place, the flag and click counters, the
    right-click toggle, the zero-tile flood fill, the click handler with
    its win and loss tests, and the end-of-game marking pass. */
module Game {
  import opened Board
  import opened Flood

  datatype Outcome = InProgress | Won | Lost

  class Minesweeper {
    var tiles: array2<Tile>
    var flagCount: int
    var correctFlagCount: int
    var clickedCount: int
    /** The mine total shown to the player and used by the win test. */
    var mines: int
    /** Whether the clock has been started (startTime is set). */
    var started: bool
    /** The end of the game, in place of the "Play again?" dialog. */
    var outcome: Outcome
    /** What the last end-of-game pass showed on each tile. */
    var shown: seq<seq<Mark>>
    /** The tiles whose button has its left click unbound: flagged, and not
        unflagged since. */
    var unbound: set<Pos>

    /** The tiles as a value, kept equal to the array. */
    ghost var grid: Grid
    /** The mine layout the board was set up with. */
    ghost var layout: Layout

    ghost predicate Valid()
      reads this`tiles, this`grid, this`layout, this`mines, tiles
    {
      && tiles.Length0 == SIZE_X && tiles.Length1 == SIZE_Y
      && MatchesLayout(grid, layout)
      && (forall x, y :: 0 <= x < SIZE_X && 0 <= y < SIZE_Y ==> tiles[x, y] == grid[x][y])
      && mines == 0
    }

    ghost function Counters(): FlagCounters
      reads this`flagCount, this`correctFlagCount
    {
      FlagCounters(flagCount, correctFlagCount)
    }

    /** A Flagged tile never takes a left click, and a tile whose click is
        unbound has left the Default state. */
    ghost predicate ClicksBound()
      reads this`grid, this`unbound
    {
      && IsGrid(grid)
      && (forall p {:trigger At(grid, p)} :: InBounds(p) && At(grid, p).state == Flagged ==> p in unbound)
      && (forall p {:trigger p in unbound} :: p in unbound ==> InBounds(p) && At(grid, p).state != Default)
    }

    constructor (layout: Layout)
      requires IsLayout(layout)
      ensures Valid() && fresh(tiles)
      ensures this.layout == layout
      ensures forall x, y {:trigger grid[x][y]} :: 0 <= x < SIZE_X && 0 <= y < SIZE_Y ==>
                grid[x][y] == Tile(layout[x][y], CountMines(layout, Pos(x, y)), Default)
      ensures flagCount == 0 && correctFlagCount == 0 && clickedCount == 0 && mines == 0
      ensures CountersMatch(grid, Counters())
      ensures !started && outcome == InProgress && shown == []
      ensures unbound == {} && ClicksBound()
    {
      tiles := new Tile[SIZE_X, SIZE_Y];
      new;
      SetupGame(layout);
    }

    /** setup_game: lay the given mines, compute every tile's count, and
        reset the counters; the fresh buttons show no end-of-game marks
        and the game is in progress again. */
    method SetupGame(layout: Layout)
      requires IsLayout(layout)
      modifies this
      ensures Valid() && fresh(tiles)
      ensures this.layout == layout
      ensures forall x, y {:trigger grid[x][y]} :: 0 <= x < SIZE_X && 0 <= y < SIZE_Y ==>
                grid[x][y] == Tile(layout[x][y], CountMines(layout, Pos(x, y)), Default)
      ensures flagCount == 0 && correctFlagCount == 0 && clickedCount == 0 && mines == 0
      ensures CountersMatch(grid, Counters())
      ensures !started && outcome == InProgress && shown == []
      ensures unbound == {} && ClicksBound()
    {
      var board := LayTiles(layout);
      CountAllMines(board, layout);
      flagCount := 0;
      correctFlagCount := 0;
      clickedCount := 0;
      started := false;
      outcome := InProgress;
      shown := [];
      unbound := {};
      mines := 0;
      tiles := board;
      this.layout := layout;
      grid := InitialGrid(layout);
      NoFlagsCountersZero(grid);
    }

    /** Writes the state of tile p, in the array and in its value view. */
    method SetState(p: Pos, s: TileState)
      requires Valid() && InBounds(p)
      modifies this`grid, tiles
      ensures Valid()
      ensures grid == Update(old(grid), p, old(At(grid, p)).(state := s))
    {
      tiles[p.x, p.y] := tiles[p.x, p.y].(state := s);
      SetStateMatchesLayout(grid, layout, p, s);
      grid := Update(grid, p, At(grid, p).(state := s));
      forall x, y | 0 <= x < SIZE_X && 0 <= y < SIZE_Y ensures tiles[x, y] == grid[x][y] {
        if Pos(x, y) != p {
          assert At(grid, Pos(x, y)) == At(old(grid), Pos(x, y));
        }
      }
    }

    /** on_right_click: toggle the flag on a Default or Flagged tile, keep
        both flag counters, and unbind the tile's left click while it is
        flagged; a Clicked tile is left alone. */
    method OnRightClick(x: int, y: int)
      requires Valid() && InBounds(Pos(x, y))
      modifies this`flagCount, this`correctFlagCount, this`started, this`grid, tiles, this`unbound
      ensures Valid() && started
      ensures (grid[x][y], Counters()) == ToggleFlag(old(grid[x][y]), old(Counters()))
      ensures grid == Update(old(grid), Pos(x, y), grid[x][y])
      ensures unbound == match old(grid[x][y]).state
                         case Default => old(unbound) + {Pos(x, y)}
                         case Flagged => old(unbound) - {Pos(x, y)}
                         case Clicked => old(unbound)
      ensures old(CountersMatch(grid, Counters())) ==> CountersMatch(grid, Counters())
      ensures old(ClicksBound()) ==> ClicksBound()
    {
      started := true;
      var tile := tiles[x, y];
      ghost var g0, c0 := grid, Counters();
      ghost var toggled := ToggleFlag(tile, c0);
      if tile.state == Default {
        SetState(Pos(x, y), Flagged);
        unbound := unbound + {Pos(x, y)};
        if tile.isMine {
          correctFlagCount := correctFlagCount + 1;
        }
        flagCount := flagCount + 1;
        assert grid == Update(g0, Pos(x, y), toggled.0) && Counters() == toggled.1;
      } else if tile.state == Flagged {
        SetState(Pos(x, y), Default);
        unbound := unbound - {Pos(x, y)};
        if tile.isMine {
          correctFlagCount := correctFlagCount - 1;
        }
        flagCount := flagCount - 1;
        assert grid == Update(g0, Pos(x, y), toggled.0) && Counters() == toggled.1;
      } else {
        UpdateSame(grid, Pos(x, y));
      }
      if CountersMatch(g0, c0) {
        assert tile == At(g0, Pos(x, y));
        ToggleFlagKeepsCounters(g0, Pos(x, y), c0, toggled.0, toggled.1);
      }
    }

    /** on_click on a tile whose left click is bound, so never on a Flagged
        tile. A mine ends the game as lost and changes nothing
        else. Otherwise a tile with count 0 floods from itself, the tile
        is then Clicked and counted unless it already was, and the game is
        won when clickedCount reaches SIZE_X * SIZE_Y - mines. */
    method OnClick(x: int, y: int) returns (ghost flooded: seq<Pos>)
      requires Valid() && ClicksBound() && InBounds(Pos(x, y)) && Pos(x, y) !in unbound
      modifies this`started, this`clickedCount, this`grid, tiles, this`outcome, this`shown
      ensures Valid() && ClicksBound() && started
      ensures old(grid[x][y]).isMine ==>
                && grid == old(grid) && clickedCount == old(clickedCount)
                && outcome == Lost && MarksOf(shown, grid)
      ensures !old(grid[x][y]).isMine ==>
                && (if old(grid[x][y]).mines == 0 then FloodRun(old(grid), Pos(x, y), flooded) else flooded == [])
                && Revealed(old(grid), grid, Pos(x, y), flooded)
                && clickedCount == old(clickedCount) + NeighbourTotal(flooded)
                     + (if Touched(flooded, Pos(x, y)) || old(grid[x][y]).state == Clicked then 0 else 1)
                && (if clickedCount == SIZE_X * SIZE_Y - mines
                    then outcome == Won && MarksOf(shown, grid)
                    else outcome == old(outcome) && shown == old(shown))
    {
      started := true;
      var tile := tiles[x, y];
      flooded := [];
      if tile.isMine {
        GameOver(false);
        return;
      }
      flooded := Reveal(x, y);
      RevealOnlyClicks(old(grid), grid, Pos(x, y), flooded);
      if clickedCount == SIZE_X * SIZE_Y - mines {
        GameOver(true);
      }
    }

    /** The reveal step of on_click for a tile without a mine: a tile with
        count 0 floods from itself; the tile is then set Clicked and
        counted unless it already is. */
    method Reveal(x: int, y: int) returns (ghost flooded: seq<Pos>)
      requires Valid() && InBounds(Pos(x, y)) && !grid[x][y].isMine
      modifies this`clickedCount, this`grid, tiles
      ensures Valid()
      ensures if old(grid[x][y]).mines == 0 then FloodRun(old(grid), Pos(x, y), flooded) else flooded == []
      ensures Revealed(old(grid), grid, Pos(x, y), flooded)
      ensures clickedCount == old(clickedCount) + NeighbourTotal(flooded)
                + (if Touched(flooded, Pos(x, y)) || old(grid[x][y]).state == Clicked then 0 else 1)
    {
      var tile := tiles[x, y];
      ghost var g0 := grid;
      flooded := [];
      if tile.mines == 0 {
        flooded := ClearSurroundingTiles(Pos(x, y));
      }
      ghost var g1 := grid;
      assert At(g1, Pos(x, y)).state == Clicked <==> Touched(flooded, Pos(x, y)) || tile.state == Clicked;
      if tiles[x, y].state != Clicked {
        SetState(Pos(x, y), Clicked);
        clickedCount := clickedCount + 1;
      } else {
        UpdateSame(grid, Pos(x, y));
      }
      assert grid == Update(g1, Pos(x, y), tile.(state := Clicked));
      RevealAfterFlood(g0, g1, Pos(x, y), flooded);
    }

    /** game_over: the end of the game is recorded in place of the dialog,
        and the marking pass is shown. */
    method GameOver(won: bool)
      requires Valid()
      modifies this`outcome, this`shown
      ensures outcome == (if won then Won else Lost)
      ensures MarksOf(shown, grid)
    {
      shown := EndMarks();
      outcome := if won then Won else Lost;
    }

    /** The marking loop of game_over: a non-mine Flagged tile is marked
        wrong, then a mine that is not Flagged is shown as a mine. */
    method EndMarks() returns (marks: seq<seq<Mark>>)
      requires Valid()
      ensures MarksOf(marks, grid)
    {
      marks := [];
      for x := 0 to SIZE_X
        invariant |marks| == x
        invariant forall i :: 0 <= i < x ==>
                    |marks[i]| == SIZE_Y && forall j :: 0 <= j < SIZE_Y ==> marks[i][j] == Marking(grid[i][j])
      {
        var row := [];
        for y := 0 to SIZE_Y
          invariant |row| == y
          invariant forall j :: 0 <= j < y ==> row[j] == Marking(grid[x][j])
        {
          var t := tiles[x, y];
          var m := NoMark;
          if !t.isMine && t.state == Flagged {
            m := WrongFlag;
          }
          if t.isMine && t.state != Flagged {
            m := ExposedMine;
          }
          row := row + [m];
        }
        marks := marks + [row];
      }
    }

    /** clear_surrounding_tiles: a breadth-first pass from start. Every
        neighbour of every dequeued tile is set Clicked and counted, and a
        neighbour that was Default with count 0 is queued. The returned
        list holds the dequeued tiles in order. */
    method ClearSurroundingTiles(start: Pos) returns (ghost done: seq<Pos>)
      requires Valid() && InBounds(start)
      modifies this`clickedCount, this`grid, tiles
      ensures Valid()
      ensures FloodRun(old(grid), start, done)
      ensures FloodResult(old(grid), grid, done)
      ensures clickedCount == old(clickedCount) + NeighbourTotal(done)
    {
      ghost var g0 := grid;
      var queue := [start];
      done := [];
      FloodStart(g0, start);
      while queue != []
        invariant Valid()
        invariant FloodState(g0, grid, start, done, queue)
        invariant clickedCount == old(clickedCount) + NeighbourTotal(done)
        decreases CountTiles(grid, IsDefault), |queue|
      {
        var cur := queue[0];
        ghost var g, waiting := grid, queue;
        queue := ClickNeighbours(cur, queue[1..]);
        FloodStep(g0, g, grid, start, done, waiting);
        NeighbourTotalAppend(done, cur);
        done := done + [cur];
      }
      FloodEnd(g0, grid, start, done);
    }

    /** The body of the while loop of clear_surrounding_tiles for the
        dequeued tile cur: each neighbour in turn is queued when it is
        still Default with count 0, then set Clicked and counted. */
    method ClickNeighbours(cur: Pos, queue: seq<Pos>) returns (queue': seq<Pos>)
      requires Valid()
      modifies this`clickedCount, this`grid, tiles
      ensures Valid()
      ensures Expanded(old(grid), grid, cur)
      ensures queue' == queue + Queueable(old(grid), Neighbors(cur))
      ensures clickedCount == old(clickedCount) + |Neighbors(cur)|
    {
      ghost var g := grid;
      queue' := queue;
      var neighbors := Neighbors(cur);
      for i := 0 to |neighbors|
        invariant Valid()
        invariant ClickedAmong(g, grid, neighbors[..i])
        invariant queue' == queue + Queueable(g, neighbors[..i])
        invariant clickedCount == old(clickedCount) + i
      {
        var n := neighbors[i];
        assert n in neighbors && n !in neighbors[..i];
        assert At(grid, n) == At(g, n);
        var tile := tiles[n.x, n.y];
        if tile.state == Default {
          if tile.mines == 0 {
            queue' := queue' + [n];
          }
        }
        ClickOneMore(g, grid, neighbors, i);
        SetState(n, Clicked);
        clickedCount := clickedCount + 1;
        assert neighbors[..i + 1][..i] == neighbors[..i];
      }
      assert neighbors[..|neighbors|] == neighbors;
    }
  }

  /** The first pass of setup_game: a fresh board whose tiles carry the
      layout's mine bits, count 0 and state Default. */
  method LayTiles(layout: Layout) returns (board: array2<Tile>)
    requires IsLayout(layout)
    ensures fresh(board) && board.Length0 == SIZE_X && board.Length1 == SIZE_Y
    ensures forall i, j {:trigger board[i, j]} :: 0 <= i < SIZE_X && 0 <= j < SIZE_Y ==>
              board[i, j] == Tile(layout[i][j], 0, Default)
  {
    board := new Tile[SIZE_X, SIZE_Y];
    for x := 0 to SIZE_X
      modifies board
      invariant forall i, j {:trigger board[i, j]} :: 0 <= i < x && 0 <= j < SIZE_Y ==>
                  board[i, j] == Tile(layout[i][j], 0, Default)
    {
      for y := 0 to SIZE_Y
        modifies board
        invariant forall i, j {:trigger board[i, j]} :: 0 <= i < x && 0 <= j < SIZE_Y ==>
                    board[i, j] == Tile(layout[i][j], 0, Default)
        invariant forall j {:trigger board[x, j]} :: 0 <= j < y ==> board[x, j] == Tile(layout[x][j], 0, Default)
      {
        board[x, y] := Tile(layout[x][y], 0, Default);
      }
    }
  }

  /** The second pass of setup_game: every tile's count becomes the number
      of mines among its neighbours. */
  method CountAllMines(board: array2<Tile>, layout: Layout)
    requires IsLayout(layout) && board.Length0 == SIZE_X && board.Length1 == SIZE_Y
    requires forall i, j {:trigger board[i, j]} :: 0 <= i < SIZE_X && 0 <= j < SIZE_Y ==>
               board[i, j] == Tile(layout[i][j], 0, Default)
    modifies board
    ensures forall i, j {:trigger board[i, j]} :: 0 <= i < SIZE_X && 0 <= j < SIZE_Y ==>
              board[i, j] == Tile(layout[i][j], CountMines(layout, Pos(i, j)), Default)
  {
    for x := 0 to SIZE_X
      invariant forall i, j {:trigger board[i, j]} :: 0 <= i < x && 0 <= j < SIZE_Y ==>
                  board[i, j] == Tile(layout[i][j], CountMines(layout, Pos(i, j)), Default)
      invariant forall i, j {:trigger board[i, j]} :: x <= i < SIZE_X && 0 <= j < SIZE_Y ==>
                  board[i, j] == Tile(layout[i][j], 0, Default)
    {
      CountRowMines(board, layout, x);
    }
  }

  /** One row of the second pass. */
  method CountRowMines(board: array2<Tile>, layout: Layout, x: int)
    requires IsLayout(layout) && board.Length0 == SIZE_X && board.Length1 == SIZE_Y
    requires 0 <= x < SIZE_X
    requires forall j {:trigger board[x, j]} :: 0 <= j < SIZE_Y ==> board[x, j] == Tile(layout[x][j], 0, Default)
    modifies board
    ensures forall j {:trigger board[x, j]} :: 0 <= j < SIZE_Y ==>
              board[x, j] == Tile(layout[x][j], CountMines(layout, Pos(x, j)), Default)
    ensures forall i, j {:trigger board[i, j]} :: 0 <= i < SIZE_X && i != x && 0 <= j < SIZE_Y ==>
              board[i, j] == old(board[i, j])
  {
    for y := 0 to SIZE_Y
      invariant forall j {:trigger board[x, j]} :: 0 <= j < y ==>
                  board[x, j] == Tile(layout[x][j], CountMines(layout, Pos(x, j)), Default)
      invariant forall j {:trigger board[x, j]} :: y <= j < SIZE_Y ==> board[x, j] == Tile(layout[x][j], 0, Default)
      invariant forall i, j {:trigger board[i, j]} :: 0 <= i < SIZE_X && i != x && 0 <= j < SIZE_Y ==>
                  board[i, j] == old(board[i, j])
    {
      var mc := CountMines(layout, Pos(x, y));
      board[x, y] := board[x, y].(mines := mc);
    }
  }
}
