/** The board of a Minesweeper game as values: positions, tiles, the
    neighbourhood of a tile, adjacency mine counts, tile counting, the
    flag toggle and the end-of-game marking of a single tile. */
module Board {

  /** Board dimensions (minesweeper.py:8-9). */
  const SIZE_X: int := 15
  const SIZE_Y: int := 15

  datatype Pos = Pos(x: int, y: int)

  /** STATE_DEFAULT, STATE_CLICKED and STATE_FLAGGED. */
  datatype TileState = Default | Clicked | Flagged

  /** One tile record: whether it holds a mine, its adjacency mine count
      and its state. */
  datatype Tile = Tile(isMine: bool, mines: int, state: TileState)

  /** The tiles, indexed by x and then by y. */
  type Grid = seq<seq<Tile>>

  /** Which tiles hold a mine, indexed by x and then by y. */
  type Layout = seq<seq<bool>>

  predicate InBounds(p: Pos) {
    0 <= p.x < SIZE_X && 0 <= p.y < SIZE_Y
  }

  /** p is one of the 8 tiles around c. */
  predicate Adjacent(c: Pos, p: Pos) {
    p != c && c.x - 1 <= p.x <= c.x + 1 && c.y - 1 <= p.y <= c.y + 1
  }

  predicate IsLayout(layout: Layout) {
    |layout| == SIZE_X && forall x :: 0 <= x < SIZE_X ==> |layout[x]| == SIZE_Y
  }

  predicate IsGrid(g: Grid) {
    |g| == SIZE_X && forall x :: 0 <= x < SIZE_X ==> |g[x]| == SIZE_Y
  }

  function At(g: Grid, p: Pos): Tile
    requires IsGrid(g) && InBounds(p)
  {
    g[p.x][p.y]
  }

  function MineAt(layout: Layout, p: Pos): bool
    requires IsLayout(layout) && InBounds(p)
  {
    layout[p.x][p.y]
  }

  /** The grid with the tile at p replaced by t. */
  function Update(g: Grid, p: Pos, t: Tile): (r: Grid)
    requires IsGrid(g) && InBounds(p)
    ensures IsGrid(r) && At(r, p) == t
    ensures forall q {:trigger At(r, q)} :: InBounds(q) && q != p ==> At(r, q) == At(g, q)
  {
    g[p.x := g[p.x][p.y := t]]
  }

  lemma UpdateSame(g: Grid, p: Pos)
    requires IsGrid(g) && InBounds(p)
    ensures Update(g, p, At(g, p)) == g
  {
    assert g[p.x][p.y := g[p.x][p.y]] == g[p.x];
  }

  predicate Distinct(s: seq<Pos>) {
    forall i, j :: 0 <= i < j < |s| ==> s[i] != s[j]
  }

  /** A sequence without repeats fits in any set holding all its elements. */
  lemma {:induction false} DistinctInSet(s: seq<Pos>, a: set<Pos>)
    requires Distinct(s) && forall i :: 0 <= i < |s| ==> s[i] in a
    ensures |s| <= |a|
  {
    if s != [] {
      assert Distinct(s[1..]);
      forall i | 0 <= i < |s| - 1 ensures s[1..][i] in a - {s[0]} {
        assert s[1..][i] == s[i + 1];
      }
      DistinctInSet(s[1..], a - {s[0]});
    }
  }

  // ---------------------------------------------------------------------
  // Neighbours (get_neighbors)
  // ---------------------------------------------------------------------

  /** The k-th of the 8 coordinates around c, in the order get_neighbors
      lists them. */
  function Offset(c: Pos, k: int): (p: Pos)
    requires 0 <= k < 8
    ensures Adjacent(c, p)
  {
    Pos(c.x + [-1, -1, -1, 0, 0, 1, 1, 1][k], c.y + [-1, 0, 1, -1, 1, -1, 0, 1][k])
  }

  /** The 8 surrounding coordinates, in order. */
  function Surrounding(c: Pos): seq<Pos> {
    seq(8, k requires 0 <= k < 8 => Offset(c, k))
  }

  /** The coordinates of cs that name a tile, in order; a coordinate off
      the board is skipped, as the KeyError handler does. */
  function KeepInBounds(cs: seq<Pos>): (r: seq<Pos>)
    ensures |r| <= |cs|
    ensures forall p {:trigger p in r} {:trigger p in cs} :: p in r <==> p in cs && InBounds(p)
    ensures Distinct(cs) ==> Distinct(r)
  {
    if cs == [] then []
    else
      var rest := KeepInBounds(cs[1..]);
      assert Distinct(cs) ==> Distinct(cs[1..]) && cs[0] !in cs[1..];
      if InBounds(cs[0]) then [cs[0]] + rest else rest
  }

  /** get_neighbors: exactly the on-board tiles among the 8 around c, each
      once; never c itself, so at most 8. */
  function Neighbors(c: Pos): (ns: seq<Pos>)
    ensures |ns| <= 8
    ensures forall p {:trigger p in ns} :: p in ns <==> InBounds(p) && Adjacent(c, p)
    ensures Distinct(ns)
    ensures c !in ns
  {
    var cs := Surrounding(c);
    forall i, j | 0 <= i < j < 8 ensures cs[i] != cs[j] {
      assert cs[i] == Offset(c, i) && cs[j] == Offset(c, j);
    }
    assert forall p {:trigger p in cs} :: InBounds(p) && Adjacent(c, p) ==> p in cs by {
      forall p | InBounds(p) && Adjacent(c, p) ensures p in cs {
        var k := if p.x == c.x - 1 then p.y - c.y + 1
                 else if p.x == c.x then (if p.y < c.y then 3 else 4)
                 else p.y - c.y + 6;
        assert cs[k] == p;
      }
    }
    assert forall p {:trigger p in cs} :: p in cs ==> Adjacent(c, p);
    KeepInBounds(cs)
  }

  // ---------------------------------------------------------------------
  // Adjacency mine counts (the generator sum in setup_game)
  // ---------------------------------------------------------------------

  /** How many of the positions ns hold a mine. */
  function MinesAmong(layout: Layout, ns: seq<Pos>): (k: nat)
    requires IsLayout(layout)
    requires forall i :: 0 <= i < |ns| ==> InBounds(ns[i])
    ensures k <= |ns|
  {
    if ns == [] then 0
    else (if MineAt(layout, ns[0]) then 1 else 0) + MinesAmong(layout, ns[1..])
  }

  /** The mine count stored in tile p: the number of its neighbours that
      hold a mine. */
  function CountMines(layout: Layout, p: Pos): (k: nat)
    requires IsLayout(layout)
    ensures k <= 8
  {
    var ns := Neighbors(p);
    assert forall i :: 0 <= i < |ns| ==> ns[i] in ns;
    MinesAmong(layout, ns)
  }

  /** The mined tiles around p, described without Neighbors. */
  ghost function MinedAround(layout: Layout, p: Pos): set<Pos>
    requires IsLayout(layout)
  {
    set x, y | p.x - 1 <= x <= p.x + 1 && p.y - 1 <= y <= p.y + 1
               && 0 <= x < SIZE_X && 0 <= y < SIZE_Y && Pos(x, y) != p && layout[x][y]
      :: Pos(x, y)
  }

  lemma {:induction false} MinesAmongIsCardinality(layout: Layout, ns: seq<Pos>)
    requires IsLayout(layout)
    requires forall i :: 0 <= i < |ns| ==> InBounds(ns[i])
    requires Distinct(ns)
    ensures MinesAmong(layout, ns) == |set n | n in ns && MineAt(layout, n)|
  {
    if ns != [] {
      var rest := set n | n in ns[1..] && MineAt(layout, n);
      var all := set n | n in ns && MineAt(layout, n);
      MinesAmongIsCardinality(layout, ns[1..]);
      assert ns[0] !in ns[1..];
      if MineAt(layout, ns[0]) {
        assert all == rest + {ns[0]};
      } else {
        assert all == rest;
      }
    }
  }

  /** Each tile's stored count is exactly the number of mined tiles among
      the up to 8 around it. */
  lemma CountMinesIsMinedAround(layout: Layout, p: Pos)
    requires IsLayout(layout)
    ensures CountMines(layout, p) == |MinedAround(layout, p)|
  {
    var ns := Neighbors(p);
    assert forall i :: 0 <= i < |ns| ==> ns[i] in ns;
    MinesAmongIsCardinality(layout, ns);
    var s := set n | n in ns && MineAt(layout, n);
    assert s == MinedAround(layout, p) by {
      forall q | q in MinedAround(layout, p) ensures q in s {
        assert InBounds(q) && Adjacent(p, q);
      }
    }
  }

  /** Every neighbour of a tile whose count is 0 is free of mines. */
  lemma NoMineBesideZero(layout: Layout, p: Pos, n: Pos)
    requires IsLayout(layout) && CountMines(layout, p) == 0
    requires n in Neighbors(p)
    ensures !MineAt(layout, n)
  {
    CountMinesIsMinedAround(layout, p);
    assert InBounds(n) && Adjacent(p, n);
    assert n in MinedAround(layout, p) <==> MineAt(layout, n);
  }

  // ---------------------------------------------------------------------
  // Counting tiles of a grid
  // ---------------------------------------------------------------------

  /** The positions of the tiles of g that satisfy P. */
  ghost function Where(g: Grid, P: Tile -> bool): (s: set<Pos>)
    requires IsGrid(g)
    ensures forall p {:trigger p in s} :: p in s <==> InBounds(p) && P(At(g, p))
  {
    set x, y | 0 <= x < SIZE_X && 0 <= y < SIZE_Y && P(g[x][y]) :: Pos(x, y)
  }

  /** The number of tiles of g satisfying P. */
  ghost function CountTiles(g: Grid, P: Tile -> bool): nat
    requires IsGrid(g)
  {
    |Where(g, P)|
  }

  /** Replacing one tile changes a count by at most that tile. */
  lemma CountTilesUpdate(g: Grid, p: Pos, t: Tile, P: Tile -> bool)
    requires IsGrid(g) && InBounds(p)
    ensures CountTiles(Update(g, p, t), P)
         == CountTiles(g, P) - (if P(At(g, p)) then 1 else 0) + (if P(t) then 1 else 0)
  {
    var before, after := Where(g, P), Where(Update(g, p, t), P);
    WhereUpdate(g, p, t, P);
    assert p in before <==> P(At(g, p));
    assert p in after <==> P(t);
    RemoveOne(before, p);
    RemoveOne(after, p);
  }

  /** Away from p, the tiles satisfying P are the same after the update. */
  lemma WhereUpdate(g: Grid, p: Pos, t: Tile, P: Tile -> bool)
    requires IsGrid(g) && InBounds(p)
    ensures Where(Update(g, p, t), P) - {p} == Where(g, P) - {p}
  {
    var g' := Update(g, p, t);
    forall q ensures q in Where(g', P) - {p} <==> q in Where(g, P) - {p} {
      if InBounds(q) && q != p {
        assert At(g', q) == At(g, q);
      }
    }
  }

  lemma RemoveOne<T>(s: set<T>, x: T)
    ensures |s - {x}| == |s| - (if x in s then 1 else 0)
  {
    if x in s {
      assert s == (s - {x}) + {x};
    } else {
      assert s - {x} == s;
    }
  }

  /** A count is 0 when no tile satisfies P. */
  lemma CountTilesNone(g: Grid, P: Tile -> bool)
    requires IsGrid(g)
    requires forall x, y :: 0 <= x < SIZE_X && 0 <= y < SIZE_Y ==> !P(g[x][y])
    ensures CountTiles(g, P) == 0
  {
    assert Where(g, P) == {};
  }

  predicate IsDefault(t: Tile) { t.state == Default }

  predicate IsFlagged(t: Tile) { t.state == Flagged }

  predicate IsFlaggedMine(t: Tile) { t.state == Flagged && t.isMine }

  // ---------------------------------------------------------------------
  // Flag toggle (on_right_click)
  // ---------------------------------------------------------------------

  datatype FlagCounters = FlagCounters(flags: int, correctFlags: int)

  /** The right-click on tile t: Default and Flagged swap, flagCount
      follows, correctFlagCount follows when t holds a mine; a Clicked
      tile is left alone. */
  function ToggleFlag(t: Tile, c: FlagCounters): (r: (Tile, FlagCounters))
    ensures r.0.isMine == t.isMine && r.0.mines == t.mines
    ensures (r.0.state == Flagged) == (t.state == Default)
    ensures t.state == Clicked ==> r == (t, c)
    ensures t.state == Flagged ==> r.0.state == Default
    ensures r.1.flags - c.flags == (if r.0.state == Flagged then 1 else if t.state == Flagged then -1 else 0)
    ensures r.1.correctFlags - c.correctFlags == (if t.isMine then r.1.flags - c.flags else 0)
  {
    match t.state
    case Default =>
      (t.(state := Flagged),
       FlagCounters(c.flags + 1, c.correctFlags + (if t.isMine then 1 else 0)))
    case Flagged =>
      (t.(state := Default),
       FlagCounters(c.flags - 1, c.correctFlags - (if t.isMine then 1 else 0)))
    case Clicked =>
      (t, c)
  }

  /** Right-clicking the same tile twice restores the tile and both counters. */
  lemma ToggleFlagTwice(t: Tile, c: FlagCounters)
    ensures var r := ToggleFlag(t, c); ToggleFlag(r.0, r.1) == (t, c)
  {
  }

  /** flagCount counts the Flagged tiles and correctFlagCount the Flagged mines. */
  ghost predicate CountersMatch(g: Grid, c: FlagCounters) {
    IsGrid(g) && c.flags == CountTiles(g, IsFlagged) && c.correctFlags == CountTiles(g, IsFlaggedMine)
  }

  /** A right-click keeps both flag counters equal to their recount. */
  lemma ToggleFlagKeepsCounters(g: Grid, p: Pos, c: FlagCounters, t': Tile, c': FlagCounters)
    requires IsGrid(g) && InBounds(p) && CountersMatch(g, c)
    requires (t', c') == ToggleFlag(At(g, p), c)
    ensures CountersMatch(Update(g, p, t'), c')
  {
    CountTilesUpdate(g, p, t', IsFlagged);
    CountTilesUpdate(g, p, t', IsFlaggedMine);
  }

  /** A board with no flags has both counters at 0. */
  lemma NoFlagsCountersZero(g: Grid)
    requires IsGrid(g)
    requires forall x, y :: 0 <= x < SIZE_X && 0 <= y < SIZE_Y ==> g[x][y].state == Default
    ensures CountersMatch(g, FlagCounters(0, 0))
  {
    CountTilesNone(g, IsFlagged);
    CountTilesNone(g, IsFlaggedMine);
  }

  // ---------------------------------------------------------------------
  // End-of-game marking (game_over)
  // ---------------------------------------------------------------------

  /** What game_over shows on a tile: NoMark keeps the tile's picture. */
  datatype Mark = NoMark | WrongFlag | ExposedMine

  /** The two tests of game_over, applied in order to one tile. */
  function Marking(t: Tile): (m: Mark)
    ensures m == WrongFlag <==> !t.isMine && t.state == Flagged
    ensures m == ExposedMine <==> t.isMine && t.state != Flagged
    ensures m == NoMark <==> (t.isMine <==> t.state == Flagged)
  {
    var m := if !t.isMine && t.state == Flagged then WrongFlag else NoMark;
    if t.isMine && t.state != Flagged then ExposedMine else m
  }

  /** marks holds the end-of-game marking of every tile of g. */
  ghost predicate MarksOf(marks: seq<seq<Mark>>, g: Grid)
    requires IsGrid(g)
  {
    |marks| == SIZE_X
    && forall x :: 0 <= x < SIZE_X ==>
         |marks[x]| == SIZE_Y && forall y :: 0 <= y < SIZE_Y ==> marks[x][y] == Marking(g[x][y])
  }
}
