/** What a run of clear_surrounding_tiles does, stated over grid values:
    which tiles it dequeues, which tiles it sets Clicked, how much it adds
    to clickedCount, and what follows for the zero region around the
    start tile. */
module Flood {
  import opened Board

  /** Tile (x, y) of g holds the layout's mine bit and the count of mines
      around it. */
  ghost predicate TileMatches(g: Grid, layout: Layout, x: int, y: int)
    requires IsGrid(g) && IsLayout(layout) && 0 <= x < SIZE_X && 0 <= y < SIZE_Y
  {
    g[x][y].isMine == layout[x][y] && g[x][y].mines == CountMines(layout, Pos(x, y))
  }

  /** The stored tiles agree with the mine layout. */
  ghost predicate MatchesLayout(g: Grid, layout: Layout) {
    && IsGrid(g) && IsLayout(layout)
    && forall x, y {:trigger TileMatches(g, layout, x, y)} :: 0 <= x < SIZE_X && 0 <= y < SIZE_Y ==>
         TileMatches(g, layout, x, y)
  }

  /** The tiles setup_game lays out: the layout's mines, their counts, and
      every tile Default. */
  ghost function InitialGrid(layout: Layout): (g: Grid)
    requires IsLayout(layout)
    ensures MatchesLayout(g, layout)
    ensures forall x, y {:trigger g[x][y]} :: 0 <= x < SIZE_X && 0 <= y < SIZE_Y ==>
              g[x][y] == Tile(layout[x][y], CountMines(layout, Pos(x, y)), Default)
  {
    var g := seq(SIZE_X, x requires 0 <= x < SIZE_X =>
               seq(SIZE_Y, y requires 0 <= y < SIZE_Y =>
                 Tile(layout[x][y], CountMines(layout, Pos(x, y)), Default)));
    assert forall x, y :: 0 <= x < SIZE_X && 0 <= y < SIZE_Y ==> TileMatches(g, layout, x, y);
    g
  }

  lemma MatchesLayoutAt(g: Grid, layout: Layout, p: Pos)
    requires MatchesLayout(g, layout) && InBounds(p)
    ensures At(g, p).isMine == MineAt(layout, p) && At(g, p).mines == CountMines(layout, p)
  {
    assert TileMatches(g, layout, p.x, p.y);
    assert p == Pos(p.x, p.y);
  }

  /** Changing the state of one tile keeps the grid in line with the layout. */
  lemma SetStateMatchesLayout(g: Grid, layout: Layout, p: Pos, s: TileState)
    requires MatchesLayout(g, layout) && InBounds(p)
    ensures MatchesLayout(Update(g, p, At(g, p).(state := s)), layout)
  {
    var g': Grid := Update(g, p, At(g, p).(state := s));
    forall x, y | 0 <= x < SIZE_X && 0 <= y < SIZE_Y
      ensures TileMatches(g', layout, x, y)
    {
      assert TileMatches(g, layout, x, y);
      if Pos(x, y) != p {
        assert At(g', Pos(x, y)) == At(g, Pos(x, y));
      }
    }
  }

  /** p is a neighbour of some dequeued tile, so the flood wrote it. */
  ghost predicate Touched(done: seq<Pos>, p: Pos) {
    exists i :: 0 <= i < |done| && p in Neighbors(done[i])
  }

  lemma TouchedAppend(done: seq<Pos>, c: Pos, p: Pos)
    ensures Touched(done + [c], p) <==> Touched(done, p) || p in Neighbors(c)
  {
    var d := done + [c];
    if p in Neighbors(c) {
      assert p in Neighbors(d[|done|]);
    }
    if Touched(done, p) {
      var i :| 0 <= i < |done| && p in Neighbors(done[i]);
      assert p in Neighbors(d[i]);
    }
    if Touched(d, p) {
      var i :| 0 <= i < |d| && p in Neighbors(d[i]);
      if i < |done| {
        assert p in Neighbors(done[i]);
      }
    }
  }

  /** A tile that the flood queues when it meets it: still Default and
      with no mine around it. */
  ghost predicate Expandable(g: Grid, p: Pos) {
    IsGrid(g) && InBounds(p) && At(g, p).state == Default && At(g, p).mines == 0
  }

  /** Every queueable neighbour of a dequeued tile was itself queued: it
      is dequeued after the start, even when it is the start again. */
  ghost predicate ClosedUnder(g0: Grid, done: seq<Pos>) {
    forall i, n :: 0 <= i < |done| && n in Neighbors(done[i]) && Expandable(g0, n) ==> n in done[1..]
  }

  /** s[i] is a neighbour of one of the first n tiles listed before it:
      the tile that queued it. */
  ghost predicate QueuedBy(s: seq<Pos>, i: int, n: int)
    requires 0 <= i < |s|
  {
    exists j :: 0 <= j < i && j < n && s[i] in Neighbors(s[j])
  }

  /** Every tile of s after the first was queued by one of its first n. */
  ghost predicate Reached(s: seq<Pos>, n: int) {
    forall i :: 1 <= i < |s| ==> QueuedBy(s, i, n)
  }

  /** done lists the tiles dequeued by a flood from start over grid g0, in
      order: start first, then only queueable tiles, none of them twice,
      each queued by a tile dequeued before it. */
  ghost predicate FloodRun(g0: Grid, start: Pos, done: seq<Pos>) {
    && |done| > 0 && done[0] == start
    && (forall i :: 0 <= i < |done| ==> InBounds(done[i]))
    && (forall i :: 1 <= i < |done| ==> Expandable(g0, done[i]))
    && Distinct(done[1..])
    && Reached(done, |done|)
    && ClosedUnder(g0, done)
  }

  /** g1 is g0 with every neighbour of every dequeued tile set Clicked,
      whatever its state was, and no other change. */
  ghost predicate FloodResult(g0: Grid, g1: Grid, done: seq<Pos>) {
    && IsGrid(g0) && IsGrid(g1)
    && forall p {:trigger At(g1, p)} :: InBounds(p) ==>
         At(g1, p) == if Touched(done, p) then At(g0, p).(state := Clicked) else At(g0, p)
  }

  /** What the flood adds to clickedCount: one per neighbour of each
      dequeued tile. */
  function NeighbourTotal(done: seq<Pos>): (k: nat)
    ensures k <= 8 * |done|
  {
    if done == [] then 0
    else NeighbourTotal(done[..|done| - 1]) + |Neighbors(done[|done| - 1])|
  }

  lemma NeighbourTotalAppend(done: seq<Pos>, c: Pos)
    ensures NeighbourTotal(done + [c]) == NeighbourTotal(done) + |Neighbors(c)|
  {
    assert (done + [c])[..|done|] == done;
  }

  /** The tiles of ns that one pass of the inner loop appends to the
      queue: those still Default and with count 0 in g, in order. */
  ghost function Queueable(g: Grid, ns: seq<Pos>): (r: seq<Pos>)
    ensures forall p {:trigger p in r} :: p in r <==> p in ns && Expandable(g, p)
    ensures Distinct(ns) ==> Distinct(r)
  {
    if ns == [] then []
    else
      var last := ns[|ns| - 1];
      var rest := Queueable(g, ns[..|ns| - 1]);
      assert forall p :: p in ns[..|ns| - 1] ==> p in ns;
      assert Distinct(ns) ==> Distinct(ns[..|ns| - 1]) && last !in rest;
      rest + (if Expandable(g, last) then [last] else [])
  }

  /** g1 is g with every tile of ns set Clicked and no other change. */
  ghost predicate ClickedAmong(g: Grid, g1: Grid, ns: seq<Pos>) {
    && IsGrid(g) && IsGrid(g1)
    && forall p {:trigger At(g1, p)} :: InBounds(p) ==>
         At(g1, p) == if p in ns then At(g, p).(state := Clicked) else At(g, p)
  }

  /** Clicking the next tile of ns extends the clicked prefix by one. */
  lemma ClickOneMore(g: Grid, gi: Grid, ns: seq<Pos>, i: int)
    requires 0 <= i < |ns| && InBounds(ns[i]) && ClickedAmong(g, gi, ns[..i])
    ensures ClickedAmong(g, Update(gi, ns[i], At(gi, ns[i]).(state := Clicked)), ns[..i + 1])
  {
    assert ns[..i + 1] == ns[..i] + [ns[i]];
  }

  /** g1 is g with every neighbour of c set Clicked and no other change. */
  ghost predicate Expanded(g: Grid, g1: Grid, c: Pos) {
    ClickedAmong(g, g1, Neighbors(c))
  }

  /** The state of the flood between two iterations: done holds the tiles
      dequeued so far and queue the ones still waiting; g is the board. */
  ghost predicate FloodState(g0: Grid, g: Grid, start: Pos, done: seq<Pos>, queue: seq<Pos>) {
    var log := done + queue;
    && FloodResult(g0, g, done)
    && |log| > 0 && log[0] == start
    && (forall i :: 0 <= i < |log| ==> InBounds(log[i]))
    && (forall i :: 1 <= i < |log| ==> Expandable(g0, log[i]) && At(g, log[i]).state == Clicked)
    && Distinct(log[1..])
    && Reached(log, |done|)
    && (forall p :: Touched(done, p) && Expandable(g0, p) ==> p in log[1..])
  }

  lemma FloodStart(g0: Grid, start: Pos)
    requires IsGrid(g0) && InBounds(start)
    ensures FloodState(g0, g0, start, [], [start])
  {
  }

  /** One iteration: dequeue cur, click its neighbours, append the
      queueable ones. */
  lemma FloodStep(g0: Grid, g: Grid, g1: Grid, start: Pos, done: seq<Pos>, queue: seq<Pos>)
    requires FloodState(g0, g, start, done, queue) && queue != []
    requires Expanded(g, g1, queue[0])
    ensures FloodState(g0, g1, start, done + [queue[0]], queue[1..] + Queueable(g, Neighbors(queue[0])))
    ensures CountTiles(g1, IsDefault) + |Queueable(g, Neighbors(queue[0]))| <= CountTiles(g, IsDefault)
  {
    var cur := queue[0];
    var added := Queueable(g, Neighbors(cur));
    var log := done + queue;
    assert (done + [cur]) + (queue[1..] + added) == log + added;
    StepResult(g0, g, g1, done, cur);
    StepQueued(g0, g, g1, done, cur, log, added);
    StepDistinct(g0, g, g1, done, cur, log, added);
    StepClosed(g0, g, g1, done, cur, log, added);
    StepReached(log, |done| + 1, cur, added);
    DefaultsDrop(g, g1, cur, added);
  }

  /** Every queued tile after the iteration is queueable at the start and
      Clicked now. */
  lemma StepQueued(g0: Grid, g: Grid, g1: Grid, done: seq<Pos>, cur: Pos, log: seq<Pos>, added: seq<Pos>)
    requires FloodResult(g0, g, done) && Expanded(g, g1, cur)
    requires forall i :: 1 <= i < |log| ==> InBounds(log[i]) && Expandable(g0, log[i]) && At(g, log[i]).state == Clicked
    requires added == Queueable(g, Neighbors(cur))
    ensures forall i :: 1 <= i < |log + added| ==>
              InBounds((log + added)[i]) && Expandable(g0, (log + added)[i]) && At(g1, (log + added)[i]).state == Clicked
  {
    var log1 := log + added;
    forall i | 1 <= i < |log1|
      ensures InBounds(log1[i]) && Expandable(g0, log1[i]) && At(g1, log1[i]).state == Clicked
    {
      if i < |log| {
        assert log1[i] == log[i];
        assert At(g, log[i]).state == Clicked;
      } else {
        assert log1[i] in added;
        AddedFresh(g0, g, g1, done, cur, log1[i]);
      }
    }
  }

  /** A queueable tile touched by the iteration is in the new queue. */
  lemma StepClosed(g0: Grid, g: Grid, g1: Grid, done: seq<Pos>, cur: Pos, log: seq<Pos>, added: seq<Pos>)
    requires FloodResult(g0, g, done) && Expanded(g, g1, cur)
    requires |log| > 0 && forall p :: Touched(done, p) && Expandable(g0, p) ==> p in log[1..]
    requires added == Queueable(g, Neighbors(cur))
    ensures forall p :: Touched(done + [cur], p) && Expandable(g0, p) ==> p in (log + added)[1..]
  {
    assert (log + added)[1..] == log[1..] + added;
    forall p | Touched(done + [cur], p) && Expandable(g0, p) ensures p in log[1..] + added {
      TouchedAppend(done, cur, p);
      if !Touched(done, p) {
        assert At(g, p) == At(g0, p);
        assert p in added;
      } else {
        assert p in log[1..];
      }
    }
  }

  /** The appended tiles are neighbours of cur, the k-th tile dequeued
      (at index k - 1 of the log). */
  lemma StepReached(log: seq<Pos>, k: int, cur: Pos, added: seq<Pos>)
    requires 0 < k <= |log| && log[k - 1] == cur && Reached(log, k - 1)
    requires forall p {:trigger p in added} :: p in added ==> p in Neighbors(cur)
    ensures Reached(log + added, k)
  {
    var log1 := log + added;
    forall i | 1 <= i < |log1| ensures QueuedBy(log1, i, k) {
      if i < |log| {
        assert QueuedBy(log, i, k - 1);
        var j :| 0 <= j < i && j < k - 1 && log[i] in Neighbors(log[j]);
        assert log1[i] == log[i] && log1[j] == log[j];
      } else {
        assert log1[i] == added[i - |log|];
        assert log1[i] in added;
        assert log1[k - 1] == cur;
      }
    }
  }

  /** The board after an iteration shows the neighbours of one more
      dequeued tile clicked. */
  lemma StepResult(g0: Grid, g: Grid, g1: Grid, done: seq<Pos>, cur: Pos)
    requires FloodResult(g0, g, done) && Expanded(g, g1, cur)
    ensures FloodResult(g0, g1, done + [cur])
  {
    forall p | InBounds(p)
      ensures At(g1, p) == if Touched(done + [cur], p) then At(g0, p).(state := Clicked) else At(g0, p)
    {
      TouchedAppend(done, cur, p);
    }
  }

  /** A tile appended to the queue was queueable at the start and untouched
      so far, and it is now Clicked. */
  lemma AddedFresh(g0: Grid, g: Grid, g1: Grid, done: seq<Pos>, cur: Pos, p: Pos)
    requires FloodResult(g0, g, done) && Expanded(g, g1, cur)
    requires p in Queueable(g, Neighbors(cur))
    ensures InBounds(p) && Expandable(g0, p) && !Touched(done, p) && At(g1, p).state == Clicked
  {
    assert At(g, p).state == Default;
  }

  /** The appended tiles repeat neither each other nor an earlier queued
      tile, since those are all Clicked already. */
  lemma StepDistinct(g0: Grid, g: Grid, g1: Grid, done: seq<Pos>, cur: Pos, log: seq<Pos>, added: seq<Pos>)
    requires FloodResult(g0, g, done) && Expanded(g, g1, cur)
    requires |log| > 0 && Distinct(log[1..])
    requires forall i :: 1 <= i < |log| ==> InBounds(log[i]) && At(g, log[i]).state == Clicked
    requires added == Queueable(g, Neighbors(cur))
    ensures Distinct((log + added)[1..])
  {
    var log1 := log + added;
    forall i, j | 1 <= i < j < |log1| ensures log1[i] != log1[j] {
      if j >= |log| {
        assert log1[j] == added[j - |log|];
        assert log1[j] in added;
        if i < |log| {
          assert log1[i] == log[i];
          assert At(g, log1[j]).state == Default;
        } else {
          assert log1[i] == added[i - |log|];
        }
      } else {
        assert log1[i] == log[i] && log1[j] == log[j];
        assert log[1..][i - 1] == log[i] && log[1..][j - 1] == log[j];
      }
    }
  }

  /** Each appended tile stops being Default, so the Default tiles drop by
      at least as many as were appended. */
  lemma DefaultsDrop(g: Grid, g1: Grid, c: Pos, added: seq<Pos>)
    requires Expanded(g, g1, c) && added == Queueable(g, Neighbors(c))
    ensures CountTiles(g1, IsDefault) + |added| <= CountTiles(g, IsDefault)
  {
    var before, after := Where(g, IsDefault), Where(g1, IsDefault);
    assert after <= before;
    forall i | 0 <= i < |added| ensures added[i] in before - after {
      assert added[i] in added;
    }
    DistinctInSet(added, before - after);
    assert before == (before - after) + after;
  }

  /** The flood ends when the queue is empty: the dequeued tiles form a
      complete run and the board shows exactly their neighbours clicked. */
  lemma FloodEnd(g0: Grid, g: Grid, start: Pos, done: seq<Pos>)
    requires FloodState(g0, g, start, done, [])
    ensures FloodRun(g0, start, done) && FloodResult(g0, g, done)
  {
    assert done + [] == done;
    forall i, n | 0 <= i < |done| && n in Neighbors(done[i]) && Expandable(g0, n)
      ensures n in done
    {
      assert Touched(done, n);
    }
  }

  /** A path from start through queueable tiles, each adjacent to the one
      before it. */
  ghost predicate ZeroPath(g: Grid, start: Pos, path: seq<Pos>) {
    && |path| > 0 && path[0] == start
    && forall i :: 1 <= i < |path| ==> path[i] in Neighbors(path[i - 1]) && Expandable(g, path[i])
  }

  /** Every tile on such a path is dequeued by the flood, after the start
      unless the path is the start alone. */
  lemma {:induction false} ZeroPathInFlood(g0: Grid, start: Pos, done: seq<Pos>, path: seq<Pos>)
    requires FloodRun(g0, start, done) && ZeroPath(g0, start, path)
    ensures path[|path| - 1] in done
    ensures |path| > 1 ==> path[|path| - 1] in done[1..]
  {
    if |path| > 1 {
      var prefix := path[..|path| - 1];
      assert ZeroPath(g0, start, prefix);
      ZeroPathInFlood(g0, start, done, prefix);
      var j :| 0 <= j < |done| && done[j] == prefix[|prefix| - 1];
      assert path[|path| - 1] in Neighbors(done[j]);
      assert done == [done[0]] + done[1..];
    }
  }

  /** The tiles the flood queues: those at the end of a path of two or more
      tiles from start through queueable tiles. */
  ghost predicate ZeroReachable(g: Grid, start: Pos, p: Pos) {
    exists path :: ZeroPath(g, start, path) && |path| > 1 && path[|path| - 1] == p
  }

  /** Each tile dequeued after the start ends a path from the start through
      queueable tiles: follow back the tiles that queued it. */
  lemma {:induction false} InFloodReachable(g0: Grid, start: Pos, done: seq<Pos>, i: int)
    requires FloodRun(g0, start, done) && 1 <= i < |done|
    ensures ZeroReachable(g0, start, done[i])
    decreases i
  {
    assert QueuedBy(done, i, |done|);
    var j :| 0 <= j < i && done[i] in Neighbors(done[j]);
    if j == 0 {
      assert ZeroPath(g0, start, [start, done[i]]);
    } else {
      InFloodReachable(g0, start, done, j);
      var path :| ZeroPath(g0, start, path) && |path| > 1 && path[|path| - 1] == done[j];
      var path' := path + [done[i]];
      assert path'[..|path|] == path;
      assert ZeroPath(g0, start, path');
    }
  }

  /** The flood queues exactly the tiles reachable from the start through
      queueable tiles: done[1..] is that set, whatever order it has. */
  lemma FloodQueuesReachable(g0: Grid, start: Pos, done: seq<Pos>, p: Pos)
    requires FloodRun(g0, start, done)
    ensures p in done[1..] <==> ZeroReachable(g0, start, p)
  {
    if p in done[1..] {
      var k :| 0 <= k < |done| - 1 && done[1..][k] == p;
      InFloodReachable(g0, start, done, k + 1);
    }
    if ZeroReachable(g0, start, p) {
      var path :| ZeroPath(g0, start, path) && |path| > 1 && path[|path| - 1] == p;
      ZeroPathInFlood(g0, start, done, path);
    }
  }

  /** Only which tiles were dequeued matters to the tiles a flood writes. */
  lemma TouchedBySubset(d1: seq<Pos>, d2: seq<Pos>, p: Pos)
    requires forall q {:trigger q in d1} :: q in d1 ==> q in d2
    ensures Touched(d1, p) ==> Touched(d2, p)
  {
    if Touched(d1, p) {
      var i :| 0 <= i < |d1| && p in Neighbors(d1[i]);
      assert d1[i] in d1;
      var j :| 0 <= j < |d2| && d2[j] == d1[i];
    }
  }

  lemma {:induction false} NeighbourTotalConcat(a: seq<Pos>, b: seq<Pos>)
    ensures NeighbourTotal(a + b) == NeighbourTotal(a) + NeighbourTotal(b)
    decreases |b|
  {
    if b == [] {
      assert a + b == a;
    } else {
      NeighbourTotalConcat(a, b[..|b| - 1]);
      assert (a + b)[..|a + b| - 1] == a + b[..|b| - 1];
    }
  }

  /** The total does not depend on the order of the dequeued tiles. */
  lemma {:induction false} NeighbourTotalPermutation(a: seq<Pos>, b: seq<Pos>)
    requires multiset(a) == multiset(b)
    ensures NeighbourTotal(a) == NeighbourTotal(b)
    decreases |a|
  {
    if a == [] {
      assert |b| == |multiset(b)| == 0;
    } else {
      var x, a' := a[|a| - 1], a[..|a| - 1];
      assert a == a' + [x];
      assert x in multiset(b);
      var k :| 0 <= k < |b| && b[k] == x;
      var front, back := b[..k], b[k + 1..];
      assert b == front + ([x] + back);
      Cancel(a', x, front, back);
      NeighbourTotalPermutation(a', front + back);
      NeighbourTotalConcat(front, [x] + back);
      NeighbourTotalConcat([x], back);
      NeighbourTotalConcat(front, back);
    }
  }

  lemma Cancel(a: seq<Pos>, x: Pos, front: seq<Pos>, back: seq<Pos>)
    requires multiset(a + [x]) == multiset(front + ([x] + back))
    ensures multiset(a) == multiset(front + back)
  {
    var m, n := multiset(a + [x]), multiset(front + ([x] + back));
    assert m == multiset(a) + multiset{x};
    assert n == multiset(front) + multiset{x} + multiset(back);
    assert multiset(front + back) == multiset(front) + multiset(back);
    forall p ensures multiset(a)[p] == multiset(front + back)[p] {
      assert m[p] == n[p];
    }
  }

  lemma {:induction false} DistinctMultiset(s: seq<Pos>, p: Pos)
    requires Distinct(s)
    ensures multiset(s)[p] == if p in s then 1 else 0
  {
    if s != [] {
      assert s == [s[0]] + s[1..];
      assert Distinct(s[1..]) && s[0] !in s[1..];
      DistinctMultiset(s[1..], p);
    }
  }

  /** Two runs of the flood from the same start over the same board dequeue
      the same tiles. */
  lemma RunsDequeueSame(g0: Grid, start: Pos, d1: seq<Pos>, d2: seq<Pos>)
    requires FloodRun(g0, start, d1) && FloodRun(g0, start, d2)
    ensures forall q {:trigger q in d1} {:trigger q in d2} :: q in d1 <==> q in d2
    ensures multiset(d1[1..]) == multiset(d2[1..])
  {
    var q1, q2 := d1[1..], d2[1..];
    assert d1 == [start] + q1 && d2 == [start] + q2;
    forall p ensures p in q1 <==> p in q2 {
      FloodQueuesReachable(g0, start, d1, p);
      FloodQueuesReachable(g0, start, d2, p);
    }
    forall p ensures multiset(q1)[p] == multiset(q2)[p] {
      DistinctMultiset(q1, p);
      DistinctMultiset(q2, p);
    }
  }

  /** Two runs of the flood from the same start over the same board queue
      the same tiles, perhaps in another order: they leave the same board
      and add the same amount to clickedCount. */
  lemma FloodRunsAgree(g0: Grid, start: Pos, d1: seq<Pos>, d2: seq<Pos>, g1: Grid, g2: Grid)
    requires FloodRun(g0, start, d1) && FloodRun(g0, start, d2)
    requires FloodResult(g0, g1, d1) && FloodResult(g0, g2, d2)
    ensures g1 == g2
    ensures NeighbourTotal(d1) == NeighbourTotal(d2)
  {
    RunsDequeueSame(g0, start, d1, d2);
    NeighbourTotalPermutation(d1[1..], d2[1..]);
    assert d1 == [start] + d1[1..] && d2 == [start] + d2[1..];
    NeighbourTotalConcat([start], d1[1..]);
    NeighbourTotalConcat([start], d2[1..]);
    forall x | 0 <= x < SIZE_X ensures g1[x] == g2[x] {
      forall y | 0 <= y < SIZE_Y ensures g1[x][y] == g2[x][y] {
        TouchedBySubset(d1, d2, Pos(x, y));
        TouchedBySubset(d2, d1, Pos(x, y));
        assert At(g1, Pos(x, y)) == At(g2, Pos(x, y));
      }
    }
  }

  /** Flood-fill completeness: every tile reachable from the start through
      queueable tiles ends Clicked (except the start itself), and so does
      every neighbour of it. */
  lemma FloodClicksZeroRegion(g0: Grid, g1: Grid, start: Pos, done: seq<Pos>, path: seq<Pos>)
    requires FloodRun(g0, start, done) && FloodResult(g0, g1, done) && ZeroPath(g0, start, path)
    ensures forall n :: n in Neighbors(path[|path| - 1]) ==> At(g1, n).state == Clicked
    ensures |path| > 1 ==> At(g1, path[|path| - 1]).state == Clicked
  {
    var last := path[|path| - 1];
    ZeroPathInFlood(g0, start, done, path);
    var j :| 0 <= j < |done| && done[j] == last;
    forall n | n in Neighbors(last) ensures At(g1, n).state == Clicked {
      assert Touched(done, n);
    }
    if |path| > 1 {
      assert last in Neighbors(path[|path| - 2]);
      var prev := path[..|path| - 1];
      assert ZeroPath(g0, start, prev);
      ZeroPathInFlood(g0, start, done, prev);
      var k :| 0 <= k < |done| && done[k] == prev[|prev| - 1];
      assert Touched(done, last);
    }
  }

  /** A flood started on a tile with no mine around it never touches a
      mine. */
  lemma FloodSparesMines(layout: Layout, g0: Grid, g1: Grid, start: Pos, done: seq<Pos>)
    requires MatchesLayout(g0, layout)
    requires FloodRun(g0, start, done) && FloodResult(g0, g1, done)
    requires At(g0, start).mines == 0
    ensures forall p {:trigger At(g1, p)} :: InBounds(p) && At(g0, p).isMine ==> At(g1, p) == At(g0, p)
  {
    forall p | InBounds(p) && At(g0, p).isMine ensures At(g1, p) == At(g0, p) {
      UntouchedMine(layout, g0, start, done, p);
    }
  }

  lemma UntouchedMine(layout: Layout, g0: Grid, start: Pos, done: seq<Pos>, p: Pos)
    requires MatchesLayout(g0, layout) && FloodRun(g0, start, done)
    requires At(g0, start).mines == 0
    requires InBounds(p) && At(g0, p).isMine
    ensures !Touched(done, p)
  {
    MatchesLayoutAt(g0, layout, p);
    if Touched(done, p) {
      var i :| 0 <= i < |done| && p in Neighbors(done[i]);
      var d := done[i];
      assert i == 0 || Expandable(g0, d);
      MatchesLayoutAt(g0, layout, d);
      NoMineBesideZero(layout, d, p);
    }
  }

  /** The flood clicks a Flagged tile without touching flagCount, so once
      it reaches a flag the Flagged tiles number fewer than before. */
  lemma FloodDropsFlags(g0: Grid, g1: Grid, done: seq<Pos>, p: Pos)
    requires FloodResult(g0, g1, done) && InBounds(p)
    requires Touched(done, p) && At(g0, p).state == Flagged
    ensures CountTiles(g1, IsFlagged) < CountTiles(g0, IsFlagged)
  {
    var before, after := Where(g0, IsFlagged), Where(g1, IsFlagged);
    assert after <= before - {p};
    RemoveOne(before, p);
    assert before - {p} == after + ((before - {p}) - after);
  }

  /** g is g0 after a click on tile p that flooded over done (done is
      empty when no flood ran): p is Clicked, and every other tile shows
      the flood's result. */
  ghost predicate Revealed(g0: Grid, g: Grid, p: Pos, done: seq<Pos>) {
    && IsGrid(g0) && IsGrid(g) && InBounds(p)
    && At(g, p) == At(g0, p).(state := Clicked)
    && forall q {:trigger At(g, q)} :: InBounds(q) && q != p ==>
         At(g, q) == if Touched(done, q) then At(g0, q).(state := Clicked) else At(g0, q)
  }

  lemma RevealAfterFlood(g0: Grid, g1: Grid, p: Pos, done: seq<Pos>)
    requires FloodResult(g0, g1, done) && InBounds(p)
    ensures Revealed(g0, Update(g1, p, At(g0, p).(state := Clicked)), p, done)
  {
  }

  /** A click changes a tile only by setting it Clicked. */
  lemma RevealOnlyClicks(g0: Grid, g: Grid, p: Pos, done: seq<Pos>)
    requires Revealed(g0, g, p, done)
    ensures forall q {:trigger At(g, q)} :: InBounds(q) ==>
              At(g, q) == At(g0, q) || At(g, q) == At(g0, q).(state := Clicked)
  {
  }

  /** A click on a tile without a mine leaves every mine as it was: the
      flood runs only from a tile with count 0, and such a flood never
      reaches a mine. */
  lemma ClickSparesMines(layout: Layout, g0: Grid, g: Grid, p: Pos, done: seq<Pos>)
    requires MatchesLayout(g0, layout) && InBounds(p) && !At(g0, p).isMine
    requires if At(g0, p).mines == 0 then FloodRun(g0, p, done) else done == []
    requires Revealed(g0, g, p, done)
    ensures forall q {:trigger At(g, q)} :: InBounds(q) && At(g0, q).isMine ==> At(g, q) == At(g0, q)
  {
    forall q | InBounds(q) && At(g0, q).isMine ensures At(g, q) == At(g0, q) {
      if done != [] {
        UntouchedMine(layout, g0, p, done, q);
      }
    }
  }

  /** The second tile dequeued is a queueable neighbour of the start. */
  lemma SecondDequeued(g0: Grid, start: Pos, done: seq<Pos>)
    requires FloodRun(g0, start, done) && |done| > 1
    ensures done[1] in Neighbors(start) && Expandable(g0, done[1])
  {
    assert QueuedBy(done, 1, |done|);
  }

  /** Clicking again on a tile whose neighbours are all Clicked re-runs the
      flood from it: nothing is queued and no tile changes, yet
      clickedCount grows by the number of its neighbours. */
  lemma RefloodRevealsNothing(g0: Grid, g1: Grid, start: Pos, done: seq<Pos>)
    requires FloodRun(g0, start, done) && FloodResult(g0, g1, done)
    requires forall n :: n in Neighbors(start) ==> At(g0, n).state == Clicked
    ensures done == [start]
    ensures g1 == g0
    ensures 0 < NeighbourTotal(done) == |Neighbors(start)| <= 8
  {
    if |done| > 1 {
      SecondDequeued(g0, start, done);
      assert false;
    }
    assert done == [start];
    forall x | 0 <= x < SIZE_X ensures g1[x] == g0[x] {
      forall y | 0 <= y < SIZE_Y ensures g1[x][y] == g0[x][y] {
        assert At(g1, Pos(x, y)) == At(g0, Pos(x, y)) by {
          if Touched(done, Pos(x, y)) {
            assert Pos(x, y) in Neighbors(done[0]);
          }
        }
      }
    }
    assert Pos(if start.x == 0 then 1 else start.x - 1, start.y) in Neighbors(start);
    assert NeighbourTotal(done) == |Neighbors(start)|;
  }
}
