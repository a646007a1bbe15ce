/** GameWindow, the game itself: the grid of GameTile objects, mine placement
    and counting, reveal with flood fill, flags, win and loss, pause, the
    mine counter and the timer, and the dispatch of mouse presses. Windows,
    sprites and textures are not modelled; the random generator is replaced
    by a sequence of draws and the clock by readings passed in. */
module Game {
  import opened Tile
  import opened Board
  import Digits

  /** sf::Time counts microseconds. */
  const TicksPerSecond: int := 1000000

  /** One operation of GameTile, applied to a single tile. */
  datatype TileOp = RevealOp | FlagOp | RevealMineAfterLossOp
                  | SetMineOp(mineStatus: bool) | SetAdjacentOp(count: int)
                  | SaveOp | RestoreOp

  function Apply(t: TileState, op: TileOp): TileState {
    match op
    case RevealOp => t.Reveal()
    case FlagOp => t.Flag()
    case RevealMineAfterLossOp => t.RevealMineAfterLoss()
    case SetMineOp(b) => t.(isMine := b)
    case SetAdjacentOp(n) => t.(adjacentMines := n)
    case SaveOp => t.SavePauseState()
    case RestoreOp => t.RestorePauseState()
  }

  /** Which tiles a whole-board loop acts on. */
  datatype Selection = EveryTile | Mines | UnflaggedMines

  predicate Selected(sel: Selection, t: TileState) {
    match sel
    case EveryTile => true
    case Mines => t.isMine
    case UnflaggedMines => t.isMine && !t.isFlagged
  }

  /** What a whole-board loop does to one tile. */
  function Treated(t: TileState, op: TileOp, sel: Selection): TileState {
    if Selected(sel, t) then Apply(t, op) else t
  }

  /** The tile at p after calculateAdjacentMines: a mine-free tile takes the
      number of mines around it in g, a mine is left alone. */
  function Counted(g: Grid, rows: int, cols: int, p: Pos): (t: TileState)
    requires Shaped(g, rows, cols) && InGrid(rows, cols, p)
    ensures t.isMine == At(g, p).isMine && t.revealed == At(g, p).revealed
    ensures t.isFlagged == At(g, p).isFlagged
    ensures !t.isMine ==> t.adjacentMines == MinesAround(g, rows, cols, p)
    ensures t.isMine ==> t == At(g, p)
  {
    if At(g, p).isMine then At(g, p)
    else At(g, p).(adjacentMines := MinesAround(g, rows, cols, p))
  }

  /** Whole seconds of play: the time banked before the last pause plus the
      running clock, truncated as static_cast<int> does. */
  function PlaySeconds(elapsedBeforePause: int, clockStart: int, now: int): (s: int)
    requires elapsedBeforePause >= 0 && now >= clockStart
    ensures s >= 0
    ensures s * TicksPerSecond <= elapsedBeforePause + (now - clockStart) < (s + 1) * TicksPerSecond
  {
    (elapsedBeforePause + (now - clockStart)) / TicksPerSecond
  }

  /** checkWin's scan: no hidden tile is free of mines. */
  predicate AllSafeRevealed(g: Grid, rows: int, cols: int)
    requires Shaped(g, rows, cols)
  {
    forall r, c :: 0 <= r < rows && 0 <= c < cols ==> g[r][c].revealed || g[r][c].isMine
  }

  /** Stored counts, current and saved, are never negative. */
  predicate NonNegativeCounts(g: Grid, rows: int, cols: int)
    requires Shaped(g, rows, cols)
  {
    forall r, c :: 0 <= r < rows && 0 <= c < cols ==> g[r][c].adjacentMines >= 0 && g[r][c].pausedAdjacentMines >= 0
  }

  /** g1 differs from g0 only in tiles that have become revealed. */
  predicate OnlyRevealedGrows(g0: Grid, g1: Grid, rows: int, cols: int)
    requires Shaped(g0, rows, cols) && Shaped(g1, rows, cols)
  {
    forall r, c :: 0 <= r < rows && 0 <= c < cols ==>
      g1[r][c] == g0[r][c].(revealed := g1[r][c].revealed) && (g0[r][c].revealed ==> g1[r][c].revealed)
  }

  /** What revealTile uncovers in a hidden, unflagged, mine-free tile p of g0:
      p alone when it has a mine next to it, its flood region otherwise. */
  ghost predicate Uncovers(g0: Grid, g1: Grid, rows: int, cols: int, p: Pos)
    requires Shaped(g0, rows, cols) && Shaped(g1, rows, cols) && InGrid(rows, cols, p)
  {
    && OnlyRevealedGrows(g0, g1, rows, cols)
    && if At(g0, p).adjacentMines > 0 then Newly(g0, g1, rows, cols) == {p}
       else FloodRegion(g0, rows, cols, p, Newly(g0, g1, rows, cols))
  }

  /** Revealing a single hidden, unflagged tile uncovers exactly that tile. */
  lemma RevealOne(g0: Grid, rows: int, cols: int, p: Pos)
    requires Shaped(g0, rows, cols) && InGrid(rows, cols, p)
    requires !At(g0, p).revealed && !At(g0, p).isFlagged
    ensures var g1 := Update(g0, p, At(g0, p).Reveal());
            Shaped(g1, rows, cols) && OnlyRevealedGrows(g0, g1, rows, cols) && Newly(g0, g1, rows, cols) == {p}
  {
    var g1 := Update(g0, p, At(g0, p).Reveal());
    forall q | q in Newly(g0, g1, rows, cols)
      ensures q == p
    {
    }
    assert p in Newly(g0, g1, rows, cols) by {
      assert g1[p.0][p.1].revealed && !g0[p.0][p.1].revealed;
    }
  }

  /** No mine is uncovered, and none is recorded as uncovered in a pause snapshot. */
  predicate NoMineUncovered(g: Grid) {
    forall r, c :: 0 <= r < |g| && 0 <= c < |g[r]| && g[r][c].isMine ==> !g[r][c].revealed && !g[r][c].pauseWasRevealed
  }

  /** Every mine carries a flag. */
  predicate AllMinesFlagged(g: Grid) {
    forall r, c :: 0 <= r < |g| && 0 <= c < |g[r]| && g[r][c].isMine ==> g[r][c].isFlagged
  }

  /** Uncovering a safe tile, or its flood region, uncovers no mine. */
  lemma UncoverKeepsMinesCovered(g0: Grid, g1: Grid, rows: int, cols: int, p: Pos)
    requires Shaped(g0, rows, cols) && Shaped(g1, rows, cols) && InGrid(rows, cols, p)
    requires Eligible(g0, rows, cols, p) && Uncovers(g0, g1, rows, cols, p) && NoMineUncovered(g0)
    ensures NoMineUncovered(g1)
  {
    var newly := Newly(g0, g1, rows, cols);
    assert forall q :: q in newly ==> Eligible(g0, rows, cols, q) by {
      if At(g0, p).adjacentMines <= 0 {
        FloodRegionEligible(g0, rows, cols, p, newly);
      }
    }
    forall r, c | 0 <= r < rows && 0 <= c < cols && g1[r][c].isMine
      ensures !g1[r][c].revealed && !g1[r][c].pauseWasRevealed
    {
      assert g1[r][c] == g0[r][c].(revealed := g1[r][c].revealed);
      assert (r, c) !in newly;
    }
  }

  /** Replacing a tile by one with the same mine, revealed and snapshot
      fields keeps every mine covered. */
  lemma UpdateKeepsCovered(g: Grid, p: Pos, t: TileState)
    requires 0 <= p.0 < |g| && 0 <= p.1 < |g[p.0]| && NoMineUncovered(g)
    requires t.isMine == At(g, p).isMine && t.revealed == At(g, p).revealed
    requires t.pauseWasRevealed == At(g, p).pauseWasRevealed
    ensures NoMineUncovered(Update(g, p, t))
  {
  }

  /** The win flags every unflagged mine; as no mine was uncovered, each one
      takes the flag, so every mine ends flagged. */
  lemma WinFlagsEveryMine(g0: Grid, g1: Grid, rows: int, cols: int)
    requires Shaped(g0, rows, cols) && Shaped(g1, rows, cols) && NoMineUncovered(g0)
    requires forall r, c :: 0 <= r < rows && 0 <= c < cols ==> g1[r][c] == Treated(g0[r][c], FlagOp, UnflaggedMines)
    ensures AllMinesFlagged(g1)
  {
    forall r, c | 0 <= r < rows && 0 <= c < cols && g1[r][c].isMine
      ensures g1[r][c].isFlagged
    {
      assert g1[r][c] == Treated(g0[r][c], FlagOp, UnflaggedMines);
    }
  }

  /** The drawing loop of placeMines as a function of the draws: the grid
      after them and how many mines were still to place when they ran out. */
  function DrawAll(g: Grid, rows: int, cols: int, draws: seq<Pos>, toPlace: int): (Grid, int)
    requires Shaped(g, rows, cols)
    requires forall k :: 0 <= k < |draws| ==> InGrid(rows, cols, draws[k])
    decreases |draws|
  {
    if toPlace <= 0 || draws == [] then (g, toPlace)
    else
      var p := draws[0];
      assert InGrid(rows, cols, p);
      if At(g, p).isMine then DrawAll(g, rows, cols, draws[1..], toPlace)
      else DrawAll(Update(g, p, At(g, p).(isMine := true)), rows, cols, draws[1..], toPlace - 1)
  }

  /** Each placed mine lands on a cell that had none, so the mine count grows by
      exactly the number placed; a non-positive mine setting places nothing. */
  lemma {:induction false} DrawAllCount(g: Grid, rows: int, cols: int, draws: seq<Pos>, toPlace: int)
    requires Shaped(g, rows, cols)
    requires forall k :: 0 <= k < |draws| ==> InGrid(rows, cols, draws[k])
    ensures var (h, missing) := DrawAll(g, rows, cols, draws, toPlace);
            && Shaped(h, rows, cols)
            && (toPlace <= 0 ==> h == g && missing == toPlace)
            && (toPlace > 0 ==> 0 <= missing <= toPlace
                                && CountGrid(h, IsMine) == CountGrid(g, IsMine) + (toPlace - missing))
    decreases |draws|
  {
    if toPlace > 0 && draws != [] {
      var p := draws[0];
      if At(g, p).isMine {
        DrawAllCount(g, rows, cols, draws[1..], toPlace);
      } else {
        var g1 := Update(g, p, At(g, p).(isMine := true));
        CountGridUpdate(g, p, At(g, p).(isMine := true), IsMine);
        DrawAllCount(g1, rows, cols, draws[1..], toPlace - 1);
      }
    }
  }

  /** Drawing only sets isMine, only on drawn cells, and when mines are still
      missing every drawn cell holds one. */
  lemma {:induction false} DrawAllOnlyMines(g: Grid, rows: int, cols: int, draws: seq<Pos>, toPlace: int)
    requires Shaped(g, rows, cols)
    requires forall k :: 0 <= k < |draws| ==> InGrid(rows, cols, draws[k])
    ensures var (h, missing) := DrawAll(g, rows, cols, draws, toPlace);
            && Shaped(h, rows, cols)
            && (forall r, c :: 0 <= r < rows && 0 <= c < cols ==> h[r][c] == g[r][c].(isMine := h[r][c].isMine))
            && (forall r, c :: 0 <= r < rows && 0 <= c < cols && g[r][c].isMine ==> h[r][c].isMine)
            && (forall r, c :: 0 <= r < rows && 0 <= c < cols && h[r][c].isMine && !g[r][c].isMine ==> (r, c) in draws)
    decreases |draws|
  {
    if toPlace > 0 && draws != [] {
      var p := draws[0];
      var g1 := if At(g, p).isMine then g else Update(g, p, At(g, p).(isMine := true));
      var toPlace1 := if At(g, p).isMine then toPlace else toPlace - 1;
      DrawAllOnlyMines(g1, rows, cols, draws[1..], toPlace1);
      var (h, missing) := DrawAll(g, rows, cols, draws, toPlace);
      assert (h, missing) == DrawAll(g1, rows, cols, draws[1..], toPlace1);
      forall r, c | 0 <= r < rows && 0 <= c < cols && h[r][c].isMine && !g[r][c].isMine
        ensures (r, c) in draws
      {
        if (r, c) != p {
          assert (r, c) in draws[1..];
        }
      }
    }
  }

  /** When the draws run out before all mines are placed, every drawn cell holds a mine. */
  lemma {:induction false} DrawAllExhausted(g: Grid, rows: int, cols: int, draws: seq<Pos>, toPlace: int)
    requires Shaped(g, rows, cols)
    requires forall k :: 0 <= k < |draws| ==> InGrid(rows, cols, draws[k])
    ensures var (h, missing) := DrawAll(g, rows, cols, draws, toPlace);
            Shaped(h, rows, cols) && (missing > 0 ==> forall k :: 0 <= k < |draws| ==> At(h, draws[k]).isMine)
    decreases |draws|
  {
    DrawAllCount(g, rows, cols, draws, toPlace);
    if toPlace > 0 && draws != [] {
      var p := draws[0];
      var g1 := if At(g, p).isMine then g else Update(g, p, At(g, p).(isMine := true));
      var toPlace1 := if At(g, p).isMine then toPlace else toPlace - 1;
      DrawAllExhausted(g1, rows, cols, draws[1..], toPlace1);
      DrawAllOnlyMines(g1, rows, cols, draws[1..], toPlace1);
      var (h, missing) := DrawAll(g, rows, cols, draws, toPlace);
      assert (h, missing) == DrawAll(g1, rows, cols, draws[1..], toPlace1);
      if missing > 0 {
        DrawAllCount(g1, rows, cols, draws[1..], toPlace1);
        forall k | 0 <= k < |draws|
          ensures At(h, draws[k]).isMine
        {
          if k > 0 {
            assert draws[k] == draws[1..][k - 1];
          }
        }
      }
    }
  }

  /** If the draws cover the whole board and every drawn cell holds a mine, the
      board is all mines; so on an empty board with at most rows * cols mines
      to place, draws that visit every cell leave none missing. */
  lemma DrawsCoverBoard(g: Grid, rows: nat, cols: nat, draws: seq<Pos>)
    requires Shaped(g, rows, cols)
    requires forall r, c :: 0 <= r < rows && 0 <= c < cols ==> (r, c) in draws
    requires forall k :: 0 <= k < |draws| ==> InGrid(rows, cols, draws[k]) && At(g, draws[k]).isMine
    ensures CountGrid(g, IsMine) == rows * cols
  {
    forall r, c | 0 <= r < rows && 0 <= c < cols
      ensures IsMine(g[r][c])
    {
      assert (r, c) in draws;
      var k :| 0 <= k < |draws| && draws[k] == (r, c);
      assert At(g, draws[k]).isMine;
    }
    CountGridAll(g, rows, cols, IsMine);
  }

  /** A board just filled by placeMines from fresh tiles: nothing revealed or
      flagged, mines only on drawn cells, every count correct, and as many
      mines as the setting asks for less the ones still missing when the
      draws ran out. */
  ghost predicate Laid(g: Grid, rows: int, cols: int, mines: int, draws: seq<Pos>, missing: int)
    requires Shaped(g, rows, cols)
  {
    && (forall r, c :: 0 <= r < rows && 0 <= c < cols ==>
          !g[r][c].revealed && !g[r][c].isFlagged && (g[r][c].isMine ==> (r, c) in draws))
    && CountsCorrect(g, rows, cols)
    && (if mines > 0 then 0 <= missing <= mines else missing == mines)
    && CountGrid(g, IsMine) == (if mines > 0 then mines - missing else 0)
    && (missing > 0 ==> forall k :: 0 <= k < |draws| ==> MineAt(g, draws[k]))
  }

  /** With a mine setting between 1 and rows * cols and draws that visit every
      cell, placeMines lays exactly `mines` mines: if any were missing, every
      cell would hold one, which is more than were placed. */
  lemma LaidExactly(g: Grid, rows: nat, cols: nat, mines: int, draws: seq<Pos>, missing: int)
    requires Shaped(g, rows, cols) && Laid(g, rows, cols, mines, draws, missing)
    requires forall k :: 0 <= k < |draws| ==> InGrid(rows, cols, draws[k])
    ensures 0 < mines <= rows * cols && (forall r, c :: 0 <= r < rows && 0 <= c < cols ==> (r, c) in draws) ==>
              missing == 0 && CountGrid(g, IsMine) == mines
  {
    if 0 < mines <= rows * cols && (forall r, c :: 0 <= r < rows && 0 <= c < cols ==> (r, c) in draws) && missing > 0 {
      DrawsCoverBoard(g, rows, cols, draws);
    }
  }

  /** A setting above rows * cols can never be met: at least mines - rows * cols
      mines stay missing however many cells are drawn, which is where the
      source's placement loop would never end. */
  lemma LaidOverfull(g: Grid, rows: nat, cols: nat, mines: int, draws: seq<Pos>, missing: int)
    requires Shaped(g, rows, cols) && Laid(g, rows, cols, mines, draws, missing)
    ensures mines > rows * cols ==> missing >= mines - rows * cols > 0
  {
    CountGridAtMost(g, rows, cols, IsMine);
  }

  /** What revealTile's queue loop knows part-way through, g0 being the grid
      before the flood and g the current one: the newly revealed cells are
      exactly the reveal order (each adjacent to an earlier zero-count cell),
      every zero-count cell among them has been queued exactly once, and the
      first `head` queued cells have had all their eligible neighbours revealed. */
  ghost predicate FloodState(g0: Grid, g: Grid, rows: int, cols: int, start: Pos,
                             order: seq<Pos>, parent: seq<int>, enqueued: seq<Pos>, head: int)
    requires Shaped(g0, rows, cols) && Shaped(g, rows, cols)
  {
    && OnlyRevealedGrows(g0, g, rows, cols)
    && RevealOrder(g0, rows, cols, start, order, parent)
    && (forall k :: 0 <= k < |order| ==> InGrid(rows, cols, order[k]))
    && (forall r, c :: 0 <= r < rows && 0 <= c < cols ==>
          ((r, c) in order <==> g[r][c].revealed && !g0[r][c].revealed))
    && 0 <= head <= |enqueued|
    && (forall i, j :: 0 <= i < j < |enqueued| ==> enqueued[i] != enqueued[j])
    && (forall q :: q in enqueued <==> q in order && Spreads(g0, rows, cols, q))
    && (forall i, y :: 0 <= i < head && Adjacent(enqueued[i], y) && Eligible(g0, rows, cols, y) ==> y in order)
  }

  /** The flood starts with the clicked tile revealed and queued. */
  lemma FloodStart(g0: Grid, rows: int, cols: int, start: Pos)
    requires Shaped(g0, rows, cols)
    requires Eligible(g0, rows, cols, start) && Spreads(g0, rows, cols, start)
    ensures var g := Update(g0, start, At(g0, start).Reveal());
            && Shaped(g, rows, cols)
            && FloodState(g0, g, rows, cols, start, [start], [-1], [start], 0)
  {
  }

  /** A reveal order stays one when an eligible neighbour of a zero-count cell in it is appended. */
  lemma RevealOrderExtend(g0: Grid, rows: int, cols: int, start: Pos,
                          order: seq<Pos>, parent: seq<int>, pi: int, q: Pos)
    requires Shaped(g0, rows, cols) && RevealOrder(g0, rows, cols, start, order, parent)
    requires 0 <= pi < |order| && Spreads(g0, rows, cols, order[pi])
    requires Adjacent(order[pi], q) && Eligible(g0, rows, cols, q)
    ensures RevealOrder(g0, rows, cols, start, order + [q], parent + [pi])
  {
    var o1, p1 := order + [q], parent + [pi];
    forall k | 0 < k < |o1|
      ensures && 0 <= p1[k] < k
              && Spreads(g0, rows, cols, o1[p1[k]])
              && Adjacent(o1[p1[k]], o1[k])
              && Eligible(g0, rows, cols, o1[k])
    {
      if k < |order| {
        assert o1[k] == order[k] && p1[k] == parent[k] && o1[parent[k]] == order[parent[k]];
      }
    }
  }

  /** Revealing one eligible neighbour q of an already revealed zero-count cell
      keeps the queue loop's invariant; q is queued iff it has no adjacent mine. */
  lemma FloodStep(g0: Grid, g: Grid, rows: int, cols: int, start: Pos,
                  order: seq<Pos>, parent: seq<int>, enqueued: seq<Pos>, head: int, pi: int, q: Pos)
    requires Shaped(g0, rows, cols) && Shaped(g, rows, cols)
    requires FloodState(g0, g, rows, cols, start, order, parent, enqueued, head)
    requires 0 <= pi < |order| && Spreads(g0, rows, cols, order[pi])
    requires InGrid(rows, cols, q) && Adjacent(order[pi], q)
    requires !At(g, q).revealed && !At(g, q).isMine && !At(g, q).isFlagged
    ensures Shaped(Update(g, q, At(g, q).Reveal()), rows, cols)
    ensures At(g, q).adjacentMines == 0 ==>
              FloodState(g0, Update(g, q, At(g, q).Reveal()), rows, cols, start,
                         order + [q], parent + [pi], enqueued + [q], head)
    ensures At(g, q).adjacentMines != 0 ==>
              FloodState(g0, Update(g, q, At(g, q).Reveal()), rows, cols, start,
                         order + [q], parent + [pi], enqueued, head)
  {
    var g1: Grid := Update(g, q, At(g, q).Reveal());
    var e1 := if At(g, q).adjacentMines == 0 then enqueued + [q] else enqueued;
    var o1 := order + [q];
    assert q !in order;
    assert q !in enqueued;
    RevealOrderExtend(g0, rows, cols, start, order, parent, pi, q);
    forall r: int, c: int | 0 <= r < rows && 0 <= c < cols
      ensures (r, c) in o1 <==> g1[r][c].revealed && !g0[r][c].revealed
    {
      if (r, c) != q {
        assert (r, c) in o1 <==> (r, c) in order;
      }
    }
    forall y
      ensures y in e1 <==> y in o1 && Spreads(g0, rows, cols, y)
    {
      if y in e1 && y != q {
        assert y in enqueued;
      }
    }
    forall i, y | 0 <= i < head && Adjacent(e1[i], y) && Eligible(g0, rows, cols, y)
      ensures y in o1
    {
      assert e1[i] == enqueued[i];
    }
    assert FloodState(g0, g1, rows, cols, start, o1, parent + [pi], e1, head);
  }

  /** After the walk over p's adjacency list, every neighbour of p that was
      eligible before the flood is in the reveal order. */
  lemma ExpandDone(g0: Grid, rows: int, cols: int, p: Pos, adj: seq<Pos>, order: seq<Pos>)
    requires Shaped(g0, rows, cols)
    requires forall y :: y in adj <==> InGrid(rows, cols, y) && Adjacent(p, y)
    requires forall m :: 0 <= m < |adj| && Eligible(g0, rows, cols, adj[m]) ==> adj[m] in order
    ensures forall y :: Adjacent(p, y) && Eligible(g0, rows, cols, y) ==> y in order
  {
    forall y | Adjacent(p, y) && Eligible(g0, rows, cols, y)
      ensures y in order
    {
      var m :| 0 <= m < |adj| && adj[m] == y;
    }
  }

  lemma AppendedTail(s: seq<Pos>, t: seq<Pos>, h: int)
    requires 0 <= h <= |s|
    ensures (s + t)[h..] == s[h..] + t
  {
  }

  /** The first j cells of adj that were eligible before the flood are in the reveal order. */
  ghost predicate Visited(g0: Grid, rows: int, cols: int, adj: seq<Pos>, j: int, order: seq<Pos>)
    requires Shaped(g0, rows, cols)
  {
    forall m :: 0 <= m < j && m < |adj| && Eligible(g0, rows, cols, adj[m]) ==> adj[m] in order
  }

  /** The grid after the neighbour walk looks at q: q is revealed when it is
      hidden, mine-free and unflagged. */
  function Visit(g: Grid, rows: int, cols: int, q: Pos): (h: Grid)
    requires Shaped(g, rows, cols) && InGrid(rows, cols, q)
    ensures Shaped(h, rows, cols)
  {
    if Eligible(g, rows, cols, q) then Update(g, q, At(g, q).Reveal()) else g
  }

  /** What the neighbour walk pushes on the queue for q: q itself when it is
      revealed and has no adjacent mine. */
  function Queued(g: Grid, rows: int, cols: int, q: Pos): seq<Pos>
    requires Shaped(g, rows, cols) && InGrid(rows, cols, q)
  {
    if Eligible(g, rows, cols, q) && At(g, q).adjacentMines == 0 then [q] else []
  }

  /** The reveal order, parent links and queue record after the walk looks at q. */
  ghost function VisitLog(g: Grid, rows: int, cols: int, q: Pos, pi: int,
                          order: seq<Pos>, parent: seq<int>, enqueued: seq<Pos>): (seq<Pos>, seq<int>, seq<Pos>)
    requires Shaped(g, rows, cols) && InGrid(rows, cols, q)
  {
    if Eligible(g, rows, cols, q) then (order + [q], parent + [pi], enqueued + Queued(g, rows, cols, q))
    else (order, parent, enqueued)
  }

  /** Every tile one look at a neighbour queues is one fewer hidden tile. */
  lemma VisitCount(g: Grid, rows: int, cols: int, q: Pos)
    requires Shaped(g, rows, cols) && InGrid(rows, cols, q)
    ensures CountGrid(Visit(g, rows, cols, q), IsHidden) + |Queued(g, rows, cols, q)| <= CountGrid(g, IsHidden)
  {
    if Eligible(g, rows, cols, q) {
      CountGridUpdate(g, q, At(g, q).Reveal(), IsHidden);
    }
  }

  /** One look at a neighbour keeps the flood invariant and extends the walk's
      coverage by one. */
  lemma VisitStep(g0: Grid, g: Grid, rows: int, cols: int, start: Pos, order: seq<Pos>, parent: seq<int>,
                  enqueued: seq<Pos>, head: int, pi: int, adj: seq<Pos>, j: int)
    requires Shaped(g0, rows, cols) && Shaped(g, rows, cols)
    requires FloodState(g0, g, rows, cols, start, order, parent, enqueued, head)
    requires 0 <= pi < |order| && Spreads(g0, rows, cols, order[pi])
    requires 0 <= j < |adj| && InGrid(rows, cols, adj[j]) && Adjacent(order[pi], adj[j])
    requires Visited(g0, rows, cols, adj, j, order) && head < |enqueued|
    ensures var (o1, p1, e1) := VisitLog(g, rows, cols, adj[j], pi, order, parent, enqueued);
            var g1 := Visit(g, rows, cols, adj[j]);
            && FloodState(g0, g1, rows, cols, start, o1, p1, e1, head)
            && Visited(g0, rows, cols, adj, j + 1, o1)
            && (o1 == order || o1 == order + [adj[j]])
  {
    var q := adj[j];
    if Eligible(g, rows, cols, q) {
      FloodStep(g0, g, rows, cols, start, order, parent, enqueued, head, pi, q);
      if At(g, q).adjacentMines != 0 {
        assert enqueued + [] == enqueued;
      }
    } else {
      assert enqueued + [] == enqueued;
      if Eligible(g0, rows, cols, q) {
        assert g[q.0][q.1] == g0[q.0][q.1].(revealed := g[q.0][q.1].revealed);
      }
    }
  }

  /** The grid after the neighbour walk has looked at every cell of adj in turn. */
  function WalkGrid(g: Grid, rows: int, cols: int, adj: seq<Pos>): (h: Grid)
    requires Shaped(g, rows, cols) && forall k :: 0 <= k < |adj| ==> InGrid(rows, cols, adj[k])
    ensures Shaped(h, rows, cols)
    decreases |adj|
  {
    if adj == [] then g
    else Visit(WalkGrid(g, rows, cols, adj[..|adj| - 1]), rows, cols, adj[|adj| - 1])
  }

  lemma AppendAssoc(a: seq<Pos>, b: seq<Pos>, c: seq<Pos>)
    ensures (a + b) + c == a + (b + c)
  {
  }

  /** The walk over the first j + 1 neighbours is the walk over the first j
      followed by a visit of neighbour j. */
  lemma WalkStep(g: Grid, rows: int, cols: int, adj: seq<Pos>, j: nat)
    requires Shaped(g, rows, cols) && forall k :: 0 <= k < |adj| ==> InGrid(rows, cols, adj[k])
    requires j < |adj|
    ensures WalkGrid(g, rows, cols, adj[..j + 1]) == Visit(WalkGrid(g, rows, cols, adj[..j]), rows, cols, adj[j])
    ensures WalkQueue(g, rows, cols, adj[..j + 1])
            == WalkQueue(g, rows, cols, adj[..j]) + Queued(WalkGrid(g, rows, cols, adj[..j]), rows, cols, adj[j])
  {
    assert adj[..j + 1][..j] == adj[..j] && adj[..j + 1][j] == adj[j];
  }

  /** What the neighbour walk over adj pushes on the queue, in order. */
  function WalkQueue(g: Grid, rows: int, cols: int, adj: seq<Pos>): seq<Pos>
    requires Shaped(g, rows, cols) && forall k :: 0 <= k < |adj| ==> InGrid(rows, cols, adj[k])
    decreases |adj|
  {
    if adj == [] then []
    else
      var pre := adj[..|adj| - 1];
      WalkQueue(g, rows, cols, pre) + Queued(WalkGrid(g, rows, cols, pre), rows, cols, adj[|adj| - 1])
  }

  /** The reveal order, parent links and queue record after the walk over adj. */
  ghost function WalkLog(g: Grid, rows: int, cols: int, adj: seq<Pos>, pi: int,
                         order: seq<Pos>, parent: seq<int>, enqueued: seq<Pos>): (seq<Pos>, seq<int>, seq<Pos>)
    requires Shaped(g, rows, cols) && forall k :: 0 <= k < |adj| ==> InGrid(rows, cols, adj[k])
    decreases |adj|
  {
    if adj == [] then (order, parent, enqueued)
    else
      var pre := adj[..|adj| - 1];
      var log := WalkLog(g, rows, cols, pre, pi, order, parent, enqueued);
      VisitLog(WalkGrid(g, rows, cols, pre), rows, cols, adj[|adj| - 1], pi, log.0, log.1, log.2)
  }

  /** The neighbour walk never hides a tile and reveals at least one tile for
      every tile it queues. */
  lemma {:induction false} WalkCount(g: Grid, rows: int, cols: int, adj: seq<Pos>)
    requires Shaped(g, rows, cols) && forall k :: 0 <= k < |adj| ==> InGrid(rows, cols, adj[k])
    ensures CountGrid(WalkGrid(g, rows, cols, adj), IsHidden) + |WalkQueue(g, rows, cols, adj)| <= CountGrid(g, IsHidden)
    decreases |adj|
  {
    if adj != [] {
      var pre := adj[..|adj| - 1];
      WalkCount(g, rows, cols, pre);
      VisitCount(WalkGrid(g, rows, cols, pre), rows, cols, adj[|adj| - 1]);
    }
  }

  /** The walk's log only appends: the queue record grows by exactly what the
      walk queues, and the reveal order keeps its prefix. */
  lemma {:induction false} WalkLogAppends(g: Grid, rows: int, cols: int, adj: seq<Pos>, pi: int,
                                          order: seq<Pos>, parent: seq<int>, enqueued: seq<Pos>)
    requires Shaped(g, rows, cols) && forall k :: 0 <= k < |adj| ==> InGrid(rows, cols, adj[k])
    ensures var log := WalkLog(g, rows, cols, adj, pi, order, parent, enqueued);
            && |order| <= |log.0| && log.0[..|order|] == order
            && log.2 == enqueued + WalkQueue(g, rows, cols, adj)
    decreases |adj|
  {
    if adj == [] {
      assert enqueued + [] == enqueued;
    } else {
      var pre := adj[..|adj| - 1];
      WalkLogAppends(g, rows, cols, pre, pi, order, parent, enqueued);
      var log := WalkLog(g, rows, cols, pre, pi, order, parent, enqueued);
      var q := adj[|adj| - 1];
      var gm := WalkGrid(g, rows, cols, pre);
      if Eligible(gm, rows, cols, q) {
        assert (log.0 + [q])[..|order|] == log.0[..|order|];
      } else {
        assert log.2 + [] == log.2;
      }
    }
  }

  /** The walk over the neighbours of a queued zero-count tile keeps the flood
      invariant and covers every neighbour that was eligible before the flood. */
  lemma {:induction false} WalkKeepsFlood(g0: Grid, g: Grid, rows: int, cols: int, start: Pos, order: seq<Pos>,
                                          parent: seq<int>, enqueued: seq<Pos>, head: int, pi: int, adj: seq<Pos>)
    requires Shaped(g0, rows, cols) && Shaped(g, rows, cols)
    requires FloodState(g0, g, rows, cols, start, order, parent, enqueued, head)
    requires 0 <= pi < |order| && Spreads(g0, rows, cols, order[pi]) && head < |enqueued|
    requires forall k :: 0 <= k < |adj| ==> InGrid(rows, cols, adj[k]) && Adjacent(order[pi], adj[k])
    ensures var log := WalkLog(g, rows, cols, adj, pi, order, parent, enqueued);
            && Visited(g0, rows, cols, adj, |adj|, log.0)
            && FloodState(g0, WalkGrid(g, rows, cols, adj), rows, cols, start, log.0, log.1, log.2, head)
    decreases |adj|
  {
    if adj != [] {
      var n := |adj| - 1;
      var pre := adj[..n];
      WalkKeepsFlood(g0, g, rows, cols, start, order, parent, enqueued, head, pi, pre);
      WalkLogAppends(g, rows, cols, pre, pi, order, parent, enqueued);
      var log := WalkLog(g, rows, cols, pre, pi, order, parent, enqueued);
      assert log.0[pi] == log.0[..|order|][pi];
      assert Visited(g0, rows, cols, adj, n, log.0) by {
        forall m | 0 <= m < n && Eligible(g0, rows, cols, adj[m])
          ensures adj[m] in log.0
        {
          assert adj[m] == pre[m];
        }
      }
      VisitStep(g0, WalkGrid(g, rows, cols, pre), rows, cols, start, log.0, log.1, log.2, head, pi, adj, n);
    }
  }

  /** Expanding the queue's head by walking all its neighbours advances the
      flood invariant by one queue entry; the queue record gains exactly what
      the walk queues. */
  lemma ExpandKeepsFlood(g0: Grid, g: Grid, rows: int, cols: int, start: Pos, order: seq<Pos>,
                         parent: seq<int>, enqueued: seq<Pos>, head: int, pi: int, adj: seq<Pos>)
    requires Shaped(g0, rows, cols) && Shaped(g, rows, cols)
    requires FloodState(g0, g, rows, cols, start, order, parent, enqueued, head)
    requires head < |enqueued| && 0 <= pi < |order| && order[pi] == enqueued[head]
    requires forall y :: y in adj <==> InGrid(rows, cols, y) && Adjacent(enqueued[head], y)
    ensures forall k :: 0 <= k < |adj| ==> InGrid(rows, cols, adj[k])
    ensures var log := WalkLog(g, rows, cols, adj, pi, order, parent, enqueued);
            && log.2 == enqueued + WalkQueue(g, rows, cols, adj)
            && log.2[head + 1..] == enqueued[head + 1..] + WalkQueue(g, rows, cols, adj)
            && FloodState(g0, WalkGrid(g, rows, cols, adj), rows, cols, start, log.0, log.1, log.2, head + 1)
  {
    assert enqueued[head] in enqueued;
    assert forall k :: 0 <= k < |adj| ==> adj[k] in adj;
    WalkKeepsFlood(g0, g, rows, cols, start, order, parent, enqueued, head, pi, adj);
    WalkLogAppends(g, rows, cols, adj, pi, order, parent, enqueued);
    var log := WalkLog(g, rows, cols, adj, pi, order, parent, enqueued);
    AppendedTail(enqueued, WalkQueue(g, rows, cols, adj), head + 1);
    ExpandDone(g0, rows, cols, enqueued[head], adj, log.0);
  }

  /** Once the queue is empty every queued cell has been expanded, so the
      newly revealed cells form the flood region of start. */
  lemma FloodFinish(g0: Grid, g: Grid, rows: int, cols: int, start: Pos,
                    order: seq<Pos>, parent: seq<int>, enqueued: seq<Pos>)
    requires Shaped(g0, rows, cols) && Shaped(g, rows, cols)
    requires FloodState(g0, g, rows, cols, start, order, parent, enqueued, |enqueued|)
    ensures FloodRegion(g0, rows, cols, start, Newly(g0, g, rows, cols))
  {
    var region := Newly(g0, g, rows, cols);
    forall q
      ensures q in region <==> q in order
    {
      if q in order {
        var k :| 0 <= k < |order| && order[k] == q;
        assert InGrid(rows, cols, q);
      }
    }
    forall p, q | p in region && Spreads(g0, rows, cols, p) && Adjacent(p, q) && Eligible(g0, rows, cols, q)
      ensures q in region
    {
      assert p in order;
      assert p in enqueued;
      var i :| 0 <= i < |enqueued| && enqueued[i] == p;
      assert q in order;
    }
    RegionFromOrder(g0, rows, cols, start, order, parent, region);
  }

  /** A grid whose every tile is as calculateAdjacentMines leaves it holds correct counts. */
  lemma CountedGridCorrect(g0: Grid, g: Grid, rows: int, cols: int)
    requires Shaped(g0, rows, cols) && Shaped(g, rows, cols)
    requires forall r, c :: 0 <= r < rows && 0 <= c < cols ==> g[r][c] == Counted(g0, rows, cols, (r, c))
    ensures CountsCorrect(g, rows, cols)
  {
    assert SameMines(g, g0);
    forall r, c | 0 <= r < rows && 0 <= c < cols && !g[r][c].isMine
      ensures g[r][c].adjacentMines == MinesAround(g, rows, cols, (r, c))
    {
      CountMinesInSameMines(g, g0, NeighborList(rows, cols, (r, c)));
    }
  }

  /** The face button's texture: happy while playing, sunglasses after a win, dead after a loss. */
  datatype Face = HappyFace | WinFace | LoseFace

  /** The state of the game window besides its tiles: the mine counter, the
      timer, the game flags, the clock, the scores handed on and the face. */
  datatype Controls = Controls(
    remainingMines: int, counterDigits: seq<int>, timerDigits: seq<int>,
    gameOver: bool, paused: bool, debugMode: bool, isLeaderboardOpen: bool, windowOpen: bool,
    clockStart: int, elapsedBeforePause: int, submittedScores: seq<(string, int)>, face: Face)

  /** The mouse button of a press. */
  datatype Button = LeftButton | RightButton | OtherButton

  /** What a press lands on, hit-testing already done: one of the four
      buttons, the tile at a cell, or nothing. */
  datatype Target = LeaderboardButton | FaceButton | PauseButton | DebugButton | TileAt(cell: Pos) | Elsewhere

  /** The window events handleInput distinguishes. */
  datatype GameEvent = Closed | MousePressed(target: Target, button: Button) | OtherEvent

  // ---------------------------------------------------------------------
  // The mine counter and the timer
  // ---------------------------------------------------------------------

  /** The three counter sprites after updateCounter: |rm| in decimal, modulo
      1000; for a negative rm the leading digit is replaced by the minus sign (10). */
  predicate CounterShows(rm: int, d: seq<int>) {
    && |d| == 3
    && (rm >= 0 ==> Digits.AllDigits(d) && Digits.Value(d) == rm % 1000)
    && (rm < 0 ==> d[0] == 10 && Digits.AllDigits(d[1..]) && Digits.Value(d[1..]) == (-rm) % 100)
  }

  /** The number a player reads off the counter sprites. */
  function CounterReading(d: seq<int>): int
    requires |d| == 3
  {
    if d[0] == 10 then -Digits.Value(d[1..]) else Digits.Value(d)
  }

  /** From -99 to 999 the counter reads exactly the remaining-mines value. */
  lemma CounterExact(rm: int, d: seq<int>)
    requires CounterShows(rm, d) && -99 <= rm <= 999
    ensures CounterReading(d) == rm
  {
    if rm >= 0 {
      assert d[0] != 10;
    }
  }

  /** The four timer sprites after updateTimer: minutes modulo 100 in two
      digits, then seconds in two digits. */
  predicate TimerShows(total: int, d: seq<int>) {
    && |d| == 4 && Digits.AllDigits(d)
    && Digits.Value(d[..2]) == (total / 60) % 100
    && Digits.Value(d[2..]) == total % 60
  }

  /** The digit loop of updateCounter: |rm| into three digits from the right,
      then the minus sign over the leading digit when rm is negative. */
  method CounterDigits(rm: int) returns (d: seq<int>)
    ensures CounterShows(rm, d)
  {
    var count := if rm < 0 then -rm else rm;
    d := Digits.SplitDigits(count, 3);
    if rm < 0 {
      Digits.ValueTail(d);
      Digits.ModOfMod(count, 100);
      assert d[0 := 10][1..] == d[1..];
      d := d[0 := 10];
    }
  }

  /** The two digit loops of updateTimer: minutes, then seconds, two digits each. */
  method TimerDigits(totalSeconds: nat) returns (d: seq<int>)
    ensures TimerShows(totalSeconds, d)
  {
    var minutes := Digits.SplitDigits(totalSeconds / 60, 2);
    var seconds := Digits.SplitDigits(totalSeconds % 60, 2);
    assert (totalSeconds % 60) % 100 == totalSeconds % 60;
    d := minutes + seconds;
    assert d[..2] == minutes && d[2..] == seconds;
  }

  /** The number of seconds a player reads off the timer. */
  function TimerReading(d: seq<int>): int
    requires |d| == 4
  {
    60 * Digits.Value(d[..2]) + Digits.Value(d[2..])
  }

  /** Below 100 minutes the timer reads exactly the seconds played. */
  lemma TimerExact(total: int, d: seq<int>)
    requires TimerShows(total, d) && 0 <= total < 6000
    ensures TimerReading(d) == total
  {
    assert total / 60 < 100;
  }

  // ---------------------------------------------------------------------
  // Flags
  // ---------------------------------------------------------------------

  /** flagTile on one tile and the remaining-mines value: a revealed tile is
      left alone; otherwise the flag toggles and the counter moves the other way. */
  function Flagging(t: TileState, rm: int): (TileState, int) {
    if t.revealed then (t, rm)
    else (t.Flag(), if t.isFlagged then rm + 1 else rm - 1)
  }

  /** Flagging twice gives back the tile and the counter. */
  lemma FlaggingTwice(t: TileState, rm: int)
    ensures var (t1, rm1) := Flagging(t, rm); Flagging(t1, rm1) == (t, rm)
  {
    FlagTwiceIsIdentity(t);
  }

  /** The counter plus the number of flags is what flagTile keeps constant. */
  lemma FlaggingKeepsBalance(t: TileState, rm: int)
    ensures var (t1, rm1) := Flagging(t, rm); rm1 + Bit(t1.isFlagged) == rm + Bit(t.isFlagged)
    ensures var (t1, rm1) := Flagging(t, rm); t1.Core() == t.Core().(2 := t1.isFlagged)
  {
  }

  /** Over the whole board, flagTile keeps the counter plus the number of
      flagged tiles constant. */
  lemma FlaggingBalance(g: Grid, p: Pos, rm: int)
    requires 0 <= p.0 < |g| && 0 <= p.1 < |g[p.0]|
    ensures var (t1, rm1) := Flagging(At(g, p), rm);
            rm1 + CountGrid(Update(g, p, t1), IsFlagged) == rm + CountGrid(g, IsFlagged)
  {
    CountGridUpdate(g, p, Flagging(At(g, p), rm).0, IsFlagged);
  }

  /** A rows x cols array of distinct, freshly constructed tiles: the two
      push_back loops of initializeTiles. `where` maps each tile to its cell. */
  method BuildTiles(rows: nat, cols: nat) returns (tiles: array2<GameTile>, ghost where: map<GameTile, Pos>)
    ensures fresh(tiles) && tiles.Length0 == rows && tiles.Length1 == cols
    ensures forall r, c :: 0 <= r < rows && 0 <= c < cols ==>
              && tiles[r, c] in where && where[tiles[r, c]] == (r, c)
              && fresh(tiles[r, c]) && tiles[r, c].State() == FreshTile
    ensures forall o :: o in where ==> fresh(o)
  {
    var built: seq<seq<GameTile>> := [];
    where := map[];
    var i := 0;
    while i < rows
      invariant 0 <= i <= rows && |built| == i
      invariant forall r :: 0 <= r < i ==> |built[r]| == cols
      invariant forall r, c :: 0 <= r < i && 0 <= c < cols ==>
                  built[r][c] in where && where[built[r][c]] == (r, c) && built[r][c].State() == FreshTile
      invariant forall o :: o in where ==> fresh(o)
    {
      var row: seq<GameTile> := [];
      var j := 0;
      while j < cols
        invariant 0 <= j <= cols && |row| == j
        invariant forall c :: 0 <= c < j ==> row[c] in where && where[row[c]] == (i, c) && row[c].State() == FreshTile
        invariant forall r, c :: 0 <= r < i && 0 <= c < cols ==>
                    built[r][c] in where && where[built[r][c]] == (r, c) && built[r][c].State() == FreshTile
        invariant forall o :: o in where ==> fresh(o)
      {
        var tile := new GameTile();
        row := row + [tile];
        where := where[tile := (i, j)];
        j := j + 1;
      }
      built := built + [row];
      i := i + 1;
    }
    tiles := new GameTile[rows, cols]((r, c) requires 0 <= r < |built| && 0 <= c < |built[r]| => built[r][c]);
  }

  /** Call the GameTile method that op names. */
  method Perform(t: GameTile, op: TileOp)
    modifies t
    ensures t.State() == Apply(old(t.State()), op)
  {
    match op {
      case RevealOp => t.Reveal();
      case FlagOp => t.Flag();
      case RevealMineAfterLossOp => t.RevealMineAfterLoss();
      case SetMineOp(b) => t.SetMine(b);
      case SetAdjacentOp(n) => t.SetAdjacentMines(n);
      case SaveOp => t.SavePauseState();
      case RestoreOp => t.RestorePauseState();
    }
  }

  class GameWindow {
    const rows: int
    const cols: int
    const mines: int
    const playerName: string

    var tiles: array2<GameTile>
    /** The states of the tiles, row by row. */
    ghost var Cells: Grid
    /** The cell of each tile object. */
    ghost var Where: map<GameTile, Pos>

    var remainingMines: int
    var gameOver: bool
    var paused: bool
    var debugMode: bool
    var isLeaderboardOpen: bool
    var windowOpen: bool
    /** Clock reading at the last restart of gameClock. */
    var clockStart: int
    var elapsedBeforePause: int
    /** The three counter digits; 10 is the minus sign. */
    var counterDigits: seq<int>
    /** Minutes (two digits) then seconds (two digits). */
    var timerDigits: seq<int>
    /** The (name, seconds) pairs handed to the leaderboard after each win. */
    var submittedScores: seq<(string, int)>
    var face: Face

    ghost predicate Valid()
      reads this`tiles, this`Cells, this`Where, this`elapsedBeforePause, tiles, Where.Keys
    {
      TilesMatch() && elapsedBeforePause >= 0
    }

    /** The counter sprites show the remaining-mines value. */
    ghost predicate CounterOk()
      reads this`remainingMines, this`counterDigits
    {
      CounterShows(remainingMines, counterDigits)
    }

    /** Until the game ends no mine is uncovered, not even in the pause
        snapshot: only the loss uncovers mines, and it ends the game. */
    ghost predicate MinesCovered()
      reads this`gameOver, this`Cells
    {
      !gameOver ==> NoMineUncovered(Cells)
    }

    /** Every field besides the tiles, as one value. */
    ghost function Status(): Controls
      reads this`remainingMines, this`counterDigits, this`timerDigits, this`gameOver, this`paused
      reads this`debugMode, this`isLeaderboardOpen, this`windowOpen, this`clockStart
      reads this`elapsedBeforePause, this`submittedScores, this`face
    {
      Controls(remainingMines, counterDigits, timerDigits, gameOver, paused, debugMode, isLeaderboardOpen,
               windowOpen, clockStart, elapsedBeforePause, submittedScores, face)
    }

    /** The state revealTile(p) leaves, starting from tiles g0 and controls c0.
        A flagged or revealed tile changes nothing. A mine reveals every mine
        through GameTile::reveal, ends the game and shows the losing face, and
        nothing else. A safe tile uncovers itself or its flood region, giving u;
        unless that wins, nothing else changes; a win flags the unflagged mines
        (so, in a running game, every mine), zeroes the counter, hands
        (name, seconds) on, opens the leaderboard, shows the winning face and
        ends the game. */
    ghost predicate RevealedFrom(g0: Grid, c0: Controls, p: Pos, now: int, u: Grid)
      reads this
    {
      && Shaped(g0, rows, cols) && Shaped(u, rows, cols) && Shaped(Cells, rows, cols) && InGrid(rows, cols, p)
      && (var t := At(g0, p);
          if t.isFlagged || t.revealed then Cells == g0 && Status() == c0
          else if t.isMine then
            && (forall r, c :: 0 <= r < rows && 0 <= c < cols ==> Cells[r][c] == Treated(g0[r][c], RevealOp, Mines))
            && Status() == c0.(gameOver := true, face := LoseFace)
          else
            && Uncovers(g0, u, rows, cols, p)
            && if !AllSafeRevealed(u, rows, cols) then Cells == u && Status() == c0
               else
                 && (forall r, c :: 0 <= r < rows && 0 <= c < cols ==> Cells[r][c] == Treated(u[r][c], FlagOp, UnflaggedMines))
                 && (!c0.gameOver ==> AllMinesFlagged(Cells))
                 && c0.elapsedBeforePause >= 0 && now >= c0.clockStart
                 && Status() == c0.(remainingMines := 0, counterDigits := counterDigits, gameOver := true,
                                    isLeaderboardOpen := true, face := WinFace,
                                    submittedScores := c0.submittedScores
                                      + [(playerName, PlaySeconds(c0.elapsedBeforePause, c0.clockStart, now))]))
    }

    /** The state flagTile(p) leaves, starting from tiles g0 and controls c0:
        the tile and the counter move as Flagging says and the counter sprites
        are redrawn; nothing else changes. */
    ghost predicate FlaggedFrom(g0: Grid, c0: Controls, p: Pos)
      reads this
    {
      && Shaped(g0, rows, cols) && InGrid(rows, cols, p)
      && Cells == Update(g0, p, Flagging(At(g0, p), c0.remainingMines).0)
      && Status() == c0.(remainingMines := Flagging(At(g0, p), c0.remainingMines).1, counterDigits := counterDigits)
    }

    /** The state togglePause leaves, starting from tiles g0 and controls c0:
        nothing once the game is over; a pause banks the running time,
        restarts the clock and snapshots every tile; a resume restarts the
        clock and restores every tile. */
    ghost predicate ToggledFrom(g0: Grid, c0: Controls, now: int)
      reads this
    {
      && Shaped(g0, rows, cols) && Shaped(Cells, rows, cols)
      && if c0.gameOver then Cells == g0 && Status() == c0
         else if !c0.paused then
           && (forall r, c :: 0 <= r < rows && 0 <= c < cols ==> Cells[r][c] == g0[r][c].SavePauseState())
           && Status() == c0.(paused := true, clockStart := now,
                              elapsedBeforePause := c0.elapsedBeforePause + (now - c0.clockStart))
         else
           && (forall r, c :: 0 <= r < rows && 0 <= c < cols ==> Cells[r][c] == g0[r][c].RestorePauseState())
           && Status() == c0.(paused := false, clockStart := now)
    }

    /** The state resetGame leaves, from controls c0: a new board laid from
        the draws, the counter at `mines`, the timer at 00:00 with nothing
        banked and the clock restarted, not paused, not over, debug off, the
        happy face; the leaderboard, the window and the scores are kept. */
    ghost predicate ResetFrom(c0: Controls, draws: seq<Pos>, now: int)
      reads this
    {
      && Shaped(Cells, rows, cols) && NewBoard(draws, mines - CountGrid(Cells, IsMine))
      && TimerShows(0, timerDigits)
      && Status() == c0.(remainingMines := mines, counterDigits := counterDigits, timerDigits := timerDigits,
                         gameOver := false, paused := false, debugMode := false,
                         clockStart := now, elapsedBeforePause := 0, face := HappyFace)
    }

    /** The state a press with `button` on the tile at p leaves: ignored once
        the game is over, while paused, off the board or with another button;
        otherwise the left button reveals and the right button flags. */
    ghost predicate ClickedFrom(g0: Grid, c0: Controls, p: Pos, button: Button, now: int, u: Grid)
      reads this
    {
      if c0.gameOver || c0.paused || !InGrid(rows, cols, p) || button == OtherButton then
        Cells == g0 && Status() == c0
      else if button == LeftButton then RevealedFrom(g0, c0, p, now, u)
      else FlaggedFrom(g0, c0, p)
    }

    /** The state a mouse press on `target` leaves. The leaderboard button
        toggles the leaderboard and the face button resets, whatever the
        state; the pause button toggles the pause (a no-op once the game is
        over), the debug button toggles debug mode unless paused, and a tile
        press is handled as ClickedFrom says. */
    ghost predicate PressedFrom(g0: Grid, c0: Controls, target: Target, button: Button,
                                draws: seq<Pos>, now: int, u: Grid)
      reads this
    {
      match target
      case LeaderboardButton => Cells == g0 && Status() == c0.(isLeaderboardOpen := !c0.isLeaderboardOpen)
      case FaceButton => ResetFrom(c0, draws, now)
      case PauseButton => ToggledFrom(g0, c0, now)
      case DebugButton => Cells == g0 && Status() == c0.(debugMode := if c0.paused then c0.debugMode else !c0.debugMode)
      case TileAt(p) => ClickedFrom(g0, c0, p, button, now, u)
      case Elsewhere => Cells == g0 && Status() == c0
    }

    /** The tile objects are distinct, one per cell, and hold the states in Cells. */
    ghost predicate TilesMatch()
      reads this`tiles, this`Cells, this`Where, tiles, Where.Keys
    {
      && rows > 0 && cols > 0
      && tiles.Length0 == rows && tiles.Length1 == cols
      && Shaped(Cells, rows, cols)
      && (forall r, c :: 0 <= r < rows && 0 <= c < cols ==>
            tiles[r, c] in Where && Where[tiles[r, c]] == (r, c) && tiles[r, c].State() == Cells[r][c])
      && NonNegativeCounts(Cells, rows, cols)
    }

    /** One GameTile method called on the tile at p. */
    method ApplyAt(p: Pos, op: TileOp)
      requires Valid() && InGrid(rows, cols, p)
      requires op.SetAdjacentOp? ==> op.count >= 0
      modifies this`Cells, tiles[p.0, p.1]
      ensures Valid()
      ensures Cells == Update(old(Cells), p, Apply(At(old(Cells), p), op))
    {
      var t := tiles[p.0, p.1];
      ghost var g0 := Cells;
      Perform(t, op);
      Cells := Update(Cells, p, t.State());
      forall r, c | 0 <= r < rows && 0 <= c < cols
        ensures tiles[r, c].State() == Cells[r][c]
      {
        if (r, c) != p {
          assert Where[tiles[r, c]] != Where[t];
          assert tiles[r, c].State() == g0[r][c];
        }
      }
    }

    /** The nested `for (auto &row : tiles) for (auto &tile : row)` loops that
        apply one tile operation to every selected tile. */
    method ApplyToSelected(op: TileOp, sel: Selection)
      requires Valid() && (op.SetAdjacentOp? ==> op.count >= 0)
      modifies this`Cells, Where.Keys
      ensures Valid()
      ensures forall r, c :: 0 <= r < rows && 0 <= c < cols ==>
                Cells[r][c] == Treated(old(Cells)[r][c], op, sel)
    {
      ghost var g0 := Cells;
      var r := 0;
      while r < rows
        invariant 0 <= r <= rows && Valid()
        invariant forall i, j :: 0 <= i < rows && 0 <= j < cols ==>
                    Cells[i][j] == if i < r then Treated(g0[i][j], op, sel) else g0[i][j]
      {
        var c := 0;
        while c < cols
          invariant 0 <= c <= cols && Valid()
          invariant forall i, j :: 0 <= i < rows && 0 <= j < cols ==>
                      Cells[i][j] == if i < r || (i == r && j < c) then Treated(g0[i][j], op, sel) else g0[i][j]
        {
          if Selected(sel, tiles[r, c].State()) {
            ApplyAt((r, c), op);
          }
          c := c + 1;
        }
        r := r + 1;
      }
    }

    /** The inner loop of calculateAdjacentMines: count the mines on p's adjacency list. */
    method CountNeighborMines(p: Pos) returns (count: nat)
      requires Valid() && InGrid(rows, cols, p)
      ensures count == MinesAround(Cells, rows, cols, p)
      ensures count == |MineNeighbors(Cells, rows, cols, p)| <= 8
    {
      var adj := AdjacentTiles(rows, cols, p);
      count := 0;
      var i := 0;
      while i < |adj|
        invariant 0 <= i <= |adj|
        invariant count == CountMinesIn(Cells, adj[..i])
      {
        var q := adj[i];
        assert q in adj;
        assert adj[..i + 1][..i] == adj[..i];
        if tiles[q.0, q.1].isMine {
          count := count + 1;
        }
        i := i + 1;
      }
      assert adj[..|adj|] == adj;
      MinesAroundCorrect(Cells, rows, cols, p);
    }

    /** One step of calculateAdjacentMines: a mine-free tile at p stores the
        count of mines around it, counted on g0 (which has the same mines). */
    method StoreCount(p: Pos, ghost g0: Grid)
      requires Valid() && InGrid(rows, cols, p) && Shaped(g0, rows, cols)
      requires SameMines(Cells, g0) && At(Cells, p) == At(g0, p)
      modifies this`Cells, Where.Keys
      ensures Valid()
      ensures Cells == Update(old(Cells), p, Counted(g0, rows, cols, p))
    {
      if !tiles[p.0, p.1].isMine {
        var count := CountNeighborMines(p);
        CountMinesInSameMines(Cells, g0, NeighborList(rows, cols, p));
        assert Apply(At(Cells, p), SetAdjacentOp(count)) == Counted(g0, rows, cols, p);
        ApplyAt(p, SetAdjacentOp(count));
      } else {
        UpdateSame(Cells, p);
      }
    }

    /** calculateAdjacentMines: every mine-free tile stores its count. */
    method CalculateAdjacentMines()
      requires Valid()
      modifies this`Cells, Where.Keys
      ensures Valid()
      ensures forall r, c :: 0 <= r < rows && 0 <= c < cols ==>
                Cells[r][c] == Counted(old(Cells), rows, cols, (r, c))
      ensures CountsCorrect(Cells, rows, cols)
    {
      ghost var g0 := Cells;
      var r := 0;
      while r < rows
        invariant 0 <= r <= rows && Valid()
        invariant forall i, j :: 0 <= i < rows && 0 <= j < cols ==>
                    Cells[i][j] == if i < r then Counted(g0, rows, cols, (i, j)) else g0[i][j]
      {
        var c := 0;
        while c < cols
          invariant 0 <= c <= cols && Valid()
          invariant forall i, j :: 0 <= i < rows && 0 <= j < cols ==>
                      Cells[i][j] == if i < r || (i == r && j < c) then Counted(g0, rows, cols, (i, j)) else g0[i][j]
        {
          assert SameMines(Cells, g0);
          StoreCount((r, c), g0);
          c := c + 1;
        }
        r := r + 1;
      }
      CountedGridCorrect(g0, Cells, rows, cols);
    }

    /** One draw of placeMines: a tile without a mine receives one. */
    method TryPlaceMine(p: Pos) returns (placed: bool)
      requires Valid() && InGrid(rows, cols, p)
      modifies this`Cells, Where.Keys
      ensures Valid()
      ensures placed <==> !At(old(Cells), p).isMine
      ensures placed ==> Cells == Update(old(Cells), p, At(old(Cells), p).(isMine := true))
      ensures !placed ==> Cells == old(Cells)
    {
      placed := !tiles[p.0, p.1].isMine;
      if placed {
        ApplyAt(p, SetMineOp(true));
      }
    }

    /** The drawing loop of placeMines: draw cells until `mines` distinct cells
        hold a mine. The draws stand for the random generator; `missing` is how
        many mines were still to place when the draws ran out. */
    method DrawMines(draws: seq<Pos>) returns (missing: int)
      requires Valid()
      requires forall k :: 0 <= k < |draws| ==> InGrid(rows, cols, draws[k])
      modifies this`Cells, Where.Keys
      ensures Valid()
      ensures (Cells, missing) == DrawAll(old(Cells), rows, cols, draws, mines)
    {
      ghost var g0 := Cells;
      missing := mines;
      var k := 0;
      while missing > 0 && k < |draws|
        invariant 0 <= k <= |draws| && Valid()
        invariant DrawAll(Cells, rows, cols, draws[k..], missing) == DrawAll(g0, rows, cols, draws, mines)
      {
        assert draws[k..][1..] == draws[k + 1..];
        assert draws[k..][0] == draws[k];
        var placed := TryPlaceMine(draws[k]);
        if placed {
          missing := missing - 1;
        }
        k := k + 1;
      }
    }

    /** The zero-count branch of revealTile: reveal start, then expand a FIFO
        queue of zero-count tiles, revealing every hidden, mine-free, unflagged
        neighbour and queueing those that have no adjacent mine. The cells
        uncovered are exactly the flood region of start; `enqueued` lists the
        tiles pushed on the queue, each once. */
    method FloodFill(start: Pos) returns (ghost enqueued: seq<Pos>)
      requires Valid() && Eligible(Cells, rows, cols, start) && Spreads(Cells, rows, cols, start)
      modifies this`Cells, Where.Keys
      ensures Valid()
      ensures OnlyRevealedGrows(old(Cells), Cells, rows, cols)
      ensures FloodRegion(old(Cells), rows, cols, start, Newly(old(Cells), Cells, rows, cols))
      ensures forall i, j :: 0 <= i < j < |enqueued| ==> enqueued[i] != enqueued[j]
      ensures forall q :: q in enqueued <==> q in Newly(old(Cells), Cells, rows, cols) && Spreads(old(Cells), rows, cols, q)
    {
      ghost var g0 := Cells;
      FloodStart(g0, rows, cols, start);
      ApplyAt(start, RevealOp);
      assert Cells == Update(g0, start, At(g0, start).Reveal());
      var toReveal: seq<Pos> := [start];
      enqueued := [start];
      ghost var head := 0;
      ghost var order: seq<Pos> := [start];
      ghost var parent: seq<int> := [-1];
      while toReveal != []
        invariant Valid() && Shaped(g0, rows, cols)
        invariant FloodState(g0, Cells, rows, cols, start, order, parent, enqueued, head)
        invariant toReveal == enqueued[head..]
        decreases CountGrid(Cells, IsHidden), |toReveal|
      {
        ghost var hidden0 := CountGrid(Cells, IsHidden);
        var current := toReveal[0];
        toReveal := toReveal[1..];
        toReveal, order, parent, enqueued := ExpandTile(current, toReveal, g0, start, order, parent, enqueued, head);
        head := head + 1;
      }
      FloodFinish(g0, Cells, rows, cols, start, order, parent, enqueued);
    }

    /** The body of the loop over the neighbours of the tile taken off the queue:
        a hidden, mine-free, unflagged neighbour is revealed, and queued when it
        has no adjacent mine. */
    method VisitNeighbor(q: Pos, queue: seq<Pos>) returns (queue1: seq<Pos>)
      requires Valid() && InGrid(rows, cols, q)
      modifies this`Cells, Where.Keys
      ensures Valid() && Cells == Visit(old(Cells), rows, cols, q)
      ensures queue1 == queue + Queued(old(Cells), rows, cols, q)
    {
      var t := tiles[q.0, q.1];
      if !t.revealed && !t.isMine && !t.isFlagged {
        assert Apply(At(Cells, q), RevealOp) == At(Cells, q).Reveal();
        ApplyAt(q, RevealOp);
        if t.adjacentMines == 0 {
          queue1 := queue + [q];
        } else {
          queue1 := queue + [];
        }
      } else {
        queue1 := queue + [];
      }
    }

    /** One turn of revealTile's queue loop: walk the adjacency list of the
        tile just taken off the queue, revealing each eligible neighbour and
        queueing those with no adjacent mine. */
    method ExpandTile(current: Pos, toReveal: seq<Pos>, ghost g0: Grid, ghost start: Pos,
                      ghost order: seq<Pos>, ghost parent: seq<int>, ghost enqueued: seq<Pos>, ghost head: int)
      returns (queue: seq<Pos>, ghost order1: seq<Pos>, ghost parent1: seq<int>, ghost enqueued1: seq<Pos>)
      requires Valid() && Shaped(g0, rows, cols)
      requires FloodState(g0, Cells, rows, cols, start, order, parent, enqueued, head)
      requires head < |enqueued| && current == enqueued[head] && toReveal == enqueued[head + 1..]
      modifies this`Cells, Where.Keys
      ensures Valid()
      ensures FloodState(g0, Cells, rows, cols, start, order1, parent1, enqueued1, head + 1)
      ensures queue == enqueued1[head + 1..]
      ensures CountGrid(Cells, IsHidden) <= old(CountGrid(Cells, IsHidden))
      ensures CountGrid(Cells, IsHidden) + |queue| <= old(CountGrid(Cells, IsHidden)) + |toReveal|
    {
      assert current in enqueued;
      ghost var pi :| 0 <= pi < |order| && order[pi] == current;
      ghost var g := Cells;
      var adj := AdjacentTiles(rows, cols, current);
      ExpandKeepsFlood(g0, g, rows, cols, start, order, parent, enqueued, head, pi, adj);
      WalkCount(g, rows, cols, adj);
      queue := WalkNeighbors(adj, toReveal);
      ghost var log := WalkLog(g, rows, cols, adj, pi, order, parent, enqueued);
      order1, parent1, enqueued1 := log.0, log.1, log.2;
    }

    /** The loop over the adjacency list of the tile taken off the queue. */
    method WalkNeighbors(adj: seq<Pos>, toReveal: seq<Pos>) returns (queue: seq<Pos>)
      requires Valid() && forall k :: 0 <= k < |adj| ==> InGrid(rows, cols, adj[k])
      modifies this`Cells, Where.Keys
      ensures Valid()
      ensures Cells == WalkGrid(old(Cells), rows, cols, adj)
      ensures queue == toReveal + WalkQueue(old(Cells), rows, cols, adj)
    {
      ghost var g := Cells;
      queue := toReveal;
      var j := 0;
      while j < |adj|
        invariant 0 <= j <= |adj| && Valid()
        invariant Cells == WalkGrid(g, rows, cols, adj[..j])
        invariant queue == toReveal + WalkQueue(g, rows, cols, adj[..j])
      {
        WalkStep(g, rows, cols, adj, j);
        AppendAssoc(toReveal, WalkQueue(g, rows, cols, adj[..j]), Queued(Cells, rows, cols, adj[j]));
        queue := VisitNeighbor(adj[j], queue);
        j := j + 1;
      }
      assert adj[..j] == adj;
    }

    /** The drawing half of placeMines, with what the draws achieve. */
    method PlaceDrawn(draws: seq<Pos>) returns (missing: int)
      requires Valid()
      requires forall k :: 0 <= k < |draws| ==> InGrid(rows, cols, draws[k])
      modifies this`Cells, Where.Keys
      ensures Valid()
      ensures mines <= 0 ==> missing == mines
      ensures mines > 0 ==> 0 <= missing <= mines
      ensures mines > 0 ==> CountGrid(Cells, IsMine) == CountGrid(old(Cells), IsMine) + (mines - missing)
      ensures mines <= 0 ==> Cells == old(Cells)
      ensures forall r, c :: 0 <= r < rows && 0 <= c < cols ==>
                && Cells[r][c] == old(Cells)[r][c].(isMine := Cells[r][c].isMine)
                && (old(Cells)[r][c].isMine ==> Cells[r][c].isMine)
                && (Cells[r][c].isMine && !old(Cells)[r][c].isMine ==> (r, c) in draws)
      ensures missing > 0 ==> forall k :: 0 <= k < |draws| ==> MineAt(Cells, draws[k])
    {
      ghost var g0 := Cells;
      missing := DrawMines(draws);
      DrawAllCount(g0, rows, cols, draws, mines);
      DrawAllOnlyMines(g0, rows, cols, draws, mines);
      DrawAllExhausted(g0, rows, cols, draws, mines);
    }

    /** placeMines: place the mines, then count. */
    method PlaceMines(draws: seq<Pos>) returns (missing: int)
      requires Valid()
      requires forall k :: 0 <= k < |draws| ==> InGrid(rows, cols, draws[k])
      modifies this`Cells, Where.Keys
      ensures Valid()
      ensures mines <= 0 ==> missing == mines
      ensures mines > 0 ==> 0 <= missing <= mines
      ensures mines > 0 ==> CountGrid(Cells, IsMine) == CountGrid(old(Cells), IsMine) + (mines - missing)
      ensures mines <= 0 ==> CountGrid(Cells, IsMine) == CountGrid(old(Cells), IsMine)
      ensures forall r, c :: 0 <= r < rows && 0 <= c < cols ==>
                && Cells[r][c] == old(Cells)[r][c].(isMine := Cells[r][c].isMine, adjacentMines := Cells[r][c].adjacentMines)
                && (old(Cells)[r][c].isMine ==> Cells[r][c].isMine)
                && (Cells[r][c].isMine && !old(Cells)[r][c].isMine ==> (r, c) in draws)
      ensures CountsCorrect(Cells, rows, cols)
      ensures missing > 0 ==> forall k :: 0 <= k < |draws| ==> MineAt(Cells, draws[k])
    {
      missing := PlaceDrawn(draws);
      ghost var placed := Cells;
      CalculateAdjacentMines();
      assert SameMines(Cells, placed);
      CountGridSameMines(Cells, placed);
    }

    /** updateCounter. */
    method UpdateCounter()
      modifies this`counterDigits
      ensures CounterShows(remainingMines, counterDigits)
    {
      counterDigits := CounterDigits(remainingMines);
    }

    /** updateTimer: unless the game is over or paused, show the whole seconds
        played (banked time plus the running clock) as minutes and seconds. */
    method UpdateTimer(now: int)
      requires elapsedBeforePause >= 0 && now >= clockStart
      modifies this`timerDigits
      ensures gameOver || paused ==> timerDigits == old(timerDigits)
      ensures !gameOver && !paused ==> TimerShows(PlaySeconds(elapsedBeforePause, clockStart, now), timerDigits)
    {
      if gameOver || paused {
        return;
      }
      var totalSeconds := PlaySeconds(elapsedBeforePause, clockStart, now);
      timerDigits := TimerDigits(totalSeconds);
    }

    /** flagTile: toggle the flag of a hidden tile and move the counter the
        other way; a revealed tile is ignored. */
    method FlagTile(p: Pos)
      requires Valid() && CounterOk() && MinesCovered() && InGrid(rows, cols, p)
      modifies this`Cells, Where.Keys, this`remainingMines, this`counterDigits
      ensures Valid() && CounterOk() && MinesCovered()
      ensures FlaggedFrom(old(Cells), old(Status()), p)
      ensures remainingMines + CountGrid(Cells, IsFlagged) == old(remainingMines) + CountGrid(old(Cells), IsFlagged)
    {
      FlaggingBalance(Cells, p, remainingMines);
      if tiles[p.0, p.1].revealed {
        UpdateSame(Cells, p);
        return;
      }
      FlagHidden(p);
    }

    /** flagTile on a hidden tile: toggle the flag and move the counter the other way. */
    method FlagHidden(p: Pos)
      requires Valid() && MinesCovered() && InGrid(rows, cols, p) && !At(Cells, p).revealed
      modifies this`Cells, Where.Keys, this`remainingMines, this`counterDigits
      ensures Valid() && CounterOk() && MinesCovered()
      ensures Cells == Update(old(Cells), p, At(old(Cells), p).Flag())
      ensures Status() == old(Status()).(remainingMines := old(remainingMines) + (if At(old(Cells), p).isFlagged then 1 else -1),
                                         counterDigits := counterDigits)
    {
      ghost var c0 := Status();
      if NoMineUncovered(Cells) {
        UpdateKeepsCovered(Cells, p, At(Cells, p).Flag());
      }
      var wasFlagged := FlagAt(p);
      assert Status() == c0 && MinesCovered();
      MoveCounter(if wasFlagged then 1 else -1);
    }

    /** The flag toggle of flagTile on a hidden tile; the result is the flag before. */
    method FlagAt(p: Pos) returns (wasFlagged: bool)
      requires Valid() && InGrid(rows, cols, p) && !At(Cells, p).revealed
      modifies this`Cells, Where.Keys
      ensures Valid() && Cells == Update(old(Cells), p, At(old(Cells), p).Flag())
      ensures wasFlagged == At(old(Cells), p).isFlagged
    {
      wasFlagged := tiles[p.0, p.1].isFlagged;
      ApplyAt(p, FlagOp);
    }

    /** Move the remaining-mines value by delta and redraw the counter. */
    method MoveCounter(delta: int)
      requires Valid()
      modifies this`remainingMines, this`counterDigits
      ensures Valid() && CounterOk() && remainingMines == old(remainingMines) + delta
    {
      remainingMines := remainingMines + delta;
      UpdateCounter();
    }

    /** togglePause: once the game is over nothing happens. Pausing banks the
        running time, restarts the clock and snapshots every tile; resuming
        restarts the clock and restores every tile from its snapshot. */
    method TogglePause(now: int)
      requires Valid() && now >= clockStart
      modifies this`paused, this`elapsedBeforePause, this`clockStart, this`Cells, Where.Keys
      ensures Valid() && ToggledFrom(old(Cells), old(Status()), now)
      ensures old(MinesCovered()) ==> MinesCovered()
    {
      if gameOver {
        return;
      }
      paused := !paused;
      if paused {
        BankAndSnapshot(now);
      } else {
        RestartAndRestore(now);
      }
    }

    /** The pausing branch of togglePause: bank the running time, restart the
        clock and save every tile's state. */
    method BankAndSnapshot(now: int)
      requires Valid() && now >= clockStart
      modifies this`elapsedBeforePause, this`clockStart, this`Cells, Where.Keys
      ensures Valid() && clockStart == now
      ensures elapsedBeforePause == old(elapsedBeforePause) + (now - old(clockStart))
      ensures forall r, c :: 0 <= r < rows && 0 <= c < cols ==> Cells[r][c] == old(Cells)[r][c].SavePauseState()
    {
      elapsedBeforePause := elapsedBeforePause + (now - clockStart);
      clockStart := now;
      ApplyToSelected(SaveOp, EveryTile);
    }

    /** The resuming branch of togglePause: restart the clock and restore every
        tile from its snapshot. */
    method RestartAndRestore(now: int)
      requires Valid()
      modifies this`clockStart, this`Cells, Where.Keys
      ensures Valid() && clockStart == now
      ensures forall r, c :: 0 <= r < rows && 0 <= c < cols ==> Cells[r][c] == old(Cells)[r][c].RestorePauseState()
    {
      clockStart := now;
      ApplyToSelected(RestoreOp, EveryTile);
    }

    /** A pause at t1 followed by a resume at t2: every tile has its game
        fields back, and only the time played before t1 is banked, so the
        paused interval from t1 to t2 never reaches the timer. */
    method PauseThenResume(t1: int, t2: int)
      requires Valid() && !gameOver && !paused && clockStart <= t1 <= t2
      modifies this`paused, this`elapsedBeforePause, this`clockStart, this`Cells, Where.Keys
      ensures Valid() && !paused
      ensures forall r, c :: 0 <= r < rows && 0 <= c < cols ==> Cells[r][c].Core() == old(Cells)[r][c].Core()
      ensures elapsedBeforePause == old(elapsedBeforePause) + (t1 - old(clockStart)) && clockStart == t2
      ensures forall now :: now >= t2 ==>
                PlaySeconds(elapsedBeforePause, clockStart, now)
                == PlaySeconds(old(elapsedBeforePause), old(clockStart), now - (t2 - t1))
    {
      ghost var g0: Grid := Cells;
      TogglePause(t1);
      TogglePause(t2);
      forall r: int, c: int | 0 <= r < rows && 0 <= c < cols
        ensures Cells[r][c].Core() == g0[r][c].Core()
      {
        PauseRoundTrip(g0[r][c]);
      }
    }

    /** The scan at the top of checkWin: true iff no tile is hidden and mine-free. */
    method ScanAllSafe() returns (allSafe: bool)
      requires Valid()
      ensures allSafe == AllSafeRevealed(Cells, rows, cols)
    {
      var r := 0;
      while r < rows
        invariant 0 <= r <= rows
        invariant forall i, j :: 0 <= i < r && 0 <= j < cols ==> Cells[i][j].revealed || Cells[i][j].isMine
      {
        var c := 0;
        while c < cols
          invariant 0 <= c <= cols
          invariant forall j :: 0 <= j < c ==> Cells[r][j].revealed || Cells[r][j].isMine
        {
          if !tiles[r, c].revealed && !tiles[r, c].isMine {
            return false;
          }
          c := c + 1;
        }
        r := r + 1;
      }
      return true;
    }

    /** checkWin: when every mine-free tile is revealed, flag every unflagged
        mine, zero the counter, hand (name, seconds) to the leaderboard, open
        it and end the game; otherwise change nothing. */
    method CheckWin(now: int) returns (won: bool)
      requires Valid() && CounterOk() && MinesCovered() && now >= clockStart
      modifies this`Cells, Where.Keys, this`remainingMines, this`counterDigits, this`submittedScores
      modifies this`isLeaderboardOpen, this`face, this`gameOver
      ensures Valid() && CounterOk() && MinesCovered()
      ensures won <==> AllSafeRevealed(old(Cells), rows, cols)
      ensures !won ==> Cells == old(Cells) && Status() == old(Status())
      ensures won ==> forall r, c :: 0 <= r < rows && 0 <= c < cols ==>
                Cells[r][c] == Treated(old(Cells)[r][c], FlagOp, UnflaggedMines)
      ensures won && !old(gameOver) ==> AllMinesFlagged(Cells)
      ensures won ==> Status() == old(Status()).(remainingMines := 0, counterDigits := counterDigits, gameOver := true,
                                                 isLeaderboardOpen := true, face := WinFace,
                                                 submittedScores := old(submittedScores)
                                                   + [(playerName, PlaySeconds(elapsedBeforePause, clockStart, now))])
    {
      won := ScanAllSafe();
      if !won {
        return;
      }
      ghost var g0 := Cells;
      ghost var running := !gameOver;
      DeclareWin(now);
      if running {
        WinFlagsEveryMine(g0, Cells, rows, cols);
      }
    }

    /** The winning half of checkWin. */
    method DeclareWin(now: int)
      requires Valid() && now >= clockStart
      modifies this`Cells, Where.Keys, this`remainingMines, this`counterDigits, this`submittedScores
      modifies this`isLeaderboardOpen, this`face, this`gameOver
      ensures Valid() && CounterOk()
      ensures forall r, c :: 0 <= r < rows && 0 <= c < cols ==>
                Cells[r][c] == Treated(old(Cells)[r][c], FlagOp, UnflaggedMines)
      ensures remainingMines == 0 && gameOver && isLeaderboardOpen && face == WinFace
      ensures submittedScores == old(submittedScores) + [(playerName, PlaySeconds(elapsedBeforePause, clockStart, now))]
    {
      var totalSeconds := PlaySeconds(elapsedBeforePause, clockStart, now);
      submittedScores := submittedScores + [(playerName, totalSeconds)];
      isLeaderboardOpen := true;
      face := WinFace;
      gameOver := true;
      FlagAllMines();
    }

    /** The first steps of the win: flag every unflagged mine and zero the counter. */
    method FlagAllMines()
      requires Valid()
      modifies this`Cells, Where.Keys, this`remainingMines, this`counterDigits
      ensures Valid() && CounterOk() && remainingMines == 0
      ensures forall r, c :: 0 <= r < rows && 0 <= c < cols ==>
                Cells[r][c] == Treated(old(Cells)[r][c], FlagOp, UnflaggedMines)
    {
      ApplyToSelected(FlagOp, UnflaggedMines);
      MoveCounter(-remainingMines);
    }

    /** The safe branch of revealTile: the tile alone when it has a mine next
        to it, its flood region when it has none. */
    method UncoverSafe(p: Pos)
      requires Valid() && Eligible(Cells, rows, cols, p)
      modifies this`Cells, Where.Keys
      ensures Valid() && Uncovers(old(Cells), Cells, rows, cols, p)
      ensures NoMineUncovered(old(Cells)) ==> NoMineUncovered(Cells)
    {
      ghost var g0 := Cells;
      if tiles[p.0, p.1].adjacentMines > 0 {
        RevealOne(g0, rows, cols, p);
        assert Apply(At(g0, p), RevealOp) == At(g0, p).Reveal();
        ApplyAt(p, RevealOp);
      } else {
        var _ := FloodFill(p);
      }
      if NoMineUncovered(g0) {
        UncoverKeepsMinesCovered(g0, Cells, rows, cols, p);
      }
    }

    /** revealTile on the tile at p, as RevealedFrom says; `uncovered` is the
        grid before the win check. */
    method RevealTile(p: Pos, now: int) returns (ghost uncovered: Grid)
      requires Valid() && CounterOk() && MinesCovered() && InGrid(rows, cols, p) && now >= clockStart
      modifies this`Cells, Where.Keys, this`remainingMines, this`counterDigits, this`submittedScores
      modifies this`isLeaderboardOpen, this`face, this`gameOver
      ensures Valid() && CounterOk() && MinesCovered()
      ensures RevealedFrom(old(Cells), old(Status()), p, now, uncovered)
    {
      uncovered := Cells;
      var tile := tiles[p.0, p.1];
      if tile.isFlagged || tile.revealed {
        return;
      }
      if tile.isMine {
        RevealMinesAndLose();
        return;
      }
      uncovered := RevealSafe(p, now);
    }

    /** The mine branch of revealTile: every mine revealed, the losing face and the game over. */
    method RevealMinesAndLose()
      requires Valid()
      modifies this`Cells, Where.Keys, this`face, this`gameOver
      ensures Valid() && gameOver && face == LoseFace
      ensures forall r, c :: 0 <= r < rows && 0 <= c < cols ==>
                Cells[r][c] == Treated(old(Cells)[r][c], RevealOp, Mines)
    {
      ApplyToSelected(RevealOp, Mines);
      face := LoseFace;
      gameOver := true;
    }

    /** The safe branch of revealTile followed by the win check. */
    method RevealSafe(p: Pos, now: int) returns (ghost uncovered: Grid)
      requires Valid() && CounterOk() && MinesCovered() && Eligible(Cells, rows, cols, p) && now >= clockStart
      modifies this`Cells, Where.Keys, this`remainingMines, this`counterDigits, this`submittedScores
      modifies this`isLeaderboardOpen, this`face, this`gameOver
      ensures Valid() && CounterOk() && MinesCovered()
      ensures Shaped(uncovered, rows, cols) && Uncovers(old(Cells), uncovered, rows, cols, p)
      ensures !AllSafeRevealed(uncovered, rows, cols) ==> Cells == uncovered && Status() == old(Status())
      ensures AllSafeRevealed(uncovered, rows, cols) ==>
                && (forall r, c :: 0 <= r < rows && 0 <= c < cols ==>
                      Cells[r][c] == Treated(uncovered[r][c], FlagOp, UnflaggedMines))
                && (!old(gameOver) ==> AllMinesFlagged(Cells))
                && Status() == old(Status()).(remainingMines := 0, counterDigits := counterDigits, gameOver := true,
                                              isLeaderboardOpen := true, face := WinFace,
                                              submittedScores := old(submittedScores)
                                                + [(playerName, PlaySeconds(elapsedBeforePause, clockStart, now))])
    {
      UncoverSafe(p);
      uncovered := Cells;
      EndIfWon(now);
    }

    /** The end of revealTile: checkWin, then on a win the winning face and
        the game over; otherwise nothing changes. */
    method EndIfWon(now: int)
      requires Valid() && CounterOk() && MinesCovered() && now >= clockStart
      modifies this`Cells, Where.Keys, this`remainingMines, this`counterDigits, this`submittedScores
      modifies this`isLeaderboardOpen, this`face, this`gameOver
      ensures Valid() && CounterOk() && MinesCovered()
      ensures !AllSafeRevealed(old(Cells), rows, cols) ==> Cells == old(Cells) && Status() == old(Status())
      ensures AllSafeRevealed(old(Cells), rows, cols) ==>
                && (forall r, c :: 0 <= r < rows && 0 <= c < cols ==>
                      Cells[r][c] == Treated(old(Cells)[r][c], FlagOp, UnflaggedMines))
                && (!old(gameOver) ==> AllMinesFlagged(Cells))
                && Status() == old(Status()).(remainingMines := 0, counterDigits := counterDigits, gameOver := true,
                                              isLeaderboardOpen := true, face := WinFace,
                                              submittedScores := old(submittedScores)
                                                + [(playerName, PlaySeconds(elapsedBeforePause, clockStart, now))])
    {
      var won := CheckWin(now);
      if won {
        face := WinFace;
        gameOver := true;
      }
    }

    /** initializeTiles: a new rows x cols board of fresh tiles. */
    method InitializeTiles()
      requires rows > 0 && cols > 0 && elapsedBeforePause >= 0
      modifies this`tiles, this`Cells, this`Where
      ensures Valid() && fresh(tiles) && Cells == FreshGrid(rows, cols)
      ensures forall o :: o in Where ==> fresh(o)
    {
      tiles, Where := BuildTiles(rows, cols);
      Cells := FreshGrid(rows, cols);
    }

    /** The board is as placeMines lays it on fresh tiles. */
    ghost predicate NewBoard(draws: seq<Pos>, missing: int)
      reads this`Cells
      requires Shaped(Cells, rows, cols)
    {
      Laid(Cells, rows, cols, mines, draws, missing)
    }

    /** initializeTiles followed by placeMines. */
    method NewMinefield(draws: seq<Pos>) returns (missing: int)
      requires rows > 0 && cols > 0 && elapsedBeforePause >= 0
      requires forall k :: 0 <= k < |draws| ==> InGrid(rows, cols, draws[k])
      modifies this`tiles, this`Cells, this`Where
      ensures Valid() && fresh(tiles) && NewBoard(draws, missing) && NoMineUncovered(Cells)
      ensures forall o :: o in Where ==> fresh(o)
    {
      InitializeTiles();
      missing := LayMines(draws);
    }

    /** placeMines on a board of fresh tiles. */
    method LayMines(draws: seq<Pos>) returns (missing: int)
      requires Valid() && Cells == FreshGrid(rows, cols)
      requires forall k :: 0 <= k < |draws| ==> InGrid(rows, cols, draws[k])
      modifies this`Cells, Where.Keys
      ensures Valid() && NewBoard(draws, missing) && NoMineUncovered(Cells)
    {
      CountGridNone(Cells, IsMine);
      missing := PlaceMines(draws);
    }

    /** The game window as its constructor leaves it: the controls as
        `Launched` says and a new board laid by placeMines, where the mines
        the draws ran out before placing are `mines` less the mines on the
        board (LaidExactly: none when the draws visit every cell and the
        setting is between 1 and rows * cols). */
    constructor (rows: int, cols: int, mines: int, playerName: string, draws: seq<Pos>, now: int)
      requires rows > 0 && cols > 0
      requires forall k :: 0 <= k < |draws| ==> InGrid(rows, cols, draws[k])
      ensures Valid() && CounterOk() && MinesCovered() && fresh(tiles)
      ensures forall o :: o in Where ==> fresh(o)
      ensures this.rows == rows && this.cols == cols && this.mines == mines && this.playerName == playerName
      ensures Launched(now) && NewBoard(draws, mines - CountGrid(Cells, IsMine))
    {
      this.rows, this.cols, this.mines, this.playerName := rows, cols, mines, playerName;
      remainingMines := mines;
      var digits := CounterDigits(mines);
      counterDigits := digits;
      timerDigits := [0, 0, 0, 0];
      clockStart, elapsedBeforePause := now, 0;
      gameOver, paused, debugMode, isLeaderboardOpen, windowOpen := false, false, false, false, true;
      submittedScores := [];
      face := HappyFace;
      tiles, Where, Cells := new GameTile[0, 0], map[], [];
      new;
      assert Launched(now) && CounterOk();
      var _ := NewMinefield(draws);
    }

    /** The controls as a new game window starts: running, not over, debug
        off, leaderboard closed, window open, happy face, the counter at
        `mines`, no score handed on, nothing banked, the clock started at
        `now` and the timer at 00:00. */
    ghost predicate Launched(now: int)
      reads this`paused, this`gameOver, this`debugMode, this`isLeaderboardOpen, this`windowOpen, this`face
      reads this`remainingMines, this`submittedScores, this`clockStart, this`elapsedBeforePause, this`timerDigits
    {
      && !paused && !gameOver && !debugMode && !isLeaderboardOpen && windowOpen && face == HappyFace
      && remainingMines == mines && submittedScores == []
      && clockStart == now && elapsedBeforePause == 0 && timerDigits == [0, 0, 0, 0]
    }

    /** handleInput: closing the window also closes the leaderboard and
        changes nothing else; a press is dispatched as PressedFrom says;
        other events are ignored. `uncovered` is the grid a tile reveal
        leaves before its win check. */
    method HandleInput(ev: GameEvent, draws: seq<Pos>, now: int) returns (ghost uncovered: Grid)
      requires Valid() && CounterOk() && MinesCovered() && now >= clockStart
      requires forall k :: 0 <= k < |draws| ==> InGrid(rows, cols, draws[k])
      modifies this, Where.Keys
      ensures Valid() && CounterOk() && MinesCovered()
      ensures ev.Closed? ==>
                && Cells == old(Cells) && tiles == old(tiles)
                && Status() == old(Status()).(windowOpen := false, isLeaderboardOpen := false)
      ensures ev.MousePressed? ==>
                && PressedFrom(old(Cells), old(Status()), ev.target, ev.button, draws, now, uncovered)
                && (ev.target == FaceButton ==> fresh(tiles) && forall o :: o in Where ==> fresh(o))
                && (ev.target != FaceButton ==> tiles == old(tiles) && Where == old(Where))
      ensures !ev.MousePressed? ==> Where == old(Where)
      ensures ev.OtherEvent? ==> unchanged(this)
    {
      uncovered := Cells;
      match ev {
        case Closed =>
          windowOpen := false;
          isLeaderboardOpen := false;
        case MousePressed(target, button) =>
          uncovered := HandleClick(target, button, draws, now);
        case OtherEvent =>
      }
    }

    /** The mouse-press half of handleInput, as PressedFrom says. */
    method HandleClick(target: Target, button: Button, draws: seq<Pos>, now: int) returns (ghost uncovered: Grid)
      requires Valid() && CounterOk() && MinesCovered() && now >= clockStart
      requires forall k :: 0 <= k < |draws| ==> InGrid(rows, cols, draws[k])
      modifies this, Where.Keys
      ensures Valid() && CounterOk() && MinesCovered()
      ensures PressedFrom(old(Cells), old(Status()), target, button, draws, now, uncovered)
      ensures target == FaceButton ==> fresh(tiles) && forall o :: o in Where ==> fresh(o)
      ensures target != FaceButton ==> tiles == old(tiles) && Where == old(Where)
    {
      uncovered := Cells;
      if target == FaceButton {
        var _ := ResetGame(draws, now);
      } else {
        uncovered := PressInPlace(target, button, now);
      }
    }

    /** A press on anything but the face button: the tiles stay the same objects. */
    method PressInPlace(target: Target, button: Button, now: int) returns (ghost uncovered: Grid)
      requires Valid() && CounterOk() && MinesCovered() && now >= clockStart && target != FaceButton
      modifies this`Cells, Where.Keys, this`remainingMines, this`counterDigits, this`submittedScores
      modifies this`isLeaderboardOpen, this`face, this`gameOver, this`paused, this`elapsedBeforePause
      modifies this`clockStart, this`debugMode
      ensures Valid() && CounterOk() && MinesCovered()
      ensures PressedFrom(old(Cells), old(Status()), target, button, [], now, uncovered)
    {
      uncovered := Cells;
      match target {
        case LeaderboardButton =>
          ToggleLeaderboard();
        case PauseButton =>
          if !gameOver {
            TogglePause(now);
          }
        case DebugButton =>
          ToggleDebug();
        case TileAt(p) =>
          uncovered := ClickTile(p, button, now);
        case Elsewhere =>
      }
    }

    /** The leaderboard button opens the leaderboard window or closes it. */
    method ToggleLeaderboard()
      modifies this`isLeaderboardOpen
      ensures isLeaderboardOpen == !old(isLeaderboardOpen)
    {
      isLeaderboardOpen := !isLeaderboardOpen;
    }

    /** The debug button shows or hides the mines, except while paused. */
    method ToggleDebug()
      modifies this`debugMode
      ensures debugMode == if paused then old(debugMode) else !old(debugMode)
    {
      if !paused {
        debugMode := !debugMode;
      }
    }

    /** A press on the tile at p, as ClickedFrom says. */
    method ClickTile(p: Pos, button: Button, now: int) returns (ghost uncovered: Grid)
      requires Valid() && CounterOk() && MinesCovered() && now >= clockStart
      modifies this`Cells, Where.Keys, this`remainingMines, this`counterDigits, this`submittedScores
      modifies this`isLeaderboardOpen, this`face, this`gameOver
      ensures Valid() && CounterOk() && MinesCovered()
      ensures ClickedFrom(old(Cells), old(Status()), p, button, now, uncovered)
    {
      uncovered := Cells;
      if !gameOver && !paused && InGrid(rows, cols, p) {
        if button == LeftButton {
          uncovered := RevealTile(p, now);
        } else if button == RightButton {
          FlagTile(p);
        }
      }
    }

    /** resetGame, as ResetFrom says, with the board laid by placeMines. */
    method ResetGame(draws: seq<Pos>, now: int) returns (missing: int)
      requires Valid()
      requires forall k :: 0 <= k < |draws| ==> InGrid(rows, cols, draws[k])
      modifies this
      ensures Valid() && CounterOk() && MinesCovered() && fresh(tiles) && NewBoard(draws, missing)
      ensures forall o :: o in Where ==> fresh(o)
      ensures ResetFrom(old(Status()), draws, now)
    {
      ghost var c0 := Status();
      ResetControls(now);
      ghost var c1 := Status();
      assert c1 == c0.(remainingMines := mines, counterDigits := counterDigits, timerDigits := timerDigits,
                       gameOver := false, paused := false, debugMode := false,
                       clockStart := now, elapsedBeforePause := 0, face := HappyFace);
      missing := NewMinefield(draws);
      assert Status() == c1 && TimerShows(0, timerDigits);
      assert missing == mines - CountGrid(Cells, IsMine);
    }

    /** The part of resetGame before initializeTiles. */
    method ResetControls(now: int)
      modifies this`paused, this`gameOver, this`debugMode, this`remainingMines, this`counterDigits
      modifies this`clockStart, this`elapsedBeforePause, this`timerDigits, this`face
      ensures !paused && !gameOver && !debugMode && face == HappyFace
      ensures remainingMines == mines && clockStart == now && elapsedBeforePause == 0
      ensures CounterShows(remainingMines, counterDigits) && TimerShows(0, timerDigits)
    {
      paused, gameOver, debugMode := false, false, false;
      remainingMines := mines;
      UpdateCounter();
      clockStart := now;
      elapsedBeforePause := 0;
      UpdateTimer(now);
      face := HappyFace;
    }

    /** revealAllMinesAfterLoss: every mine revealed, flagged or not. */
    method RevealAllMinesAfterLoss()
      requires Valid()
      modifies this`Cells, Where.Keys
      ensures Valid()
      ensures forall r, c :: 0 <= r < rows && 0 <= c < cols ==>
                Cells[r][c] == Treated(old(Cells)[r][c], RevealMineAfterLossOp, Mines)
    {
      ApplyToSelected(RevealMineAfterLossOp, Mines);
    }

    /** loseGame: end the game with the losing face and every mine revealed. */
    method LoseGame()
      requires Valid()
      modifies this`gameOver, this`face, this`Cells, Where.Keys
      ensures Valid() && gameOver && face == LoseFace
      ensures forall r, c :: 0 <= r < rows && 0 <= c < cols ==>
                && Cells[r][c].revealed == (old(Cells)[r][c].revealed || old(Cells)[r][c].isMine)
                && Cells[r][c].Core().(1 := false) == old(Cells)[r][c].Core().(1 := false)
    {
      gameOver := true;
      face := LoseFace;
      RevealAllMinesAfterLoss();
    }
  }
}
