/** The minefield as a value: a rows x cols grid of tile states, the
    8-neighbourhood clipped at the edges, the counts derived from it, and
    the flood-fill region a zero-count reveal must uncover. GameWindow
    (module Game) keeps its tiles in step with such a grid. */
module Board {
  import opened Tile

  /** A cell position (row, column). */
  type Pos = (int, int)

  /** Tile states by row, then column. */
  type Grid = seq<seq<TileState>>

  predicate InGrid(rows: int, cols: int, p: Pos) {
    0 <= p.0 < rows && 0 <= p.1 < cols
  }

  /** Two different cells whose rows and columns each differ by at most one. */
  predicate Adjacent(p: Pos, q: Pos) {
    p != q && -1 <= q.0 - p.0 <= 1 && -1 <= q.1 - p.1 <= 1
  }

  lemma AdjacentSymmetric(p: Pos, q: Pos)
    ensures Adjacent(p, q) <==> Adjacent(q, p)
  {
  }

  predicate Shaped(g: Grid, rows: int, cols: int) {
    |g| == rows && forall r :: 0 <= r < rows ==> |g[r]| == cols
  }

  function At(g: Grid, p: Pos): TileState
    requires 0 <= p.0 < |g| && 0 <= p.1 < |g[p.0]|
  {
    g[p.0][p.1]
  }

  /** The grid with the tile at p replaced by t. */
  function Update(g: Grid, p: Pos, t: TileState): (h: Grid)
    requires 0 <= p.0 < |g| && 0 <= p.1 < |g[p.0]|
    ensures |h| == |g| && forall r :: 0 <= r < |g| ==> |h[r]| == |g[r]|
    ensures forall r, c :: 0 <= r < |g| && 0 <= c < |g[r]| ==>
              h[r][c] == if (r, c) == p then t else g[r][c]
  {
    g[p.0 := g[p.0][p.1 := t]]
  }

  /** Writing back the tile already at p changes nothing. */
  lemma UpdateSame(g: Grid, p: Pos)
    requires 0 <= p.0 < |g| && 0 <= p.1 < |g[p.0]|
    ensures Update(g, p, At(g, p)) == g
  {
    assert g[p.0][p.1 := At(g, p)] == g[p.0];
  }

  /** A rows x cols grid of freshly constructed tiles. */
  function FreshGrid(rows: nat, cols: nat): (g: Grid)
    ensures Shaped(g, rows, cols)
    ensures forall r, c :: 0 <= r < rows && 0 <= c < cols ==> g[r][c] == FreshTile
  {
    seq(rows, r => seq(cols, c => FreshTile))
  }

  // ---------------------------------------------------------------------
  // The 8-neighbourhood (initializeTiles builds it as adjacentTiles lists)
  // ---------------------------------------------------------------------

  /** The cell at offset (dr, dc) from p, if it lies on the board. */
  function Candidate(rows: int, cols: int, p: Pos, dr: int, dc: int): seq<Pos> {
    if InGrid(rows, cols, (p.0 + dr, p.1 + dc)) then [(p.0 + dr, p.1 + dc)] else []
  }

  /** The neighbours produced by the first k of the nine offsets, taken in the
      order of the source's loops (dr outer, dc inner, each from -1 to 1);
      offset number 4 is (0, 0), which the loops skip. */
  function NeighborsBefore(rows: int, cols: int, p: Pos, k: nat): seq<Pos>
    requires k <= 9
  {
    if k == 0 then []
    else NeighborsBefore(rows, cols, p, k - 1)
         + (if k - 1 == 4 then [] else Candidate(rows, cols, p, RowOffset(k - 1), ColOffset(k - 1)))
  }

  /** The row offset of offset number j: j / 3 - 1. */
  function RowOffset(j: int): int {
    if j < 3 then -1 else if j < 6 then 0 else 1
  }

  /** The column offset of offset number j: j % 3 - 1. */
  function ColOffset(j: int): int {
    if j == 0 || j == 3 || j == 6 then -1 else if j == 1 || j == 4 || j == 7 then 0 else 1
  }

  /** The adjacency list of p, in the order initializeTiles appends it. */
  function NeighborList(rows: int, cols: int, p: Pos): seq<Pos> {
    NeighborsBefore(rows, cols, p, 9)
  }

  /** The row-major rank of q's offset from p: -4 for (-1, -1) up to 4 for (1, 1). */
  function Rank(p: Pos, q: Pos): int {
    3 * (q.0 - p.0) + (q.1 - p.1)
  }

  lemma NeighborListUnfold(rows: int, cols: int, p: Pos)
    ensures NeighborList(rows, cols, p)
         == Candidate(rows, cols, p, -1, -1) + Candidate(rows, cols, p, -1, 0)
          + Candidate(rows, cols, p, -1, 1) + Candidate(rows, cols, p, 0, -1)
          + Candidate(rows, cols, p, 0, 1) + Candidate(rows, cols, p, 1, -1)
          + Candidate(rows, cols, p, 1, 0) + Candidate(rows, cols, p, 1, 1)
  {
    assert NeighborsBefore(rows, cols, p, 1) == Candidate(rows, cols, p, -1, -1);
    assert NeighborsBefore(rows, cols, p, 2) == NeighborsBefore(rows, cols, p, 1) + Candidate(rows, cols, p, -1, 0);
    assert NeighborsBefore(rows, cols, p, 3) == NeighborsBefore(rows, cols, p, 2) + Candidate(rows, cols, p, -1, 1);
    assert NeighborsBefore(rows, cols, p, 4) == NeighborsBefore(rows, cols, p, 3) + Candidate(rows, cols, p, 0, -1);
    assert NeighborsBefore(rows, cols, p, 5) == NeighborsBefore(rows, cols, p, 4);
    assert NeighborsBefore(rows, cols, p, 6) == NeighborsBefore(rows, cols, p, 5) + Candidate(rows, cols, p, 0, 1);
    assert NeighborsBefore(rows, cols, p, 7) == NeighborsBefore(rows, cols, p, 6) + Candidate(rows, cols, p, 1, -1);
    assert NeighborsBefore(rows, cols, p, 8) == NeighborsBefore(rows, cols, p, 7) + Candidate(rows, cols, p, 1, 0);
    assert NeighborsBefore(rows, cols, p, 9) == NeighborsBefore(rows, cols, p, 8) + Candidate(rows, cols, p, 1, 1);
  }

  /** The first k offsets produce exactly the on-board neighbours whose
      offset comes before number k in row-major order. */
  lemma {:induction false} NeighborsBeforeMembers(rows: int, cols: int, p: Pos, k: nat)
    requires k <= 9
    ensures forall q :: q in NeighborsBefore(rows, cols, p, k) <==>
              InGrid(rows, cols, q) && Adjacent(p, q) && Rank(p, q) + 4 < k
  {
    if k > 0 {
      NeighborsBeforeMembers(rows, cols, p, k - 1);
      var j := k - 1;
      var dr, dc := RowOffset(j), ColOffset(j);
      forall q
        ensures q in NeighborsBefore(rows, cols, p, k) <==>
                InGrid(rows, cols, q) && Adjacent(p, q) && Rank(p, q) + 4 < k
      {
        var a, b := q.0 - p.0 + 1, q.1 - p.1 + 1;
        if 0 <= a <= 2 && 0 <= b <= 2 && Rank(p, q) + 4 == j {
          assert j == 3 * a + b;
          assert q == (p.0 + dr, p.1 + dc);
        }
      }
    }
  }

  /** The adjacency list holds exactly the on-board cells adjacent to p; p itself never. */
  lemma NeighborListMembers(rows: int, cols: int, p: Pos)
    ensures forall q :: q in NeighborList(rows, cols, p) <==> InGrid(rows, cols, q) && Adjacent(p, q)
  {
    NeighborsBeforeMembers(rows, cols, p, 9);
  }

  /** Adjacency is symmetric: q is on p's list exactly when p is on q's. */
  lemma NeighborListSymmetric(rows: int, cols: int, p: Pos, q: Pos)
    requires InGrid(rows, cols, p) && InGrid(rows, cols, q)
    ensures q in NeighborList(rows, cols, p) <==> p in NeighborList(rows, cols, q)
  {
    NeighborListMembers(rows, cols, p);
    NeighborListMembers(rows, cols, q);
  }

  lemma {:induction false} NeighborsBeforeOrdered(rows: int, cols: int, p: Pos, k: nat)
    requires k <= 9
    ensures forall q :: q in NeighborsBefore(rows, cols, p, k) ==> Rank(p, q) < k - 4
    ensures forall i, j :: 0 <= i < j < |NeighborsBefore(rows, cols, p, k)| ==>
              Rank(p, NeighborsBefore(rows, cols, p, k)[i]) < Rank(p, NeighborsBefore(rows, cols, p, k)[j])
  {
    if k > 0 {
      NeighborsBeforeOrdered(rows, cols, p, k - 1);
    }
  }

  /** The adjacency list is in row-major order, so no cell is listed twice. */
  lemma NeighborListOrdered(rows: int, cols: int, p: Pos)
    ensures forall i, j :: 0 <= i < j < |NeighborList(rows, cols, p)| ==>
              Rank(p, NeighborList(rows, cols, p)[i]) < Rank(p, NeighborList(rows, cols, p)[j])
    ensures forall i, j :: 0 <= i < j < |NeighborList(rows, cols, p)| ==>
              NeighborList(rows, cols, p)[i] != NeighborList(rows, cols, p)[j]
  {
    NeighborsBeforeOrdered(rows, cols, p, 9);
  }

  /** How many of the rows (or columns) x - 1, x, x + 1 lie in 0 .. n - 1, for x on the board. */
  function Span(n: int, x: int): int {
    1 + (if x > 0 then 1 else 0) + (if x < n - 1 then 1 else 0)
  }

  /** The neighbourhood is the clipped 3 x 3 block around p, minus p. */
  lemma NeighborCount(rows: int, cols: int, p: Pos)
    requires InGrid(rows, cols, p)
    ensures |NeighborList(rows, cols, p)| == Span(rows, p.0) * Span(cols, p.1) - 1
    ensures |NeighborList(rows, cols, p)| <= 8
  {
    NeighborListUnfold(rows, cols, p);
    var up, down := Bit(p.0 > 0), Bit(p.0 < rows - 1);
    var left, right := Bit(p.1 > 0), Bit(p.1 < cols - 1);
    assert |NeighborList(rows, cols, p)|
        == up * left + up + up * right + left + right + down * left + down + down * right;
    assert Span(rows, p.0) * Span(cols, p.1) == (1 + up + down) * (1 + left + right);
  }

  /** On a board at least 2 x 2: a corner has 3 neighbours, another border cell 5, an inner cell 8. */
  lemma CornerEdgeInterior(rows: int, cols: int, p: Pos)
    requires rows >= 2 && cols >= 2 && InGrid(rows, cols, p)
    ensures (p.0 == 0 || p.0 == rows - 1) && (p.1 == 0 || p.1 == cols - 1) ==>
              |NeighborList(rows, cols, p)| == 3
    ensures (p.0 == 0 || p.0 == rows - 1) != (p.1 == 0 || p.1 == cols - 1) ==>
              |NeighborList(rows, cols, p)| == 5
    ensures 0 < p.0 < rows - 1 && 0 < p.1 < cols - 1 ==> |NeighborList(rows, cols, p)| == 8
  {
    NeighborCount(rows, cols, p);
  }

  /** One turn of the dr/dc loops appends the candidate at offset (dr, dc), except at (0, 0). */
  lemma NeighborsBeforeStep(rows: int, cols: int, p: Pos, dr: int, dc: int, k: nat)
    requires -1 <= dr <= 1 && -1 <= dc <= 1 && k == 3 * (dr + 1) + (dc + 1)
    ensures !(dr == 0 && dc == 0) && InGrid(rows, cols, (p.0 + dr, p.1 + dc)) ==>
              NeighborsBefore(rows, cols, p, k + 1) == NeighborsBefore(rows, cols, p, k) + [(p.0 + dr, p.1 + dc)]
    ensures (dr == 0 && dc == 0) || !InGrid(rows, cols, (p.0 + dr, p.1 + dc)) ==>
              NeighborsBefore(rows, cols, p, k + 1) == NeighborsBefore(rows, cols, p, k)
  {
    assert RowOffset(k) == dr && ColOffset(k) == dc;
  }

  /** initializeTiles' two inner loops over dr and dc: the adjacency list of p. */
  method AdjacentTiles(rows: int, cols: int, p: Pos) returns (adj: seq<Pos>)
    ensures adj == NeighborList(rows, cols, p)
    ensures forall q :: q in adj <==> InGrid(rows, cols, q) && Adjacent(p, q)
    ensures forall i, j :: 0 <= i < j < |adj| ==> adj[i] != adj[j]
  {
    adj := [];
    ghost var k: nat := 0;
    var dr := -1;
    while dr <= 1
      invariant -1 <= dr <= 2 && k == 3 * (dr + 1)
      invariant adj == NeighborsBefore(rows, cols, p, k)
    {
      var dc := -1;
      while dc <= 1
        invariant -1 <= dc <= 2 && k == 3 * (dr + 1) + (dc + 1)
        invariant adj == NeighborsBefore(rows, cols, p, k)
      {
        NeighborsBeforeStep(rows, cols, p, dr, dc, k);
        if !(dr == 0 && dc == 0) {
          var nr, nc := p.0 + dr, p.1 + dc;
          if nr >= 0 && nr < rows && nc >= 0 && nc < cols {
            adj := adj + [(nr, nc)];
          }
        }
        k := k + 1;
        dc := dc + 1;
      }
      dr := dr + 1;
    }
    NeighborListMembers(rows, cols, p);
    NeighborListOrdered(rows, cols, p);
  }

  // ---------------------------------------------------------------------
  // Counting
  // ---------------------------------------------------------------------

  /** Whether the cell q exists in g and holds a mine. */
  predicate MineAt(g: Grid, q: Pos) {
    0 <= q.0 < |g| && 0 <= q.1 < |g[q.0]| && g[q.0][q.1].isMine
  }

  /** How many cells of qs hold a mine, counted front to back as calculateAdjacentMines does. */
  function CountMinesIn(g: Grid, qs: seq<Pos>): nat {
    if qs == [] then 0
    else CountMinesIn(g, qs[..|qs| - 1]) + (if MineAt(g, qs[|qs| - 1]) then 1 else 0)
  }

  /** The adjacent-mine count calculateAdjacentMines stores for p. */
  function MinesAround(g: Grid, rows: int, cols: int, p: Pos): nat {
    CountMinesIn(g, NeighborList(rows, cols, p))
  }

  /** Independent definition: the set of mine cells in the clipped 3 x 3 block around p, p excluded. */
  function MineNeighbors(g: Grid, rows: int, cols: int, p: Pos): set<Pos> {
    set r, c | p.0 - 1 <= r <= p.0 + 1 && p.1 - 1 <= c <= p.1 + 1
               && InGrid(rows, cols, (r, c)) && (r, c) != p && MineAt(g, (r, c)) :: (r, c)
  }

  lemma {:induction false} CountMinesInIsCardinality(g: Grid, qs: seq<Pos>)
    requires forall i, j :: 0 <= i < j < |qs| ==> qs[i] != qs[j]
    ensures CountMinesIn(g, qs) == |set q | q in qs && MineAt(g, q)|
  {
    if qs != [] {
      var init, last := qs[..|qs| - 1], qs[|qs| - 1];
      CountMinesInIsCardinality(g, init);
      var before := set q | q in init && MineAt(g, q);
      var after := set q | q in qs && MineAt(g, q);
      assert qs == init + [last];
      assert last !in init by {
        forall i | 0 <= i < |init| ensures init[i] != last {
          assert init[i] == qs[i];
        }
      }
      assert after == before + (if MineAt(g, last) then {last} else {});
    }
  }

  /** The stored count is the number of mines among p's on-board neighbours: never p itself, at most 8. */
  lemma MinesAroundCorrect(g: Grid, rows: int, cols: int, p: Pos)
    requires InGrid(rows, cols, p)
    ensures MinesAround(g, rows, cols, p) == |MineNeighbors(g, rows, cols, p)|
    ensures MinesAround(g, rows, cols, p) <= |NeighborList(rows, cols, p)| <= 8
  {
    var nl := NeighborList(rows, cols, p);
    NeighborListOrdered(rows, cols, p);
    NeighborCount(rows, cols, p);
    CountMinesInIsCardinality(g, nl);
    MineNeighborsOnList(g, rows, cols, p);
    CountMinesInAtMost(g, nl);
  }

  /** The mine neighbours are the mine cells on the neighbour list. */
  lemma MineNeighborsOnList(g: Grid, rows: int, cols: int, p: Pos)
    ensures (set q | q in NeighborList(rows, cols, p) && MineAt(g, q)) == MineNeighbors(g, rows, cols, p)
  {
    var nl := NeighborList(rows, cols, p);
    NeighborListMembers(rows, cols, p);
    var s := set q | q in nl && MineAt(g, q);
    forall q
      ensures q in s <==> q in MineNeighbors(g, rows, cols, p)
    {
      if q in MineNeighbors(g, rows, cols, p) {
        assert q in nl;
      }
    }
  }

  lemma {:induction false} CountMinesInAtMost(g: Grid, qs: seq<Pos>)
    ensures CountMinesIn(g, qs) <= |qs|
  {
    if qs != [] {
      CountMinesInAtMost(g, qs[..|qs| - 1]);
    }
  }

  /** Two grids of the same shape whose mines sit in the same cells. */
  predicate SameMines(g1: Grid, g2: Grid) {
    && |g1| == |g2|
    && (forall r :: 0 <= r < |g1| ==> |g1[r]| == |g2[r]|)
    && forall r, c :: 0 <= r < |g1| && 0 <= c < |g1[r]| ==> g1[r][c].isMine == g2[r][c].isMine
  }

  /** Counts depend on where the mines are and on nothing else. */
  lemma {:induction false} CountMinesInSameMines(g1: Grid, g2: Grid, qs: seq<Pos>)
    requires SameMines(g1, g2)
    ensures CountMinesIn(g1, qs) == CountMinesIn(g2, qs)
  {
    if qs != [] {
      CountMinesInSameMines(g1, g2, qs[..|qs| - 1]);
      var q := qs[|qs| - 1];
      assert MineAt(g1, q) == MineAt(g2, q);
    }
  }

  /** Every mine-free tile stores the number of mines around it. */
  ghost predicate CountsCorrect(g: Grid, rows: int, cols: int)
    requires Shaped(g, rows, cols)
  {
    forall r, c :: 0 <= r < rows && 0 <= c < cols && !g[r][c].isMine ==>
      g[r][c].adjacentMines == MinesAround(g, rows, cols, (r, c))
  }

  /** With correct counts every mine-free tile shows a number from 0 to 8. */
  lemma CountsInRange(g: Grid, rows: int, cols: int, p: Pos)
    requires Shaped(g, rows, cols) && CountsCorrect(g, rows, cols)
    requires InGrid(rows, cols, p) && !At(g, p).isMine
    ensures 0 <= At(g, p).adjacentMines <= 8
  {
    MinesAroundCorrect(g, rows, cols, p);
  }

  /** How many tiles of one row satisfy P. */
  function CountRow(row: seq<TileState>, P: TileState -> bool): nat {
    if row == [] then 0
    else CountRow(row[..|row| - 1], P) + (if P(row[|row| - 1]) then 1 else 0)
  }

  /** How many tiles of the grid satisfy P. */
  function CountGrid(g: Grid, P: TileState -> bool): nat {
    if g == [] then 0 else CountGrid(g[..|g| - 1], P) + CountRow(g[|g| - 1], P)
  }

  predicate IsMine(t: TileState) {
    t.isMine
  }

  predicate IsHidden(t: TileState) {
    !t.revealed
  }

  predicate IsFlagged(t: TileState) {
    t.isFlagged
  }

  function Bit(b: bool): int {
    if b then 1 else 0
  }

  lemma {:induction false} CountRowUpdate(row: seq<TileState>, c: int, t: TileState, P: TileState -> bool)
    requires 0 <= c < |row|
    ensures CountRow(row[c := t], P) == CountRow(row, P) - Bit(P(row[c])) + Bit(P(t))
  {
    var n := |row|;
    if c < n - 1 {
      assert row[c := t][..n - 1] == row[..n - 1][c := t];
      CountRowUpdate(row[..n - 1], c, t, P);
    } else {
      assert row[c := t][..n - 1] == row[..n - 1];
    }
  }

  /** Replacing one tile changes a count by what the old and the new tile contribute. */
  lemma {:induction false} CountGridUpdate(g: Grid, p: Pos, t: TileState, P: TileState -> bool)
    requires 0 <= p.0 < |g| && 0 <= p.1 < |g[p.0]|
    ensures CountGrid(Update(g, p, t), P) == CountGrid(g, P) - Bit(P(At(g, p))) + Bit(P(t))
  {
    var n := |g|;
    var h := Update(g, p, t);
    if p.0 < n - 1 {
      assert h[..n - 1] == Update(g[..n - 1], p, t);
      CountGridUpdate(g[..n - 1], p, t, P);
    } else {
      assert h[..n - 1] == g[..n - 1];
      CountRowUpdate(g[n - 1], p.1, t, P);
    }
  }

  lemma {:induction false} CountRowSameMines(row1: seq<TileState>, row2: seq<TileState>)
    requires |row1| == |row2| && forall c :: 0 <= c < |row1| ==> row1[c].isMine == row2[c].isMine
    ensures CountRow(row1, IsMine) == CountRow(row2, IsMine)
  {
    if row1 != [] {
      CountRowSameMines(row1[..|row1| - 1], row2[..|row2| - 1]);
    }
  }

  /** The number of mines depends on where the mines are and on nothing else. */
  lemma {:induction false} CountGridSameMines(g1: Grid, g2: Grid)
    requires SameMines(g1, g2)
    ensures CountGrid(g1, IsMine) == CountGrid(g2, IsMine)
  {
    if g1 != [] {
      var n := |g1|;
      CountGridSameMines(g1[..n - 1], g2[..n - 1]);
      CountRowSameMines(g1[n - 1], g2[n - 1]);
    }
  }

  lemma {:induction false} CountRowAtMost(row: seq<TileState>, P: TileState -> bool)
    ensures CountRow(row, P) <= |row|
  {
    if row != [] {
      CountRowAtMost(row[..|row| - 1], P);
    }
  }

  /** No more tiles satisfy P than the board has. */
  lemma {:induction false} CountGridAtMost(g: Grid, rows: nat, cols: nat, P: TileState -> bool)
    requires Shaped(g, rows, cols)
    ensures CountGrid(g, P) <= rows * cols
  {
    if rows > 0 {
      CountGridAtMost(g[..rows - 1], rows - 1, cols, P);
      CountRowAtMost(g[rows - 1], P);
      assert (rows - 1) * cols + cols == rows * cols;
    }
  }

  lemma {:induction false} CountRowNone(row: seq<TileState>, P: TileState -> bool)
    requires forall c :: 0 <= c < |row| ==> !P(row[c])
    ensures CountRow(row, P) == 0
  {
    if row != [] {
      CountRowNone(row[..|row| - 1], P);
    }
  }

  /** A grid where no tile satisfies P counts zero. */
  lemma {:induction false} CountGridNone(g: Grid, P: TileState -> bool)
    requires forall r, c :: 0 <= r < |g| && 0 <= c < |g[r]| ==> !P(g[r][c])
    ensures CountGrid(g, P) == 0
  {
    if g != [] {
      CountGridNone(g[..|g| - 1], P);
      CountRowNone(g[|g| - 1], P);
    }
  }

  lemma {:induction false} CountRowAll(row: seq<TileState>, P: TileState -> bool)
    requires forall c :: 0 <= c < |row| ==> P(row[c])
    ensures CountRow(row, P) == |row|
  {
    if row != [] {
      CountRowAll(row[..|row| - 1], P);
    }
  }

  /** A rows x cols grid where every tile satisfies P counts rows * cols. */
  lemma {:induction false} CountGridAll(g: Grid, rows: nat, cols: nat, P: TileState -> bool)
    requires Shaped(g, rows, cols)
    requires forall r, c :: 0 <= r < rows && 0 <= c < cols ==> P(g[r][c])
    ensures CountGrid(g, P) == rows * cols
  {
    if rows > 0 {
      CountGridAll(g[..rows - 1], rows - 1, cols, P);
      CountRowAll(g[rows - 1], P);
      assert (rows - 1) * cols + cols == rows * cols;
    }
  }

  // ---------------------------------------------------------------------
  // Flood fill
  // ---------------------------------------------------------------------

  /** A cell the flood may uncover: on the board, hidden, mine-free and unflagged. */
  predicate Eligible(g: Grid, rows: int, cols: int, q: Pos)
    requires Shaped(g, rows, cols)
  {
    InGrid(rows, cols, q) && !At(g, q).revealed && !At(g, q).isMine && !At(g, q).isFlagged
  }

  /** A cell from which the flood spreads: on the board with no adjacent mine. */
  predicate Spreads(g: Grid, rows: int, cols: int, p: Pos)
    requires Shaped(g, rows, cols)
  {
    InGrid(rows, cols, p) && At(g, p).adjacentMines == 0
  }

  /** S is closed under one flood step: every zero-count member takes in all
      of its neighbours that are eligible in g. */
  ghost predicate Closed(g: Grid, rows: int, cols: int, S: set<Pos>)
    requires Shaped(g, rows, cols)
  {
    forall p, q :: p in S && Spreads(g, rows, cols, p) && Adjacent(p, q) && Eligible(g, rows, cols, q) ==> q in S
  }

  /** The flood region of start in g: the least set that contains start and is closed. */
  ghost predicate FloodRegion(g: Grid, rows: int, cols: int, start: Pos, region: set<Pos>)
    requires Shaped(g, rows, cols)
  {
    && start in region
    && Closed(g, rows, cols, region)
    && forall S :: start in S && Closed(g, rows, cols, S) ==> region <= S
  }

  /** The cells revealed in g1 that were hidden in g0. */
  function Newly(g0: Grid, g1: Grid, rows: int, cols: int): set<Pos>
    requires Shaped(g0, rows, cols) && Shaped(g1, rows, cols)
  {
    set r, c | 0 <= r < rows && 0 <= c < cols && g1[r][c].revealed && !g0[r][c].revealed :: (r, c)
  }

  /** The flood region is unique, so it does not depend on the order in which
      neighbours are visited. */
  lemma FloodRegionUnique(g: Grid, rows: int, cols: int, start: Pos, n1: set<Pos>, n2: set<Pos>)
    requires Shaped(g, rows, cols)
    requires FloodRegion(g, rows, cols, start, n1) && FloodRegion(g, rows, cols, start, n2)
    ensures n1 == n2
  {
  }

  /** The flood from an eligible cell never takes in a mine, a flagged tile or a revealed one. */
  lemma FloodRegionEligible(g: Grid, rows: int, cols: int, start: Pos, region: set<Pos>)
    requires Shaped(g, rows, cols)
    requires Eligible(g, rows, cols, start) && FloodRegion(g, rows, cols, start, region)
    ensures forall q :: q in region ==> Eligible(g, rows, cols, q)
  {
    var e := set r, c | 0 <= r < rows && 0 <= c < cols && Eligible(g, rows, cols, (r, c)) :: (r, c);
    assert start in e;
    assert Closed(g, rows, cols, e);
  }

  /** A reveal order witnessing reachability: it starts at start and every later
      cell is eligible and adjacent to an earlier zero-count cell (its parent). */
  ghost predicate RevealOrder(g: Grid, rows: int, cols: int, start: Pos, order: seq<Pos>, parent: seq<int>)
    requires Shaped(g, rows, cols)
  {
    && |order| > 0 && |parent| == |order| && order[0] == start
    && forall k :: 0 < k < |order| ==>
         && 0 <= parent[k] < k
         && Spreads(g, rows, cols, order[parent[k]])
         && Adjacent(order[parent[k]], order[k])
         && Eligible(g, rows, cols, order[k])
  }

  lemma {:induction false} OrderedInClosed(g: Grid, rows: int, cols: int, start: Pos,
                                           order: seq<Pos>, parent: seq<int>, S: set<Pos>, k: int)
    requires Shaped(g, rows, cols) && RevealOrder(g, rows, cols, start, order, parent)
    requires start in S && Closed(g, rows, cols, S) && 0 <= k < |order|
    ensures order[k] in S
    decreases k
  {
    if k > 0 {
      OrderedInClosed(g, rows, cols, start, order, parent, S, parent[k]);
    }
  }

  /** A closed set that is covered by a reveal order from start is the flood region of start. */
  lemma RegionFromOrder(g: Grid, rows: int, cols: int, start: Pos, order: seq<Pos>, parent: seq<int>, region: set<Pos>)
    requires Shaped(g, rows, cols) && RevealOrder(g, rows, cols, start, order, parent)
    requires Closed(g, rows, cols, region)
    requires forall q :: q in region <==> q in order
    ensures FloodRegion(g, rows, cols, start, region)
  {
    forall S | start in S && Closed(g, rows, cols, S)
      ensures region <= S
    {
      forall q | q in region
        ensures q in S
      {
        var k :| 0 <= k < |order| && order[k] == q;
        OrderedInClosed(g, rows, cols, start, order, parent, S, k);
      }
    }
  }
}
