/** Board basics (src/game/board.ts) and the line geometry shared by the win
    check and the evaluator. */
module GameBoard {
  import opened Types

  /** In-range test for both axes. */
  predicate IsValidCoord(c: Coord) {
    0 <= c.row < N && 0 <= c.col < N
  }

  function At(b: Board, c: Coord): Cell
    requires IsValidCoord(c)
  {
    b[c.row][c.col]
  }

  /** The board with every cell empty. */
  function CreateEmptyBoard(): (b: Board)
    ensures forall c :: IsValidCoord(c) ==> At(b, c) == Empty
    ensures StoneCount(b) == 0
  {
    var b := seq(N, _ => seq(N, _ => Empty));
    EmptyRowsHoldNoStones(b);
    b
  }

  /** moveCount agrees with the number of stones on the board, and a game
      that is not over has no winner. */
  predicate Consistent(s: GameState) {
    s.moveCount == StoneCount(s.board) && (!s.isGameOver ==> s.winner.None?)
  }

  /** The state a new game starts from: black to move on an empty board. */
  function CreateInitialGameState(): (s: GameState)
    ensures forall c :: IsValidCoord(c) ==> At(s.board, c) == Empty
    ensures s.currentPlayer == Black && s.lastMove.None?
    ensures !s.isGameOver && s.winner.None?
    ensures Consistent(s)
  {
    GameState(CreateEmptyBoard(), Black, 0, None, false, None)
  }

  /** The source reads `board[row][col] === null`: a row outside the board
      throws, a column outside it reads `undefined`, which is not `null`. */
  function IsCellEmpty(b: Board, c: Coord): (r: bool)
    requires 0 <= c.row < N
    ensures IsValidCoord(c) ==> (r <==> At(b, c) == Empty)
    ensures !(0 <= c.col < N) ==> !r
  {
    0 <= c.col < N && b[c.row][c.col] == Empty
  }

  /** The other side; the search's `opponentOf` is the same function. */
  function Opponent(p: Player): (q: Player)
    ensures q != p
  {
    if p == Black then White else Black
  }

  lemma OpponentInvolution(p: Player)
    ensures Opponent(Opponent(p)) == p
  {
  }

  /** Writing one cell: the written cell holds `x`, nothing else changes. */
  function SetCell(b: Board, c: Coord, x: Cell): (r: Board)
    requires IsValidCoord(c)
    ensures At(r, c) == x
    ensures forall c' :: IsValidCoord(c') && c' != c ==> At(r, c') == At(b, c')
  {
    b[c.row := b[c.row][c.col := x]]
  }

  /** Placing a stone of `p` at `c`. */
  function Place(b: Board, c: Coord, p: Player): Board
    requires IsValidCoord(c)
  {
    SetCell(b, c, Stone(p))
  }

  /** Clearing a cell that was empty before a stone was placed there gives
      the original board back. */
  lemma PlaceThenClear(b: Board, c: Coord, p: Player)
    requires IsValidCoord(c) && At(b, c) == Empty
    ensures SetCell(Place(b, c, p), c, Empty) == b
  {
    var r := SetCell(Place(b, c, p), c, Empty);
    forall i | 0 <= i < N
      ensures r[i] == b[i]
    {
      forall j | 0 <= j < N
        ensures r[i][j] == b[i][j]
      {
        assert At(r, Coord(i, j)) == At(b, Coord(i, j));
      }
    }
  }

  /** Key of the first cell in row-major order, where the scans of the
      candidate generator and the evaluator start. */
  const FirstKey: int := 0

  /** The integer key `row * N + col` that the candidate generator uses for
      its `seen` set. */
  function Key(c: Coord): int {
    c.row * N + c.col
  }

  function FromKey(k: int): Coord {
    Coord(k / N, k % N)
  }

  /** The key is a bijection between the cells and 0 .. N*N-1, so testing a
      key for membership is testing the coordinate. */
  lemma KeyRoundTrip(c: Coord, k: int)
    ensures IsValidCoord(c) ==> 0 <= Key(c) < N * N && FromKey(Key(c)) == c
    ensures 0 <= k < N * N ==> IsValidCoord(FromKey(k)) && Key(FromKey(k)) == k
  {
  }

  // ---------------------------------------------------------------------
  // Stone counting and the full board

  function CountRow(row: seq<Cell>): nat {
    if |row| == 0 then 0 else (if row[0].Stone? then 1 else 0) + CountRow(row[1..])
  }

  function CountRows(rows: seq<seq<Cell>>): nat {
    if |rows| == 0 then 0 else CountRow(rows[0]) + CountRows(rows[1..])
  }

  /** Number of stones on the board. */
  function StoneCount(b: Board): nat {
    CountRows(b)
  }

  /** Every cell holds a stone. */
  ghost predicate IsFull(b: Board) {
    forall c :: IsValidCoord(c) ==> At(b, c).Stone?
  }

  lemma {:induction false} EmptyRowsHoldNoStones(rows: seq<seq<Cell>>)
    requires forall i, j :: 0 <= i < |rows| && 0 <= j < |rows[i]| ==> rows[i][j] == Empty
    ensures CountRows(rows) == 0
  {
    if |rows| > 0 {
      EmptyRowHoldsNoStones(rows[0]);
      EmptyRowsHoldNoStones(rows[1..]);
    }
  }

  lemma {:induction false} EmptyRowHoldsNoStones(row: seq<Cell>)
    requires forall j :: 0 <= j < |row| ==> row[j] == Empty
    ensures CountRow(row) == 0
  {
    if |row| > 0 {
      EmptyRowHoldsNoStones(row[1..]);
    }
  }

  /** A row holds at most one stone per cell, and exactly that many only
      when every cell holds a stone. */
  lemma {:induction false} CountRowBound(row: seq<Cell>)
    ensures CountRow(row) <= |row|
    ensures CountRow(row) == |row| <==> forall j :: 0 <= j < |row| ==> row[j].Stone?
  {
    if |row| > 0 {
      CountRowBound(row[1..]);
      if CountRow(row) == |row| {
        forall j | 0 <= j < |row|
          ensures row[j].Stone?
        {
          if j > 0 {
            assert row[j] == row[1..][j - 1];
          }
        }
      }
      if forall j :: 0 <= j < |row| ==> row[j].Stone? {
        assert forall j :: 0 <= j < |row[1..]| ==> row[1..][j] == row[j + 1];
      }
    }
  }

  lemma {:induction false} CountRowsBound(rows: seq<seq<Cell>>)
    requires forall i :: 0 <= i < |rows| ==> |rows[i]| == N
    ensures CountRows(rows) <= N * |rows|
    ensures CountRows(rows) == N * |rows| <==>
              forall i, j :: 0 <= i < |rows| && 0 <= j < N ==> rows[i][j].Stone?
  {
    if |rows| > 0 {
      CountRowBound(rows[0]);
      CountRowsBound(rows[1..]);
      if CountRows(rows) == N * |rows| {
        forall i, j | 0 <= i < |rows| && 0 <= j < N
          ensures rows[i][j].Stone?
        {
          if i > 0 {
            assert rows[i] == rows[1..][i - 1];
          }
        }
      }
      if forall i, j :: 0 <= i < |rows| && 0 <= j < N ==> rows[i][j].Stone? {
        assert forall i, j :: 0 <= i < |rows[1..]| && 0 <= j < N ==>
                 rows[1..][i][j] == rows[i + 1][j];
      }
    }
  }

  /** A board holds at most N*N stones, and exactly N*N when it is full. */
  lemma StoneCountFull(b: Board)
    ensures StoneCount(b) <= N * N
    ensures StoneCount(b) == N * N <==> IsFull(b)
  {
    CountRowsBound(b);
    if IsFull(b) {
      forall i, j | 0 <= i < N && 0 <= j < N
        ensures b[i][j].Stone?
      {
        assert At(b, Coord(i, j)).Stone?;
      }
    }
  }

  // ---------------------------------------------------------------------
  // Line geometry shared by the win check and the evaluator

  /** A line direction (dr, dc). */
  datatype Dir = Dir(dr: int, dc: int)

  /** The four line directions, each declared once per axis: horizontal,
      vertical, and the two diagonals. Both the win check and the evaluator
      use this list in this order. */
  const Directions: seq<Dir> := [Dir(0, 1), Dir(1, 0), Dir(1, 1), Dir(1, -1)]

  function Reverse(d: Dir): Dir {
    Dir(-d.dr, -d.dc)
  }

  /** The cell `k` steps from `m` along `d` (negative `k` walks backwards). */
  function Step(m: Coord, d: Dir, k: int): Coord {
    Coord(m.row + d.dr * k, m.col + d.dc * k)
  }

  /** Walking `i` steps and then `j` steps is walking `i + j` steps. */
  lemma StepAdd(q: Coord, d: Dir, i: int, j: int)
    ensures Step(Step(q, d, i), d, j) == Step(q, d, i + j)
  {
    assert d.dr * i + d.dr * j == d.dr * (i + j);
    assert d.dc * i + d.dc * j == d.dc * (i + j);
  }

  /** Walking the reversed direction is walking backwards. */
  lemma StepReverse(m: Coord, d: Dir, t: int)
    ensures Step(m, Reverse(d), t) == Step(m, d, -t)
    ensures Step(m, d, 0) == m
  {
  }

  /** `q` is on the board and holds a stone of `p`. */
  predicate Owns(b: Board, p: Player, q: Coord) {
    IsValidCoord(q) && At(b, q) == Stone(p)
  }

  /** `q` is on the board and empty. */
  predicate IsOpen(b: Board, q: Coord) {
    IsValidCoord(q) && At(b, q) == Empty
  }
}
