/** The search as the source runs it (src/ai/minimax.ts): one mutable board,
    each move written before the child search and cleared after it. The
    methods compute what the functional model computes and leave the board
    as they found it. */
module InPlace {
  import opened Types
  import opened GameBoard
  import opened Candidates
  import opened Search
  import opened Evaluation

  predicate IsGrid(a: array2<Cell>) {
    a.Length0 == N && a.Length1 == N
  }

  /** The board an array holds. */
  function Snapshot(a: array2<Cell>): (b: Board)
    requires IsGrid(a)
    reads a
  {
    seq(N, r reads a requires 0 <= r < N => seq(N, k reads a requires 0 <= k < N => a[r, k]))
  }

  /** Each cell of the snapshot is the array's entry. */
  lemma SnapshotCells(a: array2<Cell>)
    requires IsGrid(a)
    ensures forall c :: IsValidCoord(c) ==> At(Snapshot(a), c) == a[c.row, c.col]
  {
  }

  /** One assignment to the array, `board[row][col] = x`: the snapshot
      changes at that cell alone. */
  method Write(a: array2<Cell>, c: Coord, x: Cell, ghost b: Board)
    requires IsGrid(a) && IsValidCoord(c) && Snapshot(a) == b
    modifies a
    ensures Snapshot(a) == SetCell(b, c, x)
  {
    SnapshotCells(a);
    a[c.row, c.col] := x;
    SnapshotCells(a);
    SameCells(Snapshot(a), SetCell(b, c, x));
  }

  /** Two boards that agree on every cell are the same board. */
  lemma SameCells(b1: Board, b2: Board)
    requires forall c :: IsValidCoord(c) ==> At(b1, c) == At(b2, c)
    ensures b1 == b2
  {
    forall r | 0 <= r < N
      ensures b1[r] == b2[r]
    {
      forall k | 0 <= k < N
        ensures b1[r][k] == b2[r][k]
      {
        assert At(b1, Coord(r, k)) == At(b2, Coord(r, k));
      }
    }
  }

  /** `negamax` on the shared board. It is only reached from
      `findBestMove`, with the move count plus one. */
  method NegamaxInPlace(a: array2<Cell>, p: Player, depth: int, alpha: ExtReal, beta: ExtReal,
                        moveCount: int, last: Option<Coord>) returns (v: real)
    requires IsGrid(a) && moveCount >= 1
    requires last.Some? ==> IsValidCoord(last.value)
    modifies a
    ensures Snapshot(a) == old(Snapshot(a))
    ensures v == Negamax(old(Snapshot(a)), p, depth, alpha, beta, moveCount, last)
    decreases MovesLeft(moveCount), 2
  {
    var b := Snapshot(a);
    var t := Terminal(b, p, depth, moveCount, last);
    if t.Some? {
      return t.value;
    }
    var cands := GetCandidates(b, moveCount);
    if |cands| == 0 {
      return Evaluate(b, p);
    }
    var r := LoopInPlace(a, p, depth, alpha, beta, moveCount, cands);
    v := r.v;
  }

  /** The move loop of `negamax` on the shared board: every candidate is an
      empty cell of it. */
  method LoopInPlace(a: array2<Cell>, p: Player, depth: int, alpha: ExtReal, beta: ExtReal,
                     moveCount: int, cands: seq<Coord>) returns (r: ExtReal)
    requires IsGrid(a) && 1 <= moveCount < N * N && 0 < |cands| && AllValid(cands)
    requires forall k :: 0 <= k < |cands| ==> IsOpen(Snapshot(a), cands[k])
    modifies a
    ensures Snapshot(a) == old(Snapshot(a))
    ensures r == NegamaxLoop(old(Snapshot(a)), p, depth, alpha, beta, moveCount, cands, 0, NegInf)
    decreases MovesLeft(moveCount), 1
  {
    ghost var b := Snapshot(a);
    var al := alpha;
    r := NegInf;
    var i := 0;
    while i < |cands|
      invariant 0 <= i <= |cands|
      invariant Snapshot(a) == b
      invariant NegamaxLoop(b, p, depth, al, beta, moveCount, cands, i, r) ==
                NegamaxLoop(b, p, depth, alpha, beta, moveCount, cands, 0, NegInf)
      decreases |cands| - i
    {
      var s := ChildInPlace(a, p, depth, al, beta, moveCount, cands[i]);
      LoopUnfold(b, p, depth, al, beta, moveCount, cands, i, r, s);
      if Lt(r, Fin(s)) {
        r := Fin(s);
      }
      if Lt(al, Fin(s)) {
        al := Fin(s);
      }
      if Le(beta, al) {
        return;
      }
      i := i + 1;
    }
  }

  /** One turn of either loop: place the stone, search the reply, clear the
      cell. The cell was empty, so clearing it restores the board. */
  method ChildInPlace(a: array2<Cell>, p: Player, depth: int, alpha: ExtReal, beta: ExtReal,
                      moveCount: int, c: Coord) returns (s: real)
    requires IsGrid(a) && moveCount >= 0 && IsOpen(Snapshot(a), c)
    modifies a
    ensures Snapshot(a) == old(Snapshot(a))
    ensures s == ChildScore(old(Snapshot(a)), p, depth, alpha, beta, moveCount, c)
    decreases MovesLeft(moveCount), if moveCount < N * N then 0 else 3
  {
    var b := Snapshot(a);
    Write(a, c, Stone(p), b);
    var v := NegamaxInPlace(a, Opponent(p), depth - 1, Neg(beta), Neg(alpha), moveCount + 1, Some(c));
    Write(a, c, Empty, Place(b, c, p));
    PlaceThenClear(b, c, p);
    s := -v;
  }

  /** `findBestMove` on the shared board; the root loop keeps the index of
      the best move. A negative move count is not a count of moves and is
      excluded. */
  method FindBestMoveInPlace(a: array2<Cell>, p: Player, moveCount: int, depth: int)
    returns (r: Option<Coord>)
    requires IsGrid(a) && moveCount >= 0
    modifies a
    ensures Snapshot(a) == old(Snapshot(a))
    ensures r == FindBestMove(old(Snapshot(a)), p, moveCount, depth)
  {
    var b := Snapshot(a);
    var cands := GetCandidates(b, moveCount);
    if |cands| == 1 {
      return Some(cands[0]);
    }
    if |cands| == 0 {
      return None;
    }
    var bestMove := RootInPlace(a, p, moveCount, depth, cands);
    return Some(cands[bestMove]);
  }

  /** The root loop of `findBestMove` on the shared board: the index of the
      move it keeps. */
  method RootInPlace(a: array2<Cell>, p: Player, moveCount: int, depth: int, cands: seq<Coord>)
    returns (bestMove: int)
    requires IsGrid(a) && moveCount >= 0 && 0 < |cands| && AllValid(cands)
    requires forall k :: 0 <= k < |cands| ==> IsOpen(Snapshot(a), cands[k])
    modifies a
    ensures Snapshot(a) == old(Snapshot(a))
    ensures bestMove == RootLoop(old(Snapshot(a)), p, moveCount, depth, cands, 0, 0, NegInf)
  {
    ghost var b := Snapshot(a);
    bestMove := 0;
    var best := NegInf;
    var i := 0;
    while i < |cands|
      invariant 0 <= i <= |cands| && 0 <= bestMove < |cands|
      invariant Snapshot(a) == b
      invariant RootLoop(b, p, moveCount, depth, cands, i, bestMove, best) ==
                RootLoop(b, p, moveCount, depth, cands, 0, 0, NegInf)
      decreases |cands| - i
    {
      bestMove, best := RootTurn(a, p, moveCount, depth, cands, i, bestMove, best);
      i := i + 1;
    }
  }

  /** One turn of the root loop: a better score moves the kept index to
      this candidate, and the rest of the loop is unchanged. */
  method RootTurn(a: array2<Cell>, p: Player, moveCount: int, depth: int, cands: seq<Coord>,
                  i: int, bi: int, best: ExtReal) returns (bi': int, best': ExtReal)
    requires IsGrid(a) && moveCount >= 0 && AllValid(cands) && 0 <= i < |cands| && 0 <= bi < |cands|
    requires IsOpen(Snapshot(a), cands[i])
    modifies a
    ensures Snapshot(a) == old(Snapshot(a))
    ensures 0 <= bi' < |cands|
    ensures RootLoop(old(Snapshot(a)), p, moveCount, depth, cands, i + 1, bi', best') ==
            RootLoop(old(Snapshot(a)), p, moveCount, depth, cands, i, bi, best)
  {
    ghost var b := Snapshot(a);
    var s := ChildInPlace(a, p, depth, best, PosInf, moveCount, cands[i]);
    RootAdvance(b, p, moveCount, depth, cands, i, bi, best, s);
    if Lt(best, Fin(s)) {
      bi', best' := i, Fin(s);
    } else {
      bi', best' := bi, best;
    }
  }
}
