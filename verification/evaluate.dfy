/** The static evaluator (src/ai/evaluate.ts): every maximal run of stones
    is scored once per direction from an open-ends x length table, and the
    result is the player's sum minus 1.1 times the opponent's. */
module Evaluation {
  import opened Types
  import opened GameBoard

  /** Points for a run of five or more, whatever its ends. */
  const FiveScore: nat := 1_000_000

  /** `Scores[openEnds][length]` for runs of length 1 .. 4. */
  const Scores: seq<seq<nat>> := [
    [0, 0, 0, 0, 0],
    [0, 2, 15, 150, 15_000],
    [0, 5, 50, 1_500, 100_000]
  ]

  /** Weight of the opponent's sum, as an exact rational. */
  const ThreatMultiplier: real := 1.1

  /** The scan direction of each axis points forward in row-major order:
      down, or right along a row. */
  predicate Forward(d: Dir) {
    d.dr == 1 || (d.dr == 0 && d.dc == 1)
  }

  predicate AllForward(ds: seq<Dir>) {
    forall i :: 0 <= i < |ds| ==> Forward(ds[i])
  }

  // ---------------------------------------------------------------------
  // One run

  /** The `while` loop: the number of consecutive stones of `p` from `q`
      onwards along `d`. It is the maximal run: every counted cell holds
      `p` and the cell after the last does not. */
  function Run(b: Board, p: Player, q: Coord, d: Dir): (n: nat)
    requires Forward(d)
    ensures forall i :: 0 <= i < n ==> Owns(b, p, Step(q, d, i))
    ensures !Owns(b, p, Step(q, d, n))
    decreases if d.dr == 1 then N - q.row else N - q.col
  {
    if !Owns(b, p, q) then
      assert Step(q, d, 0) == q;
      0
    else
      var m := Run(b, p, Step(q, d, 1), d);
      StepAdd(q, d, 1, m);
      forall i | 0 <= i < 1 + m
        ensures Owns(b, p, Step(q, d, i))
      {
        if i > 0 {
          StepAdd(q, d, 1, i - 1);
        } else {
          assert Step(q, d, 0) == q;
        }
      }
      1 + m
  }

  /** The ends of a run of length `len` from `q` that are on the board and
      empty: the cell before `q` and the cell after the run. */
  function OpenEnds(b: Board, q: Coord, d: Dir, len: nat): (e: nat)
    ensures e <= 2
    ensures e == 2 <==> IsOpen(b, Step(q, d, -1)) && IsOpen(b, Step(q, d, len))
    ensures e == 0 <==> !IsOpen(b, Step(q, d, -1)) && !IsOpen(b, Step(q, d, len))
  {
    (if IsOpen(b, Step(q, d, -1)) then 1 else 0) + (if IsOpen(b, Step(q, d, len)) then 1 else 0)
  }

  /** Points for a run: a flat `FiveScore` from five stones on, otherwise
      the table entry. */
  function RunPoints(len: nat, openEnds: nat): (pts: nat)
    requires 1 <= len && openEnds <= 2
    ensures pts == FiveScore <==> len >= 5
    ensures pts <= FiveScore
    ensures pts == 0 <==> len < 5 && openEnds == 0
  {
    if len >= 5 then FiveScore else Scores[openEnds][len]
  }

  /** The table rewards longer runs and more open ends: below five stones
      two open ends beat one, which beats none, and with an open end every
      extra stone adds points. */
  lemma RunPointsMonotone(len: nat, len': nat, e: nat, e': nat)
    requires 1 <= len <= len' && e <= e' <= 2
    ensures RunPoints(len, e) <= RunPoints(len', e')
    ensures len' < 5 && e < e' ==> RunPoints(len, e) < RunPoints(len', e')
    ensures len < len' && len < 5 && 1 <= e ==> RunPoints(len, e) < RunPoints(len', e')
  {
    if len' < 5 {
      assert len == 1 || len == 2 || len == 3 || len == 4;
      assert len' == 1 || len' == 2 || len' == 3 || len' == 4;
      assert e == 0 || e == 1 || e == 2;
    }
  }

  /** The value of the run of `p` starting at `q`. */
  function RunValue(b: Board, p: Player, q: Coord, d: Dir): nat
    requires Forward(d) && Owns(b, p, q)
  {
    assert Step(q, d, 0) == q;
    var len := Run(b, p, q, d);
    RunPoints(len, OpenEnds(b, q, d, len))
  }

  // ---------------------------------------------------------------------
  // The loops of the source

  /** The running pair (myScore, oppScore). */
  datatype Tally = Tally(mine: nat, theirs: nat)

  function Add(s: Tally, t: Tally): Tally {
    Tally(s.mine + t.mine, s.theirs + t.theirs)
  }

  /** The body of the cell loop: an empty cell and a cell continuing a run
      of its own colour add nothing; the first cell of a run adds the run's
      value to its owner's side. */
  function CellTally(b: Board, player: Player, d: Dir, q: Coord): Tally
    requires IsValidCoord(q) && Forward(d)
  {
    match b[q.row][q.col]
    case Empty => Tally(0, 0)
    case Stone(c) =>
      if Owns(b, c, Step(q, d, -1)) then Tally(0, 0)
      else
        var pts := RunValue(b, c, q, d);
        if c == player then Tally(pts, 0) else Tally(0, pts)
  }

  /** The row and column loops for one direction, from key `k` on. */
  function LineTally(b: Board, player: Player, d: Dir, k: int): Tally
    requires Forward(d) && FirstKey <= k <= N * N
    decreases N * N - k
  {
    if k == N * N then Tally(0, 0)
    else Add(CellTally(b, player, d, FromKey(k)), LineTally(b, player, d, k + 1))
  }

  /** The direction loop. */
  function BoardTally(b: Board, player: Player, ds: seq<Dir>): Tally
    requires AllForward(ds)
  {
    if |ds| == 0 then Tally(0, 0)
    else Add(LineTally(b, player, ds[0], FirstKey), BoardTally(b, player, ds[1..]))
  }

  /** `myScore - oppScore * 1.1`. */
  function Evaluate(b: Board, player: Player): real {
    var t := BoardTally(b, player, Directions);
    t.mine as real - t.theirs as real * ThreatMultiplier
  }

  // ---------------------------------------------------------------------
  // Per-owner sums

  /** Points credited to `p` by the cell `q` in direction `d`: the run's
      value when `q` starts a run of `p`, nothing otherwise. */
  function Points(b: Board, p: Player, d: Dir, q: Coord): nat
    requires Forward(d)
  {
    if Owns(b, p, q) && !Owns(b, p, Step(q, d, -1)) then RunValue(b, p, q, d) else 0
  }

  function OwnerLine(b: Board, p: Player, d: Dir, k: int): nat
    requires Forward(d) && FirstKey <= k <= N * N
    decreases N * N - k
  {
    if k == N * N then 0 else Points(b, p, d, FromKey(k)) + OwnerLine(b, p, d, k + 1)
  }

  function OwnerTotal(b: Board, p: Player, ds: seq<Dir>): nat
    requires AllForward(ds)
  {
    if |ds| == 0 then 0 else OwnerLine(b, p, ds[0], FirstKey) + OwnerTotal(b, p, ds[1..])
  }

  /** Everything the evaluator credits to `p`. */
  function Score(b: Board, p: Player): nat {
    OwnerTotal(b, p, Directions)
  }

  lemma CellTallySplits(b: Board, player: Player, d: Dir, q: Coord)
    requires IsValidCoord(q) && Forward(d)
    ensures CellTally(b, player, d, q) ==
            Tally(Points(b, player, d, q), Points(b, Opponent(player), d, q))
  {
  }

  lemma {:induction false} LineTallySplits(b: Board, player: Player, d: Dir, k: int)
    requires Forward(d) && FirstKey <= k <= N * N
    ensures LineTally(b, player, d, k) ==
            Tally(OwnerLine(b, player, d, k), OwnerLine(b, Opponent(player), d, k))
    decreases N * N - k
  {
    if k < N * N {
      CellTallySplits(b, player, d, FromKey(k));
      LineTallySplits(b, player, d, k + 1);
    }
  }

  lemma {:induction false} BoardTallySplits(b: Board, player: Player, ds: seq<Dir>)
    requires AllForward(ds)
    ensures BoardTally(b, player, ds) ==
            Tally(OwnerTotal(b, player, ds), OwnerTotal(b, Opponent(player), ds))
  {
    if |ds| > 0 {
      LineTallySplits(b, player, ds[0], FirstKey);
      BoardTallySplits(b, player, ds[1..]);
    }
  }

  /** The one-pass tally is the player's score against the opponent's. */
  lemma EvaluateSplits(b: Board, player: Player)
    ensures Evaluate(b, player) ==
            Score(b, player) as real - Score(b, Opponent(player)) as real * ThreatMultiplier
  {
    BoardTallySplits(b, player, Directions);
  }

  // ---------------------------------------------------------------------
  // Properties

  /** Each maximal run of `p` along `d`, from `s` for `n` stones, is
      credited once, at its first cell, with the value of its full length;
      the cells inside it add nothing. */
  lemma MaximalRunCountedOnce(b: Board, p: Player, d: Dir, s: Coord, n: nat)
    requires Forward(d) && 1 <= n
    requires forall i :: 0 <= i < n ==> Owns(b, p, Step(s, d, i))
    requires !Owns(b, p, Step(s, d, -1)) && !Owns(b, p, Step(s, d, n))
    ensures Points(b, p, d, s) == RunPoints(n, OpenEnds(b, s, d, n))
    ensures forall i :: 1 <= i < n ==> Points(b, p, d, Step(s, d, i)) == 0
  {
    assert Owns(b, p, Step(s, d, 0));
    assert Step(s, d, 0) == s;
    var len := Run(b, p, s, d);
    assert len < n ==> Owns(b, p, Step(s, d, len));
    assert n < len ==> Owns(b, p, Step(s, d, n));
    forall i | 1 <= i < n
      ensures Points(b, p, d, Step(s, d, i)) == 0
    {
      StepAdd(s, d, i, -1);
      assert Owns(b, p, Step(s, d, i - 1));
    }
  }

  /** A run of five or more is worth exactly `FiveScore`, open or not. */
  lemma FiveOrMoreScoresFlat(b: Board, p: Player, d: Dir, s: Coord, n: nat)
    requires Forward(d) && 5 <= n
    requires forall i :: 0 <= i < n ==> Owns(b, p, Step(s, d, i))
    requires !Owns(b, p, Step(s, d, -1)) && !Owns(b, p, Step(s, d, n))
    ensures Points(b, p, d, s) == FiveScore
  {
    MaximalRunCountedOnce(b, p, d, s, n);
  }

  lemma {:induction false} EmptyLineScoresNothing(b: Board, p: Player, d: Dir, k: int)
    requires Forward(d) && FirstKey <= k <= N * N
    requires forall c :: IsValidCoord(c) ==> At(b, c) == Empty
    ensures OwnerLine(b, p, d, k) == 0
    decreases N * N - k
  {
    if k < N * N {
      EmptyLineScoresNothing(b, p, d, k + 1);
    }
  }

  lemma {:induction false} EmptyBoardScoresNothing(b: Board, p: Player, ds: seq<Dir>)
    requires AllForward(ds)
    requires forall c :: IsValidCoord(c) ==> At(b, c) == Empty
    ensures OwnerTotal(b, p, ds) == 0
  {
    if |ds| > 0 {
      EmptyLineScoresNothing(b, p, ds[0], FirstKey);
      EmptyBoardScoresNothing(b, p, ds[1..]);
    }
  }

  /** A board without stones is worth 0 to either side. */
  lemma EmptyBoardIsLevel(b: Board, p: Player)
    requires forall c :: IsValidCoord(c) ==> At(b, c) == Empty
    ensures Evaluate(b, p) == 0.0
  {
    EvaluateSplits(b, p);
    EmptyBoardScoresNothing(b, p, Directions);
    EmptyBoardScoresNothing(b, Opponent(p), Directions);
  }

  /** Swapping the roles swaps the two sums: the evaluator is pessimistic,
      the two sides' views add up to at most 0, and to exactly 0 only when
      neither side has a scoring run. */
  lemma ViewsArePessimistic(b: Board, p: Player)
    ensures Evaluate(b, p) + Evaluate(b, Opponent(p)) <= 0.0
    ensures Evaluate(b, p) + Evaluate(b, Opponent(p)) == 0.0 <==>
              Score(b, p) == 0 && Score(b, Opponent(p)) == 0
  {
    EvaluateSplits(b, p);
    EvaluateSplits(b, Opponent(p));
    OpponentInvolution(p);
  }

  /** Equal threats on both sides leave the player behind: the opponent's
      sum weighs 1.1 times as much. */
  lemma MirroredThreatsFavourOpponent(b: Board, p: Player)
    requires Score(b, p) == Score(b, Opponent(p)) > 0
    ensures Evaluate(b, p) < 0.0
  {
    EvaluateSplits(b, p);
  }

  // ---------------------------------------------------------------------
  // Colour symmetry

  function SwapCell(x: Cell): Cell {
    match x
    case Empty => Empty
    case Stone(p) => Stone(Opponent(p))
  }

  /** The board with every stone changed to the other colour. */
  function SwapColours(b: Board): (r: Board)
    ensures forall c :: IsValidCoord(c) ==> At(r, c) == SwapCell(At(b, c))
  {
    seq(N, i requires 0 <= i < N => seq(N, j requires 0 <= j < N => SwapCell(b[i][j])))
  }

  lemma SwapOwns(b: Board, p: Player, q: Coord)
    ensures Owns(SwapColours(b), Opponent(p), q) <==> Owns(b, p, q)
    ensures IsOpen(SwapColours(b), q) <==> IsOpen(b, q)
  {
    OpponentInvolution(p);
    if IsValidCoord(q) {
      if At(b, q).Stone? {
        OpponentInvolution(At(b, q).owner);
      }
    }
  }

  lemma {:induction false} SwapRun(b: Board, p: Player, q: Coord, d: Dir)
    requires Forward(d)
    ensures Run(SwapColours(b), Opponent(p), q, d) == Run(b, p, q, d)
    decreases if d.dr == 1 then N - q.row else N - q.col
  {
    SwapOwns(b, p, q);
    if Owns(b, p, q) {
      SwapRun(b, p, Step(q, d, 1), d);
    }
  }

  lemma SwapPoints(b: Board, p: Player, d: Dir, q: Coord)
    requires Forward(d)
    ensures Points(SwapColours(b), Opponent(p), d, q) == Points(b, p, d, q)
  {
    SwapOwns(b, p, q);
    SwapOwns(b, p, Step(q, d, -1));
    if Owns(b, p, q) {
      var len := Run(b, p, q, d);
      SwapRun(b, p, q, d);
      SwapOwns(b, p, Step(q, d, len));
    }
  }

  lemma {:induction false} SwapOwnerLine(b: Board, p: Player, d: Dir, k: int)
    requires Forward(d) && FirstKey <= k <= N * N
    ensures OwnerLine(SwapColours(b), Opponent(p), d, k) == OwnerLine(b, p, d, k)
    decreases N * N - k
  {
    if k < N * N {
      SwapPoints(b, p, d, FromKey(k));
      SwapOwnerLine(b, p, d, k + 1);
    }
  }

  lemma {:induction false} SwapOwnerTotal(b: Board, p: Player, ds: seq<Dir>)
    requires AllForward(ds)
    ensures OwnerTotal(SwapColours(b), Opponent(p), ds) == OwnerTotal(b, p, ds)
  {
    if |ds| > 0 {
      SwapOwnerLine(b, p, ds[0], FirstKey);
      SwapOwnerTotal(b, p, ds[1..]);
    }
  }

  /** The evaluator has no colour bias: swapping every stone's colour and
      the side to score gives the same value. */
  lemma EvaluateColourBlind(b: Board, p: Player)
    ensures Evaluate(SwapColours(b), Opponent(p)) == Evaluate(b, p)
  {
    EvaluateSplits(b, p);
    EvaluateSplits(SwapColours(b), Opponent(p));
    OpponentInvolution(p);
    SwapOwnerTotal(b, p, Directions);
    SwapOwnerTotal(b, Opponent(p), Directions);
    assert Opponent(Opponent(p)) == p;
  }
}
