/** The search (src/ai/minimax.ts): negamax with alpha-beta pruning over the
    candidate moves, and the root loop that picks the move. */
module Search {
  import opened Types
  import opened GameBoard
  import opened Win
  import opened Candidates
  import opened Evaluation

  /** Base of the value of a decided game. */
  const WinScore: int := 1_000_000

  // ---------------------------------------------------------------------
  // Scores with infinities

  /** A score, or one of the infinities the source starts its windows and
      maxima from. */
  datatype ExtReal = NegInf | Fin(v: real) | PosInf

  predicate Lt(x: ExtReal, y: ExtReal) {
    if x.NegInf? then !y.NegInf?
    else if x.PosInf? then false
    else y.PosInf? || (y.Fin? && x.v < y.v)
  }

  predicate Le(x: ExtReal, y: ExtReal) {
    x == y || Lt(x, y)
  }

  function Neg(x: ExtReal): ExtReal {
    match x
    case NegInf => PosInf
    case Fin(a) => Fin(-a)
    case PosInf => NegInf
  }

  /** The larger of two scores, keeping `x` on a tie. */
  function Max(x: ExtReal, y: ExtReal): ExtReal {
    if Lt(x, y) then y else x
  }

  /** The order is total and negation reverses it. */
  lemma ExtRealOrder(x: ExtReal, y: ExtReal)
    ensures Le(x, y) || Lt(y, x)
    ensures !(Lt(x, y) && Le(y, x))
    ensures Lt(x, y) <==> Lt(Neg(y), Neg(x))
    ensures Neg(Neg(x)) == x
    ensures Le(x, Max(x, y)) && Le(y, Max(x, y))
    ensures Max(x, y) == x || Max(x, y) == y
  {
  }

  lemma ExtRealTrans(x: ExtReal, y: ExtReal, z: ExtReal)
    ensures Le(x, y) && Le(y, z) ==> Le(x, z)
    ensures Lt(x, y) && Le(y, z) ==> Lt(x, z)
    ensures Le(x, y) && Lt(y, z) ==> Lt(x, z)
  {
  }

  // ---------------------------------------------------------------------
  // The searches

  /** The three tests before the move loop, in the source's order: a win by
      the stone just played (a loss for the side to move, worse the sooner
      it comes), the draw, the depth limit. */
  function Terminal(b: Board, p: Player, depth: int, moveCount: int, last: Option<Coord>): (r: Option<real>)
    requires last.Some? ==> IsValidCoord(last.value)
    ensures r.None? <==> (last.None? || CheckWin(b, last.value).None?) && moveCount < N * N && depth != 0
    ensures last.Some? && CheckWin(b, last.value).Some? ==> r == Some(-(WinScore + depth) as real)
    ensures (last.None? || CheckWin(b, last.value).None?) ==>
              (IsDraw(moveCount) ==> r == Some(0.0)) &&
              (!IsDraw(moveCount) && depth == 0 ==> r == Some(Evaluate(b, p)))
  {
    if last.Some? && CheckWin(b, last.value).Some? then Some(-(WinScore + depth) as real)
    else if IsDraw(moveCount) then Some(0.0)
    else if depth == 0 then Some(Evaluate(b, p))
    else None
  }

  predicate AllValid(cs: seq<Coord>) {
    forall k :: 0 <= k < |cs| ==> IsValidCoord(cs[k])
  }

  /** The moves still to be played on the board before the draw rule
      ends the game. */
  function MovesLeft(moveCount: int): nat {
    if moveCount < N * N then N * N - moveCount else 0
  }

  /** `negamax`: the value of the position for `p`, searched within the
      window (alpha, beta). */
  function Negamax(b: Board, p: Player, depth: int, alpha: ExtReal, beta: ExtReal,
                   moveCount: int, last: Option<Coord>): real
    requires last.Some? ==> IsValidCoord(last.value)
    decreases MovesLeft(moveCount), 1, 0, 0
  {
    match Terminal(b, p, depth, moveCount, last)
    case Some(v) => v
    case None =>
      var cands := GetCandidates(b, moveCount);
      if |cands| == 0 then Evaluate(b, p)
      else NegamaxLoop(b, p, depth, alpha, beta, moveCount, cands, 0, NegInf).v
  }

  /** The score of move `c` for `p` in the window (alpha, beta): the
      negated search of the position after it, in the window
      (-beta, -alpha). */
  function ChildScore(b: Board, p: Player, depth: int, alpha: ExtReal, beta: ExtReal,
                      moveCount: int, c: Coord): real
    requires IsValidCoord(c)
    decreases MovesLeft(moveCount), if moveCount < N * N then 0 else 2, 0, 0
  {
    -Negamax(Place(b, c, p), Opponent(p), depth - 1, Neg(beta), Neg(alpha), moveCount + 1, Some(c))
  }

  /** The state of the move loop after one move: the new alpha, the new
      `bestScore`, and whether the loop stops here. */
  datatype LoopState = LoopState(alpha: ExtReal, best: ExtReal, cut: bool)

  /** One pass of the loop body for candidate `i`: the move is scored by
      the negated child search in the window (-beta, -alpha); `bestScore`
      and `alpha` rise on a strictly better score; the loop stops once
      alpha >= beta. */
  function LoopStep(b: Board, p: Player, depth: int, alpha: ExtReal, beta: ExtReal,
                    moveCount: int, cands: seq<Coord>, i: int, best: ExtReal): (w: LoopState)
    requires moveCount < N * N && AllValid(cands) && 0 <= i < |cands|
    ensures Le(alpha, w.alpha) && Le(best, w.best)
    ensures var s := ChildScore(b, p, depth, alpha, beta, moveCount, cands[i]);
            Le(Fin(s), w.best) && (w.best == best || w.best == Fin(s)) &&
            Le(Fin(s), w.alpha) && (w.alpha == alpha || w.alpha == Fin(s))
    ensures w.cut <==> Le(beta, w.alpha)
    decreases MovesLeft(moveCount), 0, |cands| - i, 0
  {
    var s := ChildScore(b, p, depth, alpha, beta, moveCount, cands[i]);
    var alpha' := Max(alpha, Fin(s));
    LoopState(alpha', Max(best, Fin(s)), Le(beta, alpha'))
  }

  /** The move loop from candidate `i` on, with the current `alpha` and
      `bestScore`. */
  function NegamaxLoop(b: Board, p: Player, depth: int, alpha: ExtReal, beta: ExtReal,
                       moveCount: int, cands: seq<Coord>, i: int, best: ExtReal): (r: ExtReal)
    requires moveCount < N * N && AllValid(cands) && 0 <= i <= |cands|
    ensures best != PosInf && (i < |cands| || best.Fin?) ==> r.Fin?
    ensures Le(best, r)
    decreases MovesLeft(moveCount), 0, |cands| - i, 1
  {
    if i == |cands| then best
    else
      var w := LoopStep(b, p, depth, alpha, beta, moveCount, cands, i, best);
      if w.cut then w.best
      else NegamaxLoop(b, p, depth, w.alpha, beta, moveCount, cands, i + 1, w.best)
  }

  /** The reference: the same game tree searched without pruning. */
  function Minimax(b: Board, p: Player, depth: int, moveCount: int, last: Option<Coord>): real
    requires last.Some? ==> IsValidCoord(last.value)
    decreases MovesLeft(moveCount), 1, 0, 0
  {
    match Terminal(b, p, depth, moveCount, last)
    case Some(v) => v
    case None =>
      var cands := GetCandidates(b, moveCount);
      if |cands| == 0 then Evaluate(b, p)
      else MaxFrom(b, p, depth, moveCount, cands, 0).v
  }

  /** The best of the moves `i` onwards. */
  function MaxFrom(b: Board, p: Player, depth: int, moveCount: int, cands: seq<Coord>, i: int): (r: ExtReal)
    requires moveCount < N * N && AllValid(cands) && 0 <= i <= |cands|
    ensures i < |cands| <==> r.Fin?
    decreases MovesLeft(moveCount), 0, |cands| - i, 1
  {
    if i == |cands| then NegInf
    else Max(Fin(MoveValue(b, p, depth, moveCount, cands[i])), MaxFrom(b, p, depth, moveCount, cands, i + 1))
  }

  /** The value to `p` of playing `c`, by the reference search. */
  function MoveValue(b: Board, p: Player, depth: int, moveCount: int, c: Coord): real
    requires IsValidCoord(c)
    decreases MovesLeft(moveCount), if moveCount < N * N then 0 else 2, 0, 0
  {
    -Minimax(Place(b, c, p), Opponent(p), depth - 1, moveCount + 1, Some(c))
  }

  /** `findBestMove`: a single candidate is returned at once; otherwise the
      root loop scores every candidate with the window (-inf, -bestScore)
      and keeps the first strictly best one. The source's `candidates[0]!`
      is undefined when there is no candidate: that is `None` here. */
  function FindBestMove(b: Board, p: Player, moveCount: int, depth: int): (r: Option<Coord>)
    ensures r.None? <==> |GetCandidates(b, moveCount)| == 0
    ensures r.Some? ==> r.value in GetCandidates(b, moveCount)
  {
    var cands := GetCandidates(b, moveCount);
    if |cands| == 1 then Some(cands[0])
    else if |cands| == 0 then None
    else Some(cands[RootLoop(b, p, moveCount, depth, cands, 0, 0, NegInf)])
  }

  /** The root loop from candidate `i` on; `bi` indexes the best move so
      far. */
  function RootLoop(b: Board, p: Player, moveCount: int, depth: int, cands: seq<Coord>,
                    i: int, bi: int, best: ExtReal): (r: int)
    requires AllValid(cands) && 0 <= i <= |cands| && 0 <= bi < |cands|
    ensures 0 <= r < |cands|
    ensures r == bi || i <= r
    decreases |cands| - i
  {
    if i == |cands| then bi
    else
      var s := ChildScore(b, p, depth, best, PosInf, moveCount, cands[i]);
      if Lt(best, Fin(s)) then RootLoop(b, p, moveCount, depth, cands, i + 1, i, Fin(s))
      else RootLoop(b, p, moveCount, depth, cands, i + 1, bi, best)
  }

  // ---------------------------------------------------------------------
  // Alpha-beta is sound

  /** What a fail-soft search promises about its result `r` against the
      true value `v`, for the window (alpha, beta): a result at or below
      alpha is an upper bound, one at or above beta a lower bound, and one
      strictly inside the window is exact. */
  predicate WindowSound(alpha: ExtReal, beta: ExtReal, r: ExtReal, v: ExtReal) {
    (Le(r, alpha) ==> Le(v, r)) &&
    (Le(beta, r) ==> Le(r, v)) &&
    (Lt(alpha, r) && Lt(r, beta) ==> r == v)
  }

  /** A beta cut: the move scored at least beta, so it is worth at least
      its score, which is the loop's result. */
  lemma CutoffStep(a0: ExtReal, beta: ExtReal, alpha: ExtReal, best: ExtReal, m: ExtReal,
                   s: real, mv: real, rest: ExtReal)
    requires alpha == Max(a0, best) && Lt(alpha, beta) && Le(m, best)
    requires WindowSound(Neg(beta), Neg(alpha), Fin(-s), Fin(-mv))
    requires Le(beta, Max(alpha, Fin(s)))
    ensures WindowSound(a0, beta, Max(best, Fin(s)), Max(m, Max(Fin(mv), rest)))
  {
    ExtRealOrder(a0, best);
    ExtRealOrder(alpha, beta);
    assert Lt(alpha, Fin(s)) by { ExtRealOrder(alpha, Fin(s)); }
    assert Le(beta, Fin(s));
    ExtRealTrans(a0, alpha, Fin(s));
    ExtRealTrans(best, alpha, Fin(s));
    assert Max(best, Fin(s)) == Fin(s);
    ExtRealOrder(Fin(s), beta);
    ExtRealOrder(Fin(s), a0);
    ExtRealOrder(beta, Fin(s));
    assert s <= mv;
    var rest' := Max(Fin(mv), rest);
    ExtRealOrder(Fin(mv), rest);
    ExtRealOrder(m, rest');
    ExtRealTrans(Fin(s), rest', Max(m, rest'));
  }
  /** No cut: the move is worth at most its score, and exactly its score
      when that beats alpha, so the invariant holds for the next move. */
  lemma ContinueStep(a0: ExtReal, beta: ExtReal, alpha: ExtReal, best: ExtReal, m: ExtReal,
                     s: real, mv: real)
    requires alpha == Max(a0, best) && Lt(alpha, beta)
    requires Le(m, best) && (Lt(a0, best) ==> m == best)
    requires WindowSound(Neg(beta), Neg(alpha), Fin(-s), Fin(-mv))
    requires !Le(beta, Max(alpha, Fin(s)))
    ensures Max(alpha, Fin(s)) == Max(a0, Max(best, Fin(s)))
    ensures Lt(Max(alpha, Fin(s)), beta)
    ensures Le(Max(m, Fin(mv)), Max(best, Fin(s)))
    ensures Lt(a0, Max(best, Fin(s))) ==> Max(m, Fin(mv)) == Max(best, Fin(s))
  {
    assert mv <= s;
    assert Lt(alpha, Fin(s)) ==> mv == s;
  }

  /** The end of the loop without a cut: the result is `best`. */
  lemma EndStep(a0: ExtReal, beta: ExtReal, alpha: ExtReal, best: ExtReal, m: ExtReal)
    requires alpha == Max(a0, best) && Lt(alpha, beta)
    requires Le(m, best) && (Lt(a0, best) ==> m == best)
    ensures WindowSound(a0, beta, best, Max(m, NegInf))
  {
  }

  lemma MaxAssoc(x: ExtReal, y: ExtReal, z: ExtReal)
    ensures Max(Max(x, y), z) == Max(x, Max(y, z))
  {
  }

  /** A move's pruned score is sound against its reference value, in the
      negated window of the child search. */
  lemma ChildSound(b: Board, p: Player, depth: int, alpha: ExtReal, beta: ExtReal,
                   moveCount: int, c: Coord)
    requires IsValidCoord(c) && Lt(alpha, beta)
    ensures WindowSound(Neg(beta), Neg(alpha), Fin(-ChildScore(b, p, depth, alpha, beta, moveCount, c)),
                        Fin(-MoveValue(b, p, depth, moveCount, c)))
    decreases MovesLeft(moveCount), if moveCount < N * N then 0 else 2, 0, 1
  {
    var child := Place(b, c, p);
    var q := Opponent(p);
    ExtRealOrder(alpha, beta);
    NegamaxSound(child, q, depth - 1, Neg(beta), Neg(alpha), moveCount + 1, Some(c));
    assert ChildScore(b, p, depth, alpha, beta, moveCount, c) ==
           -Negamax(child, q, depth - 1, Neg(beta), Neg(alpha), moveCount + 1, Some(c));
    assert MoveValue(b, p, depth, moveCount, c) == -Minimax(child, q, depth - 1, moveCount + 1, Some(c));
  }

  /** Alpha-beta returns the minimax value whenever it lands inside the
      window, and a bound in the right direction otherwise. */
  lemma {:induction false} NegamaxSound(b: Board, p: Player, depth: int, alpha: ExtReal, beta: ExtReal,
                                         moveCount: int, last: Option<Coord>)
    requires last.Some? ==> IsValidCoord(last.value)
    requires Lt(alpha, beta)
    ensures WindowSound(alpha, beta, Fin(Negamax(b, p, depth, alpha, beta, moveCount, last)),
                        Fin(Minimax(b, p, depth, moveCount, last)))
    decreases MovesLeft(moveCount), 1, 0, 0
  {
    if Terminal(b, p, depth, moveCount, last).None? {
      var cands := GetCandidates(b, moveCount);
      if |cands| > 0 {
        LoopSound(b, p, depth, alpha, beta, moveCount, cands, 0, alpha, NegInf, NegInf);
        assert Max(NegInf, MaxFrom(b, p, depth, moveCount, cands, 0)) ==
               MaxFrom(b, p, depth, moveCount, cands, 0);
      }
    }
  }

  /** The loop invariant: `m` is the true best of the moves before `i`;
      `best` bounds it from above and equals it once above the original
      alpha `a0`; the current alpha is the larger of `a0` and `best`, still
      below beta. */
  predicate LoopInvariant(a0: ExtReal, beta: ExtReal, alpha: ExtReal, best: ExtReal, m: ExtReal) {
    alpha == Max(a0, best) && Lt(alpha, beta) && Le(m, best) && (Lt(a0, best) ==> m == best)
  }

  /** One turn of the move loop: a cut ends it with a sound result;
      otherwise the invariant carries over to the next move. */
  lemma LoopTurn(b: Board, p: Player, depth: int, a0: ExtReal, beta: ExtReal,
                 moveCount: int, cands: seq<Coord>, i: int,
                 alpha: ExtReal, best: ExtReal, m: ExtReal)
    requires moveCount < N * N && AllValid(cands) && 0 <= i < |cands|
    requires LoopInvariant(a0, beta, alpha, best, m)
    ensures var w := LoopStep(b, p, depth, alpha, beta, moveCount, cands, i, best);
            var m' := Max(m, Fin(MoveValue(b, p, depth, moveCount, cands[i])));
            (w.cut ==> WindowSound(a0, beta, NegamaxLoop(b, p, depth, alpha, beta, moveCount, cands, i, best),
                                   Max(m, MaxFrom(b, p, depth, moveCount, cands, i)))) &&
            (!w.cut ==> LoopInvariant(a0, beta, w.alpha, w.best, m') &&
                        NegamaxLoop(b, p, depth, alpha, beta, moveCount, cands, i, best) ==
                          NegamaxLoop(b, p, depth, w.alpha, beta, moveCount, cands, i + 1, w.best) &&
                        Max(m, MaxFrom(b, p, depth, moveCount, cands, i)) ==
                          Max(m', MaxFrom(b, p, depth, moveCount, cands, i + 1)))
    decreases MovesLeft(moveCount), 0, |cands| - i, 0
  {
    var c := cands[i];
    var s := ChildScore(b, p, depth, alpha, beta, moveCount, c);
    var mv := MoveValue(b, p, depth, moveCount, c);
    ChildSound(b, p, depth, alpha, beta, moveCount, c);
    var rest := MaxFrom(b, p, depth, moveCount, cands, i + 1);
    assert MaxFrom(b, p, depth, moveCount, cands, i) == Max(Fin(mv), rest);
    var w := LoopStep(b, p, depth, alpha, beta, moveCount, cands, i, best);
    assert w == LoopState(Max(alpha, Fin(s)), Max(best, Fin(s)), Le(beta, Max(alpha, Fin(s))));
    if w.cut {
      CutoffStep(a0, beta, alpha, best, m, s, mv, rest);
    } else {
      ContinueStep(a0, beta, alpha, best, m, s, mv);
      MaxAssoc(m, Fin(mv), rest);
    }
  }

  /** The loop is sound from any point where the invariant holds. */
  lemma {:induction false} LoopSound(b: Board, p: Player, depth: int, a0: ExtReal, beta: ExtReal,
                                     moveCount: int, cands: seq<Coord>, i: int,
                                     alpha: ExtReal, best: ExtReal, m: ExtReal)
    requires moveCount < N * N && AllValid(cands) && 0 <= i <= |cands|
    requires LoopInvariant(a0, beta, alpha, best, m)
    ensures WindowSound(a0, beta, NegamaxLoop(b, p, depth, alpha, beta, moveCount, cands, i, best),
                        Max(m, MaxFrom(b, p, depth, moveCount, cands, i)))
    decreases MovesLeft(moveCount), 0, |cands| - i, 1
  {
    if i == |cands| {
      EndStep(a0, beta, alpha, best, m);
    } else {
      LoopTurn(b, p, depth, a0, beta, moveCount, cands, i, alpha, best, m);
      var w := LoopStep(b, p, depth, alpha, beta, moveCount, cands, i, best);
      if !w.cut {
        var m' := Max(m, Fin(MoveValue(b, p, depth, moveCount, cands[i])));
        LoopSound(b, p, depth, a0, beta, moveCount, cands, i + 1, w.alpha, w.best, m');
      }
    }
  }

  /** With the full window the pruned search is exactly the reference. */
  lemma FullWindowIsExact(b: Board, p: Player, depth: int, moveCount: int, last: Option<Coord>)
    requires last.Some? ==> IsValidCoord(last.value)
    ensures Negamax(b, p, depth, NegInf, PosInf, moveCount, last) == Minimax(b, p, depth, moveCount, last)
  {
    NegamaxSound(b, p, depth, NegInf, PosInf, moveCount, last);
  }

  // ---------------------------------------------------------------------
  // The root picks the first best move

  /** The move values of `cands`, in order, by the reference search. */
  function MoveValues(b: Board, p: Player, depth: int, moveCount: int, cands: seq<Coord>): (vs: seq<real>)
    requires AllValid(cands)
    ensures |vs| == |cands|
    ensures forall k :: 0 <= k < |cands| ==> vs[k] == MoveValue(b, p, depth, moveCount, cands[k])
  {
    seq(|cands|, k requires 0 <= k < |cands| => MoveValue(b, p, depth, moveCount, cands[k]))
  }

  /** `vs[k]` is the move value of `cands[k]`. */
  predicate ValueAt(b: Board, p: Player, depth: int, moveCount: int, cands: seq<Coord>, vs: seq<real>, k: int)
    requires AllValid(cands) && |vs| == |cands| && 0 <= k < |cands|
  {
    vs[k] == MoveValue(b, p, depth, moveCount, cands[k])
  }

  /** `j` is the first index holding the greatest of `vs`. */
  predicate FirstMax(vs: seq<real>, j: int) {
    0 <= j < |vs| &&
    (forall k :: 0 <= k < |vs| ==> vs[k] <= vs[j]) &&
    (forall k :: 0 <= k < j ==> vs[k] < vs[j])
  }

  /** One root move against the best value so far: a score above it is
      the exact move value, and otherwise the move is worth no more. */
  lemma RootStep(b: Board, p: Player, moveCount: int, depth: int, c: Coord, best: ExtReal)
    requires IsValidCoord(c) && best.Fin?
    ensures Lt(best, Fin(ChildScore(b, p, depth, best, PosInf, moveCount, c))) ==>
              ChildScore(b, p, depth, best, PosInf, moveCount, c) == MoveValue(b, p, depth, moveCount, c)
    ensures !Lt(best, Fin(ChildScore(b, p, depth, best, PosInf, moveCount, c))) ==>
              MoveValue(b, p, depth, moveCount, c) <= best.v
  {
    ChildSound(b, p, depth, best, PosInf, moveCount, c);
  }

  /** The first maximum of `vs` before `i`, at `bi`, moves to `i` exactly
      when `vs[i]` is strictly greater. */
  lemma RaiseBest(vs: seq<real>, i: int, bi: int)
    requires 0 <= bi < i < |vs|
    requires forall k :: 0 <= k < i ==> vs[k] <= vs[bi]
    requires forall k :: 0 <= k < bi ==> vs[k] < vs[bi]
    ensures vs[bi] < vs[i] ==> (forall k :: 0 <= k < i + 1 ==> vs[k] <= vs[i]) &&
                               (forall k :: 0 <= k < i ==> vs[k] < vs[i])
    ensures vs[i] <= vs[bi] ==> forall k :: 0 <= k < i + 1 ==> vs[k] <= vs[bi]
  {
  }

  /** One turn of the move loop, given the child's score `s`. */
  lemma LoopUnfold(b: Board, p: Player, depth: int, alpha: ExtReal, beta: ExtReal,
                   moveCount: int, cands: seq<Coord>, i: int, best: ExtReal, s: real)
    requires moveCount < N * N && AllValid(cands) && 0 <= i < |cands|
    requires s == ChildScore(b, p, depth, alpha, beta, moveCount, cands[i])
    ensures NegamaxLoop(b, p, depth, alpha, beta, moveCount, cands, i, best) ==
              if Le(beta, Max(alpha, Fin(s))) then Max(best, Fin(s))
              else NegamaxLoop(b, p, depth, Max(alpha, Fin(s)), beta, moveCount, cands, i + 1, Max(best, Fin(s)))
  {
  }

  /** One turn of the root loop, given the child's score `s`. */
  lemma RootAdvance(b: Board, p: Player, moveCount: int, depth: int, cands: seq<Coord>,
                    i: int, bi: int, best: ExtReal, s: real)
    requires AllValid(cands) && 0 <= i < |cands| && 0 <= bi < |cands|
    requires s == ChildScore(b, p, depth, best, PosInf, moveCount, cands[i])
    ensures RootLoop(b, p, moveCount, depth, cands, i, bi, best) ==
              if Lt(best, Fin(s)) then RootLoop(b, p, moveCount, depth, cands, i + 1, i, Fin(s))
              else RootLoop(b, p, moveCount, depth, cands, i + 1, bi, best)
  {
  }

  /** Reference for the root loop: the first index of the greatest of
      `vs`, scanning from `i` with the best so far at `bi`. */
  function FirstMaxFrom(vs: seq<real>, i: int, bi: int): (r: int)
    requires 0 <= bi < |vs| && 0 <= i <= |vs|
    ensures 0 <= r < |vs|
    decreases |vs| - i
  {
    if i == |vs| then bi
    else if vs[bi] < vs[i] then FirstMaxFrom(vs, i + 1, i)
    else FirstMaxFrom(vs, i + 1, bi)
  }

  /** The scan finds the first greatest value. */
  lemma {:induction false} FirstMaxFromIsFirstMax(vs: seq<real>, i: int, bi: int)
    requires 0 <= bi < i <= |vs|
    requires forall k :: 0 <= k < i ==> vs[k] <= vs[bi]
    requires forall k :: 0 <= k < bi ==> vs[k] < vs[bi]
    ensures FirstMax(vs, FirstMaxFrom(vs, i, bi))
    decreases |vs| - i
  {
    if i < |vs| {
      RaiseBest(vs, i, bi);
      if vs[bi] < vs[i] {
        FirstMaxFromIsFirstMax(vs, i + 1, i);
      } else {
        FirstMaxFromIsFirstMax(vs, i + 1, bi);
      }
    }
  }

  /** The pruned root loop makes the same choices as the scan over the
      exact move values: the window (bestScore, +inf) decides "strictly
      better" correctly. */
  lemma {:induction false} RootLoopAgrees(b: Board, p: Player, moveCount: int, depth: int,
                                          cands: seq<Coord>, vs: seq<real>, i: int, bi: int)
    requires AllValid(cands) && 0 <= bi < |cands| && 0 <= i <= |cands|
    requires |vs| == |cands|
    requires forall k :: 0 <= k < |cands| ==> ValueAt(b, p, depth, moveCount, cands, vs, k)
    ensures RootLoop(b, p, moveCount, depth, cands, i, bi, Fin(vs[bi])) == FirstMaxFrom(vs, i, bi)
    decreases |cands| - i
  {
    if i < |cands| {
      var best := Fin(vs[bi]);
      var s := ChildScore(b, p, depth, best, PosInf, moveCount, cands[i]);
      RootStep(b, p, moveCount, depth, cands[i], best);
      assert ValueAt(b, p, depth, moveCount, cands, vs, i);
      RootAdvance(b, p, moveCount, depth, cands, i, bi, best, s);
      if Lt(best, Fin(s)) {
        assert s == vs[i] && vs[bi] < vs[i];
        RootLoopAgrees(b, p, moveCount, depth, cands, vs, i + 1, i);
      } else {
        assert vs[i] <= vs[bi];
        RootLoopAgrees(b, p, moveCount, depth, cands, vs, i + 1, bi);
      }
    }
  }

  /** From the start, the root loop picks what the scan over the exact
      move values picks: the first move is searched with the full window. */
  lemma RootFromStart(b: Board, p: Player, moveCount: int, depth: int, cands: seq<Coord>)
    requires AllValid(cands) && |cands| > 0
    ensures RootLoop(b, p, moveCount, depth, cands, 0, 0, NegInf) ==
            FirstMaxFrom(MoveValues(b, p, depth, moveCount, cands), 1, 0)
  {
    var vs := MoveValues(b, p, depth, moveCount, cands);
    var c := cands[0];
    ChildSound(b, p, depth, NegInf, PosInf, moveCount, c);
    var s := ChildScore(b, p, depth, NegInf, PosInf, moveCount, c);
    assert s == MoveValue(b, p, depth, moveCount, c) == vs[0];
    RootAdvance(b, p, moveCount, depth, cands, 0, 0, NegInf, s);
    assert forall k :: 0 <= k < |cands| ==> ValueAt(b, p, depth, moveCount, cands, vs, k);
    RootLoopAgrees(b, p, moveCount, depth, cands, vs, 1, 0);
  }

  /** The chosen move is the first candidate of greatest value, by the
      unpruned search: pruning and the strict `>` never change the choice. */
  lemma FindBestMoveIsFirstBest(b: Board, p: Player, moveCount: int, depth: int)
    requires |GetCandidates(b, moveCount)| > 0
    ensures exists j :: FirstMax(MoveValues(b, p, depth, moveCount, GetCandidates(b, moveCount)), j) &&
                        FindBestMove(b, p, moveCount, depth) == Some(GetCandidates(b, moveCount)[j])
  {
    var cands := GetCandidates(b, moveCount);
    var vs := MoveValues(b, p, depth, moveCount, cands);
    if |cands| == 1 {
      assert FirstMax(vs, 0);
    } else {
      RootFromStart(b, p, moveCount, depth, cands);
      FirstMaxFromIsFirstMax(vs, 1, 0);
      var j := RootLoop(b, p, moveCount, depth, cands, 0, 0, NegInf);
      assert FindBestMove(b, p, moveCount, depth) == Some(cands[j]);
    }
  }

  /** The chosen move is legal: the centre on the first move, otherwise an
      empty cell within two steps of a stone. */
  lemma FindBestMoveIsLegal(b: Board, p: Player, moveCount: int, depth: int)
    ensures moveCount == 0 ==> FindBestMove(b, p, moveCount, depth) == Some(Coord(Center, Center))
    ensures moveCount != 0 && FindBestMove(b, p, moveCount, depth).Some? ==>
              IsCandidate(b, FindBestMove(b, p, moveCount, depth).value)
  {
    var r := FindBestMove(b, p, moveCount, depth);
    if moveCount != 0 && r.Some? {
      CandidatesExact(b, moveCount, r.value);
    }
  }

  // ---------------------------------------------------------------------
  // Terminal values

  /** A move that completes five is worth the win score plus the depth left
      below the root: the child sees the loss before anything else. */
  lemma WinningMoveValue(b: Board, p: Player, depth: int, moveCount: int, c: Coord,
                         alpha: ExtReal, beta: ExtReal)
    requires IsValidCoord(c)
    requires CheckWin(Place(b, c, p), c) == Some(p)
    ensures MoveValue(b, p, depth, moveCount, c) == (WinScore + depth - 1) as real
    ensures -Negamax(Place(b, c, p), Opponent(p), depth - 1, alpha, beta, moveCount + 1, Some(c)) ==
            (WinScore + depth - 1) as real
  {
  }

  /** Without a win by the last stone, a full board is a draw and the depth
      limit falls back to the evaluator, in that order. */
  lemma QuietLeafValues(b: Board, p: Player, depth: int, alpha: ExtReal, beta: ExtReal,
                        moveCount: int, last: Option<Coord>)
    requires last.Some? ==> IsValidCoord(last.value)
    requires last.None? || CheckWin(b, last.value).None?
    ensures IsDraw(moveCount) ==> Negamax(b, p, depth, alpha, beta, moveCount, last) == 0.0
    ensures !IsDraw(moveCount) && depth == 0 ==>
              Negamax(b, p, depth, alpha, beta, moveCount, last) == Evaluate(b, p)
    ensures !IsDraw(moveCount) && |GetCandidates(b, moveCount)| == 0 ==>
              Negamax(b, p, depth, alpha, beta, moveCount, last) == Evaluate(b, p)
  {
  }
}
