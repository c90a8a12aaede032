/** Win and draw rules (src/game/win.ts). */
module Win {
  import opened Types
  import opened GameBoard

  /** The scan outward from `m` along `d`, starting at step `i`: it counts
      the cells of `p` up to step 4 and stops at the edge or the first cell
      that does not hold `p`. */
  function Ray(b: Board, p: Player, m: Coord, d: Dir, i: int): (n: nat)
    requires 1 <= i <= 5
    decreases 5 - i
    ensures n <= 5 - i
    ensures forall k :: i <= k < i + n ==> Owns(b, p, Step(m, d, k))
    ensures i + n <= 4 ==> !Owns(b, p, Step(m, d, i + n))
  {
    if i > 4 then 0
    else if !Owns(b, p, Step(m, d, i)) then 0
    else 1 + Ray(b, p, m, d, i + 1)
  }

  /** `count` in the source: the stone at `m` plus both capped scans. */
  function RunThrough(b: Board, p: Player, m: Coord, d: Dir): nat {
    1 + Ray(b, p, m, d, 1) + Ray(b, p, m, Reverse(d), 1)
  }

  /** The winner declared by the stone at `lastMove`, if any. */
  function CheckWin(b: Board, lastMove: Coord): (r: Option<Player>)
    requires 0 <= lastMove.row < N
    ensures r.Some? ==> Owns(b, r.value, lastMove)
  {
    if !(0 <= lastMove.col < N) then None
    else match b[lastMove.row][lastMove.col]
      case Empty => None
      case Stone(p) =>
        if exists k | 0 <= k < |Directions| :: RunThrough(b, p, lastMove, Directions[k]) >= 5
        then Some(p) else None
  }

  /** The game is drawn once every cell has been played. */
  function IsDraw(moveCount: int): bool {
    moveCount >= N * N
  }

  // ---------------------------------------------------------------------
  // Reference definition of a win

  /** Steps `lo` .. `hi` along `d` from `m` all hold `p`, and the segment
      contains `m` itself. */
  ghost predicate Segment(b: Board, p: Player, m: Coord, d: Dir, lo: int, hi: int) {
    lo <= 0 <= hi && forall k :: lo <= k <= hi ==> Owns(b, p, Step(m, d, k))
  }

  /** Some five or more contiguous stones of `p` along `d` pass through `m`. */
  ghost predicate FiveThrough(b: Board, p: Player, m: Coord, d: Dir) {
    exists lo, hi :: hi - lo >= 4 && Segment(b, p, m, d, lo, hi)
  }

  lemma {:induction false} RayAtLeast(b: Board, p: Player, m: Coord, d: Dir, i: int, h: int)
    requires 1 <= i <= 5 && h <= 4 && i <= h + 1
    requires forall k :: i <= k <= h ==> Owns(b, p, Step(m, d, k))
    ensures Ray(b, p, m, d, i) >= h - i + 1
    decreases 5 - i
  {
    if i <= h {
      RayAtLeast(b, p, m, d, i + 1, h);
    }
  }

  /** A winning scan witnesses a run of five or more through `m`. */
  lemma RunThroughWitnessesFive(b: Board, p: Player, m: Coord, d: Dir)
    requires Owns(b, p, m) && RunThrough(b, p, m, d) >= 5
    ensures FiveThrough(b, p, m, d)
  {
    var a := Ray(b, p, m, d, 1);
    var c: int := Ray(b, p, m, Reverse(d), 1);
    forall t: int | -c <= t <= a
      ensures Owns(b, p, Step(m, d, t))
    {
      StepReverse(m, d, -t);
    }
    assert Segment(b, p, m, d, -c, a);
  }

  /** A run of five or more through `m` makes the capped scans reach five. */
  lemma FiveMakesRunThrough(b: Board, p: Player, m: Coord, d: Dir, lo: int, hi: int)
    requires hi - lo >= 4 && Segment(b, p, m, d, lo, hi)
    ensures Owns(b, p, m) && RunThrough(b, p, m, d) >= 5
  {
    StepReverse(m, d, 0);
    var h1 := if hi < 4 then hi else 4;
    RayAtLeast(b, p, m, d, 1, h1);
    var h2 := if -lo < 4 then -lo else 4;
    forall t | 1 <= t <= h2
      ensures Owns(b, p, Step(m, Reverse(d), t))
    {
      StepReverse(m, d, t);
    }
    RayAtLeast(b, p, m, Reverse(d), 1, h2);
  }

  /** The capped scans are exact: `CheckWin` names `p` precisely when five
      or more stones of `p` lie contiguously through `lastMove` along one of
      the four directions, however long the run and wherever `lastMove`
      sits in it. Runs end at the edge and at any cell not holding `p`, so
      stones of different colours never add up. */
  lemma CheckWinExact(b: Board, lastMove: Coord, p: Player)
    requires 0 <= lastMove.row < N
    ensures CheckWin(b, lastMove) == Some(p) <==>
              exists k :: 0 <= k < |Directions| && FiveThrough(b, p, lastMove, Directions[k])
  {
    var m := lastMove;
    if CheckWin(b, m) == Some(p) {
      var k :| 0 <= k < |Directions| && RunThrough(b, p, m, Directions[k]) >= 5;
      RunThroughWitnessesFive(b, p, m, Directions[k]);
    }
    if exists k :: 0 <= k < |Directions| && FiveThrough(b, p, m, Directions[k]) {
      var k :| 0 <= k < |Directions| && FiveThrough(b, p, m, Directions[k]);
      var lo, hi :| hi - lo >= 4 && Segment(b, p, m, Directions[k], lo, hi);
      FiveMakesRunThrough(b, p, m, Directions[k], lo, hi);
    }
  }

  /** Five stones of `p` in a row along direction `k`, with `lastMove` at
      position `j` of the five (0 = first, 4 = last), are a win for `p`. */
  lemma FiveInARowWins(b: Board, p: Player, lastMove: Coord, k: int, j: int)
    requires IsValidCoord(lastMove)
    requires 0 <= k < |Directions| && 0 <= j <= 4
    requires forall t :: -j <= t <= 4 - j ==> Owns(b, p, Step(lastMove, Directions[k], t))
    ensures CheckWin(b, lastMove) == Some(p)
  {
    assert Segment(b, p, lastMove, Directions[k], -j, 4 - j);
    CheckWinExact(b, lastMove, p);
  }

  /** The run of `p` through `m` along `d` covers steps `lo` .. `hi`, at most
      four cells, and is stopped on both sides by the edge, an empty cell or
      a stone of the other colour. */
  ghost predicate Stopped(b: Board, p: Player, m: Coord, d: Dir, lo: int, hi: int) {
    lo <= 0 <= hi && hi - lo <= 3 &&
    !Owns(b, p, Step(m, d, lo - 1)) && !Owns(b, p, Step(m, d, hi + 1))
  }

  ghost predicate ShortRun(b: Board, p: Player, m: Coord, d: Dir) {
    exists lo, hi :: Stopped(b, p, m, d, lo, hi)
  }

  /** A run stopped within four cells leaves no room for five. */
  lemma StoppedBlocksFive(b: Board, p: Player, m: Coord, d: Dir, lo: int, hi: int)
    requires Stopped(b, p, m, d, lo, hi)
    ensures !FiveThrough(b, p, m, d)
  {
    forall lo', hi' | hi' - lo' >= 4
      ensures !Segment(b, p, m, d, lo', hi')
    {
      if lo' <= 0 <= hi' {
        var k := if lo' <= lo - 1 then lo - 1 else hi + 1;
        assert lo' <= k <= hi' && !Owns(b, p, Step(m, d, k));
      }
    }
  }

  /** When every line through `lastMove` is cut short (four stones or fewer,
      ended by the edge, a gap or the other colour), there is no win for `p`. */
  lemma ShortRunsDoNotWin(b: Board, lastMove: Coord, p: Player)
    requires 0 <= lastMove.row < N
    requires forall k :: 0 <= k < |Directions| ==> ShortRun(b, p, lastMove, Directions[k])
    ensures CheckWin(b, lastMove) != Some(p)
  {
    forall k | 0 <= k < |Directions|
      ensures !FiveThrough(b, p, lastMove, Directions[k])
    {
      var lo, hi :| Stopped(b, p, lastMove, Directions[k], lo, hi);
      StoppedBlocksFive(b, p, lastMove, Directions[k], lo, hi);
    }
    CheckWinExact(b, lastMove, p);
  }

  /** With the stone count as move count, the draw test fires exactly when
      no empty cell is left. */
  lemma DrawExactlyWhenFull(b: Board)
    ensures IsDraw(StoneCount(b)) <==> IsFull(b)
  {
    StoneCountFull(b);
  }
}
