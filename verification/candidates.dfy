/** Move-candidate generation (src/ai/candidates.ts): the empty cells near
    existing stones, deduplicated, stably sorted by distance to the centre. */
module Candidates {
  import opened Types
  import opened GameBoard

  /** Row and column of the centre cell (7 on a 15 x 15 board). */
  const Center: int := N / 2

  /** Radius of the neighbourhood scanned around each stone. */
  const Reach: int := 2

  /** Side of the square neighbourhood, 5. */
  const Side: int := 2 * Reach + 1

  function Abs(x: int): nat {
    if x < 0 then -x else x
  }

  /** Manhattan distance to the centre. */
  function DistanceToCenter(c: Coord): nat {
    Abs(c.row - Center) + Abs(c.col - Center)
  }

  /** Chebyshev (king-move) distance between two cells. */
  function Chebyshev(a: Coord, c: Coord): nat {
    var dr := Abs(a.row - c.row);
    var dc := Abs(a.col - c.col);
    if dr < dc then dc else dr
  }

  /** Some stone lies at Chebyshev distance 1 or 2 from `x`. */
  ghost predicate NearStone(b: Board, x: Coord) {
    exists s :: IsValidCoord(s) && At(b, s).Stone? && 1 <= Chebyshev(s, x) <= 2
  }

  /** A cell the generator may propose: on the board, empty, near a stone. */
  ghost predicate IsCandidate(b: Board, x: Coord) {
    IsOpen(b, x) && NearStone(b, x)
  }

  predicate Distinct(s: seq<Coord>) {
    forall i, j :: 0 <= i < j < |s| ==> s[i] != s[j]
  }

  // ---------------------------------------------------------------------
  // Discovery: the four nested loops of the source, flattened. The loops
  // over rows and columns visit the cells in row-major order, that is in
  // the order of their keys; the loops over dr and dc visit the 24
  // neighbours of a stone in the order given by `Around`. Discovery is
  // the left fold of `Visit` over the resulting list of neighbours.

  /** Cell `j` (0 .. 24) of the 5 x 5 block around `s`: dr is the slow
      index and dc the fast one, each from -2 to 2. */
  function Offset(s: Coord, j: int): Coord {
    Coord(s.row + j / Side - Reach, s.col + j % Side - Reach)
  }

  /** The 24 neighbours of `s` in the order of the loops over dr and dc;
      the block's own centre (dr = dc = 0) is skipped. */
  function Around(s: Coord): (r: seq<Coord>)
    ensures |r| == Side * Side - 1
  {
    seq(Side * Side - 1, k => Offset(s, if k < Side * Side / 2 then k else k + 1))
  }

  /** The neighbours listed are exactly the cells at Chebyshev distance 1
      or 2, on the board or not. */
  lemma AroundExact(s: Coord, x: Coord)
    ensures x in Around(s) <==> 1 <= Chebyshev(s, x) <= 2
  {
    var a := Around(s);
    if x in a {
      var k :| 0 <= k < |a| && a[k] == x;
      var j := if k < Side * Side / 2 then k else k + 1;
      assert x == Offset(s, j);
      assert 0 <= j / Side < Side && 0 <= j % Side < Side;
      assert j == (j / Side) * Side + j % Side && j != Side * Side / 2;
      assert !(j / Side == Reach && j % Side == Reach);
    }
    if 1 <= Chebyshev(s, x) <= 2 {
      var dr := x.row - s.row + Reach;
      var dc := x.col - s.col + Reach;
      var j := dr * Side + dc;
      assert j / Side == dr && j % Side == dc;
      assert Offset(s, j) == x;
      var k := if j < Side * Side / 2 then j else j - 1;
      assert a[k] == x;
    }
  }

  /** The neighbours of every stone with key `k` or more, in scan order,
      with repetitions and occupied or off-board cells still present. */
  function StoneNeighbours(b: Board, k: int): seq<Coord>
    requires FirstKey <= k <= N * N
    decreases N * N - k
  {
    if k == N * N then []
    else
      var c := FromKey(k);
      (if b[c.row][c.col] == Empty then [] else Around(c)) + StoneNeighbours(b, k + 1)
  }

  /** One neighbour `x`: skipped when off the board, occupied, or already
      seen; appended otherwise. The source's `seen` set of keys
      `row * N + col` is membership in `found` (see `KeyRoundTrip`). */
  function Visit(b: Board, x: Coord, found: seq<Coord>): (r: seq<Coord>)
    ensures IsOpen(b, x) ==> x in r
    ensures r == found || (r == found + [x] && IsOpen(b, x) && x !in found)
  {
    if !(0 <= x.row < N && 0 <= x.col < N) then found
    else if b[x.row][x.col] != Empty then found
    else if x in found then found
    else found + [x]
  }

  /** `Visit` applied to `xs` from first to last, starting from nothing. */
  function Collect(b: Board, xs: seq<Coord>): seq<Coord>
    decreases |xs|
  {
    if |xs| == 0 then []
    else Visit(b, xs[|xs| - 1], Collect(b, xs[..|xs| - 1]))
  }

  /** The candidate list before sorting, in discovery order. */
  function Discover(b: Board): seq<Coord> {
    Collect(b, StoneNeighbours(b, FirstKey))
  }

  // ---------------------------------------------------------------------
  // What discovery finds

  /** The fold keeps each open cell of `xs` once and nothing else. */
  lemma {:induction false} CollectExact(b: Board, xs: seq<Coord>)
    ensures Distinct(Collect(b, xs))
    ensures forall x :: x in Collect(b, xs) <==> x in xs && IsOpen(b, x)
    decreases |xs|
  {
    if |xs| > 0 {
      var init := xs[..|xs| - 1];
      var last := xs[|xs| - 1];
      CollectExact(b, init);
      assert xs == init + [last];
    }
  }

  /** Every listed neighbour is near a stone. */
  lemma {:induction false} NeighboursNearStones(b: Board, k: int)
    requires FirstKey <= k <= N * N
    ensures forall x :: x in StoneNeighbours(b, k) ==> NearStone(b, x)
    decreases N * N - k
  {
    if k < N * N {
      NeighboursNearStones(b, k + 1);
      var c := FromKey(k);
      if b[c.row][c.col] != Empty {
        forall x | x in Around(c)
          ensures NearStone(b, x)
        {
          AroundExact(c, x);
        }
      }
    }
  }

  /** The position of the first `x` in `s`. */
  function IndexOf(s: seq<Coord>, x: Coord): (i: int)
    requires x in s
    ensures 0 <= i < |s| && s[i] == x
  {
    if s[0] == x then 0 else 1 + IndexOf(s[1..], x)
  }

  /** Every neighbour of a stone whose key is `k` or more is listed. */
  lemma {:induction false} NeighboursListed(b: Board, k: int, s: Coord, x: Coord)
    requires IsValidCoord(s) && At(b, s).Stone? && 1 <= Chebyshev(s, x) <= 2
    requires FirstKey <= k <= Key(s)
    ensures x in StoneNeighbours(b, k)
    decreases Key(s) - k
  {
    KeyRoundTrip(s, k);
    var c := FromKey(k);
    var here := if b[c.row][c.col] == Empty then [] else Around(c);
    assert StoneNeighbours(b, k) == here + StoneNeighbours(b, k + 1);
    var rest := StoneNeighbours(b, k + 1);
    if k == Key(s) {
      assert c == s;
      AroundExact(s, x);
      assert x in here;
      assert (here + rest)[IndexOf(here, x)] == x;
    } else {
      NeighboursListed(b, k + 1, s, x);
      assert (here + rest)[|here| + IndexOf(rest, x)] == x;
    }
  }

  /** Discovery finds each candidate cell exactly once, and nothing else. */
  lemma DiscoverExact(b: Board)
    ensures Distinct(Discover(b))
    ensures forall x :: x in Discover(b) <==> IsCandidate(b, x)
  {
    var raw := StoneNeighbours(b, FirstKey);
    CollectExact(b, raw);
    NeighboursNearStones(b, FirstKey);
    forall x | IsCandidate(b, x)
      ensures x in Discover(b)
    {
      var s :| IsValidCoord(s) && At(b, s).Stone? && 1 <= Chebyshev(s, x) <= 2;
      KeyRoundTrip(s, 0);
      NeighboursListed(b, FirstKey, s, x);
    }
  }

  /** A board without stones lists no neighbours at all. */
  lemma {:induction false} NoStonesNoNeighbours(b: Board, k: int)
    requires FirstKey <= k <= N * N
    requires forall c :: IsValidCoord(c) ==> At(b, c) == Empty
    ensures StoneNeighbours(b, k) == []
    decreases N * N - k
  {
    if k < N * N {
      KeyRoundTrip(FromKey(k), k);
      assert At(b, FromKey(k)) == Empty;
      NoStonesNoNeighbours(b, k + 1);
    }
  }

  // ---------------------------------------------------------------------
  // Stable sort by distance to the centre

  predicate SortedByDistance(s: seq<Coord>) {
    forall i, j :: 0 <= i < j < |s| ==> DistanceToCenter(s[i]) <= DistanceToCenter(s[j])
  }

  /** No element of `s` is nearer the centre than `d`. */
  predicate AllFrom(s: seq<Coord>, d: int) {
    forall i :: 0 <= i < |s| ==> d <= DistanceToCenter(s[i])
  }

  lemma AllFromCons(y: Coord, s: seq<Coord>, d: int)
    ensures AllFrom([y] + s, d) <==> d <= DistanceToCenter(y) && AllFrom(s, d)
  {
    var r := [y] + s;
    assert r[0] == y;
    assert forall i :: 0 <= i < |s| ==> r[i + 1] == s[i];
  }

  /** A list is sorted exactly when its head is nearest and its tail is
      sorted. */
  lemma SortedCons(y: Coord, s: seq<Coord>)
    ensures SortedByDistance([y] + s) <==> AllFrom(s, DistanceToCenter(y)) && SortedByDistance(s)
  {
    var r := [y] + s;
    assert forall i :: 0 <= i < |s| ==> r[i + 1] == s[i];
    if SortedByDistance(r) {
      forall i | 0 <= i < |s|
        ensures DistanceToCenter(y) <= DistanceToCenter(s[i])
      {
        assert r[0] == y && r[i + 1] == s[i];
      }
      forall i, j | 0 <= i < j < |s|
        ensures DistanceToCenter(s[i]) <= DistanceToCenter(s[j])
      {
        assert r[i + 1] == s[i] && r[j + 1] == s[j];
      }
    }
    if AllFrom(s, DistanceToCenter(y)) && SortedByDistance(s) {
      forall i, j | 0 <= i < j < |r|
        ensures DistanceToCenter(r[i]) <= DistanceToCenter(r[j])
      {
        assert r[j] == s[j - 1];
        if i > 0 {
          assert r[i] == s[i - 1];
        }
      }
    }
  }

  predicate NoRepeat(y: Coord, s: seq<Coord>) {
    y !in s && Distinct(s)
  }

  lemma DistinctCons(y: Coord, s: seq<Coord>)
    ensures Distinct([y] + s) <==> NoRepeat(y, s)
  {
    var r := [y] + s;
    assert forall i :: 0 <= i < |s| ==> r[i + 1] == s[i];
    if Distinct(r) {
      forall i | 0 <= i < |s|
        ensures s[i] != y
      {
        assert r[0] == y && r[i + 1] == s[i];
      }
      forall i, j | 0 <= i < j < |s|
        ensures s[i] != s[j]
      {
        assert r[i + 1] == s[i] && r[j + 1] == s[j];
      }
    }
    if NoRepeat(y, s) {
      forall i, j | 0 <= i < j < |r|
        ensures r[i] != r[j]
      {
        assert r[j] == s[j - 1];
        if i > 0 {
          assert r[i] == s[i - 1];
        }
      }
    }
  }

  /** Inserts `x` before the first element at least as far from the centre,
      so `x` precedes the elements of its own distance. */
  function InsertByDistance(x: Coord, ys: seq<Coord>): seq<Coord> {
    if |ys| == 0 then [x]
    else if DistanceToCenter(x) <= DistanceToCenter(ys[0]) then [x] + ys
    else [ys[0]] + InsertByDistance(x, ys[1..])
  }

  lemma {:induction false} InsertPermutes(x: Coord, ys: seq<Coord>)
    ensures multiset(InsertByDistance(x, ys)) == multiset(ys) + multiset{x}
  {
    if |ys| > 0 && DistanceToCenter(x) > DistanceToCenter(ys[0]) {
      InsertPermutes(x, ys[1..]);
      assert ys == [ys[0]] + ys[1..];
    }
  }

  lemma {:induction false} InsertLowerBound(x: Coord, ys: seq<Coord>, d: int)
    requires d <= DistanceToCenter(x) && AllFrom(ys, d)
    ensures AllFrom(InsertByDistance(x, ys), d)
  {
    if |ys| == 0 {
      AllFromCons(x, [], d);
      assert [x] + [] == [x];
    } else if DistanceToCenter(x) <= DistanceToCenter(ys[0]) {
      AllFromCons(x, ys, d);
    } else {
      AllFromCons(ys[0], ys[1..], d);
      assert [ys[0]] + ys[1..] == ys;
      InsertLowerBound(x, ys[1..], d);
      AllFromCons(ys[0], InsertByDistance(x, ys[1..]), d);
    }
  }

  lemma {:induction false} InsertKeepsSorted(x: Coord, ys: seq<Coord>)
    requires SortedByDistance(ys)
    ensures SortedByDistance(InsertByDistance(x, ys))
  {
    if |ys| > 0 {
      var tail := ys[1..];
      assert [ys[0]] + tail == ys;
      SortedCons(ys[0], tail);
      if DistanceToCenter(x) <= DistanceToCenter(ys[0]) {
        assert AllFrom(ys, DistanceToCenter(x));
        SortedCons(x, ys);
      } else {
        InsertKeepsSorted(x, tail);
        InsertLowerBound(x, tail, DistanceToCenter(ys[0]));
        SortedCons(ys[0], InsertByDistance(x, tail));
      }
    }
  }

  lemma {:induction false} InsertKeepsDistinct(x: Coord, ys: seq<Coord>)
    requires NoRepeat(x, ys)
    ensures Distinct(InsertByDistance(x, ys))
  {
    if |ys| == 0 {
      assert Distinct([x]);
    } else if DistanceToCenter(x) <= DistanceToCenter(ys[0]) {
      DistinctCons(x, ys);
    } else {
      var tail := ys[1..];
      assert [ys[0]] + tail == ys;
      DistinctCons(ys[0], tail);
      assert x !in tail;
      InsertKeepsDistinct(x, tail);
      var rest := InsertByDistance(x, tail);
      InsertPermutes(x, tail);
      assert ys[0] !in multiset(rest);
      DistinctCons(ys[0], rest);
    }
  }

  /** The stable sort (`Array.prototype.sort` with a distance comparator),
      as an insertion sort. */
  function SortByDistance(xs: seq<Coord>): seq<Coord> {
    if |xs| == 0 then []
    else InsertByDistance(xs[0], SortByDistance(xs[1..]))
  }

  /** The sort is a permutation. */
  lemma {:induction false} SortPermutes(xs: seq<Coord>)
    ensures multiset(SortByDistance(xs)) == multiset(xs)
  {
    if |xs| > 0 {
      SortPermutes(xs[1..]);
      InsertPermutes(xs[0], SortByDistance(xs[1..]));
      assert xs == [xs[0]] + xs[1..];
    }
  }

  /** The sort orders by distance and keeps distinct lists distinct. */
  lemma {:induction false} SortOrders(xs: seq<Coord>)
    ensures SortedByDistance(SortByDistance(xs))
    ensures Distinct(xs) ==> Distinct(SortByDistance(xs))
  {
    if |xs| > 0 {
      var rest := SortByDistance(xs[1..]);
      SortOrders(xs[1..]);
      InsertKeepsSorted(xs[0], rest);
      if Distinct(xs) {
        assert xs == [xs[0]] + xs[1..];
        DistinctCons(xs[0], xs[1..]);
        SortPermutes(xs[1..]);
        assert xs[0] !in multiset(rest);
        InsertKeepsDistinct(xs[0], rest);
      }
    }
  }

  /** The elements of `s` at distance `k` from the centre, in their order. */
  function AtDistance(s: seq<Coord>, k: int): seq<Coord> {
    if |s| == 0 then []
    else (if DistanceToCenter(s[0]) == k then [s[0]] else []) + AtDistance(s[1..], k)
  }

  lemma AtDistanceCons(y: Coord, s: seq<Coord>, k: int)
    ensures AtDistance([y] + s, k) == (if DistanceToCenter(y) == k then [y] else []) + AtDistance(s, k)
  {
    assert ([y] + s)[0] == y && ([y] + s)[1..] == s;
  }

  /** The bucket holds elements of the list, all at distance `k`. */
  lemma {:induction false} AtDistanceSound(s: seq<Coord>, k: int)
    ensures forall i :: 0 <= i < |AtDistance(s, k)| ==>
              AtDistance(s, k)[i] in s && DistanceToCenter(AtDistance(s, k)[i]) == k
  {
    if |s| > 0 {
      AtDistanceSound(s[1..], k);
      var h: seq<Coord> := if DistanceToCenter(s[0]) == k then [s[0]] else [];
      var r := AtDistance(s, k);
      assert r == h + AtDistance(s[1..], k);
      forall i | 0 <= i < |r|
        ensures r[i] in s && DistanceToCenter(r[i]) == k
      {
        if i >= |h| {
          assert r[i] == AtDistance(s[1..], k)[i - |h|];
        }
      }
    }
  }

  /** Inserting `x` adds it at the front of its own bucket and leaves the
      other buckets alone. */
  lemma {:induction false} InsertBucket(x: Coord, ys: seq<Coord>, k: int)
    ensures AtDistance(InsertByDistance(x, ys), k) ==
            (if DistanceToCenter(x) == k then [x] else []) + AtDistance(ys, k)
  {
    var hx: seq<Coord> := if DistanceToCenter(x) == k then [x] else [];
    if |ys| == 0 {
      AtDistanceCons(x, [], k);
      assert [x] + [] == [x];
    } else if DistanceToCenter(x) <= DistanceToCenter(ys[0]) {
      AtDistanceCons(x, ys, k);
    } else {
      var tail := ys[1..];
      var hy: seq<Coord> := if DistanceToCenter(ys[0]) == k then [ys[0]] else [];
      assert [ys[0]] + tail == ys;
      AtDistanceCons(ys[0], tail, k);
      var rest := InsertByDistance(x, tail);
      assert InsertByDistance(x, ys) == [ys[0]] + rest;
      AtDistanceCons(ys[0], rest, k);
      InsertBucket(x, tail, k);
      var at := AtDistance(tail, k);
      assert AtDistance(InsertByDistance(x, ys), k) == hy + (hx + at);
      assert AtDistance(ys, k) == hy + at;
      if hx == [] {
        assert hy + ([] + at) == [] + (hy + at);
      } else {
        assert hy == [];
        assert [] + (hx + at) == hx + ([] + at);
      }
    }
  }

  lemma {:induction false} SortKeepsBuckets(xs: seq<Coord>, k: int)
    ensures AtDistance(SortByDistance(xs), k) == AtDistance(xs, k)
  {
    if |xs| > 0 {
      SortKeepsBuckets(xs[1..], k);
      InsertBucket(xs[0], SortByDistance(xs[1..]), k);
    }
  }

  /** A non-empty bucket of a sorted list lies no nearer than its head. */
  lemma SortedHeadNearest(s: seq<Coord>, k: int)
    requires SortedByDistance(s) && |s| > 0 && |AtDistance(s, k)| > 0
    ensures DistanceToCenter(s[0]) <= k
  {
    AtDistanceSound(s, k);
    var y := AtDistance(s, k)[0];
    var i :| 0 <= i < |s| && s[i] == y;
  }

  /** A sorted list is determined by its per-distance subsequences: any two
      stable sorts of the same list agree, so the insertion sort above gives
      the same order as the source's library sort. */
  lemma {:induction false} SortedBucketsDetermine(a: seq<Coord>, c: seq<Coord>)
    requires SortedByDistance(a) && SortedByDistance(c)
    requires forall k :: AtDistance(a, k) == AtDistance(c, k)
    ensures a == c
    decreases |a| + |c|
  {
    if |c| > 0 {
      AtDistanceCons(c[0], c[1..], DistanceToCenter(c[0]));
      assert [c[0]] + c[1..] == c;
      assert |AtDistance(a, DistanceToCenter(c[0]))| > 0;
    }
    if |a| > 0 {
      AtDistanceCons(a[0], a[1..], DistanceToCenter(a[0]));
      assert [a[0]] + a[1..] == a;
      assert |AtDistance(c, DistanceToCenter(a[0]))| > 0;
    }
    if |a| > 0 && |c| > 0 {
      var ka := DistanceToCenter(a[0]);
      SortedHeadNearest(a, DistanceToCenter(c[0]));
      SortedHeadNearest(c, ka);
      assert a[0] == AtDistance(a, ka)[0] == AtDistance(c, ka)[0] == c[0];
      forall k
        ensures AtDistance(a[1..], k) == AtDistance(c[1..], k)
      {
        var head: seq<Coord> := if ka == k then [a[0]] else [];
        AtDistanceCons(a[0], a[1..], k);
        AtDistanceCons(c[0], c[1..], k);
        assert (head + AtDistance(a[1..], k))[|head|..] == AtDistance(a[1..], k);
        assert (head + AtDistance(c[1..], k))[|head|..] == AtDistance(c[1..], k);
      }
      SortedCons(a[0], a[1..]);
      SortedCons(c[0], c[1..]);
      SortedBucketsDetermine(a[1..], c[1..]);
    }
  }

  // ---------------------------------------------------------------------
  // The generator

  /** The discovered cells, sorted, are open, distinct and ordered. */
  lemma SortedDiscovery(b: Board)
    ensures forall k :: 0 <= k < |SortByDistance(Discover(b))| ==> IsOpen(b, SortByDistance(Discover(b))[k])
    ensures Distinct(SortByDistance(Discover(b)))
    ensures SortedByDistance(SortByDistance(Discover(b)))
  {
    var found := Discover(b);
    CollectExact(b, StoneNeighbours(b, FirstKey));
    SortOrders(found);
    SortPermutes(found);
    var r := SortByDistance(found);
    assert forall k :: 0 <= k < |r| ==> r[k] in multiset(found);
  }

  /** Candidate moves: the centre alone on move 0, otherwise the discovered
      cells sorted nearest the centre first. */
  function GetCandidates(b: Board, moveCount: int): (r: seq<Coord>)
    ensures moveCount == 0 ==> r == [Coord(Center, Center)]
    ensures forall k :: 0 <= k < |r| ==> IsValidCoord(r[k])
    ensures moveCount != 0 ==> forall k :: 0 <= k < |r| ==> IsOpen(b, r[k])
    ensures Distinct(r)
    ensures SortedByDistance(r)
  {
    if moveCount == 0 then [Coord(Center, Center)]
    else
      SortedDiscovery(b);
      SortByDistance(Discover(b))
  }

  /** Past the first move the candidates are exactly the empty cells within
      Chebyshev distance 2 of some stone. */
  lemma CandidatesExact(b: Board, moveCount: int, x: Coord)
    requires moveCount != 0
    ensures x in GetCandidates(b, moveCount) <==> IsCandidate(b, x)
  {
    DiscoverExact(b);
    SortPermutes(Discover(b));
    assert x in GetCandidates(b, moveCount) <==> x in multiset(Discover(b));
  }

  /** Cells at the same distance from the centre keep their discovery
      order: row-major over stones, then dr and dc from -2 to 2. */
  lemma CandidatesKeepDiscoveryOrder(b: Board, moveCount: int, k: int)
    requires moveCount != 0
    ensures AtDistance(GetCandidates(b, moveCount), k) == AtDistance(Discover(b), k)
  {
    SortKeepsBuckets(Discover(b), k);
  }

  /** Past the first move, a board without stones has no candidates. */
  lemma NoStonesNoCandidates(b: Board, moveCount: int)
    requires moveCount != 0
    requires forall c :: IsValidCoord(c) ==> At(b, c) == Empty
    ensures GetCandidates(b, moveCount) == []
  {
    NoStonesNoNeighbours(b, FirstKey);
  }
}
