/** The furthest-reaching frontier of the Myers search, as a recursion on the number of edits, and
    the proof that the greedy choice it makes is optimal.  A point is named by its x coordinate and
    its diagonal k = x - y. */
module Frontier {
  import opened EditGraph

  /** There is a diagonal move out of column x on diagonal k. */
  predicate MatchOn<T>(g: Graph<T>, x: int, k: int) {
    g.Match(x, x - k)
  }

  ghost predicate ReachOn<T>(g: Graph<T>, x: int, k: int, d: int) {
    Reach(g, x, x - k, d)
  }

  /** The column where the run of diagonals from column x ends. */
  ghost function Snake<T>(g: Graph<T>, x: int, k: int): (end: int)
    ensures x <= end
    ensures x < end ==> end <= |g.orig|
    ensures !MatchOn(g, end, k)
    decreases |g.orig| - x
  {
    if MatchOn(g, x, k) then Snake(g, x + 1, k) else x
  }

  /** The choice made in round d for diagonal k, given what the neighbouring diagonals hold. */
  predicate TakesDown(d: int, k: int, left: int, right: int) {
    k == -d || (k != d && left < right)
  }

  /** The column the greedy search records for diagonal k after d edits, and 0 on the diagonals
      that round d does not visit. */
  ghost function Furthest<T>(g: Graph<T>, d: int, k: int): (x: int)
    ensures On(d, k) ==> 0 <= x && k <= x
    decreases d
  {
    if !On(d, k) then 0
    else if d == 0 then Snake(g, 0, 0)
    else
      var left, right := Furthest(g, d - 1, k - 1), Furthest(g, d - 1, k + 1);
      Snake(g, if TakesDown(d, k, left, right) then right else left + 1, k)
  }

  /** Round d enters diagonal k by a down move from diagonal k + 1 rather than by a right move. */
  ghost predicate Down<T>(g: Graph<T>, d: int, k: int) {
    TakesDown(d, k, Furthest(g, d - 1, k - 1), Furthest(g, d - 1, k + 1))
  }

  /** The column at which round d enters diagonal k, before following diagonals. */
  ghost function Start<T>(g: Graph<T>, d: int, k: int): int
    requires On(d, k)
  {
    if d == 0 then 0
    else if Down(g, d, k) then Furthest(g, d - 1, k + 1)
    else Furthest(g, d - 1, k - 1) + 1
  }

  lemma FurthestFromStart<T>(g: Graph<T>, d: int, k: int)
    requires On(d, k)
    ensures Furthest(g, d, k) == Snake(g, Start(g, d, k), k)
    ensures 0 <= Start(g, d, k) && k <= Start(g, d, k)
  {
  }

  lemma {:induction false} SnakeReaches<T>(g: Graph<T>, x: int, k: int, d: int)
    requires ReachOn(g, x, k, d)
    ensures ReachOn(g, Snake(g, x, k), k, d)
    decreases |g.orig| - x
  {
    if MatchOn(g, x, k) {
      SnakeReaches(g, x + 1, k, d);
    }
  }

  lemma ReachDown<T>(g: Graph<T>, x: int, k: int, d: int)
    requires ReachOn(g, x, k + 1, d - 1)
    ensures ReachOn(g, x, k, d)
  {
  }

  lemma ReachRight<T>(g: Graph<T>, x: int, k: int, d: int)
    requires ReachOn(g, x, k - 1, d - 1)
    ensures ReachOn(g, x + 1, k, d)
  {
  }

  /** Every recorded point is reachable with the number of edits of its round. */
  lemma {:induction false} StartReached<T>(g: Graph<T>, d: int, k: int)
    requires On(d, k)
    ensures ReachOn(g, Start(g, d, k), k, d)
    decreases d, 0
  {
    hide Furthest;
    if d != 0 {
      if Down(g, d, k) {
        assert On(d - 1, k + 1);
        FurthestReached(g, d - 1, k + 1);
        ReachDown(g, Furthest(g, d - 1, k + 1), k, d);
      } else {
        FurthestReached(g, d - 1, k - 1);
        ReachRight(g, Furthest(g, d - 1, k - 1), k, d);
      }
    }
  }

  lemma {:induction false} FurthestReached<T>(g: Graph<T>, d: int, k: int)
    requires On(d, k)
    ensures ReachOn(g, Furthest(g, d, k), k, d)
    decreases d, 1
  {
    FurthestFromStart(g, d, k);
    StartReached(g, d, k);
    SnakeReaches(g, Start(g, d, k), k, d);
  }

  /** Each round gets at least as far as a single move from either neighbour, and leaves no
      diagonal move untaken. */
  lemma FurthestDominates<T>(g: Graph<T>, d: int, k: int)
    requires On(d, k)
    ensures On(d - 1, k - 1) ==> Furthest(g, d - 1, k - 1) + 1 <= Furthest(g, d, k)
    ensures On(d - 1, k + 1) ==> Furthest(g, d - 1, k + 1) <= Furthest(g, d, k)
    ensures !MatchOn(g, Furthest(g, d, k), k)
  {
  }

  /** The last move of a path to column x on diagonal k. */
  lemma ReachLastMove<T>(g: Graph<T>, x: int, k: int, d: int)
    requires ReachOn(g, x, k, d)
    ensures 0 <= x && k <= x && On(d, k)
    ensures || (x == 0 && k == 0 && d == 0)
            || (0 < x && ReachOn(g, x - 1, k - 1, d - 1))
            || (k < x && ReachOn(g, x, k + 1, d - 1))
            || (0 < x && k < x && MatchOn(g, x - 1, k) && ReachOn(g, x - 1, k, d))
  {
    ReachShape(g, x, x - k, d);
  }

  /** The greedy choice is optimal: no path of d edits gets further along its diagonal. */
  lemma {:induction false} FurthestIsMaximal<T>(g: Graph<T>, x: int, k: int, d: int)
    requires ReachOn(g, x, k, d)
    ensures On(d, k) && x <= Furthest(g, d, k)
    decreases x + x - k
  {
    hide Furthest;
    ReachLastMove(g, x, k, d);
    FurthestDominates(g, d, k);
    if x == 0 && k == 0 && d == 0 {
    } else if 0 < x && ReachOn(g, x - 1, k - 1, d - 1) {
      FurthestIsMaximal(g, x - 1, k - 1, d - 1);
    } else if k < x && ReachOn(g, x, k + 1, d - 1) {
      FurthestIsMaximal(g, x, k + 1, d - 1);
    } else {
      FurthestIsMaximal(g, x - 1, k, d);
    }
  }

  /** What the search must record for diagonal k in round d: the largest x reachable there. */
  ghost predicate IsFurthest<T>(g: Graph<T>, x: int, k: int, d: int) {
    ReachOn(g, x, k, d) && forall x' | ReachOn(g, x', k, d) :: x' <= x
  }

  /** The recursion the search follows computes exactly the furthest reachable points. */
  lemma FurthestIsFurthest<T>(g: Graph<T>, d: int, k: int, x: int)
    requires On(d, k)
    ensures IsFurthest(g, x, k, d) <==> x == Furthest(g, d, k)
  {
    FurthestReached(g, d, k);
    forall x' | ReachOn(g, x', k, d) ensures x' <= Furthest(g, d, k) {
      FurthestIsMaximal(g, x', k, d);
    }
  }

  /** Where a search that has not yet exceeded the distance can be: nowhere outside the triangle
      x + y <= n + m, and past both ends only at the goal itself, in the round that is the distance
      and on the diagonal of the goal. */
  lemma SearchStaysInside<T>(g: Graph<T>, d: int, k: int)
    requires On(d, k) && d <= EditDistance(g)
    ensures
      var x, y := Furthest(g, d, k), Furthest(g, d, k) - k;
      && 0 <= Start(g, d, k) <= x && 0 <= y && x + y <= g.Total()
      && (x >= |g.orig| && y >= |g.updated|
          <==> d == EditDistance(g) && k == |g.orig| - |g.updated|)
      && (x >= |g.orig| && y >= |g.updated| ==> x == |g.orig| && y == |g.updated|)
  {
    hide Furthest, Reach, Lcs, On;
    var x, y := Furthest(g, d, k), Furthest(g, d, k) - k;
    FurthestFromStart(g, d, k);
    FurthestReached(g, d, k);
    ReachBound(g, x, y, d);
    EditDistanceRange(g);
    if d == EditDistance(g) && k == |g.orig| - |g.updated| {
      FurthestIsMaximal(g, |g.orig|, k, d);
    }
  }

  // ---------------------------------------------------------------- walking back

  ghost predicate DiagonalMove<T>(g: Graph<T>, p: Point, q: Point) {
    q.x == p.x - 1 && q.y == p.y - 1 && g.Match(q.x, q.y)
  }

  ghost predicate EditMove(p: Point, q: Point) {
    (q.x == p.x - 1 && q.y == p.y) || (q.x == p.x && q.y == p.y - 1)
  }

  ghost predicate InBox<T>(g: Graph<T>, p: Point) {
    0 <= p.x <= |g.orig| && 0 <= p.y <= |g.updated|
  }

  /** Each point is one move before its predecessor: left, up, or diagonally along a match; the
      last one is the origin, all of them lie in the box, and exactly d of the moves are edits. */
  ghost predicate Chain<T>(g: Graph<T>, from: Point, points: seq<Point>, d: int)
    decreases |points|
  {
    InBox(g, from) &&
    if points == [] then from == Point(0, 0) && d == 0
    else
      || (DiagonalMove(g, from, points[0]) && Chain(g, points[0], points[1..], d))
      || (EditMove(from, points[0]) && Chain(g, points[0], points[1..], d - 1))
  }

  /** The points met when going back along diagonal k from column x to the column `start`. */
  ghost function SnakeBack(x: int, k: int, start: int): seq<Point>
    decreases x - start
  {
    if x <= start then [] else [Point(x - 1, x - 1 - k)] + SnakeBack(x - 1, k, start)
  }

  /** The diagonal from which round d entered diagonal k. */
  ghost function PrevDiagonal<T>(g: Graph<T>, d: int, k: int): int {
    if Down(g, d, k) then k + 1 else k - 1
  }

  /** The recorded point from which round d entered diagonal k. */
  ghost function PrevPoint<T>(g: Graph<T>, d: int, k: int): Point {
    var pk := PrevDiagonal(g, d, k);
    Point(Furthest(g, d - 1, pk), Furthest(g, d - 1, pk) - pk)
  }

  /** The path back from the furthest point of diagonal k in round d to the origin. */
  ghost function PathBack<T>(g: Graph<T>, d: int, k: int): seq<Point>
    requires On(d, k)
    decreases d
  {
    SnakeBack(Furthest(g, d, k), k, Start(g, d, k)) +
    if d == 0 then [] else [PrevPoint(g, d, k)] + PathBack(g, d - 1, PrevDiagonal(g, d, k))
  }

  lemma {:induction false} SnakeMatches<T>(g: Graph<T>, x: int, k: int, z: int)
    requires x <= z < Snake(g, x, k)
    ensures MatchOn(g, z, k)
    decreases z - x
  {
    if x < z {
      SnakeMatches(g, x + 1, k, z);
    }
  }

  lemma ChainInBox<T>(g: Graph<T>, from: Point, points: seq<Point>, d: int)
    requires Chain(g, from, points, d)
    ensures InBox(g, from)
  {
  }

  lemma ChainStep<T>(g: Graph<T>, from: Point, p: Point, rest: seq<Point>, d: int)
    requires InBox(g, from) && Chain(g, p, rest, d)
    ensures DiagonalMove(g, from, p) ==> Chain(g, from, [p] + rest, d)
    ensures EditMove(from, p) ==> Chain(g, from, [p] + rest, d + 1)
  {
    assert ([p] + rest)[1..] == rest;
  }

  lemma SnakeBackUnfolds(x: int, k: int, start: int, front: seq<Point>, rest: seq<Point>)
    ensures x <= start ==> SnakeBack(x, k, start) + rest == rest && front + SnakeBack(x, k, start) == front
    ensures start < x ==>
              var p := Point(x - 1, x - 1 - k);
              && SnakeBack(x, k, start) + rest == [p] + (SnakeBack(x - 1, k, start) + rest)
              && front + SnakeBack(x, k, start) == (front + [p]) + SnakeBack(x - 1, k, start)
  {
  }

  lemma {:induction false} SnakeBackChain<T>(
      g: Graph<T>, x: int, k: int, start: int, rest: seq<Point>, d: int)
    requires start <= x <= |g.orig| && x - k <= |g.updated|
    requires forall z | start <= z < x :: MatchOn(g, z, k)
    requires Chain(g, Point(start, start - k), rest, d)
    ensures Chain(g, Point(x, x - k), SnakeBack(x, k, start) + rest, d)
    decreases x - start
  {
    hide SnakeBack;
    SnakeBackUnfolds(x, k, start, [], rest);
    if x != start {
      assert MatchOn(g, x - 1, k);
      SnakeBackChain(g, x - 1, k, start, rest, d);
      ChainInBox(g, Point(start, start - k), rest, d);
      hide Chain;
      ChainStep(g, Point(x, x - k), Point(x - 1, x - 1 - k), SnakeBack(x - 1, k, start) + rest, d);
    }
  }

  /** The edit by which round d entered diagonal k is one step of the chain. */
  lemma EntryChain<T>(g: Graph<T>, d: int, k: int, rest: seq<Point>)
    requires On(d, k) && 0 < d
    requires Start(g, d, k) <= |g.orig| && Start(g, d, k) - k <= |g.updated|
    requires Chain(g, PrevPoint(g, d, k), rest, d - 1)
    ensures Chain(g, Point(Start(g, d, k), Start(g, d, k) - k), [PrevPoint(g, d, k)] + rest, d)
  {
    hide Furthest;
    FurthestFromStart(g, d, k);
    ChainStep(g, Point(Start(g, d, k), Start(g, d, k) - k), PrevPoint(g, d, k), rest, d - 1);
  }

  /** The diagonals that round d followed lead from its furthest point back to its start. */
  lemma SnakeChain<T>(g: Graph<T>, d: int, k: int, rest: seq<Point>)
    requires On(d, k)
    requires Furthest(g, d, k) <= |g.orig| && Furthest(g, d, k) - k <= |g.updated|
    requires Chain(g, Point(Start(g, d, k), Start(g, d, k) - k), rest, d)
    ensures Chain(g, Point(Furthest(g, d, k), Furthest(g, d, k) - k),
                  SnakeBack(Furthest(g, d, k), k, Start(g, d, k)) + rest, d)
  {
    hide Furthest;
    FurthestFromStart(g, d, k);
    forall z | Start(g, d, k) <= z < Furthest(g, d, k) ensures MatchOn(g, z, k) {
      SnakeMatches(g, Start(g, d, k), k, z);
    }
    SnakeBackChain(g, Furthest(g, d, k), k, Start(g, d, k), rest, d);
  }

  lemma PrevPointInside<T>(g: Graph<T>, d: int, k: int)
    requires On(d, k) && 0 < d
    ensures On(d - 1, PrevDiagonal(g, d, k))
    ensures Start(g, d, k) <= Furthest(g, d, k)
    ensures 0 <= PrevPoint(g, d, k).x <= Start(g, d, k)
    ensures 0 <= PrevPoint(g, d, k).y <= Start(g, d, k) - k
  {
    FurthestFromStart(g, d, k);
  }

  /** Walking back from a furthest point inside the box gives a chain of unit moves to the origin
      that contains exactly d edits. */
  lemma {:induction false} PathBackChain<T>(g: Graph<T>, d: int, k: int)
    requires On(d, k)
    requires Furthest(g, d, k) <= |g.orig| && Furthest(g, d, k) - k <= |g.updated|
    ensures Chain(g, Point(Furthest(g, d, k), Furthest(g, d, k) - k), PathBack(g, d, k), d)
    decreases d
  {
    hide Furthest;
    if d == 0 {
      SnakeChain(g, d, k, []);
    } else {
      var pk := PrevDiagonal(g, d, k);
      PrevPointInside(g, d, k);
      PathBackChain(g, d - 1, pk);
      EntryChain(g, d, k, PathBack(g, d - 1, pk));
      SnakeChain(g, d, k, [PrevPoint(g, d, k)] + PathBack(g, d - 1, pk));
    }
  }
}
