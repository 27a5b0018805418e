/** The four functions of diff/myers_diff.hpp, with their cost array indexed by diagonal modulo its
    length, their flattened trace and their 16-bit stores. */
module Myers {
  import opened EditGraph
  import opened FixedWidth
  import opened Frontier

  /** The largest n + m for which no loop counter of a running search can leave IndexT. */
  const SEARCH_LIMIT := 32766

  /** The largest n + m for which the row width 2 * (n + m) + 1 fits IndexT as well. */
  const BACKTRACE_LIMIT := 16383

  /** The sizes fit IndexT, and so does every diagonal counter of a round that has to be completed. */
  ghost predicate Searchable<T>(g: Graph<T>) {
    g.Total() < 0x8000 && EditDistance(g) < 0x7FFF
  }

  /** In terms of the inputs: all of them up to the limit, and one element beyond it those that have
      anything in common. */
  lemma SearchableIff<T>(g: Graph<T>)
    ensures Searchable(g) <==>
              g.Total() <= SEARCH_LIMIT
              || (g.Total() == SEARCH_LIMIT + 1 && 0 < Lcs(g, |g.orig|, |g.updated|))
  {
    EditDistanceRange(g);
  }

  /** The length of the cost array and of one row of the trace. */
  function Width<T>(g: Graph<T>): int {
    2 * g.Total() + 1
  }

  /** The slot of diagonal k: diagonal 0 sits at slot 0 and the negative ones wrap to the end. */
  function Slot(ncost: int, k: int): int {
    if k < 0 then ncost + k else k
  }

  /** The index computed for diagonal k.  It is the slot of k; only one step past the last diagonal
      of a single-slot array does it come round to slot 0. */
  function Index(ncost: int, k: int): (i: int)
    requires 0 < ncost && -ncost <= k <= ncost
    ensures i == if k == ncost then 0 else Slot(ncost, k)
  {
    ModOnce(ncost + k, ncost);
    (ncost + k) % ncost
  }

  /** What the slot of diagonal k holds when round d begins: the result of the round before on the
      diagonals that one visited, an older result on the others, and zero where no round has been. */
  ghost function Cell<T>(g: Graph<T>, d: int, k: int): int {
    if On(d - 1, k) then Furthest(g, d - 1, k) else Furthest(g, d - 2, k)
  }

  /** k is a diagonal of the box, so it has a slot of its own. */
  predicate HasSlot<T>(g: Graph<T>, k: int) {
    -g.Total() <= k <= g.Total()
  }

  /** `costs` is the cost array at the beginning of round d. */
  ghost predicate RowOf<T>(g: Graph<T>, costs: seq<IndexT>, d: int) {
    |costs| == Width(g) &&
    forall k | HasSlot(g, k) :: costs[Slot(Width(g), k)] == Cell(g, d, k)
  }

  ghost function MidCell<T>(g: Graph<T>, d: int, k: int, j: int): int {
    if On(d, j) && j < k then Furthest(g, d, j) else Cell(g, d, j)
  }

  /** `costs` is the cost array during round d, when the diagonals below k are done. */
  ghost predicate MidRow<T>(g: Graph<T>, costs: seq<IndexT>, d: int, k: int) {
    |costs| == Width(g) &&
    forall j | HasSlot(g, j) :: costs[Slot(Width(g), j)] == MidCell(g, d, k, j)
  }

  lemma RowBegins<T>(g: Graph<T>, costs: seq<IndexT>, d: int)
    ensures RowOf(g, costs, d) <==> MidRow(g, costs, d, -d)
  {
  }

  lemma RowEnds<T>(g: Graph<T>, costs: seq<IndexT>, d: int, k: int)
    requires MidRow(g, costs, d, k) && d < k
    ensures RowOf(g, costs, d + 1)
  {
    forall j | HasSlot(g, j) ensures costs[Slot(Width(g), j)] == Cell(g, d + 1, j) {
      assert MidCell(g, d, k, j) == Cell(g, d + 1, j);
    }
  }

  lemma MidCellStep<T>(g: Graph<T>, d: int, k: int, j: int)
    requires On(d, k)
    ensures MidCell(g, d, k + 2, j) == if j == k then Furthest(g, d, k) else MidCell(g, d, k, j)
  {
  }

  /** Storing a result in its slot advances the round by one diagonal and disturbs no other. */
  lemma RowStep<T>(g: Graph<T>, costs: seq<IndexT>, d: int, k: int, x: IndexT)
    requires MidRow(g, costs, d, k) && On(d, k) && HasSlot(g, k)
    requires x == Furthest(g, d, k)
    ensures MidRow(g, costs[Slot(Width(g), k) := x], d, k + 2)
  {
    hide Furthest, On, MidCell;
    forall j | HasSlot(g, j)
      ensures costs[Slot(Width(g), k) := x][Slot(Width(g), j)] == MidCell(g, d, k + 2, j)
    {
      MidCellStep(g, d, k, j);
    }
  }

  /** The invariant of the search in its own terms: when round d is complete, the slot of each
      diagonal it visited holds the largest x reachable there with exactly d edits. */
  lemma RowIsFurthest<T>(g: Graph<T>, costs: seq<IndexT>, d: int, k: int)
    requires RowOf(g, costs, d + 1) && On(d, k) && d <= g.Total()
    ensures IsFurthest(g, costs[Index(Width(g), k)], k, d)
  {
    hide Furthest, Index;
    assert HasSlot(g, k) && costs[Slot(Width(g), k)] == Cell(g, d + 1, k);
    FurthestIsFurthest(g, d, k, Furthest(g, d, k));
  }

  lemma FurthestOff<T>(g: Graph<T>, d: int, k: int)
    requires !On(d, k)
    ensures Furthest(g, d, k) == 0
  {
  }

  /** The neighbours read for diagonal k still hold the results of the round before, and where the
      index wraps onto another diagonal the value read plays no part in the choice. */
  lemma NeighboursFromRoundBefore<T>(
      g: Graph<T>, costs: seq<IndexT>, d: int, k: int, left: int, right: int)
    requires MidRow(g, costs, d, k) && On(d, k) && d <= g.Total()
    requires left == costs[Index(Width(g), k - 1)]
    requires right == costs[Index(Width(g), k + 1)]
    ensures On(d - 1, k - 1) ==> left == Furthest(g, d - 1, k - 1)
    ensures On(d - 1, k + 1) ==> right == Furthest(g, d - 1, k + 1)
    ensures Start(g, d, k) == if TakesDown(d, k, left, right) then right else left + 1
  {
    hide Furthest, Index;
    var width := Width(g);
    if d == 0 {
      var j := if g.Total() == 0 then 0 else 1;
      assert right == costs[Slot(width, j)] == Cell(g, d, j);
      FurthestOff(g, d - 1, j);
      FurthestOff(g, d - 2, j);
    } else {
      if k != d {
        assert right == costs[Slot(width, k + 1)] == Cell(g, d, k + 1);
      }
      if k != -d {
        assert left == costs[Slot(width, k - 1)] == Cell(g, d, k - 1);
      }
    }
  }

  /** Follow diagonals from (x, y) while the comparator accepts them. */
  method FollowSnake<T>(g: Graph<T>, x0: IndexT, y0: IndexT) returns (x: IndexT, y: IndexT)
    requires 0 <= x0 && 0 <= y0 && g.Total() < 0x8000
    ensures x == Snake(g, x0, x0 as int - y0) && x as int - y == x0 as int - y0
  {
    x, y := x0, y0;
    ghost var k := x0 as int - y0;
    while x < |g.orig| && y < |g.updated| && g.same(g.orig[x], g.updated[y])
      invariant 0 <= x && 0 <= y && x as int - y == k
      invariant Snake(g, x, k) == Snake(g, x0, k)
    {
      x := x + 1;
      y := y + 1;
    }
  }

  /** One diagonal of one round, as both searches do it. */
  method Advance<T>(g: Graph<T>, costs: array<IndexT>, iedit: IndexT, k: IndexT)
    returns (x: IndexT, y: IndexT)
    requires g.Total() < 0x8000 && costs.Length == Width(g)
    requires On(iedit, k) && iedit <= EditDistance(g)
    requires MidRow(g, costs[..], iedit, k)
    modifies costs
    ensures x == Furthest(g, iedit, k) && y as int == x as int - k
    ensures MidRow(g, costs[..], iedit, k + 2)
  {
    hide Furthest, MidRow, Reach, Lcs, Index, Start, On, EditDistance, Snake;
    EditDistanceRange(g);
    OnNext(iedit, k, k);
    SearchStaysInside(g, iedit, k);
    var ncost := costs.Length;
    var prevk: int := costs[Index(ncost, k as int - 1)];
    var nextk: int := costs[Index(ncost, k as int + 1)];
    NeighboursFromRoundBefore(g, costs[..], iedit, k, prevk, nextk);
    FurthestFromStart(g, iedit, k);
    if k == -(iedit as int) || (k != iedit && prevk < nextk) {
      x := nextk;
    } else {
      x := prevk + 1;
    }

    y := x as int - k as int;
    x, y := FollowSnake(g, x, y);

    RowStep(g, costs[..], iedit, k, x);
    costs[Index(ncost, k)] := x;
    assert costs[..] == old(costs[..])[Slot(ncost, k) := x];
  }

  lemma FirstRow<T>(g: Graph<T>, costs: seq<IndexT>)
    requires |costs| == Width(g) && forall i | 0 <= i < |costs| :: costs[i] == 0
    ensures RowOf(g, costs, 0)
  {
  }

  lemma OnFirst(d: int)
    requires 0 <= d
    ensures On(d, -d)
  {
  }

  /** Two diagonals on comes the next one of the round, if there is one, and no other is skipped. */
  lemma OnNext(d: int, k: int, goal: int)
    requires On(d, k)
    ensures -d <= k <= d
    ensures On(d, k + 2) || k == d
    ensures On(d, goal) && k < goal ==> k + 2 <= goal
  {
  }

  /** The two facts a search round needs about its end: unless it has met the goal, the next round
      is still within the distance. */
  lemma RoundWithoutGoal<T>(g: Graph<T>, costs: seq<IndexT>, d: int, k: int)
    requires MidRow(g, costs, d, k) && 0 <= d <= EditDistance(g) && d < k
    requires d == EditDistance(g) ==> k <= |g.orig| - |g.updated|
    ensures d < EditDistance(g) && RowOf(g, costs, d + 1)
  {
    hide Furthest;
    EditDistanceRange(g);
    RowEnds(g, costs, d, k);
  }

  /** The last round the trace-free search can run leaves room for its diagonal counter. */
  lemma CounterFits<T>(g: Graph<T>, d: int)
    requires Searchable(g) && d <= EditDistance(g) && d < g.Total()
    ensures d + 2 < 0x8000
  {
  }

  /** The trace-free search returns the edit distance. */
  method MyersDiffMinEdit<T>(g: Graph<T>) returns (min_edits: IndexT)
    requires Searchable(g)
    ensures min_edits == EditDistance(g)
  {
    hide Furthest, RowOf, MidRow, EditDistance, On;
    EditDistanceRange(g);
    var n: IndexT, m: IndexT := |g.orig|, |g.updated|;
    var max_edit: IndexT := n as int + m;

    var x: IndexT, y: IndexT;
    var ncost := 2 * (max_edit as int) + 1;
    var costs := new IndexT[ncost](_ => 0);
    var cont := true;
    min_edits := max_edit;
    FirstRow(g, costs[..]);
    var iedit: IndexT := 0;
    while iedit < max_edit && cont
      invariant 0 <= iedit <= max_edit
      invariant cont ==> iedit <= EditDistance(g) && RowOf(g, costs[..], iedit) && min_edits == max_edit
      invariant !cont ==> min_edits == EditDistance(g)
    {
      CounterFits(g, iedit);
      RowBegins(g, costs[..], iedit);
      OnFirst(iedit);
      var k: IndexT := -(iedit as int);
      while k <= iedit && cont
        invariant On(iedit, k) || k as int == iedit as int + 2
        invariant cont ==> MidRow(g, costs[..], iedit, k) && min_edits == max_edit
        invariant cont && iedit == EditDistance(g) ==> k as int <= n as int - m
        invariant !cont ==> min_edits == EditDistance(g)
        decreases iedit as int + 2 - k
      {
        OnNext(iedit, k, |g.orig| - |g.updated|);
        SearchStaysInside(g, iedit, k);
        x, y := Advance(g, costs, iedit, k);
        if x >= n && y >= m {
          min_edits := iedit;
          cont := false;
        }
        k := k as int + 2;
      }
      if cont {
        RoundWithoutGoal(g, costs[..], iedit, k);
      }
      iedit := iedit + 1;
    }
  }

  // ---------------------------------------------------------------- the trace

  /** The position in the flattened trace of a slot of the row of round `iedit`. */
  function TraceIndex(ncost: int, iedit: int, slot: int): int {
    iedit * ncost + slot
  }

  /** `trace` is `rounds` rows: row d is the cost array as it was when round d began. */
  ghost predicate IsTrace<T>(g: Graph<T>, trace: seq<IndexT>, rounds: int) {
    |trace| == rounds * Width(g) &&
    forall d, s | 0 <= d < rounds && 0 <= s < Width(g) ::
      && 0 <= TraceIndex(Width(g), d, s) < |trace|
      && trace[TraceIndex(Width(g), d, s)] == CellAt(g, d, s)
  }

  /** The contents of slot s when round d begins. */
  ghost function CellAt<T>(g: Graph<T>, d: int, s: int): int {
    Cell(g, d, if s <= g.Total() then s else s - Width(g))
  }

  lemma RowAtSlot<T>(g: Graph<T>, costs: seq<IndexT>, d: int, s: int)
    requires RowOf(g, costs, d) && 0 <= s < Width(g)
    ensures costs[s] == CellAt(g, d, s)
  {
    hide Furthest;
    var k := if s <= g.Total() then s else s - Width(g);
    assert HasSlot(g, k) && Slot(Width(g), k) == s;
  }

  lemma TraceIndexRange(ncost: int, rounds: int, d: int, s: int)
    requires 0 <= d < rounds && 0 <= s < ncost
    ensures 0 <= TraceIndex(ncost, d, s) < rounds * ncost
  {
    assert (d + 1) * ncost <= rounds * ncost;
  }

  lemma TraceGrows<T>(g: Graph<T>, trace: seq<IndexT>, rounds: int, costs: seq<IndexT>)
    requires 0 <= rounds && IsTrace(g, trace, rounds) && RowOf(g, costs, rounds)
    ensures IsTrace(g, trace + costs, rounds + 1)
  {
    hide Furthest, Cell, CellAt, TraceIndex;
    var width, trace' := Width(g), trace + costs;
    assert |trace'| == (rounds + 1) * width;
    forall d, s | 0 <= d < rounds + 1 && 0 <= s < width
      ensures 0 <= TraceIndex(width, d, s) < |trace'|
      ensures trace'[TraceIndex(width, d, s)] == CellAt(g, d, s)
    {
      TraceIndexRange(width, rounds + 1, d, s);
      if d == rounds {
        TraceIndexIs(width, rounds, s);
        RowAtSlot(g, costs, rounds, s);
      }
    }
  }

  lemma TraceIndexIs(ncost: int, d: int, s: int)
    ensures TraceIndex(ncost, d, s) == d * ncost + s
  {
  }

  /** What stands in row d of the trace for diagonal k, which is at slot k or, if k is negative, as far
      from the end of the row: the furthest point of the round before if that visited k, else that of
      the round before it, and zero on the diagonals that no round has reached. */
  lemma TraceHolds<T>(g: Graph<T>, trace: seq<IndexT>, rounds: int, d: int, k: int)
    requires IsTrace(g, trace, rounds) && 0 <= d < rounds && -g.Total() <= k <= g.Total()
    ensures
      var width := 2 * (|g.orig| + |g.updated|) + 1;
      var i := d * width + if k < 0 then width + k else k;
      && 0 <= i < |trace| == rounds * width
      && (On(d - 1, k) ==> IsFurthest(g, trace[i], k, d - 1))
      && (On(d - 2, k) ==> IsFurthest(g, trace[i], k, d - 2))
      && (!On(d - 1, k) && !On(d - 2, k) ==> trace[i] == 0)
  {
    hide Furthest, IsFurthest;
    var s := Slot(Width(g), k);
    assert trace[TraceIndex(Width(g), d, s)] == CellAt(g, d, s) == Cell(g, d, k);
    TraceIndexIs(Width(g), d, s);
    if On(d - 1, k) {
      FurthestIsFurthest(g, d - 1, k, Furthest(g, d - 1, k));
    } else if On(d - 2, k) {
      FurthestIsFurthest(g, d - 2, k, Furthest(g, d - 2, k));
    } else {
      FurthestOff(g, d - 2, k);
    }
  }

  lemma EmptyTrace<T>(g: Graph<T>)
    ensures IsTrace(g, [], 0)
  {
  }

  /** The trace has one row more than there are edits, and each row is the cost array at the
      beginning of its round. */
  method MyersDiffTrace<T>(g: Graph<T>) returns (trace: seq<IndexT>)
    requires Searchable(g)
    ensures IsTrace(g, trace, EditDistance(g) + 1)
  {
    SearchableIff(g);
    hide Furthest, RowOf, MidRow, EditDistance, On, IsTrace, Lcs;
    EditDistanceRange(g);
    var n: IndexT, m: IndexT := |g.orig|, |g.updated|;
    var max_edit: IndexT := n as int + m;

    var x: IndexT, y: IndexT;
    var ncost := 2 * (max_edit as int) + 1;
    var costs := new IndexT[ncost](_ => 0);
    trace := [];
    EmptyTrace(g);
    var cont := true;
    FirstRow(g, costs[..]);
    var iedit: IndexT := 0;
    while iedit <= max_edit && cont
      invariant 0 <= iedit <= max_edit as int + 1
      invariant IsTrace(g, trace, iedit)
      invariant cont ==> iedit <= EditDistance(g) && RowOf(g, costs[..], iedit)
      invariant !cont ==> iedit as int == EditDistance(g) + 1
      decreases max_edit as int + 1 - iedit
    {
      TraceGrows(g, trace, iedit, costs[..]);
      trace := trace + costs[..];
      RowBegins(g, costs[..], iedit);
      OnFirst(iedit);
      var k: IndexT := -(iedit as int);
      while k <= iedit && cont
        invariant cont ==> On(iedit, k) || k as int == iedit as int + 2
        invariant cont ==> MidRow(g, costs[..], iedit, k)
        invariant cont && iedit == EditDistance(g) ==> k as int <= n as int - m
        invariant !cont ==> iedit == EditDistance(g)
        decreases cont, iedit as int + 2 - k
      {
        OnNext(iedit, k, |g.orig| - |g.updated|);
        SearchStaysInside(g, iedit, k);
        x, y := Advance(g, costs, iedit, k);
        cont := x < n || y < m;
        k := ToIndexT(k as int + 2);
      }
      if cont {
        RoundWithoutGoal(g, costs[..], iedit, k);
      }
      iedit := iedit + 1;
    }
  }

  // ---------------------------------------------------------------- walking back

  /** The number of rows the walk back believes a trace of `rounds` rows has: where the row width
      does not fit IndexT it turns negative, and the division by it yields nothing. */
  lemma RowsSeen(total: int, rounds: int)
    requires 0 <= total < 0x8000 && 0 <= rounds <= total + 1
    ensures ToSize(ToIndexT(2 * total + 1)) != 0
    ensures rounds * (2 * total + 1) / ToSize(ToIndexT(2 * total + 1))
         == if total <= BACKTRACE_LIMIT then rounds else 0
  {
    var width := 2 * total + 1;
    if total <= BACKTRACE_LIMIT {
      assert ToSize(ToIndexT(width)) == width;
      QuotientIs(rounds * width, width, rounds);
    } else {
      assert ToIndexT(width) == width - 0x10000;
      ProductBound(rounds, width, 0x8000, 0x10000);
      SmallQuotient(rounds * width, ToSize(ToIndexT(width)));
    }
  }

  lemma TraceSize<T>(g: Graph<T>, traces: seq<IndexT>)
    requires g.Total() < 0x8000 && IsTrace(g, traces, EditDistance(g) + 1)
    ensures ToSize(ToIndexT(Width(g))) != 0
    ensures ToIndexT(|traces| / ToSize(ToIndexT(Width(g))))
         == if g.Total() <= BACKTRACE_LIMIT then EditDistance(g) + 1 else 0
    ensures g.Total() <= BACKTRACE_LIMIT ==> ToIndexT(Width(g)) == Width(g)
  {
    hide EditDistance;
    EditDistanceRange(g);
    RowsSeen(g.Total(), EditDistance(g) + 1);
  }

  lemma GoalIsFurthest<T>(g: Graph<T>)
    ensures On(EditDistance(g), |g.orig| - |g.updated|)
    ensures Furthest(g, EditDistance(g), |g.orig| - |g.updated|) == |g.orig|
  {
    hide Furthest, EditDistance;
    EditDistanceRange(g);
    SearchStaysInside(g, EditDistance(g), |g.orig| - |g.updated|);
  }

  /** What the backtrace returns: the path back from the goal, or nothing where the row width does
      not fit IndexT. */
  ghost function BacktracePoints<T>(g: Graph<T>): seq<Point> {
    if g.Total() <= BACKTRACE_LIMIT then
      EditDistanceRange(g);
      PathBack(g, EditDistance(g), |g.orig| - |g.updated|)
    else []
  }

  /** The value the backtrace reads for diagonal k from the row of round d. */
  lemma TraceRead<T>(g: Graph<T>, traces: seq<IndexT>, d: int, k: int)
    requires IsTrace(g, traces, EditDistance(g) + 1) && 0 <= d <= EditDistance(g)
    requires -g.Total() - 1 <= k <= g.Total() + 1
    ensures 0 <= TraceIndex(Width(g), d, Index(Width(g), k)) < |traces|
    ensures On(d - 1, k) ==> traces[TraceIndex(Width(g), d, Index(Width(g), k))] == Furthest(g, d - 1, k)
    ensures d == 0 ==> traces[TraceIndex(Width(g), d, Index(Width(g), k))] == 0
  {
    hide Furthest, TraceIndex, Index, EditDistance;
    EditDistanceRange(g);
    var s := Index(Width(g), k);
    assert traces[TraceIndex(Width(g), d, s)] == CellAt(g, d, s);
    if d == 0 {
      var j := if s <= g.Total() then s else s - Width(g);
      FurthestOff(g, -1, j);
      FurthestOff(g, -2, j);
    }
  }

  /** The branch re-chosen walking back is the branch the search took. */
  lemma BranchRetraced<T>(g: Graph<T>, traces: seq<IndexT>, d: int, k: int, left: int, right: int)
    requires IsTrace(g, traces, EditDistance(g) + 1) && On(d, k) && d <= EditDistance(g)
    requires -g.Total() <= k <= g.Total()
    requires 0 <= TraceIndex(Width(g), d, Index(Width(g), k - 1)) < |traces|
    requires 0 <= TraceIndex(Width(g), d, Index(Width(g), k + 1)) < |traces|
    requires left == traces[TraceIndex(Width(g), d, Index(Width(g), k - 1))]
    requires right == traces[TraceIndex(Width(g), d, Index(Width(g), k + 1))]
    ensures d == 0 ==> TakesDown(d, k, left, right)
    ensures 0 < d ==> (TakesDown(d, k, left, right) <==> Down(g, d, k))
    ensures 0 < d ==> PrevPoint(g, d, k).x == if Down(g, d, k) then right else left
  {
    hide Furthest, TraceIndex, Index, EditDistance, IsTrace;
    TraceRead(g, traces, d, k - 1);
    TraceRead(g, traces, d, k + 1);
  }

  /** Where the walk back leaves diagonal k of round d, and where it continues. */
  ghost function LeavePoint<T>(g: Graph<T>, d: int, k: int): Point {
    if d == 0 then Point(0, -1) else PrevPoint(g, d, k)
  }

  lemma LeavesAtStart<T>(g: Graph<T>, d: int, k: int)
    requires On(d, k)
    ensures 0 <= LeavePoint(g, d, k).x && -1 <= LeavePoint(g, d, k).y
    ensures 0 <= Start(g, d, k) <= Furthest(g, d, k)
    ensures EditMove(Point(Start(g, d, k), Start(g, d, k) - k), LeavePoint(g, d, k))
  {
    hide Furthest;
    FurthestFromStart(g, d, k);
    if d != 0 {
      PrevPointInside(g, d, k);
    }
  }

  /** The points one round contributes to the walk back. */
  ghost function RoundPoints<T>(g: Graph<T>, d: int, k: int): seq<Point>
    requires On(d, k)
  {
    SnakeBack(Furthest(g, d, k), k, Start(g, d, k)) + if d == 0 then [] else [PrevPoint(g, d, k)]
  }

  lemma PathBackUnfolds<T>(g: Graph<T>, d: int, k: int)
    requires On(d, k)
    ensures d == 0 ==> PathBack(g, d, k) == RoundPoints(g, d, k)
    ensures 0 < d ==> On(d - 1, PrevDiagonal(g, d, k))
    ensures 0 < d ==>
              PathBack(g, d, k) == RoundPoints(g, d, k) + PathBack(g, d - 1, PrevDiagonal(g, d, k))
  {
    hide Furthest;
  }

  /** Go back along diagonals from (x0, y0) until a coordinate has come down to the given one. */
  method BackSnake(x0: IndexT, y0: IndexT, prev_x: IndexT, prev_y: IndexT, ghost start: int)
    returns (points: seq<Point>)
    requires prev_x <= start <= x0 && prev_y <= start - x0 + y0
    requires EditMove(Point(start, start - x0 + y0), Point(prev_x, prev_y))
    ensures points == SnakeBack(x0, x0 as int - y0, start)
  {
    var x, y := x0, y0;
    ghost var k := x as int - y;
    points := [];
    hide SnakeBack;
    while x > prev_x && y > prev_y
      invariant start <= x && x as int - y == k
      invariant points + SnakeBack(x, k, start) == SnakeBack(x0, k, start)
      decreases x as int - start
    {
      SnakeBackUnfolds(x, k, start, points, []);
      x := x as int - 1;
      y := y as int - 1;
      points := points + [Point(x, y)];
    }
    SnakeBackUnfolds(x, k, start, points, []);
  }

  /** One round of the walk back: the diagonals from (x, y) to where round d entered them, and the
      point the round came from, from which the next round back continues. */
  method BackRound<T>(g: Graph<T>, traces: seq<IndexT>, ncost: IndexT, iedit: IndexT, x: IndexT, y: IndexT)
    returns (points: seq<Point>, prev_x: IndexT, prev_y: IndexT)
    requires g.Total() <= BACKTRACE_LIMIT && ncost as int == Width(g)
    requires IsTrace(g, traces, EditDistance(g) + 1) && iedit <= EditDistance(g)
    requires On(iedit, x as int - y) && x == Furthest(g, iedit, x as int - y)
    requires x <= |g.orig| && y <= |g.updated|
    ensures points == RoundPoints(g, iedit, x as int - y)
    ensures Point(prev_x, prev_y) == LeavePoint(g, iedit, x as int - y)
  {
    hide Furthest, IsTrace, EditDistance, TraceIndex, Index, Start, On, SnakeBack;
    EditDistanceRange(g);
    var k: IndexT := x as int - y;
    LeavesAtStart(g, iedit, k);
    OnNext(iedit, k, k);
    TraceRead(g, traces, iedit, k as int - 1);
    TraceRead(g, traces, iedit, k as int + 1);
    var left: int := traces[TraceIndex(ncost, iedit, Index(ncost, k as int - 1))];
    var right: int := traces[TraceIndex(ncost, iedit, Index(ncost, k as int + 1))];
    BranchRetraced(g, traces, iedit, k, left, right);
    var prev_k: IndexT;
    if k == -(iedit as int) || (k != iedit && left < right) {
      prev_k := k as int + 1;
    } else {
      prev_k := k as int - 1;
    }

    prev_x := traces[TraceIndex(ncost, iedit, Index(ncost, prev_k))];
    prev_y := prev_x as int - prev_k;

    points := BackSnake(x, y, prev_x, prev_y, Start(g, iedit, k));

    if iedit > 0 {
      points := points + [Point(prev_x, prev_y)];
    }
  }

  method MyersDiffBacktrace<T>(g: Graph<T>) returns (points: seq<Point>)
    requires Searchable(g)
    ensures points == BacktracePoints(g)
  {
    hide Furthest, IsTrace, EditDistance, ToIndexT, ToSize, TraceIndex, PathBack, Index, SnakeBack, Start, On;
    var x: IndexT := |g.orig|;
    var y: IndexT := |g.updated|;
    var ncost: IndexT := ToIndexT(2 * (x as int + y) + 1);

    var traces := MyersDiffTrace(g);

    points := [];
    TraceSize(g, traces);
    EditDistanceRange(g);
    var ntraces: IndexT := ToIndexT(|traces| / ToSize(ncost));
    GoalIsFurthest(g);
    var iedit: IndexT := ntraces as int - 1;
    ghost var all := BacktracePoints(g);
    while iedit >= 0
      invariant -1 <= iedit <= EditDistance(g)
      invariant iedit >= 0 ==>
        && g.Total() <= BACKTRACE_LIMIT && ncost as int == Width(g)
        && x <= |g.orig| && y <= |g.updated|
        && On(iedit, x as int - y) && x == Furthest(g, iedit, x as int - y)
        && points + PathBack(g, iedit, x as int - y) == all
      invariant iedit < 0 ==> points == all
      decreases iedit
    {
      ghost var k := x as int - y;
      PathBackUnfolds(g, iedit, k);
      LeavesAtStart(g, iedit, k);
      var round: seq<Point>;
      round, x, y := BackRound(g, traces, ncost, iedit, x, y);
      points := points + round;
      iedit := iedit as int - 1;
    }
  }

  // ---------------------------------------------------------------- the edit script

  /** The row for one step back from `prev` to `next`. */
  function RowFor<T>(g: Graph<T>, prev: Point, next: Point): Diff<T>
    requires g.Total() < 0x8000 && InBox(g, prev)
    requires DiagonalMove(g, prev, next) || (EditMove(prev, next) && InBox(g, next))
  {
    if next.x == prev.x then Diff(g.updated[next.y], -1, next.y, ADD)
    else if next.y == prev.y then Diff(g.orig[next.x], next.x, -1, DEL)
    else Diff(g.orig[next.x], next.x, next.y, EQ)
  }

  /** The script of a chain: its rows in the order from the origin forwards. */
  ghost function ScriptBack<T>(g: Graph<T>, from: Point, points: seq<Point>, d: int): seq<Diff<T>>
    requires g.Total() < 0x8000 && Chain(g, from, points, d)
    decreases |points|
  {
    if points == [] then []
    else
      var rest := if DiagonalMove(g, from, points[0]) then d else d - 1;
      ScriptBack(g, points[0], points[1..], rest) + [RowFor(g, from, points[0])]
  }

  lemma EditCountGrows<T>(s: seq<Diff<T>>, row: Diff<T>)
    ensures EditCount(s + [row]) == EditCount(s) + if row.action == EQ then 0 else 1
  {
    assert (s + [row])[..|s|] == s;
    ActionsOfPrefix(s + [row]);
  }

  /** One more step of the walk is one more row of the script. */
  lemma ScriptGrows<T>(g: Graph<T>, s: seq<Diff<T>>, from: Point, next: Point)
    requires g.Total() < 0x8000 && InBox(g, from) && InBox(g, next) && Script(g, s, next.x, next.y)
    requires DiagonalMove(g, from, next) || EditMove(from, next)
    ensures Script(g, s + [RowFor(g, from, next)], from.x, from.y)
    ensures RowFor(g, from, next).action == EQ <==> DiagonalMove(g, from, next)
  {
    assert (s + [RowFor(g, from, next)])[..|s|] == s;
  }

  /** A chain with d edits is an edit script with d edits. */
  lemma {:induction false} ScriptBackIsScript<T>(g: Graph<T>, from: Point, points: seq<Point>, d: int)
    requires g.Total() < 0x8000 && Chain(g, from, points, d)
    ensures Script(g, ScriptBack(g, from, points, d), from.x, from.y)
    ensures EditCount(ScriptBack(g, from, points, d)) == d
    decreases |points|
  {
    if points != [] {
      ChainHead(g, from, points, d);
      hide Chain, ScriptBack;
      var next := points[0];
      var rest := if DiagonalMove(g, from, next) then d else d - 1;
      var s := ScriptBack(g, next, points[1..], rest);
      ScriptBackIsScript(g, next, points[1..], rest);
      EditCountGrows(s, RowFor(g, from, next));
      ScriptGrows(g, s, from, next);
    }
  }

  /** What `myers_diff` returns. */
  ghost function MyersScript<T>(g: Graph<T>): seq<Diff<T>> {
    if g.Total() <= BACKTRACE_LIMIT then
      GoalChain(g);
      ScriptBack(g, Point(|g.orig|, |g.updated|), BacktracePoints(g), EditDistance(g))
    else []
  }

  /** The backtrace is a chain of unit moves inside the box from the goal to the origin, with as
      many edits as the edit distance. */
  lemma GoalChain<T>(g: Graph<T>)
    requires g.Total() <= BACKTRACE_LIMIT
    ensures Chain(g, Point(|g.orig|, |g.updated|), BacktracePoints(g), EditDistance(g))
  {
    hide Furthest, EditDistance, PathBack;
    GoalIsFurthest(g);
    PathBackChain(g, EditDistance(g), |g.orig| - |g.updated|);
  }

  function Reversed<T>(s: seq<T>): seq<T> {
    if s == [] then [] else Reversed(s[1..]) + [s[0]]
  }

  lemma {:induction false} ReversedGrows<T>(s: seq<T>, x: T)
    ensures Reversed(s + [x]) == [x] + Reversed(s)
  {
    if s != [] {
      ReversedGrows(s[1..], x);
      assert (s + [x])[1..] == s[1..] + [x];
    }
  }

  lemma ChainHead<T>(g: Graph<T>, from: Point, points: seq<Point>, d: int)
    requires g.Total() < 0x8000 && Chain(g, from, points, d) && points != []
    ensures InBox(g, from) && InBox(g, points[0])
    ensures DiagonalMove(g, from, points[0]) || EditMove(from, points[0])
    ensures var rest := if DiagonalMove(g, from, points[0]) then d else d - 1;
            && Chain(g, points[0], points[1..], rest)
            && ScriptBack(g, from, points, d)
            == ScriptBack(g, points[0], points[1..], rest) + [RowFor(g, from, points[0])]
  {
  }

  /** The rows made so far, reversed, complete the script of the points still to be converted. */
  ghost predicate Converting<T>(
      g: Graph<T>, all: seq<Diff<T>>, prev: Point, points: seq<Point>, d: int, diffs: seq<Diff<T>>)
    requires g.Total() < 0x8000
  {
    Chain(g, prev, points, d) && all == ScriptBack(g, prev, points, d) + Reversed(diffs)
  }

  lemma ConvertOne<T>(
      g: Graph<T>, all: seq<Diff<T>>, prev: Point, points: seq<Point>, d: int, diffs: seq<Diff<T>>)
    requires g.Total() < 0x8000 && points != [] && Converting(g, all, prev, points, d, diffs)
    ensures InBox(g, prev) && InBox(g, points[0])
    ensures DiagonalMove(g, prev, points[0]) || EditMove(prev, points[0])
    ensures Converting(g, all, points[0], points[1..], if DiagonalMove(g, prev, points[0]) then d else d - 1,
                       diffs + [RowFor(g, prev, points[0])])
  {
    hide Chain, ScriptBack, Reversed;
    ChainHead(g, prev, points, d);
    ReversedGrows(diffs, RowFor(g, prev, points[0]));
  }

  /** Turn a chain of points into rows, last row first, and reverse them. */
  method RowsOfPoints<T>(g: Graph<T>, points: seq<Point>, ghost d: int) returns (script: seq<Diff<T>>)
    requires g.Total() < 0x8000
    requires points != [] ==> Chain(g, Point(|g.orig|, |g.updated|), points, d)
    ensures script == if points == [] then []
                      else ScriptBack(g, Point(|g.orig|, |g.updated|), points, d)
  {
    hide Chain, ScriptBack, Converting;
    var prev := Point(|g.orig|, |g.updated|);
    var diffs: seq<Diff<T>> := [];
    ghost var rest, all := d, if points == [] then [] else ScriptBack(g, prev, points, d);
    assert points[0..] == points;
    if points != [] {
      ConvertFirst(g, prev, points, d);
    }
    for i := 0 to |points|
      invariant points == [] ==> diffs == []
      invariant points != [] ==> Converting(g, all, prev, points[i..], rest, diffs)
    {
      var next := points[i];
      ConvertOne(g, all, prev, points[i..], rest, diffs);
      rest := if DiagonalMove(g, prev, next) then rest else rest - 1;
      assert points[i..][1..] == points[i + 1..];
      if next.x == prev.x {
        diffs := diffs + [Diff(g.updated[next.y], -1, next.y, ADD)];
      } else if next.y == prev.y {
        diffs := diffs + [Diff(g.orig[next.x], next.x, -1, DEL)];
      } else {
        diffs := diffs + [Diff(g.orig[next.x], next.x, next.y, EQ)];
      }
      prev := next;
    }
    if points != [] {
      ConvertLast(g, all, prev, points[|points|..], rest, diffs);
    }
    script := Reversed(diffs);
  }

  lemma ConvertFirst<T>(g: Graph<T>, prev: Point, points: seq<Point>, d: int)
    requires g.Total() < 0x8000 && Chain(g, prev, points, d)
    ensures Converting(g, ScriptBack(g, prev, points, d), prev, points, d, [])
  {
  }

  lemma ConvertLast<T>(
      g: Graph<T>, all: seq<Diff<T>>, prev: Point, points: seq<Point>, d: int, diffs: seq<Diff<T>>)
    requires g.Total() < 0x8000 && Converting(g, all, prev, points, d, diffs) && points == []
    ensures all == Reversed(diffs)
  {
  }

  method MyersDiff<T>(g: Graph<T>) returns (script: seq<Diff<T>>)
    requires Searchable(g)
    ensures script == MyersScript(g)
  {
    hide Furthest, EditDistance, Chain, ScriptBack;
    var points := MyersDiffBacktrace(g);
    if points == [] {
      NothingToConvert(g);
    } else {
      GoalChain(g);
    }
    script := RowsOfPoints(g, points, EditDistance(g));
  }

  lemma NothingToConvert<T>(g: Graph<T>)
    requires BacktracePoints(g) == []
    ensures MyersScript(g) == []
  {
    hide Furthest, EditDistance, PathBack;
    if g.Total() <= BACKTRACE_LIMIT {
      GoalChain(g);
    }
  }

  // ---------------------------------------------------------------- what the script is worth

  /** For every input whose row width fits IndexT the result is an edit script from `orig` to
      `updated`, in order, with as many edits as the edit distance; for the larger inputs the
      search still accepts it is empty, and so not a script of them.  The guard is one a caller
      can test. */
  lemma MyersScriptSound<T>(g: Graph<T>)
    requires Searchable(g)
    ensures Script(g, MyersScript(g), |g.orig|, |g.updated|) <==> g.Total() <= BACKTRACE_LIMIT
    ensures g.Total() <= BACKTRACE_LIMIT ==> EditCount(MyersScript(g)) == EditDistance(g)
    ensures BACKTRACE_LIMIT < g.Total() ==> MyersScript(g) == []
  {
    hide EditDistance, PathBack;
    if g.Total() <= BACKTRACE_LIMIT {
      GoalChain(g);
      ScriptBackIsScript(g, Point(|g.orig|, |g.updated|), BacktracePoints(g), EditDistance(g));
    }
  }

  /** No list of actions that turns `orig` into `updated` has fewer edits than the one returned. */
  lemma MyersScriptMinimal<T>(g: Graph<T>, acts: seq<Action>)
    requires g.Total() <= BACKTRACE_LIMIT && Leads(g, acts, |g.orig|, |g.updated|)
    ensures EditCount(MyersScript(g)) <= Edits(acts)
  {
    SearchableIff(g);
    MyersScriptSound(g);
    EditDistanceIsMinimal(g, acts);
  }

  /** The two searches and the script agree: the trace-free search returns the number of trace rows
      less one, and the number of edits in the script. */
  method SearchesAgree<T>(g: Graph<T>)
    returns (min_edits: IndexT, trace: seq<IndexT>, script: seq<Diff<T>>)
    requires g.Total() <= BACKTRACE_LIMIT
    ensures |trace| == (min_edits as int + 1) * Width(g)
    ensures EditCount(script) == min_edits
    ensures Script(g, script, |g.orig|, |g.updated|)
  {
    SearchableIff(g);
    hide EditDistance, Furthest, MyersScript;
    min_edits := MyersDiffMinEdit(g);
    trace := MyersDiffTrace(g);
    script := MyersDiff(g);
    MyersScriptSound(g);
  }
}
