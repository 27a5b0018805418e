/** Which of the shortest edit scripts the Myers search returns.  Every edit leaves its diagonal from
    the furthest point that can be reached there, and is an insertion whenever an insertion can enter
    the next diagonal at least as far on.  Exactly one shortest script is like that. */
module GreedyScript {
  import opened EditGraph
  import opened Frontier
  import opened Myers

  /** With d edits no point of diagonal k is reached in column x or beyond. */
  ghost predicate NoneFrom<T>(g: Graph<T>, x: int, k: int, d: int) {
    forall x' | ReachOn(g, x', k, d) :: x' < x
  }

  /** The rule that decides every edit of a script from the origin to (x, y), in terms of what is
      reachable and of nothing else. */
  ghost predicate Greedy<T>(g: Graph<T>, s: seq<Diff<T>>, x: int, y: int)
    decreases |s|
  {
    s == [] ||
    var rest, k, d := s[..|s| - 1], x - y, EditCount(s);
    match s[|s| - 1].action
    case EQ => Greedy(g, rest, x - 1, y - 1)
    case ADD => Greedy(g, rest, x, y - 1) && IsFurthest(g, x, k + 1, d - 1) && NoneFrom(g, x, k - 1, d - 1)
    case DEL => Greedy(g, rest, x - 1, y) && IsFurthest(g, x - 1, k - 1, d - 1) && NoneFrom(g, x, k + 1, d - 1)
  }

  /** Insertions follow deletions: no inserted row is directly followed by a deleted one. */
  ghost predicate NoAddThenDel<T>(s: seq<Diff<T>>) {
    forall i | 0 <= i < |s| - 1 :: !(s[i].action == ADD && s[i + 1].action == DEL)
  }

  lemma EditCountOfLast<T>(s: seq<Diff<T>>)
    requires s != []
    ensures EditCount(s) == EditCount(s[..|s| - 1]) + if s[|s| - 1].action == EQ then 0 else 1
  {
    assert s == s[..|s| - 1] + [s[|s| - 1]];
    EditCountGrows(s[..|s| - 1], s[|s| - 1]);
  }

  // ---------------------------------------------------------------- the rule and the frontier

  /** The edit by which the search enters a diagonal follows the rule. */
  lemma EntryFollowsRule<T>(g: Graph<T>, d: int, k: int)
    requires On(d, k) && 0 < d
    ensures Down(g, d, k) ==> IsFurthest(g, Start(g, d, k), k + 1, d - 1) && NoneFrom(g, Start(g, d, k), k - 1, d - 1)
    ensures !Down(g, d, k) ==>
              IsFurthest(g, Start(g, d, k) - 1, k - 1, d - 1) && NoneFrom(g, Start(g, d, k), k + 1, d - 1)
  {
    hide Furthest, Reach, IsFurthest;
    var side := if Down(g, d, k) then k - 1 else k + 1;
    var from := if Down(g, d, k) then k + 1 else k - 1;
    assert On(d - 1, from);
    FurthestIsFurthest(g, d - 1, from, Furthest(g, d - 1, from));
    var e := d - 1;
    forall x' | ReachOn(g, x', side, e) ensures x' < Start(g, d, k) {
      FurthestIsMaximal(g, x', side, e);
    }
  }

  /** And an edit that follows the rule is the one by which the search enters. */
  lemma {:induction false} RuleIsEntry<T>(g: Graph<T>, x: int, k: int, d: int)
    ensures IsFurthest(g, x, k + 1, d - 1) && NoneFrom(g, x, k - 1, d - 1) ==>
              On(d, k) && 0 < d && Down(g, d, k) && x == Start(g, d, k)
    ensures IsFurthest(g, x - 1, k - 1, d - 1) && NoneFrom(g, x, k + 1, d - 1) ==>
              On(d, k) && 0 < d && !Down(g, d, k) && x == Start(g, d, k)
  {
    hide Furthest, Reach;
    if IsFurthest(g, x, k + 1, d - 1) && NoneFrom(g, x, k - 1, d - 1) {
      FurthestIsMaximal(g, x, k + 1, d - 1);
      FurthestIsFurthest(g, d - 1, k + 1, x);
      if On(d - 1, k - 1) {
        FurthestReached(g, d - 1, k - 1);
      }
    }
    if IsFurthest(g, x - 1, k - 1, d - 1) && NoneFrom(g, x, k + 1, d - 1) {
      FurthestIsMaximal(g, x - 1, k - 1, d - 1);
      FurthestIsFurthest(g, d - 1, k - 1, x - 1);
      if On(d - 1, k + 1) {
        FurthestReached(g, d - 1, k + 1);
      }
    }
  }

  // ---------------------------------------------------------------- the script is greedy

  ghost predicate GreedyBack<T>(g: Graph<T>, from: Point, points: seq<Point>, d: int) {
    g.Total() < 0x8000 && Chain(g, from, points, d) && Greedy(g, ScriptBack(g, from, points, d), from.x, from.y)
  }

  lemma ScriptOfStep<T>(g: Graph<T>, from: Point, p: Point, rest: seq<Point>, d: int)
    requires g.Total() < 0x8000 && InBox(g, from) && Chain(g, p, rest, d)
    requires DiagonalMove(g, from, p) || EditMove(from, p)
    ensures InBox(g, p)
    ensures var d' := if DiagonalMove(g, from, p) then d else d + 1;
            && Chain(g, from, [p] + rest, d')
            && ScriptBack(g, from, [p] + rest, d') == ScriptBack(g, p, rest, d) + [RowFor(g, from, p)]
            && EditCount(ScriptBack(g, from, [p] + rest, d')) == d'
  {
    var d' := if DiagonalMove(g, from, p) then d else d + 1;
    ChainStep(g, from, p, rest, d);
    assert ([p] + rest)[1..] == rest;
    ChainHead(g, from, [p] + rest, d');
    ScriptBackIsScript(g, from, [p] + rest, d');
  }

  lemma GreedyGrows<T>(g: Graph<T>, s: seq<Diff<T>>, row: Diff<T>, x: int, y: int)
    requires row.action == EQ ==> Greedy(g, s, x - 1, y - 1)
    requires row.action == ADD ==> Greedy(g, s, x, y - 1) && IsFurthest(g, x, x - y + 1, EditCount(s))
    requires row.action == ADD ==> NoneFrom(g, x, x - y - 1, EditCount(s))
    requires row.action == DEL ==> Greedy(g, s, x - 1, y) && IsFurthest(g, x - 1, x - y - 1, EditCount(s))
    requires row.action == DEL ==> NoneFrom(g, x, x - y + 1, EditCount(s))
    ensures Greedy(g, s + [row], x, y)
  {
    hide IsFurthest, NoneFrom, EditCount;
    EditCountGrows(s, row);
    assert (s + [row])[..|s|] == s;
  }

  lemma GreedyDiagonal<T>(g: Graph<T>, from: Point, p: Point, rest: seq<Point>, d: int)
    requires InBox(g, from) && DiagonalMove(g, from, p) && GreedyBack(g, p, rest, d)
    ensures GreedyBack(g, from, [p] + rest, d)
  {
    hide ScriptBack, Chain, Greedy, EditCount, IsFurthest, NoneFrom;
    ScriptOfStep(g, from, p, rest, d);
    GreedyGrows(g, ScriptBack(g, p, rest, d), RowFor(g, from, p), from.x, from.y);
  }

  lemma EntryMove<T>(g: Graph<T>, d: int, k: int)
    requires On(d, k) && 0 < d
    ensures 0 <= Start(g, d, k) && k <= Start(g, d, k)
    ensures Down(g, d, k) ==> PrevPoint(g, d, k) == Point(Start(g, d, k), Start(g, d, k) - k - 1)
    ensures !Down(g, d, k) ==> PrevPoint(g, d, k) == Point(Start(g, d, k) - 1, Start(g, d, k) - k)
  {
    hide Furthest;
    FurthestFromStart(g, d, k);
  }

  lemma GreedyEntry<T>(g: Graph<T>, d: int, k: int, rest: seq<Point>)
    requires On(d, k) && 0 < d && GreedyBack(g, PrevPoint(g, d, k), rest, d - 1)
    requires Start(g, d, k) <= |g.orig| && Start(g, d, k) - k <= |g.updated|
    ensures GreedyBack(g, Point(Start(g, d, k), Start(g, d, k) - k), [PrevPoint(g, d, k)] + rest, d)
  {
    hide Furthest, IsFurthest, NoneFrom, ScriptBack, Chain, Start, On, Down, PrevPoint, Greedy, EditCount;
    EntryMove(g, d, k);
    EntryFollowsRule(g, d, k);
    var from, p := Point(Start(g, d, k), Start(g, d, k) - k), PrevPoint(g, d, k);
    ScriptOfStep(g, from, p, rest, d - 1);
    ScriptBackIsScript(g, p, rest, d - 1);
    GreedyGrows(g, ScriptBack(g, p, rest, d - 1), RowFor(g, from, p), from.x, from.y);
  }

  lemma {:induction false} GreedySnake<T>(g: Graph<T>, x: int, k: int, start: int, rest: seq<Point>, d: int)
    requires start <= x <= |g.orig| && x - k <= |g.updated|
    requires forall z | start <= z < x :: MatchOn(g, z, k)
    requires GreedyBack(g, Point(start, start - k), rest, d)
    ensures GreedyBack(g, Point(x, x - k), SnakeBack(x, k, start) + rest, d)
    decreases x - start
  {
    hide ScriptBack, GreedyBack, Chain, SnakeBack;
    SnakeBackUnfolds(x, k, start, [], rest);
    if x != start {
      assert MatchOn(g, x - 1, k);
      var from, p := Point(x, x - k), Point(x - 1, x - 1 - k);
      GreedySnake(g, x - 1, k, start, rest, d);
      BackInBox(g, Point(start, start - k), rest, d);
      GreedyDiagonal(g, from, p, SnakeBack(x - 1, k, start) + rest, d);
    }
  }

  lemma BackInBox<T>(g: Graph<T>, from: Point, points: seq<Point>, d: int)
    requires GreedyBack(g, from, points, d)
    ensures InBox(g, from)
  {
  }

  lemma {:induction false} GreedyRound<T>(g: Graph<T>, d: int, k: int, rest: seq<Point>)
    requires On(d, k)
    requires Furthest(g, d, k) <= |g.orig| && Furthest(g, d, k) - k <= |g.updated|
    requires GreedyBack(g, Point(Start(g, d, k), Start(g, d, k) - k), rest, d)
    ensures GreedyBack(g, Point(Furthest(g, d, k), Furthest(g, d, k) - k),
                       SnakeBack(Furthest(g, d, k), k, Start(g, d, k)) + rest, d)
  {
    hide Furthest, GreedyBack, Start;
    FurthestFromStart(g, d, k);
    forall z | Start(g, d, k) <= z < Furthest(g, d, k) ensures MatchOn(g, z, k) {
      SnakeMatches(g, Start(g, d, k), k, z);
    }
    GreedySnake(g, Furthest(g, d, k), k, Start(g, d, k), rest, d);
  }

  lemma FromOrigin<T>(g: Graph<T>, k: int)
    requires On(0, k)
    ensures k == 0 && Start(g, 0, k) == 0
    ensures g.Total() < 0x8000 ==> GreedyBack(g, Point(0, 0), [], 0)
  {
  }

  /** The path back from a furthest point makes a greedy script. */
  lemma {:induction false} GreedyPath<T>(g: Graph<T>, d: int, k: int)
    requires On(d, k) && g.Total() < 0x8000
    requires Furthest(g, d, k) <= |g.orig| && Furthest(g, d, k) - k <= |g.updated|
    ensures GreedyBack(g, Point(Furthest(g, d, k), Furthest(g, d, k) - k), PathBack(g, d, k), d)
    decreases d
  {
    hide Furthest, GreedyBack, On, Start, SnakeBack;
    OnNext(d, k, k);
    if d == 0 {
      FromOrigin(g, k);
      GreedyRound(g, d, k, []);
    } else {
      var pk := PrevDiagonal(g, d, k);
      PrevPointInside(g, d, k);
      GreedyPath(g, d - 1, pk);
      GreedyEntry(g, d, k, PathBack(g, d - 1, pk));
      GreedyRound(g, d, k, [PrevPoint(g, d, k)] + PathBack(g, d - 1, pk));
    }
  }

  // ---------------------------------------------------------------- one script and no other

  /** A greedy script to a point of diagonal k has passed the point where the search enters k. */
  lemma {:induction false} GreedyFromStart<T>(g: Graph<T>, s: seq<Diff<T>>, x: int, y: int)
    requires Script(g, s, x, y) && Greedy(g, s, x, y)
    ensures On(EditCount(s), x - y) && Start(g, EditCount(s), x - y) <= x
    decreases |s|
  {
    hide Furthest, IsFurthest, NoneFrom, On, Start;
    if s == [] {
      OnFirst(0);
      FromOrigin(g, 0);
    } else {
      hide EditCount;
      EditCountOfLast(s);
      var rest := s[..|s| - 1];
      if s[|s| - 1].action == EQ {
        GreedyFromStart(g, rest, x - 1, y - 1);
      } else {
        RuleIsEntry(g, x, x - y, EditCount(s));
      }
    }
  }

  /** The last row of a greedy script is decided by the point it leads to and its edit count. */
  lemma {:induction false} GreedyLastAction<T>(g: Graph<T>, s: seq<Diff<T>>, t: seq<Diff<T>>, x: int, y: int)
    requires Script(g, s, x, y) && Greedy(g, s, x, y) && s != []
    requires Script(g, t, x, y) && Greedy(g, t, x, y) && t != []
    requires EditCount(s) == EditCount(t)
    ensures s[|s| - 1].action == t[|t| - 1].action
  {
    hide Furthest, IsFurthest, NoneFrom, On, Start, EditCount;
    EditCountOfLast(s);
    EditCountOfLast(t);
    RuleIsEntry(g, x, x - y, EditCount(s));
    if s[|s| - 1].action == EQ {
      GreedyFromStart(g, s[..|s| - 1], x - 1, y - 1);
    }
    if t[|t| - 1].action == EQ {
      GreedyFromStart(g, t[..|t| - 1], x - 1, y - 1);
    }
  }

  lemma {:induction false} GreedyUnique<T>(g: Graph<T>, s: seq<Diff<T>>, t: seq<Diff<T>>, x: int, y: int)
    requires Script(g, s, x, y) && Greedy(g, s, x, y)
    requires Script(g, t, x, y) && Greedy(g, t, x, y)
    requires EditCount(s) == EditCount(t)
    ensures s == t
    decreases |s|
  {
    if s == [] || t == [] {
      EmptyUnique(g, s, x, y);
      EmptyUnique(g, t, x, y);
    } else {
      GreedyLastAction(g, s, t, x, y);
      EditCountOfLast(s);
      EditCountOfLast(t);
      var row := s[|s| - 1];
      var s', t' := s[..|s| - 1], t[..|t| - 1];
      assert s == s' + [row] && t == t' + [t[|t| - 1]];
      hide EditCount, IsFurthest, NoneFrom;
      match row.action
      case EQ => GreedyUnique(g, s', t', x - 1, y - 1);
      case ADD => GreedyUnique(g, s', t', x, y - 1);
      case DEL => GreedyUnique(g, s', t', x - 1, y);
    }
  }

  /** Only the empty script leads from the origin to the origin. */
  lemma {:induction false} EmptyUnique<T>(g: Graph<T>, s: seq<Diff<T>>, x: int, y: int)
    requires Script(g, s, x, y)
    ensures x == 0 && y == 0 <==> s == []
  {
    ScriptRows(g, s, x, y);
    if s != [] {
      ScriptRows(g, s[..|s| - 1], if s[|s| - 1].action == ADD then x else x - 1,
                 if s[|s| - 1].action == DEL then y else y - 1);
    }
  }

  /** What `myers_diff` returns, among all edit scripts: the shortest one that decides every edit by
      the rule.  There is one and only one. */
  lemma {:induction false} MyersScriptIsTheGreedyOne<T>(g: Graph<T>, t: seq<Diff<T>>)
    requires g.Total() <= BACKTRACE_LIMIT
    ensures t == MyersScript(g) <==>
              && Script(g, t, |g.orig|, |g.updated|) && EditCount(t) == EditDistance(g)
              && Greedy(g, t, |g.orig|, |g.updated|)
  {
    SearchableIff(g);
    hide EditDistance, PathBack, Furthest, Greedy;
    MyersScriptSound(g);
    GoalIsFurthest(g);
    GreedyPath(g, EditDistance(g), |g.orig| - |g.updated|);
    if Script(g, t, |g.orig|, |g.updated|) && EditCount(t) == EditDistance(g)
       && Greedy(g, t, |g.orig|, |g.updated|) {
      GreedyUnique(g, t, MyersScript(g), |g.orig|, |g.updated|);
    }
  }

  // ---------------------------------------------------------------- deletions first

  /** Two edits that could be made in either order are made deletion first. */
  lemma {:induction false} LastPairInOrder<T>(g: Graph<T>, s: seq<Diff<T>>, x: int, y: int)
    requires Script(g, s, x, y) && Greedy(g, s, x, y) && 2 <= |s|
    ensures !(s[|s| - 2].action == ADD && s[|s| - 1].action == DEL)
  {
    if s[|s| - 2].action == ADD && s[|s| - 1].action == DEL {
      var rest := s[..|s| - 1];
      var before := rest[..|rest| - 1];
      EditCountOfLast(s);
      EditCountOfLast(rest);
      ScriptLeads(g, before, x - 1, y - 1);
      LeadsReaches(g, Actions(before), x - 1, y - 1);
      assert ReachOn(g, x, x - y + 1, EditCount(s) - 1);
    }
  }

  lemma {:induction false} DeletionsFirst<T>(g: Graph<T>, s: seq<Diff<T>>, x: int, y: int)
    requires Script(g, s, x, y) && Greedy(g, s, x, y)
    ensures NoAddThenDel(s)
    decreases |s|
  {
    hide IsFurthest, NoneFrom, EditCount;
    if 2 <= |s| {
      LastPairInOrder(g, s, x, y);
      var rest := s[..|s| - 1];
      match s[|s| - 1].action
      case EQ => DeletionsFirst(g, rest, x - 1, y - 1);
      case ADD => DeletionsFirst(g, rest, x, y - 1);
      case DEL => DeletionsFirst(g, rest, x - 1, y);
      assert forall i | 0 <= i < |rest| :: rest[i] == s[i];
    }
  }

  /** Whatever the two lists are, the script returned never inserts directly before it deletes: a
      replaced element is deleted first and then its replacement is inserted. */
  lemma MyersDeletesBeforeItInserts<T>(g: Graph<T>)
    ensures NoAddThenDel(MyersScript(g))
  {
    if g.Total() <= BACKTRACE_LIMIT {
      MyersScriptIsTheGreedyOne(g, MyersScript(g));
      DeletionsFirst(g, MyersScript(g), |g.orig|, |g.updated|);
    }
  }

  lemma {:induction false} NothingInCommon<T>(g: Graph<T>, s: seq<Diff<T>>, x: int, y: int)
    requires g.Total() < 0x8000 && Script(g, s, x, y) && NoAddThenDel(s) && forall i, j :: !g.Match(i, j)
    ensures 0 <= x <= |g.orig| && 0 <= y <= |g.updated| && |s| == x + y
    ensures forall i | 0 <= i < x :: s[i] == Diff(g.orig[i], i, -1, DEL)
    ensures forall i | 0 <= i < y :: s[x + i] == Diff(g.updated[i], -1, i, ADD)
    ensures 0 < y ==> s[|s| - 1].action == ADD
    decreases |s|
  {
    if s != [] {
      var rest, row := s[..|s| - 1], s[|s| - 1];
      assert forall i | 0 <= i < |rest| :: rest[i] == s[i];
      match row.action
      case ADD => NothingInCommon(g, rest, x, y - 1);
      case DEL =>
        assert rest == [] || rest[|rest| - 1].action != ADD;
        NothingInCommon(g, rest, x - 1, y);
      case EQ =>
    }
  }

  /** Two sequences with nothing in common: every original element is deleted, in order, before any
      element is inserted. */
  lemma DisjointSequences<T>(g: Graph<T>)
    requires g.Total() <= BACKTRACE_LIMIT && forall i, j :: !g.Match(i, j)
    ensures
      var s, n := MyersScript(g), |g.orig|;
      && |s| == n + |g.updated|
      && (forall i | 0 <= i < n :: s[i] == Diff(g.orig[i], i, -1, DEL))
      && (forall i | 0 <= i < |g.updated| :: s[n + i] == Diff(g.updated[i], -1, i, ADD))
  {
    hide MyersScript, Greedy;
    MyersScriptIsTheGreedyOne(g, MyersScript(g));
    MyersDeletesBeforeItInserts(g);
    NothingInCommon(g, MyersScript(g), |g.orig|, |g.updated|);
  }
}
