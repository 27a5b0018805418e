/** The edit graph of two sequences: which points a path of right, down and diagonal moves can
    reach, how few edits the whole walk needs, and what an edit script means.  Nothing in this
    module knows how the Myers search works; it is the yardstick the search is measured with. */
module EditGraph {

  import opened FixedWidth

  datatype Action = EQ | ADD | DEL

  /** One entry of an edit script; `orig` or `updated` is -1 where the entry has no such position. */
  datatype Diff<T> = Diff(val: T, orig: IndexT, updated: IndexT, action: Action)

  datatype Point = Point(x: int, y: int)

  /** Two sequences and the comparator they are compared with. */
  datatype Graph<!T> = Graph(orig: seq<T>, updated: seq<T>, same: (T, T) -> bool) {

    /** True iff there is a diagonal from (x, y) to (x + 1, y + 1). */
    predicate Match(x: int, y: int) {
      0 <= x < |orig| && 0 <= y < |updated| && same(orig[x], updated[y])
    }

    function Total(): int {
      |orig| + |updated|
    }
  }

  /** Diagonal k can be reached with exactly d edits only if |k| <= d and d - k is even. */
  predicate On(d: int, k: int) {
    -d <= k <= d && (d - k) % 2 == 0
  }

  /** (x, y) is reachable from the origin with exactly d non-diagonal moves.  Right and down moves
      may leave the box; diagonals exist only inside it. */
  ghost predicate Reach<T>(g: Graph<T>, x: int, y: int, d: int)
    decreases x + y
  {
    0 <= x && 0 <= y && 0 <= d &&
    (|| (x == 0 && y == 0 && d == 0)
     || (0 < x && 0 < d && Reach(g, x - 1, y, d - 1))
     || (0 < y && 0 < d && Reach(g, x, y - 1, d - 1))
     || (0 < x && 0 < y && g.Match(x - 1, y - 1) && Reach(g, x - 1, y - 1, d)))
  }

  function Max(a: int, b: int): int {
    if a < b then b else a
  }

  function Min(a: int, b: int): int {
    if a < b then a else b
  }

  /** The length of a longest common subsequence of the first x and the first y elements. */
  ghost function Lcs<T>(g: Graph<T>, x: nat, y: nat): nat {
    if x == 0 || y == 0 then 0
    else
      var skip := Max(Lcs(g, x - 1, y), Lcs(g, x, y - 1));
      if g.Match(x - 1, y - 1) then Max(skip, Lcs(g, x - 1, y - 1) + 1) else skip
  }

  ghost predicate IncreasingBelow(s: seq<nat>, bound: nat) {
    && (forall i, j | 0 <= i < j < |s| :: s[i] < s[j])
    && (forall i | 0 <= i < |s| :: s[i] < bound)
  }

  /** Positions xs of the first x and ys of the first y elements pick out a common subsequence. */
  ghost predicate CommonSubsequence<T>(g: Graph<T>, xs: seq<nat>, ys: seq<nat>, x: nat, y: nat) {
    && |xs| == |ys| && IncreasingBelow(xs, x) && IncreasingBelow(ys, y)
    && (forall i | 0 <= i < |xs| :: g.Match(xs[i], ys[i]))
  }

  lemma {:induction false} LcsIsUpperBound<T>(g: Graph<T>, xs: seq<nat>, ys: seq<nat>, x: nat, y: nat)
    requires CommonSubsequence(g, xs, ys, x, y)
    ensures |xs| <= Lcs(g, x, y)
    decreases x + y
  {
    if xs != [] {
      var last := |xs| - 1;
      if xs[last] < x - 1 {
        LcsIsUpperBound(g, xs, ys, x - 1, y);
      } else if ys[last] < y - 1 {
        LcsIsUpperBound(g, xs, ys, x, y - 1);
      } else {
        LcsIsUpperBound(g, xs[..last], ys[..last], x - 1, y - 1);
      }
    }
  }

  /** Lcs is the length of a longest common subsequence: no common subsequence is longer, and one
      is that long. */
  lemma {:induction false} LcsIsLength<T>(g: Graph<T>, x: nat, y: nat) returns (xs: seq<nat>, ys: seq<nat>)
    ensures CommonSubsequence(g, xs, ys, x, y) && |xs| == Lcs(g, x, y)
    ensures forall xs', ys' | CommonSubsequence(g, xs', ys', x, y) :: |xs'| <= |xs|
    decreases x + y
  {
    if x == 0 || y == 0 {
      xs, ys := [], [];
    } else if Lcs(g, x, y) == Lcs(g, x - 1, y) {
      xs, ys := LcsIsLength(g, x - 1, y);
    } else if Lcs(g, x, y) == Lcs(g, x, y - 1) {
      xs, ys := LcsIsLength(g, x, y - 1);
    } else {
      xs, ys := LcsIsLength(g, x - 1, y - 1);
      xs, ys := xs + [x - 1], ys + [y - 1];
    }
    forall xs', ys' | CommonSubsequence(g, xs', ys', x, y) ensures |xs'| <= |xs| {
      LcsIsUpperBound(g, xs', ys', x, y);
    }
  }

  /** The least number of insertions and deletions that turn `orig` into `updated`:
      EditDistanceIsMinimal below says that fewer will not do, and the script of the search attains
      it. */
  ghost function EditDistance<T>(g: Graph<T>): int {
    g.Total() - 2 * Lcs(g, |g.orig|, |g.updated|)
  }

  lemma {:induction false} ReachShape<T>(g: Graph<T>, x: int, y: int, d: int)
    requires Reach(g, x, y, d)
    ensures On(d, x - y) && d <= x + y
    decreases x + y
  {
    if x == 0 && y == 0 && d == 0 {
    } else if 0 < x && 0 < d && Reach(g, x - 1, y, d - 1) {
      ReachShape(g, x - 1, y, d - 1);
    } else if 0 < y && 0 < d && Reach(g, x, y - 1, d - 1) {
      ReachShape(g, x, y - 1, d - 1);
    } else {
      ReachShape(g, x - 1, y - 1, d);
    }
  }

  /** A path has no more diagonals than a common subsequence has elements. */
  lemma {:induction false} DiagonalsBoundedByLcs<T>(g: Graph<T>, x: int, y: int, d: int)
    requires Reach(g, x, y, d)
    ensures x + y - d <= 2 * Lcs(g, Min(x, |g.orig|), Min(y, |g.updated|))
    decreases x + y
  {
    if x == 0 && y == 0 && d == 0 {
    } else if 0 < x && 0 < d && Reach(g, x - 1, y, d - 1) {
      DiagonalsBoundedByLcs(g, x - 1, y, d - 1);
      LcsMonotone(g, Min(x - 1, |g.orig|), Min(y, |g.updated|), Min(x, |g.orig|), Min(y, |g.updated|));
    } else if 0 < y && 0 < d && Reach(g, x, y - 1, d - 1) {
      DiagonalsBoundedByLcs(g, x, y - 1, d - 1);
      LcsMonotone(g, Min(x, |g.orig|), Min(y - 1, |g.updated|), Min(x, |g.orig|), Min(y, |g.updated|));
    } else {
      DiagonalsBoundedByLcs(g, x - 1, y - 1, d);
    }
  }

  lemma {:induction false} LcsMonotone<T>(g: Graph<T>, x: nat, y: nat, x': nat, y': nat)
    requires x <= x' && y <= y'
    ensures Lcs(g, x, y) <= Lcs(g, x', y')
    decreases x' + y'
  {
    if x < x' && y' != 0 {
      LcsMonotone(g, x, y, x' - 1, y');
    } else if y < y' && x' != 0 {
      LcsMonotone(g, x, y, x', y' - 1);
    }
  }

  /** Inside the box every point is reached with the fewest edits its prefixes allow. */
  lemma {:induction false} LcsIsReached<T>(g: Graph<T>, x: nat, y: nat)
    requires x <= |g.orig| && y <= |g.updated|
    ensures 2 * Lcs(g, x, y) <= x + y
    ensures Reach(g, x, y, x + y - 2 * Lcs(g, x, y))
    decreases x + y
  {
    var length := Lcs(g, x, y);
    if 0 < x && length == Lcs(g, x - 1, y) {
      LcsIsReached(g, x - 1, y);
    } else if 0 < y && length == Lcs(g, x, y - 1) {
      LcsIsReached(g, x, y - 1);
    } else if 0 < x && 0 < y {
      LcsIsReached(g, x - 1, y - 1);
    }
  }

  /** No path of d edits gets further than the edit distance allows.  In particular a search that
      has not spent more edits than the distance never leaves the triangle x + y <= n + m. */
  lemma ReachBound<T>(g: Graph<T>, x: int, y: int, d: int)
    requires Reach(g, x, y, d)
    ensures x + y + EditDistance(g) <= g.Total() + d
  {
    DiagonalsBoundedByLcs(g, x, y, d);
    LcsMonotone(g, Min(x, |g.orig|), Min(y, |g.updated|), |g.orig|, |g.updated|);
  }

  lemma EditDistanceRange<T>(g: Graph<T>)
    ensures 0 <= EditDistance(g) <= g.Total()
    ensures Reach(g, |g.orig|, |g.updated|, EditDistance(g))
    ensures On(EditDistance(g), |g.orig| - |g.updated|)
  {
    LcsIsReached(g, |g.orig|, |g.updated|);
    ReachShape(g, |g.orig|, |g.updated|, EditDistance(g));
  }

  // ---------------------------------------------------------------- edit scripts

  ghost function Edits(acts: seq<Action>): nat {
    if acts == [] then 0
    else Edits(acts[..|acts| - 1]) + (if acts[|acts| - 1] == EQ then 0 else 1)
  }

  /** The actions lead from the origin to (x, y): DEL consumes an original element, ADD an updated
      one, and EQ one of each, which the comparator must call the same. */
  ghost predicate Leads<T>(g: Graph<T>, acts: seq<Action>, x: int, y: int)
    decreases |acts|
  {
    if acts == [] then x == 0 && y == 0
    else
      var rest := acts[..|acts| - 1];
      match acts[|acts| - 1]
      case EQ => g.Match(x - 1, y - 1) && Leads(g, rest, x - 1, y - 1)
      case ADD => 0 < y <= |g.updated| && Leads(g, rest, x, y - 1)
      case DEL => 0 < x <= |g.orig| && Leads(g, rest, x - 1, y)
  }

  lemma {:induction false} LeadsReaches<T>(g: Graph<T>, acts: seq<Action>, x: int, y: int)
    requires Leads(g, acts, x, y)
    ensures 0 <= x <= |g.orig| && 0 <= y <= |g.updated| && Reach(g, x, y, Edits(acts))
    decreases |acts|
  {
    if acts != [] {
      var rest := acts[..|acts| - 1];
      match acts[|acts| - 1]
      case EQ => LeadsReaches(g, rest, x - 1, y - 1);
      case ADD => LeadsReaches(g, rest, x, y - 1);
      case DEL => LeadsReaches(g, rest, x - 1, y);
    }
  }

  /** No way of turning `orig` into `updated` has fewer edits than the edit distance. */
  lemma EditDistanceIsMinimal<T>(g: Graph<T>, acts: seq<Action>)
    requires Leads(g, acts, |g.orig|, |g.updated|)
    ensures EditDistance(g) <= Edits(acts)
  {
    LeadsReaches(g, acts, |g.orig|, |g.updated|);
    ReachBound(g, |g.orig|, |g.updated|, Edits(acts));
  }

  ghost function Actions<T>(s: seq<Diff<T>>): seq<Action> {
    seq(|s|, i requires 0 <= i < |s| => s[i].action)
  }

  ghost function EditCount<T>(s: seq<Diff<T>>): nat {
    Edits(Actions(s))
  }

  /** The rows form an edit script from the origin to (x, y), with the values, the positions and
      the -1 marks that `myers_diff` promises. */
  ghost predicate Script<T>(g: Graph<T>, s: seq<Diff<T>>, x: int, y: int)
    decreases |s|
  {
    if s == [] then x == 0 && y == 0
    else
      var rest, row := s[..|s| - 1], s[|s| - 1];
      match row.action
      case EQ =>
        g.Match(x - 1, y - 1) && row.val == g.orig[x - 1] && row.orig == x - 1 && row.updated == y - 1
        && Script(g, rest, x - 1, y - 1)
      case ADD =>
        0 < y <= |g.updated| && row.val == g.updated[y - 1] && row.orig == -1 && row.updated == y - 1
        && Script(g, rest, x, y - 1)
      case DEL =>
        0 < x <= |g.orig| && row.val == g.orig[x - 1] && row.orig == x - 1 && row.updated == -1
        && Script(g, rest, x - 1, y)
  }

  lemma ActionsOfPrefix<T>(s: seq<Diff<T>>)
    requires s != []
    ensures Actions(s)[..|s| - 1] == Actions(s[..|s| - 1])
  {
  }

  lemma {:induction false} ScriptLeads<T>(g: Graph<T>, s: seq<Diff<T>>, x: int, y: int)
    requires Script(g, s, x, y)
    ensures Leads(g, Actions(s), x, y)
    decreases |s|
  {
    if s != [] {
      ActionsOfPrefix(s);
      var rest := s[..|s| - 1];
      match s[|s| - 1].action
      case EQ => ScriptLeads(g, rest, x - 1, y - 1);
      case ADD => ScriptLeads(g, rest, x, y - 1);
      case DEL => ScriptLeads(g, rest, x - 1, y);
    }
  }

  // ---------------------------------------------------------------- projections

  /** The values a script takes from the original: its EQ and DEL rows. */
  function Before<T>(s: seq<Diff<T>>): seq<T> {
    if s == [] then []
    else Before(s[..|s| - 1]) + (if s[|s| - 1].action == ADD then [] else [s[|s| - 1].val])
  }

  /** The values a script leaves in the updated sequence: its EQ and ADD rows. */
  function After<T>(s: seq<Diff<T>>): seq<T> {
    if s == [] then []
    else After(s[..|s| - 1]) + (if s[|s| - 1].action == DEL then [] else [s[|s| - 1].val])
  }

  /** The original positions named by the EQ and DEL rows, and the updated ones of EQ and ADD rows. */
  ghost function OrigIndices<T>(s: seq<Diff<T>>): seq<int> {
    if s == [] then []
    else OrigIndices(s[..|s| - 1]) + (if s[|s| - 1].action == ADD then [] else [s[|s| - 1].orig])
  }

  ghost function UpdatedIndices<T>(s: seq<Diff<T>>): seq<int> {
    if s == [] then []
    else UpdatedIndices(s[..|s| - 1]) + (if s[|s| - 1].action == DEL then [] else [s[|s| - 1].updated])
  }

  ghost function UpTo(n: nat): seq<int> {
    seq(n, i => i)
  }

  /** The comparator is the default one, equality. */
  ghost predicate Exact<T(!new)>(g: Graph<T>) {
    forall a: T, b: T :: g.same(a, b) <==> a == b
  }

  lemma UpToGrows(n: nat)
    ensures UpTo(n + 1) == UpTo(n) + [n]
  {
  }

  lemma {:induction false} ScriptBefore<T>(g: Graph<T>, s: seq<Diff<T>>, x: int, y: int)
    requires Script(g, s, x, y)
    ensures 0 <= x <= |g.orig| && Before(s) == g.orig[..x]
    decreases |s|
  {
    if s != [] {
      var rest := s[..|s| - 1];
      match s[|s| - 1].action
      case EQ => ScriptBefore(g, rest, x - 1, y - 1);
      case ADD => ScriptBefore(g, rest, x, y - 1);
      case DEL => ScriptBefore(g, rest, x - 1, y);
    }
  }

  lemma {:induction false} ScriptIndices<T>(g: Graph<T>, s: seq<Diff<T>>, x: int, y: int)
    requires Script(g, s, x, y)
    ensures 0 <= x && 0 <= y && OrigIndices(s) == UpTo(x) && UpdatedIndices(s) == UpTo(y)
    decreases |s|
  {
    if s == [] {
      assert UpTo(0) == [];
    } else {
      hide UpTo;
      var rest := s[..|s| - 1];
      match s[|s| - 1].action
      case EQ =>
        ScriptIndices(g, rest, x - 1, y - 1);
        UpToGrows(x - 1);
        UpToGrows(y - 1);
      case ADD =>
        ScriptIndices(g, rest, x, y - 1);
        UpToGrows(y - 1);
      case DEL =>
        ScriptIndices(g, rest, x - 1, y);
        UpToGrows(x - 1);
    }
  }

  /** A row of a script from the origin to (x, y): its positions, its mark and its value. */
  ghost predicate RowOfScript<T>(g: Graph<T>, r: Diff<T>, x: int, y: int) {
    x <= |g.orig| && y <= |g.updated| &&
    match r.action
    case EQ => r.orig < x && r.updated < y && g.Match(r.orig, r.updated) && r.val == g.orig[r.orig]
    case ADD => r.orig == -1 && 0 <= r.updated < y && r.val == g.updated[r.updated]
    case DEL => r.updated == -1 && 0 <= r.orig < x && r.val == g.orig[r.orig]
  }

  lemma {:induction false} ScriptRows<T>(g: Graph<T>, s: seq<Diff<T>>, x: int, y: int)
    requires Script(g, s, x, y)
    ensures 0 <= x <= |g.orig| && 0 <= y <= |g.updated|
    ensures forall r | r in s :: RowOfScript(g, r, x, y)
    decreases |s|
  {
    if s != [] {
      var rest, row := s[..|s| - 1], s[|s| - 1];
      assert s == rest + [row];
      match row.action
      case EQ => ScriptRows(g, rest, x - 1, y - 1);
      case ADD => ScriptRows(g, rest, x, y - 1);
      case DEL => ScriptRows(g, rest, x - 1, y);
    }
  }

  /** EQ and DEL rows list `orig` in order under positions 0, 1, 2, ...; the EQ and ADD rows carry
      positions 0, 1, 2, ... of `updated`; an unused position is -1, an EQ pair satisfies the
      comparator and an ADD row has its own value. */
  lemma ScriptProjections<T>(g: Graph<T>, s: seq<Diff<T>>, x: int, y: int)
    requires Script(g, s, x, y)
    ensures 0 <= x <= |g.orig| && 0 <= y <= |g.updated|
    ensures Before(s) == g.orig[..x] && OrigIndices(s) == UpTo(x)
    ensures UpdatedIndices(s) == UpTo(y)
    ensures forall r | r in s :: RowOfScript(g, r, x, y)
  {
    ScriptBefore(g, s, x, y);
    ScriptIndices(g, s, x, y);
    ScriptRows(g, s, x, y);
  }

  /** With equality as the comparator the EQ and ADD rows spell out `updated`. */
  lemma {:induction false} ScriptAfter<T(!new)>(g: Graph<T>, s: seq<Diff<T>>, x: int, y: int)
    requires Exact(g) && Script(g, s, x, y)
    ensures 0 <= y <= |g.updated| && After(s) == g.updated[..y]
    decreases |s|
  {
    if s != [] {
      var rest := s[..|s| - 1];
      match s[|s| - 1].action
      case EQ =>
        ScriptAfter(g, rest, x - 1, y - 1);
        assert g.same(g.orig[x - 1], g.updated[y - 1]);
        assert g.updated[..y] == g.updated[..y - 1] + [g.updated[y - 1]];
      case ADD =>
        ScriptAfter(g, rest, x, y - 1);
        assert g.updated[..y] == g.updated[..y - 1] + [g.updated[y - 1]];
      case DEL => ScriptAfter(g, rest, x - 1, y);
    }
  }

  /** Conversely, any list of rows whose projections are prefixes of the two sequences is a walk of
      the graph, whatever positions its rows carry. */
  lemma {:induction false} ProjectionsLead<T(!new)>(g: Graph<T>, s: seq<Diff<T>>)
    requires Exact(g) && Before(s) <= g.orig && After(s) <= g.updated
    ensures Leads(g, Actions(s), |Before(s)|, |After(s)|)
    decreases |s|
  {
    if s != [] {
      var rest := s[..|s| - 1];
      ActionsOfPrefix(s);
      assert Before(rest) <= Before(s) && After(rest) <= After(s);
      ProjectionsLead(g, rest);
      if s[|s| - 1].action != ADD {
        assert Before(s)[|Before(rest)|] == s[|s| - 1].val;
      }
      if s[|s| - 1].action != DEL {
        assert After(s)[|After(rest)|] == s[|s| - 1].val;
      }
    }
  }

  /** Minimality over every script, whichever way it was found: rows that delete from `orig` and add
      to it so as to give `updated` contain at least `EditDistance` edits. */
  lemma AnyScriptHasDistanceEdits<T(!new)>(g: Graph<T>, s: seq<Diff<T>>)
    requires Exact(g) && Before(s) == g.orig && After(s) == g.updated
    ensures EditDistance(g) <= EditCount(s)
  {
    ProjectionsLead(g, s);
    EditDistanceIsMinimal(g, Actions(s));
  }
}
