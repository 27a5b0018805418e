/** diff/src/msg.cpp: diffing line lists in batches, and the windowed message with absolute line
    numbers.  A message is the list of printed rows; the text of a row is not modelled. */
module DiffMessage {
  import opened EditGraph
  import opened FixedWidth
  import opened Listing
  import opened Myers
  import opened Outcomes

  type Line = string

  type LineDiff = Diff<Line>

  /** Two line lists under the default comparator. */
  function LineGraph(want: seq<Line>, got: seq<Line>): Graph<Line> {
    Graph(want, got, (a, b) => a == b)
  }

  // ---------------------------------------------------------------- scripts of lines

  ghost predicate AllEq(s: seq<LineDiff>) {
    forall r | r in s :: r.action == EQ
  }

  lemma {:induction false} ProjectionsConcat(s: seq<LineDiff>, t: seq<LineDiff>)
    ensures Before(s + t) == Before(s) + Before(t)
    ensures After(s + t) == After(s) + After(t)
    decreases |t|
  {
    if t == [] {
      assert s + t == s;
    } else {
      ProjectionsConcat(s, t[..|t| - 1]);
      assert (s + t)[..|s + t| - 1] == s + t[..|t| - 1];
    }
  }

  lemma {:induction false} ProjectionLengths(s: seq<LineDiff>)
    ensures |Before(s)| <= |s| && |After(s)| <= |s| <= |Before(s)| + |After(s)|
    decreases |s|
  {
    if s != [] {
      ProjectionLengths(s[..|s| - 1]);
    }
  }

  lemma {:induction false} AllEqProjections(s: seq<LineDiff>)
    requires AllEq(s)
    ensures Before(s) == After(s) && |Before(s)| == |s|
    decreases |s|
  {
    if s != [] {
      AllEqProjections(s[..|s| - 1]);
    }
  }

  lemma {:induction false} NoEditsAllEq(s: seq<LineDiff>)
    requires EditCount(s) == 0
    ensures AllEq(s)
    decreases |s|
  {
    if s != [] {
      ActionsOfPrefix(s);
      NoEditsAllEq(s[..|s| - 1]);
    }
  }

  lemma {:induction false} EqualListsLead(lines: seq<Line>, n: nat)
    requires n <= |lines|
    ensures Leads(LineGraph(lines, lines), seq(n, _ => EQ), n, n) && Edits(seq(n, _ => EQ)) == 0
  {
    if n != 0 {
      EqualListsLead(lines, n - 1);
      assert seq(n, _ => EQ)[..n - 1] == seq(n - 1, _ => EQ);
    }
  }

  /** Two equal lists have no edits between them. */
  lemma EqualListsScript(lines: seq<Line>)
    ensures AllEq(MyersScript(LineGraph(lines, lines)))
  {
    var g := LineGraph(lines, lines);
    if g.Total() <= BACKTRACE_LIMIT {
      EqualListsLead(lines, |lines|);
      MyersScriptMinimal(g, seq(|lines|, _ => EQ));
      NoEditsAllEq(MyersScript(g));
    }
  }

  /** The script of two line lists spells out both of them. */
  lemma LineScript(want: seq<Line>, got: seq<Line>)
    requires |want| + |got| <= BACKTRACE_LIMIT
    ensures var g, s := LineGraph(want, got), MyersScript(LineGraph(want, got));
            && Script(g, s, |want|, |got|) && EditCount(s) == EditDistance(g)
            && Before(s) == want && After(s) == got
  {
    var g := LineGraph(want, got);
    var s := MyersScript(g);
    MyersScriptSound(g);
    ScriptProjections(g, s, |want|, |got|);
    ScriptAfter(g, s, |want|, |got|);
  }

  // ---------------------------------------------------------------- batches

  /** The last match among the first i rows, or -1. */
  function LastEq(s: seq<LineDiff>, i: nat): (last: int)
    requires i <= |s|
    ensures -1 <= last < i
    ensures 0 <= last ==> s[last].action == EQ
  {
    if i == 0 then -1
    else if s[i - 1].action == EQ then i - 1
    else LastEq(s, i - 1)
  }

  /** How much of a batch is kept: the rows up to its last match, and how many lines of either side
      they account for.  A batch without a match is kept whole. */
  datatype Cut = Cut(end: int, eoffset: int, goffset: int)

  /** The cut for the matches among the first i rows of a batch of n and m lines. */
  function CutUpTo(s: seq<LineDiff>, i: nat, n: int, m: int): Cut
    requires i <= |s|
  {
    var last := LastEq(s, i);
    if last < 0 then Cut(|s|, n, m) else Cut(last + 1, s[last].orig + 1, s[last].updated + 1)
  }

  function CutOf(s: seq<LineDiff>, n: int, m: int): Cut {
    CutUpTo(s, |s|, n, m)
  }

  lemma {:induction false} NoEqAfterLast(s: seq<LineDiff>, i: nat, j: nat)
    requires i <= |s| && LastEq(s, i) < j < i
    ensures s[j].action != EQ
    decreases i
  {
    if j < i - 1 {
      NoEqAfterLast(s, i - 1, j);
    }
  }

  /** c is directly behind the last match of the rows, or behind all of them where none matches. */
  ghost predicate CutAt(s: seq<LineDiff>, c: int) {
    && 0 <= c <= |s|
    && (forall i | c <= i < |s| :: s[i].action != EQ)
    && (if AllEdits(s) then c == |s| else 0 < c && s[c - 1].action == EQ)
  }

  ghost predicate AllEdits(s: seq<LineDiff>) {
    forall i | 0 <= i < |s| :: s[i].action != EQ
  }

  /** A batch is cut directly behind its last match, so that rows behind it are matched anew with
      what follows; only a batch without any match is kept whole. */
  lemma CutBehindLastMatch(s: seq<LineDiff>, n: int, m: int, c: int)
    ensures CutAt(s, c) <==> c == CutOf(s, n, m).end
  {
    var last := LastEq(s, |s|);
    forall i | last < i < |s| ensures s[i].action != EQ {
      NoEqAfterLast(s, |s|, i);
    }
    assert AllEdits(s) <==> last < 0;
  }

  /** Any prefix of a script is a script of what it projects to. */
  lemma {:induction false} ScriptPrefix(g: Graph<Line>, s: seq<LineDiff>, x: int, y: int, c: nat)
    requires Exact(g) && Script(g, s, x, y) && c <= |s|
    ensures Script(g, s[..c], |Before(s[..c])|, |After(s[..c])|)
    decreases |s|
  {
    if c == |s| {
      assert s[..c] == s;
      ScriptProjections(g, s, x, y);
      ScriptAfter(g, s, x, y);
    } else {
      var rest := s[..|s| - 1];
      assert rest[..c] == s[..c];
      match s[|s| - 1].action
      case EQ => ScriptPrefix(g, rest, x - 1, y - 1, c);
      case ADD => ScriptPrefix(g, rest, x, y - 1, c);
      case DEL => ScriptPrefix(g, rest, x - 1, y, c);
    }
  }

  lemma CutOfScript(g: Graph<Line>, s: seq<LineDiff>)
    requires Exact(g) && Script(g, s, |g.orig|, |g.updated|)
    ensures
      var cut := CutOf(s, |g.orig|, |g.updated|);
      && 0 <= cut.end <= |s|
      && cut.eoffset == |Before(s[..cut.end])| <= |g.orig| && Before(s[..cut.end]) == g.orig[..cut.eoffset]
      && cut.goffset == |After(s[..cut.end])| <= |g.updated| && After(s[..cut.end]) == g.updated[..cut.goffset]
      && (s != [] ==> 0 < cut.end)
  {
    hide Before, After, Exact;
    var kept := s[..CutOf(s, |g.orig|, |g.updated|).end];
    ScriptPrefix(g, s, |g.orig|, |g.updated|, |kept|);
    ScriptProjections(g, kept, |Before(kept)|, |After(kept)|);
    ScriptAfter(g, kept, |Before(kept)|, |After(kept)|);
    if LastEq(s, |s|) < 0 {
      assert kept == s;
      ScriptProjections(g, s, |g.orig|, |g.updated|);
      ScriptAfter(g, s, |g.orig|, |g.updated|);
    }
  }

  /** The kept rows account exactly for the lines skipped, and some line is skipped. */
  lemma CutIsExact(want: seq<Line>, got: seq<Line>)
    ensures
      var s := MyersScript(LineGraph(want, got));
      var cut := CutOf(s, |want|, |got|);
      && 0 <= cut.end <= |s| && 0 <= cut.eoffset <= |want| && 0 <= cut.goffset <= |got|
      && (0 < |want| + |got| ==> 0 < cut.eoffset + cut.goffset)
      && (|want| + |got| <= BACKTRACE_LIMIT ==>
            Before(s[..cut.end]) == want[..cut.eoffset] && After(s[..cut.end]) == got[..cut.goffset])
      && (BACKTRACE_LIMIT < |want| + |got| ==> s == [])
  {
    hide Before, After;
    var s := MyersScript(LineGraph(want, got));
    if |want| + |got| <= BACKTRACE_LIMIT {
      hide MyersScript;
      LineScript(want, got);
      CutOfScript(LineGraph(want, got), s);
      ProjectionLengths(s);
      ProjectionLengths(s[..CutOf(s, |want|, |got|).end]);
    }
  }

  /** The lines one batch takes from a list. */
  function Batch(lines: seq<Line>, batch_limit: nat): seq<Line> {
    lines[..Min(batch_limit, |lines|)]
  }

  /** The script accumulated by safe_diff_msg_helper over all its recursive calls. */
  ghost function Batched(want: seq<Line>, got: seq<Line>, batch_limit: nat): seq<LineDiff>
    requires 1 <= batch_limit
    decreases |want| + |got|
  {
    if |want| <= batch_limit && |got| <= batch_limit then MyersScript(LineGraph(want, got))
    else
      var wantbatch, gotbatch := Batch(want, batch_limit), Batch(got, batch_limit);
      var s := MyersScript(LineGraph(wantbatch, gotbatch));
      var cut := CutOf(s, |wantbatch|, |gotbatch|);
      CutIsExact(wantbatch, gotbatch);
      s[..cut.end] + Batched(want[cut.eoffset..], got[cut.goffset..], batch_limit)
  }

  /** The size of the first batch, which no later batch exceeds. */
  function FirstBatch(want: seq<Line>, got: seq<Line>, batch_limit: nat): int {
    Min(batch_limit, |want|) + Min(batch_limit, |got|)
  }

  /** Batching never invents lines. */
  lemma {:induction false} BatchedNeverGrows(want: seq<Line>, got: seq<Line>, batch_limit: nat)
    requires 1 <= batch_limit
    ensures |Before(Batched(want, got, batch_limit))| <= |want|
    ensures |After(Batched(want, got, batch_limit))| <= |got|
    ensures BACKTRACE_LIMIT < FirstBatch(want, got, batch_limit) ==>
              |Before(Batched(want, got, batch_limit))| + |After(Batched(want, got, batch_limit))|
              < |want| + |got|
    decreases |want| + |got|
  {
    hide MyersScript, CutOf, Batched;
    var wantbatch, gotbatch := Batch(want, batch_limit), Batch(got, batch_limit);
    CutIsExact(wantbatch, gotbatch);
    BatchedUnfolds(want, got, batch_limit);
    if |want| <= batch_limit && |got| <= batch_limit {
      assert wantbatch == want && gotbatch == got;
      if |want| + |got| <= BACKTRACE_LIMIT {
        LineScript(want, got);
      }
    } else {
      var s := MyersScript(LineGraph(wantbatch, gotbatch));
      var cut := CutOf(s, |wantbatch|, |gotbatch|);
      BatchedNeverGrows(want[cut.eoffset..], got[cut.goffset..], batch_limit);
      ProjectionsConcat(s[..cut.end], Batched(want[cut.eoffset..], got[cut.goffset..], batch_limit));
    }
  }

  /** Rows for a prefix of both lists followed by rows for what is left are rows for both lists. */
  lemma Glue(kept: seq<LineDiff>, rest: seq<LineDiff>, want: seq<Line>, got: seq<Line>, e: nat, g: nat)
    requires e <= |want| && g <= |got|
    requires Before(kept) == want[..e] && After(kept) == got[..g]
    requires Before(rest) == want[e..] && After(rest) == got[g..]
    ensures Before(kept + rest) == want && After(kept + rest) == got
  {
    hide Before, After;
    ProjectionsConcat(kept, rest);
    assert want[..e] + want[e..] == want;
    assert got[..g] + got[g..] == got;
  }

  /** Cutting into batches preserves meaning: the accumulated rows still project to exactly the two
      inputs. */
  lemma {:induction false} BatchedProjects(want: seq<Line>, got: seq<Line>, batch_limit: nat)
    requires 1 <= batch_limit && FirstBatch(want, got, batch_limit) <= BACKTRACE_LIMIT
    ensures Before(Batched(want, got, batch_limit)) == want
    ensures After(Batched(want, got, batch_limit)) == got
    decreases |want| + |got|
  {
    hide MyersScript, Before, After, CutOf, Batched;
    var wantbatch, gotbatch := Batch(want, batch_limit), Batch(got, batch_limit);
    CutIsExact(wantbatch, gotbatch);
    BatchedUnfolds(want, got, batch_limit);
    if |want| <= batch_limit && |got| <= batch_limit {
      LineScript(want, got);
    } else {
      var s := MyersScript(LineGraph(wantbatch, gotbatch));
      var cut := CutOf(s, |wantbatch|, |gotbatch|);
      BatchedProjects(want[cut.eoffset..], got[cut.goffset..], batch_limit);
      Glue(s[..cut.end], Batched(want[cut.eoffset..], got[cut.goffset..], batch_limit),
           want, got, cut.eoffset, cut.goffset);
    }
  }

  /** When the accumulated script is one of the two inputs: exactly when the first batch is small
      enough for the 16-bit row width of the backtrace.  So batch_limit <= 8191 is always safe, and
      from 8192 on two long inputs lose lines. */
  lemma BatchedSoundIff(want: seq<Line>, got: seq<Line>, batch_limit: nat)
    requires 1 <= batch_limit && FirstBatch(want, got, batch_limit) <= SEARCH_LIMIT
    ensures Before(Batched(want, got, batch_limit)) == want && After(Batched(want, got, batch_limit)) == got
       <==> FirstBatch(want, got, batch_limit) <= BACKTRACE_LIMIT
    ensures batch_limit <= 8191 ==> FirstBatch(want, got, batch_limit) <= BACKTRACE_LIMIT
  {
    if FirstBatch(want, got, batch_limit) <= BACKTRACE_LIMIT {
      BatchedProjects(want, got, batch_limit);
    } else {
      BatchedNeverGrows(want, got, batch_limit);
    }
  }

  /** A batched script has at least as many edits as the optimum, and is the unbatched one when both
      inputs fit in one batch. */
  lemma BatchedEdits(want: seq<Line>, got: seq<Line>, batch_limit: nat)
    requires 1 <= batch_limit && FirstBatch(want, got, batch_limit) <= BACKTRACE_LIMIT
    ensures EditDistance(LineGraph(want, got)) <= EditCount(Batched(want, got, batch_limit))
    ensures |want| <= batch_limit && |got| <= batch_limit ==>
              && Batched(want, got, batch_limit) == MyersScript(LineGraph(want, got))
              && EditCount(Batched(want, got, batch_limit)) == EditDistance(LineGraph(want, got))
  {
    BatchedProjects(want, got, batch_limit);
    AnyScriptHasDistanceEdits(LineGraph(want, got), Batched(want, got, batch_limit));
    if |want| <= batch_limit && |got| <= batch_limit {
      LineScript(want, got);
    }
  }

  lemma {:induction false} BatchedOfEqualLists(lines: seq<Line>, batch_limit: nat)
    requires 1 <= batch_limit
    ensures AllEq(Batched(lines, lines, batch_limit))
    decreases |lines|
  {
    hide MyersScript;
    var batch := Batch(lines, batch_limit);
    EqualListsScript(batch);
    CutIsExact(batch, batch);
    if |lines| <= batch_limit {
      assert batch == lines;
    } else {
      var s := MyersScript(LineGraph(batch, batch));
      var cut := CutOf(s, |batch|, |batch|);
      if 2 * |batch| <= BACKTRACE_LIMIT {
        AllEqProjections(s[..cut.end]);
      }
      assert cut.eoffset == cut.goffset;
      BatchedOfEqualLists(lines[cut.eoffset..], batch_limit);
    }
  }

  // ---------------------------------------------------------------- the message

  const LINES_BEFORE := 3
  const LINES_AFTER := 3

  /** One printed line.  An added line shows its position in the updated list, a removed line its
      position in the original one, and a context line both. */
  datatype Row =
    | Context(orig: int, updated: int, val: Line)
    | Added(updated: int, val: Line)
    | Removed(orig: int, val: Line)

  /** diff_line_format: which of the two positions each kind of row prints. */
  function FormatRow(val: Line, action: Action, orig: int, updated: int): Row {
    match action
    case EQ => Context(orig, updated, val)
    case ADD => Added(updated, val)
    case DEL => Removed(orig, val)
  }

  /** Row i of a script is shown: one of the first n rows is an edit near enough to it. */
  ghost predicate ShownBy(s: seq<LineDiff>, n: int, i: int)
    requires n <= |s|
  {
    exists j | 0 <= j < n :: s[j].action != EQ && j - LINES_BEFORE <= i <= j + LINES_AFTER
  }

  /** Row i as printed: under its positions in the whole inputs, which are the numbers of original
      and of updated lines before it. */
  ghost function RowAt(s: seq<LineDiff>, i: nat): Row
    requires i < |s|
  {
    FormatRow(s[i].val, s[i].action, |Before(s[..i])|, |After(s[..i])|)
  }

  /** The rows printed for s[i..]. */
  ghost function Rows(s: seq<LineDiff>, i: nat): seq<Row>
    requires i <= |s|
    decreases |s| - i
  {
    if i == |s| then []
    else
      (if ShownBy(s, |s|, i) then [RowAt(s, i)] else []) + Rows(s, i + 1)
  }

  /** The message of a script. */
  ghost function Message(s: seq<LineDiff>): seq<Row> {
    Rows(s, 0)
  }

  /** The message of the rows that are left when their number has gone through IndexT. */
  ghost function CountedMessage(s: seq<LineDiff>): seq<Row>
    requires 0 <= ToIndexT(|s|)
  {
    Message(s[..ToIndexT(|s|)])
  }

  lemma PrefixGrows(s: seq<LineDiff>, i: nat)
    requires i < |s|
    ensures Before(s[..i + 1]) == Before(s[..i]) + if s[i].action == ADD then [] else [s[i].val]
    ensures After(s[..i + 1]) == After(s[..i]) + if s[i].action == DEL then [] else [s[i].val]
  {
    assert s[..i + 1][..i] == s[..i];
  }

  lemma RowsUnfold(s: seq<LineDiff>, i: nat, out: seq<Row>)
    requires i < |s|
    ensures out + Rows(s, i) ==
      (if ShownBy(s, |s|, i) then out + [RowAt(s, i)] else out) + Rows(s, i + 1)
  {
  }

  /** Mark the rows near each edit, as to_string does in its `show` buffer. */
  method MarkShown(diffs: seq<LineDiff>) returns (show: array<bool>)
    ensures fresh(show) && show.Length == |diffs|
    ensures forall p | 0 <= p < |diffs| :: show[p] <==> ShownBy(diffs, |diffs|, p)
  {
    show := new bool[|diffs|](_ => false);
    for i := 0 to |diffs|
      invariant forall p | 0 <= p < |diffs| :: show[p] <==> ShownBy(diffs, i, p)
    {
      if diffs[i].action != EQ {
        var begin := Max(0, i - LINES_BEFORE);
        var end := Min(|diffs| - 1, i + LINES_AFTER);
        ghost var before := show[..];
        for p := begin to end + 1
          invariant forall q | 0 <= q < |diffs| :: show[q] == (before[q] || begin <= q < p)
        {
          show[p] := true;
        }
        assert forall p | 0 <= p < |diffs| :: before[p] <==> ShownBy(diffs, i, p);
      }
      ShownGrows(diffs, i);
    }
  }

  lemma ShownGrows(s: seq<LineDiff>, n: nat)
    requires n < |s|
    ensures forall i :: ShownBy(s, n + 1, i) <==>
              ShownBy(s, n, i) || (s[n].action != EQ && n - LINES_BEFORE <= i <= n + LINES_AFTER)
  {
  }

  lemma EmptyPrefix(s: seq<LineDiff>)
    ensures Before(s[..0]) == [] && After(s[..0]) == []
  {
  }

  lemma NoMoreRows(s: seq<LineDiff>)
    ensures Rows(s, |s|) == []
  {
  }

  /** Print the marked rows under running positions. */
  method PrintRows(diffs: seq<LineDiff>, show: array<bool>) returns (out: seq<Row>)
    requires show.Length == |diffs|
    requires forall p | 0 <= p < |diffs| :: show[p] <==> ShownBy(diffs, |diffs|, p)
    ensures out == Message(diffs)
  {
    hide Before, After, Rows, ShownBy;
    var oidx, uidx := 0, 0;
    out := [];
    EmptyPrefix(diffs);
    for i := 0 to |diffs|
      invariant oidx == |Before(diffs[..i])| && uidx == |After(diffs[..i])|
      invariant out + Rows(diffs, i) == Rows(diffs, 0)
    {
      RowsUnfold(diffs, i, out);
      if show[i] {
        out := out + [FormatRow(diffs[i].val, diffs[i].action, oidx, uidx)];
      }
      PrefixGrows(diffs, i);
      match diffs[i].action
      case EQ =>
        oidx := oidx + 1;
        uidx := uidx + 1;
      case ADD =>
        uidx := uidx + 1;
      case DEL =>
        oidx := oidx + 1;
    }
    NoMoreRows(diffs);
  }

  /** to_string: the message of the rows it counts.  Their number goes through IndexT. */
  method ToString(diffs: seq<LineDiff>) returns (out: seq<Row>)
    requires 0 <= ToIndexT(|diffs|)
    ensures out == CountedMessage(diffs)
    ensures |diffs| < 0x8000 ==> out == Message(diffs)
  {
    var ndiffs: IndexT := ToIndexT(|diffs|);
    var counted := diffs[..ndiffs];
    assert |diffs| < 0x8000 ==> counted == diffs;
    var show := MarkShown(counted);
    out := PrintRows(counted, show);
  }

  // ---------------------------------------------------------------- the message is a patch

  /** Apply printed rows to `base`, using nothing but what they print.  `o` lines of `base` have been
      used and `out` has been written.  A row that does not fit is rejected. */
  function Patch(rows: seq<Row>, base: seq<Line>, o: nat, out: seq<Line>): Option<seq<Line>>
    requires o <= |base|
    decreases |rows|
  {
    if rows == [] then Some(out + base[o..])
    else
      match rows[0]
      case Context(orig, updated, val) =>
        if o <= orig < |base| && base[orig] == val && updated == |out| + orig - o then
          Patch(rows[1..], base, o, out)
        else None
      case Added(updated, val) =>
        var copied := o + updated - |out|;
        if o <= copied <= |base| then
          Patch(rows[1..], base, copied, out + base[o..copied] + [val])
        else None
      case Removed(orig, val) =>
        if o <= orig < |base| && base[orig] == val then
          Patch(rows[1..], base, orig + 1, out + base[o..orig])
        else None
  }

  /** The patch state after the rows of s[..i]: what has been written and the unread lines up to the
      position of row i make up the updated list so far.  `base` may go on after what s accounts for. */
  ghost predicate PatchedUpTo(s: seq<LineDiff>, i: nat, base: seq<Line>, o: nat, out: seq<Line>) {
    i <= |s| && o <= |Before(s[..i])| <= |base| && Before(s) <= base
    && out + base[o..|Before(s[..i])|] == After(s[..i])
  }

  lemma {:induction false} BeforePrefix(s: seq<LineDiff>, i: nat)
    requires i <= |s|
    ensures Before(s[..i]) <= Before(s)
    decreases |s|
  {
    if i == |s| {
      assert s[..i] == s;
    } else {
      assert s[..|s| - 1][..i] == s[..i];
      BeforePrefix(s[..|s| - 1], i);
    }
  }

  lemma RowShown(s: seq<LineDiff>, i: nat)
    requires i < |s| && s[i].action != EQ
    ensures ShownBy(s, |s|, i)
  {
  }

  /** What row i finds at its position, and what is true after it. */
  lemma PatchStep(s: seq<LineDiff>, i: nat, base: seq<Line>, o: nat, out: seq<Line>)
    requires PatchedUpTo(s, i, base, o, out) && i < |s|
    ensures
      var at := |Before(s[..i])|;
      && |After(s[..i])| == |out| + at - o
      && (s[i].action != ADD ==> at < |base| && base[at] == s[i].val)
      && match s[i].action
         case EQ => PatchedUpTo(s, i + 1, base, o, out)
         case ADD => PatchedUpTo(s, i + 1, base, at, out + base[o..at] + [s[i].val])
         case DEL => PatchedUpTo(s, i + 1, base, at + 1, out + base[o..at])
  {
    var at := |Before(s[..i])|;
    PrefixGrows(s, i);
    BeforePrefix(s, i + 1);
    hide Before, After;
    if s[i].action != ADD {
      assert Before(s[..i + 1])[at] == s[i].val;
    }
    if s[i].action == EQ {
      assert base[o..at + 1] == base[o..at] + [base[at]];
    }
  }

  /** When no rows are left, the unread rest of `base` is copied. */
  lemma PatchEnd(base: seq<Line>, o: nat, out: seq<Line>, at: nat)
    requires o <= at <= |base|
    ensures Patch([], base, o, out) == Some((out + base[o..at]) + base[at..])
  {
    assert out + base[o..] == (out + base[o..at]) + base[at..];
  }

  /** Applying row i, if it is shown, leads to the patch state after it. */
  lemma PatchRow(s: seq<LineDiff>, i: nat, base: seq<Line>, o: nat, out: seq<Line>)
    requires PatchedUpTo(s, i, base, o, out) && i < |s|
    ensures
      var at := |Before(s[..i])|;
      match s[i].action
      case EQ => Patch(Rows(s, i), base, o, out) == Patch(Rows(s, i + 1), base, o, out)
      case ADD =>
        Patch(Rows(s, i), base, o, out) == Patch(Rows(s, i + 1), base, at, out + base[o..at] + [s[i].val])
      case DEL =>
        at + 1 <= |base| &&
        Patch(Rows(s, i), base, o, out) == Patch(Rows(s, i + 1), base, at + 1, out + base[o..at])
  {
    PatchStep(s, i, base, o, out);
    if s[i].action != EQ {
      RowShown(s, i);
    }
    hide Before, After, ShownBy;
    var rest := Rows(s, i + 1);
    if ShownBy(s, |s|, i) {
      assert ([RowAt(s, i)] + rest)[1..] == rest;
    } else {
      assert Rows(s, i) == rest;
    }
  }

  lemma {:induction false} RowsPatch(s: seq<LineDiff>, i: nat, base: seq<Line>, o: nat, out: seq<Line>)
    requires PatchedUpTo(s, i, base, o, out)
    ensures |Before(s)| <= |base| && Patch(Rows(s, i), base, o, out) == Some(After(s) + base[|Before(s)|..])
    decreases |s| - i
  {
    BeforePrefix(s, |s|);
    assert s[..|s|] == s;
    if i == |s| {
      PatchEnd(base, o, out, |Before(s)|);
    } else {
      PatchStep(s, i, base, o, out);
      PatchRow(s, i, base, o, out);
      hide Before, After, Rows, Patch, PatchedUpTo;
      var at := |Before(s[..i])|;
      match s[i].action
      case EQ => RowsPatch(s, i + 1, base, o, out);
      case ADD => RowsPatch(s, i + 1, base, at, out + base[o..at] + [s[i].val]);
      case DEL => RowsPatch(s, i + 1, base, at + 1, out + base[o..at]);
    }
  }

  /** The printed rows, applied at their printed positions to a list that begins with the lines the
      script accounts for, rewrite those lines and leave the rest. */
  lemma MessagePatches(s: seq<LineDiff>, base: seq<Line>)
    requires Before(s) <= base
    ensures Patch(Message(s), base, 0, []) == Some(After(s) + base[|Before(s)|..])
  {
    EmptyPrefix(s);
    RowsPatch(s, 0, base, 0, []);
  }

  /** The printed rows, applied at their printed positions to the first list, rebuild the second. */
  lemma MessageIsPatch(s: seq<LineDiff>)
    ensures Patch(Message(s), Before(s), 0, []) == Some(After(s))
  {
    MessagePatches(s, Before(s));
    assert After(s) + Before(s)[|Before(s)|..] == After(s);
  }

  lemma {:induction false} RowsAreShown(s: seq<LineDiff>, i: nat, row: Row)
    requires i <= |s|
    ensures row in Rows(s, i) <==> exists j | i <= j < |s| :: ShownBy(s, |s|, j) && row == RowAt(s, j)
    decreases |s| - i
  {
    hide ShownBy, RowAt;
    if i < |s| {
      RowsAreShown(s, i + 1, row);
    }
  }

  /** Counting lines never goes back, and each row advances the position it prints. */
  lemma {:induction false} RowsDiffer(s: seq<LineDiff>, i: nat, j: nat)
    requires i < j < |s|
    ensures |Before(s[..i])| + (if s[i].action == ADD then 0 else 1) <= |Before(s[..j])|
    ensures |After(s[..i])| + (if s[i].action == DEL then 0 else 1) <= |After(s[..j])|
    ensures RowAt(s, i) != RowAt(s, j)
    decreases j
  {
    hide Before, After;
    PrefixGrows(s, j - 1);
    if i < j - 1 {
      RowsDiffer(s, i, j - 1);
    }
  }

  /** An edit lies within three rows of row p. */
  ghost predicate NearEdit(s: seq<LineDiff>, p: int) {
    exists j | 0 <= j < |s| :: s[j].action != EQ && -3 <= j - p <= 3
  }

  /** A row of the script is printed exactly when an edit lies within three rows of it. */
  lemma MessageShows(s: seq<LineDiff>, i: nat)
    requires i < |s|
    ensures RowAt(s, i) in Message(s) <==> NearEdit(s, i)
  {
    RowsAreShown(s, 0, RowAt(s, i));
    assert ShownBy(s, |s|, i) <==> NearEdit(s, i);
    hide ShownBy, RowAt, Rows;
    if j :| 0 <= j < |s| && ShownBy(s, |s|, j) && RowAt(s, i) == RowAt(s, j) {
      if i < j {
        RowsDiffer(s, i, j);
      } else if j < i {
        RowsDiffer(s, j, i);
      }
    }
  }

  ghost function ShownFrom(s: seq<LineDiff>, i: nat): set<int> {
    set p | i <= p < |s| && ShownBy(s, |s|, p)
  }

  /** `rows` are the rows of s at the given positions. */
  ghost predicate RowsAt(rows: seq<Row>, s: seq<LineDiff>, ps: seq<int>) {
    |rows| == |ps| && forall q | 0 <= q < |ps| :: 0 <= ps[q] < |s| && rows[q] == RowAt(s, ps[q])
  }

  lemma {:induction false} RowsInOrder(s: seq<LineDiff>, i: nat, ps: seq<int>)
    requires i <= |s| && Lists(ps, ShownFrom(s, i))
    ensures RowsAt(Rows(s, i), s, ps)
    decreases |s| - i
  {
    hide ShownBy, RowAt, Lists;
    if i == |s| {
      ListsNothing(ps, ShownFrom(s, i));
    } else if ShownBy(s, |s|, i) {
      ListsFirst(ps, ShownFrom(s, i), i);
      assert ShownFrom(s, i + 1) == ShownFrom(s, i) - {i};
      RowsInOrder(s, i + 1, ps[1..]);
      assert ps == [ps[0]] + ps[1..];
    } else {
      assert ShownFrom(s, i + 1) == ShownFrom(s, i);
      RowsInOrder(s, i + 1, ps);
    }
  }

  /** The message is the rows near an edit, in the order of the script and each of them once. */
  lemma MessageInOrder(s: seq<LineDiff>, ps: seq<int>)
    requires Lists(ps, set p | 0 <= p < |s| && NearEdit(s, p))
    ensures RowsAt(Message(s), s, ps)
  {
    assert ShownFrom(s, 0) == set p | 0 <= p < |s| && NearEdit(s, p);
    RowsInOrder(s, 0, ps);
  }

  /** The message of a script is empty exactly when it edits nothing. */
  lemma {:induction false} RowsEmptyIff(s: seq<LineDiff>, i: nat)
    requires i <= |s|
    ensures AllEq(s) ==> Rows(s, i) == []
    ensures Rows(s, i) == [] ==> AllEq(s[i..])
    decreases |s| - i
  {
    if i < |s| {
      RowsEmptyIff(s, i + 1);
      assert s[i..] == [s[i]] + s[i + 1..];
    }
  }

  lemma MessageEmptyIff(s: seq<LineDiff>)
    ensures Message(s) == [] <==> AllEq(s)
  {
    RowsEmptyIff(s, 0);
    assert s[0..] == s;
  }

  // ---------------------------------------------------------------- the two entry points

  /** The rows of a batch and their positions fit the IndexT variables of the helper. */
  lemma BatchRowsFit(want: seq<Line>, got: seq<Line>)
    ensures
      var s := MyersScript(LineGraph(want, got));
      |s| <= |want| + |got| && forall i | 0 <= i < |s| :: s[i].orig < |want| && s[i].updated < |got|
  {
    hide Before, After;
    var g := LineGraph(want, got);
    var s := MyersScript(g);
    if |want| + |got| <= BACKTRACE_LIMIT {
      LineScript(want, got);
      ProjectionLengths(s);
      ScriptProjections(g, s, |want|, |got|);
      forall i | 0 <= i < |s| ensures s[i].orig < |want| && s[i].updated < |got| {
        assert s[i] in s;
      }
    }
  }

  lemma BatchedUnfolds(want: seq<Line>, got: seq<Line>, batch_limit: nat)
    requires 1 <= batch_limit
    ensures |want| <= batch_limit && |got| <= batch_limit ==>
              Batched(want, got, batch_limit) == MyersScript(LineGraph(want, got))
    ensures |want| > batch_limit || |got| > batch_limit ==>
              var wantbatch, gotbatch := Batch(want, batch_limit), Batch(got, batch_limit);
              var s := MyersScript(LineGraph(wantbatch, gotbatch));
              var cut := CutOf(s, |wantbatch|, |gotbatch|);
              && 0 <= cut.end <= |s| && 0 <= cut.eoffset <= |want| && 0 <= cut.goffset <= |got|
              && 0 < cut.eoffset + cut.goffset
              && Batched(want, got, batch_limit)
              == s[..cut.end] + Batched(want[cut.eoffset..], got[cut.goffset..], batch_limit)
  {
    hide MyersScript, CutOf;
    CutIsExact(Batch(want, batch_limit), Batch(got, batch_limit));
  }

  /** How lists longer than a batch are cut, in terms of rows and lines alone: the first batch of
      either list is diffed, its rows are kept up to the last match, and the lines those rows account
      for are skipped.  A batch too large for the backtrace is skipped and leaves no rows. */
  lemma BatchedStep(want: seq<Line>, got: seq<Line>, batch_limit: nat, c: int)
    requires 1 <= batch_limit && (batch_limit < |want| || batch_limit < |got|)
    requires
      var wantbatch := want[..if batch_limit < |want| then batch_limit else |want|];
      var gotbatch := got[..if batch_limit < |got| then batch_limit else |got|];
      CutAt(MyersScript(LineGraph(wantbatch, gotbatch)), c)
    ensures
      var wantbatch := want[..if batch_limit < |want| then batch_limit else |want|];
      var gotbatch := got[..if batch_limit < |got| then batch_limit else |got|];
      var s := MyersScript(LineGraph(wantbatch, gotbatch));
      && 0 <= c <= |s| && |Before(s[..c])| <= |want| && |After(s[..c])| <= |got|
      && (|wantbatch| + |gotbatch| <= 16383 ==>
            Batched(want, got, batch_limit)
            == s[..c] + Batched(want[|Before(s[..c])|..], got[|After(s[..c])|..], batch_limit))
      && (16383 < |wantbatch| + |gotbatch| ==>
            Batched(want, got, batch_limit) == Batched(want[|wantbatch|..], got[|gotbatch|..], batch_limit))
  {
    var wantbatch, gotbatch := Batch(want, batch_limit), Batch(got, batch_limit);
    var s := MyersScript(LineGraph(wantbatch, gotbatch));
    CutIsExact(wantbatch, gotbatch);
    CutBehindLastMatch(s, |wantbatch|, |gotbatch|, c);
    BatchedUnfolds(want, got, batch_limit);
    hide MyersScript, Batched, Before, After;
    if 16383 < |wantbatch| + |gotbatch| {
      assert s == [];
      EmptyPrefix(s);
    }
  }

  /** Push the first `end` rows onto `diffs`. */
  method PushRows(diffs: seq<LineDiff>, mdiffs: seq<LineDiff>, end: int) returns (out: seq<LineDiff>)
    requires 0 <= end <= |mdiffs|
    ensures out == diffs + mdiffs[..end]
  {
    out := diffs;
    for i := 0 to end
      invariant out == diffs + mdiffs[..i]
    {
      out := out + [mdiffs[i]];
    }
  }

  /** Find where a batch of n and m lines is cut. */
  method FindCut(mdiffs: seq<LineDiff>, n: IndexT, m: IndexT)
    returns (diff_end: IndexT, eoffset: IndexT, goffset: IndexT)
    requires |mdiffs| < 0x8000
    requires forall i | 0 <= i < |mdiffs| :: mdiffs[i].orig < n && mdiffs[i].updated < m
    ensures Cut(diff_end, eoffset, goffset) == CutOf(mdiffs, n, m)
  {
    diff_end := |mdiffs|;
    eoffset := n;
    goffset := m;
    for i := 0 to |mdiffs|
      invariant Cut(diff_end, eoffset, goffset) == CutUpTo(mdiffs, i, n, m)
    {
      if mdiffs[i].action == EQ {
        diff_end := i + 1;
        eoffset := mdiffs[i].orig as int + 1;
        goffset := mdiffs[i].updated as int + 1;
      }
    }
  }

  /** safe_diff_msg_helper: append the script of `want` and `got` to `diffs`, one batch at a time. */
  method SafeDiffMsgHelper(diffs: seq<LineDiff>, want: seq<Line>, got: seq<Line>, batch_limit: nat)
    returns (out: seq<LineDiff>)
    requires 1 <= batch_limit && FirstBatch(want, got, batch_limit) <= SEARCH_LIMIT
    ensures out == diffs + Batched(want, got, batch_limit)
    decreases |want| + |got|
  {
    hide MyersScript, CutOf, Batched;
    var nexpect := |want|;
    var ngot := |got|;
    BatchedUnfolds(want, got, batch_limit);

    if nexpect <= batch_limit && ngot <= batch_limit {
      var mdiffs := MyersDiff(LineGraph(want, got));
      out := PushRows(diffs, mdiffs, |mdiffs|);
      assert mdiffs[..|mdiffs|] == mdiffs;
      return;
    }

    var wantbatch := Batch(want, batch_limit);
    var gotbatch := Batch(got, batch_limit);

    var mdiffs := MyersDiff(LineGraph(wantbatch, gotbatch));
    BatchRowsFit(wantbatch, gotbatch);

    var diff_end, eoffset, goffset := FindCut(mdiffs, |wantbatch|, |gotbatch|);
    out := PushRows(diffs, mdiffs, diff_end);
    out := SafeDiffMsgHelper(out, want[eoffset..], got[goffset..], batch_limit);
  }

  /** diff_msg.  Where the row width fits, the message is empty exactly for equal lists and is a patch
      from one to the other.  Beyond that every message is empty, whatever the lists hold. */
  method DiffMsg(want: seq<Line>, got: seq<Line>) returns (msg: seq<Row>)
    requires Searchable(LineGraph(want, got))
    ensures msg == Message(MyersScript(LineGraph(want, got)))
  {
    hide MyersScript;
    var diffs := MyersDiff(LineGraph(want, got));
    BatchRowsFit(want, got);
    msg := ToString(diffs);
  }

  /** What diff_msg tells about any two lists: for lists that differ it has something to say, and
      what it says is a patch, exactly when the row width fits. */
  lemma DiffMsgMeaning(want: seq<Line>, got: seq<Line>)
    requires Searchable(LineGraph(want, got))
    ensures
      var msg := Message(MyersScript(LineGraph(want, got)));
      && (want == got ==> msg == [])
      && (want != got ==> (msg != [] <==> |want| + |got| <= BACKTRACE_LIMIT))
      && (|want| + |got| <= BACKTRACE_LIMIT ==> Patch(msg, want, 0, []) == Some(got))
  {
    hide MyersScript;
    var s := MyersScript(LineGraph(want, got));
    MessageEmptyIff(s);
    MessageIsPatch(s);
    CutIsExact(want, got);
    if want == got {
      EqualListsScript(want);
    }
    if |want| + |got| <= BACKTRACE_LIMIT {
      LineScript(want, got);
      if AllEq(s) {
        AllEqProjections(s);
      }
    }
  }

  /** safe_diff_msg: the message of the accumulated script, of which to_string counts the rows in an
      IndexT. */
  method SafeDiffMsg(want: seq<Line>, got: seq<Line>, batch_limit: nat) returns (msg: seq<Row>)
    requires 1 <= batch_limit && FirstBatch(want, got, batch_limit) <= SEARCH_LIMIT
    requires 0 <= ToIndexT(|Batched(want, got, batch_limit)|)
    ensures msg == CountedMessage(Batched(want, got, batch_limit))
    ensures |Batched(want, got, batch_limit)| < 0x8000 ==> msg == Message(Batched(want, got, batch_limit))
  {
    hide Batched;
    var diff := SafeDiffMsgHelper([], want, got, batch_limit);
    assert [] + Batched(want, got, batch_limit) == Batched(want, got, batch_limit);
    msg := ToString(diff);
  }

  /** However the lists are cut into batches, the whole message is empty exactly when they are equal,
      and applied to the first list it rebuilds the second. */
  lemma BatchedMessageMeaning(want: seq<Line>, got: seq<Line>, batch_limit: nat)
    requires 1 <= batch_limit && FirstBatch(want, got, batch_limit) <= BACKTRACE_LIMIT
    ensures
      var msg := Message(Batched(want, got, batch_limit));
      && (msg == [] <==> want == got)
      && Patch(msg, want, 0, []) == Some(got)
  {
    hide MyersScript, Batched;
    var s := Batched(want, got, batch_limit);
    BatchedProjects(want, got, batch_limit);
    MessageEmptyIff(s);
    MessageIsPatch(s);
    if want == got {
      BatchedOfEqualLists(want, batch_limit);
    } else if AllEq(s) {
      AllEqProjections(s);
    }
  }

  /** A script never has more rows than the two lists have lines, so that lists of together less than
      32768 lines meet the demand of safe_diff_msg on its row count. */
  lemma RowCountFits(want: seq<Line>, got: seq<Line>, batch_limit: nat)
    requires 1 <= batch_limit
    ensures |Batched(want, got, batch_limit)| <= |want| + |got|
    ensures |want| + |got| < 0x8000 ==>
              ToIndexT(|Batched(want, got, batch_limit)|) == |Batched(want, got, batch_limit)|
  {
    hide MyersScript, Batched;
    BatchedNeverGrows(want, got, batch_limit);
    ProjectionLengths(Batched(want, got, batch_limit));
  }

  /** What safe_diff_msg returns for lists that are not too long: a message that is empty exactly when
      they are equal and that applied to the first list rebuilds the second. */
  lemma SafeDiffMsgMeaning(want: seq<Line>, got: seq<Line>, batch_limit: nat)
    requires 1 <= batch_limit && FirstBatch(want, got, batch_limit) <= BACKTRACE_LIMIT
    requires |want| + |got| < 0x8000
    ensures 0 <= ToIndexT(|Batched(want, got, batch_limit)|)
    ensures
      var msg := CountedMessage(Batched(want, got, batch_limit));
      && (msg == [] <==> want == got)
      && Patch(msg, want, 0, []) == Some(got)
  {
    hide MyersScript, Batched;
    var s := Batched(want, got, batch_limit);
    RowCountFits(want, got, batch_limit);
    BatchedMessageMeaning(want, got, batch_limit);
    assert s[..|s|] == s;
  }
}
