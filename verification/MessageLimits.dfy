/** How long the inputs of safe_diff_msg may be before its message stops telling the whole truth: the
    exact conditions, in terms of what a caller knows before the call. */
module MessageLimits {
  import opened DiffMessage
  import opened EditGraph
  import opened FixedWidth
  import opened Myers
  import opened Outcomes

  // ---------------------------------------------------------------- one script

  /** Cutting a script off prints no row that the whole script does not print. */
  lemma {:induction false} RowsOfPrefix(s: seq<LineDiff>, c: nat, i: nat)
    requires i <= c <= |s|
    ensures |Rows(s[..c], i)| + |Rows(s, c)| <= |Rows(s, i)|
    decreases c - i
  {
    if i < c {
      RowsOfPrefix(s, c, i + 1);
      ShownInWhole(s, c, i);
      hide ShownBy, RowAt;
    }
  }

  lemma ShownInWhole(s: seq<LineDiff>, c: nat, i: int)
    requires c <= |s|
    ensures ShownBy(s[..c], c, i) ==> ShownBy(s, |s|, i)
    ensures (forall j | 0 <= j < |s| && c - LINES_BEFORE <= j :: s[j].action == EQ) ==>
              (ShownBy(s, |s|, i) ==> i < c && ShownBy(s[..c], c, i))
  {
    assert forall j | 0 <= j < c :: s[..c][j] == s[j];
  }

  /** Printed rows of a prefix carry the positions they have in the whole script. */
  lemma RowInPrefix(s: seq<LineDiff>, c: nat, i: nat)
    requires i < c <= |s|
    ensures RowAt(s[..c], i) == RowAt(s, i)
  {
    assert s[..c][..i] == s[..i];
  }

  /** A prefix that ends more than three rows after the last edit prints everything. */
  lemma {:induction false} NothingAfter(s: seq<LineDiff>, c: nat, i: nat)
    requires c <= |s| && i <= |s|
    requires forall j | 0 <= j < |s| && c - LINES_BEFORE <= j :: s[j].action == EQ
    ensures Rows(s, i) == if i <= c then Rows(s[..c], i) else []
    decreases |s| - i
  {
    if i < |s| {
      NothingAfter(s, c, i + 1);
      ShownInWhole(s, c, i);
      if i < c {
        RowInPrefix(s, c, i);
      } else if i == c {
        NoMoreRows(s[..c]);
      }
      hide ShownBy, RowAt;
    } else if i == c {
      assert s[..c] == s;
    }
  }

  /** to_string prints the whole message of a script exactly when the number of its rows fits IndexT or
      the rows beyond those it counts, and the last three of these, hold no edit. */
  lemma CountedIsWholeIff(s: seq<LineDiff>)
    requires 0 <= ToIndexT(|s|)
    ensures CountedMessage(s) == Message(s) <==>
              || |s| < 0x8000
              || forall j | 0 <= j < |s| && ToIndexT(|s|) - 3 <= j :: s[j].action == EQ
  {
    var c := ToIndexT(|s|);
    if |s| < 0x8000 {
      assert s[..c] == s;
    } else if forall j | 0 <= j < |s| && c - 3 <= j :: s[j].action == EQ {
      NothingAfter(s, c, 0);
    } else {
      var j :| 0 <= j < |s| && c - 3 <= j && s[j].action != EQ;
      RowsOfPrefix(s, c, 0);
      RowsShownFrom(s, c, if j < c then c else j);
    }
  }

  lemma {:induction false} RowsShownFrom(s: seq<LineDiff>, c: nat, i: nat)
    requires c <= i < |s| && ShownBy(s, |s|, i)
    ensures Rows(s, c) != []
    decreases i - c
  {
    hide ShownBy, RowAt;
    if c < i {
      RowsShownFrom(s, c + 1, i);
    }
  }

  // ---------------------------------------------------------------- lists with nothing in common

  function Copies(line: Line, n: nat): seq<Line> {
    seq(n, _ => line)
  }

  /** The rows of a script carry values of the lists it projects to. */
  lemma {:induction false} RowsProject(s: seq<LineDiff>)
    ensures forall i | 0 <= i < |s| && s[i].action == EQ :: s[i].val in Before(s) && s[i].val in After(s)
    decreases |s|
  {
    if s != [] {
      RowsProject(s[..|s| - 1]);
    }
  }

  lemma {:induction false} NoMatchLength(s: seq<LineDiff>)
    requires forall i | 0 <= i < |s| :: s[i].action != EQ
    ensures |s| == |Before(s)| + |After(s)|
    decreases |s|
  {
    if s != [] {
      NoMatchLength(s[..|s| - 1]);
    }
  }

  /** However two lists are batched, the rows take their lines from the lists. */
  lemma {:induction false} BatchedTakesFrom(want: seq<Line>, got: seq<Line>, batch_limit: nat)
    requires 1 <= batch_limit
    ensures forall l | l in Before(Batched(want, got, batch_limit)) :: l in want
    ensures forall l | l in After(Batched(want, got, batch_limit)) :: l in got
    decreases |want| + |got|
  {
    hide MyersScript, CutOf, Batched;
    BatchedUnfolds(want, got, batch_limit);
    var wantbatch, gotbatch := Batch(want, batch_limit), Batch(got, batch_limit);
    CutIsExact(wantbatch, gotbatch);
    if |want| <= batch_limit && |got| <= batch_limit {
      assert wantbatch == want && gotbatch == got;
      if |want| + |got| <= BACKTRACE_LIMIT {
        LineScript(want, got);
      }
    } else {
      var s := MyersScript(LineGraph(wantbatch, gotbatch));
      var cut := CutOf(s, |wantbatch|, |gotbatch|);
      var rest := Batched(want[cut.eoffset..], got[cut.goffset..], batch_limit);
      BatchedTakesFrom(want[cut.eoffset..], got[cut.goffset..], batch_limit);
      ProjectionsConcat(s[..cut.end], rest);
    }
  }

  /** Between n lines "a" and m lines "b" there are only edits, at most one for each line, and fewer
      where the first batch is too big for the row width. */
  lemma OnlyEdits(n: nat, m: nat, batch_limit: nat)
    requires 1 <= batch_limit
    ensures
      var want, got := Copies("a", n), Copies("b", m);
      var s := Batched(want, got, batch_limit);
      && (forall i | 0 <= i < |s| :: s[i].action != EQ)
      && |s| == |Before(s)| + |After(s)| <= n + m
      && (|s| == n + m <==> FirstBatch(want, got, batch_limit) <= BACKTRACE_LIMIT)
      && Before(s) <= want
  {
    hide Batched, Before, After;
    var want, got := Copies("a", n), Copies("b", m);
    var s := Batched(want, got, batch_limit);
    BatchedTakesFrom(want, got, batch_limit);
    RowsProject(s);
    NoMatchLength(s);
    BatchedNeverGrows(want, got, batch_limit);
    if FirstBatch(want, got, batch_limit) <= BACKTRACE_LIMIT {
      BatchedProjects(want, got, batch_limit);
    }
    assert forall i | 0 <= i < |Before(s)| :: Before(s)[i] in Before(s);
  }

  // ---------------------------------------------------------------- all inputs of given sizes

  /** safe_diff_msg returns the whole message of its script. */
  ghost predicate PrintsWhole(want: seq<Line>, got: seq<Line>, batch_limit: nat)
    requires 1 <= batch_limit
  {
    var s := Batched(want, got, batch_limit);
    0 <= ToIndexT(|s|) && CountedMessage(s) == Message(s)
  }

  /** safe_diff_msg returns a message that, applied to the first list, rebuilds the second. */
  ghost predicate PrintsPatch(want: seq<Line>, got: seq<Line>, batch_limit: nat)
    requires 1 <= batch_limit
  {
    var s := Batched(want, got, batch_limit);
    0 <= ToIndexT(|s|) && Patch(CountedMessage(s), want, 0, []) == Some(got)
  }

  /** Where the batches are sound, safe_diff_msg prints the whole message of all lists of n and m lines
      if and only if n + m < 32768. */
  lemma PrintsWholeIff(n: nat, m: nat, batch_limit: nat)
    requires 1 <= batch_limit && Min(batch_limit, n) + Min(batch_limit, m) <= BACKTRACE_LIMIT
    ensures (forall want: seq<Line>, got: seq<Line> | |want| == n && |got| == m ::
               PrintsWhole(want, got, batch_limit))
       <==> n + m < 0x8000
  {
    hide Batched;
    if n + m < 0x8000 {
      forall want: seq<Line>, got: seq<Line> | |want| == n && |got| == m
        ensures PrintsWhole(want, got, batch_limit)
      {
        RowCountFits(want, got, batch_limit);
        CountedIsWholeIff(Batched(want, got, batch_limit));
      }
    } else {
      var want, got := Copies("a", n), Copies("b", m);
      var s := Batched(want, got, batch_limit);
      OnlyEdits(n, m, batch_limit);
      if 0 <= ToIndexT(|s|) {
        assert s[|s| - 1].action != EQ;
        CountedIsWholeIff(s);
      }
      assert !PrintsWhole(want, got, batch_limit);
    }
  }

  /** safe_diff_msg returns a patch for all lists of n and m lines if and only if their first batch has
      at most 16383 lines and they have less than 32768 lines together. */
  lemma PrintsPatchIff(n: nat, m: nat, batch_limit: nat)
    requires 1 <= batch_limit && Min(batch_limit, n) + Min(batch_limit, m) <= SEARCH_LIMIT
    ensures (forall want: seq<Line>, got: seq<Line> | |want| == n && |got| == m ::
               PrintsPatch(want, got, batch_limit))
       <==> Min(batch_limit, n) + Min(batch_limit, m) <= BACKTRACE_LIMIT && n + m < 0x8000
  {
    hide Batched;
    if Min(batch_limit, n) + Min(batch_limit, m) <= BACKTRACE_LIMIT && n + m < 0x8000 {
      forall want: seq<Line>, got: seq<Line> | |want| == n && |got| == m
        ensures PrintsPatch(want, got, batch_limit)
      {
        SafeDiffMsgMeaning(want, got, batch_limit);
      }
    } else {
      OnlyEdits(n, m, batch_limit);
      CutOffIsNoPatch(n, m, Batched(Copies("a", n), Copies("b", m), batch_limit));
      assert !PrintsPatch(Copies("a", n), Copies("b", m), batch_limit);
    }
  }

  /** Edits of fewer lines than there are do not turn n lines "a" into m lines "b". */
  lemma TooFewIsNoPatch(n: nat, m: nat, t: seq<LineDiff>)
    requires forall i | 0 <= i < |t| :: t[i].action != EQ
    requires Before(t) <= Copies("a", n) && |t| < n + m
    ensures Patch(Message(t), Copies("a", n), 0, []) != Some(Copies("b", m))
  {
    NoMatchLength(t);
    MessagePatches(t, Copies("a", n));
    BeforeIsCopies(t, n);
    hide Before, After, Message, Patch, Copies;
    LeftOverDiffers(After(t), n - |Before(t)|, m);
  }

  /** A script that loses lines, or is counted short, is no patch either. */
  lemma CutOffIsNoPatch(n: nat, m: nat, s: seq<LineDiff>)
    requires forall i | 0 <= i < |s| :: s[i].action != EQ
    requires Before(s) <= Copies("a", n) && |s| <= n + m
    requires |s| < n + m || 0x8000 <= n + m
    ensures 0 <= ToIndexT(|s|) ==> Patch(CountedMessage(s), Copies("a", n), 0, []) != Some(Copies("b", m))
  {
    var c := ToIndexT(|s|);
    if 0 <= c {
      BeforePrefix(s, c);
      PrefixOfPrefix(Before(s[..c]), Before(s), Copies("a", n));
      hide Before, After, Message, Patch, Copies, ToIndexT;
      TooFewIsNoPatch(n, m, s[..c]);
    }
  }

  lemma PrefixOfPrefix(a: seq<Line>, b: seq<Line>, c: seq<Line>)
    requires a <= b && b <= c
    ensures a <= c
  {
  }

  lemma BeforeIsCopies(t: seq<LineDiff>, n: nat)
    requires Before(t) <= Copies("a", n)
    ensures |Before(t)| <= n && Copies("a", n)[|Before(t)|..] == Copies("a", n - |Before(t)|)
  {
  }

  lemma LeftOverDiffers(prefix: seq<Line>, k: nat, m: nat)
    requires 0 < k || |prefix| < m
    ensures prefix + Copies("a", k) != Copies("b", m)
  {
    assert 0 < k ==> (prefix + Copies("a", k))[|prefix|] == "a";
    assert |prefix| < m ==> Copies("b", m)[|prefix|] == "b";
  }

  /** A script of 65536 rows is counted as none: inserting that many lines into an empty list gives
      the empty message. */
  lemma LongScriptVanishes(got: seq<Line>, batch_limit: nat)
    requires 1 <= batch_limit <= 8191 && |got| == 0x10000
    ensures var s := Batched([], got, batch_limit);
            ToIndexT(|s|) == 0 && CountedMessage(s) == [] && Message(s) != []
  {
    hide MyersScript, Batched;
    var s := Batched([], got, batch_limit);
    BatchedProjects([], got, batch_limit);
    ProjectionLengths(s);
    BatchedMessageMeaning([], got, batch_limit);
  }
}
