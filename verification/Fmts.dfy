/** fmts: splitting and joining strings, and the escaping that lets a printed pair be read back. */
module Fmts {

  // ---------------------------------------------------------------- split and join

  predicate Occurs(s: string, delim: string, i: int) {
    0 <= i <= |s| - |delim| && s[i..i + |delim|] == delim
  }

  /** std::string::find from position i on: the leftmost occurrence, or -1. */
  function FindFrom(s: string, delim: string, i: nat): (at: int)
    ensures at == -1 || (i <= at && Occurs(s, delim, at))
    ensures forall j | i <= j && Occurs(s, delim, j) :: at != -1 && at <= j
    decreases |s| - i
  {
    if |s| < i + |delim| then -1
    else if Occurs(s, delim, i) then i
    else FindFrom(s, delim, i + 1)
  }

  function Find(s: string, delim: string): int {
    FindFrom(s, delim, 0)
  }

  /** The pieces between the occurrences of `delim` found by repeated leftmost search. */
  function Pieces(s: string, delim: string): seq<string>
    requires delim != ""
    ensures Pieces(s, delim) != []
    decreases |s|
  {
    var i := Find(s, delim);
    if i == -1 then [s] else [s[..i]] + Pieces(s[i + |delim|..], delim)
  }

  function Joined(delim: string, parts: seq<string>): string {
    if parts == [] then ""
    else if |parts| == 1 then parts[0]
    else parts[0] + delim + Joined(delim, parts[1..])
  }

  /** One round of splitting, on top of the pieces already found. */
  lemma PiecesUnfold(s: string, delim: string, out: seq<string>)
    requires delim != ""
    ensures -1 <= Find(s, delim)
    ensures Find(s, delim) == -1 ==> out + Pieces(s, delim) == out + [s]
    ensures Find(s, delim) != -1 ==>
      var i := Find(s, delim);
      && i + |delim| <= |s|
      && out + Pieces(s, delim) == (out + [s[..i]]) + Pieces(s[i + |delim|..], delim)
  {
  }

  /** split: search, cut off the piece and the delimiter, repeat on what is left. */
  method Split(text: string, delim: string) returns (out: seq<string>)
    requires delim != ""
    ensures out == Pieces(text, delim)
  {
    hide Find, Pieces;
    var s := text;
    out := [];
    var i := Find(s, delim);
    while i != -1
      invariant i == Find(s, delim)
      invariant out + Pieces(s, delim) == Pieces(text, delim)
      decreases |s|
    {
      PiecesUnfold(s, delim, out);
      out := out + [s[..i]];
      s := s[i + |delim|..];
      i := Find(s, delim);
    }
    PiecesUnfold(s, delim, out);
    out := out + [s];
  }

  /** join: the first element, then a delimiter before each of the others. */
  method Join(delim: string, parts: seq<string>) returns (ss: string)
    ensures ss == Joined(delim, parts)
  {
    ss := "";
    if parts != [] {
      ss := parts[0];
      var begin := 1;
      assert parts[..1] == [parts[0]];
      while begin != |parts|
        invariant 1 <= begin <= |parts|
        invariant ss == Joined(delim, parts[..begin])
        decreases |parts| - begin
      {
        JoinedConcat(delim, parts[..begin], [parts[begin]]);
        assert parts[..begin + 1] == parts[..begin] + [parts[begin]];
        ss := ss + delim;
        ss := ss + parts[begin];
        begin := begin + 1;
      }
      assert parts[..|parts|] == parts;
    }
  }

  /** What joining is, whatever the parts contain: a delimiter between any two lists of parts, and
      nothing but the part itself where there is one. */
  lemma {:induction false} JoinedConcat(delim: string, front: seq<string>, back: seq<string>)
    requires front != [] && back != []
    ensures Joined(delim, front + back) == Joined(delim, front) + delim + Joined(delim, back)
    ensures Joined(delim, front[..1]) == front[0] && Joined(delim, []) == ""
    decreases |front|
  {
    assert (front + back)[1..] == front[1..] + back;
    assert front[1..] + back != [];
    if |front| == 1 {
      assert front[1..] + back == back;
    } else {
      JoinedConcat(delim, front[1..], back);
      assert Joined(delim, front) == front[0] + delim + Joined(delim, front[1..]);
    }
  }

  /** Joining the pieces of a string gives the string back. */
  lemma {:induction false} JoinUndoesSplit(s: string, delim: string)
    requires delim != ""
    ensures Joined(delim, Pieces(s, delim)) == s
    decreases |s|
  {
    var i := Find(s, delim);
    if i != -1 {
      var rest := s[i + |delim|..];
      JoinUndoesSplit(rest, delim);
      assert Pieces(s, delim)[1..] == Pieces(rest, delim);
      assert s == s[..i] + s[i..i + |delim|] + rest;
    }
  }

  /** No piece contains the delimiter. */
  lemma {:induction false} PiecesAreFree(s: string, delim: string)
    requires delim != ""
    ensures forall p | p in Pieces(s, delim) :: forall j :: !Occurs(p, delim, j)
    decreases |s|
  {
    var i := Find(s, delim);
    if i != -1 {
      PiecesAreFree(s[i + |delim|..], delim);
      forall j ensures !Occurs(s[..i], delim, j) {
        if Occurs(s[..i], delim, j) {
          assert s[..i][j..j + |delim|] == s[j..j + |delim|];
          assert Occurs(s, delim, j);
        }
      }
    }
  }

  /** The parts can be told apart after joining: the first delimiter of each part followed by one is
      the one that was put there, and the last part has none. */
  ghost predicate Separable(delim: string, parts: seq<string>) {
    && parts != []
    && (forall i | 0 <= i < |parts| - 1 :: Find(parts[i] + delim, delim) == |parts[i]|)
    && Find(parts[|parts| - 1], delim) == -1
  }

  /** The first delimiter after joining is found where it is found in the first part alone. */
  lemma FindInFirst(p: string, delim: string, rest: string)
    requires delim != ""
    ensures 0 <= Find(p + delim, delim) <= |p|
    ensures Find(p + delim + rest, delim) == Find(p + delim, delim)
  {
    var head := p + delim;
    var all := p + delim + rest;
    assert Occurs(head, delim, |p|);
    forall j | j <= |p| ensures Occurs(all, delim, j) <==> Occurs(head, delim, j) {
      if 0 <= j {
        assert all[j..j + |delim|] == head[j..j + |delim|];
      }
    }
    assert Occurs(all, delim, |p|);
  }

  /** Splitting undoes joining exactly for the separable lists of parts. */
  lemma {:induction false} SplitUndoesJoinIff(delim: string, parts: seq<string>)
    requires delim != ""
    ensures Pieces(Joined(delim, parts), delim) == parts <==> Separable(delim, parts)
    decreases |parts|
  {
    if |parts| == 1 {
      if Find(parts[0], delim) != -1 {
        assert |Pieces(parts[0], delim)| >= 2;
      }
    } else if |parts| > 1 {
      var p, tail := parts[0], parts[1..];
      var rest := Joined(delim, tail);
      SplitUndoesJoinIff(delim, tail);
      FindInFirst(p, delim, rest);
      SeparableTail(delim, parts);
      var all := p + delim + rest;
      var r := Find(all, delim);
      if r == |p| {
        assert all[..r] == p && all[r + |delim|..] == rest;
        assert parts == [p] + tail;
        assert Pieces(all, delim)[1..] == Pieces(rest, delim);
      } else {
        assert |Pieces(all, delim)[0]| == r;
      }
    }
  }

  lemma SeparableTail(delim: string, parts: seq<string>)
    requires |parts| > 1
    ensures Separable(delim, parts) <==>
              Find(parts[0] + delim, delim) == |parts[0]| && Separable(delim, parts[1..])
  {
    var tail := parts[1..];
    assert forall i | 0 <= i < |tail| :: tail[i] == parts[i + 1];
    assert forall i | 1 <= i < |parts| :: parts[i] == tail[i - 1];
  }

  /** Splitting cuts at the leftmost delimiter each time: no delimiter begins inside a piece, not even
      one that ends in the delimiter behind it. */
  lemma PiecesEndAtFirst(s: string, delim: string)
    requires delim != ""
    ensures forall i, j | 0 <= i < |Pieces(s, delim)| - 1 && Occurs(Pieces(s, delim)[i] + delim, delim, j) ::
              j == |Pieces(s, delim)[i]|
  {
    var parts := Pieces(s, delim);
    JoinUndoesSplit(s, delim);
    SplitUndoesJoinIff(delim, parts);
    hide Pieces;
    forall i, j | 0 <= i < |parts| - 1 && Occurs(parts[i] + delim, delim, j) ensures j == |parts[i]| {
      assert Find(parts[i] + delim, delim) == |parts[i]|;
    }
  }

  // ---------------------------------------------------------------- escaping

  const ARR_BEGIN := '['
  const ARR_END := ']'
  const ARR_DELIM := '\\'
  const PAIR_DELIM := ':'

  predicate IsSymbol(c: char) {
    c == ARR_BEGIN || c == ARR_END || c == ARR_DELIM || c == PAIR_DELIM
  }

  function EscapedChar(c: char): string {
    if IsSymbol(c) then [ARR_DELIM, c] else [c]
  }

  function Escaped(s: string): string {
    if s == "" then "" else EscapedChar(s[0]) + Escaped(s[1..])
  }

  /** Reading escaped text: the character after an escape symbol stands for itself. */
  function Unescaped(t: string): string
    decreases |t|
  {
    if t == "" then ""
    else if t[0] == ARR_DELIM && |t| > 1 then [t[1]] + Unescaped(t[2..])
    else [t[0]] + Unescaped(t[1..])
  }

  lemma {:induction false} EscapedGrows(s: string, c: char)
    ensures Escaped(s + [c]) == Escaped(s) + EscapedChar(c)
    decreases |s|
  {
    if s == "" {
      assert s + [c] == [c];
      assert Escaped([c]) == EscapedChar(c) + Escaped([c][1..]);
    } else {
      EscapedGrows(s[1..], c);
      assert (s + [c])[1..] == s[1..] + [c];
    }
  }

  lemma NothingEscaped(val: string)
    ensures Escaped(val[..0]) == "" && val[0..] == val
  {
  }

  lemma SplitAt(val: string, i: nat)
    requires i < |val|
    ensures val[..i + 1] == val[..i] + [val[i]] && val[i..] == [val[i]] + val[i + 1..]
  {
  }

  /** The next character to look at, and the text once it has been escaped or passed over. */
  lemma EscapeStep(val: string, done: nat, modified: string)
    requires done <= |val| && modified == Escaped(val[..done]) + val[done..]
    ensures done < |val| <==> |Escaped(val[..done])| < |modified|
    ensures done < |val| ==>
      var i := |Escaped(val[..done])|;
      && modified[i] == val[done]
      && |Escaped(val[..done + 1])| == i + (if IsSymbol(val[done]) then 2 else 1)
      && Escaped(val[..done + 1]) + val[done + 1..]
         == (if IsSymbol(val[done]) then modified[..i] + [ARR_DELIM] + modified[i..] else modified)
  {
    if done < |val| {
      SplitAt(val, done);
      EscapedGrows(val[..done], val[done]);
      hide Escaped;
      var e := Escaped(val[..done]);
      assert modified[..|e|] == e && modified[|e|..] == val[done..];
    }
  }

  /** String::operator std::string: insert an escape before each symbol, in place. */
  method EscapeInPlace(val: string) returns (modified: string)
    ensures modified == Escaped(val)
  {
    hide Escaped;
    modified := val;
    var i, n := 0, |modified|;
    NothingEscaped(val);
    ghost var done := 0;
    while i < n
      invariant 0 <= done <= |val| && n == |modified|
      invariant i == |Escaped(val[..done])|
      invariant modified == Escaped(val[..done]) + val[done..]
      decreases |val| - done
    {
      EscapeStep(val, done, modified);
      if modified[i] == ARR_BEGIN || modified[i] == ARR_END || modified[i] == ARR_DELIM || modified[i] == PAIR_DELIM {
        modified := modified[..i] + [ARR_DELIM] + modified[i..];
        i := i + 1;
        n := n + 1;
      }
      i := i + 1;
      done := done + 1;
    }
    assert val[..|val|] == val;
  }

  /** A string can be read back from its escaped form. */
  lemma {:induction false} UnescapeUndoesEscape(s: string)
    ensures Unescaped(Escaped(s)) == s
    decreases |s|
  {
    if s != "" {
      UnescapeUndoesEscape(s[1..]);
      var e, rest := EscapedChar(s[0]), Escaped(s[1..]);
      assert (e + rest)[|e|..] == rest;
    }
  }

  lemma {:induction false} EscapedConcat(s: string, t: string)
    ensures Escaped(s + t) == Escaped(s) + Escaped(t)
    decreases |s|
  {
    hide EscapedChar;
    if s == "" {
      assert s + t == t;
    } else {
      EscapedConcat(s[1..], t);
      assert (s + t)[1..] == s[1..] + t;
      assert Escaped(s + t) == EscapedChar(s[0]) + (Escaped(s[1..]) + Escaped(t));
    }
  }

  /** Where character i of the raw text stands in the escaped text: right behind an escape if it is a
      bracket, a backslash or a colon, and by itself otherwise.  Nothing else is in the escaped text:
      the characters stand side by side from its beginning to its end. */
  lemma EscapedAt(s: string, i: nat)
    requires i < |s|
    ensures
      var t, at, next := Escaped(s), |Escaped(s[..i])|, |Escaped(s[..i + 1])|;
      && 0 <= at < next <= |t|
      && (if s[i] in "[]\\:" then next == at + 2 && t[at] == '\\' && t[at + 1] == s[i]
          else next == at + 1 && t[at] == s[i])
    ensures Escaped(s[..0]) == "" && Escaped(s[..|s|]) == Escaped(s)
  {
    NothingEscaped(s);
    SplitAt(s, i);
    EscapedGrows(s[..i], s[i]);
    EscapedConcat(s[..i + 1], s[i + 1..]);
    assert s[..i + 1] + s[i + 1..] == s && s[..|s|] == s;
    hide Escaped;
  }

  // ---------------------------------------------------------------- pairs

  /** The text of a pair of Strings under the default delimiter. */
  function PairText(left: string, right: string): string {
    Escaped(left) + [PAIR_DELIM] + Escaped(right)
  }

  /** The position of the first delimiter that is not escaped, or the length of the text. */
  function PairCut(t: string): (cut: nat)
    ensures cut <= |t|
    decreases |t|
  {
    if t == "" || t[0] == PAIR_DELIM then 0
    else if t[0] == ARR_DELIM && |t| > 1 then 2 + PairCut(t[2..])
    else 1 + PairCut(t[1..])
  }

  function ReadPair(t: string): (string, string) {
    var cut := PairCut(t);
    (Unescaped(t[..cut]), if cut < |t| then Unescaped(t[cut + 1..]) else "")
  }

  lemma {:induction false} CutAfterEscaped(s: string, rest: string)
    ensures PairCut(Escaped(s) + [PAIR_DELIM] + rest) == |Escaped(s)|
    decreases |s|
  {
    var tail := [PAIR_DELIM] + rest;
    if s == "" {
      assert Escaped(s) + [PAIR_DELIM] + rest == tail;
    } else {
      CutAfterEscaped(s[1..], rest);
      var e, after := EscapedChar(s[0]), Escaped(s[1..]) + [PAIR_DELIM] + rest;
      assert Escaped(s) + [PAIR_DELIM] + rest == e + after;
      assert (e + after)[|e|..] == after;
    }
  }

  /** A printed pair determines both raw strings. */
  lemma ReadPairUndoesPrint(left: string, right: string)
    ensures ReadPair(PairText(left, right)) == (left, right)
    ensures PairText(left, right) == Escaped(left) + ":" + Escaped(right)
  {
    CutAfterEscaped(left, Escaped(right));
    UnescapeUndoesEscape(left);
    UnescapeUndoesEscape(right);
    var t, cut := PairText(left, right), |Escaped(left)|;
    assert t[..cut] == Escaped(left) && t[cut + 1..] == Escaped(right);
  }
}
