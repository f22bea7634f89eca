/** Lines of a text, and what the newline index says about them. */
module Lines {
  import opened Utf8
  import opened LineIndex

  /** The text cut behind every newline. */
  function SplitLines(s: seq<char>): (r: seq<seq<char>>)
    ensures r != []
  {
    if s == [] then [[]] else
    var ls, c := SplitLines(s[..|s| - 1]), s[|s| - 1];
    ls[..|ls| - 1] + [ls[|ls| - 1] + [c]] + if c == '\n' then [[]] else []
  }

  function Flatten(ls: seq<seq<char>>): seq<char> {
    if ls == [] then [] else Flatten(ls[..|ls| - 1]) + ls[|ls| - 1]
  }

  /** The character offset of newline `k`. */
  function NewlineAt(s: seq<char>, k: nat): (p: nat)
    requires k < NewlineCount(s)
    ensures p < |s| && s[p] == '\n' && NewlineCount(s[..p]) == k
  {
    var s' := s[..|s| - 1];
    if k == NewlineCount(s') then |s'|
    else
      var p := NewlineAt(s', k);
      assert s'[..p] == s[..p];
      p
  }

  /** The character offset at which line `k` starts. */
  function LineStart(s: seq<char>, k: nat): (p: nat)
    requires k <= NewlineCount(s)
    ensures p <= |s|
  {
    if k == 0 then 0 else NewlineAt(s, k - 1) + 1
  }

  /** The character offset behind line `k`, whose newline belongs to it. */
  function LineEnd(s: seq<char>, k: nat): (p: nat)
    requires k <= NewlineCount(s)
    ensures p <= |s|
  {
    if k < NewlineCount(s) then NewlineAt(s, k) + 1 else |s|
  }

  lemma {:induction false} FlattenAppend(ls: seq<seq<char>>, l: seq<char>)
    ensures Flatten(ls + [l]) == Flatten(ls) + l
  {
    assert (ls + [l])[..|ls|] == ls;
  }

  /** The lines of a text put together are the text; there is one more of them than newlines. */
  lemma {:induction false} LinesFlatten(s: seq<char>)
    ensures Flatten(SplitLines(s)) == s
    ensures |SplitLines(s)| == NewlineCount(s) + 1
    decreases |s|
  {
    hide Flatten;
    if s == [] {
      FlattenNone();
    } else {
      var s', c := s[..|s| - 1], s[|s| - 1];
      var ls := SplitLines(s');
      LinesFlatten(s');
      var front, last := ls[..|ls| - 1], ls[|ls| - 1];
      var grown := front + [last + [c]];
      assert ls == front + [last];
      FlattenAppend(front, last);
      FlattenAppend(front, last + [c]);
      Assoc(Flatten(front), last, [c]);
      assert Flatten(grown) == s' + [c] == s;
      if c == '\n' {
        FlattenAppend(grown, []);
        assert s + [] == s;
      } else {
        assert grown + [] == grown;
      }
    }
  }

  lemma FlattenNone()
    ensures Flatten([[]]) == []
  {
    var none: seq<seq<char>> := [[]];
    assert none[..0] == [];
  }

  lemma {:induction false} NewlineAtPrefix(s: seq<char>, k: nat)
    requires s != [] && k < NewlineCount(s[..|s| - 1])
    ensures NewlineAt(s, k) == NewlineAt(s[..|s| - 1], k)
  {
  }

  lemma {:induction false} NewlineAtLast(s: seq<char>)
    requires s != []
    ensures s[|s| - 1] == '\n' ==> NewlineAt(s, NewlineCount(s[..|s| - 1])) == |s| - 1
  {
  }

  /** One more character leaves the lines before the last one alone and extends the last one. */
  lemma LinesGrow(s: seq<char>, k: nat)
    requires s != [] && k <= NewlineCount(s[..|s| - 1])
    ensures var s' := s[..|s| - 1];
      var n := NewlineCount(s');
      && |SplitLines(s')| == n + 1 && |SplitLines(s)| == NewlineCount(s) + 1
      && LineStart(s, k) == LineStart(s', k)
      && LineEnd(s, k) == LineEnd(s', k) + (if k == n then 1 else 0)
      && SplitLines(s)[k] == SplitLines(s')[k] + if k == n then [s[|s| - 1]] else []
  {
    hide Flatten, NewlineAt;
    LinesFlatten(s);
    LinesFlatten(s[..|s| - 1]);
    NewlineAtLast(s);
    if k > 0 { NewlineAtPrefix(s, k - 1); }
    if k < NewlineCount(s[..|s| - 1]) { NewlineAtPrefix(s, k); }
  }

  /** Line `k` is the text between where it starts and where it ends. */
  lemma {:induction false} LineIsBetween(s: seq<char>, k: nat)
    requires k <= NewlineCount(s)
    ensures |SplitLines(s)| == NewlineCount(s) + 1
    ensures LineStart(s, k) <= LineEnd(s, k)
    ensures SplitLines(s)[k] == s[LineStart(s, k)..LineEnd(s, k)]
    decreases |s|
  {
    hide Flatten, NewlineAt;
    LinesFlatten(s);
    if s != [] {
      var s' := s[..|s| - 1];
      if k <= NewlineCount(s') {
        hide SplitLines, LineStart, LineEnd;
        LineIsBetween(s', k);
        LinesGrow(s, k);
      } else {
        NewlineAtLast(s);
      }
    }
  }

  /** The line that holds the first character of line `k` is line `k`. */
  lemma {:induction false} LineOfLineStart(s: seq<char>, k: nat)
    requires k <= NewlineCount(s)
    ensures NewlineCount(s[..LineStart(s, k)]) == k
  {
    if k > 0 {
      var p := NewlineAt(s, k - 1);
      assert s[..p + 1][..p] == s[..p];
    } else {
      assert s[..0] == [];
    }
  }

  /** A character offset is on the line that counting newlines finds. */
  lemma {:induction false} OnItsLine(s: seq<char>, c: nat)
    requires c <= |s|
    ensures var k := NewlineCount(s[..c]);
      k <= NewlineCount(s) && LineStart(s, k) <= c && (c < LineEnd(s, k) || (k == NewlineCount(s) && c == |s|))
    decreases |s|
  {
    if c == |s| {
      assert s[..c] == s;
    } else {
      var s' := s[..|s| - 1];
      OnItsLine(s', c);
      assert s'[..c] == s[..c];
      var k := NewlineCount(s[..c]);
      if k > 0 { NewlineAtPrefix(s, k - 1); }
      if k < NewlineCount(s') { NewlineAtPrefix(s, k); }
    }
  }

  /** The entries of the index hold the offsets of the newlines, in order. */
  lemma IndexHoldsNewlines(left: seq<char>, right: seq<char>, gap: nat)
    ensures var es, t := RawEndings(left, right, ByteLen(left) + gap), left + right;
      && |es| == NewlineCount(t)
      && forall i :: 0 <= i < |es| ==> es[i] == Ending(RawOf(left, right, gap, NewlineAt(t, i)), NewlineAt(t, i))
  {
    hide RawEndings, RawOf;
    var es, t := RawEndings(left, right, ByteLen(left) + gap), left + right;
    RawEndingsCount(left, right, ByteLen(left) + gap);
    forall i | 0 <= i < |es|
      ensures es[i] == Ending(RawOf(left, right, gap, NewlineAt(t, i)), NewlineAt(t, i))
    {
      RawEndingsComplete(left, right, gap, NewlineAt(t, i));
    }
  }

  /** The newlines before a character offset are those whose own offsets are smaller. */
  lemma NewlinesBefore(s: seq<char>, c: nat, k: nat)
    requires c <= |s| && k <= NewlineCount(s)
    requires k > 0 ==> NewlineAt(s, k - 1) < c
    requires k < NewlineCount(s) ==> c <= NewlineAt(s, k)
    ensures NewlineCount(s[..c]) == k
  {
    hide NewlineCount, NewlineAt;
    NoNewlines();
    if k > 0 {
      var p := NewlineAt(s, k - 1);
      CountMonotone(s, p + 1, c);
      CountStep(s, p);
    }
    if k < NewlineCount(s) {
      CountMonotone(s, c, NewlineAt(s, k));
    } else {
      CountMonotone(s, c, |s|);
      assert s[..|s|] == s;
    }
  }

  /** The first newline at or behind a character, or the end. */
  function NextNewline(s: seq<char>, c: nat): (p: nat)
    requires c <= |s|
    ensures c <= p <= |s| && '\n' !in s[c..p] && (p < |s| ==> s[p] == '\n')
    decreases |s| - c
  {
    if c == |s| || s[c] == '\n' then c
    else
      assert s[c..NextNewline(s, c + 1)] == [s[c]] + s[c + 1..NextNewline(s, c + 1)];
      NextNewline(s, c + 1)
  }

  /** Up to the next newline the count stays the same. */
  lemma {:induction false} NextNewlineIs(s: seq<char>, c: nat, p: nat)
    requires c <= p <= |s| && NewlineCount(s[..c]) == NewlineCount(s[..p]) && (p < |s| ==> s[p] == '\n')
    ensures NextNewline(s, c) == p
    decreases p - c
  {
    if c < p {
      CountStep(s, c);
      CountMonotone(s, c + 1, p);
      NextNewlineIs(s, c + 1, p);
    }
  }

  lemma NewlinesIncrease(s: seq<char>, k: nat)
    requires 0 < k < NewlineCount(s)
    ensures NewlineAt(s, k - 1) < NewlineAt(s, k)
  {
    hide NewlineCount, NewlineAt;
    var p, q := NewlineAt(s, k - 1), NewlineAt(s, k);
    if q <= p {
      CountMonotone(s, q, p);
    }
  }

  lemma NoNewlines()
    ensures NewlineCount([]) == 0
  {
  }

  lemma CountStep(s: seq<char>, p: nat)
    requires p < |s|
    ensures NewlineCount(s[..p + 1]) == NewlineCount(s[..p]) + if s[p] == '\n' then 1 else 0
  {
    assert s[..p + 1][..p] == s[..p];
  }

  lemma CountMonotone(s: seq<char>, p: nat, q: nat)
    requires p <= q <= |s|
    ensures NewlineCount(s[..p]) <= NewlineCount(s[..q])
  {
    NewlineCountConcat(s[..p], s[p..q]);
    assert s[..q] == s[..p] + s[p..q];
  }
}
