/** The edit actions of a program, applied to a gap buffer from the last to the first. */
module Exec {
  import opened Basics
  import opened Utf8
  import opened GapBuffers
  import opened Buffers

  /** Offsets are in bytes. */
  datatype EditAction =
    | Insert(from: nat, s: seq<char>)
    | Remove(from: nat, to: nat)
    | Replace(from: nat, to: nat, s: seq<char>)

  /** A change in terms of characters: those from `from` up to `to` give way to `ins`. */
  datatype Change = Change(from: nat, to: nat, ins: seq<char>)

  /** The action `a` makes the change `c` to `t`. */
  ghost predicate Means(t: seq<char>, a: EditAction, c: Change) {
    && c.from <= c.to <= |t| && a.from == ByteLen(t[..c.from])
    && match a
       case Insert(_, s) => c.to == c.from && c.ins == s
       case Remove(_, to) => to == ByteLen(t[..c.to]) && c.ins == []
       case Replace(_, to, s) => to == ByteLen(t[..c.to]) && c.ins == s
  }

  /** Every change lies in `t` behind character `pos`, and they do not overlap. */
  predicate Fitting(t: seq<char>, pos: nat, changes: seq<Change>)
    decreases |changes|
  {
    pos <= |t| && (changes != [] ==> pos <= changes[0].from <= changes[0].to && Fitting(t, changes[0].to, changes[1..]))
  }

  /** All changes made at the same time: what stays of `t` from `pos` on, with what is inserted in between. */
  function Substituted(t: seq<char>, pos: nat, changes: seq<Change>): seq<char>
    requires Fitting(t, pos, changes)
    decreases |changes|
  {
    if changes == [] then t[pos..]
    else
      var c := changes[0];
      assert Fitting(t, c.to, changes[1..]);
      t[pos..c.from] + c.ins + Substituted(t, c.to, changes[1..])
  }

  /** What an action adds to the number of characters, as it says itself. */
  function Delta(a: EditAction, c: Change): int {
    match a
    case Insert(_, s) => |s|
    case Remove(_, _) => c.from - c.to
    case Replace(from, to, s) => |s| - (to - from)
  }

  /** What it really adds. */
  function Growth(c: Change): int { |c.ins| - (c.to - c.from) }

  method ApplyInsert(ed: GapBuffer, from: nat, s: seq<char>, ghost c: nat) returns (delta: int)
    requires ed.Valid() && c <= |ed.Text()| && from == ByteLen(ed.Text()[..c])
    modifies ed, ed.data
    ensures ed.Valid() && (ed.data == old(ed.data) || fresh(ed.data))
    ensures ed.Text() == old(ed.Text()[..c] + s + ed.Text()[c..])
    ensures delta == |s|
  {
    ed.InCharStarting(c);
    var f := ed.ByteToChar(from, c);
    hide GapBuffer.Valid;
    ed.InsertStr(f, s);
    delta := |s|;
  }

  method ApplyRemove(ed: GapBuffer, from: nat, to: nat, ghost c: nat, ghost d: nat) returns (delta: int)
    requires ed.Valid() && c <= d <= |ed.Text()| && from == ByteLen(ed.Text()[..c]) && to == ByteLen(ed.Text()[..d])
    modifies ed, ed.data
    ensures ed.Valid() && ed.data == old(ed.data)
    ensures ed.Text() == old(ed.Text()[..c] + ed.Text()[d..])
    ensures delta == c - d
  {
    ed.InCharStarting(c);
    ed.InCharStarting(d);
    var f := ed.ByteToChar(from, c);
    var g := ed.ByteToChar(to, d);
    hide GapBuffer.Valid;
    ed.RemoveRange(f, g);
    var removed: int := g - f;
    delta := -removed;
  }

  method Apply(ed: GapBuffer, a: EditAction, ghost c: Change) returns (delta: int)
    requires ed.Valid() && Means(ed.Text(), a, c)
    modifies ed, ed.data
    ensures ed.Valid() && (ed.data == old(ed.data) || fresh(ed.data))
    ensures ed.Text() == old(ed.Text()[..c.from]) + c.ins + old(ed.Text()[c.to..])
    ensures delta == Delta(a, c)
  {
    hide GapBuffer.Valid, GapBuffer.Text, ByteLen;
    ghost var t := ed.Text();
    match a
    case Insert(from, s) => delta := ApplyInsert(ed, from, s, c.from);
    case Remove(from, to) =>
      delta := ApplyRemove(ed, from, to, c.from, c.to);
      assert t[..c.from] + c.ins == t[..c.from];
    case Replace(from, to, s) =>
      var removed := ApplyRemove(ed, from, to, c.from, c.to);
      ghost var u := ed.Text();
      assert u[..c.from] == t[..c.from] && u[c.from..] == t[c.to..];
      var nChars := ApplyInsert(ed, from, s, c.from);
      delta := nChars - (to - from);
  }

  /** The dot that an action leads to; None where the source's subtraction underflows. */
  method AsDot(ed: GapBuffer, a: EditAction, ghost c: Change) returns (r: Option<Dot>)
    requires ed.Valid() && Means(ed.Text(), a, c)
    ensures r == DotOf(a, c)
  {
    ed.InCharStarting(c.from);
    var from := ed.ByteToChar(a.from, c.from);
    if a.Remove? {
      return Some(AtRange(FromCursors(from, from, false)));
    }
    var nChars := |a.s|;
    return if from + nChars == 0 then None else Some(AtRange(FromCursors(from, from + nChars - 1, false)));
  }

  function DotOf(a: EditAction, c: Change): Option<Dot> {
    if a.Remove? then Some(AtRange(FromCursors(c.from, c.from, false)))
    else if c.from + |c.ins| == 0 then None
    else Some(AtRange(FromCursors(c.from, c.from + |c.ins| - 1, false)))
  }

  // ---------------------------------------------------------------- all actions

  /** The first character that the changes from `k` on change. */
  function Start(t: seq<char>, changes: seq<Change>, k: nat): nat
    requires k <= |changes|
  {
    if k < |changes| then changes[k].from else |t|
  }

  lemma {:induction false} FittingAt(t: seq<char>, pos: nat, changes: seq<Change>, k: nat)
    requires Fitting(t, pos, changes) && k <= |changes|
    ensures pos <= Start(t, changes, k) <= |t| && Fitting(t, Start(t, changes, k), changes[k..])
    ensures k > 0 ==> pos <= changes[k - 1].from <= changes[k - 1].to <= Start(t, changes, k)
    ensures k > 0 ==> Fitting(t, changes[k - 1].to, changes[k..])
    decreases k
  {
    if k == 0 {
      assert changes[0..] == changes;
    } else {
      assert changes[1..][k - 1..] == changes[k..];
      FittingAt(t, changes[0].to, changes[1..], k - 1);
      if k > 1 {
        assert changes[1..][k - 2] == changes[k - 1];
      }
      if k == 1 {
        FittingHead(t, changes[0].to, changes[1..]);
      }
    }
  }

  lemma {:induction false} FittingHead(t: seq<char>, pos: nat, changes: seq<Change>)
    requires Fitting(t, pos, changes)
    ensures pos <= Start(t, changes, 0)
  {
  }

  /** What is in front of the first change stays. */
  lemma {:induction false} SubstitutedFrom(t: seq<char>, pos: nat, at: nat, changes: seq<Change>)
    requires Fitting(t, pos, changes) && pos <= at <= Start(t, changes, 0)
    ensures Fitting(t, at, changes)
    ensures Substituted(t, pos, changes) == t[pos..at] + Substituted(t, at, changes)
  {
    if changes != [] {
      var c := changes[0];
      assert t[pos..c.from] == t[pos..at] + t[at..c.from];
    }
  }

  /** The text once the changes from `k` on are made. */
  function MadeFrom(t: seq<char>, changes: seq<Change>, k: nat): seq<char>
    requires k <= |changes| && Fitting(t, 0, changes)
  {
    FittingAt(t, 0, changes, k);
    t[..Start(t, changes, k)] + Substituted(t, Start(t, changes, k), changes[k..])
  }

  lemma SplitAround(t: seq<char>, at: nat, tail: seq<char>, i: nat)
    requires i <= at <= |t|
    ensures var u := t[..at] + tail; u[..i] == t[..i] && u[i..] == t[i..at] + tail
  {
  }

  /** An action means the same when the changes behind it have been made, and makes the next step. */
  lemma AppliedStep(t: seq<char>, a: EditAction, changes: seq<Change>, k: nat)
    requires k < |changes| && Fitting(t, 0, changes) && Means(t, a, changes[k])
    ensures Means(MadeFrom(t, changes, k + 1), a, changes[k])
    ensures var u, c := MadeFrom(t, changes, k + 1), changes[k];
      MadeFrom(t, changes, k) == u[..c.from] + c.ins + u[c.to..]
  {
    hide ByteLen;
    FittingAt(t, 0, changes, k + 1);
    var u, c, at := MadeFrom(t, changes, k + 1), changes[k], Start(t, changes, k + 1);
    var tail := Substituted(t, at, changes[k + 1..]);
    SplitAround(t, at, tail, c.from);
    SplitAround(t, at, tail, c.to);
    assert changes[k + 1..] != [] ==> changes[k + 1..][0] == changes[k + 1];
    SubstitutedFrom(t, c.to, at, changes[k + 1..]);
    FittingAt(t, 0, changes, k);
    assert changes[k..][0] == c && changes[k..][1..] == changes[k + 1..];
    assert Substituted(t, c.from, changes[k..]) == c.ins + u[c.to..];
  }

  lemma {:induction false} AppliedNone(t: seq<char>, changes: seq<Change>)
    requires Fitting(t, 0, changes)
    ensures MadeFrom(t, changes, |changes|) == t
  {
  }

  lemma {:induction false} AppliedWhole(t: seq<char>, changes: seq<Change>)
    requires Fitting(t, 0, changes)
    ensures MadeFrom(t, changes, 0) == Substituted(t, 0, changes)
  {
    assert changes[0..] == changes;
    FittingAt(t, 0, changes, 0);
    SubstitutedFrom(t, 0, Start(t, changes, 0), changes);
  }

  /** The sum that the actions from `k` up to `n` report. */
  function DeltaSum(actions: seq<EditAction>, changes: seq<Change>, k: nat, n: nat): int
    requires k <= n <= |actions| && n <= |changes|
    decreases n - k
  {
    if k == n then 0 else Delta(actions[k], changes[k]) + DeltaSum(actions, changes, k + 1, n)
  }

  /** The conversion of an isize to a usize. */
  function AsUsize(x: int): nat
    requires -USIZE_VALUES <= x
  {
    if x < 0 then x + USIZE_VALUES else x
  }

  function FinalDot(dot: Dot, delta: int, len: nat): Dot
    requires -USIZE_VALUES <= dot.First() + delta && -USIZE_VALUES <= dot.LastCur() + delta
  {
    AtRange(FromCursors(Min(AsUsize(dot.First() + delta), len), Min(AsUsize(dot.LastCur() + delta), len), false))
  }

  /** The dot when all actions are applied and the text has `len` characters. */
  function DotAfter(initial: Dot, actions: seq<EditAction>, changes: seq<Change>, len: nat): Dot
    requires |changes| == |actions|
    requires actions != [] ==> DotOf(actions[|actions| - 1], changes[|actions| - 1]).Some?
    requires actions != [] ==> ISIZE_MIN <= DeltaSum(actions, changes, 0, |actions| - 1)
  {
    var n := |actions|;
    if n == 0 then FinalDot(initial, 0, len)
    else FinalDot(DotOf(actions[n - 1], changes[n - 1]).value, DeltaSum(actions, changes, 0, n - 1), len)
  }

  /** Applies actions in order of their position that do not overlap, last first: all changes are made
      as if at the same time. The result is None where the computation of the dot underflows. */
  method ApplyActions(ed: GapBuffer, initial: Dot, actions: seq<EditAction>, ghost changes: seq<Change>)
    returns (r: Option<Dot>)
    requires ed.Valid() && |changes| == |actions| && Fitting(ed.Text(), 0, changes)
    requires forall k :: 0 <= k < |actions| ==> Means(ed.Text(), actions[k], changes[k])
    requires actions != [] ==> ISIZE_MIN <= DeltaSum(actions, changes, 0, |actions| - 1)
    modifies ed, ed.data
    ensures ed.Valid() && (ed.data == old(ed.data) || fresh(ed.data))
    ensures var n := |actions|;
      r.None? <==> n > 0 && DotOf(actions[n - 1], changes[n - 1]).None?
    ensures r.Some? ==> ed.Text() == Substituted(old(ed.Text()), 0, changes)
    ensures r.Some? ==> r.value == DotAfter(initial, actions, changes, |ed.Text()|)
  {
    hide GapBuffer.Valid, GapBuffer.Text, Means, Fitting, Substituted, MadeFrom, Delta, DotOf;
    ghost var t := ed.Text();
    AppliedNone(t, changes);
    var rest, dot, delta: int := actions, initial, 0;
    if |rest| > 0 {
      ghost var c := changes[|rest| - 1];
      var last := rest[|rest| - 1];
      rest := rest[..|rest| - 1];
      AppliedStep(t, last, changes, |rest|);
      var d := AsDot(ed, last, c);
      if d.None? {
        return None;
      }
      dot := d.value;
      var own := Apply(ed, last, c);
    }
    for k := |rest| downto 0
      invariant ed.Valid() && (ed.data == old(ed.data) || fresh(ed.data))
      invariant ed.Text() == MadeFrom(t, changes, k)
      invariant delta == DeltaSum(actions, changes, k, |rest|)
    {
      AppliedStep(t, rest[k], changes, k);
      var d := Apply(ed, rest[k], changes[k]);
      delta := delta + d;
    }
    AppliedWhole(t, changes);
    assert ed.nChars == |ed.Text()| by {
      CountOf(ed);
    }
    var ixMax := ed.nChars;
    var from, to := AsUsize(dot.First() + delta), AsUsize(dot.LastCur() + delta);
    r := Some(AtRange(FromCursors(Min(from, ixMax), Min(to, ixMax), false)));
  }

  // ---------------------------------------------------------------- the dot

  function GrowthSum(changes: seq<Change>, n: nat): int
    requires n <= |changes|
  {
    if n == 0 then 0 else Growth(changes[0]) + GrowthSum(changes[1..], n - 1)
  }

  lemma {:induction false} SubstitutedFirst(t: seq<char>, pos: nat, changes: seq<Change>)
    requires Fitting(t, pos, changes) && changes != []
    ensures var c, rest := changes[0], changes[1..];
      && pos <= c.from <= c.to <= |t| && Fitting(t, c.to, rest)
      && Substituted(t, pos, changes) == t[pos..c.from] + c.ins + Substituted(t, c.to, rest)
      && (rest == [] ==> Substituted(t, c.to, rest) == t[c.to..])
  {
  }

  /** Where the text of the last change is in the result. */
  lemma {:induction false} LastInserted(t: seq<char>, pos: nat, changes: seq<Change>)
    requires Fitting(t, pos, changes) && changes != []
    ensures var n := |changes| - 1;
      var c, p, u := changes[n], changes[n].from - pos + GrowthSum(changes, n), Substituted(t, pos, changes);
      0 <= p && p + |c.ins| <= |u| && u[p..p + |c.ins|] == c.ins
    decreases |changes|
  {
    hide Substituted, Fitting, Growth, GrowthSum;
    var c, rest, n := changes[0], changes[1..], |changes| - 1;
    SubstitutedFirst(t, pos, changes);
    GrowthSumFirst(changes, n);
    var front, tail := t[pos..c.from], Substituted(t, c.to, rest);
    if n == 0 {
      SliceBehind(front, c.ins + tail, 0, |c.ins|);
      assert front + c.ins + tail == front + (c.ins + tail);
    } else {
      LastInserted(t, c.to, rest);
      assert rest[n - 1] == changes[n];
      SliceBehind(front + c.ins, tail, rest[n - 1].from - c.to + GrowthSum(rest, n - 1), |changes[n].ins|);
    }
  }

  /** What is behind the last change ends the result. */
  lemma {:induction false} LastRest(t: seq<char>, pos: nat, changes: seq<Change>)
    requires Fitting(t, pos, changes) && changes != []
    ensures var n := |changes| - 1;
      var c, u := changes[n], Substituted(t, pos, changes);
      var p := c.from - pos + GrowthSum(changes, n) + |c.ins|;
      0 <= p <= |u| && c.to <= |t| && u[p..] == t[c.to..]
    decreases |changes|
  {
    hide Substituted, Fitting, Growth, GrowthSum;
    var c, rest, n := changes[0], changes[1..], |changes| - 1;
    SubstitutedFirst(t, pos, changes);
    GrowthSumFirst(changes, n);
    var head, tail := t[pos..c.from] + c.ins, Substituted(t, c.to, rest);
    if n == 0 {
      RestBehind(head, tail, 0);
    } else {
      LastRest(t, c.to, rest);
      assert rest[n - 1] == changes[n];
      RestBehind(head, tail, rest[n - 1].from - c.to + GrowthSum(rest, n - 1) + |changes[n].ins|);
    }
  }

  lemma RestBehind(x: seq<char>, y: seq<char>, q: nat)
    requires q <= |y|
    ensures (x + y)[|x| + q..] == y[q..]
  {
  }

  lemma GrowthSumFirst(changes: seq<Change>, n: nat)
    requires n <= |changes|
    ensures GrowthSum(changes, n) == if n == 0 then 0
      else |changes[0].ins| - (changes[0].to - changes[0].from) + GrowthSum(changes[1..], n - 1)
  {
  }

  lemma SliceBehind(x: seq<char>, y: seq<char>, q: nat, m: nat)
    requires q + m <= |y|
    ensures (x + y)[|x| + q..|x| + q + m] == y[q..q + m]
  {
  }

  /** A replacement counts the bytes that it removes. */
  predicate CountsRightly(a: EditAction, c: Change) {
    a.Replace? ==> a.to - a.from == c.to - c.from
  }

  lemma DeltaBelow(t: seq<char>, a: EditAction, c: Change)
    requires Means(t, a, c)
    ensures Delta(a, c) <= Growth(c) && (Delta(a, c) == Growth(c) <==> CountsRightly(a, c))
  {
    hide EncodeAll;
    OffsetMonotone(t, c.from, c.to);
  }

  lemma {:induction false} DeltaSumBelow(t: seq<char>, actions: seq<EditAction>, changes: seq<Change>, k: nat, n: nat)
    requires k <= n <= |actions| == |changes| && forall i :: 0 <= i < |actions| ==> Means(t, actions[i], changes[i])
    ensures DeltaSum(actions, changes, k, n) <= GrowthSum(changes[k..], n - k)
    ensures DeltaSum(actions, changes, k, n) == GrowthSum(changes[k..], n - k)
      <==> forall i :: k <= i < n ==> CountsRightly(actions[i], changes[i])
    decreases n - k
  {
    if k < n {
      hide Means, Delta, Growth, CountsRightly;
      DeltaBelow(t, actions[k], changes[k]);
      assert changes[k..][0] == changes[k] && changes[k..][1..] == changes[k + 1..];
      DeltaSumBelow(t, actions, changes, k + 1, n);
    }
  }

  /** Of actions whose last one inserts something, the dot spans the inserted text exactly if every
      earlier replacement removes characters of one byte only; otherwise it starts too far in front, or
      at the end of the text where the start is negative. */
  lemma DotSpansInsertion(t: seq<char>, initial: Dot, actions: seq<EditAction>, changes: seq<Change>)
    requires |changes| == |actions| > 0 && Fitting(t, 0, changes)
    requires forall i :: 0 <= i < |actions| ==> Means(t, actions[i], changes[i])
    requires ISIZE_MIN <= DeltaSum(actions, changes, 0, |actions| - 1)
    requires |Substituted(t, 0, changes)| <= -ISIZE_MIN
    requires !actions[|actions| - 1].Remove? && changes[|actions| - 1].ins != []
    ensures var n, u := |actions| - 1, Substituted(t, 0, changes);
      var p, m := changes[n].from + GrowthSum(changes, n), |changes[n].ins|;
      && 0 <= p && p + m <= |u| && u[p..p + m] == changes[n].ins
      && changes[n].to <= |t| && u[p + m..] == t[changes[n].to..]
      && (DotAfter(initial, actions, changes, |u|) == AtRange(Range(p, p + m - 1, false))
        <==> forall i :: 0 <= i < n ==> CountsRightly(actions[i], changes[i]))
  {
    hide Means, Fitting, Substituted, CountsRightly, DeltaSum, GrowthSum;
    LastInserted(t, 0, changes);
    LastRest(t, 0, changes);
    DeltasBelow(t, actions, changes, |actions| - 1);
  }

  /** Of actions whose last one removes something, the dot is where that was exactly if every earlier replacement
      removes characters of one byte only, or the start is negative and it was at the end of the text. */
  lemma {:induction false} DotAtRemoval(t: seq<char>, initial: Dot, actions: seq<EditAction>, changes: seq<Change>)
    requires |changes| == |actions| > 0 && Fitting(t, 0, changes)
    requires forall i :: 0 <= i < |actions| ==> Means(t, actions[i], changes[i])
    requires ISIZE_MIN <= DeltaSum(actions, changes, 0, |actions| - 1)
    requires |Substituted(t, 0, changes)| <= -ISIZE_MIN
    requires actions[|actions| - 1].Remove?
    ensures var n, u := |actions| - 1, Substituted(t, 0, changes);
      var p := changes[n].from + GrowthSum(changes, n);
      && 0 <= p <= |u| && changes[n].to <= |t| && u[p..] == t[changes[n].to..]
      && (DotAfter(initial, actions, changes, |u|) == AtRange(Range(p, p, false)) <==>
        || (forall i :: 0 <= i < n ==> CountsRightly(actions[i], changes[i]))
        || (changes[n].from + DeltaSum(actions, changes, 0, n) < 0 && p == |u|))
  {
    hide Means, Fitting, Substituted, CountsRightly, DeltaSum, GrowthSum, FinalDot, DotAfter, FromCursors;
    var n := |actions| - 1;
    RemovesAll(t, actions[n], changes[n]);
    LastRest(t, 0, changes);
    DeltasBelow(t, actions, changes, n);
    RemovalDotIs(initial, actions, changes, GrowthSum(changes, n), |Substituted(t, 0, changes)|);
  }

  lemma {:induction false} RemovalDotIs(initial: Dot, actions: seq<EditAction>, changes: seq<Change>, growth: int,
      len: nat)
    requires |changes| == |actions| > 0 && actions[|actions| - 1].Remove?
    requires ISIZE_MIN <= DeltaSum(actions, changes, 0, |actions| - 1) <= growth
    requires 0 <= changes[|actions| - 1].from + growth <= len <= -ISIZE_MIN
    ensures var n, delta := |actions| - 1, DeltaSum(actions, changes, 0, |actions| - 1);
      var p := changes[n].from + growth;
      DotAfter(initial, actions, changes, len) == AtRange(Range(p, p, false)) <==>
        delta == growth || (changes[n].from + delta < 0 && p == len)
  {
    DotAfterRemoval(initial, actions, changes, len);
    hide DotAfter, DotOf, FinalDot, FromCursors, DeltaSum;
    var n := |actions| - 1;
    RemovalDot(changes[n].from, DeltaSum(actions, changes, 0, n), changes[n].from + growth, len);
  }

  lemma {:induction false} DotAfterRemoval(initial: Dot, actions: seq<EditAction>, changes: seq<Change>, len: nat)
    requires |changes| == |actions| > 0 && actions[|actions| - 1].Remove?
    requires ISIZE_MIN <= DeltaSum(actions, changes, 0, |actions| - 1)
    ensures var n := |actions| - 1;
      DotAfter(initial, actions, changes, len) == FinalDot(
        AtRange(FromCursors(changes[n].from, changes[n].from, false)), DeltaSum(actions, changes, 0, n), len)
  {
  }

  lemma {:induction false} DeltasBelow(t: seq<char>, actions: seq<EditAction>, changes: seq<Change>, n: nat)
    requires n <= |actions| == |changes| && forall i :: 0 <= i < |actions| ==> Means(t, actions[i], changes[i])
    ensures DeltaSum(actions, changes, 0, n) <= GrowthSum(changes, n)
    ensures DeltaSum(actions, changes, 0, n) == GrowthSum(changes, n)
      <==> forall i :: 0 <= i < n ==> CountsRightly(actions[i], changes[i])
  {
    DeltaSumBelow(t, actions, changes, 0, n);
    assert changes[0..] == changes;
  }

  lemma RemovalDot(from: nat, delta: int, p: int, len: nat)
    requires ISIZE_MIN <= delta && from + delta <= p && 0 <= p <= len <= -ISIZE_MIN
    ensures FinalDot(AtRange(FromCursors(from, from, false)), delta, len) == AtRange(Range(p, p, false))
      <==> from + delta == p || (from + delta < 0 && p == len)
  {
  }

  lemma RemovesAll(t: seq<char>, a: EditAction, c: Change)
    requires a.Remove? && Means(t, a, c)
    ensures c.ins == []
  {
  }

  /** An action that inserts nothing selects the character in front of it, and underflows at the start. */
  lemma DotOfNothing(a: EditAction, c: Change)
    ensures DotOf(a, c).None? <==> !a.Remove? && c.ins == [] && c.from == 0
    ensures !a.Remove? && c.ins == [] && c.from > 0 ==> DotOf(a, c) == Some(AtRange(Range(c.from - 1, c.from, true)))
  {
  }

  /** Without actions dot selects what it selected. */
  lemma DotUnmoved(initial: Dot, len: nat)
    requires initial.Within(len) && len <= -ISIZE_MIN
    ensures DotAfter(initial, [], [], len) == AtRange(Range(initial.First(), initial.LastCur(), false))
  {
  }
}
