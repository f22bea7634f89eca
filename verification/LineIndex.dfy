/** The index of newlines that the gap buffer keeps next to its bytes. */
module LineIndex {
  import opened Utf8

  /** The position of a newline: a raw byte offset and a character offset. */
  datatype Ending = Ending(byte: nat, chr: nat)

  /** The newlines of `s`, when its first character is at raw byte `b` and character `c`. */
  function Endings(s: seq<char>, b: nat, c: nat): (r: seq<Ending>)
    ensures |r| <= |s|
  {
    if s == [] then [] else
    var s' := s[..|s| - 1];
    Endings(s', b, c) + if s[|s| - 1] == '\n' then [Ending(b + ByteLen(s'), c + |s'|)] else []
  }

  function NewlineCount(s: seq<char>): nat {
    if s == [] then 0 else
    NewlineCount(s[..|s| - 1]) + if s[|s| - 1] == '\n' then 1 else 0
  }

  lemma {:induction false} EndingsConcat(s: seq<char>, t: seq<char>, b: nat, c: nat)
    ensures Endings(s + t, b, c) == Endings(s, b, c) + Endings(t, b + ByteLen(s), c + |s|)
    decreases |t|
  {
    if t == [] {
      assert s + t == s;
    } else {
      var t' := t[..|t| - 1];
      EndingsConcat(s, t', b, c);
      EncodeAllConcat(s, t');
      assert (s + t)[..|s + t| - 1] == s + t';
    }
  }

  lemma {:induction false} EndingsOne(ch: char, b: nat, c: nat)
    ensures Endings([ch], b, c) == if ch == '\n' then [Ending(b, c)] else []
  {
    assert [ch][..0] == [];
  }

  /** Moving a text moves every entry by the same amounts. */
  lemma {:induction false} EndingsMove(s: seq<char>, b: nat, c: nat, b': nat, c': nat)
    ensures |Endings(s, b', c')| == |Endings(s, b, c)|
    ensures forall i :: 0 <= i < |Endings(s, b, c)| ==>
      && Endings(s, b', c')[i].byte - b' == Endings(s, b, c)[i].byte - b
      && Endings(s, b', c')[i].chr - c' == Endings(s, b, c)[i].chr - c
    decreases |s|
  {
    if s != [] {
      EndingsMove(s[..|s| - 1], b, c, b', c');
    }
  }

  /** Every entry is a newline, at its character offset and at its byte offset. */
  lemma {:induction false} EndingsSound(s: seq<char>, b: nat, c: nat)
    ensures forall i :: 0 <= i < |Endings(s, b, c)| ==>
      var e := Endings(s, b, c)[i];
      && c <= e.chr < c + |s|
      && s[e.chr - c] == '\n'
      && e.byte == b + ByteLen(s[..e.chr - c])
      && e.byte < b + ByteLen(s)
    decreases |s|
  {
    if s != [] {
      var n := |s| - 1;
      EndingsSound(s[..n], b, c);
      forall i | 0 <= i < |Endings(s, b, c)|
        ensures var e := Endings(s, b, c)[i];
          c <= e.chr < c + |s| && s[e.chr - c] == '\n' && e.byte == b + ByteLen(s[..e.chr - c]) &&
            e.byte < b + ByteLen(s)
      {
        if i < |Endings(s[..n], b, c)| {
          var e := Endings(s[..n], b, c)[i];
          assert e == Endings(s, b, c)[i];
          assert s[..n][..e.chr - c] == s[..e.chr - c];
        }
      }
    }
  }

  lemma {:induction false} EndingsIncreasing(s: seq<char>, b: nat, c: nat)
    ensures forall i, j :: 0 <= i < j < |Endings(s, b, c)| ==>
      && Endings(s, b, c)[i].byte < Endings(s, b, c)[j].byte
      && Endings(s, b, c)[i].chr < Endings(s, b, c)[j].chr
    decreases |s|
  {
    if s != [] {
      EndingsIncreasing(s[..|s| - 1], b, c);
      EndingsSound(s[..|s| - 1], b, c);
    }
  }

  /** The entry number of a newline is the number of newlines before it. */
  lemma {:induction false} EndingsComplete(s: seq<char>, b: nat, c: nat, p: nat)
    requires p < |s| && s[p] == '\n'
    ensures NewlineCount(s[..p]) < |Endings(s, b, c)|
    ensures Endings(s, b, c)[NewlineCount(s[..p])] == Ending(b + ByteLen(s[..p]), c + p)
    decreases |s|
  {
    var n := |s| - 1;
    if p == n {
      EndingsCount(s[..n], b, c);
    } else {
      EndingsComplete(s[..n], b, c, p);
      assert s[..n][..p] == s[..p];
    }
  }

  lemma {:induction false} EndingsCount(s: seq<char>, b: nat, c: nat)
    ensures |Endings(s, b, c)| == NewlineCount(s)
    decreases |s|
  {
    if s != [] {
      EndingsCount(s[..|s| - 1], b, c);
    }
  }

  lemma {:induction false} NewlineCountConcat(s: seq<char>, t: seq<char>)
    ensures NewlineCount(s + t) == NewlineCount(s) + NewlineCount(t)
    decreases |t|
  {
    if t == [] {
      assert s + t == s;
    } else {
      assert (s + t)[..|s + t| - 1] == s + t[..|t| - 1];
      NewlineCountConcat(s, t[..|t| - 1]);
    }
  }

  // ---------------------------------------------------------------- across the gap

  /** The whole index of a buffer whose gap ends at raw byte `gapEnd`. */
  function RawEndings(left: seq<char>, right: seq<char>, gapEnd: nat): seq<Ending> {
    Endings(left, 0, 0) + Endings(right, gapEnd, |left|)
  }

  /** The raw byte at which character `c` starts, found by walking from the start. */
  function RawOf(left: seq<char>, right: seq<char>, gap: nat, c: nat): nat
    requires c <= |left| + |right|
  {
    ByteLen((left + right)[..c]) + if c < |left| then 0 else gap
  }

  ghost predicate Increasing(es: seq<Ending>) {
    forall i, j :: 0 <= i < j < |es| ==> es[i].byte < es[j].byte && es[i].chr < es[j].chr
  }

  lemma RawOfRight(left: seq<char>, right: seq<char>, gap: nat, p: nat)
    requires p <= |right|
    ensures RawOf(left, right, gap, |left| + p) == ByteLen(left) + gap + ByteLen(right[..p])
  {
    assert (left + right)[..|left| + p] == left + right[..p];
    EncodeAllConcat(left, right[..p]);
  }

  lemma RawEndingsSound(left: seq<char>, right: seq<char>, gap: nat)
    ensures var es := RawEndings(left, right, ByteLen(left) + gap);
      forall i :: 0 <= i < |es| ==>
        && es[i].chr < |left| + |right|
        && (left + right)[es[i].chr] == '\n'
        && es[i].byte == RawOf(left, right, gap, es[i].chr)
        && (i < |Endings(left, 0, 0)| <==> es[i].chr < |left|)
  {
    hide Endings, EncodeAll;
    var gapEnd := ByteLen(left) + gap;
    var es := RawEndings(left, right, gapEnd);
    EndingsSound(left, 0, 0);
    EndingsSound(right, gapEnd, |left|);
    forall i | 0 <= i < |es|
      ensures es[i].chr < |left| + |right| && (left + right)[es[i].chr] == '\n'
      ensures es[i].byte == RawOf(left, right, gap, es[i].chr)
      ensures i < |Endings(left, 0, 0)| <==> es[i].chr < |left|
    {
      if i < |Endings(left, 0, 0)| {
        assert (left + right)[..es[i].chr] == left[..es[i].chr];
      } else {
        assert es[i] == Endings(right, gapEnd, |left|)[i - |Endings(left, 0, 0)|];
        RawOfRight(left, right, gap, es[i].chr - |left|);
      }
    }
  }

  lemma RawEndingsIncreasing(left: seq<char>, right: seq<char>, gapEnd: nat)
    requires ByteLen(left) <= gapEnd
    ensures Increasing(RawEndings(left, right, gapEnd))
  {
    EndingsSound(left, 0, 0);
    EndingsSound(right, gapEnd, |left|);
    EndingsIncreasing(left, 0, 0);
    EndingsIncreasing(right, gapEnd, |left|);
  }

  /** The entries before a newline are as many as the newlines before it. */
  lemma RawEndingsComplete(left: seq<char>, right: seq<char>, gap: nat, c: nat)
    requires c < |left| + |right| && (left + right)[c] == '\n'
    ensures var es := RawEndings(left, right, ByteLen(left) + gap);
      var i := NewlineCount((left + right)[..c]);
      i < |es| && es[i] == Ending(RawOf(left, right, gap, c), c)
  {
    hide Endings, EncodeAll, NewlineCount;
    var t := left + right;
    if c < |left| {
      EndingsComplete(left, 0, 0, c);
      assert t[..c] == left[..c];
    } else {
      var p := c - |left|;
      EndingsComplete(right, ByteLen(left) + gap, |left|, p);
      assert t[..c] == left + right[..p];
      NewlineCountConcat(left, right[..p]);
      EndingsCount(left, 0, 0);
      RawOfRight(left, right, gap, p);
    }
  }

  lemma {:induction false} RawEndingsCount(left: seq<char>, right: seq<char>, gapEnd: nat)
    ensures |RawEndings(left, right, gapEnd)| == NewlineCount(left + right)
  {
    EndingsCount(left, 0, 0);
    EndingsCount(right, gapEnd, |left|);
    NewlineCountConcat(left, right);
  }

  /** Later characters start at later raw bytes. */
  lemma RawOfMonotone(left: seq<char>, right: seq<char>, gap: nat, p: nat, q: nat)
    requires p < q <= |left| + |right|
    ensures RawOf(left, right, gap, p) < RawOf(left, right, gap, q)
  {
    OffsetMonotone(left + right, p, q);
  }

  // ---------------------------------------------------------------- searching the index

  /** `partition_point(|(b, _)| *b < x)`: the number of entries before byte `x`. */
  function PartitionPoint(es: seq<Ending>, x: nat): (i: nat)
    requires Increasing(es)
    ensures i <= |es|
    ensures forall j :: 0 <= j < i ==> es[j].byte < x
    ensures forall j :: i <= j < |es| ==> x <= es[j].byte
  {
    if es == [] || es[|es| - 1].byte < x then |es|
    else PartitionPoint(es[..|es| - 1], x)
  }

  /** `partition_point(|(_, c)| *c < x)`. */
  function PartitionPointByChar(es: seq<Ending>, x: nat): (i: nat)
    requires Increasing(es)
    ensures i <= |es|
    ensures forall j :: 0 <= j < i ==> es[j].chr < x
    ensures forall j :: i <= j < |es| ==> x <= es[j].chr
  {
    if es == [] || es[|es| - 1].chr < x then |es|
    else PartitionPointByChar(es[..|es| - 1], x)
  }

  datatype SearchResult = Found(i: nat) | NotFound(i: nat)

  /** `binary_search_by_key(&x, |&(_, c)| c)`. */
  function BinarySearchByChar(es: seq<Ending>, x: nat): (r: SearchResult)
    requires Increasing(es)
    ensures r.Found? ==> r.i < |es| && es[r.i].chr == x
    ensures r.i <= |es|
    ensures r.NotFound? ==> forall j :: 0 <= j < r.i ==> es[j].chr < x
    ensures r.NotFound? ==> forall j :: r.i <= j < |es| ==> x < es[j].chr
  {
    var i := PartitionPointByChar(es, x);
    if i < |es| && es[i].chr == x then Found(i) else NotFound(i)
  }

  /** A partition point is where a split of the entries around `x` falls. */
  lemma {:induction false} PartitionAt(es: seq<Ending>, fs: seq<Ending>, x: nat)
    requires Increasing(es + fs)
    requires forall i :: 0 <= i < |es| ==> es[i].byte < x
    requires forall i :: 0 <= i < |fs| ==> x <= fs[i].byte
    ensures PartitionPoint(es + fs, x) == |es|
    decreases |fs|
  {
    if fs == [] {
      assert es + fs == es;
    } else {
      var fs' := fs[..|fs| - 1];
      assert (es + fs)[..|es + fs| - 1] == es + fs';
      PartitionAt(es, fs', x);
    }
  }

  // ---------------------------------------------------------------- what each edit does to the index

  /** Where a character offset falls relative to the gap. */
  lemma LayoutAt(left: seq<char>, right: seq<char>, c: nat)
    requires c <= |left| + |right|
    ensures var t := left + right;
      var b := ByteLen(t[..c]);
      && (c < |left| <==> b < ByteLen(left))
      && (c == |left| <==> b == ByteLen(left))
      && (c <= |left| ==> t[..c] == left[..c] && EncodeAll(left) == EncodeAll(left[..c]) + EncodeAll(left[c..]))
      && (|left| <= c ==>
            var p := c - |left|;
            && t[..c] == left + right[..p]
            && b == ByteLen(left) + ByteLen(right[..p])
            && EncodeAll(right) == EncodeAll(right[..p]) + EncodeAll(right[p..]))
  {
    var t := left + right;
    assert t[..|left|] == left;
    if c <= |left| {
      OffsetMonotone(t, c, |left|);
      assert t[..c] == left[..c];
      EncodeSplit(left, c);
    }
    if |left| <= c {
      OffsetMonotone(t, |left|, c);
      assert t[..c] == left + right[..c - |left|];
      EncodeAllConcat(left, right[..c - |left|]);
      EncodeSplit(right, c - |left|);
    }
  }

  /** Every entry lies in the raw byte range [lo, hi). */
  ghost predicate Within(es: seq<Ending>, lo: nat, hi: nat) {
    forall i :: 0 <= i < |es| ==> lo <= es[i].byte < hi
  }

  lemma {:induction false} EndingsWithin(s: seq<char>, b: nat, c: nat)
    ensures Within(Endings(s, b, c), b, b + ByteLen(s))
  {
    EndingsSound(s, b, c);
  }

  /** `fs` is `es` with the byte offsets from entry `from` up to entry `to` moved by `d`. */
  ghost predicate IsMoved(es: seq<Ending>, fs: seq<Ending>, from: nat, to: nat, d: int) {
    && |fs| == |es|
    && forall i :: 0 <= i < |es| ==>
         fs[i].chr == es[i].chr && fs[i].byte == es[i].byte + if from <= i < to then d else 0
  }

  lemma IsMovedUnique(es: seq<Ending>, fs: seq<Ending>, gs: seq<Ending>, from: nat, to: nat, d: int)
    requires IsMoved(es, fs, from, to, d) && IsMoved(es, gs, from, to, d)
    ensures fs == gs
  {
    forall i | 0 <= i < |es|
      ensures fs[i] == gs[i]
    {
    }
  }

  /** `fs` is `es` with the entries between raw bytes `x` and `y` moved by `d`. */
  ghost predicate MovesBetween(es: seq<Ending>, fs: seq<Ending>, x: nat, y: nat, d: int) {
    && Increasing(es)
    && PartitionPoint(es, x) <= PartitionPoint(es, y)
    && IsMoved(es, fs, PartitionPoint(es, x), PartitionPoint(es, y), d)
  }

  ghost predicate MovedRun(e2: seq<Ending>, f2: seq<Ending>, d: int) {
    |f2| == |e2| && forall i :: 0 <= i < |e2| ==> f2[i].byte == e2[i].byte + d && f2[i].chr == e2[i].chr
  }

  /** The middle of three runs of entries lies between the partition points at its two bounds. */
  lemma MoveMiddle(e1: seq<Ending>, e2: seq<Ending>, e3: seq<Ending>, f2: seq<Ending>, d: int, x: nat, y: nat, z: nat)
    requires Increasing(e1 + e2 + e3) && x <= y
    requires Within(e1, 0, x) && Within(e2, x, y) && Within(e3, y, z)
    requires MovedRun(e2, f2, d)
    ensures MovesBetween(e1 + e2 + e3, e1 + f2 + e3, x, y, d)
  {
    hide PartitionPoint;
    Assoc(e1, e2, e3);
    PartitionAt(e1, e2 + e3, x);
    PartitionAt(e1 + e2, e3, y);
  }

  lemma {:induction false} EndingsMovedRun(s: seq<char>, b: nat, c: nat, b': nat)
    ensures MovedRun(Endings(s, b, c), Endings(s, b', c), b' - b)
  {
    EndingsMove(s, b, c, b', c);
  }

  /** The index of a text in three runs, with the gap after the second run or before it. */
  lemma IndexOfThree(left: seq<char>, mid: seq<char>, right: seq<char>, gap: nat)
    ensures ByteLen(left + mid) == ByteLen(left) + ByteLen(mid)
    ensures var b, c := ByteLen(left), |left|;
      var e1, e3 := Endings(left, 0, 0), Endings(right, b + ByteLen(mid) + gap, c + |mid|);
      && RawEndings(left + mid, right, b + ByteLen(mid) + gap) == e1 + Endings(mid, b, c) + e3
      && RawEndings(left, mid + right, b + gap) == e1 + Endings(mid, b + gap, c) + e3
  {
    hide Endings, EncodeAll;
    var b, c := ByteLen(left), |left|;
    EncodeAllConcat(left, mid);
    EndingsConcat(left, mid, 0, 0);
    EndingsConcat(mid, right, b + gap, c);
    Assoc(Endings(left, 0, 0), Endings(mid, b + gap, c), Endings(right, b + ByteLen(mid) + gap, c + |mid|));
  }

  /** Moving the gap left over `mid` moves the entries of `mid`, and only those, up by the gap. */
  lemma IndexMovingLeft(left: seq<char>, mid: seq<char>, right: seq<char>, gap: nat)
    requires gap > 0
    ensures MovesBetween(RawEndings(left + mid, right, ByteLen(left + mid) + gap),
                         RawEndings(left, mid + right, ByteLen(left) + gap),
                         ByteLen(left), ByteLen(left + mid) + 1, gap)
  {
    hide Endings, EncodeAll, PartitionPoint;
    var b, c := ByteLen(left), |left|;
    var start := b + ByteLen(mid);
    IndexOfThree(left, mid, right, gap);
    RawEndingsIncreasing(left + mid, right, start + gap);
    EndingsWithin(left, 0, 0);
    EndingsWithin(mid, b, c);
    EndingsWithin(right, start + gap, c + |mid|);
    EndingsMovedRun(mid, b, c, b + gap);
    MoveMiddle(Endings(left, 0, 0), Endings(mid, b, c), Endings(right, start + gap, c + |mid|),
               Endings(mid, b + gap, c), gap, b, start + 1, start + gap + ByteLen(right));
  }

  /** Moving the gap right over `mid` moves the entries of `mid`, and only those, down by the gap. */
  lemma IndexMovingRight(left: seq<char>, mid: seq<char>, right: seq<char>, gap: nat)
    ensures MovesBetween(RawEndings(left, mid + right, ByteLen(left) + gap),
                         RawEndings(left + mid, right, ByteLen(left + mid) + gap),
                         ByteLen(left) + gap, ByteLen(left + mid) + gap, -(gap as int))
  {
    hide Endings, EncodeAll, PartitionPoint;
    var b, c := ByteLen(left), |left|;
    var y := b + ByteLen(mid) + gap;
    IndexOfThree(left, mid, right, gap);
    RawEndingsIncreasing(left, mid + right, b + gap);
    EndingsWithin(left, 0, 0);
    EndingsWithin(mid, b + gap, c);
    EndingsWithin(right, y, c + |mid|);
    EndingsMovedRun(mid, b + gap, c, b);
    MoveMiddle(Endings(left, 0, 0), Endings(mid, b + gap, c), Endings(right, y, c + |mid|),
               Endings(mid, b, c), -(gap as int), b + gap, y, y + ByteLen(right));
  }

  /** Growing the gap moves the entries behind it, which are those after raw byte `ByteLen(left)`. */
  lemma IndexGrowing(left: seq<char>, right: seq<char>, gap: nat, more: nat)
    requires gap > 0
    ensures MovesBetween(RawEndings(left, right, ByteLen(left) + gap),
                         RawEndings(left, right, ByteLen(left) + gap + more),
                         ByteLen(left) + 1, ByteLen(left) + gap + ByteLen(right), more)
    ensures var es := RawEndings(left, right, ByteLen(left) + gap);
      Increasing(es) && PartitionPoint(es, ByteLen(left) + gap + ByteLen(right)) == |es|
  {
    hide Endings, EncodeAll, PartitionPoint, MovesBetween;
    var b, c := ByteLen(left), |left|;
    var y := b + gap + ByteLen(right);
    RawEndingsIncreasing(left, right, b + gap);
    EndingsWithin(left, 0, 0);
    EndingsWithin(right, b + gap, c);
    EndingsMovedRun(right, b + gap, c, b + gap + more);
    var e1, e2 := Endings(left, 0, 0), Endings(right, b + gap, c);
    assert e1 + e2 + [] == e1 + e2;
    assert e1 + Endings(right, b + gap + more, c) + [] == e1 + Endings(right, b + gap + more, c);
    MoveMiddle(e1, e2, [], Endings(right, b + gap + more, c), more, b + 1, y, y);
    PartitionAt(e1 + e2, [], y);
  }

  /** `es` with the character offsets from entry `from` on moved by `d`. */
  ghost predicate CharsMoved(es: seq<Ending>, fs: seq<Ending>, from: nat, d: int) {
    && |fs| == |es|
    && forall i :: 0 <= i < |es| ==>
         fs[i].byte == es[i].byte && fs[i].chr == es[i].chr + if from <= i then d else 0
  }

  lemma CharsMovedUnique(es: seq<Ending>, fs: seq<Ending>, gs: seq<Ending>, from: nat, d: int)
    requires CharsMoved(es, fs, from, d) && CharsMoved(es, gs, from, d)
    ensures fs == gs
  {
    forall i | 0 <= i < |es|
      ensures fs[i] == gs[i]
    {
    }
  }

  /** The entries behind byte `ByteLen(left)` are those of `right`; more characters on the left
      move their character offsets. */
  lemma {:induction false} CharsMovedBehind(left: seq<char>, right: seq<char>, b: nat, c: nat, c': nat)
    requires ByteLen(left) <= b
    ensures var es := Endings(left, 0, 0) + Endings(right, b, c);
      && CharsMoved(es, Endings(left, 0, 0) + Endings(right, b, c'), |Endings(left, 0, 0)|, c' - c)
      && (Increasing(es) ==> PartitionPoint(es, ByteLen(left)) == |Endings(left, 0, 0)|)
  {
    hide Endings, EncodeAll, PartitionPoint;
    EndingsWithin(left, 0, 0);
    EndingsWithin(right, b, c);
    EndingsMove(right, b, c, b, c');
    if Increasing(Endings(left, 0, 0) + Endings(right, b, c)) {
      PartitionAt(Endings(left, 0, 0), Endings(right, b, c), ByteLen(left));
    }
  }

  /** Inserting `s` in front of the gap puts its entries between those of the two sides. */
  lemma {:induction false} IndexInserting(left: seq<char>, s: seq<char>, right: seq<char>, gapEnd: nat)
    ensures RawEndings(left + s, right, gapEnd) ==
      Endings(left, 0, 0) + Endings(s, ByteLen(left), |left|) + Endings(right, gapEnd, |left| + |s|)
  {
    hide Endings, EncodeAll;
    EndingsConcat(left, s, 0, 0);
  }

  /** `retain(|(b, _)| *b < lo || *b >= hi)`. */
  function Retain(es: seq<Ending>, lo: nat, hi: nat): seq<Ending> {
    if es == [] then [] else
    Retain(es[..|es| - 1], lo, hi) + if lo <= es[|es| - 1].byte < hi then [] else [es[|es| - 1]]
  }

  lemma {:induction false} RetainConcat(es: seq<Ending>, fs: seq<Ending>, lo: nat, hi: nat)
    ensures Retain(es + fs, lo, hi) == Retain(es, lo, hi) + Retain(fs, lo, hi)
    decreases |fs|
  {
    if fs == [] {
      assert es + fs == es;
    } else {
      assert (es + fs)[..|es + fs| - 1] == es + fs[..|fs| - 1];
      RetainConcat(es, fs[..|fs| - 1], lo, hi);
    }
  }

  lemma {:induction false} RetainAll(es: seq<Ending>, lo: nat, hi: nat)
    requires forall i :: 0 <= i < |es| ==> es[i].byte < lo || hi <= es[i].byte
    ensures Retain(es, lo, hi) == es
    decreases |es|
  {
    if es != [] {
      RetainAll(es[..|es| - 1], lo, hi);
    }
  }

  lemma {:induction false} RetainNone(es: seq<Ending>, lo: nat, hi: nat)
    requires Within(es, lo, hi)
    ensures Retain(es, lo, hi) == []
    decreases |es|
  {
    if es != [] {
      RetainNone(es[..|es| - 1], lo, hi);
    }
  }

  /** Which entries are left when those in the gap [start, end) are dropped. `gone` is text behind
      `left` that is removed by moving the end of the gap from `e0` to `e0 + ByteLen(gone)`. */
  lemma {:induction false} IndexRetaining(left: seq<char>, gone: seq<char>, right: seq<char>, e0: nat, gapEnd: nat)
    requires ByteLen(left) <= e0
    requires gapEnd == e0 || gapEnd == e0 + ByteLen(gone)
    ensures var e1, c := e0 + ByteLen(gone), |left|;
      var tail := Endings(right, e1, c + |gone|);
      Retain(RawEndings(left, gone + right, e0), ByteLen(left), gapEnd) ==
        if gapEnd == e0 then Endings(left, 0, 0) + (Endings(gone, e0, c) + tail) else Endings(left, 0, 0) + tail
  {
    hide Endings, EncodeAll, Retain;
    var b, c, e1 := ByteLen(left), |left|, e0 + ByteLen(gone);
    var h, m, t := Endings(left, 0, 0), Endings(gone, e0, c), Endings(right, e1, c + |gone|);
    EndingsConcat(gone, right, e0, c);
    EndingsWithin(left, 0, 0);
    EndingsWithin(gone, e0, c);
    EndingsWithin(right, e1, c + |gone|);
    RetainConcat(h, m + t, b, gapEnd);
    RetainConcat(m, t, b, gapEnd);
    RetainAll(h, b, gapEnd);
    RetainAll(t, b, gapEnd);
    if gapEnd == e0 {
      RetainAll(m, b, gapEnd);
    } else {
      RetainNone(m, b, gapEnd);
      assert [] + t == t;
    }
  }
}
