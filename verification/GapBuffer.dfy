/** The gap buffer: UTF-8 bytes in one array with a movable gap, an index of the newlines,
    a character count, and a cache from character offsets to raw byte offsets. */
module GapBuffers {
  import opened Basics
  import opened Utf8
  import opened LineIndex
  import opened Lines
  import opened Slices

  const MIN_GAP := 32
  const MIN_GAP_GROW := 64
  const MAX_GAP_GROW := 1024 * 8

  function ClampGapSize(len: nat, minGap: nat): (r: nat)
    ensures r <= MAX_GAP_GROW && r in {len / 20, minGap, MAX_GAP_GROW}
    ensures r < MAX_GAP_GROW ==> len / 20 <= r && minGap <= r
    ensures MIN_GAP_GROW <= minGap ==> MIN_GAP_GROW <= r
  {
    Min(Max(len / 20, minGap), MAX_GAP_GROW)
  }

  lemma NewlineWidth()
    ensures Width('\n') == 1
  {
  }

  predicate IsPowerOfTwo(p: nat) { p == 1 || (p > 1 && p % 2 == 0 && IsPowerOfTwo(p / 2)) }

  /** `usize::next_power_of_two`: the least one that is not smaller. */
  function NextPowerOfTwo(n: nat): (p: nat)
    ensures n <= p && IsPowerOfTwo(p) && (p == 1 || p < 2 * n)
  {
    if n <= 1 then 1 else 2 * NextPowerOfTwo((n + 1) / 2)
  }

  /** The number of characters of `s` and the positions of its newlines. */
  method ComputeLineEndings(s: seq<char>) returns (nChars: nat, endings: seq<Ending>)
    ensures nChars == |s|
    ensures endings == Endings(s, 0, 0)
  {
    nChars, endings := 0, [];
    var idx := 0;
    while nChars < |s|
      invariant nChars <= |s|
      invariant idx == ByteLen(s[..nChars])
      invariant endings == Endings(s[..nChars], 0, 0)
    {
      OffsetStep(s, nChars);
      assert s[..nChars + 1][..nChars] == s[..nChars];
      if s[nChars] == '\n' {
        endings := endings + [Ending(idx, nChars)];
      }
      idx := idx + Width(s[nChars]);
      nChars := nChars + 1;
    }
    assert s[..|s|] == s;
  }

  /** Bytes copied rightwards over the gap: `keep` stays in place, `mid` lands in front of `rest`. */
  lemma CopiedRight(d0: seq<byte>, d1: seq<byte>, gap: nat, keep: seq<byte>, mid: seq<byte>, rest: seq<byte>)
    requires |keep| + |mid| + gap <= |d0|
    requires d0[..|keep| + |mid|] == keep + mid && d0[|keep| + |mid| + gap..] == rest
    requires d1 == d0[..|keep| + gap] + d0[|keep|..|keep| + |mid|] + d0[|keep| + |mid| + gap..]
    ensures d1[..|keep|] == keep && d1[|keep| + gap..] == mid + rest
  {
    assert d0[|keep|..|keep| + |mid|] == (keep + mid)[|keep|..] == mid;
    assert d1[..|keep|] == d0[..|keep| + |mid|][..|keep|] == keep;
  }

  /** Bytes copied leftwards over the gap: `mid` lands behind `keep`, `rest` stays in place. */
  lemma CopiedLeft(d0: seq<byte>, d1: seq<byte>, gap: nat, keep: seq<byte>, mid: seq<byte>, rest: seq<byte>)
    requires |keep| + gap + |mid| <= |d0|
    requires d0[..|keep|] == keep && d0[|keep| + gap..] == mid + rest
    requires d1 == d0[..|keep|] + d0[|keep| + gap..|keep| + gap + |mid|] + d0[|keep| + |mid|..]
    ensures d1[..|keep| + |mid|] == keep + mid && d1[|keep| + |mid| + gap..] == rest
  {
    assert d0[|keep| + gap..|keep| + gap + |mid|] == d0[|keep| + gap..][..|mid|] == mid;
    assert d1[|keep| + |mid| + gap..] == d0[|keep| + |mid| + gap..] == d0[|keep| + gap..][|mid|..] == rest;
  }

  class GapBuffer {
    var data: array<byte>
    var cap: nat
    var gapStart: nat
    var gapEnd: nat
    var nextGap: nat
    var nChars: nat
    var lineEndings: seq<Ending>
    var cache: map<nat, nat>

    /** The text before the gap and the text after it. */
    ghost var left: seq<char>
    ghost var right: seq<char>

    /** The text a user of the buffer sees. */
    ghost function Text(): seq<char>
      reads `left, `right
    {
      left + right
    }

    /** Everything but the cache agrees with the text. */
    ghost predicate Coherent()
      reads this, data
    {
      && cap == data.Length
      && gapStart + MIN_GAP <= gapEnd <= cap
      && MIN_GAP_GROW <= nextGap <= MAX_GAP_GROW
      && data[..gapStart] == EncodeAll(left)
      && data[gapEnd..] == EncodeAll(right)
      && nChars == |left| + |right|
      && lineEndings == RawEndings(left, right, gapEnd)
    }

    /** The raw byte at which character `c` starts, found by walking from the start. */
    ghost function Raw(c: nat): nat
      reads `left, `right, `gapStart, `gapEnd
      requires gapStart <= gapEnd
      requires c <= |Text()|
    {
      RawOf(left, right, gapEnd - gapStart, c)
    }

    /** The cache remembers only offsets that walking from the start would find. */
    ghost predicate CacheCoherent()
      reads this
      requires gapStart <= gapEnd
    {
      && (Text() == [] ==> cache == map[])
      && forall c <- cache :: c <= |Text()| && cache[c] == Raw(c)
    }

    ghost predicate Valid()
      reads this, data
    {
      Coherent() && CacheCoherent()
    }

    // -------------------------------------------------------------- construction

    constructor From(s: seq<char>)
      ensures Valid() && Text() == s
      ensures fresh(data) && gapStart == 0
    {
      var bytes := EncodeAll(s);
      var start := |bytes|;
      var next := ClampGapSize(start, MIN_GAP_GROW);
      var capacity := start + next;
      var count, endings := ComputeLineEndings(s);
      data := new byte[capacity](i => if 0 <= i < |bytes| then bytes[i] else 0);
      cap, gapStart, gapEnd, nextGap := capacity, start, capacity, next;
      nChars, lineEndings, cache := count, endings, map[];
      left, right := s, [];
      new;
      assert data[..gapStart] == bytes;
      assert data[gapEnd..] == [];
      assert Text() == s && s[..0] == [];
      MoveGapTo(0, 0);
    }

    function Gap(): nat
      reads `gapStart, `gapEnd
      requires gapStart <= gapEnd
    {
      gapEnd - gapStart
    }

    /** The number of bytes outside the gap. */
    function Len(): nat
      reads this
      requires gapStart <= gapEnd <= cap
    {
      cap - Gap()
    }

    // -------------------------------------------------------------- updating the index in place

    /** Adds `d` to the byte offsets of the entries from raw byte `x` up to raw byte `y`. */
    method MoveEntries(x: nat, y: nat, d: int, ghost target: seq<Ending>)
      requires MovesBetween(lineEndings, target, x, y, d)
      modifies `lineEndings
      ensures lineEndings == target
    {
      hide PartitionPoint;
      var from := PartitionPoint(lineEndings, x);
      var to := PartitionPoint(lineEndings, y);
      for k := from to to
        invariant IsMoved(old(lineEndings), lineEndings, from, k, d)
      {
        assert target[k].byte == lineEndings[k].byte + d;
        lineEndings := lineEndings[k := lineEndings[k].(byte := lineEndings[k].byte + d)];
      }
      IsMovedUnique(old(lineEndings), lineEndings, target, from, to, d);
    }

    /** Adds `d` to the character offsets of the entries from entry `from` on. */
    method AddChars(from: nat, d: int, ghost target: seq<Ending>)
      requires from <= |lineEndings| && CharsMoved(lineEndings, target, from, d)
      modifies `lineEndings
      ensures lineEndings == target
    {
      for k := from to |lineEndings|
        invariant |lineEndings| == |target|
        invariant forall i :: 0 <= i < k ==> lineEndings[i] == target[i]
        invariant forall i :: k <= i < |target| ==> lineEndings[i] == old(lineEndings)[i]
      {
        lineEndings := lineEndings[k := lineEndings[k].(chr := lineEndings[k].chr + d)];
      }
    }

    /** Records the newlines of `s`, just written in front of the gap, at byte `byteFrom`. */
    method AddLineEndings(byteFrom: nat, n: nat, newEndings: seq<Ending>,
                          ghost l: seq<char>, ghost s: seq<char>, ghost r: seq<char>)
      requires ByteLen(l) <= gapEnd && lineEndings == RawEndings(l, r, gapEnd)
      requires byteFrom == ByteLen(l) && n == |s| && newEndings == Endings(s, ByteLen(l), |l|)
      modifies `lineEndings
      ensures lineEndings == RawEndings(l + s, r, gapEnd)
    {
      hide Endings, EncodeAll, PartitionPoint;
      RawEndingsIncreasing(l, r, gapEnd);
      CharsMovedBehind(l, r, gapEnd, |l|, |l| + |s|);
      var idx := PartitionPoint(lineEndings, byteFrom);
      AddChars(idx, n, Endings(l, 0, 0) + Endings(r, gapEnd, |l| + |s|));
      lineEndings := lineEndings[..idx] + newEndings + lineEndings[idx..];
      IndexInserting(l, s, r, gapEnd);
    }

    /** Forgets the newlines of `gone`, which is removed from behind the gap. The gap's end is moved
        over `gone` by the caller, before the call or after it. */
    method RemoveLineEndings(byteFrom: nat, byteTo: nat, n: nat,
                             ghost gone: seq<char>, ghost r: seq<char>, ghost e0: nat)
      requires ByteLen(left) == gapStart <= e0 && gone != []
      requires lineEndings == RawEndings(left, gone + r, e0)
      requires byteFrom == gapStart && n == |gone|
      requires (gapEnd == e0 && byteTo == e0 + ByteLen(gone)) ||
        (gapEnd == e0 + ByteLen(gone) && gapStart <= byteTo <= e0)
      modifies `lineEndings
      ensures lineEndings == RawEndings(left, r, e0 + ByteLen(gone))
    {
      hide Endings, EncodeAll, PartitionPoint, Retain;
      ghost var e1 := e0 + ByteLen(gone);
      ghost var head, mid := Endings(left, 0, 0), if gapEnd == e0 then Endings(gone, e0, |left|) else [];
      ghost var tail, target := Endings(r, e1, |left| + n), RawEndings(left, r, e1);
      RetainOutsideGap(gone, r, e0);
      RunsAround(gone, r, e0, byteTo, mid, tail);
      CharsMovedBehind(left, r, e1, |left| + n, |left|);
      var done, lineFrom := DropEndings(byteFrom, byteTo, head, mid, tail);
      if done {
        CharsMovedUnique(head + tail, lineEndings, target, |head|, -(n as int));
        return;
      }
      AddChars(lineFrom, -(n as int), target);
    }

    method RetainOutsideGap(ghost gone: seq<char>, ghost r: seq<char>, ghost e0: nat)
      requires ByteLen(left) == gapStart <= e0
      requires lineEndings == RawEndings(left, gone + r, e0)
      requires gapEnd == e0 || gapEnd == e0 + ByteLen(gone)
      modifies `lineEndings
      ensures lineEndings == Endings(left, 0, 0) +
        ((if gapEnd == e0 then Endings(gone, e0, |left|) else []) + Endings(r, e0 + ByteLen(gone), |left| + |gone|))
    {
      hide Endings, EncodeAll, Retain;
      IndexRetaining(left, gone, r, e0, gapEnd);
      lineEndings := Retain(lineEndings, gapStart, gapEnd);
      ghost var tail := Endings(r, e0 + ByteLen(gone), |left| + |gone|);
      assert [] + tail == tail;
    }

    /** Drops the entries of the run `mid`. Nothing is left to do when there is nothing behind `byteFrom`. */
    method DropEndings(byteFrom: nat, byteTo: nat, ghost head: seq<Ending>, ghost mid: seq<Ending>,
            ghost tail: seq<Ending>)
      returns (done: bool, lineFrom: nat)
      requires lineEndings == head + (mid + tail) && Increasing(lineEndings)
      requires PartitionPoint(lineEndings, byteFrom) == |head| && PartitionPoint(lineEndings, byteTo) == |head| + |mid|
      modifies `lineEndings
      ensures lineEndings == head + tail && lineFrom == |head|
      ensures done ==> tail == []
    {
      hide PartitionPoint;
      ghost var es := lineEndings;
      lineFrom := PartitionPoint(lineEndings, byteFrom);
      if lineEndings == [] || lineEndings[|lineEndings| - 1].byte < byteFrom {
        assert |mid + tail| == 0;
        return true, lineFrom;
      }
      var lineTo := PartitionPoint(lineEndings, byteTo);
      if lineFrom == lineTo {
        assert lineFrom < |lineEndings| && mid + tail == tail;
        // The source then removes entry `lineFrom` if it lies between the bounds: it never does.
        assert byteTo <= lineEndings[lineFrom].byte;
      } else {
        lineEndings := lineEndings[..lineFrom] + lineEndings[lineTo..];
        assert es[lineTo..] == tail;
      }
      return false, lineFrom;
    }

    /** The runs of entries before, inside and behind the bytes that are removed. */
    lemma RunsAround(gone: seq<char>, r: seq<char>, e0: nat, byteTo: nat, mid: seq<Ending>, tail: seq<Ending>)
      requires ByteLen(left) == gapStart <= e0 <= gapEnd && gapStart <= byteTo
      requires mid == if gapEnd == e0 then Endings(gone, e0, |left|) else []
      requires tail == Endings(r, e0 + ByteLen(gone), |left| + |gone|)
      requires if gapEnd == e0 then byteTo == e0 + ByteLen(gone) else byteTo <= e0
      ensures var head := Endings(left, 0, 0);
        var es := head + (mid + tail);
        && Increasing(es)
        && PartitionPoint(es, gapStart) == |head| && PartitionPoint(es, byteTo) == |head| + |mid|
        && (forall i :: 0 <= i < |mid| ==> gapStart <= mid[i].byte)
        && (forall i :: 0 <= i < |tail| ==> gapStart <= tail[i].byte && byteTo <= tail[i].byte)
    {
      hide Endings, EncodeAll, PartitionPoint;
      var head := Endings(left, 0, 0);
      EndingsConcat(gone, r, e0, |left|);
      RawEndingsIncreasing(left, gone + r, e0);
      EndingsWithin(left, 0, 0);
      EndingsWithin(gone, e0, |left|);
      EndingsWithin(r, e0 + ByteLen(gone), |left| + |gone|);
      assert Increasing(head + (mid + tail)) by {
        EndingsIncreasing(left, 0, 0);
        EndingsSound(left, 0, 0);
        EndingsSound(r, e0 + ByteLen(gone), |left| + |gone|);
        EndingsIncreasing(r, e0 + ByteLen(gone), |left| + |gone|);
      }
      Assoc(head, mid, tail);
      PartitionAt(head, mid + tail, gapStart);
      PartitionAt(head + mid, tail, byteTo);
    }

    // -------------------------------------------------------------- moving and growing the gap

    /** `copy_within`, which reads all of its source before it writes. */
    method CopyWithin(src: nat, end: nat, dest: nat)
      requires src <= end <= data.Length && dest + (end - src) <= data.Length
      modifies data
      ensures data[..] == old(data[..][..dest] + data[..][src..end] + data[..][dest + (end - src)..])
    {
      forall i | src <= i < end {
        data[dest + i - src] := data[i];
      }
    }

    /** Copies the bytes `mid` from before the gap to its end. */
    method CopyOverGapRight(start: nat, gap: nat, ghost keep: seq<byte>, ghost mid: seq<byte>, ghost rest: seq<byte>)
      requires start == |keep| && |keep| + |mid| + gap <= data.Length && gapStart == |keep| + |mid|
      requires data[..gapStart] == keep + mid && data[gapStart + gap..] == rest
      modifies data
      ensures data[..start] == keep && data[start + gap..] == mid + rest
    {
      CopyWithin(start, gapStart, start + gap);
      CopiedRight(old(data[..]), data[..], gap, keep, mid, rest);
      assert data[..start] == data[..][..start] && data[start + gap..] == data[..][start + gap..];
    }

    /** Copies the bytes `mid` from behind the gap to its start. */
    method CopyOverGapLeft(end: nat, gap: nat, ghost keep: seq<byte>, ghost mid: seq<byte>, ghost rest: seq<byte>)
      requires gapStart == |keep| && end == |keep| + |mid| && end + gap <= data.Length && gapEnd == gapStart + gap
      requires data[..gapStart] == keep && data[gapStart + gap..] == mid + rest
      modifies data
      ensures data[..end] == keep + mid && data[end + gap..] == rest
    {
      CopyWithin(gapEnd, end + gap, gapStart);
      CopiedLeft(old(data[..]), data[..], gap, keep, mid, rest);
      assert data[..end] == data[..][..end] && data[end + gap..] == data[..][end + gap..];
    }

    /** Moves the gap so that it starts at byte `byteIdx`, where character `c` starts. */
    method MoveGapTo(byteIdx: nat, ghost c: nat)
      requires Coherent()
      requires c <= |Text()| && byteIdx == ByteLen(Text()[..c])
      modifies this, data
      ensures Coherent() && data == old(data) && Gap() == old(Gap()) && cap == old(cap) && nextGap == old(nextGap)
      ensures Text() == old(Text()) && left == old(Text())[..c] && gapStart == byteIdx
      ensures cache == if byteIdx == old(gapStart) then old(cache) else map[]
    {
      hide EncodeAll, Endings, PartitionPoint;
      LayoutAt(left, right, c);
      if byteIdx == gapStart {
        return;
      }
      if byteIdx < gapStart {
        MoveGapLeft(byteIdx, c);
      } else {
        MoveGapRight(byteIdx, c - |left|);
      }
      cache := map[];
    }

    method MoveGapLeft(byteIdx: nat, ghost c: nat)
      requires Coherent()
      requires c < |left| && byteIdx == ByteLen(left[..c]) < gapStart
      requires EncodeAll(left) == EncodeAll(left[..c]) + EncodeAll(left[c..])
      modifies this, data
      ensures Coherent() && data == old(data) && Gap() == old(Gap()) && cap == old(cap) && nextGap == old(nextGap)
      ensures left == old(left[..c]) && right == old(left[c..] + right) && gapStart == byteIdx
    {
      hide EncodeAll, RawEndings, MovesBetween;
      var gap, start := Gap(), gapStart;
      ghost var keep, mid := left[..c], left[c..];
      assert left == keep + mid;
      IndexMovingLeft(keep, mid, right, gap);
      MoveEntries(byteIdx, start + 1, gap, RawEndings(keep, mid + right, byteIdx + gap));
      CopyOverGapRight(byteIdx, gap, EncodeAll(keep), EncodeAll(mid), EncodeAll(right));
      EncodeAllConcat(mid, right);
      gapEnd := byteIdx + gap;
      gapStart := byteIdx;
      left, right := keep, mid + right;
    }

    method MoveGapRight(byteIdx: nat, ghost p: nat)
      requires Coherent()
      requires 0 < p <= |right| && byteIdx == gapStart + ByteLen(right[..p])
      requires EncodeAll(right) == EncodeAll(right[..p]) + EncodeAll(right[p..])
      modifies this, data
      ensures Coherent() && data == old(data) && Gap() == old(Gap()) && cap == old(cap) && nextGap == old(nextGap)
      ensures left == old(left + right[..p]) && right == old(right[p..]) && gapStart == byteIdx
    {
      hide EncodeAll, RawEndings, MovesBetween;
      var gap, end := Gap(), gapEnd;
      ghost var mid, rest := right[..p], right[p..];
      assert right == mid + rest;
      IndexMovingRight(left, mid, rest, gap);
      EncodeAllConcat(left, mid);
      MoveEntries(end, byteIdx + gap, -(gap as int), RawEndings(left + mid, rest, byteIdx + gap));
      CopyOverGapLeft(byteIdx, gap, EncodeAll(left), EncodeAll(mid), EncodeAll(rest));
      gapEnd := byteIdx + gap;
      gapStart := byteIdx;
      left, right := left + mid, rest;
    }

    /** Adds `d` to the byte offsets of all entries behind the gap. */
    method MoveEntriesBehindGap(d: nat)
      requires gapStart < gapEnd <= cap && ByteLen(left) == gapStart && ByteLen(right) == cap - gapEnd
      requires lineEndings == RawEndings(left, right, gapEnd)
      modifies `lineEndings
      ensures lineEndings == RawEndings(left, right, gapEnd + d)
    {
      hide EncodeAll, RawEndings, MovesBetween;
      IndexGrowing(left, right, Gap(), d);
      MoveEntries(gapStart + 1, cap, d, RawEndings(left, right, gapEnd + d));
    }

    method GrowGap(n: nat)
      requires Coherent()
      modifies this
      ensures Coherent() && fresh(data) && cache == map[]
      ensures left == old(left) && right == old(right) && gapStart == old(gapStart)
      ensures Gap() >= old(Gap()) + n + MIN_GAP_GROW
    {
      hide EncodeAll, RawEndings, NextPowerOfTwo, ClampGapSize;
      if n >= nextGap {
        nextGap := ClampGapSize(Len() + n, NextPowerOfTwo(n));
      }
      var gapIncrease := nextGap + n;
      var capacity := cap + nextGap + n;
      var before, behind := data[..gapStart], data[gapEnd..];
      var buf := CopyAround(before, behind, capacity);
      MoveEntriesBehindGap(gapIncrease);
      nextGap := ClampGapSize(Len(), nextGap * 2);
      data := buf;
      gapEnd := gapEnd + gapIncrease;
      cap := capacity;
      cache := map[];
    }

    /** Writes bytes into the gap and moves its start behind them. */
    method WriteAtGap(bytes: seq<byte>)
      requires gapStart + |bytes| <= gapEnd <= data.Length
      modifies this`gapStart, data
      ensures gapStart == old(gapStart) + |bytes|
      ensures data[..gapStart] == old(data[..gapStart]) + bytes
      ensures data[gapEnd..] == old(data[gapEnd..])
    {
      forall i | 0 <= i < |bytes| {
        data[gapStart + i] := bytes[i];
      }
      gapStart := gapStart + |bytes|;
    }

    // -------------------------------------------------------------- offsets

    function RawByteToByte(raw: nat): nat
      reads this
      requires gapStart <= gapEnd && (raw > gapStart ==> raw >= Gap())
    {
      if raw > gapStart then raw - Gap() else raw
    }

    function ByteToRawByte(byte: nat): nat
      reads this
      requires gapStart <= gapEnd
    {
      if byte > gapStart then byte + Gap() else byte
    }

    /** `raw` stands for character offset `c`; both ends of the gap stand for the character behind it. */
    ghost predicate RawAt(raw: nat, c: nat)
      reads this
      requires gapStart <= gapEnd
    {
      c <= |Text()| && (raw == Raw(c) || (c == |left| && raw == gapStart))
    }

    /** Slice::from_raw_offsets. */
    function FromRawOffsets(from: nat, to: nat): (s: Slice)
      reads this, data
      requires gapStart <= gapEnd <= data.Length && (from > gapStart ==> from >= Gap())
      requires var t := Min(to, data.Length);
        if t <= gapStart || from >= gapEnd then from <= t else from <= gapStart && gapEnd <= t
      ensures s.from == RawByteToByte(from)
    {
      var t := Min(to, data.Length);
      if t <= gapStart || from >= gapEnd then Slice(RawByteToByte(from), data[from..t], [])
      else Slice(RawByteToByte(from), data[from..gapStart], data[gapEnd..t])
    }

    /** Raw offsets in terms of the bytes of each side. */
    lemma RawIs(c: nat)
      requires Coherent() && c <= |Text()|
      ensures c <= |left| ==> ByteLen(Text()[..c]) == ByteLen(left[..c]) <= gapStart
      ensures c < |left| ==> Raw(c) == ByteLen(left[..c]) < gapStart
      ensures |left| <= c ==> Raw(c) == gapEnd + ByteLen(right[..c - |left|]) <= cap
      ensures RawByteToByte(Raw(c)) == ByteLen(Text()[..c]) <= Len()
    {
      hide EncodeAll, RawEndings;
      LayoutAt(left, right, c);
      if |left| <= c {
        OffsetMonotone(right, c - |left|, |right|);
        assert right[..|right|] == right;
      }
    }

    /** A slice between two raw offsets shows the text between the characters they stand for. */
    lemma SliceBetween(from: nat, to: nat, c0: nat, c1: nat)
      requires Coherent() && c0 <= c1 && from <= to
      requires RawAt(from, c0) && (RawAt(to, c1) || (c1 == |Text()| && cap <= to))
      ensures from > gapStart ==> from >= Gap()
      ensures var t := Min(to, data.Length);
        if t <= gapStart || from >= gapEnd then from <= t else from <= gapStart && gapEnd <= t
      ensures Shows(FromRawOffsets(from, to), Text()[c0..c1])
      ensures FromRawOffsets(from, to).from == ByteLen(Text()[..c0])
    {
      hide EncodeAll, RawEndings, Shows, Raw, FromRawOffsets;
      RawIs(c0);
      RawIs(c1);
      RawIs(|Text()|);
      WholePrefixes();
      var t := Min(to, data.Length);
      if t <= gapStart {
        SliceBeforeGap(from, to, c0, c1);
      } else if from >= gapEnd {
        SliceBehindGap(from, to, c0, c1);
      } else {
        SliceAcrossGap(from, to, c0, c1);
      }
    }

    lemma SliceBeforeGap(from: nat, to: nat, c0: nat, c1: nat)
      requires Coherent() && c0 <= c1 <= |left| && from <= to <= gapStart
      requires from == ByteLen(left[..c0]) && to == ByteLen(left[..c1])
      ensures Shows(FromRawOffsets(from, to), Text()[c0..c1])
    {
      hide EncodeAll, RawEndings, Shows;
      var s := FromRawOffsets(from, to);
      assert s.left == data[..gapStart][from..to];
      ShowsPart(s, left, c0, c1);
      assert Text()[c0..c1] == left[c0..c1];
    }

    lemma SliceBehindGap(from: nat, to: nat, c0: nat, c1: nat)
      requires Coherent() && |left| <= c0 <= c1 <= |Text()| && gapEnd <= from <= to
      requires from == gapEnd + ByteLen(right[..c0 - |left|])
      requires Min(to, data.Length) == gapEnd + ByteLen(right[..c1 - |left|])
      ensures from <= Min(to, data.Length) && Shows(FromRawOffsets(from, to), Text()[c0..c1])
    {
      hide EncodeAll, RawEndings, Shows;
      EncodePart(right, c0 - |left|, c1 - |left|);
      var s, t := FromRawOffsets(from, to), Min(to, data.Length);
      assert s.left == data[gapEnd..][from - gapEnd..t - gapEnd];
      ShowsPart(s, right, c0 - |left|, c1 - |left|);
      assert Text()[c0..c1] == right[c0 - |left|..c1 - |left|];
    }

    lemma SliceAcrossGap(from: nat, to: nat, c0: nat, c1: nat)
      requires Coherent() && c0 <= |left| <= c1 <= |Text()| && from <= gapStart < gapEnd <= to
      requires from == ByteLen(left[..c0])
      requires Min(to, data.Length) == gapEnd + ByteLen(right[..c1 - |left|])
      ensures Shows(FromRawOffsets(from, to), Text()[c0..c1])
    {
      hide EncodeAll, RawEndings, Shows;
      var s, t := FromRawOffsets(from, to), Min(to, data.Length);
      assert s.left == data[..gapStart][from..];
      assert s.right == data[gapEnd..][..t - gapEnd];
      ShowsAcross(s, left, right, c0, c1 - |left|);
      assert Text()[c0..c1] == left[c0..] + right[..c1 - |left|];
    }

    lemma WholePrefixes()
      ensures right[..|right|] == right && left[..|left|] == left
      ensures Text()[..|Text()|] == Text() && ByteLen(right[..0]) == 0
    {
    }

    lemma LastCharBeforeGap()
      requires Coherent() && right == [] && left != []
      ensures var n := |left| - 1;
        Raw(n) == gapStart - Width(left[n]) && EncodedEndingAt(data[..], gapStart - 1, left[n])
    {
      hide EncodeAll, RawEndings, Width, EncodedAt;
      var n := |left| - 1;
      RawIs(n);
      WholePrefixes();
      OffsetStep(left, n);
      CharEncodedAt(left, n);
      EncodedAtAppend([], data[..gapStart], data[gapStart..], ByteLen(left[..n]), left[n]);
      assert data[..] == [] + data[..gapStart] + data[gapStart..];
    }

    lemma LastCharBehindGap()
      requires Coherent() && right != []
      ensures var p := |right| - 1;
        Raw(|left| + p) == cap - Width(right[p]) && EncodedEndingAt(data[..], cap - 1, right[p])
    {
      hide EncodeAll, RawEndings, Width, EncodedAt;
      var p := |right| - 1;
      RawIs(|left| + p);
      WholePrefixes();
      OffsetStep(right, p);
      CharEncodedAt(right, p);
      EncodedAtAppend(data[..gapEnd], data[gapEnd..], [], ByteLen(right[..p]), right[p]);
      assert data[..] == data[..gapEnd] + data[gapEnd..] + [];
    }

    /** Counts `charIdx - c0` characters forward from `byteOffset`, where character `c0` starts, in
        the text before `to`. The source's open end, `usize::MAX`, is `cap` here: it is only compared
        with positions in the array. */
    method WalkFrom(charIdx: nat, byteOffset: nat, c0: nat, to: nat, ghost c1: nat) returns (r: nat)
      requires Coherent()
      requires c0 <= charIdx <= c1 <= |Text()|
      requires byteOffset == Raw(c0) || (byteOffset == 0 && c0 == 0)
      requires (charIdx < c1 && to == Raw(c1)) || (c1 == |Text()| && to == cap)
      ensures r == Raw(charIdx)
    {
      hide EncodeAll, RawEndings, Raw, FromRawOffsets, Shows;
      WalkBounds(charIdx, byteOffset, c0, to, c1);
      ghost var sub := Text()[c0..c1];
      var slice := FromRawOffsets(byteOffset, to);
      var chars := new Chars(slice, sub);
      var cur := byteOffset;
      for i := 0 to charIdx - c0
        invariant chars.Valid() && fresh(chars) && chars.text == sub && chars.pos == i
        invariant cur == byteOffset + ByteLen(sub[..i])
      {
        var _ := chars.Next();
        cur := chars.cur + byteOffset;
      }
      assert sub[..charIdx - c0] == Text()[c0..charIdx];
      var enclosed := gapStart >= byteOffset && gapEnd <= to;
      if cur >= gapStart && (cur < gapEnd || enclosed) {
        cur := cur + Gap();
      }
      return cur;
    }

    /** What the final correction of a walk decides on. */
    lemma WalkBounds(charIdx: nat, byteOffset: nat, c0: nat, to: nat, c1: nat)
      requires Coherent()
      requires c0 <= charIdx <= c1 <= |Text()|
      requires byteOffset == Raw(c0) || (byteOffset == 0 && c0 == 0)
      requires (charIdx < c1 && to == Raw(c1)) || (c1 == |Text()| && to == cap)
      ensures byteOffset <= to
      ensures byteOffset > gapStart ==> byteOffset >= Gap()
      ensures var t := Min(to, data.Length);
        if t <= gapStart || byteOffset >= gapEnd then byteOffset <= t else byteOffset <= gapStart && gapEnd <= t
      ensures Shows(FromRawOffsets(byteOffset, to), Text()[c0..c1])
      ensures var cur := byteOffset + ByteLen(Text()[c0..charIdx]);
        Raw(charIdx) ==
          cur + if cur >= gapStart && (cur < gapEnd || (gapStart >= byteOffset && gapEnd <= to)) then Gap() else 0
    {
      hide EncodeAll, RawEndings, FromRawOffsets, Shows;
      RawIs(c0);
      RawIs(charIdx);
      RawIs(c1);
      OffsetMonotone(Text(), c0, charIdx);
      OffsetMonotone(Text(), c0, c1);
      WholePrefixes();
      assert Text()[..0] == [];
      SliceBetween(byteOffset, to, c0, c1);
    }

    /** The raw byte at which character `charIdx` starts, searched for from character `charOffset`. */
    method OffsetCharToRawByte(charIdx: nat, byteOffset: nat, charOffset: nat) returns (r: nat)
      requires Valid()
      requires charIdx <= |Text()| || (Text() == [] && charIdx == 1)
      requires Text() != [] ==> charOffset <= charIdx
      requires Text() != [] ==> byteOffset == Raw(charOffset) || (byteOffset == 0 && charOffset == 0)
      modifies `cache
      ensures Valid()
      ensures r == if Text() == [] then gapStart else Raw(charIdx)
      ensures Text() != [] ==> charIdx in cache
    {
      hide EncodeAll, RawEndings, Raw;
      if charIdx in cache {
        return cache[charIdx];
      }
      if nChars == 0 {
        return gapStart;
      }
      if lineEndings == [] && charIdx == SaturatingSub(nChars, 1) {
        r := RawOfLastChar();
      } else {
        r := SearchFrom(charIdx, byteOffset, charOffset);
      }
      cache := cache[charIdx := r];
    }

    /** Decodes backwards from the start of the gap or from the end of the array. */
    method RawOfLastChar() returns (r: nat)
      requires Coherent() && Text() != []
      ensures r == Raw(|Text()| - 1)
    {
      hide EncodeAll, RawEndings, Raw, Width, EncodedEndingAt;
      assert gapEnd == cap && gapStart > 0 <==> right == [];
      if gapEnd == cap && gapStart > 0 {
        LastCharBeforeGap();
        var ch := DecodeCharEndingAt(gapStart - 1, data[..]);
        EncodedEndingAtUnique(data[..], gapStart - 1, ch, left[|left| - 1]);
        return SaturatingSub(gapStart, Width(ch));
      } else {
        LastCharBehindGap();
        var ch := DecodeCharEndingAt(cap - 1, data[..]);
        EncodedEndingAtUnique(data[..], cap - 1, ch, right[|right| - 1]);
        return SaturatingSub(cap, Width(ch));
      }
    }

    /** What a search of the index from `lineFrom` tells about a character. */
    lemma FoundInIndex(lineFrom: nat, charIdx: nat)
      requires Coherent() && lineFrom <= |lineEndings| && charIdx <= |Text()|
      ensures Increasing(lineEndings[lineFrom..])
      ensures forall i :: 0 <= i < |lineEndings[lineFrom..]| ==>
        lineEndings[lineFrom..][i].chr < |Text()| &&
          lineEndings[lineFrom..][i].byte == Raw(lineEndings[lineFrom..][i].chr)
    {
      hide EncodeAll, Endings;
      RawEndingsIncreasing(left, right, gapEnd);
      RawEndingsSound(left, right, Gap());
      forall i | 0 <= i < |lineEndings[lineFrom..]|
        ensures lineEndings[lineFrom..][i].chr < |Text()|
        ensures lineEndings[lineFrom..][i].byte == Raw(lineEndings[lineFrom..][i].chr)
      {
        assert lineEndings[lineFrom..][i] == lineEndings[lineFrom + i];
      }
    }

    /** Finds the line of the character in the index, then walks along it. */
    method SearchFrom(charIdx: nat, byteOffset: nat, charOffset: nat) returns (r: nat)
      requires Coherent() && charOffset <= charIdx <= |Text()|
      requires byteOffset == Raw(charOffset) || (byteOffset == 0 && charOffset == 0)
      ensures r == Raw(charIdx)
    {
      hide EncodeAll, Endings, Raw, PartitionPoint, BinarySearchByChar;
      RawEndingsIncreasing(left, right, gapEnd);
      var lineFrom := PartitionPoint(lineEndings, byteOffset);
      var endings := lineEndings[lineFrom..];
      FoundInIndex(lineFrom, charIdx);
      var byteFrom, charFrom, to := byteOffset, charOffset, cap;
      ghost var c1 := |Text()|;
      match BinarySearchByChar(endings, charIdx) {
        case Found(i) =>
          return endings[i].byte;
        case NotFound(i) =>
          if i > 0 {
            byteFrom, charFrom := endings[i - 1].byte, endings[i - 1].chr;
          }
          if i < |endings| {
            to, c1 := endings[i].byte, endings[i].chr;
          }
      }
      r := WalkFrom(charIdx, byteFrom, charFrom, to, c1);
    }

    method CharToRawByte(charIdx: nat) returns (r: nat)
      requires Valid()
      requires charIdx <= |Text()| || (Text() == [] && charIdx == 1)
      modifies `cache
      ensures Valid()
      ensures r == if Text() == [] then gapStart else Raw(charIdx)
    {
      hide EncodeAll, RawEndings;
      r := OffsetCharToRawByte(charIdx, 0, 0);
    }

    method OffsetCharToByte(charIdx: nat, byteOffset: nat, charOffset: nat) returns (r: nat)
      requires Valid()
      requires charOffset <= charIdx <= |Text()|
      requires Text() != [] ==> byteOffset == Raw(charOffset) || (byteOffset == 0 && charOffset == 0)
      modifies `cache
      ensures Valid()
      ensures r == ByteLen(Text()[..charIdx])
      ensures Text() != [] ==> charIdx in cache
    {
      hide EncodeAll, RawEndings, Raw;
      var raw := OffsetCharToRawByte(charIdx, byteOffset, charOffset);
      RawIs(charIdx);
      r := RawByteToByte(raw);
    }

    method CharToByte(charIdx: nat) returns (r: nat)
      requires Valid() && charIdx <= |Text()|
      modifies `cache
      ensures Valid()
      ensures r == ByteLen(Text()[..charIdx])
      ensures Text() != [] ==> charIdx in cache
    {
      r := OffsetCharToByte(charIdx, 0, 0);
    }

    // -------------------------------------------------------------- edits

    /** What every insertion does first: the gap gets room for `len` bytes and goes in front of character
        `charIdx`. */
    method OpenAt(charIdx: nat, len: nat) returns (idx: nat)
      requires Valid() && charIdx <= |Text()|
      modifies this, data
      ensures Coherent() && (data == old(data) || fresh(data)) && Text() == old(Text())
      ensures left == Text()[..charIdx] && right == Text()[charIdx..] && gapStart == idx == ByteLen(left)
      ensures Gap() >= len + MIN_GAP
    {
      hide EncodeAll, Endings, RawEndings, Raw;
      if SaturatingSub(Gap(), len) < MIN_GAP {
        GrowGap(len);
      }
      idx := CharToByte(charIdx);
      MoveGapTo(idx, charIdx);
      assert Text() == left + right && |left| == charIdx;
    }

    /** Inserts one character before character `charIdx`. */
    method InsertChar(charIdx: nat, ch: char)
      requires Valid() && charIdx <= |Text()|
      modifies this, data
      ensures Valid() && (data == old(data) || fresh(data))
      ensures Text() == old(Text()[..charIdx] + [ch] + Text()[charIdx..])
    {
      hide EncodeAll, Endings, RawEndings, Raw;
      var idx := OpenAt(charIdx, Width(ch));
      EncodeOne(ch);
      WriteAtGap(Encode(ch));
      nChars := nChars + 1;
      EndingsOne(ch, idx, charIdx);
      var endings := if ch == '\n' then [Ending(idx, charIdx)] else [];
      AddLineEndings(idx, 1, endings, left, [ch], right);
      Inserted([ch]);
    }

    /** Inserts a string before character `charIdx`. */
    method InsertStr(charIdx: nat, s: seq<char>)
      requires Valid() && charIdx <= |Text()|
      modifies this, data
      ensures Valid() && (data == old(data) || fresh(data))
      ensures Text() == old(Text()[..charIdx] + s + Text()[charIdx..])
    {
      hide EncodeAll, Endings, RawEndings, Raw;
      var lenChars := |s|;
      var idx := OpenAt(charIdx, |EncodeAll(s)|);
      WriteAtGap(EncodeAll(s));
      nChars := nChars + lenChars;
      var endings := Endings(s, idx, charIdx);
      AddLineEndings(idx, lenChars, endings, left, s, right);
      Inserted(s);
    }

    /** The last step of an insertion: the written text now belongs to the left side. */
    method Inserted(ghost s: seq<char>)
      requires cap == data.Length && gapStart + MIN_GAP <= gapEnd <= cap && MIN_GAP_GROW <= nextGap <= MAX_GAP_GROW
      requires data[..gapStart] == EncodeAll(left) + EncodeAll(s) && data[gapEnd..] == EncodeAll(right)
      requires nChars == |left| + |right| + |s| && lineEndings == RawEndings(left + s, right, gapEnd)
      modifies this`left, this`cache
      ensures Valid() && left == old(left) + s
    {
      hide EncodeAll, RawEndings;
      EncodeAllConcat(left, s);
      left := left + s;
      cache := map[];
    }

    /** A character is encoded where Raw says it starts. */
    lemma CharAtRaw(c: nat)
      requires Coherent() && c < |Text()|
      ensures EncodedAt(data[..], Raw(c), Text()[c])
    {
      hide EncodeAll, RawEndings, EncodedAt;
      RawIs(c);
      if c < |left| {
        CharEncodedAt(left, c);
        EncodedAtAppend([], data[..gapStart], data[gapStart..], ByteLen(left[..c]), left[c]);
        assert data[..] == [] + data[..gapStart] + data[gapStart..];
      } else {
        var p := c - |left|;
        CharEncodedAt(right, p);
        EncodedAtAppend(data[..gapEnd], data[gapEnd..], [], ByteLen(right[..p]), right[p]);
        assert data[..] == data[..gapEnd] + data[gapEnd..] + [];
      }
    }

    /** The character at `charIdx`, decoded from the array. */
    method CharAt(charIdx: nat) returns (ch: char)
      requires Valid() && charIdx < |Text()|
      modifies `cache
      ensures Valid() && ch == Text()[charIdx]
    {
      hide EncodeAll, RawEndings, Raw, EncodedAt, Width;
      var rawIdx := CharToRawByte(charIdx);
      CharAtRaw(charIdx);
      ch := DecodeCharAt(rawIdx, data[..]);
      EncodedAtUnique(data[..], rawIdx, ch, Text()[charIdx]);
    }

    /** Removes character `charIdx`. */
    method RemoveChar(charIdx: nat)
      requires Valid() && charIdx < |Text()|
      modifies this, data
      ensures Valid() && data == old(data)
      ensures Text() == old(Text()[..charIdx] + Text()[charIdx + 1..])
    {
      hide EncodeAll, Endings, RawEndings, Raw, Width;
      var idx, len := ByteRangeOfChar(charIdx);
      if idx != gapStart {
        MoveGapTo(idx, charIdx);
      } else {
        LayoutAt(left, right, charIdx);
        cache := map[];
      }
      assert right[..1] == [old(Text())[charIdx]];
      EncodeOne(right[0]);
      RemoveFirstBehindGap(idx, len);
    }

    /** The second half of remove_char: the character to remove is the first behind the gap. */
    method RemoveFirstBehindGap(idx: nat, len: nat)
      requires Coherent() && right != [] && idx == gapStart && len == ByteLen(right[..1]) <= 4
      modifies this
      ensures Valid() && data == old(data) && left == old(left) && right == old(right[1..])
    {
      hide EncodeAll, Endings, RawEndings, Raw;
      ghost var gone, rest := right[..1], right[1..];
      SplitRight(gone, rest);
      gapEnd := gapEnd + len;
      nChars := nChars - 1;
      RemoveLineEndings(idx, idx + len, 1, gone, rest, gapEnd - len);
      Removed(gone, rest);
    }

    /** The logical byte offset of a character and its width, decoded from the array. */
    method ByteRangeOfChar(charIdx: nat) returns (idx: nat, len: nat)
      requires Valid() && charIdx < |Text()|
      modifies `cache
      ensures Valid()
      ensures idx == ByteLen(Text()[..charIdx]) && len == Width(Text()[charIdx])
    {
      hide EncodeAll, RawEndings, Raw, EncodedAt, Width;
      var rawIdx := CharToRawByte(charIdx);
      RawIs(charIdx);
      CharAtRaw(charIdx);
      var ch := DecodeCharAt(rawIdx, data[..]);
      EncodedAtUnique(data[..], rawIdx, ch, Text()[charIdx]);
      idx, len := RawByteToByte(rawIdx), Width(ch);
    }

    /** Removes the characters from `charFrom` up to `charTo`. */
    method RemoveRange(charFrom: nat, charTo: nat)
      requires Valid() && charFrom <= charTo <= |Text()|
      modifies this, data
      ensures Valid() && data == old(data)
      ensures Text() == old(Text()[..charFrom] + Text()[charTo..])
    {
      hide EncodeAll, Endings, RawEndings, Raw;
      if charFrom == charTo {
        return;
      }
      var from, to := CharRangeToByteRange(charFrom, charTo);
      MoveGapTo(from, charFrom);
      ghost var n := charTo - charFrom;
      assert right[..n] == old(Text())[charFrom..charTo];
      RemoveBehindGap(from, to, charTo - charFrom);
    }

    /** The second half of remove_range: the `n` characters to remove are those behind the gap. */
    method RemoveBehindGap(from: nat, to: nat, n: nat)
      requires Coherent() && 0 < n <= |right| && from == gapStart && to == from + ByteLen(right[..n])
      modifies this
      ensures Valid() && data == old(data) && left == old(left) && right == old(right[n..])
    {
      hide EncodeAll, Endings, RawEndings, Raw;
      var nBytes := to - from;
      ghost var gone, rest := right[..n], right[n..];
      SplitRight(gone, rest);
      RemoveLineEndings(from, ByteToRawByte(to), n, gone, rest, gapEnd);
      gapEnd := gapEnd + nBytes;
      nChars := nChars - n;
      Removed(gone, rest);
    }

    /** Convert a character range to a byte range. */
    method CharRangeToByteRange(charFrom: nat, charTo: nat) returns (from: nat, to: nat)
      requires Valid() && charFrom <= charTo <= |Text()|
      modifies `cache
      ensures Valid()
      ensures from == ByteLen(Text()[..charFrom]) && to == ByteLen(Text()[..charTo])
      ensures to == from + ByteLen(Text()[charFrom..charTo])
    {
      hide EncodeAll, RawEndings, Raw;
      var rawFrom := CharToRawByte(charFrom);
      RawIs(charFrom);
      from := RawByteToByte(rawFrom);
      to := OffsetCharToByte(charTo, rawFrom, charFrom);
      OffsetMonotone(Text(), charFrom, charTo);
    }

    lemma {:induction false} SplitRight(gone: seq<char>, rest: seq<char>)
      requires Coherent() && right == gone + rest
      ensures EncodeAll(right) == EncodeAll(gone) + EncodeAll(rest)
      ensures gapEnd + ByteLen(gone) <= cap
    {
      hide EncodeAll, RawEndings;
      EncodeAllConcat(gone, rest);
    }

    /** The last step of a removal: the removed text now belongs to the gap. */
    method Removed(ghost gone: seq<char>, ghost rest: seq<char>)
      requires cap == data.Length && gapStart + MIN_GAP <= gapEnd <= cap && MIN_GAP_GROW <= nextGap <= MAX_GAP_GROW
      requires ByteLen(gone) <= gapEnd
      requires data[..gapStart] == EncodeAll(left)
      requires data[gapEnd - ByteLen(gone)..] == EncodeAll(gone) + EncodeAll(rest)
      requires nChars == |left| + |rest| && lineEndings == RawEndings(left, rest, gapEnd)
      modifies this`right, this`cache
      ensures Valid() && right == rest
    {
      hide EncodeAll, RawEndings;
      assert data[gapEnd..] == data[gapEnd - ByteLen(gone)..][ByteLen(gone)..];
      right := rest;
      cache := map[];
    }

    /** Moves all text behind the gap and returns its bytes. */
    method MakeContiguous() returns (bytes: seq<byte>)
      requires Valid()
      modifies this, data
      ensures Valid() && data == old(data) && Text() == old(Text()) && gapStart == 0
      ensures bytes == EncodeAll(Text())
    {
      hide EncodeAll, RawEndings;
      assert Text()[..0] == [];
      MoveGapTo(0, 0);
      assert left == [] && right == Text();
      bytes := data[gapEnd..];
    }

    /** Forgets all text. The cache survives when the gap is at the start already, because the gap
        does not move then: the result is coherent exactly when there was nothing to survive. */
    method Clear()
      requires Coherent()
      modifies this, data
      ensures Coherent() && data == old(data) && Text() == []
      ensures CacheCoherent() <==> old(gapStart) != 0 || old(cache) == map[]
      ensures old(gapStart) == 0 ==> cache == old(cache)
    {
      hide EncodeAll, Endings;
      assert Text()[..0] == [];
      MoveGapTo(0, 0);
      gapEnd := cap;
      lineEndings := [];
      nChars := 0;
      left, right := [], [];
      assert EncodeAll([]) == [] && RawEndings([], [], gapEnd) == [];
    }

    // -------------------------------------------------------------- queries

    lemma IndexIs()
      requires Coherent()
      ensures |lineEndings| == NewlineCount(Text())
      ensures forall i :: 0 <= i < |lineEndings| ==>
        lineEndings[i] == Ending(Raw(NewlineAt(Text(), i)), NewlineAt(Text(), i))
    {
      hide EncodeAll, RawEndings, RawOf;
      IndexHoldsNewlines(left, right, Gap());
    }

    /** The number of lines, which is one more than the number of newlines. */
    method LenLines() returns (n: nat)
      requires Coherent()
      ensures n == NewlineCount(Text()) + 1
    {
      hide EncodeAll, RawEndings, Raw;
      IndexIs();
      if lineEndings == [] {
        return 1;
      }
      var rawIdx := lineEndings[|lineEndings| - 1].byte;
      RawIs(NewlineAt(Text(), |lineEndings| - 1));
      NewlineInside(|lineEndings| - 1);
      // The source subtracts the end of the gap here, not its size; the difference is never seen.
      var byteIdx := if rawIdx > gapStart then rawIdx - gapEnd else rawIdx;
      // A newline at or behind the end of the text would not start another line: there is none.
      assert byteIdx < Len();
      return |lineEndings| + 1;
    }

    /** A newline lies in front of the gap or behind it, and takes one byte. */
    lemma {:induction false} NewlineInside(i: nat)
      requires Coherent() && i < NewlineCount(Text())
      ensures var p := NewlineAt(Text(), i);
        && (Raw(p) < gapStart || gapEnd <= Raw(p)) && Raw(p) < cap
        && RawAt(Raw(p) + 1, p + 1)
        && (Raw(p) + 1 == cap ==> p + 1 == |Text()|)
    {
      hide EncodeAll, RawEndings, Raw, RawAt, NewlineAt, NewlineCount, Width;
      OneByteInside(NewlineAt(Text(), i));
    }

    lemma OneByteInside(p: nat)
      requires Coherent() && p < |Text()| && Text()[p] == '\n'
      ensures (Raw(p) < gapStart || gapEnd <= Raw(p)) && Raw(p) < cap
      ensures RawAt(Raw(p) + 1, p + 1)
      ensures Raw(p) + 1 == cap ==> p + 1 == |Text()|
    {
      NewlineWidth();
      hide EncodeAll, RawEndings, Raw, RawAt, Width;
      if p < |left| {
        OneByteBeforeGap(p);
      } else {
        OneByteBehindGap(p);
      }
    }

    lemma OneByteBeforeGap(p: nat)
      requires Coherent() && p < |left| && Width(Text()[p]) == 1
      ensures Raw(p) < gapStart && RawAt(Raw(p) + 1, p + 1)
    {
      hide EncodeAll, RawEndings, Width;
      RawIs(p);
      RawIs(p + 1);
      OffsetStep(left, p);
      assert left[..|left|] == left;
    }

    lemma OneByteBehindGap(p: nat)
      requires Coherent() && |left| <= p < |Text()| && Width(Text()[p]) == 1
      ensures gapEnd <= Raw(p) < cap && RawAt(Raw(p) + 1, p + 1)
      ensures Raw(p) + 1 == cap ==> p + 1 == |Text()|
    {
      hide EncodeAll, RawEndings, Width;
      var q := p - |left|;
      RawIs(p);
      RawIs(p + 1);
      OffsetStep(right, q);
      OffsetMonotone(right, q + 1, |right|);
      assert right[..|right|] == right;
    }

    /** Where line `lineIdx` starts and ends in the array. */
    lemma LineBounds(lineIdx: nat)
      requires Coherent() && lineIdx <= NewlineCount(Text()) && |lineEndings| == NewlineCount(Text())
      ensures var from := if lineIdx == 0 then 0 else lineEndings[lineIdx - 1].byte + 1;
        var to := if lineIdx < |lineEndings| then lineEndings[lineIdx].byte + 1 else cap;
        var c0, c1 := LineStart(Text(), lineIdx), LineEnd(Text(), lineIdx);
        && RawAt(from, c0) && from <= to && c0 <= c1
        && (RawAt(to, c1) || (c1 == |Text()| && to == cap))
        && (from == to ==> c0 == c1)
    {
      hide EncodeAll, RawEndings, RawOf, SplitLines, NewlineAt, NewlineCount;
      IndexIs();
      LineIsBetween(Text(), lineIdx);
      if lineIdx > 0 {
        NewlineInside(lineIdx - 1);
      } else {
        FirstCharAtZero();
      }
      if lineIdx < |lineEndings| {
        NewlineInside(lineIdx);
        if lineIdx > 0 {
          NewlinesIncrease(Text(), lineIdx);
          RawOfMonotone(left, right, Gap(), NewlineAt(Text(), lineIdx - 1), NewlineAt(Text(), lineIdx));
        }
      }
    }

    lemma FirstCharAtZero()
      requires Coherent()
      ensures RawAt(0, 0) && RawByteToByte(0) == 0
    {
      hide EncodeAll, RawEndings;
      assert Text()[..0] == [];
    }

    /** Line `lineIdx`, with its newline. */
    method Line(lineIdx: nat) returns (s: Slice)
      requires Coherent() && lineIdx <= NewlineCount(Text())
      ensures |SplitLines(Text())| == NewlineCount(Text()) + 1
      ensures Shows(s, SplitLines(Text())[lineIdx])
    {
      hide EncodeAll, RawEndings, Raw, SplitLines, Shows, RawAt, FromRawOffsets;
      IndexIs();
      LineBounds(lineIdx);
      LineIsBetween(Text(), lineIdx);
      var to := if lineIdx < |lineEndings| then lineEndings[lineIdx].byte + 1 else cap;
      var from := if lineIdx == 0 then 0 else lineEndings[lineIdx - 1].byte + 1;
      if from == to {
        ShowsNothing();
        return NULL;
      }
      SliceBetween(from, to, LineStart(Text(), lineIdx), LineEnd(Text(), lineIdx));
      return FromRawOffsets(from, to);
    }

    /** The character offset at which a line starts, if there is such a line. */
    method TryLineToChar(lineIdx: nat) returns (r: Option<nat>)
      requires Coherent()
      ensures r == if lineIdx <= NewlineCount(Text()) then Some(LineStart(Text(), lineIdx)) else None
    {
      hide EncodeAll, RawEndings, Raw;
      IndexIs();
      var n := LenLines();
      if lineIdx > n - 1 {
        return None;
      }
      return Some(if lineIdx == 0 then 0 else lineEndings[lineIdx - 1].chr + 1);
    }

    /** The line that holds a character offset, which is one with as many newlines before it. */
    method TryCharToLine(charIdx: nat) returns (r: Option<nat>)
      requires Coherent()
      ensures r == if charIdx <= |Text()| then Some(NewlineCount(Text()[..charIdx])) else None
    {
      hide EncodeAll, RawEndings, Raw, PartitionPointByChar, NewlineAt;
      if charIdx < nChars {
        IndexIs();
        RawEndingsIncreasing(left, right, gapEnd);
        var line := PartitionPointByChar(lineEndings, charIdx);
        NewlinesBefore(Text(), charIdx, line);
        return Some(line);
      } else if charIdx == nChars {
        var n := LenLines();
        assert Text()[..charIdx] == Text();
        return Some(n - 1);
      } else {
        return None;
      }
    }

    /** The number of characters of a line, with its newline. */
    method LineLenChars(lineIdx: nat) returns (n: nat)
      requires Coherent() && lineIdx <= NewlineCount(Text())
      ensures |SplitLines(Text())| == NewlineCount(Text()) + 1
      ensures n == |SplitLines(Text())[lineIdx]|
    {
      hide EncodeAll, RawEndings, Raw, SplitLines;
      IndexIs();
      LineIsBetween(Text(), lineIdx);
      if lineEndings == [] {
        return nChars;
      }
      var charsTo := if lineIdx < |lineEndings| then lineEndings[lineIdx].chr + 1 else nChars;
      var charsFrom := if lineIdx == 0 then 0 else lineEndings[lineIdx - 1].chr + 1;
      return charsTo - charsFrom;
    }

    /** The byte offset at which a line starts. */
    method LineToByte(lineIdx: nat) returns (r: nat)
      requires Coherent() && lineIdx <= NewlineCount(Text())
      ensures r == ByteLen(Text()[..LineStart(Text(), lineIdx)])
    {
      hide EncodeAll, RawEndings, Raw, RawAt;
      IndexIs();
      LineBounds(lineIdx);
      var raw := if lineIdx == 0 then 0 else lineEndings[lineIdx - 1].byte + 1;
      RawAtByte(raw, LineStart(Text(), lineIdx));
      return RawByteToByte(raw);
    }

    /** Both ends of the gap convert to the same byte offset. */
    lemma RawAtByte(raw: nat, c: nat)
      requires Coherent() && RawAt(raw, c)
      ensures raw > gapStart ==> raw >= Gap()
      ensures RawByteToByte(raw) == ByteLen(Text()[..c])
      ensures RawAt(ByteToRawByte(ByteLen(Text()[..c])), c)
    {
      hide EncodeAll, RawEndings;
      RawIs(c);
      WholePrefixes();
    }

    /** The text between two character offsets. */
    method SliceOf(charFrom: nat, charTo: nat) returns (s: Slice)
      requires Valid() && charFrom <= charTo <= |Text()|
      modifies `cache
      ensures Valid()
      ensures Shows(s, Text()[charFrom..charTo])
    {
      hide EncodeAll, RawEndings, RawOf, Shows, FromRawOffsets;
      if charFrom == charTo {
        assert Text()[charFrom..charTo] == [];
        ShowsNothing();
        return NULL;
      }
      var byteFrom := CharToRawByte(charFrom);
      var byteTo := OffsetCharToRawByte(charTo, byteFrom, charFrom);
      RawOfMonotone(left, right, Gap(), charFrom, charTo);
      SliceBetween(byteFrom, byteTo, charFrom, charTo);
      return FromRawOffsets(byteFrom, byteTo);
    }

    /** The text between two byte offsets, at which characters `c0` and `c1` start. */
    method SliceFromByteOffsets(byteFrom: nat, byteTo: nat, ghost c0: nat, ghost c1: nat) returns (s: Slice)
      requires Coherent() && c0 <= c1 <= |Text()|
      requires byteFrom == ByteLen(Text()[..c0]) && byteTo == ByteLen(Text()[..c1])
      ensures Shows(s, Text()[c0..c1])
    {
      hide EncodeAll, RawEndings, Raw, Shows, FromRawOffsets, RawAt;
      OffsetMonotone(Text(), c0, c1);
      if byteFrom == byteTo {
        ShowsNothing();
        return NULL;
      }
      RawAtByteOffset(c0);
      RawAtByteOffset(c1);
      var from := ByteToRawByte(byteFrom);
      var to := ByteToRawByte(byteTo);
      SliceBetween(from, to, c0, c1);
      return FromRawOffsets(from, to);
    }

    lemma RawAtByteOffset(c: nat)
      requires Coherent() && c <= |Text()|
      ensures RawAt(ByteToRawByte(ByteLen(Text()[..c])), c)
    {
      hide EncodeAll, RawEndings, Raw;
      RawAtByte(Raw(c), c);
    }

    /** Byte `byteIdx` lies in character `c`, or in none if that is the end of the text. */
    ghost predicate InChar(byteIdx: nat, c: nat)
      reads `left, `right
      requires c <= |Text()|
    {
      ByteLen(Text()[..c]) <= byteIdx && (c < |Text()| ==> byteIdx < ByteLen(Text()[..c + 1]))
    }

    lemma InCharStarting(c: nat)
      requires c <= |Text()|
      ensures InChar(ByteLen(Text()[..c]), c)
    {
      hide EncodeAll;
      if c < |Text()| {
        OffsetStep(Text(), c);
      }
    }

    lemma InCharOnly(byteIdx: nat, c: nat, p: nat)
      requires c <= |Text()| && p <= |Text()| && InChar(byteIdx, c)
      ensures p < c ==> ByteLen(Text()[..p]) < byteIdx
      ensures c < p ==> byteIdx < ByteLen(Text()[..p])
    {
      hide EncodeAll;
      if p < c {
        OffsetMonotone(Text(), p, c);
      } else if c < p {
        OffsetMonotone(Text(), c + 1, p);
      }
    }

    /** Compares a newline with the raw offset that byte_to_char searches for a byte of character `c`. */
    lemma NewlineAgainst(i: nat, byteIdx: nat, c: nat)
      requires Coherent() && i < |lineEndings| && c <= |Text()| && InChar(byteIdx, c)
      ensures lineEndings[i].chr < |Text()| && lineEndings[i].byte == Raw(lineEndings[i].chr)
      ensures lineEndings[i].byte < ByteToRawByte(byteIdx) ==> lineEndings[i].chr < c
      ensures lineEndings[i].byte == ByteToRawByte(byteIdx) ==>
        lineEndings[i].chr == c && byteIdx == ByteLen(Text()[..c])
      ensures lineEndings[i].byte > ByteToRawByte(byteIdx) ==> c <= lineEndings[i].chr
    {
      hide EncodeAll, RawEndings, NewlineAt, NewlineCount;
      IndexIs();
      NewlineInside(i);
      var p := NewlineAt(Text(), i);
      RawIs(p);
      InCharOnly(byteIdx, c, p);
      if p == c {
        NewlineOneByte(p);
      }
    }

    /** A newline is one byte, so that no byte lies inside it. */
    lemma NewlineOneByte(p: nat)
      requires p < |Text()| && Text()[p] == '\n'
      ensures forall b :: InChar(b, p) ==> b == ByteLen(Text()[..p])
    {
      hide EncodeAll;
      OffsetStep(Text(), p);
    }

    /** The character that starts at byte `byteIdx`. For a byte inside a character the end of its line is
        returned, and for one behind the text the end of the text. */
    method ByteToChar(byteIdx: nat, ghost c: nat) returns (r: nat)
      requires Coherent() && c <= |Text()| && InChar(byteIdx, c)
      ensures r == if byteIdx == ByteLen(Text()[..c]) then c else NextNewline(Text(), c)
    {
      hide EncodeAll, RawEndings, Raw, RawAt, InChar, ByteToRawByte, NewlineAt, NewlineCount, NextNewline;
      IndexIs();
      FirstCharAtZero();
      var to := cap;
      ghost var c1 := |Text()|;
      var rawByteIdx := ByteToRawByte(byteIdx);
      var rawByteOffset: nat, charOffset: nat := 0, 0;
      var i := 0;
      while i < |lineEndings|
        invariant i <= |lineEndings| && to == cap && c1 == |Text()|
        invariant charOffset <= c && RawAt(rawByteOffset, charOffset)
        invariant i > 0 ==> NewlineAt(Text(), i - 1) < c
      {
        var e := lineEndings[i];
        NewlineAgainst(i, byteIdx, c);
        if e.byte < rawByteIdx {
          RawAtItself(e.chr);
          rawByteOffset, charOffset := e.byte, e.chr;
        } else if e.byte == rawByteIdx {
          return e.chr;
        } else {
          to, c1 := e.byte, e.chr;
          break;
        }
        i := i + 1;
      }
      StopsAt(c, i, c1);
      r := CountTo(byteIdx, rawByteOffset, charOffset, to, c, c1);
    }

    lemma StopsAt(c: nat, i: nat, c1: nat)
      requires c <= c1 <= |Text()| && i <= NewlineCount(Text()) && (i > 0 ==> NewlineAt(Text(), i - 1) < c)
      requires c1 == if i < NewlineCount(Text()) then NewlineAt(Text(), i) else |Text()|
      ensures NextNewline(Text(), c) == c1
    {
      hide NewlineAt, NewlineCount, NextNewline;
      NewlinesBefore(Text(), c, i);
      NewlinesBefore(Text(), c1, i);
      NextNewlineIs(Text(), c, c1);
    }

    lemma RawAtItself(c: nat)
      requires Coherent() && c <= |Text()|
      ensures RawAt(Raw(c), c)
    {
    }

    /** Counts characters from `charOffset` until byte `byteIdx` is reached, or up to `c1`. */
    method CountTo(byteIdx: nat, rawByteOffset: nat, charOffset: nat, to: nat, ghost c: nat, ghost c1: nat)
      returns (r: nat)
      requires Coherent() && charOffset <= c <= c1 <= |Text()| && InChar(byteIdx, c)
      requires RawAt(rawByteOffset, charOffset)
      requires to == Raw(c1) || (c1 == |Text()| && to == cap)
      ensures r == if byteIdx == ByteLen(Text()[..c]) then c else c1
    {
      hide EncodeAll, RawEndings, Raw, RawAt, Shows, Width, FromRawOffsets, InChar;
      RawAtByte(rawByteOffset, charOffset);
      BeforeTo(rawByteOffset, charOffset, to, c1);
      SliceBetween(rawByteOffset, to, charOffset, c1);
      var slice := FromRawOffsets(rawByteOffset, to);
      ghost var sub := Text()[charOffset..c1];
      var chars := new Chars(slice, sub);
      var byteCur := RawByteToByte(rawByteOffset);
      r := charOffset;
      var next := chars.Next();
      while next.Some?
        invariant chars.Valid() && fresh(chars) && chars.text == sub
        invariant charOffset <= r <= c1 && byteCur == ByteLen(Text()[..r])
        invariant byteIdx == ByteLen(Text()[..c]) ==> r <= c
        invariant next.Some? ==> r < c1 && chars.pos == r + 1 - charOffset && next.value == Text()[r]
        invariant next.None? ==> r == c1
        decreases next.Some?, c1 - r
      {
        if byteCur == byteIdx {
          InCharOnly(byteIdx, c, r);
          break;
        }
        OffsetStep(Text(), r);
        byteCur := byteCur + Width(next.value);
        r := r + 1;
        next := chars.Next();
      }
    }

    lemma BeforeTo(raw: nat, c0: nat, to: nat, c1: nat)
      requires Coherent() && c0 <= c1 <= |Text()| && RawAt(raw, c0)
      requires to == Raw(c1) || (c1 == |Text()| && to == cap)
      ensures raw <= to && (RawAt(to, c1) || (c1 == |Text()| && cap <= to))
    {
      hide EncodeAll, RawEndings;
      RawIs(c0);
      RawIs(c1);
      OffsetMonotone(Text(), c0, c1);
    }

    /** The number of characters between two raw offsets, at which characters `c0` and `c1` start. */
    method CharsInRawRange(rawFrom: nat, rawTo: nat, ghost c0: nat, ghost c1: nat) returns (n: nat)
      requires Coherent() && c0 <= c1 && rawFrom <= rawTo && RawAt(rawFrom, c0) && RawAt(rawTo, c1)
      ensures n == c1 - c0
    {
      hide EncodeAll, RawEndings, Shows, Raw, RawAt;
      RawAtInside(rawTo, c1);
      SliceBetween(rawFrom, rawTo, c0, c1);
      ghost var sub := Text()[c0..c1];
      ghost var m := SplitPoint(FromRawOffsets(rawFrom, rawTo), sub);
      if rawTo <= gapStart || rawFrom >= gapEnd {
        WholeLeft(data[rawFrom..rawTo], sub, m);
        n := CountChars(data[rawFrom..rawTo], sub);
      } else {
        var a := CountChars(data[rawFrom..gapStart], sub[..m]);
        var b := CountChars(data[gapEnd..rawTo], sub[m..]);
        n := a + b;
      }
    }

    lemma RawAtInside(raw: nat, c: nat)
      requires Coherent() && RawAt(raw, c)
      ensures raw <= data.Length && c <= |Text()|
    {
      hide EncodeAll, RawEndings;
      RawIs(c);
    }
  }

  /** A buffer that is made, asked for any offset and cleared has an entry in its cache that is none of its
      empty text: its gap was at the start from the beginning. The entry of a character lies inside the gap,
      where no raw offset has a byte offset. */
  method StaleCache(s: seq<char>, c: nat) returns (gb: GapBuffer)
    requires s != [] && c <= |s|
    ensures fresh(gb) && gb.Coherent() && gb.Text() == [] && c in gb.cache && !gb.CacheCoherent()
    ensures c < |s| ==> gb.gapStart < gb.cache[c] < gb.Gap()
  {
    hide EncodeAll, RawEndings;
    gb := new GapBuffer.From(s);
    var byteIdx := gb.CharToByte(c);
    assert gb.cache != map[];
    if c < |s| {
      gb.RawIs(c);
      gb.RawIs(|s|);
      OffsetMonotone(s, c, |s|);
    }
    gb.Clear();
  }

  method CopyAround(before: seq<byte>, behind: seq<byte>, capacity: nat) returns (buf: array<byte>)
    requires |before| + |behind| <= capacity
    ensures fresh(buf) && buf.Length == capacity
    ensures buf[..|before|] == before && buf[capacity - |behind|..] == behind
  {
    var from := capacity - |behind|;
    buf := new byte[capacity](i =>
      if 0 <= i < |before| then before[i] else if from <= i < capacity then behind[i - from] else 0);
  }
}
