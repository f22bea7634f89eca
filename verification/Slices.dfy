/** Views of the text on both sides of the gap, and the iterators over their characters. */
module Slices {
  import opened Basics
  import opened Utf8

  /** The bytes of a region of the buffer; `from` is the logical byte offset it was taken from. */
  datatype Slice = Slice(from: nat, left: seq<byte>, right: seq<byte>) {
    function Len(): nat { |left| + |right| }

    function CurAndData(cur: nat): (nat, seq<byte>) {
      if cur < |left| then (cur, left) else (cur - |left|, right)
    }
  }

  const NULL := Slice(0, [], [])

  /** `s` shows exactly the text `chars`, split between two characters. */
  ghost predicate Shows(s: Slice, chars: seq<char>) {
    exists m: nat :: m <= |chars| && ShowsSplit(s, chars, m)
  }

  ghost predicate ShowsSplit(s: Slice, chars: seq<char>, m: nat)
    requires m <= |chars|
  {
    s.left == EncodeAll(chars[..m]) && s.right == EncodeAll(chars[m..])
  }

  /** A part of the bytes on one side of the gap shows a part of its text. */
  lemma {:induction false} ShowsPart(s: Slice, t: seq<char>, p: nat, q: nat)
    requires p <= q <= |t| && ByteLen(t[..p]) <= ByteLen(t[..q]) <= ByteLen(t)
    requires s.left == EncodeAll(t)[ByteLen(t[..p])..ByteLen(t[..q])] && s.right == []
    ensures Shows(s, t[p..q])
  {
    hide EncodeAll;
    EncodePart(t, p, q);
    assert t[p..q][..q - p] == t[p..q] && t[p..q][q - p..] == [];
    assert ShowsSplit(s, t[p..q], q - p);
  }

  /** The end of the bytes before the gap and the start of those behind it. */
  lemma {:induction false} ShowsAcross(s: Slice, l: seq<char>, r: seq<char>, p: nat, q: nat)
    requires p <= |l| && q <= |r| && ByteLen(l[..p]) <= ByteLen(l) && ByteLen(r[..q]) <= ByteLen(r)
    requires s.left == EncodeAll(l)[ByteLen(l[..p])..] && s.right == EncodeAll(r)[..ByteLen(r[..q])]
    ensures Shows(s, l[p..] + r[..q])
  {
    hide EncodeAll;
    EncodeSplit(l, p);
    EncodeSplit(r, q);
    var text, m := l[p..] + r[..q], |l| - p;
    assert text[..m] == l[p..] && text[m..] == r[..q];
    assert ShowsSplit(s, text, m);
  }

  /** Where a slice splits its text. */
  ghost function SplitPoint(s: Slice, chars: seq<char>): (m: nat)
    requires Shows(s, chars)
    ensures m <= |chars| && ShowsSplit(s, chars, m)
  {
    var m: nat :| m <= |chars| && ShowsSplit(s, chars, m);
    m
  }

  /** Without bytes on the right, all of the text is on the left. */
  lemma {:induction false} WholeLeft(bytes: seq<byte>, chars: seq<char>, m: nat)
    requires m <= |chars| && bytes == EncodeAll(chars[..m]) && [] == EncodeAll(chars[m..])
    ensures bytes == EncodeAll(chars)
  {
    assert |chars[m..]| == 0;
    assert chars[..m] == chars;
  }

  lemma ShowsNothing()
    ensures Shows(NULL, [])
  {
    var none: seq<char> := [];
    assert none[..0] == [] && none[0..] == [];
    assert ShowsSplit(NULL, none, 0);
  }

  lemma {:induction false} ShowsLen(s: Slice, chars: seq<char>)
    requires Shows(s, chars)
    ensures s.left + s.right == EncodeAll(chars) && s.Len() == ByteLen(chars)
  {
    hide EncodeAll;
    var m: nat :| m <= |chars| && ShowsSplit(s, chars, m);
    EncodeSplit(chars, m);
  }

  /** The character that starts at `cur` lies in the half of the slice that cur_and_data picks. */
  lemma CharInSlice(s: Slice, chars: seq<char>, p: nat)
    requires Shows(s, chars) && p < |chars|
    ensures var cur := ByteLen(chars[..p]);
      EncodedAt(s.CurAndData(cur).1, s.CurAndData(cur).0, chars[p])
  {
    hide EncodeAll, EncodedAt;
    var m: nat :| m <= |chars| && ShowsSplit(s, chars, m);
    OffsetInSplit(chars, m, p);
    if p < m {
      CharEncodedAt(chars[..m], p);
    } else {
      CharEncodedAt(chars[m..], p - m);
    }
  }

  /** The character that ends before `cur` lies in the half that cur_and_data picks for its last byte. */
  lemma CharEndingInSlice(s: Slice, chars: seq<char>, p: nat)
    requires Shows(s, chars) && 0 < p <= |chars|
    ensures var cur := ByteLen(chars[..p]);
      cur > 0 && EncodedEndingAt(s.CurAndData(cur - 1).1, s.CurAndData(cur - 1).0, chars[p - 1])
  {
    hide EncodeAll, EncodedEndingAt, EncodedAt;
    var m: nat :| m <= |chars| && ShowsSplit(s, chars, m);
    OffsetMonotone(chars, p - 1, p);
    OffsetInSplit(chars, m, p - 1);
    OffsetInSplit(chars, m, p);
    if p <= m {
      CharEncodedAt(chars[..m], p - 1);
    } else {
      CharEncodedAt(chars[m..], p - m - 1);
    }
  }

  /** Offsets on the two sides of a split. */
  lemma OffsetInSplit(chars: seq<char>, m: nat, p: nat)
    requires m <= |chars| && p <= |chars|
    ensures p < m ==> ByteLen(chars[..p]) < ByteLen(chars[..m])
    ensures p <= m ==> ByteLen(chars[..m][..p]) == ByteLen(chars[..p]) <= ByteLen(chars[..m])
    ensures m <= p ==> ByteLen(chars[..p]) == ByteLen(chars[..m]) + ByteLen(chars[m..][..p - m])
  {
    hide EncodeAll;
    if p <= m {
      OffsetMonotone(chars, p, m);
      assert chars[..m][..p] == chars[..p];
    }
    if m <= p {
      OffsetMonotone(chars, m, p);
      assert chars[m..][..p - m] == chars[m..p];
    }
  }

  /** count_chars: decodes `bytes`, the encoding of `text`, to count its characters. */
  method CountChars(bytes: seq<byte>, ghost text: seq<char>) returns (n: nat)
    requires bytes == EncodeAll(text)
    ensures n == |text|
  {
    hide EncodeAll, Width;
    n := 0;
    var cur := 0;
    assert text[..0] == [] && text[..|text|] == text;
    while cur < |bytes|
      invariant n <= |text| && cur == ByteLen(text[..n])
      decreases |bytes| - cur
    {
      CharEncodedAt(text, n);
      var ch := DecodeCharAt(cur, bytes);
      EncodedAtUnique(bytes, cur, ch, text[n]);
      OffsetStep(text, n);
      cur, n := cur + Width(ch), n + 1;
    }
    OffsetMonotone(text, n, |text|);
  }

  /** The cursor of an iterator runs off the end of the slice exactly when the text does. */
  lemma AtEnd(s: Slice, text: seq<char>, pos: nat)
    requires Shows(s, text) && pos <= |text|
    ensures ByteLen(text[..pos]) >= s.Len() <==> pos == |text|
    ensures ByteLen(text[..pos]) == 0 <==> pos == 0
  {
    hide EncodeAll, Shows;
    ShowsLen(s, text);
    OffsetMonotone(text, pos, |text|);
    OffsetMonotone(text, 0, pos);
    assert text[..|text|] == text && text[..0] == [];
  }

  /** Decodes the character that starts at `cur`. */
  method DecodeNext(s: Slice, cur: nat, ghost text: seq<char>, ghost pos: nat) returns (ch: char)
    requires Shows(s, text) && pos < |text| && cur == ByteLen(text[..pos])
    ensures ch == text[pos] && cur + Width(ch) == ByteLen(text[..pos + 1])
  {
    hide EncodeAll, Width, Shows;
    CharInSlice(s, text, pos);
    var at, data := s.CurAndData(cur).0, s.CurAndData(cur).1;
    ch := DecodeCharAt(at, data);
    EncodedAtUnique(data, at, ch, text[pos]);
    OffsetStep(text, pos);
  }

  /** Decodes the character that ends before `cur`. */
  method DecodePrev(s: Slice, cur: nat, ghost text: seq<char>, ghost pos: nat) returns (ch: char)
    requires Shows(s, text) && 0 < pos <= |text| && cur == ByteLen(text[..pos])
    ensures ch == text[pos - 1] && cur == ByteLen(text[..pos - 1]) + Width(ch)
  {
    hide EncodeAll, Width, Shows;
    CharEndingInSlice(s, text, pos);
    var at, data := s.CurAndData(cur - 1).0, s.CurAndData(cur - 1).1;
    ch := DecodeCharEndingAt(at, data);
    EncodedEndingAtUnique(data, at, ch, text[pos - 1]);
    OffsetStep(text, pos - 1);
  }

  /** An iterator over the characters of a slice. */
  class Chars {
    const s: Slice
    var cur: nat
    ghost const text: seq<char>
    ghost var pos: nat

    ghost predicate Valid()
      reads this
    {
      Shows(s, text) && pos <= |text| && cur == ByteLen(text[..pos])
    }

    constructor (s: Slice, ghost text: seq<char>)
      requires Shows(s, text)
      ensures Valid() && this.s == s && this.text == text && pos == 0
    {
      this.s, this.text, cur, pos := s, text, 0, 0;
      new;
      assert text[..0] == [];
    }

    method Next() returns (r: Option<char>)
      requires Valid()
      modifies this
      ensures Valid()
      ensures if old(pos) < |text| then r == Some(text[old(pos)]) && pos == old(pos) + 1
              else r == None && pos == old(pos)
    {
      hide EncodeAll, Width, Shows;
      AtEnd(s, text, pos);
      if cur >= s.Len() {
        return None;
      }
      var ch := DecodeNext(s, cur, text, pos);
      cur, pos := cur + Width(ch), pos + 1;
      return Some(ch);
    }
  }

  /** The string that a slice shows. */
  method ToString(s: Slice, ghost text: seq<char>) returns (r: seq<char>)
    requires Shows(s, text)
    ensures r == text
  {
    hide EncodeAll, Shows;
    r := [];
    var chars := new Chars(s, text);
    var c := chars.Next();
    while c.Some?
      invariant chars.Valid() && fresh(chars) && |r| <= chars.pos
      invariant if c.Some? then 0 < chars.pos && r == text[..chars.pos - 1] && c.value == text[chars.pos - 1]
        else r == text
      decreases |text| - |r|, c.Some?
    {
      assert text[..chars.pos] == r + [c.value];
      r := r + [c.value];
      c := chars.Next();
    }
  }

  /** An iterator over the characters of a slice and their indices, in either direction. A
      RevChars is one of these that runs backwards and does not look at the index. */
  class IdxChars {
    const s: Slice
    const rev: bool
    var cur: nat
    var idx: nat
    ghost const text: seq<char>
    ghost const from: nat
    ghost var pos: nat

    ghost predicate Valid()
      reads this
    {
      Shows(s, text) && pos <= |text| && cur == ByteLen(text[..pos]) && idx == from + pos
    }

    constructor (s: Slice, from: nat, rev: bool, ghost text: seq<char>)
      requires Shows(s, text)
      ensures Valid() && this.s == s && this.text == text && this.from == from && this.rev == rev
      ensures pos == if rev then |text| else 0
    {
      ghost var m: nat :| m <= |text| && ShowsSplit(s, text, m);
      this.s, this.text, this.from, this.rev := s, text, from, rev;
      var nLeft := CountChars(s.left, text[..m]);
      var nRight := CountChars(s.right, text[m..]);
      cur := if rev then |s.left| + |s.right| else 0;
      idx := if rev then from + nLeft + nRight else from;
      pos := if rev then |text| else 0;
      new;
      ShowsLen(s, text);
      assert text[..0] == [] && text[..|text|] == text;
    }

    method Next() returns (r: Option<(nat, char)>)
      requires Valid()
      modifies this
      ensures Valid()
      ensures !rev ==> if old(pos) < |text| then r == Some((from + old(pos), text[old(pos)])) && pos == old(pos) + 1
                       else r == None && pos == old(pos)
      ensures rev ==> if old(pos) > 0 then pos == old(pos) - 1 && r == Some((from + pos, text[pos]))
                      else r == None && pos == old(pos)
    {
      if rev {
        r := NextBack();
      } else {
        r := NextForward();
      }
    }

    method NextForward() returns (r: Option<(nat, char)>)
      requires Valid() && !rev
      modifies this
      ensures Valid()
      ensures if old(pos) < |text| then r == Some((from + old(pos), text[old(pos)])) && pos == old(pos) + 1
              else r == None && pos == old(pos)
    {
      hide EncodeAll, Width, Shows;
      AtEnd(s, text, pos);
      if cur >= s.Len() {
        return None;
      }
      var ch := DecodeNext(s, cur, text, pos);
      r := Some((idx, ch));
      cur, idx, pos := cur + Width(ch), idx + 1, pos + 1;
    }

    method NextBack() returns (r: Option<(nat, char)>)
      requires Valid() && rev
      modifies this
      ensures Valid()
      ensures if old(pos) > 0 then pos == old(pos) - 1 && r == Some((from + pos, text[pos]))
              else r == None && pos == old(pos)
    {
      hide EncodeAll, Width, Shows;
      AtEnd(s, text, pos);
      if cur == 0 {
        return None;
      }
      var ch := DecodePrev(s, cur, text, pos);
      idx, pos := idx - 1, pos - 1;
      cur := cur - Width(ch);
      r := Some((idx, ch));
    }
  }

  function Reverse<T>(s: seq<T>): (r: seq<T>)
    ensures |r| == |s|
  {
    if s == [] then [] else [s[|s| - 1]] + Reverse(s[..|s| - 1])
  }

  lemma ReverseNone<T>()
    ensures Reverse<T>([]) == []
  {
  }

  lemma {:induction false} ReverseFront<T>(s: seq<T>, k: nat)
    requires k < |s|
    ensures Reverse(s[k..]) == Reverse(s[k + 1..]) + [s[k]]
    decreases |s|
  {
    if k == |s| - 1 {
      assert s[k..][..0] == [];
    } else {
      var t := s[..|s| - 1];
      ReverseFront(t, k);
      var a, b := s[k..], s[k + 1..];
      assert a[..|a| - 1] == t[k..];
      assert b[..|b| - 1] == t[k + 1..];
    }
  }

  /** The characters of `text` with their indices, the first of which is `from`. */
  function Indexed(text: seq<char>, from: nat): (r: seq<(nat, char)>)
    ensures |r| == |text|
  {
    seq(|text|, i requires 0 <= i < |text| => (from + i, text[i]))
  }

  method DrainForward(it: IdxChars) returns (out: seq<(nat, char)>)
    requires it.Valid() && !it.rev && it.pos == 0
    modifies it
    ensures out == Indexed(it.text, it.from)
  {
    hide EncodeAll, Shows;
    ghost var all := Indexed(it.text, it.from);
    out := [];
    var next := it.Next();
    while next.Some?
      invariant it.Valid() && 0 <= it.pos <= |all| == |it.text|
      invariant if next.Some? then 0 < it.pos && out == all[..it.pos - 1] && next.value == all[it.pos - 1]
                else out == all
      decreases next.Some?, |it.text| - it.pos
    {
      out := out + [next.value];
      next := it.Next();
    }
  }

  method DrainBackward(it: IdxChars) returns (out: seq<(nat, char)>)
    requires it.Valid() && it.rev && it.pos == |it.text|
    modifies it
    ensures out == Reverse(Indexed(it.text, it.from))
  {
    ReverseNone<(nat, char)>();
    hide EncodeAll, Shows, Reverse;
    ghost var all := Indexed(it.text, it.from);
    assert all[|all|..] == [] && all[0..] == all;
    out := [];
    var next := it.Next();
    while next.Some?
      invariant it.Valid() && 0 <= it.pos <= |all| == |it.text|
      invariant if next.Some? then it.pos < |all| && out == Reverse(all[it.pos + 1..]) && next.value == all[it.pos]
                else out == Reverse(all)
      decreases next.Some?, it.pos
    {
      ReverseFront(all, it.pos);
      out := out + [next.value];
      next := it.Next();
    }
  }

  /** What a whole iteration yields: the text forwards, or exactly its reverse. */
  method Drain(it: IdxChars) returns (out: seq<(nat, char)>)
    requires it.Valid() && it.pos == if it.rev then |it.text| else 0
    modifies it
    ensures out == if it.rev then Reverse(Indexed(it.text, it.from)) else Indexed(it.text, it.from)
  {
    if it.rev {
      out := DrainBackward(it);
    } else {
      out := DrainForward(it);
    }
  }
}
