/** UTF-8 as section 3 of RFC 3629 defines it, and the two decoders of the gap buffer.

    A `char` is a Unicode scalar value. Bytes are numbers, so the masks and shifts of the
    decoders are written as `%` and `*` with powers of two; the summands of every `|` in the
    source occupy disjoint bits, so `|` is `+`. */
module Utf8 {

  type byte = x: int | 0 <= x < 256

  /** The code point bits that go into the last byte, the one before it, and so on. */
  function Bits0(v: nat): (d: nat) ensures d < 0x40 { v % 0x40 }
  function Bits6(v: nat): (d: nat) ensures d < 0x40 { v / 0x40 % 0x40 }
  function Bits12(v: nat): (d: nat) ensures d < 0x40 { v / 0x1000 % 0x40 }
  function Above6(v: nat): (d: nat) ensures v < 0x800 ==> d < 0x20 { v / 0x40 }
  function Above12(v: nat): (d: nat) ensures v < 0x10000 ==> d < 0x10 { v / 0x1000 }
  function Above18(v: nat): (d: nat) ensures v < 0x110000 ==> d < 0x05 { v / 0x40000 }

  /** The encoding of one character: section 3 of RFC 3629. */
  function Encode(c: char): (r: seq<byte>)
    ensures 1 <= |r| <= 4
  {
    var v := c as int;
    if v < 0x80 then [v]
    else if v < 0x800 then [0xC0 + Above6(v), 0x80 + Bits0(v)]
    else if v < 0x10000 then [0xE0 + Above12(v), 0x80 + Bits6(v), 0x80 + Bits0(v)]
    else [0xF0 + Above18(v), 0x80 + Bits12(v), 0x80 + Bits6(v), 0x80 + Bits0(v)]
  }

  /** `char::len_utf8`. */
  function Width(c: char): (w: nat)
    ensures w == |Encode(c)|
  {
    var v := c as int;
    if v < 0x80 then 1 else if v < 0x800 then 2 else if v < 0x10000 then 3 else 4
  }

  function EncodeAll(s: seq<char>): (r: seq<byte>)
    ensures |r| >= |s|
    ensures s == [] ==> r == []
  {
    if s == [] then [] else EncodeAll(s[..|s| - 1]) + Encode(s[|s| - 1])
  }

  function ByteLen(s: seq<char>): (n: nat) {
    |EncodeAll(s)|
  }

  /** The bytes at `start` are the encoding of `c`. */
  ghost predicate EncodedAt(bytes: seq<byte>, start: nat, c: char) {
    start + Width(c) <= |bytes| && bytes[start..start + Width(c)] == Encode(c)
  }

  /** The bytes up to and including `end` finish with the encoding of `c`. */
  ghost predicate EncodedEndingAt(bytes: seq<byte>, end: nat, c: char) {
    end + 1 >= Width(c) && EncodedAt(bytes, end + 1 - Width(c), c)
  }

  // ---------------------------------------------------------------- decoding

  /** utf8_first_byte for the lead bytes of widths two, three and four. */
  function FirstByte2(b: byte): nat { b % 0x20 }
  function FirstByte3(b: byte): nat { b % 0x10 }
  function FirstByte4(b: byte): nat { b % 0x08 }

  /** The value bits of a continuation byte. */
  function ContBits(b: byte): nat { b % 0x40 }

  /** utf8_acc_cont_byte. */
  function AccContByte(ch: nat, b: byte): nat { ch * 0x40 + ContBits(b) }

  function Join3(init: nat, yz: nat): nat { init * 0x1000 + yz }

  function Join4(init: nat, yzw: nat): nat { init % 8 * 0x40000 + yzw }

  /** `(byte as i8) < -64`. */
  predicate IsContByte(b: byte) { 0x80 <= b < 0xC0 }

  /** Enough bytes follow `start` for its lead byte. */
  predicate CanDecodeAt(start: nat, bytes: seq<byte>) {
    && start < |bytes|
    && (bytes[start] >= 0x80 ==> start + 1 < |bytes|)
    && (bytes[start] >= 0xE0 ==> start + 2 < |bytes|)
    && (bytes[start] >= 0xF0 ==> start + 3 < |bytes|)
  }

  /** The code point that decode_char_at computes. */
  function DecodeAt(start: nat, bytes: seq<byte>): nat
    requires CanDecodeAt(start, bytes)
  {
    var x := bytes[start];
    if x < 128 then x
    else
      var init := FirstByte2(x);
      var y := bytes[start + 1];
      if x < 0xE0 then AccContByte(init, y)
      else
        var yz := AccContByte(ContBits(y), bytes[start + 2]);
        if x < 0xF0 then Join3(init, yz)
        else Join4(init, AccContByte(yz, bytes[start + 3]))
  }

  /** Enough bytes precede `end` for the continuation bytes found there. */
  predicate CanDecodeEndingAt(end: nat, bytes: seq<byte>) {
    && end < |bytes|
    && (bytes[end] >= 0x80 ==> end >= 1)
    && (bytes[end] >= 0x80 && IsContByte(bytes[end - 1]) ==> end >= 2)
    && (bytes[end] >= 0x80 && IsContByte(bytes[end - 1]) && IsContByte(bytes[end - 2]) ==> end >= 3)
  }

  /** The code point that decode_char_ending_at computes. */
  function DecodeEndingAt(end: nat, bytes: seq<byte>): nat
    requires CanDecodeEndingAt(end, bytes)
  {
    var w := bytes[end];
    if w < 128 then w
    else
      var z := bytes[end - 1];
      var ch :=
        if !IsContByte(z) then FirstByte2(z)
        else
          var y := bytes[end - 2];
          AccContByte(
            if !IsContByte(y) then FirstByte3(y)
            else AccContByte(FirstByte4(bytes[end - 3]), y),
            z);
      AccContByte(ch, w)
  }

  /** The bytes of an encoded character, counted from its first byte. */
  lemma BytesAt(bytes: seq<byte>, start: nat, c: char)
    requires EncodedAt(bytes, start, c)
    ensures forall i {:trigger Encode(c)[i]} :: 0 <= i < Width(c) ==> bytes[start + i] == Encode(c)[i]
  {
    hide Encode;
    forall i | 0 <= i < Width(c)
      ensures bytes[start + i] == Encode(c)[i]
    {
      assert bytes[start + i] == bytes[start..start + Width(c)][i];
    }
  }

  /** The masks keep exactly the value bits of each byte. */
  lemma LowBits(d: nat)
    ensures d < 0x40 ==> ContBits(0x80 + d) == d
    ensures d < 0x20 ==> FirstByte2(0xC0 + d) == d
    ensures d < 0x10 ==> FirstByte2(0xE0 + d) == FirstByte3(0xE0 + d) == d
    ensures d < 0x08 ==> FirstByte4(0xF0 + d) == d && FirstByte2(0xF0 + d) % 8 == d
  {
  }

  lemma Digit0(v: nat)
    ensures v == Above6(v) * 0x40 + Bits0(v)
  {
  }

  lemma DivTwice(v: nat, m: nat)
    requires m == 0x40 || m == 0x1000
    ensures v / m / 0x40 == v / (m * 0x40)
  {
    var q := v / m;
    var q' := q / 0x40;
    var rest := q % 0x40 * m + v % m;
    assert v == q' * (m * 0x40) + rest;
    assert 0 <= rest < m * 0x40;
  }

  lemma Digit6(v: nat)
    ensures Above6(v) == Above12(v) * 0x40 + Bits6(v)
  {
    DivTwice(v, 0x40);
  }

  lemma Digit12(v: nat)
    ensures Above12(v) == Above18(v) * 0x40 + Bits12(v)
  {
    DivTwice(v, 0x1000);
  }

  /** The code point read back from the bytes of each width, lead byte first or last byte first. */
  lemma CodePoint2(v: nat)
    requires 0x80 <= v < 0x800
    ensures AccContByte(FirstByte2(0xC0 + Above6(v)), 0x80 + Bits0(v)) == v
  {
    hide Bits0, Above6, FirstByte2, ContBits;
    LowBits(Above6(v));
    LowBits(Bits0(v));
    Digit0(v);
  }

  lemma CodePoint3(v: nat)
    requires 0x800 <= v < 0x10000
    ensures var x, y, z := 0xE0 + Above12(v), 0x80 + Bits6(v), 0x80 + Bits0(v);
      && Join3(FirstByte2(x), AccContByte(ContBits(y), z)) == v
      && AccContByte(AccContByte(FirstByte3(x), y), z) == v
  {
    hide Bits0, Bits6, Above6, Above12, FirstByte2, FirstByte3, ContBits;
    LowBits(Above12(v));
    LowBits(Bits6(v));
    LowBits(Bits0(v));
    Digit0(v);
    Digit6(v);
  }

  lemma CodePoint4(v: nat)
    requires 0x10000 <= v < 0x110000
    ensures var x, y, z, w := 0xF0 + Above18(v), 0x80 + Bits12(v), 0x80 + Bits6(v), 0x80 + Bits0(v);
      && Join4(FirstByte2(x), AccContByte(AccContByte(ContBits(y), z), w)) == v
      && AccContByte(AccContByte(AccContByte(FirstByte4(x), y), z), w) == v
  {
    hide Bits0, Bits6, Bits12, Above6, Above12, Above18, FirstByte2, FirstByte4, ContBits;
    LowBits(Above18(v));
    LowBits(Bits12(v));
    LowBits(Bits6(v));
    LowBits(Bits0(v));
    Digit0(v);
    Digit6(v);
    Digit12(v);
  }

  lemma DecodeAtInvertsEncode(bytes: seq<byte>, start: nat, c: char)
    requires EncodedAt(bytes, start, c)
    ensures CanDecodeAt(start, bytes)
    ensures DecodeAt(start, bytes) == c as int
  {
    hide Bits0, Bits6, Bits12, Above6, Above12, Above18;
    hide FirstByte2, ContBits, AccContByte, Join3, Join4;
    BytesAt(bytes, start, c);
    var v, e := c as int, Encode(c);
    assert bytes[start + 0] == e[0];
    if v < 0x80 {
    } else if v < 0x800 {
      assert bytes[start + 1] == e[1];
      CodePoint2(v);
    } else if v < 0x10000 {
      assert bytes[start + 1] == e[1] && bytes[start + 2] == e[2];
      CodePoint3(v);
    } else {
      assert bytes[start + 1] == e[1] && bytes[start + 2] == e[2] && bytes[start + 3] == e[3];
      CodePoint4(v);
    }
  }

  lemma EndingAt1(bytes: seq<byte>, end: nat)
    requires end < |bytes| && bytes[end] < 0x80
    ensures CanDecodeEndingAt(end, bytes) && DecodeEndingAt(end, bytes) == bytes[end]
  {
  }

  lemma EndingAt2(bytes: seq<byte>, end: nat, v: nat)
    requires 0x80 <= v < 0x800 && 1 <= end < |bytes|
    requires bytes[end - 1] == 0xC0 + Above6(v) && bytes[end] == 0x80 + Bits0(v)
    ensures CanDecodeEndingAt(end, bytes) && DecodeEndingAt(end, bytes) == v
  {
    hide Bits0, Above6, FirstByte2, ContBits, AccContByte;
    CodePoint2(v);
  }

  lemma EndingAt3(bytes: seq<byte>, end: nat, v: nat)
    requires 0x800 <= v < 0x10000 && 2 <= end < |bytes|
    requires bytes[end - 2] == 0xE0 + Above12(v)
    requires bytes[end - 1] == 0x80 + Bits6(v) && bytes[end] == 0x80 + Bits0(v)
    ensures CanDecodeEndingAt(end, bytes) && DecodeEndingAt(end, bytes) == v
  {
    hide Bits0, Bits6, Above12, FirstByte2, FirstByte3, ContBits, AccContByte, Join3;
    CodePoint3(v);
  }

  lemma EndingAt4(bytes: seq<byte>, end: nat, v: nat)
    requires 0x10000 <= v < 0x110000 && 3 <= end < |bytes|
    requires bytes[end - 3] == 0xF0 + Above18(v) && bytes[end - 2] == 0x80 + Bits12(v)
    requires bytes[end - 1] == 0x80 + Bits6(v) && bytes[end] == 0x80 + Bits0(v)
    ensures CanDecodeEndingAt(end, bytes) && DecodeEndingAt(end, bytes) == v
  {
    hide Bits0, Bits6, Bits12, Above18, FirstByte2, FirstByte4, ContBits, AccContByte, Join4;
    CodePoint4(v);
  }

  lemma DecodeEndingAtInvertsEncode(bytes: seq<byte>, end: nat, c: char)
    requires EncodedEndingAt(bytes, end, c)
    ensures CanDecodeEndingAt(end, bytes)
    ensures DecodeEndingAt(end, bytes) == c as int
  {
    hide DecodeEndingAt, CanDecodeEndingAt, Bits0, Bits6, Bits12, Above6, Above12, Above18;
    var start, v, e := end + 1 - Width(c), c as int, Encode(c);
    BytesAt(bytes, start, c);
    assert bytes[start + 0] == e[0];
    if v < 0x80 {
      EndingAt1(bytes, end);
    } else if v < 0x800 {
      assert bytes[start + 1] == e[1];
      EndingAt2(bytes, end, v);
    } else if v < 0x10000 {
      assert bytes[start + 1] == e[1] && bytes[start + 2] == e[2];
      EndingAt3(bytes, end, v);
    } else {
      assert bytes[start + 1] == e[1] && bytes[start + 2] == e[2] && bytes[start + 3] == e[3];
      EndingAt4(bytes, end, v);
    }
  }

  /** decode_char_at, whose callers promise that a character starts at `start`. */
  function DecodeCharAt(start: nat, bytes: seq<byte>): (c: char)
    requires exists c :: EncodedAt(bytes, start, c)
    ensures EncodedAt(bytes, start, c)
  {
    ghost var c :| EncodedAt(bytes, start, c);
    DecodeAtInvertsEncode(bytes, start, c);
    DecodeAt(start, bytes) as char
  }

  /** decode_char_ending_at, whose callers promise that a character ends at `end`. */
  function DecodeCharEndingAt(end: nat, bytes: seq<byte>): (c: char)
    requires exists c :: EncodedEndingAt(bytes, end, c)
    ensures EncodedEndingAt(bytes, end, c)
  {
    ghost var c :| EncodedEndingAt(bytes, end, c);
    DecodeEndingAtInvertsEncode(bytes, end, c);
    DecodeEndingAt(end, bytes) as char
  }

  /** UTF-8 is prefix free, so the character at an offset is unique. */
  lemma EncodedAtUnique(bytes: seq<byte>, start: nat, c: char, d: char)
    requires EncodedAt(bytes, start, c) && EncodedAt(bytes, start, d)
    ensures c == d
  {
    DecodeAtInvertsEncode(bytes, start, c);
    DecodeAtInvertsEncode(bytes, start, d);
  }

  lemma EncodedEndingAtUnique(bytes: seq<byte>, end: nat, c: char, d: char)
    requires EncodedEndingAt(bytes, end, c) && EncodedEndingAt(bytes, end, d)
    ensures c == d
  {
    DecodeEndingAtInvertsEncode(bytes, end, c);
    DecodeEndingAtInvertsEncode(bytes, end, d);
  }

  // ---------------------------------------------------------------- whole strings

  lemma {:induction false} EncodeAllConcat(a: seq<char>, b: seq<char>)
    ensures EncodeAll(a + b) == EncodeAll(a) + EncodeAll(b)
    ensures ByteLen(a + b) == ByteLen(a) + ByteLen(b)
    decreases |b|
  {
    hide Encode;
    var s := a + b;
    if b == [] {
      assert s == a;
    } else {
      var b', last := b[..|b| - 1], b[|b| - 1];
      assert s[..|s| - 1] == a + b' && s[|s| - 1] == last;
      EncodeAllConcat(a, b');
      Assoc(EncodeAll(a), EncodeAll(b'), Encode(last));
    }
  }

  lemma Assoc<T>(x: seq<T>, y: seq<T>, z: seq<T>)
    ensures x + y + z == x + (y + z)
  {
  }

  lemma EncodeOne(c: char)
    ensures EncodeAll([c]) == Encode(c)
  {
    assert [c][..0] == [];
  }

  /** Splitting a string at a character index splits its bytes. */
  lemma {:induction false} EncodeSplit(s: seq<char>, p: nat)
    requires p <= |s|
    ensures EncodeAll(s) == EncodeAll(s[..p]) + EncodeAll(s[p..])
    ensures ByteLen(s[..p]) + ByteLen(s[p..]) == ByteLen(s)
  {
    assert s == s[..p] + s[p..];
    EncodeAllConcat(s[..p], s[p..]);
  }

  lemma OffsetStep(s: seq<char>, p: nat)
    requires p < |s|
    ensures ByteLen(s[..p + 1]) == ByteLen(s[..p]) + Width(s[p])
  {
    assert s[..p + 1][..p] == s[..p];
  }

  lemma OffsetMonotone(s: seq<char>, p: nat, q: nat)
    requires p <= q <= |s|
    ensures ByteLen(s[..p]) + (q - p) <= ByteLen(s[..q])
    ensures ByteLen(s[..q]) == ByteLen(s[..p]) + ByteLen(s[p..q])
  {
    EncodeSplit(s[..q], p);
    assert s[..q][..p] == s[..p];
    assert s[..q][p..] == s[p..q];
  }

  lemma {:induction false} CharEncodedAt(s: seq<char>, p: nat)
    requires p < |s|
    ensures EncodedAt(EncodeAll(s), ByteLen(s[..p]), s[p])
    ensures EncodedEndingAt(EncodeAll(s), ByteLen(s[..p + 1]) - 1, s[p])
  {
    OffsetStep(s, p);
    EncodeSplit(s, p + 1);
    assert s[..p + 1][..p] == s[..p];
  }

  lemma EncodedAtAppend(pre: seq<byte>, bytes: seq<byte>, post: seq<byte>, start: nat, c: char)
    requires EncodedAt(bytes, start, c)
    ensures EncodedAt(pre + bytes + post, |pre| + start, c)
  {
    var w := Width(c);
    assert (pre + bytes + post)[|pre| + start..|pre| + start + w] == bytes[start..start + w];
  }

  /** The bytes of a part of a string are a part of its bytes. */
  lemma {:induction false} EncodePart(s: seq<char>, p: nat, q: nat)
    requires p <= q <= |s|
    ensures ByteLen(s[..p]) <= ByteLen(s[..q]) <= ByteLen(s)
    ensures EncodeAll(s)[ByteLen(s[..p])..ByteLen(s[..q])] == EncodeAll(s[p..q])
  {
    hide EncodeAll;
    EncodeSplit(s, q);
    EncodeSplit(s[..q], p);
    assert s[..q][..p] == s[..p] && s[..q][p..] == s[p..q];
  }
}
