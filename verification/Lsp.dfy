/** Conversion between columns of the editor and positions of the language server protocol. */
module Lsp {
  import opened Basics
  import opened Utf8
  import opened LineIndex
  import opened Lines
  import opened Slices
  import opened GapBuffers

  datatype PositionEncoding = ByBytes | ByUtf16 | ByCodePoints

  const U32 := 0x1_0000_0000

  /** `char::len_utf16`. */
  function LenUtf16(c: char): nat { if c as int < 0x10000 then 1 else 2 }

  function Utf16Len(s: seq<char>): (n: nat)
    ensures |s| <= n
  {
    if s == [] then 0 else Utf16Len(s[..|s| - 1]) + LenUtf16(s[|s| - 1])
  }

  /** The units of a character in UTF-16: itself, or a surrogate pair. */
  function Utf16Of(c: char): seq<int> {
    var v := c as int;
    if v < 0x10000 then [v] else [0xD800 + (v - 0x10000) / 0x400, 0xDC00 + (v - 0x10000) % 0x400]
  }

  function EncodeUtf16(s: seq<char>): seq<int> {
    if s == [] then [] else Utf16Of(s[0]) + EncodeUtf16(s[1..])
  }

  /** The code points of a sequence of units. */
  function DecodeUtf16(u: seq<int>): seq<int> {
    if u == [] then []
    else if |u| > 1 && 0xD800 <= u[0] < 0xDC00 && 0xDC00 <= u[1] < 0xE000
    then [0x10000 + (u[0] - 0xD800) * 0x400 + (u[1] - 0xDC00)] + DecodeUtf16(u[2..])
    else [u[0]] + DecodeUtf16(u[1..])
  }

  /** The encoding can be read back, into units of 16 bits, and it is as long as the source counts. */
  lemma {:induction false} Utf16RoundTrip(s: seq<char>)
    ensures DecodeUtf16(EncodeUtf16(s)) == seq(|s|, k requires 0 <= k < |s| => s[k] as int)
    ensures forall k :: 0 <= k < |EncodeUtf16(s)| ==> 0 <= EncodeUtf16(s)[k] < 0x10000
    ensures |EncodeUtf16(s)| == Utf16Len(s)
  {
    if s != [] {
      var first, rest := Utf16Of(s[0]), EncodeUtf16(s[1..]);
      Utf16RoundTrip(s[1..]);
      Utf16LenFirst(s);
      assert (first + rest)[|first|..] == rest;
    }
  }

  lemma {:induction false} Utf16LenFirst(s: seq<char>)
    requires s != []
    ensures Utf16Len(s) == LenUtf16(s[0]) + Utf16Len(s[1..])
    decreases |s|
  {
    if |s| > 1 {
      var front := s[..|s| - 1];
      Utf16LenFirst(front);
      assert s[1..][..|s| - 2] == front[1..];
    }
  }

  /** The length of a text in the units of an encoding. */
  function Units(e: PositionEncoding, s: seq<char>): nat {
    match e
    case ByBytes => ByteLen(s)
    case ByUtf16 => Utf16Len(s)
    case ByCodePoints => |s|
  }

  lemma Utf16Step(s: seq<char>, p: nat)
    requires p < |s|
    ensures Utf16Len(s[..p + 1]) == Utf16Len(s[..p]) + LenUtf16(s[p])
  {
    assert s[..p + 1][..p] == s[..p];
  }

  lemma {:induction false} Utf16Monotone(s: seq<char>, p: nat, q: nat)
    requires p <= q <= |s|
    ensures Utf16Len(s[..p]) + (q - p) <= Utf16Len(s[..q])
    decreases q
  {
    if p < q {
      Utf16Monotone(s, p, q - 1);
      Utf16Step(s, q - 1);
    }
  }

  /** The text of a line, with its newline. */
  function LineText(text: seq<char>, line: nat): seq<char>
    requires line <= NewlineCount(text)
  {
    LinesFlatten(text);
    SplitLines(text)[line]
  }

  /** A prefix of a line in the coordinates of the whole text. */
  lemma {:induction false} InLine(text: seq<char>, line: nat, col: nat)
    requires line <= NewlineCount(text) && col <= |LineText(text, line)|
    ensures LineStart(text, line) + col <= |text|
    ensures LineText(text, line)[..col] == text[LineStart(text, line)..LineStart(text, line) + col]
    ensures ByteLen(text[..LineStart(text, line) + col]) ==
            ByteLen(text[..LineStart(text, line)]) + ByteLen(LineText(text, line)[..col])
  {
    hide EncodeAll, SplitLines, NewlineAt, NewlineCount;
    LineIsBetween(text, line);
    OffsetMonotone(text, LineStart(text, line), LineStart(text, line) + col);
  }

  /** The protocol's position of a line and a column; `as u32` keeps the low 32 bits. */
  method LspPosition(e: PositionEncoding, gb: GapBuffer, line: nat, col: nat) returns (l: nat, character: nat)
    requires gb.Valid() && line <= NewlineCount(gb.Text()) && col <= |LineText(gb.Text(), line)|
    modifies gb`cache
    ensures gb.Valid()
    ensures l == line % U32 && character == Units(e, LineText(gb.Text(), line)[..col]) % U32
  {
    hide EncodeAll, SplitLines, NewlineAt, NewlineCount, Shows;
    ghost var text := gb.Text();
    InLine(text, line, col);
    var units := 0;
    match e {
      case ByBytes =>
        var lineStart := gb.TryLineToChar(line);
        var startIdx := gb.CharToByte(lineStart.value);
        var endIdx := gb.CharToByte(lineStart.value + col);
        units := endIdx - startIdx;
      case ByUtf16 =>
        var slice := gb.Line(line);
        units := CountUtf16(slice, col, LineText(text, line));
      case ByCodePoints =>
        units := col;
    }
    return line % U32, units % U32;
  }

  /** The UTF-16 length of the first `col` characters of a slice. */
  method CountUtf16(slice: Slice, col: nat, ghost text: seq<char>) returns (units: nat)
    requires Shows(slice, text) && col <= |text|
    ensures units == Utf16Len(text[..col])
  {
    hide Shows;
    var chars := new Chars(slice, text);
    units := 0;
    assert text[..0] == [];
    for k := 0 to col
      invariant chars.Valid() && fresh(chars) && chars.text == text && chars.pos == k
      invariant units == Utf16Len(text[..k])
    {
      var ch := chars.Next();
      Utf16Step(text, k);
      units := units + LenUtf16(ch.value);
    }
  }

  /** The text from the beginning of a line on. */
  function FromLine(text: seq<char>, line: nat): (r: seq<char>)
    requires line <= NewlineCount(text)
    ensures LineText(text, line) <= r
  {
    LineIsBetween(text, line);
    text[LineStart(text, line)..]
  }

  lemma {:induction false} InRest(text: seq<char>, line: nat, col: nat)
    requires line <= NewlineCount(text) && col <= |FromLine(text, line)|
    ensures LineStart(text, line) + col <= |text|
    ensures ByteLen(text[..LineStart(text, line) + col]) ==
            ByteLen(text[..LineStart(text, line)]) + ByteLen(FromLine(text, line)[..col])
  {
    hide EncodeAll, SplitLines, NewlineAt, NewlineCount;
    LineIsBetween(text, line);
    OffsetMonotone(text, LineStart(text, line), LineStart(text, line) + col);
    assert FromLine(text, line)[..col] == text[LineStart(text, line)..LineStart(text, line) + col];
  }

  /** The line and column of a protocol position. Positions behind the last line clamp to the end of
      the text. A byte position has to fall between two characters; behind the end of its line it counts
      on into the next ones. */
  method ParseLspPosition(e: PositionEncoding, gb: GapBuffer, line: nat, character: nat, ghost col: nat)
    returns (l: nat, c: nat)
    requires gb.Valid()
    requires e.ByBytes? && line <= NewlineCount(gb.Text()) ==>
      col <= |FromLine(gb.Text(), line)| && character == ByteLen(FromLine(gb.Text(), line)[..col])
    ensures line > NewlineCount(gb.Text()) ==> l == NewlineCount(gb.Text()) && c == |gb.Text()|
    ensures line <= NewlineCount(gb.Text()) ==>
      l == line && IsColumn(e, LineText(gb.Text(), line), FromLine(gb.Text(), line), character, c)
  {
    hide EncodeAll, SplitLines, NewlineAt, NewlineCount, Shows, Utf16Len, Units;
    ghost var text := gb.Text();
    var n := gb.LenLines();
    if line > n - 1 {
      return SaturatingSub(n, 1), gb.nChars;
    }
    l := line;
    match e {
      case ByBytes =>
        InRest(text, line, col);
        var lineStart := gb.LineToByte(line);
        ghost var c0 := LineStart(text, line);
        gb.RawAtByteOffset(c0);
        gb.RawAtByteOffset(c0 + col);
        c := gb.CharsInRawRange(gb.ByteToRawByte(lineStart), gb.ByteToRawByte(lineStart + character), c0, c0 + col);
      case ByUtf16 =>
        var slice := gb.Line(line);
        c := ColumnOfUtf16(slice, character, LineText(text, line));
      case ByCodePoints =>
        c := character;
    }
  }

  /** `c` is the column of a position in a line, which `rest` begins with. A UTF-16 position inside a surrogate
      pair counts as the one behind it, and one behind the line as its end. */
  ghost predicate IsColumn(e: PositionEncoding, text: seq<char>, rest: seq<char>, character: nat, c: nat) {
    match e
    case ByBytes => c <= |rest| && ByteLen(rest[..c]) == character
    case ByUtf16 =>
      && c <= |text|
      && (if Utf16Len(text) < character then c == |text| else Utf16Len(text[..c]) >= character)
      && (c > 0 ==> Utf16Len(text[..c - 1]) < character)
    case ByCodePoints => c == character
  }

  lemma ByteColumnUnique(text: seq<char>, col: nat)
    requires col <= |text|
    ensures forall c :: 0 <= c <= |text| && ByteLen(text[..c]) == ByteLen(text[..col]) ==> c == col
  {
    hide EncodeAll;
    forall c | 0 <= c <= |text| && c != col
      ensures ByteLen(text[..c]) != ByteLen(text[..col])
    {
      if c < col { OffsetMonotone(text, c, col); } else { OffsetMonotone(text, col, c); }
    }
  }

  /** The column that a position determines is unique, and is the column it was made from. */
  lemma ColumnInverts(e: PositionEncoding, text: seq<char>, rest: seq<char>, col: nat, c: nat)
    requires col <= |text| && text <= rest && IsColumn(e, text, rest, Units(e, text[..col]), c)
    ensures c == col
  {
    hide EncodeAll, Utf16Len;
    match e {
      case ByBytes =>
        assert text[..col] == rest[..col];
        ByteColumnUnique(rest, col);
      case ByUtf16 =>
        Utf16Monotone(text, col, |text|);
        assert text[..|text|] == text;
        if c < col {
          Utf16Monotone(text, c, col);
        } else if col < c {
          Utf16Monotone(text, col, c - 1);
        }
      case ByCodePoints =>
    }
  }

  /** The column at which `character` units have been passed. */
  method ColumnOfUtf16(slice: Slice, character: nat, ghost text: seq<char>) returns (col: nat)
    requires Shows(slice, text)
    ensures IsColumn(ByUtf16, text, text, character, col)
  {
    hide Shows, Utf16Len;
    var chars := new Chars(slice, text);
    var remaining := character;
    col := 0;
    assert text[..0] == [] && text[..|text|] == text;
    Utf16Nothing();
    var next := chars.Next();
    while next.Some?
      invariant chars.Valid() && fresh(chars) && chars.text == text && col <= |text|
      invariant next.Some? ==> col < |text| && chars.pos == col + 1 && next.value == text[col]
      invariant next.None? ==> col == |text|
      invariant remaining == SaturatingSub(character, Utf16Len(text[..col]))
      invariant col > 0 ==> Utf16Len(text[..col - 1]) < character
      decreases next.Some?, |text| - col
    {
      if remaining == 0 {
        break;
      }
      Utf16Step(text, col);
      remaining := SaturatingSub(remaining, LenUtf16(next.value));
      col := col + 1;
      next := chars.Next();
    }
    Utf16Monotone(text, col, |text|);
    // With units left over, all characters have been counted: the source clamps to their number.
    assert remaining > 0 ==> col == |text|;
  }

  lemma Utf16Nothing()
    ensures Utf16Len([]) == 0
  {
  }

  /** Reading a position back gives the line and column it was made from, for every encoding and
      wherever the gap is, as long as the protocol's 32 bits hold it. */
  method PositionRoundTrip(e: PositionEncoding, gb: GapBuffer, line: nat, col: nat) returns (l: nat, c: nat)
    requires gb.Valid() && line <= NewlineCount(gb.Text()) && col <= |LineText(gb.Text(), line)|
    requires line < U32 && Units(e, LineText(gb.Text(), line)[..col]) < U32
    modifies gb`cache
    ensures l == line && c == col
  {
    hide EncodeAll, SplitLines, NewlineCount, Utf16Len, IsColumn;
    var pl, pc := LspPosition(e, gb, line, col);
    ghost var text, rest := LineText(gb.Text(), line), FromLine(gb.Text(), line);
    assert text[..col] == rest[..col];
    l, c := ParseLspPosition(e, gb, pl, pc, col);
    ColumnInverts(e, text, rest, col, c);
  }
}
