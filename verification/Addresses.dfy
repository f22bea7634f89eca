/** Addresses: their text, the parser, and what they stand for in a text. */
module Addresses {
  import opened Basics
  import opened Decimals
  import opened Lines
  import opened Buffers
  import opened GapBuffers
  import opened LineIndex

  datatype ErrorKind =
    InvalidRegex | InvalidSuffix | NotAnAddress | UnclosedDelimiter | UnexpectedCharacter(c: char) | UnexpectedEof |
    ZeroIndexedLineOrColumn

  type Read<+T> = Result<T, ErrorKind>

  datatype AddrBase =
    | Current | CurrentLine | Bol | Eol | Bof | Eof
    | Line(line: nat) | RelativeLine(offset: Isize)
    | Char(idx: nat) | RelativeChar(offset: Isize)
    | LineAndColumn(line: nat, col: nat)
    | Regex(re: seq<char>) | RegexBack(re: seq<char>)
  {
    predicate IsValidSuffix() {
      Bol? || Eol? || CurrentLine? || RelativeLine? || RelativeChar? || Regex? || RegexBack?
    }
  }

  datatype SimpleAddr = SimpleAddr(base: AddrBase, suffixes: seq<AddrBase>)

  datatype Addr = Simple(a: SimpleAddr) | Compound(from: SimpleAddr, to: SimpleAddr)

  datatype Dir = Fwd | Bck

  // ---------------------------------------------------------------- what the parser reads

  function NumAt(s: seq<char>, p: nat): (r: (Read<nat>, nat))
    requires p < |s| && IsAsciiDigit(s[p])
    ensures p < r.1 <= |s| && (r.0.Ok? ==> r.0.value < USIZE_VALUES)
  {
    match NumberAt(s, p)
    case (Some(n), e) => (Ok(n), e)
    case (None, e) => (Err(NotAnAddress), e)
  }

  /** The pattern from `p` on up to a slash that no backslash precedes, and where that is. */
  function DelimitedAt(s: seq<char>, p: nat, prev: char): Option<nat>
    requires p <= |s|
    decreases |s| - p
  {
    if p == |s| then None
    else if s[p] == '/' && prev != '\\' then Some(p)
    else DelimitedAt(s, p + 1, s[p])
  }

  function RegexAt(compiles: seq<char> -> bool, s: seq<char>, p: nat, dir: Dir): (r: (Read<AddrBase>, nat))
    requires p < |s|
    ensures p < r.1 <= |s|
  {
    match DelimitedAt(s, p + 1, '/')
    case None => (Err(UnclosedDelimiter), |s|)
    case Some(e) =>
      DelimitedBound(s, p + 1, '/');
      var re := s[p + 1..e];
      (if !compiles(re) then Err(InvalidRegex) else if dir.Fwd? then Ok(Regex(re)) else Ok(RegexBack(re)), e + 1)
  }

  lemma {:induction false} DelimitedBound(s: seq<char>, p: nat, prev: char)
    requires p <= |s|
    ensures DelimitedAt(s, p, prev).Some? ==> p <= DelimitedAt(s, p, prev).value < |s|
    decreases |s| - p
  {
    if p < |s| && !(s[p] == '/' && prev != '\\') {
      DelimitedBound(s, p + 1, s[p]);
    }
  }

  /** The wrapping conversion of a usize to an isize. */
  function AsIsize(n: nat): Isize
    requires n < USIZE_VALUES
  {
    if n < -ISIZE_MIN then n else n - USIZE_VALUES
  }

  /** Negation that wraps around for the one isize that has no opposite. */
  function Negated(k: Isize): Isize { if k == ISIZE_MIN then k else -k }

  function Signed(n: nat, dir: Dir): Isize
    requires n < USIZE_VALUES
  {
    if dir.Fwd? then AsIsize(n) else Negated(AsIsize(n))
  }

  function Sized(base: AddrBase, dir: Option<Dir>, n: nat): AddrBase
    requires n < USIZE_VALUES
  {
    match (base, dir)
    case (Char(_), Some(d)) => RelativeChar(Signed(n, d))
    case (Line(_), Some(d)) => RelativeLine(Signed(n, d))
    case _ => base
  }

  /** `#n`, where `p` is at the sign. */
  function CharAt(s: seq<char>, p: nat, dir: Option<Dir>): (r: (Read<AddrBase>, nat))
    requires p < |s|
    ensures p < r.1 <= |s|
  {
    if p + 1 == |s| || !IsAsciiDigit(s[p + 1]) then (Err(NotAnAddress), p + 1)
    else match NumAt(s, p + 1)
      case (Ok(n), e) => (Ok(Sized(Char(n), dir, n)), e)
      case (Err(k), e) => (Err(k), e)
  }

  /** `n` or `n:m`, where `p` is at the first digit. */
  function LineAt(s: seq<char>, p: nat, dir: Option<Dir>): (r: (Read<AddrBase>, nat))
    requires p < |s| && IsAsciiDigit(s[p])
    ensures p < r.1 <= |s|
  {
    match NumAt(s, p)
    case (Err(k), e) => (Err(k), e)
    case (Ok(n), e) =>
      if n == 0 then (Err(ZeroIndexedLineOrColumn), e)
      else if e < |s| && s[e] == ':' then
        if dir.Some? then (Err(NotAnAddress), e)
        else if e + 1 == |s| then (Err(NotAnAddress), e + 1)
        else if !IsAsciiDigit(s[e + 1]) then (Err(UnexpectedCharacter(s[e + 1])), e + 1)
        else match NumAt(s, e + 1)
          case (Err(k), f) => (Err(k), f)
          case (Ok(m), f) => (if m == 0 then Err(ZeroIndexedLineOrColumn) else Ok(LineAndColumn(n - 1, m - 1)), f)
      else (Ok(Sized(Line(n - 1), dir, n)), e)
  }

  /** What parse_base reads at `p`, and where it stops. */
  function BaseAt(compiles: seq<char> -> bool, s: seq<char>, p: nat): (r: (Read<AddrBase>, nat))
    requires p <= |s|
    ensures p <= r.1 <= |s| && (r.0.Ok? ==> p < r.1)
  {
    if p == |s| then (Err(UnexpectedEof), p)
    else if s[p] == '-' && p + 1 == |s| then (Ok(Bol), p + 1)
    else if s[p] == '+' && p + 1 == |s| then (Ok(Eol), p + 1)
    else
      var dir := if s[p] == '-' then Some(Bck) else if s[p] == '+' then Some(Fwd) else None;
      var q := if dir.Some? then p + 1 else p;
      var c := s[q];
      if c in ".0$" then
        if dir.Some? then (Err(NotAnAddress), q)
        else (Ok(if c == '.' then Current else if c == '0' then Bof else Eof), q + 1)
      else if (c == '-' && dir == Some(Fwd)) || (c == '+' && dir == Some(Bck)) then (Ok(CurrentLine), q + 1)
      else if c == '#' then CharAt(s, q, dir)
      else if IsAsciiDigit(c) then LineAt(s, q, dir)
      else if c == '/' then RegexAt(compiles, s, q, if dir.Some? then dir.value else Fwd)
      else match dir
        case Some(Fwd) => (Ok(Eol), q)
        case Some(Bck) => (Ok(Bol), q)
        case None => (Err(NotAnAddress), q)
  }

  function SuffixesAt(compiles: seq<char> -> bool, s: seq<char>, p: nat): (r: (Read<seq<AddrBase>>, nat))
    requires p <= |s|
    ensures p <= r.1 <= |s|
    decreases |s| - p
  {
    if p == |s| || s[p] !in "-+" then (Ok([]), p)
    else match BaseAt(compiles, s, p)
      case (Err(k), e) => (Err(k), e)
      case (Ok(b), e) =>
        if !b.IsValidSuffix() then (Err(InvalidSuffix), e)
        else match SuffixesAt(compiles, s, e)
          case (Ok(bs), f) => (Ok([b] + bs), f)
          case (Err(k), f) => (Err(k), f)
  }

  function SimpleAt(compiles: seq<char> -> bool, s: seq<char>, p: nat): (r: (Read<SimpleAddr>, nat))
    requires p <= |s|
    ensures p <= r.1 <= |s|
  {
    match BaseAt(compiles, s, p)
    case (Err(k), e) => (Err(k), e)
    case (Ok(b), e) =>
      match SuffixesAt(compiles, s, e)
      case (Ok(bs), f) => (Ok(SimpleAddr(b, bs)), f)
      case (Err(k), f) => (Err(k), f)
  }

  function Parsed(compiles: seq<char> -> bool, s: seq<char>): Read<Addr> {
    var (start, p) := SimpleAt(compiles, s, 0);
    if start.Err? && !(p == 0 && s != [] && s[0] == ',') then Err(start.error)
    else if p == |s| || s[p] == ' ' then (if start.Ok? then Ok(Simple(start.value)) else Err(NotAnAddress))
    else if s[p] != ',' then Err(NotAnAddress)
    else
      var from := if start.Ok? then start.value else SimpleAddr(Bof, []);
      if p + 1 == |s| || IsWhitespace(s[p + 1]) then Ok(Compound(from, SimpleAddr(Eof, [])))
      else match SimpleAt(compiles, s, p + 1).0
        case Ok(to) => Ok(Compound(from, to))
        case Err(k) => Err(k)
  }

  /** The parser's position in its input is shared by its methods. */
  class Parser {
    const input: seq<char>
    const compiles: seq<char> -> bool
    var pos: nat

    constructor (input: seq<char>, compiles: seq<char> -> bool)
      ensures this.input == input && this.compiles == compiles && pos == 0
    {
      this.input, this.compiles, pos := input, compiles, 0;
    }

    method TryParseNum() returns (r: Read<nat>)
      requires pos < |input| && IsAsciiDigit(input[pos])
      modifies this
      ensures (r, pos) == NumAt(input, old(pos))
    {
      var s := [input[pos]];
      pos := pos + 1;
      while pos < |input| && IsAsciiDigit(input[pos])
        invariant old(pos) < pos <= |input| && s == input[old(pos)..pos] && AllDigits(s)
      {
        s := s + [input[pos]];
        pos := pos + 1;
      }
      RunEndIs(input, old(pos), pos);
      r := if Value(s) < USIZE_VALUES then Ok(Value(s)) else Err(NotAnAddress);
    }

    method ParseDelimitedRegex(dir: Dir) returns (r: Read<AddrBase>)
      requires pos < |input| && input[pos] == '/'
      modifies this
      ensures (r, pos) == RegexAt(compiles, input, old(pos), dir)
    {
      ghost var start := pos + 1;
      var s, prev := [], '/';
      pos := pos + 1;
      while pos < |input|
        invariant start <= pos <= |input| && s == input[start..pos]
        invariant DelimitedAt(input, pos, prev) == DelimitedAt(input, start, '/')
      {
        var ch := input[pos];
        if ch == '/' && prev != '\\' {
          pos := pos + 1;
          return if !compiles(s) then Err(InvalidRegex) else if dir.Fwd? then Ok(Regex(s)) else Ok(RegexBack(s));
        }
        assert s + [ch] == input[start..pos + 1];
        pos := pos + 1;
        s := s + [ch];
        prev := ch;
      }
      r := Err(UnclosedDelimiter);
    }

    method ParseBase() returns (r: Read<AddrBase>)
      requires pos <= |input|
      modifies this
      ensures (r, pos) == BaseAt(compiles, input, old(pos))
    {
      hide RegexAt, NumAt;
      if pos == |input| {
        return Err(UnexpectedEof);
      }
      var dir: Option<Dir> := None;
      if input[pos] == '-' {
        pos := pos + 1;
        if pos == |input| { return Ok(Bol); }
        dir := Some(Bck);
      } else if input[pos] == '+' {
        pos := pos + 1;
        if pos == |input| { return Ok(Eol); }
        dir := Some(Fwd);
      }
      var c := input[pos];
      if c in ".0$" {
        if dir.Some? { return Err(NotAnAddress); }
        pos := pos + 1;
        return Ok(if c == '.' then Current else if c == '0' then Bof else Eof);
      } else if (c == '-' && dir == Some(Fwd)) || (c == '+' && dir == Some(Bck)) {
        pos := pos + 1;
        return Ok(CurrentLine);
      } else if c == '#' {
        r := ParseChar(dir);
      } else if IsAsciiDigit(c) {
        r := ParseLine(dir);
      } else if c == '/' {
        r := ParseDelimitedRegex(if dir.Some? then dir.value else Fwd);
      } else {
        r := if dir == Some(Fwd) then Ok(Eol) else if dir == Some(Bck) then Ok(Bol) else Err(NotAnAddress);
      }
    }

    /** The branch of parse_base for `#`. */
    method ParseChar(dir: Option<Dir>) returns (r: Read<AddrBase>)
      requires pos < |input| && input[pos] == '#'
      modifies this
      ensures (r, pos) == CharAt(input, old(pos), dir)
    {
      hide NumAt;
      pos := pos + 1;
      if pos == |input| || !IsAsciiDigit(input[pos]) {
        return Err(NotAnAddress);
      }
      var ix := TryParseNum();
      if ix.Err? {
        return Err(ix.error);
      }
      match dir
      case None => r := Ok(Char(ix.value));
      case Some(Fwd) => r := Ok(RelativeChar(AsIsize(ix.value)));
      case Some(Bck) => r := Ok(RelativeChar(Negated(AsIsize(ix.value))));
    }

    /** The branch of parse_base for a digit. */
    method ParseLine(dir: Option<Dir>) returns (r: Read<AddrBase>)
      requires pos < |input| && IsAsciiDigit(input[pos])
      modifies this
      ensures (r, pos) == LineAt(input, old(pos), dir)
    {
      hide NumAt;
      var line := TryParseNum();
      if line.Err? {
        return Err(line.error);
      }
      if line.value == 0 {
        return Err(ZeroIndexedLineOrColumn);
      }
      if pos < |input| && input[pos] == ':' {
        if dir.Some? { return Err(NotAnAddress); }
        pos := pos + 1;
        if pos == |input| {
          return Err(NotAnAddress);
        } else if !IsAsciiDigit(input[pos]) {
          return Err(UnexpectedCharacter(input[pos]));
        }
        var col := TryParseNum();
        if col.Err? {
          return Err(col.error);
        }
        return if col.value == 0 then Err(ZeroIndexedLineOrColumn)
          else Ok(LineAndColumn(line.value - 1, col.value - 1));
      }
      match dir
      case None => r := Ok(Line(line.value - 1));
      case Some(Fwd) => r := Ok(RelativeLine(AsIsize(line.value)));
      case Some(Bck) => r := Ok(RelativeLine(Negated(AsIsize(line.value))));
    }

    method ParseSimple() returns (r: Read<SimpleAddr>)
      requires pos <= |input|
      modifies this
      ensures (r, pos) == SimpleAt(compiles, input, old(pos))
    {
      hide BaseAt;
      var base := ParseBase();
      if base.Err? {
        return Err(base.error);
      }
      var suffixes := [];
      ghost var all := SuffixesAt(compiles, input, pos);
      PrefixedNone(all);
      while pos < |input|
        invariant pos <= |input| && all == Prefixed(suffixes, SuffixesAt(compiles, input, pos))
        decreases |input| - pos
      {
        if input[pos] !in "-+" {
          break;
        }
        var addr := ParseBase();
        if addr.Err? {
          return Err(addr.error);
        }
        if !addr.value.IsValidSuffix() {
          return Err(InvalidSuffix);
        }
        PrefixedMore(suffixes, addr.value, SuffixesAt(compiles, input, pos));
        suffixes := suffixes + [addr.value];
      }
      assert suffixes + [] == suffixes;
      r := Ok(SimpleAddr(base.value, suffixes));
    }

    method Parse() returns (r: Read<Addr>)
      requires pos == 0
      modifies this
      ensures r == Parsed(compiles, input)
    {
      hide SimpleAt;
      var start := ParseSimple();
      if start.Err? && !(pos == 0 && input != [] && input[pos] == ',') {
        return Err(start.error);
      }
      if pos == |input| || input[pos] == ' ' {
        r := if start.Ok? then Ok(Simple(start.value)) else Err(NotAnAddress);
      } else if input[pos] == ',' {
        pos := pos + 1;
        var from := if start.Ok? then start.value else SimpleAddr(Bof, []);
        if pos == |input| || IsWhitespace(input[pos]) {
          return Ok(Compound(from, SimpleAddr(Eof, [])));
        }
        var end := ParseSimple();
        r := if end.Ok? then Ok(Compound(from, end.value)) else Err(end.error);
      } else {
        r := Err(NotAnAddress);
      }
    }
  }

  function Prefixed(bs: seq<AddrBase>, r: (Read<seq<AddrBase>>, nat)): (Read<seq<AddrBase>>, nat) {
    match r.0
    case Ok(cs) => (Ok(bs + cs), r.1)
    case Err(k) => r
  }

  lemma PrefixedMore(bs: seq<AddrBase>, b: AddrBase, r: (Read<seq<AddrBase>>, nat))
    ensures Prefixed(bs, Prefixed([b], r)) == Prefixed(bs + [b], r)
  {
    if r.0.Ok? {
      assert bs + ([b] + r.0.value) == bs + [b] + r.0.value;
    }
  }

  lemma PrefixedNone(r: (Read<seq<AddrBase>>, nat))
    ensures Prefixed([], r) == r
  {
    if r.0.Ok? {
      assert [] + r.0.value == r.0.value;
    }
  }

  // ---------------------------------------------------------------- printing

  function Opposite(d: Dir): Dir { if d.Fwd? then Bck else Fwd }

  function SignChar(d: Dir): char { if d.Fwd? then '+' else '-' }

  /** The sign that an offset is written with. */
  function SignOf(k: Isize, avoid: Option<Dir>): (d: Dir)
    ensures avoid != Some(d)
  {
    var d := if k < 0 then Bck else Fwd;
    if avoid == Some(d) then Opposite(d) else d
  }

  /** The number whose wrapping conversion is an isize. */
  function Bits(k: Isize): (n: nat)
    ensures n < USIZE_VALUES && AsIsize(n) == k && (n == 0 <==> k == 0)
  {
    if k >= 0 then k else k + USIZE_VALUES
  }

  /** The number that gives the offset `k` behind a sign: its absolute value, unless the sign is the other one. */
  function Magnitude(k: Isize, d: Dir): (n: nat)
    ensures n < USIZE_VALUES && Signed(n, d) == k && (n == 0 <==> k == 0)
    ensures d == SignOf(k, None) ==> n == if k < 0 then -(k as int) else k as int
  {
    Bits(if d.Fwd? then k else Negated(k))
  }

  /** A text for an address that avoids a sign at its beginning if it can; a pattern behind another address
      needs its sign. */
  function Text(b: AddrBase, suffix: bool, avoid: Option<Dir>): (t: seq<char>)
    ensures t != []
    ensures suffix && b.IsValidSuffix() ==> t[0] == '-' || t[0] == '+'
  {
    match b
    case Current => "."
    case CurrentLine => if avoid == Some(Bck) then "+-" else "-+"
    case Bol => "-"
    case Eol => "+"
    case Bof => "0"
    case Eof => "$"
    case Line(n) => Decimal(n + 1)
    case RelativeLine(k) => [SignChar(SignOf(k, avoid))] + Decimal(Magnitude(k, SignOf(k, avoid)))
    case Char(n) => "#" + Decimal(n)
    case RelativeChar(k) => [SignChar(SignOf(k, avoid)), '#'] + Decimal(Magnitude(k, SignOf(k, avoid)))
    case LineAndColumn(l, c) => Decimal(l + 1) + ":" + Decimal(c + 1)
    case Regex(re) => (if suffix then "+/" else "/") + re + "/"
    case RegexBack(re) => "-/" + re + "/"
  }

  /** The sign that must not follow an address. */
  function Avoided(b: AddrBase): Option<Dir> { if b.Bol? then Some(Fwd) else if b.Eol? then Some(Bck) else None }

  /** Every slash of the pattern follows a backslash, and its last character is none. */
  predicate Delimitable(re: seq<char>) {
    && (forall i :: 0 <= i < |re| && re[i] == '/' ==> i > 0 && re[i - 1] == '\\')
    && (re != [] ==> re[|re| - 1] != '\\')
  }

  /** The numbers fit into machine words, and the patterns can be delimited and compiled. */
  predicate Printable(compiles: seq<char> -> bool, b: AddrBase) {
    match b
    case Line(n) => n + 1 < USIZE_VALUES
    case RelativeLine(k) => k != 0
    case Char(n) => n < USIZE_VALUES
    case LineAndColumn(l, c) => l + 1 < USIZE_VALUES && c + 1 < USIZE_VALUES
    case Regex(re) => Delimitable(re) && compiles(re)
    case RegexBack(re) => Delimitable(re) && compiles(re)
    case _ => true
  }

  /** What may follow an address without being taken for a part of it; the sign of another one is. */
  predicate Follows(s: seq<char>, e: nat) {
    e <= |s| && (e < |s| ==> !IsAsciiDigit(s[e]) && s[e] !in ":#/.$")
  }

  /** The sign behind `-` or `+` makes another address of it. */
  predicate Clashes(b: AddrBase, s: seq<char>, e: nat) {
    e < |s| && ((b.Bol? && s[e] == '+') || (b.Eol? && s[e] == '-'))
  }

  /** The first character of a printed number is a digit; it is zero for zero alone. */
  lemma {:induction false} NumTextRead(s: seq<char>, p: nat, n: nat)
    requires TextAt(s, p, Decimal(n)) && n < USIZE_VALUES &&
      (p + |Decimal(n)| < |s| ==> !IsAsciiDigit(s[p + |Decimal(n)|]))
    ensures p < |s| && IsAsciiDigit(s[p]) && (s[p] == '0' <==> n == 0) && NumAt(s, p) == (Ok(n), p + |Decimal(n)|)
  {
    NumberRead(s, p, n);
  }

  lemma {:induction false} LineRead(compiles: seq<char> -> bool, s: seq<char>, p: nat, n: nat)
    requires n + 1 < USIZE_VALUES && TextAt(s, p, Decimal(n + 1)) && Follows(s, p + |Decimal(n + 1)|)
    ensures BaseAt(compiles, s, p) == (Ok(Line(n)), p + |Decimal(n + 1)|)
  {
    hide NumAt, Decimal, RegexAt;
    NumTextRead(s, p, n + 1);
  }

  lemma {:induction false} CharRead(compiles: seq<char> -> bool, s: seq<char>, p: nat, n: nat)
    requires n < USIZE_VALUES && TextAt(s, p, "#" + Decimal(n)) && Follows(s, p + 1 + |Decimal(n)|)
    ensures BaseAt(compiles, s, p) == (Ok(Char(n)), p + 1 + |Decimal(n)|)
  {
    TextAtSplit(s, p, "#", Decimal(n));
    TextAtOne(s, p, '#');
    hide NumAt, Decimal, RegexAt;
    NumTextRead(s, p + 1, n);
  }

  lemma {:induction false} RelativeLineRead(compiles: seq<char> -> bool, s: seq<char>, p: nat, k: Isize, d: Dir, n: nat)
    requires k != 0 && n == Magnitude(k, d) && TextAt(s, p, [SignChar(d)] + Decimal(n)) &&
      Follows(s, p + 1 + |Decimal(n)|)
    ensures BaseAt(compiles, s, p) == (Ok(RelativeLine(k)), p + 1 + |Decimal(n)|)
  {
    TextAtSplit(s, p, [SignChar(d)], Decimal(n));
    TextAtOne(s, p, SignChar(d));
    hide NumAt, Decimal, RegexAt, Magnitude;
    NumTextRead(s, p + 1, n);
  }

  lemma {:induction false} RelativeCharRead(compiles: seq<char> -> bool, s: seq<char>, p: nat, k: Isize, d: Dir, n: nat)
    requires n == Magnitude(k, d) && TextAt(s, p, [SignChar(d), '#'] + Decimal(n)) && Follows(s, p + 2 + |Decimal(n)|)
    ensures BaseAt(compiles, s, p) == (Ok(RelativeChar(k)), p + 2 + |Decimal(n)|)
  {
    TextAtSplit(s, p, [SignChar(d), '#'], Decimal(n));
    TextAtSplit(s, p, [SignChar(d)], ['#']);
    assert [SignChar(d)] + ['#'] == [SignChar(d), '#'];
    TextAtOne(s, p, SignChar(d));
    TextAtOne(s, p + 1, '#');
    hide NumAt, Decimal, RegexAt, Magnitude;
    NumTextRead(s, p + 2, n);
  }

  lemma {:induction false} LineAndColumnRead(compiles: seq<char> -> bool, s: seq<char>, p: nat, l: nat, c: nat,
      x: seq<char>, y: seq<char>)
    requires l + 1 < USIZE_VALUES && c + 1 < USIZE_VALUES && x == Decimal(l + 1) && y == Decimal(c + 1)
    requires TextAt(s, p, x + ":" + y) && Follows(s, p + |x| + 1 + |y|)
    ensures BaseAt(compiles, s, p) == (Ok(LineAndColumn(l, c)), p + |x| + 1 + |y|)
  {
    hide NumAt, Decimal, BaseAt, LineAt, TextAt, IsAsciiDigit, AllDigits, Follows;
    PartsOf(s, p, x, y);
    NoDigit(s, p + |x|);
    NoDigit(s, p + |x| + 1 + |y|);
    NumTextRead(s, p, l + 1);
    NumTextRead(s, p + |x| + 1, c + 1);
    LineAtColon(s, p, p + |x|, l + 1, c + 1, p + |x| + 1 + |y|);
    BaseIsLine(compiles, s, p);
  }

  lemma NoDigit(s: seq<char>, e: nat)
    requires Follows(s, e) || (e < |s| && s[e] == ':')
    ensures e < |s| ==> !IsAsciiDigit(s[e])
  {
  }

  lemma PartsOf(s: seq<char>, p: nat, x: seq<char>, y: seq<char>)
    requires TextAt(s, p, x + ":" + y)
    ensures TextAt(s, p, x) && s[p + |x|] == ':' && TextAt(s, p + |x| + 1, y) && p + |x| + 1 + |y| <= |s|
  {
    TextAtSplit(s, p, x + ":", y);
    TextAtSplit(s, p, x, ":");
    TextAtOne(s, p + |x|, ':');
  }

  lemma BaseIsLine(compiles: seq<char> -> bool, s: seq<char>, p: nat)
    requires p < |s| && IsAsciiDigit(s[p]) && s[p] != '0'
    ensures BaseAt(compiles, s, p) == LineAt(s, p, None)
  {
    hide LineAt;
  }

  lemma LineAtColon(s: seq<char>, p: nat, e: nat, n: nat, m: nat, f: nat)
    requires p < e < e + 1 < |s| && IsAsciiDigit(s[p]) && s[e] == ':' && IsAsciiDigit(s[e + 1]) && n > 0 && m > 0
    requires NumAt(s, p) == (Ok(n), e) && NumAt(s, e + 1) == (Ok(m), f)
    ensures LineAt(s, p, None) == (Ok(LineAndColumn(n - 1, m - 1)), f)
  {
    hide NumAt;
  }

  lemma {:induction false} DelimitedRead(s: seq<char>, p: nat, re: seq<char>, prev: char)
    requires TextAt(s, p, re + "/")
    requires re != [] && re[0] == '/' ==> prev == '\\'
    requires forall i :: 0 < i < |re| && re[i] == '/' ==> re[i - 1] == '\\'
    requires (if re != [] then re[|re| - 1] else prev) != '\\'
    ensures DelimitedAt(s, p, prev) == Some(p + |re|)
    decreases |re|
  {
    TextAtSplit(s, p, re, "/");
    if re == [] {
      TextAtOne(s, p, '/');
      assert s[p] == '/' && prev != '\\';
    } else {
      assert re + "/" == [re[0]] + (re[1..] + "/");
      TextAtSplit(s, p, [re[0]], re[1..] + "/");
      TextAtOne(s, p, re[0]);
      assert |re| > 1 && re[1] == '/' ==> re[1 - 1] == '\\';
      DelimitedRead(s, p + 1, re[1..], re[0]);
    }
  }

  lemma RegexRead(compiles: seq<char> -> bool, s: seq<char>, p: nat, re: seq<char>, dir: Dir)
    requires TextAt(s, p, "/" + re + "/") && Delimitable(re) && compiles(re)
    ensures p < |s| && s[p] == '/'
    ensures RegexAt(compiles, s, p, dir) == (Ok(if dir.Fwd? then Regex(re) else RegexBack(re)), p + |re| + 2)
  {
    assert "/" + re + "/" == "/" + (re + "/");
    TextAtSplit(s, p, "/", re + "/");
    TextAtOne(s, p, '/');
    TextAtSplit(s, p + 1, re, "/");
    DelimitedRead(s, p + 1, re, '/');
  }

  lemma RegexTextRead(compiles: seq<char> -> bool, s: seq<char>, p: nat, re: seq<char>, sign: seq<char>, dir: Dir)
    requires sign == [] || sign == "+" || sign == "-"
    requires TextAt(s, p, sign + "/" + re + "/") && Delimitable(re) && compiles(re)
    requires dir == if sign == "-" then Bck else Fwd
    ensures BaseAt(compiles, s, p) == (Ok(if dir.Fwd? then Regex(re) else RegexBack(re)), p + |sign| + |re| + 2)
  {
    assert sign + "/" + re + "/" == sign + ("/" + re + "/");
    TextAtSplit(s, p, sign, "/" + re + "/");
    if sign != [] {
      TextAtOne(s, p, sign[0]);
    }
    hide BaseAt, TextAt, Delimitable, RegexAt;
    RegexRead(compiles, s, p + |sign|, re, dir);
    BaseIsRegex(compiles, s, p, sign, dir);
  }

  lemma BaseIsRegex(compiles: seq<char> -> bool, s: seq<char>, p: nat, sign: seq<char>, dir: Dir)
    requires sign == [] || sign == [SignChar(dir)]
    requires sign == [] ==> dir == Fwd
    requires p + |sign| < |s| && s[p + |sign|] == '/' && (sign != [] ==> s[p] == sign[0])
    ensures BaseAt(compiles, s, p) == RegexAt(compiles, s, p + |sign|, dir)
  {
    hide RegexAt;
  }

  lemma SignRead(compiles: seq<char> -> bool, s: seq<char>, p: nat, b: AddrBase)
    requires b.Bol? || b.Eol?
    requires p < |s| && s[p] == (if b.Bol? then '-' else '+') && Follows(s, p + 1)
    ensures BaseAt(compiles, s, p) == if Clashes(b, s, p + 1) then (Ok(CurrentLine), p + 2) else (Ok(b), p + 1)
  {
    hide RegexAt, LineAt, CharAt;
  }

  lemma PlainRead(compiles: seq<char> -> bool, s: seq<char>, p: nat, b: AddrBase, avoid: Option<Dir>)
    requires b.Current? || b.CurrentLine? || b.Bof? || b.Eof?
    requires TextAt(s, p, Text(b, false, avoid))
    ensures BaseAt(compiles, s, p) == (Ok(b), p + |Text(b, false, avoid)|)
  {
    hide RegexAt, LineAt, CharAt;
    var t := Text(b, false, avoid);
    assert s[p] == s[p..p + |t|][0] == t[0];
    if b.CurrentLine? {
      assert s[p + 1] == s[p..p + |t|][1] == t[1];
    }
  }

  /** A spelling of an address is read back, unless the sign behind it makes another one of it. */
  lemma BaseRead(compiles: seq<char> -> bool, s: seq<char>, p: nat, b: AddrBase, suffix: bool, avoid: Option<Dir>)
    requires Printable(compiles, b) && TextAt(s, p, Text(b, suffix, avoid)) && Follows(s, p + |Text(b, suffix, avoid)|)
    ensures var e := p + |Text(b, suffix, avoid)|;
      BaseAt(compiles, s, p) == if Clashes(b, s, e) then (Ok(CurrentLine), e + 1) else (Ok(b), e)
  {
    hide BaseAt, Decimal, TextAt, Follows, Delimitable;
    match b
    case Current => PlainRead(compiles, s, p, b, avoid);
    case CurrentLine => PlainRead(compiles, s, p, b, avoid);
    case Bof => PlainRead(compiles, s, p, b, avoid);
    case Eof => PlainRead(compiles, s, p, b, avoid);
    case Bol => TextAtOne(s, p, '-'); SignRead(compiles, s, p, b);
    case Eol => TextAtOne(s, p, '+'); SignRead(compiles, s, p, b);
    case Line(n) => LineRead(compiles, s, p, n);
    case RelativeLine(k) =>
      RelativeLineRead(compiles, s, p, k, SignOf(k, avoid), Magnitude(k, SignOf(k, avoid)));
    case Char(n) => CharRead(compiles, s, p, n);
    case RelativeChar(k) =>
      RelativeCharRead(compiles, s, p, k, SignOf(k, avoid), Magnitude(k, SignOf(k, avoid)));
    case LineAndColumn(l, c) => LineAndColumnRead(compiles, s, p, l, c, Decimal(l + 1), Decimal(c + 1));
    case Regex(re) =>
      var sign: seq<char> := if suffix then "+" else [];
      assert sign + "/" == if suffix then "+/" else "/";
      RegexTextRead(compiles, s, p, re, sign, Fwd);
    case RegexBack(re) =>
      assert "-" + "/" == "-/";
      RegexTextRead(compiles, s, p, re, "-", Bck);
  }

  function Texts(bs: seq<AddrBase>, avoid: Option<Dir>): seq<char> {
    if bs == [] then [] else Text(bs[0], true, avoid) + Texts(bs[1..], Avoided(bs[0]))
  }

  function SimpleText(a: SimpleAddr): seq<char> {
    Text(a.base, false, None) + Texts(a.suffixes, Avoided(a.base))
  }

  /** One text for an address, which no sign makes another address of where a different sign would do. */
  function Printed(a: Addr): seq<char> {
    match a
    case Simple(x) => SimpleText(x)
    case Compound(x, y) => SimpleText(x) + "," + SimpleText(y)
  }

  predicate PrintableSimple(compiles: seq<char> -> bool, a: SimpleAddr) {
    Printable(compiles, a.base) && forall i :: 0 <= i < |a.suffixes| ==>
      Printable(compiles, a.suffixes[i]) && a.suffixes[i].IsValidSuffix()
  }

  /** No sign that the second address can have keeps the first from being read as the current line. */
  predicate Meets(b: AddrBase, c: AddrBase) {
    (b.Bol? && (c.Eol? || c.Regex?)) || (b.Eol? && (c.Bol? || c.RegexBack?))
  }

  predicate Apart(b: AddrBase, bs: seq<AddrBase>)
    decreases |bs|, 1
  {
    (bs != [] ==> !Meets(b, bs[0])) && AllApart(bs)
  }

  predicate AllApart(bs: seq<AddrBase>)
    decreases |bs|, 0
  {
    bs != [] ==> Apart(bs[0], bs[1..])
  }

  predicate Ends(s: seq<char>, e: nat) {
    Follows(s, e) && (e < |s| ==> s[e] !in "-+")
  }

  /** What follows an address in front of suffixes. */
  lemma {:induction false} FollowedBy(s: seq<char>, e: nat, b: AddrBase, bs: seq<AddrBase>)
    requires TextAt(s, e, Texts(bs, Avoided(b))) && Ends(s, e + |Texts(bs, Avoided(b))|)
    requires bs != [] ==> bs[0].IsValidSuffix()
    ensures Follows(s, e)
    ensures Clashes(b, s, e) <==> bs != [] && Meets(b, bs[0])
    ensures bs != [] ==> e < |s| && s[e] in "-+"
  {
    if bs != [] {
      var t := Text(bs[0], true, Avoided(b));
      TextAtSplit(s, e, t, Texts(bs[1..], Avoided(bs[0])));
      assert s[e] == s[e..e + |t|][0] == t[0];
      hide Decimal, Magnitude;
    }
  }

  lemma {:induction false} SuffixesRead(compiles: seq<char> -> bool, s: seq<char>, p: nat, bs: seq<AddrBase>,
          avoid: Option<Dir>)
    requires forall i :: 0 <= i < |bs| ==> Printable(compiles, bs[i]) && bs[i].IsValidSuffix()
    requires TextAt(s, p, Texts(bs, avoid)) && Ends(s, p + |Texts(bs, avoid)|) && AllApart(bs)
    ensures SuffixesAt(compiles, s, p) == (Ok(bs), p + |Texts(bs, avoid)|)
    decreases |bs|
  {
    hide BaseAt, Text, TextAt, Printable, SuffixesAt, Texts, Follows, Ends, Clashes, Meets, AllApart, Avoided;
    if bs == [] {
      NoSuffixes(compiles, s, p, avoid);
    } else {
      var b, rest := bs[0], bs[1..];
      var e := p + |Text(b, true, avoid)|;
      SuffixSplit(s, p, bs, avoid);
      ApartStep(bs);
      FollowedBy(s, e, b, rest);
      BaseRead(compiles, s, p, b, true, avoid);
      SuffixesRead(compiles, s, e, rest, Avoided(b));
      assert bs == [b] + rest;
      SuffixStep(compiles, s, p, b, rest);
    }
  }

  lemma {:induction false} NoSuffixes(compiles: seq<char> -> bool, s: seq<char>, p: nat, avoid: Option<Dir>)
    requires Ends(s, p + |Texts([], avoid)|)
    ensures AllApart([]) && SuffixesAt(compiles, s, p) == (Ok([]), p + |Texts([], avoid)|)
  {
  }

  lemma {:induction false} ApartStep(bs: seq<AddrBase>)
    requires bs != []
    ensures AllApart(bs) <==> !(bs[1..] != [] && Meets(bs[0], bs[1..][0])) && AllApart(bs[1..])
  {
    hide Meets;
  }

  lemma {:induction false} TextsFirst(bs: seq<AddrBase>, avoid: Option<Dir>)
    requires bs != []
    ensures Texts(bs, avoid) == Text(bs[0], true, avoid) + Texts(bs[1..], Avoided(bs[0]))
  {
  }

  lemma {:induction false} SuffixSplit(s: seq<char>, p: nat, bs: seq<AddrBase>, avoid: Option<Dir>)
    requires bs != [] && TextAt(s, p, Texts(bs, avoid)) && Ends(s, p + |Texts(bs, avoid)|)
    ensures var e, rest := p + |Text(bs[0], true, avoid)|, Texts(bs[1..], Avoided(bs[0]));
      && TextAt(s, p, Text(bs[0], true, avoid)) && TextAt(s, e, rest)
      && e + |rest| == p + |Texts(bs, avoid)| && Ends(s, e + |rest|)
    ensures p < |s| && (bs[0].IsValidSuffix() ==> s[p] in "-+")
  {
    hide Texts, Ends;
    var t := Text(bs[0], true, avoid);
    assert t != [] && (bs[0].IsValidSuffix() ==> t[0] in "-+");
    hide Text;
    TextsFirst(bs, avoid);
    TextAtSplit(s, p, t, Texts(bs[1..], Avoided(bs[0])));
    assert s[p] == s[p..p + |t|][0] == t[0];
  }

  /** A suffix that is read is the first of the result. */
  lemma {:induction false} SuffixStep(compiles: seq<char> -> bool, s: seq<char>, p: nat, b: AddrBase,
      rest: seq<AddrBase>)
    requires p < |s| && s[p] in "-+" && b.IsValidSuffix() && BaseAt(compiles, s, p).0 == Ok(b)
    requires SuffixesAt(compiles, s, BaseAt(compiles, s, p).1).0 == Ok(rest)
    ensures SuffixesAt(compiles, s, p) == (Ok([b] + rest), SuffixesAt(compiles, s, BaseAt(compiles, s, p).1).1)
  {
    hide BaseAt;
  }

  lemma SimpleRead(compiles: seq<char> -> bool, s: seq<char>, p: nat, a: SimpleAddr)
    requires PrintableSimple(compiles, a) && Apart(a.base, a.suffixes)
    requires TextAt(s, p, SimpleText(a)) && Ends(s, p + |SimpleText(a)|)
    ensures SimpleAt(compiles, s, p) == (Ok(a), p + |SimpleText(a)|)
  {
    hide BaseAt, Text, TextAt, Printable, SuffixesAt, Texts, Avoided;
    var t := Text(a.base, false, None);
    var e := p + |t|;
    TextAtSplit(s, p, t, Texts(a.suffixes, Avoided(a.base)));
    FollowedBy(s, e, a.base, a.suffixes);
    BaseRead(compiles, s, p, a.base, false, None);
    SuffixesRead(compiles, s, e, a.suffixes, Avoided(a.base));
  }

  predicate PrintableAddr(compiles: seq<char> -> bool, a: Addr) {
    match a
    case Simple(x) => PrintableSimple(compiles, x)
    case Compound(x, y) => PrintableSimple(compiles, x) && PrintableSimple(compiles, y)
  }

  predicate ApartAddr(a: Addr) {
    match a
    case Simple(x) => Apart(x.base, x.suffixes)
    case Compound(x, y) => Apart(x.base, x.suffixes) && Apart(y.base, y.suffixes)
  }

  /** An address never begins with white space or a comma. */
  lemma HeadOfText(a: SimpleAddr)
    ensures SimpleText(a) != [] && !IsWhitespace(SimpleText(a)[0]) && SimpleText(a)[0] != ','
  {
    hide Decimal;
    var t := Text(a.base, false, None);
    assert SimpleText(a)[0] == t[0];
    assert forall c: char :: IsAsciiDigit(c) ==> !IsWhitespace(c) && c != ',';
  }

  /** Behind a simple address there may be a space and anything. */
  lemma ParsedSimple(compiles: seq<char> -> bool, x: SimpleAddr, rest: seq<char>)
    requires PrintableSimple(compiles, x) && Apart(x.base, x.suffixes) && (rest != [] ==> rest[0] == ' ')
    ensures Parsed(compiles, SimpleText(x) + rest) == Ok(Simple(x))
  {
    hide SimpleAt, SimpleText, Apart, PrintableSimple, IsWhitespace;
    var s, t := SimpleText(x) + rest, SimpleText(x);
    assert s[0..|t|] == t && (rest != [] ==> s[|t|] == ' ');
    SimpleRead(compiles, s, 0, x);
  }

  function OptionalText(x: Option<SimpleAddr>): seq<char> { if x.Some? then SimpleText(x.value) else [] }

  /** A compound address without its first address begins at the start, and without its second one ends at the
      end. Behind it there may be what ends it, and anything. */
  lemma ParsedCompound(compiles: seq<char> -> bool, x: Option<SimpleAddr>, y: Option<SimpleAddr>, rest: seq<char>)
    requires x.Some? ==> PrintableSimple(compiles, x.value) && Apart(x.value.base, x.value.suffixes)
    requires y.Some? ==> PrintableSimple(compiles, y.value) && Apart(y.value.base, y.value.suffixes)
    requires rest != [] ==> if y.Some? then rest[0] in ", " else IsWhitespace(rest[0])
    ensures Parsed(compiles, OptionalText(x) + "," + OptionalText(y) + rest) == Ok(Compound(
      if x.Some? then x.value else SimpleAddr(Bof, []), if y.Some? then y.value else SimpleAddr(Eof, [])))
  {
    hide SimpleAt, SimpleText, Apart, PrintableSimple, IsWhitespace;
    var t, u := OptionalText(x), OptionalText(y);
    var s := t + "," + u + rest;
    PartsOfCompound(s, t, u, rest);
    if x.Some? {
      HeadOfText(x.value);
      SimpleRead(compiles, s, 0, x.value);
    } else {
      CommaRead(compiles, s);
    }
    if y.Some? {
      HeadOfText(y.value);
      SimpleRead(compiles, s, |t| + 1, y.value);
    }
  }

  lemma CommaRead(compiles: seq<char> -> bool, s: seq<char>)
    requires s != [] && s[0] == ','
    ensures SimpleAt(compiles, s, 0) == (Err(NotAnAddress), 0)
  {
  }

  lemma PartsOfCompound(s: seq<char>, t: seq<char>, u: seq<char>, rest: seq<char>)
    requires s == t + "," + u + rest
    ensures TextAt(s, 0, t) && TextAt(s, |t| + 1, u) && Ends(s, |t|) && s[|t|] == ','
    ensures rest != [] ==> |t| + 1 + |u| < |s| && s[|t| + 1 + |u|] == rest[0]
    ensures rest == [] ==> |t| + 1 + |u| == |s|
    ensures (t != [] ==> s[0] == t[0]) && (u != [] ==> s[|t| + 1] == u[0])
  {
  }

  // ---------------------------------------------------------------- what is read at all

  /** A pattern that is read contains its slashes behind backslashes, and does not end in one. */
  lemma {:induction false} DelimitedIs(s: seq<char>, p: nat, prev: char)
    requires p <= |s| && DelimitedAt(s, p, prev).Some?
    ensures var e := DelimitedAt(s, p, prev).value;
      && p <= e < |s| && (if p < e then s[e - 1] else prev) != '\\'
      && forall i :: p <= i < e && s[i] == '/' ==> (if i == p then prev else s[i - 1]) == '\\'
    decreases |s| - p
  {
    if !(s[p] == '/' && prev != '\\') {
      DelimitedIs(s, p + 1, s[p]);
    }
  }

  lemma RegexIs(compiles: seq<char> -> bool, s: seq<char>, p: nat, dir: Dir)
    requires p < |s| && RegexAt(compiles, s, p, dir).0.Ok?
    ensures var b := RegexAt(compiles, s, p, dir).0.value;
      Printable(compiles, b) && (if dir.Fwd? then b.Regex? else b.RegexBack?)
  {
    DelimitedIs(s, p + 1, '/');
    var e := DelimitedAt(s, p + 1, '/').value;
    var re := s[p + 1..e];
    forall i | 0 <= i < |re| && re[i] == '/'
      ensures i > 0 && re[i - 1] == '\\'
    {
      assert s[p + 1 + i] == '/';
    }
  }

  lemma LineIs(compiles: seq<char> -> bool, s: seq<char>, p: nat, dir: Option<Dir>)
    requires p < |s| && IsAsciiDigit(s[p]) && LineAt(s, p, dir).0.Ok?
    ensures var b := LineAt(s, p, dir).0.value;
      Printable(compiles, b) && (if dir.Some? then b.RelativeLine? else b.Line? || b.LineAndColumn?)
  {
    hide NumAt;
  }

  lemma CharIs(compiles: seq<char> -> bool, s: seq<char>, p: nat, dir: Option<Dir>)
    requires p < |s| && CharAt(s, p, dir).0.Ok?
    ensures var b := CharAt(s, p, dir).0.value;
      Printable(compiles, b) && (if dir.Some? then b.RelativeChar? else b.Char?)
  {
    hide NumAt;
  }

  /** What is read can be printed; behind a `-` or `+` that is read as such there is not the other sign; and
      what begins with a sign is no address of the other one. */
  lemma BaseIs(compiles: seq<char> -> bool, s: seq<char>, p: nat)
    requires p <= |s| && BaseAt(compiles, s, p).0.Ok?
    ensures var (r, e) := BaseAt(compiles, s, p);
      && Printable(compiles, r.value)
      && (r.value.Bol? && e < |s| ==> s[e] != '+') && (r.value.Eol? && e < |s| ==> s[e] != '-')
      && (s[p] == '-' ==> !r.value.Eol? && !r.value.Regex?) && (s[p] == '+' ==> !r.value.Bol? && !r.value.RegexBack?)
  {
    hide RegexAt, LineAt, CharAt, Delimitable;
    var q := if s[p] == '-' || s[p] == '+' then p + 1 else p;
    var dir := if s[p] == '-' then Some(Bck) else if s[p] == '+' then Some(Fwd) else None;
    if q < |s| {
      if s[q] == '#' {
        if CharAt(s, q, dir).0.Ok? { CharIs(compiles, s, q, dir); }
      } else if IsAsciiDigit(s[q]) {
        if LineAt(s, q, dir).0.Ok? { LineIs(compiles, s, q, dir); }
      } else if s[q] == '/' {
        var d := if dir.Some? then dir.value else Fwd;
        if RegexAt(compiles, s, q, d).0.Ok? { RegexIs(compiles, s, q, d); }
      }
    }
  }

  lemma {:induction false} SuffixesAre(compiles: seq<char> -> bool, s: seq<char>, p: nat)
    requires p <= |s| && SuffixesAt(compiles, s, p).0.Ok?
    ensures var bs := SuffixesAt(compiles, s, p).0.value;
      && (forall i :: 0 <= i < |bs| ==> Printable(compiles, bs[i]) && bs[i].IsValidSuffix())
      && AllApart(bs) && (bs != [] ==> p < |s| && s[p] in "-+" && BaseAt(compiles, s, p).0 == Ok(bs[0]))
    decreases |s| - p
  {
    if p < |s| && s[p] in "-+" {
      hide BaseAt, Printable, Meets;
      var (r, e) := BaseAt(compiles, s, p);
      BaseIs(compiles, s, p);
      SuffixesAre(compiles, s, e);
      var rest := SuffixesAt(compiles, s, e).0.value;
      assert ([r.value] + rest)[1..] == rest;
      ReadApart(compiles, s, p, rest);
      ApartStep([r.value] + rest);
    }
  }

  /** An address that is read does not meet the suffix behind it. */
  lemma ReadApart(compiles: seq<char> -> bool, s: seq<char>, p: nat, rest: seq<AddrBase>)
    requires p <= |s| && BaseAt(compiles, s, p).0.Ok?
    requires var e := BaseAt(compiles, s, p).1;
      rest != [] ==> e < |s| && s[e] in "-+" && BaseAt(compiles, s, e).0 == Ok(rest[0])
    ensures rest != [] ==> !Meets(BaseAt(compiles, s, p).0.value, rest[0])
  {
    hide BaseAt, Printable;
    BaseIs(compiles, s, p);
    if rest != [] {
      BaseIs(compiles, s, BaseAt(compiles, s, p).1);
    }
  }

  lemma SimpleIs(compiles: seq<char> -> bool, s: seq<char>, p: nat)
    requires p <= |s| && SimpleAt(compiles, s, p).0.Ok?
    ensures var a := SimpleAt(compiles, s, p).0.value; PrintableSimple(compiles, a) && Apart(a.base, a.suffixes)
  {
    hide BaseAt, Printable, Meets, SuffixesAt;
    BaseIs(compiles, s, p);
    SuffixesAre(compiles, s, BaseAt(compiles, s, p).1);
    ReadApart(compiles, s, p, SimpleAt(compiles, s, p).0.value.suffixes);
  }

  lemma ParsedIs(compiles: seq<char> -> bool, s: seq<char>)
    requires Parsed(compiles, s).Ok?
    ensures PrintableAddr(compiles, Parsed(compiles, s).value) && ApartAddr(Parsed(compiles, s).value)
  {
    hide SimpleAt, IsWhitespace;
    if SimpleAt(compiles, s, 0).0.Ok? {
      SimpleIs(compiles, s, 0);
    }
    var p := SimpleAt(compiles, s, 0).1;
    if p < |s| && SimpleAt(compiles, s, p + 1).0.Ok? {
      SimpleIs(compiles, s, p + 1);
    }
    assert Apart(Bof, []) && Apart(Eof, []);
  }

  /** The parser reads an address from some text exactly if it reads it from its printed text, and exactly if
      its numbers and patterns can be written and nothing in it meets. */
  lemma ParsedPrinted(compiles: seq<char> -> bool, a: Addr)
    ensures Parsed(compiles, Printed(a)) == Ok(a) <==> PrintableAddr(compiles, a) && ApartAddr(a)
    ensures Parsed(compiles, Printed(a)) == Ok(a) <==> exists s :: Parsed(compiles, s) == Ok(a)
  {
    hide Parsed, Printed, ApartAddr, PrintableAddr;
    forall s | Parsed(compiles, s) == Ok(a)
      ensures PrintableAddr(compiles, a) && ApartAddr(a)
    {
      ParsedIs(compiles, s);
    }
    if PrintableAddr(compiles, a) && ApartAddr(a) {
      PrintedRead(compiles, a);
    }
  }

  lemma PrintedRead(compiles: seq<char> -> bool, a: Addr)
    requires PrintableAddr(compiles, a) && ApartAddr(a)
    ensures Parsed(compiles, Printed(a)) == Ok(a)
  {
    hide Parsed, SimpleText, Apart, PrintableSimple;
    match a
    case Simple(x) =>
      ParsedSimple(compiles, x, []);
      assert SimpleText(x) + [] == SimpleText(x);
    case Compound(x, y) =>
      ParsedCompound(compiles, Some(x), Some(y), []);
      assert SimpleText(x) + "," + SimpleText(y) + [] == SimpleText(x) + "," + SimpleText(y);
  }

  // ---------------------------------------------------------------- errors

  lemma BaseEof(compiles: seq<char> -> bool, s: seq<char>, p: nat)
    requires p <= |s| && BaseAt(compiles, s, p).0.Err?
    ensures BaseAt(compiles, s, p).0 != Err(InvalidSuffix)
    ensures BaseAt(compiles, s, p).0 == Err(UnexpectedEof) <==> p == |s|
  {
    hide NumberAt, DelimitedAt;
  }

  /** What begins with a sign is a valid suffix. */
  lemma SignedIsSuffix(compiles: seq<char> -> bool, s: seq<char>, p: nat)
    requires p < |s| && s[p] in "-+" && BaseAt(compiles, s, p).0.Ok?
    ensures BaseAt(compiles, s, p).0.value.IsValidSuffix()
  {
    hide NumAt, DelimitedAt;
  }

  lemma {:induction false} SuffixErrors(compiles: seq<char> -> bool, s: seq<char>, p: nat)
    requires p <= |s| && SuffixesAt(compiles, s, p).0.Err?
    ensures SuffixesAt(compiles, s, p).0.error != InvalidSuffix && SuffixesAt(compiles, s, p).0.error != UnexpectedEof
    decreases |s| - p
  {
    hide BaseAt, AddrBase.IsValidSuffix;
    if BaseAt(compiles, s, p).0.Err? {
      BaseEof(compiles, s, p);
    } else {
      SignedIsSuffix(compiles, s, p);
      SuffixErrors(compiles, s, BaseAt(compiles, s, p).1);
    }
  }

  /** There is no text with an invalid suffix, and only the empty one ends too early. */
  lemma ParsedErrors(compiles: seq<char> -> bool, s: seq<char>)
    ensures Parsed(compiles, s) != Err(InvalidSuffix)
    ensures Parsed(compiles, s) == Err(UnexpectedEof) <==> s == []
  {
    hide BaseAt, SuffixesAt, IsWhitespace;
    SimpleErrors(compiles, s, 0);
    var p := SimpleAt(compiles, s, 0).1;
    if p + 1 < |s| {
      SimpleErrors(compiles, s, p + 1);
    }
  }

  lemma SimpleErrors(compiles: seq<char> -> bool, s: seq<char>, p: nat)
    requires p <= |s|
    ensures SimpleAt(compiles, s, p).0 != Err(InvalidSuffix)
    ensures SimpleAt(compiles, s, p).0 == Err(UnexpectedEof) <==> p == |s|
  {
    hide BaseAt, SuffixesAt;
    var (b, e) := BaseAt(compiles, s, p);
    if b.Err? {
      BaseEof(compiles, s, p);
    } else if SuffixesAt(compiles, s, e).0.Err? {
      SuffixErrors(compiles, s, e);
    }
    if p == |s| {
      BaseAtEnd(compiles, s);
    }
  }

  lemma BaseAtEnd(compiles: seq<char> -> bool, s: seq<char>)
    ensures BaseAt(compiles, s, |s|) == (Err(UnexpectedEof), |s|)
  {
  }

  /** An error in the first address is the result, unless that is left out. */
  lemma FirstError(compiles: seq<char> -> bool, s: seq<char>)
    requires s != [] && s[0] != ',' && BaseAt(compiles, s, 0).0.Err?
    ensures Parsed(compiles, s) == Err(BaseAt(compiles, s, 0).0.error)
  {
    hide BaseAt;
  }

  /** A sign in front of what cannot be relative. */
  lemma SignError(compiles: seq<char> -> bool, d: Dir, c: char, rest: seq<char>)
    requires c in ".0$"
    ensures Parsed(compiles, [SignChar(d), c] + rest) == Err(NotAnAddress)
  {
    FirstError(compiles, [SignChar(d), c] + rest);
  }

  /** A pattern without an end, and one that does not compile. */
  lemma PatternErrors(compiles: seq<char> -> bool, re: seq<char>)
    ensures (forall i :: 0 <= i < |re| && re[i] == '/' ==> i > 0 && re[i - 1] == '\\') ==>
      Parsed(compiles, "/" + re) == Err(UnclosedDelimiter)
    ensures Delimitable(re) && !compiles(re) ==> Parsed(compiles, "/" + re + "/") == Err(InvalidRegex)
  {
    if forall i :: 0 <= i < |re| && re[i] == '/' ==> i > 0 && re[i - 1] == '\\' {
      var s := "/" + re;
      NeverDelimited(s, 1, '/');
      FirstError(compiles, s);
    }
    if Delimitable(re) && !compiles(re) {
      var s := "/" + re + "/";
      assert TextAt(s, 1, re + "/");
      DelimitedRead(s, 1, re, '/');
      assert s[1..1 + |re|] == re;
      FirstError(compiles, s);
    }
  }

  lemma {:induction false} NeverDelimited(s: seq<char>, p: nat, prev: char)
    requires p <= |s| && (p < |s| && s[p] == '/' ==> prev == '\\')
    requires forall i :: p < i < |s| && s[i] == '/' ==> s[i - 1] == '\\'
    ensures DelimitedAt(s, p, prev) == None
    decreases |s| - p
  {
    if p < |s| {
      NeverDelimited(s, p + 1, s[p]);
    }
  }

  /** A column of zero, one that is not there, one that is no number, and a line that is too large. */
  lemma {:induction false} LineErrors(compiles: seq<char> -> bool, n: nat, c: char)
    requires 0 < n
    ensures n < USIZE_VALUES ==> Parsed(compiles, Decimal(n) + ":0") == Err(ZeroIndexedLineOrColumn)
    ensures n < USIZE_VALUES ==> Parsed(compiles, Decimal(n) + ":") == Err(NotAnAddress)
    ensures n < USIZE_VALUES && !IsAsciiDigit(c) ==>
      Parsed(compiles, Decimal(n) + [':', c]) == Err(UnexpectedCharacter(c))
    ensures n >= USIZE_VALUES ==> Parsed(compiles, Decimal(n)) == Err(NotAnAddress)
  {
    hide Parsed;
    var x := Decimal(n);
    if n < USIZE_VALUES {
      LineBegun(compiles, x + ":0", n);
      assert Decimal(0) == "0" && TextAt(x + ":0", |x| + 1, Decimal(0));
      NumTextRead(x + ":0", |x| + 1, 0);
      LineBegun(compiles, x + ":", n);
      LineBegun(compiles, x + [':', c], n);
    } else {
      TooLarge(compiles, n);
    }
    if n < USIZE_VALUES {
      FirstError(compiles, x + ":0");
      FirstError(compiles, x + ":");
      if !IsAsciiDigit(c) {
        FirstError(compiles, x + [':', c]);
      }
    } else {
      FirstError(compiles, x);
    }
  }

  lemma {:induction false} TooLarge(compiles: seq<char> -> bool, n: nat)
    requires n >= USIZE_VALUES
    ensures BaseAt(compiles, Decimal(n), 0).0 == Err(NotAnAddress)
  {
    var x := Decimal(n);
    assert x[0..|x|] == x && x[0] != '0';
    RunEndIs(x, 0, |x|);
    ValueOfDecimal(n);
    BaseIsLine(compiles, x, 0);
  }

  lemma {:induction false} LineBegun(compiles: seq<char> -> bool, s: seq<char>, n: nat)
    requires 0 < n < USIZE_VALUES && TextAt(s, 0, Decimal(n)) && |Decimal(n)| < |s| && s[|Decimal(n)|] == ':'
    ensures NumAt(s, 0) == (Ok(n), |Decimal(n)|) && IsAsciiDigit(s[0])
    ensures BaseAt(compiles, s, 0) == LineAt(s, 0, None)
  {
    NumTextRead(s, 0, n);
    BaseIsLine(compiles, s, 0);
  }

  /** What begins no address at all, a character offset without digits, and a column behind a relative line. */
  lemma {:induction false} OtherErrors(compiles: seq<char> -> bool, c: char, d: Dir, n: nat, rest: seq<char>)
    ensures c !in ".0$-+#/," && !IsAsciiDigit(c) ==> Parsed(compiles, [c] + rest) == Err(NotAnAddress)
    ensures c !in ".0$-+#/, " && !IsWhitespace(c) && !IsAsciiDigit(c) ==>
      Parsed(compiles, [',', c] + rest) == Err(NotAnAddress)
    ensures (rest == [] || !IsAsciiDigit(rest[0])) ==> Parsed(compiles, "#" + rest) == Err(NotAnAddress)
    ensures (rest == [] || !IsAsciiDigit(rest[0])) ==> Parsed(compiles, [SignChar(d), '#'] + rest) == Err(NotAnAddress)
    ensures 0 < n < USIZE_VALUES ==> Parsed(compiles, [SignChar(d)] + Decimal(n) + ":" + rest) == Err(NotAnAddress)
  {
    hide Parsed, NumAt;
    if c !in ".0$-+#/," && !IsAsciiDigit(c) {
      FirstError(compiles, [c] + rest);
      if !IsWhitespace(c) {
        SecondError(compiles, [',', c] + rest);
      }
    }
    if rest == [] || !IsAsciiDigit(rest[0]) {
      FirstError(compiles, "#" + rest);
      FirstError(compiles, [SignChar(d), '#'] + rest);
    }
    if 0 < n < USIZE_VALUES {
      RelativeColumn(compiles, [SignChar(d)] + Decimal(n) + ":" + rest, d, n, rest);
    }
  }

  lemma SecondError(compiles: seq<char> -> bool, s: seq<char>)
    requires |s| > 1 && s[0] == ',' && !IsWhitespace(s[1]) && BaseAt(compiles, s, 1).0.Err?
    ensures Parsed(compiles, s) == Err(BaseAt(compiles, s, 1).0.error)
  {
    CommaRead(compiles, s);
    hide BaseAt, IsWhitespace;
  }

  lemma {:induction false} RelativeColumn(compiles: seq<char> -> bool, s: seq<char>, d: Dir, n: nat, rest: seq<char>)
    requires 0 < n < USIZE_VALUES && s == [SignChar(d)] + Decimal(n) + ":" + rest
    ensures Parsed(compiles, s) == Err(NotAnAddress)
  {
    var x := Decimal(n);
    assert TextAt(s, 1, x) && s[1 + |x|] == ':';
    hide Parsed, NumAt, Decimal, RegexAt;
    NumTextRead(s, 1, n);
    FirstError(compiles, s);
  }

  /** Anything else behind an address that cannot belong to it. */
  lemma TrailingError(compiles: seq<char> -> bool, x: SimpleAddr, c: char, rest: seq<char>)
    requires PrintableSimple(compiles, x) && Apart(x.base, x.suffixes) && !IsAsciiDigit(c) && c !in ":#/.$-+, "
    ensures Parsed(compiles, SimpleText(x) + [c] + rest) == Err(NotAnAddress)
  {
    hide SimpleAt, SimpleText, Apart, PrintableSimple, IsWhitespace;
    var s, t := SimpleText(x) + [c] + rest, SimpleText(x);
    assert s[0..|t|] == t && s[|t|] == c;
    SimpleRead(compiles, s, 0, x);
  }

  // ---------------------------------------------------------------- dots

  /** The line of a character and its column in the line. */
  method AsYx(txt: GapBuffer, idx: nat) returns (y: nat, x: nat)
    requires txt.Coherent() && idx <= |txt.Text()|
    ensures (y, x) == Yx(txt.Text(), idx)
  {
    hide NewlineAt;
    OnItsLine(txt.Text(), idx);
    var line := txt.TryCharToLine(idx);
    var start := txt.TryLineToChar(line.value);
    y, x := line.value, idx - start.value;
  }

  function Yx(t: seq<char>, idx: nat): (nat, nat)
    requires idx <= |t|
  {
    OnItsLine(t, idx);
    (NewlineCount(t[..idx]), idx - LineStart(t, NewlineCount(t[..idx])))
  }

  function AtYx(t: seq<char>, idx: nat): SimpleAddr
    requires idx <= |t|
  {
    SimpleAddr(LineAndColumn(Yx(t, idx).0, Yx(t, idx).1), [])
  }

  /** Addr::from_dot; its text is what the editor shows for a dot. */
  function FromDot(t: seq<char>, d: Dot): Addr
    requires d.Within(|t|)
  {
    match d
    case AtCur(c) => Simple(AtYx(t, c))
    case AtRange(r) => Compound(AtYx(t, r.start), AtYx(t, r.end))
  }

  /** The character at a line and column, if there is such a line. */
  method MapLineAndColumn(txt: GapBuffer, line: nat, col: nat) returns (r: Option<Dot>)
    requires txt.Coherent()
    ensures r == MappedBase(txt.Text(), LineAndColumn(line, col))
  {
    var idx := txt.TryLineToChar(line);
    r := if idx.None? then None else Some(AtCur(idx.value + col));
  }

  function MappedBase(t: seq<char>, b: AddrBase): Option<Dot>
    requires b.LineAndColumn?
  {
    if b.line <= NewlineCount(t) then Some(AtCur(LineStart(t, b.line) + b.col)) else None
  }

  predicate Positions(a: SimpleAddr) { a.base.LineAndColumn? && a.suffixes == [] }

  /** What an address of positions stands for in a text: the start of the text if there is no such line. */
  function Mapped(t: seq<char>, a: Addr): Dot
    requires match a case Simple(x) => Positions(x) case Compound(x, y) => Positions(x) && Positions(y)
  {
    var dot := match a
      case Simple(x) => MappedBase(t, x.base)
      case Compound(x, y) =>
        var c1, c2 := MappedBase(t, x.base), MappedBase(t, y.base);
        if c1.None? || c2.None? then None else Some(AtRange(FromCursors(c1.value.First(), c2.value.LastCur(), false)));
    (if dot.Some? then dot.value else AtCur(0)).ClampIdx(|t|)
  }

  /** Printing any dot within a text, parsing what is printed, and looking that up in the same text leads to the
      same positions. The second end of a range is then the active one. */
  lemma DotRoundTrip(compiles: seq<char> -> bool, t: seq<char>, d: Dot)
    requires d.Within(|t|) && |t| + 1 < USIZE_VALUES
    ensures Parsed(compiles, Printed(FromDot(t, d))) == Ok(FromDot(t, d))
    ensures Mapped(t, FromDot(t, d)) == if d.AtCur? then d else AtRange(Range(d.r.start, d.r.end, false))
  {
    hide Parsed, Printed;
    CurRoundTrip(compiles, t, d.First());
    CurRoundTrip(compiles, t, d.LastCur());
    ParsedPrinted(compiles, FromDot(t, d));
  }

  lemma CurRoundTrip(compiles: seq<char> -> bool, t: seq<char>, idx: nat)
    requires idx <= |t| && |t| + 1 < USIZE_VALUES
    ensures MappedBase(t, AtYx(t, idx).base) == Some(AtCur(idx))
    ensures PrintableSimple(compiles, AtYx(t, idx)) && Apart(AtYx(t, idx).base, AtYx(t, idx).suffixes)
  {
    OnItsLine(t, idx);
    CountMonotone(t, idx, |t|);
    assert t[..|t|] == t;
    CountAtMost(t[..idx]);
  }

  lemma {:induction false} CountAtMost(t: seq<char>)
    ensures NewlineCount(t) <= |t|
  {
    if t != [] {
      CountAtMost(t[..|t| - 1]);
    }
  }
}

