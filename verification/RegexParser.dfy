/** The part of the expression parser that reads a counted repetition and applies it. */
module RegexParser {
  import opened Basics
  import opened Decimals
  import opened RegexAst
  import opened RegexTransform

  datatype ParseError = InvalidEscape(c: char) | InvalidRepetition

  type Read<+T> = Result<T, ParseError>

  // ---------------------------------------------------------------- what is read

  /** The character that an escaped one stands for. Only the low byte of a character is looked up. */
  function Escape(c: char): Option<char> {
    var x := (c as int % 256) as char;
    if x in "*+?.@()[]{}|\\'\"^$-bBdDwWsS" then Some(x)
    else if x == 'n' then Some('\n')
    else if x == 'r' then Some('\r')
    else if x == 't' then Some('\t')
    else None
  }

  lemma EscapesNoDigit(c: char)
    ensures Escape(c).Some? ==> !IsAsciiDigit(Escape(c).value) && Escape(c).value != ','
  {
  }

  /** The next character and whether it is escaped, or nothing at the end; and where it ends. */
  function NextAt(s: seq<char>, p: nat): (r: (Read<Option<(char, bool)>>, nat))
    requires p <= |s|
    ensures p <= r.1 <= |s|
    ensures r.0.Ok? && r.0.value.Some? && IsAsciiDigit(r.0.value.value.0) ==> r.1 == p + 1 && s[p] == r.0.value.value.0
  {
    if p == |s| then (Ok(None), p)
    else if s[p] != '\\' then (Ok(Some((s[p], false))), p + 1)
    else if p + 1 == |s| then (Err(InvalidEscape('\0')), p + 1)
    else
      EscapesNoDigit(s[p + 1]);
      match Escape(s[p + 1])
      case Some(ch) => (Ok(Some((ch, true))), p + 2)
      case None => (Err(InvalidEscape(s[p + 1])), p + 2)
  }

  /** A character; at the end there is no repetition. */
  function CharNext(s: seq<char>, p: nat): (r: (Read<char>, nat))
    requires p <= |s|
    ensures p <= r.1 <= |s| && (r.0.Ok? && IsAsciiDigit(r.0.value) ==> r.1 == p + 1 && s[p] == r.0.value)
  {
    match NextAt(s, p)
    case (Ok(Some((ch, _))), q) => (Ok(ch), q)
    case (Ok(None), q) => (Err(InvalidRepetition), q)
    case (Err(e), q) => (Err(e), q)
  }

  /** A number that begins with the digit at `p`; zero is no count. */
  function CountAt(s: seq<char>, p: nat): (r: (Read<nat>, nat))
    requires p < |s| && IsAsciiDigit(s[p])
    ensures p < r.1 <= |s| && (r.0.Ok? ==> 0 < r.0.value < USIZE_VALUES)
  {
    match NumberAt(s, p)
    case (Some(n), e) => (if n == 0 then Err(InvalidRepetition) else Ok(n), e)
    case (None, e) => (Err(InvalidRepetition), e)
  }

  /** What try_parse_counted_repetition reads behind the opening brace. */
  function CountedAt(s: seq<char>, p: nat): (r: (Read<Counted>, nat))
    requires p <= |s|
    ensures p <= r.1 <= |s|
  {
    match CharNext(s, p)
    case (Err(e), q) => (Err(e), q)
    case (Ok(ch), q) =>
      if !IsAsciiDigit(ch) then (Err(InvalidRepetition), q)
      else match CountAt(s, p)
        case (Ok(n), e) => LowerAt(s, e, n)
        case (Err(k), e) => (Err(k), e)
  }

  /** What follows the first number. */
  function LowerAt(s: seq<char>, p: nat, n: nat): (r: (Read<Counted>, nat))
    requires p <= |s|
    ensures p <= r.1 <= |s|
  {
    match CharNext(s, p)
    case (Err(e), q) => (Err(e), q)
    case (Ok(ch), q) =>
      if ch == '}' then (Ok(Exactly(n)), q)
      else if ch != ',' then (Err(InvalidRepetition), q)
      else UpperAt(s, q, n)
  }

  /** What follows the comma. */
  function UpperAt(s: seq<char>, p: nat, n: nat): (r: (Read<Counted>, nat))
    requires p <= |s|
    ensures p <= r.1 <= |s|
  {
    match CharNext(s, p)
    case (Err(e), q) => (Err(e), q)
    case (Ok(ch), q) =>
      if ch == '}' then (Ok(AtLeast(n)), q)
      else if !IsAsciiDigit(ch) then (Err(InvalidRepetition), q)
      else match CountAt(s, p)
        case (Err(k), e) => (Err(k), e)
        case (Ok(m), e) =>
          match CharNext(s, e)
          case (Err(k), f) => (Err(k), f)
          case (Ok(last), f) => (if last == '}' then Ok(Between(n, m)) else Err(InvalidRepetition), f)
  }

  // ---------------------------------------------------------------- the parser

  class Pattern {
    const re: seq<char>
    var pos: nat

    constructor (re: seq<char>)
      ensures this.re == re && pos == 0
    {
      this.re, pos := re, 0;
    }

    /** next_char, with a missing character taken as an invalid repetition. */
    method NextChar() returns (r: Read<char>)
      requires pos <= |re|
      modifies this
      ensures (r, pos) == CharNext(re, old(pos))
    {
      if pos == |re| {
        return Err(InvalidRepetition);
      }
      var ch := re[pos];
      pos := pos + 1;
      if ch != '\\' {
        return Ok(ch);
      }
      if pos == |re| {
        return Err(InvalidEscape('\0'));
      }
      ch := re[pos];
      pos := pos + 1;
      var esc := Escape(ch);
      r := if esc.Some? then Ok(esc.value) else Err(InvalidEscape(ch));
    }

    /** parse_num; the first digit is read already. */
    method ParseNum(initial: char) returns (n: Option<nat>)
      requires 0 < pos <= |re| && re[pos - 1] == initial && IsAsciiDigit(initial)
      modifies this
      ensures (n, pos) == NumberAt(re, old(pos) - 1)
    {
      var s := [initial];
      while pos < |re| && IsAsciiDigit(re[pos])
        invariant old(pos) <= pos <= |re| && s == re[old(pos) - 1..pos] && AllDigits(s)
      {
        s := s + [re[pos]];
        pos := pos + 1;
      }
      RunEndIs(re, old(pos) - 1, pos);
      n := if Value(s) < USIZE_VALUES then Some(Value(s)) else None;
    }

    method ParseCount(initial: char) returns (r: Read<nat>)
      requires 0 < pos <= |re| && re[pos - 1] == initial && IsAsciiDigit(initial)
      modifies this
      ensures (r, pos) == CountAt(re, old(pos) - 1)
    {
      hide NumberAt;
      var n := ParseNum(initial);
      r := if n.None? || n.value == 0 then Err(InvalidRepetition) else Ok(n.value);
    }

    method TryParseCounted() returns (r: Read<Counted>)
      requires pos <= |re|
      modifies this
      ensures (r, pos) == CountedAt(re, old(pos))
    {
      hide CharNext, CountAt;
      var ch := NextChar();
      if ch.Err? {
        return Err(ch.error);
      } else if !IsAsciiDigit(ch.value) {
        return Err(InvalidRepetition);
      }
      var n := ParseCount(ch.value);
      if n.Err? {
        return Err(n.error);
      }
      ch := NextChar();
      if ch.Err? {
        return Err(ch.error);
      } else if ch.value == '}' {
        return Ok(Exactly(n.value));
      } else if ch.value != ',' {
        return Err(InvalidRepetition);
      }
      ch := NextChar();
      if ch.Err? {
        return Err(ch.error);
      } else if ch.value == '}' {
        return Ok(AtLeast(n.value));
      } else if !IsAsciiDigit(ch.value) {
        return Err(InvalidRepetition);
      }
      var m := ParseCount(ch.value);
      if m.Err? {
        return Err(m.error);
      }
      ch := NextChar();
      if ch.Err? {
        return Err(ch.error);
      }
      r := if ch.value == '}' then Ok(Between(n.value, m.value)) else Err(InvalidRepetition);
    }

    /** A counted repetition behind its opening brace: it is read and applied to the last node. It underflows
        exactly if two bounds are read and the second is smaller. */
    method CountedRepetition(nodes: seq<Ast>) returns (r: Read<seq<Ast>>, underflow: bool)
      requires pos <= |re|
      modifies this
      ensures var read := CountedAt(re, old(pos)).0;
        && pos == CountedAt(re, old(pos)).1
        && (read.Err? ==> r == Err(read.error) && !underflow)
        && (read.Ok? ==> (nodes == [] <==> r == Err(InvalidRepetition)))
        && (underflow <==> read.Ok? && nodes != [] && read.value.Between? && read.value.m < read.value.n)
        && (r.Ok? && !underflow ==> read.Ok? && nodes != [] && forall w, i: nat, j: nat ::
          MatchesAll(r.value, w, i, j) <==> CountedLanguage(read.value, nodes, w, i, j))
    {
      hide MatchesAll, CountedLanguage, CountedAt;
      var read := TryParseCounted();
      if read.Err? {
        return Err(read.error), false;
      }
      CountsPositive(re, old(pos));
      var applied, outcome := ApplyCounted(read.value, nodes);
      r := if outcome.NoOperand? then Err(InvalidRepetition) else Ok(applied);
      underflow := outcome.Underflow?;
    }
  }

  // ---------------------------------------------------------------- which counts are read

  /** The bounds are positive and fit a machine word. */
  predicate Countable(c: Counted) {
    0 < c.n < USIZE_VALUES && (c.Between? ==> 0 < c.m < USIZE_VALUES)
  }

  lemma CountsPositive(s: seq<char>, p: nat)
    requires p <= |s| && CountedAt(s, p).0.Ok?
    ensures Countable(CountedAt(s, p).0.value)
  {
    hide CharNext, CountAt;
  }

  function CountText(c: Counted): seq<char> {
    match c
    case Exactly(n) => Decimal(n) + "}"
    case AtLeast(n) => Decimal(n) + ",}"
    case Between(n, m) => Decimal(n) + "," + Decimal(m) + "}"
  }

  lemma {:induction false} CountRead(s: seq<char>, p: nat, n: nat)
    requires 0 < n < USIZE_VALUES && TextAt(s, p, Decimal(n))
    requires p + |Decimal(n)| < |s| && !IsAsciiDigit(s[p + |Decimal(n)|])
    ensures p < |s| && IsAsciiDigit(s[p]) && CharNext(s, p) == (Ok(s[p]), p + 1)
    ensures CountAt(s, p) == (Ok(n), p + |Decimal(n)|)
  {
    hide NumberAt, Decimal, Escape;
    NumberRead(s, p, n);
  }

  lemma SignRead(s: seq<char>, p: nat, c: char)
    requires c == '}' || c == ','
    requires TextAt(s, p, [c])
    ensures p < |s| && s[p] == c && !IsAsciiDigit(c) && CharNext(s, p) == (Ok(c), p + 1)
  {
    TextAtOne(s, p, c);
  }

  /** A count in its usual notation is read back. */
  lemma CountedRead(s: seq<char>, p: nat, c: Counted)
    requires Countable(c) && TextAt(s, p, CountText(c))
    ensures p <= |s| && CountedAt(s, p) == (Ok(c), p + |CountText(c)|)
  {
    hide CharNext, CountAt, Decimal, TextAt, IsAsciiDigit;
    var x := Decimal(c.n);
    var e := p + |x|;
    match c {
      case Exactly(n) =>
        TextAtSplit(s, p, x, "}");
        SignRead(s, e, '}');
        CountRead(s, p, n);
      case AtLeast(n) =>
        assert x + ",}" == x + ("," + "}");
        TextAtSplit(s, p, x, "," + "}");
        TextAtSplit(s, e, ",", "}");
        SignRead(s, e, ',');
        SignRead(s, e + 1, '}');
        CountRead(s, p, n);
        SignIsNoDigit('}');
      case Between(n, m) =>
        var y := Decimal(m);
        TextAtSplit(s, p, x + "," + y, "}");
        TextAtSplit(s, p, x + ",", y);
        TextAtSplit(s, p, x, ",");
        SignRead(s, e, ',');
        SignRead(s, e + 1 + |y|, '}');
        CountRead(s, p, n);
        CountRead(s, e + 1, m);
        DigitIsNoSign(s[e + 1]);
    }
  }

  lemma SignIsNoDigit(c: char)
    requires c == '}' || c == ','
    ensures !IsAsciiDigit(c)
  {
  }

  lemma DigitIsNoSign(c: char)
    requires IsAsciiDigit(c)
    ensures c != '}'
  {
  }

  /** Exactly the counts with positive bounds that fit are read from some pattern; `{0,}` is none of them. */
  lemma CountsRead(c: Counted)
    ensures (exists s, p: nat :: p <= |s| && CountedAt(s, p).0 == Ok(c)) <==> Countable(c)
  {
    hide CountedAt, CountText;
    if s, p: nat :| p <= |s| && CountedAt(s, p).0 == Ok(c) {
      CountsPositive(s, p);
    }
    if Countable(c) {
      var s := CountText(c);
      assert TextAt(s, 0, s);
      CountedRead(s, 0, c);
      assert CountedAt(s, 0).0 == Ok(c);
    }
  }

  // ---------------------------------------------------------------- what a count looks like

  /** Digits, perhaps with zeros in front. */
  predicate Spells(x: seq<char>, n: nat) { x != [] && AllDigits(x) && Value(x) == n }

  /** A closing brace, which may be escaped; of an escaped character only the low byte is looked at. */
  predicate Closes(z: seq<char>) { z == "}" || (|z| == 2 && z[0] == '\\' && z[1] as int % 256 == '}' as int) }

  ghost predicate Spelled(c: Counted, t: seq<char>) {
    match c
    case Exactly(n) => exists x, z :: Spells(x, n) && Closes(z) && t == x + z
    case AtLeast(n) => exists x, z :: Spells(x, n) && Closes(z) && t == x + "," + z
    case Between(n, m) => exists x, y, z :: Spells(x, n) && Spells(y, m) && Closes(z) && t == x + "," + y + z
  }

  lemma CloseAt(s: seq<char>, p: nat, e: nat)
    requires p <= |s|
    ensures CharNext(s, p) == (Ok('}'), e) <==> p <= e <= |s| && Closes(s[p..e])
  {
  }

  lemma CommaAt(s: seq<char>, p: nat)
    requires p <= |s|
    ensures CharNext(s, p).0 == Ok(',') <==> p < |s| && s[p] == ','
    ensures CharNext(s, p).0 == Ok(',') ==> CharNext(s, p).1 == p + 1
  {
  }

  lemma DigitAt(s: seq<char>, p: nat)
    requires p <= |s|
    ensures CharNext(s, p).0.Ok? && IsAsciiDigit(CharNext(s, p).0.value) <==> p < |s| && IsAsciiDigit(s[p])
    ensures p < |s| && IsAsciiDigit(s[p]) ==> CharNext(s, p) == (Ok(s[p]), p + 1)
  {
  }

  lemma NumberSpelled(s: seq<char>, p: nat, n: nat, e: nat)
    requires p < |s| && IsAsciiDigit(s[p])
    ensures CountAt(s, p) == (Ok(n), e) <==>
      0 < n < USIZE_VALUES && p <= e <= |s| && Spells(s[p..e], n) && (e < |s| ==> !IsAsciiDigit(s[e]))
  {
    if p <= e <= |s| && AllDigits(s[p..e]) && (e < |s| ==> !IsAsciiDigit(s[e])) {
      RunEndIs(s, p, e);
    }
  }

  /** A count is read exactly if it is spelled as the source's notation says, and up to its end. */
  lemma CountedExactly(s: seq<char>, p: nat, c: Counted, e: nat)
    requires p <= |s|
    ensures CountedAt(s, p) == (Ok(c), e) <==> Countable(c) && p <= e <= |s| && Spelled(c, s[p..e])
  {
    hide CharNext, CountAt, Spelled;
    if CountedAt(s, p) == (Ok(c), e) {
      CountedIsSpelled(s, p, c, e);
    }
    if Countable(c) && p <= e <= |s| && Spelled(c, s[p..e]) {
      SpelledIsCounted(s, p, c, e);
    }
  }

  lemma CountedIsSpelled(s: seq<char>, p: nat, c: Counted, e: nat)
    requires p <= |s| && CountedAt(s, p) == (Ok(c), e)
    ensures Countable(c) && p <= e <= |s| && Spelled(c, s[p..e])
  {
    hide CharNext, CountAt, Spells, Closes, IsAsciiDigit;
    DigitAt(s, p);
    var f := CountAt(s, p).1;
    NumberSpelled(s, p, c.n, f);
    assert Spells(s[p..f], c.n);
    match c {
      case Exactly(n) =>
        CloseAt(s, f, e);
        assert s[p..e] == s[p..f] + s[f..e];
      case AtLeast(n) =>
        CommaAt(s, f);
        CloseAt(s, f + 1, e);
        assert s[p..e] == s[p..f] + "," + s[f + 1..e];
      case Between(n, m) =>
        CommaAt(s, f);
        DigitAt(s, f + 1);
        var g := CountAt(s, f + 1).1;
        NumberSpelled(s, f + 1, m, g);
        CloseAt(s, g, e);
        assert Spells(s[f + 1..g], m) && Closes(s[g..e]);
        assert s[p..e] == s[p..f] + "," + s[f + 1..g] + s[g..e];
    }
  }

  lemma Parts(s: seq<char>, p: nat, e: nat, x: seq<char>, rest: seq<char>)
    requires p <= e <= |s| && s[p..e] == x + rest
    ensures p + |x| <= e && s[p..p + |x|] == x && s[p + |x|..e] == rest
  {
    assert s[p..e][..|x|] == x && s[p..e][|x|..] == rest;
  }

  lemma NumberThere(s: seq<char>, p: nat, e: nat, n: nat, x: seq<char>, rest: seq<char>)
    requires p <= e <= |s| && s[p..e] == x + rest && Spells(x, n) && 0 < n < USIZE_VALUES
    requires rest != [] && !IsAsciiDigit(rest[0])
    ensures p < |s| && IsAsciiDigit(s[p]) && CharNext(s, p) == (Ok(s[p]), p + 1)
    ensures CountAt(s, p) == (Ok(n), p + |x|) && p + |x| < e && s[p + |x|..e] == rest && s[p + |x|] == rest[0]
  {
    Parts(s, p, e, x, rest);
    assert s[p] == s[p..e][0] == x[0];
    assert s[p + |x|] == s[p + |x|..e][0];
    NumberSpelled(s, p, n, p + |x|);
    DigitAt(s, p);
  }

  lemma SpelledIsCounted(s: seq<char>, p: nat, c: Counted, e: nat)
    requires p <= e <= |s| && Countable(c) && Spelled(c, s[p..e])
    ensures CountedAt(s, p) == (Ok(c), e)
  {
    hide CharNext, CountAt, Spells, Closes, CountedAt;
    match c {
      case Exactly(n) =>
        var x, z :| Spells(x, n) && Closes(z) && s[p..e] == x + z;
        ExactlySpelled(s, p, e, n, x, z);
      case AtLeast(n) =>
        var x, z :| Spells(x, n) && Closes(z) && s[p..e] == x + "," + z;
        AtLeastSpelled(s, p, e, n, x, z);
      case Between(n, m) =>
        var x, y, z :| Spells(x, n) && Spells(y, m) && Closes(z) && s[p..e] == x + "," + y + z;
        BetweenSpelled(s, p, e, n, m, x, y, z);
    }
  }

  lemma ExactlySpelled(s: seq<char>, p: nat, e: nat, n: nat, x: seq<char>, z: seq<char>)
    requires p <= e <= |s| && 0 < n < USIZE_VALUES && Spells(x, n) && Closes(z) && s[p..e] == x + z
    ensures CountedAt(s, p) == (Ok(Exactly(n)), e)
  {
    hide CharNext, CountAt, Spells;
    NumberThere(s, p, e, n, x, z);
    CloseAt(s, p + |x|, e);
  }

  lemma AtLeastSpelled(s: seq<char>, p: nat, e: nat, n: nat, x: seq<char>, z: seq<char>)
    requires p <= e <= |s| && 0 < n < USIZE_VALUES && Spells(x, n) && Closes(z) && s[p..e] == x + "," + z
    ensures CountedAt(s, p) == (Ok(AtLeast(n)), e)
  {
    hide CharNext, CountAt, Spells, Closes;
    var f := p + |x|;
    assert x + "," + z == x + ("," + z);
    NumberThere(s, p, e, n, x, "," + z);
    CommaAt(s, f);
    Parts(s, f, e, ",", z);
    CloseAt(s, f + 1, e);
  }

  lemma BetweenSpelled(s: seq<char>, p: nat, e: nat, n: nat, m: nat, x: seq<char>, y: seq<char>, z: seq<char>)
    requires p <= e <= |s| && 0 < n < USIZE_VALUES && 0 < m < USIZE_VALUES
    requires Spells(x, n) && Spells(y, m) && Closes(z) && s[p..e] == x + "," + y + z
    ensures CountedAt(s, p) == (Ok(Between(n, m)), e)
  {
    hide CharNext, CountAt, Spells;
    var f := p + |x|;
    assert x + "," + y + z == x + ("," + (y + z));
    NumberThere(s, p, e, n, x, "," + (y + z));
    CommaAt(s, f);
    Parts(s, f, e, ",", y + z);
    NumberThere(s, f + 1, e, m, y, z);
    hide Closes;
    DigitIsNoSign(s[f + 1]);
    CloseAt(s, f + 1 + |y|, e);
  }

  /** Whether the parser stopped behind a backslash at the end, or behind an escaped character that is none. */
  predicate BadEscape(s: seq<char>, ch: char, e: nat) {
    0 < e <= |s| && if e == |s| && s[e - 1] == '\\' && ch == '\0' then true
      else e > 1 && s[e - 2] == '\\' && s[e - 1] == ch && Escape(ch) == None
  }

  /** What is no count is an invalid repetition or has a bad escape, which is reported where it is. */
  lemma CountedErrors(s: seq<char>, p: nat)
    requires p <= |s| && CountedAt(s, p).0.Err?
    ensures var (r, e) := CountedAt(s, p);
      r.error == InvalidRepetition || (p < e && BadEscape(s, r.error.c, e))
  {
    hide CharNext, CountAt, BadEscape;
    CharErrors(s, p);
    DigitAt(s, p);
    if p < |s| && IsAsciiDigit(s[p]) {
      CountErrors(s, p);
      var f := CountAt(s, p).1;
      CharErrors(s, f);
      CommaAt(s, f);
      if f < |s| {
        CharErrors(s, f + 1);
        DigitAt(s, f + 1);
        if f + 1 < |s| && IsAsciiDigit(s[f + 1]) {
          CountErrors(s, f + 1);
          CharErrors(s, CountAt(s, f + 1).1);
        }
      }
    }
  }

  lemma CharErrors(s: seq<char>, p: nat)
    requires p <= |s|
    ensures var (r, e) := CharNext(s, p);
      r.Err? ==> r.error == InvalidRepetition || (p < e && BadEscape(s, r.error.c, e))
  {
  }

  lemma CountErrors(s: seq<char>, p: nat)
    requires p < |s| && IsAsciiDigit(s[p])
    ensures CountAt(s, p).0.Err? ==> CountAt(s, p).0 == Err(InvalidRepetition)
  {
  }
}
