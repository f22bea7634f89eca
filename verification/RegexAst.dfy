/** The regular expression AST and the language each expression matches. */
module RegexAst {
  import opened Basics

  datatype Greed = Greedy | Lazy

  datatype Rep = Quest(greed: Greed) | Star(greed: Greed) | Plus(greed: Greed)

  datatype Assertion = LineStart | LineEnd | WordBoundary | NonWordBoundary

  datatype SmKind = Normal | Named(name: string) | NonCapturing

  datatype CharClass = CharClass(negated: bool, chars: seq<char>, ranges: seq<(char, char)>) {
    /** Negated classes do not match a newline either. */
    predicate Matches(ch: char) {
      if negated && ch == '\n' then false
      else
        var res := ch in chars || exists i :: 0 <= i < |ranges| && ranges[i].0 <= ch <= ranges[i].1;
        if negated then !res else res
    }
  }

  datatype Comp =
    | Char(ch: char)
    | Class(cls: CharClass)
    | Any
    | TrueAny
    | Numeric
    | NonNumeric
    | AlphaNumeric
    | NonAlphaNumeric
    | WhiteSpace
    | NonWhiteSpace
  {
    predicate Matches(ch: char) {
      match this
      case Char(c) => c == ch
      case Class(cls) => cls.Matches(ch)
      case Any => ch != '\n'
      case TrueAny => true
      case Numeric => IsAsciiDigit(ch)
      case NonNumeric => !IsAsciiDigit(ch)
      case AlphaNumeric => IsAsciiWord(ch)
      case NonAlphaNumeric => !IsAsciiWord(ch)
      case WhiteSpace => IsWhitespace(ch)
      case NonWhiteSpace => !IsWhitespace(ch)
    }
  }

  predicate IsAsciiWord(ch: char) {
    'a' <= ch <= 'z' || 'A' <= ch <= 'Z' || IsAsciiDigit(ch) || ch == '_'
  }

  datatype Ast =
    | AComp(comp: Comp)
    | AAssertion(assertion: Assertion)
    | Alt(nodes: seq<Ast>)
    | ARep(rep: Rep, node: Ast)
    | Concat(nodes: seq<Ast>)
    | SubMatch(kind: SmKind, node: Ast)

  /** No alternation without branches. The parser never makes one and the compiler would underflow. */
  predicate WellFormed(a: Ast) {
    match a
    case AComp(_) => true
    case AAssertion(_) => true
    case Alt(nodes) => nodes != [] && forall i :: 0 <= i < |nodes| ==> WellFormed(nodes[i])
    case ARep(_, node) => WellFormed(node)
    case Concat(nodes) => forall i :: 0 <= i < |nodes| ==> WellFormed(nodes[i])
    case SubMatch(_, node) => WellFormed(node)
  }

  /** The number of instructions of an expression. */
  function OpLen(a: Ast): nat {
    match a
    case AComp(_) => 1
    case AAssertion(_) => 1
    case Alt(nodes) => OpLens(nodes) + if nodes == [] then 0 else (|nodes| - 1) * 2
    case ARep(r, node) => OpLen(node) + (if r.Star? then 2 else 1)
    case Concat(nodes) => OpLens(nodes)
    case SubMatch(kind, node) => OpLen(node) + if kind.NonCapturing? then 0 else 2
  }

  function OpLens(nodes: seq<Ast>): nat {
    if nodes == [] then 0 else OpLen(nodes[0]) + OpLens(nodes[1..])
  }

  // ---------------------------------------------------------------- the language

  /** A text, and which assertions hold at which of its positions. */
  datatype Input = Input(s: seq<char>, holds: (Assertion, nat) -> bool)

  datatype CharKind = Word | Punctuation | Space

  /** CharKind::from; `alnum` stands for `char::is_alphanumeric`. */
  function KindOf(alnum: char -> bool, c: char): CharKind {
    if alnum(c) || c == '_' then Word else if IsWhitespace(c) then Space else Punctuation
  }

  /** There is a word boundary between two characters of different kinds. */
  predicate IsWordBoundary(alnum: char -> bool, prev: char, c: char) { KindOf(alnum, prev) != KindOf(alnum, c) }

  /** What an assertion says of the characters around a position of a text. */
  predicate HoldsAt(alnum: char -> bool, s: seq<char>, b: Assertion, p: nat)
    requires p <= |s|
  {
    match b
    case LineStart => p == 0 || s[p - 1] == '\n'
    case LineEnd => p == |s| || s[p] == '\n'
    case WordBoundary => p == 0 || p == |s| || IsWordBoundary(alnum, s[p - 1], s[p])
    case NonWordBoundary => 0 < p < |s| && !IsWordBoundary(alnum, s[p - 1], s[p])
  }

  /** A text with what the assertions mean in it. */
  function TextInput(alnum: char -> bool, s: seq<char>): Input {
    Input(s, (b: Assertion, p: nat) => p <= |s| && HoldsAt(alnum, s, b, p))
  }

  /** `a` matches the part of the text from `i` to `j`. */
  ghost predicate Matches(a: Ast, w: Input, i: nat, j: nat)
    decreases a, 0, 0
  {
    match a
    case AComp(c) => i < |w.s| && j == i + 1 && c.Matches(w.s[i])
    case AAssertion(b) => j == i && w.holds(b, i)
    case Alt(nodes) => MatchesAny(nodes, w, i, j)
    case ARep(r, node) =>
      exists k: nat :: Allowed(r, k) && Times(node, k, w, i, j)
    case Concat(nodes) => MatchesAll(nodes, w, i, j)
    case SubMatch(_, node) => Matches(node, w, i, j)
  }

  /** How often a repetition may match its operand. */
  predicate Allowed(r: Rep, k: nat) {
    match r
    case Quest(_) => k <= 1
    case Star(_) => true
    case Plus(_) => k >= 1
  }

  ghost predicate MatchesAny(nodes: seq<Ast>, w: Input, i: nat, j: nat)
    decreases nodes, 0, 0
  {
    nodes != [] && (Matches(nodes[0], w, i, j) || MatchesAny(nodes[1..], w, i, j))
  }

  ghost predicate MatchesAll(nodes: seq<Ast>, w: Input, i: nat, j: nat)
    decreases nodes, 0, 0
  {
    if nodes == [] then j == i
    else exists m: nat :: Matches(nodes[0], w, i, m) && MatchesAll(nodes[1..], w, m, j)
  }

  /** `k` matches one after the other. */
  ghost predicate Times(a: Ast, k: nat, w: Input, i: nat, j: nat)
    decreases a, 1, k
  {
    if k == 0 then j == i
    else exists m: nat :: Matches(a, w, i, m) && Times(a, k - 1, w, m, j)
  }

  lemma {:induction false} MatchesAllFrom(nodes: seq<Ast>, w: Input, i: nat, m: nat, j: nat)
    requires nodes != [] && Matches(nodes[0], w, i, m) && MatchesAll(nodes[1..], w, m, j)
    ensures MatchesAll(nodes, w, i, j)
  {
  }

  lemma MatchesAllHead(nodes: seq<Ast>, w: Input, i: nat, j: nat) returns (m: nat)
    requires nodes != [] && MatchesAll(nodes, w, i, j)
    ensures Matches(nodes[0], w, i, m) && MatchesAll(nodes[1..], w, m, j)
  {
    m :| Matches(nodes[0], w, i, m) && MatchesAll(nodes[1..], w, m, j);
  }

  lemma TimesFrom(a: Ast, k: nat, w: Input, i: nat, m: nat, j: nat)
    requires k > 0 && Matches(a, w, i, m) && Times(a, k - 1, w, m, j)
    ensures Times(a, k, w, i, j)
  {
  }

  lemma TimesHead(a: Ast, k: nat, w: Input, i: nat, j: nat) returns (m: nat)
    requires k > 0 && Times(a, k, w, i, j)
    ensures Matches(a, w, i, m) && Times(a, k - 1, w, m, j)
  {
    m :| Matches(a, w, i, m) && Times(a, k - 1, w, m, j);
  }

  lemma {:induction false} MatchesAllConcat(xs: seq<Ast>, ys: seq<Ast>, w: Input, i: nat, j: nat)
    ensures MatchesAll(xs + ys, w, i, j) <==> exists m: nat :: MatchesAll(xs, w, i, m) && MatchesAll(ys, w, m, j)
    decreases |xs|
  {
    if xs == [] {
      assert xs + ys == ys;
      assert MatchesAll(xs, w, i, i);
    } else {
      hide MatchesAll, Matches;
      var zs := xs + ys;
      assert zs[0] == xs[0] && zs[1..] == xs[1..] + ys;
      if MatchesAll(zs, w, i, j) {
        var k := MatchesAllHead(zs, w, i, j);
        MatchesAllConcat(xs[1..], ys, w, k, j);
        var m: nat :| MatchesAll(xs[1..], w, k, m) && MatchesAll(ys, w, m, j);
        MatchesAllFrom(xs, w, i, k, m);
      }
      if m: nat :| MatchesAll(xs, w, i, m) && MatchesAll(ys, w, m, j) {
        var k := MatchesAllHead(xs, w, i, m);
        MatchesAllConcat(xs[1..], ys, w, k, j);
        assert exists n: nat :: MatchesAll(xs[1..], w, k, n) && MatchesAll(ys, w, n, j);
        MatchesAllFrom(zs, w, i, k, j);
      }
    }
  }

  lemma {:induction false} TimesSum(a: Ast, k: nat, l: nat, w: Input, i: nat, j: nat)
    ensures Times(a, k + l, w, i, j) <==> exists m: nat :: Times(a, k, w, i, m) && Times(a, l, w, m, j)
    decreases k
  {
    if k == 0 {
      assert Times(a, 0, w, i, i);
    } else {
      hide Times, Matches;
      if Times(a, k + l, w, i, j) {
        var m := TimesHead(a, k + l, w, i, j);
        TimesSum(a, k - 1, l, w, m, j);
        var m': nat :| Times(a, k - 1, w, m, m') && Times(a, l, w, m', j);
        TimesFrom(a, k, w, i, m, m');
      }
      if m': nat :| Times(a, k, w, i, m') && Times(a, l, w, m', j) {
        var m := TimesHead(a, k, w, i, m');
        TimesSum(a, k - 1, l, w, m, j);
        assert exists n: nat :: Times(a, k - 1, w, m, n) && Times(a, l, w, n, j);
        TimesFrom(a, k + l, w, i, m, j);
      }
    }
  }

  lemma {:induction false} TimesOnce(a: Ast, w: Input, i: nat, j: nat)
    ensures Times(a, 1, w, i, j) <==> Matches(a, w, i, j)
  {
    if Matches(a, w, i, j) {
      assert Times(a, 0, w, j, j);
    }
  }

  lemma {:induction false} TimesNone(a: Ast, w: Input, i: nat, j: nat)
    ensures Times(a, 0, w, i, j) <==> i == j
  {
  }

  /** The last of several matches. */
  lemma TimesLast(a: Ast, k: nat, w: Input, i: nat, j: nat) returns (m: nat)
    requires k > 0 && Times(a, k, w, i, j)
    ensures Times(a, k - 1, w, i, m) && Matches(a, w, m, j)
  {
    hide Times, Matches;
    TimesSum(a, k - 1, 1, w, i, j);
    m :| Times(a, k - 1, w, i, m) && Times(a, 1, w, m, j);
    TimesOnce(a, w, m, j);
  }

  lemma TimesTail(a: Ast, k: nat, w: Input, i: nat, m: nat, j: nat)
    requires k > 0 && Times(a, k - 1, w, i, m) && Matches(a, w, m, j)
    ensures Times(a, k, w, i, j)
  {
    hide Times, Matches;
    TimesOnce(a, w, m, j);
    TimesSum(a, k - 1, 1, w, i, j);
    assert exists n: nat :: Times(a, k - 1, w, i, n) && Times(a, 1, w, n, j);
  }
}
