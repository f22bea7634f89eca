/** The compiler from regular expressions to instructions of the regex machine. */
module RegexCompile {
  import opened RegexAst
  import opened RegexVm

  // ---------------------------------------------------------------- the code of an expression

  /** Greedy repetitions prefer the first of two targets, lazy ones the second. */
  function SplitOf(g: Greed, l1: nat, l2: nat): Op {
    if g.Lazy? then Split(l2, l1) else Split(l1, l2)
  }

  function SaveOp(slot: nat, rev: bool): Op { if rev then RSave(slot) else Save(slot) }

  /** The code of `a` at instruction `off`, when `n` capturing groups come before it. */
  function Code(a: Ast, off: nat, n: nat, rev: bool): seq<Op>
    decreases a
  {
    match a
    case AComp(c) => [OComp(c)]
    case AAssertion(b) => [OAssertion(b)]
    case Alt(nodes) => CodeAlt(nodes, off, off + OpLen(a), n, rev)
    case Concat(nodes) => CodeAll(nodes, off, n, rev)
    case ARep(r, node) =>
      var len := OpLen(node);
      (match r
       case Quest(g) => [SplitOf(g, off + 1, off + 1 + len)] + Code(node, off + 1, n, rev)
       case Star(g) => [SplitOf(g, off + 1, off + 2 + len)] + Code(node, off + 1, n, rev) + [Jump(off)]
       case Plus(g) => Code(node, off, n, rev) + [SplitOf(g, off, off + 1 + len)])
    case SubMatch(kind, node) =>
      if kind.NonCapturing? then Code(node, off, n, rev)
      else [SaveOp(EnterSlot(n + 1, rev), rev)] + Code(node, off + 1, n + 1, rev) + [SaveOp(LeaveSlot(n + 1, rev), rev)]
  }

  function CodeAll(nodes: seq<Ast>, off: nat, n: nat, rev: bool): seq<Op>
    decreases nodes
  {
    if nodes == [] then []
    else Code(nodes[0], off, n, rev) + CodeAll(nodes[1..], off + OpLen(nodes[0]), n + Saves(nodes[0]), rev)
  }

  function CodeAlt(nodes: seq<Ast>, off: nat, end: nat, n: nat, rev: bool): seq<Op>
    decreases nodes
  {
    if nodes == [] then []
    else if |nodes| == 1 then Code(nodes[0], off, n, rev)
    else
      var len := OpLen(nodes[0]);
      [Split(off + 1, off + 2 + len)] + Code(nodes[0], off + 1, n, rev) + [Jump(end)]
      + CodeAlt(nodes[1..], off + 2 + len, end, n + Saves(nodes[0]), rev)
  }

  lemma {:induction false} CodeLen(a: Ast, off: nat, n: nat, rev: bool)
    ensures |Code(a, off, n, rev)| == OpLen(a)
    decreases a
  {
    match a
    case AComp(_) =>
    case AAssertion(_) =>
    case Alt(nodes) => CodeAltLen(nodes, off, off + OpLen(a), n, rev);
    case Concat(nodes) => CodeAllLen(nodes, off, n, rev);
    case ARep(r, node) => CodeLen(node, if r.Plus? then off else off + 1, n, rev);
    case SubMatch(kind, node) =>
      if kind.NonCapturing? { CodeLen(node, off, n, rev); } else { CodeLen(node, off + 1, n + 1, rev); }
  }

  lemma {:induction false} CodeAllLen(nodes: seq<Ast>, off: nat, n: nat, rev: bool)
    ensures |CodeAll(nodes, off, n, rev)| == OpLens(nodes)
    decreases nodes
  {
    if nodes != [] {
      CodeLen(nodes[0], off, n, rev);
      CodeAllLen(nodes[1..], off + OpLen(nodes[0]), n + Saves(nodes[0]), rev);
    }
  }

  lemma {:induction false} CodeAltLen(nodes: seq<Ast>, off: nat, end: nat, n: nat, rev: bool)
    ensures |CodeAlt(nodes, off, end, n, rev)| == OpLen(Alt(nodes))
    decreases nodes
  {
    if |nodes| == 1 {
      CodeLen(nodes[0], off, n, rev);
      assert OpLens(nodes[1..]) == 0;
    } else if nodes != [] {
      CodeLen(nodes[0], off + 1, n, rev);
      CodeAltLen(nodes[1..], off + 2 + OpLen(nodes[0]), end, n + Saves(nodes[0]), rev);
    }
  }

  // ---------------------------------------------------------------- the compiler's methods

  class SmDetails {
    var n: nat
    var names: seq<string>

    constructor ()
      ensures n == 0 && names == []
    {
      n, names := 0, [];
    }
  }

  /** The names of the named groups, in the order of the groups. */
  function Names(a: Ast): seq<string> {
    match a
    case AComp(_) => []
    case AAssertion(_) => []
    case Alt(nodes) => NamesOf(nodes)
    case ARep(_, node) => Names(node)
    case Concat(nodes) => NamesOf(nodes)
    case SubMatch(kind, node) => (if kind.Named? then [kind.name] else []) + Names(node)
  }

  function NamesOf(nodes: seq<Ast>): seq<string> {
    if nodes == [] then [] else Names(nodes[0]) + NamesOf(nodes[1..])
  }

  lemma {:induction false} WellFormedNodes(a: Ast)
    requires WellFormed(a) && (a.Alt? || a.Concat?)
    ensures forall i :: 0 <= i < |a.nodes| ==> WellFormed(a.nodes[i])
  {
  }

  method IntoOps(a: Ast, offset: nat, saves: SmDetails, rev: bool) returns (ops: seq<Op>)
    requires WellFormed(a)
    modifies saves
    ensures ops == Code(a, offset, old(saves.n), rev)
    ensures saves.n == old(saves.n) + Saves(a) && saves.names == old(saves.names) + Names(a)
    decreases a, 1
  {
    match a
    case AComp(c) =>
      ops := [OComp(c)];
      assert saves.names + [] == saves.names;
    case AAssertion(b) =>
      ops := [OAssertion(b)];
      assert saves.names + [] == saves.names;
    case Alt(nodes) =>
      WellFormedNodes(a);
      ops := AltOps(nodes, offset, saves, rev);
    case Concat(nodes) =>
      WellFormedNodes(a);
      ops := ConcatOps(nodes, offset, saves, rev);
    case ARep(r, node) =>
      ops := RepOps(r, node, offset, saves, rev);
    case SubMatch(kind, node) =>
      ops := SubmatchOps(kind, node, offset, saves, rev);
  }

  method ConcatOps(nodes: seq<Ast>, offset: nat, saves: SmDetails, rev: bool) returns (buf: seq<Op>)
    requires forall i :: 0 <= i < |nodes| ==> WellFormed(nodes[i])
    modifies saves
    ensures buf == CodeAll(nodes, offset, old(saves.n), rev)
    ensures saves.n == old(saves.n) + SavesOf(nodes) && saves.names == old(saves.names) + NamesOf(nodes)
    decreases nodes, 0
  {
    hide Code, WellFormed, Saves, Names, OpLen;
    buf := [];
    assert nodes[0..] == nodes;
    for k := 0 to |nodes|
      invariant buf + CodeAll(nodes[k..], offset + |buf|, saves.n, rev) == CodeAll(nodes, offset, old(saves.n), rev)
      invariant saves.n + SavesOf(nodes[k..]) == old(saves.n) + SavesOf(nodes)
      invariant saves.names + NamesOf(nodes[k..]) == old(saves.names) + NamesOf(nodes)
    {
      assert nodes[k..][0] == nodes[k] && nodes[k..][1..] == nodes[k + 1..];
      CodeLen(nodes[k], offset + |buf|, saves.n, rev);
      var ops := IntoOps(nodes[k], offset + |buf|, saves, rev);
      buf := buf + ops;
    }
    assert nodes[|nodes|..] == [];
    NothingLeft(buf, saves.names, offset + |buf|, saves.n, rev);
  }

  lemma {:induction false} RestUnfold(nodes: seq<Ast>, names: seq<string>)
    requires nodes != []
    ensures SavesOf(nodes) == Saves(nodes[0]) + SavesOf(nodes[1..])
    ensures names + NamesOf(nodes) == names + Names(nodes[0]) + NamesOf(nodes[1..])
  {
  }

  lemma {:induction false} CodeAltLast(nodes: seq<Ast>, off: nat, end: nat, n: nat, rev: bool)
    requires |nodes| == 1
    ensures CodeAlt(nodes, off, end, n, rev) == Code(nodes[0], off, n, rev)
  {
  }

  lemma {:induction false} NothingLeft(buf: seq<Op>, names: seq<string>, off: nat, n: nat, rev: bool)
    ensures buf + CodeAll([], off, n, rev) == buf && SavesOf([]) == 0 && names + NamesOf([]) == names
  {
  }

  method AltOps(nodes: seq<Ast>, offset: nat, saves: SmDetails, rev: bool) returns (buf: seq<Op>)
    requires nodes != [] && forall i :: 0 <= i < |nodes| ==> WellFormed(nodes[i])
    modifies saves
    ensures buf == CodeAlt(nodes, offset, offset + OpLen(Alt(nodes)), old(saves.n), rev)
    ensures saves.n == old(saves.n) + SavesOf(nodes) && saves.names == old(saves.names) + NamesOf(nodes)
    decreases nodes, 0
  {
    hide Code, CodeAlt, WellFormed, Saves, Names, NamesOf, SavesOf, OpLen;
    var altLen := OpLen(Alt(nodes));
    buf := [];
    var last := |nodes| - 1;
    assert nodes[0..] == nodes;
    for k := 0 to last
      invariant buf + CodeAlt(nodes[k..], offset + |buf|, offset + altLen, saves.n, rev)
             == CodeAlt(nodes, offset, offset + altLen, old(saves.n), rev)
      invariant saves.n + SavesOf(nodes[k..]) == old(saves.n) + SavesOf(nodes)
      invariant saves.names + NamesOf(nodes[k..]) == old(saves.names) + NamesOf(nodes)
    {
      assert nodes[k..][0] == nodes[k] && nodes[k..][1..] == nodes[k + 1..];
      var base := offset + |buf|;
      CodeLen(nodes[k], base + 1, saves.n, rev);
      CodeAltUnfold(nodes[k..], base, offset + altLen, saves.n, rev);
      RestUnfold(nodes[k..], saves.names);
      var ops := IntoOps(nodes[k], base + 1, saves, rev);
      buf := buf + ([Split(base + 1, base + 2 + OpLen(nodes[k]))] + ops + [Jump(offset + altLen)]);
    }
    assert nodes[last..][0] == nodes[last] && nodes[last..][1..] == [];
    CodeAltLast(nodes[last..], offset + |buf|, offset + altLen, saves.n, rev);
    RestUnfold(nodes[last..], saves.names);
    var ops := IntoOps(nodes[last], offset + |buf|, saves, rev);
    buf := buf + ops;
    NothingLeft(buf, saves.names, offset + |buf|, saves.n, rev);
  }

  method SubmatchOps(kind: SmKind, node: Ast, offset: nat, saves: SmDetails, rev: bool) returns (buf: seq<Op>)
    requires WellFormed(node)
    modifies saves
    ensures buf == Code(SubMatch(kind, node), offset, old(saves.n), rev)
    ensures saves.n == old(saves.n) + Saves(SubMatch(kind, node))
    ensures saves.names == old(saves.names) + Names(SubMatch(kind, node))
    decreases node, 2
  {
    hide Code, Names, Saves;
    SubMatchUnfold(kind, node, offset, saves.n, rev, saves.names);
    match kind {
      case NonCapturing =>
        buf := IntoOps(node, offset, saves, rev);
        return;
      case Named(name) =>
        saves.names := saves.names + [name];
      case Normal =>
    }
    saves.n := saves.n + 1;
    var s := saves.n * 2;
    var ops := IntoOps(node, offset + 1, saves, rev);
    buf := [if rev then RSave(s + 1) else Save(s)];
    buf := buf + ops;
    buf := buf + [if rev then RSave(s) else Save(s + 1)];
  }

  lemma SubMatchUnfold(kind: SmKind, node: Ast, off: nat, n: nat, rev: bool, names: seq<string>)
    ensures var a, s := SubMatch(kind, node), (n + 1) * 2;
      if kind.NonCapturing? then
        && Code(a, off, n, rev) == Code(node, off, n, rev)
        && Saves(a) == Saves(node) && names + Names(a) == names + Names(node)
      else
        && Code(a, off, n, rev) == [if rev then RSave(s + 1) else Save(s)] + Code(node, off + 1, n + 1, rev)
                                 + [if rev then RSave(s) else Save(s + 1)]
        && Saves(a) == Saves(node) + 1
        && names + Names(a) == names + (if kind.Named? then [kind.name] else []) + Names(node)
  {
    var own := if kind.Named? then [kind.name] else [];
    JoinNames(names, own, Names(node));
  }

  lemma JoinNames(names: seq<string>, own: seq<string>, inner: seq<string>)
    ensures names + (own + inner) == names + own + inner && [] + inner == inner
  {
  }

  method RepOps(r: Rep, node: Ast, offset: nat, saves: SmDetails, rev: bool) returns (buf: seq<Op>)
    requires WellFormed(node)
    modifies saves
    ensures buf == Code(ARep(r, node), offset, old(saves.n), rev)
    ensures saves.n == old(saves.n) + Saves(node) && saves.names == old(saves.names) + Names(node)
    decreases node, 2
  {
    match r
    case Quest(greed) =>
      var l1, l2 := offset + 1, offset + 1 + OpLen(node);
      if greed.Lazy? {
        l1, l2 := l2, l1;
      }
      var ops := IntoOps(node, offset + 1, saves, rev);
      buf := [Split(l1, l2)] + ops;
    case Star(greed) =>
      var l1, l2 := offset + 1, offset + 2 + OpLen(node);
      if greed.Lazy? {
        l1, l2 := l2, l1;
      }
      var ops := IntoOps(node, offset + 1, saves, rev);
      buf := [Split(l1, l2)] + ops + [Jump(offset)];
    case Plus(greed) =>
      var l1, l2 := offset, offset + 1 + OpLen(node);
      if greed.Lazy? {
        l1, l2 := l2, l1;
      }
      var ops := IntoOps(node, offset, saves, rev);
      buf := ops + [Split(l1, l2)];
  }

  // ---------------------------------------------------------------- correctness

  predicate CodeAt(prog: seq<Op>, off: nat, code: seq<Op>) {
    off + |code| <= |prog| && prog[off..off + |code|] == code
  }

  lemma CodeAtPart(prog: seq<Op>, off: nat, x: seq<Op>, y: seq<Op>, z: seq<Op>)
    requires CodeAt(prog, off, x + y + z)
    ensures CodeAt(prog, off, x) && CodeAt(prog, off + |x|, y) && CodeAt(prog, off + |x| + |y|, z)
  {
    var code := x + y + z;
    var whole := prog[off..off + |code|];
    assert whole[..|x|] == x;
    assert whole[|x|..|x| + |y|] == y;
    assert whole[|x| + |y|..] == z;
    PartOfPart(prog, off, off + |code|, 0, |x|);
    PartOfPart(prog, off, off + |code|, |x|, |x| + |y|);
    PartOfPart(prog, off, off + |code|, |x| + |y|, |code|);
  }

  /** A machine that tries the first target of a split first prefers the operand of a greedy repetition and
      what follows a lazy one. */
  lemma {:induction false} PreferredTarget(prog: seq<Op>, r: Rep, node: Ast, off: nat, n: nat, rev: bool)
    requires CodeAt(prog, off, Code(ARep(r, node), off, n, rev))
    ensures var at, exit := if r.Plus? then off + OpLen(node) else off, off + OpLen(ARep(r, node));
      && at < |prog| && prog[at].Split?
      && var operand := if r.greed.Greedy? then prog[at].l1 else prog[at].l2;
      && (if r.greed.Greedy? then prog[at].l2 else prog[at].l1) == exit
      && CodeAt(prog, operand, Code(node, operand, n, rev))
      && (r.Star? ==> off < exit <= |prog| && prog[exit - 1] == Jump(off))
      && (r.Plus? ==> operand == off)
  {
    var at, len := if r.Plus? then off else off + 1, OpLen(node);
    var inner := Code(node, at, n, rev);
    CodeLen(node, at, n, rev);
    match r
    case Quest(g) => SplitBefore(prog, off, SplitOf(g, off + 1, off + 1 + len), inner, []);
    case Star(g) => SplitBefore(prog, off, SplitOf(g, off + 1, off + 2 + len), inner, [Jump(off)]);
    case Plus(g) =>
      CodeAtPart(prog, off, inner, [SplitOf(g, off, off + 1 + len)], []);
      assert prog[off + len..off + len + 1][0] == prog[off + len];
  }

  lemma SplitBefore(prog: seq<Op>, off: nat, op: Op, inner: seq<Op>, after: seq<Op>)
    requires CodeAt(prog, off, [op] + inner + after) || (after == [] && CodeAt(prog, off, [op] + inner))
    ensures off < |prog| && prog[off] == op && CodeAt(prog, off + 1, inner) && CodeAt(prog, off + 1 + |inner|, after)
  {
    assert after == [] ==> [op] + inner + after == [op] + inner;
    CodeAtPart(prog, off, [op], inner, after);
    assert prog[off..off + 1][0] == prog[off];
  }

  /** It prefers the first branch of an alternation to the others. */
  lemma PreferredBranch(prog: seq<Op>, nodes: seq<Ast>, off: nat, end: nat, n: nat, rev: bool)
    requires |nodes| > 1 && CodeAt(prog, off, CodeAlt(nodes, off, end, n, rev))
    ensures off < |prog| && prog[off].Split?
    ensures CodeAt(prog, prog[off].l1, Code(nodes[0], prog[off].l1, n, rev) + [Jump(end)])
    ensures CodeAt(prog, prog[off].l2, CodeAlt(nodes[1..], prog[off].l2, end, n + Saves(nodes[0]), rev))
  {
    var code, len := CodeAlt(nodes, off, end, n, rev), OpLen(nodes[0]);
    CodeLen(nodes[0], off + 1, n, rev);
    var x := [Split(off + 1, off + 2 + len)];
    var y := Code(nodes[0], off + 1, n, rev) + [Jump(end)];
    var z := CodeAlt(nodes[1..], off + 2 + len, end, n + Saves(nodes[0]), rev);
    assert code == x + y + z;
    CodeAtPart(prog, off, x, y, z);
    assert prog[off] == prog[off..off + 1][0];
  }

  lemma PartOfPart(prog: seq<Op>, lo: nat, hi: nat, a: nat, b: nat)
    requires lo <= hi <= |prog| && a <= b <= hi - lo
    ensures prog[lo + a..lo + b] == prog[lo..hi][a..b]
  {
    var x, y := prog[lo + a..lo + b], prog[lo..hi][a..b];
    assert |x| == |y|;
    forall k | 0 <= k < b - a
      ensures x[k] == y[k]
    {
      assert y[k] == prog[lo..hi][a + k] == prog[lo + a + k];
    }
  }

  lemma CodeAtOne(prog: seq<Op>, off: nat, op: Op)
    requires CodeAt(prog, off, [op])
    ensures off < |prog| && prog[off] == op
  {
    assert prog[off] == prog[off..off + 1][0];
  }

  /** Every run from the start of the region ends at its end, and does what the expression does. */
  ghost predicate RegionIs(prog: seq<Op>, w: Input, lo: nat, hi: nat, a: Ast, n: nat, rev: bool) {
    lo <= hi && forall x: Conf, g: State ::
      Reaches(prog, w, lo, hi, State(lo, x), g) <==> g.pc == hi && Runs(a, n, rev, w, x, g.conf)
  }

  /** A larger region can be entered at a smaller one and left at its end. */
  lemma {:induction false} Through(prog: seq<Op>, w: Input, lo: nat, hi: nat, a: nat, b: nat, ast: Ast,
          n: nat, rev: bool, x: Conf, g: State)
    requires lo <= a <= b <= hi && RegionIs(prog, w, a, b, ast, n, rev)
    ensures Reaches(prog, w, lo, hi, State(a, x), g) <==>
      exists y: Conf :: Runs(ast, n, rev, w, x, y) && Reaches(prog, w, lo, hi, State(b, y), g)
  {
    hide Runs, Reaches;
    ReachesThrough(prog, w, lo, hi, a, b, State(a, x), g);
    if Reaches(prog, w, lo, hi, State(a, x), g) {
      var m :| Reaches(prog, w, a, b, State(a, x), m) && Reaches(prog, w, lo, hi, m, g);
      assert m == State(b, m.conf);
    }
    if y: Conf :| Runs(ast, n, rev, w, x, y) && Reaches(prog, w, lo, hi, State(b, y), g) {
      assert Reaches(prog, w, a, b, State(a, x), State(b, y));
    }
  }

  /** When the smaller region ends where the larger one does. */
  lemma {:induction false} ThroughLast(prog: seq<Op>, w: Input, lo: nat, hi: nat, a: nat, ast: Ast, n: nat,
          rev: bool, x: Conf, g: State)
    requires lo <= a <= hi && RegionIs(prog, w, a, hi, ast, n, rev)
    ensures Reaches(prog, w, lo, hi, State(a, x), g) <==> g.pc == hi && Runs(ast, n, rev, w, x, g.conf)
  {
    hide Runs, Reaches;
    Through(prog, w, lo, hi, a, hi, ast, n, rev, x, g);
    forall y: Conf
      ensures Reaches(prog, w, lo, hi, State(hi, y), g) <==> State(hi, y) == g
    {
      ReachesOutside(prog, w, lo, hi, State(hi, y), g);
    }
    if g.pc == hi && Runs(ast, n, rev, w, x, g.conf) {
      assert Reaches(prog, w, lo, hi, State(hi, g.conf), g);
    }
  }

  /** The code of an expression does exactly what the expression does. */
  lemma {:induction false} CompiledCorrectly(prog: seq<Op>, w: Input, a: Ast, off: nat, n: nat, rev: bool)
    requires WellFormed(a) && CodeAt(prog, off, Code(a, off, n, rev))
    ensures RegionIs(prog, w, off, off + OpLen(a), a, n, rev)
    decreases a, 0
  {
    hide RegionIs, Runs, Reaches, CodeAt, SaveOp, SplitOf;
    match a
    case AComp(_) => OneOpCorrect(prog, w, a, off, n, rev);
    case AAssertion(_) => OneOpCorrect(prog, w, a, off, n, rev);
    case Alt(nodes) => AltCorrect(prog, w, nodes, off, n, rev);
    case Concat(nodes) => ConcatCorrect(prog, w, nodes, off, n, rev);
    case ARep(r, node) =>
      RepParts(prog, r, node, off, n, rev);
      CompiledCorrectly(prog, w, node, if r.Plus? then off else off + 1, n, rev);
      match r {
        case Quest(_) => QuestCorrect(prog, w, r, node, off, n, rev);
        case Star(_) => StarCorrect(prog, w, r, node, off, n, rev);
        case Plus(_) => PlusCorrect(prog, w, r, node, off, n, rev);
      }
    case SubMatch(kind, node) =>
      if kind.NonCapturing? {
        CompiledCorrectly(prog, w, node, off, n, rev);
        NonCapturingSame(prog, w, kind, node, off, n, rev);
      } else {
        SubMatchParts(prog, kind, node, off, n, rev);
        CompiledCorrectly(prog, w, node, off + 1, n + 1, rev);
        SubMatchCorrect(prog, w, kind, node, off, n, rev);
      }
  }

  lemma {:induction false} OneOpCorrect(prog: seq<Op>, w: Input, a: Ast, off: nat, n: nat, rev: bool)
    requires a.AComp? || a.AAssertion?
    requires CodeAt(prog, off, Code(a, off, n, rev))
    ensures RegionIs(prog, w, off, off + 1, a, n, rev)
  {
    hide Reaches;
    CodeAtOne(prog, off, Code(a, off, n, rev)[0]);
    forall x: Conf, g: State
      ensures Reaches(prog, w, off, off + 1, State(off, x), g) <==> g.pc == off + 1 && Runs(a, n, rev, w, x, g.conf)
    {
      var t := State(off, x);
      ReachesStep(prog, w, off, off + 1, t, g);
      forall u | u in Steps(prog[off], w, t)
        ensures Reaches(prog, w, off, off + 1, u, g) <==> u == g
      {
        ReachesOutside(prog, w, off, off + 1, u, g);
      }
      if g.pc == off + 1 && Runs(a, n, rev, w, x, g.conf) {
        assert g in Steps(prog[off], w, t);
      }
    }
  }

  lemma {:induction false} NonCapturingSame(prog: seq<Op>, w: Input, kind: SmKind, node: Ast, off: nat,
          n: nat, rev: bool)
    requires kind.NonCapturing? && RegionIs(prog, w, off, off + OpLen(node), node, n, rev)
    ensures RegionIs(prog, w, off, off + OpLen(node), SubMatch(kind, node), n, rev)
  {
    hide Reaches;
    forall x: Conf, y: Conf
      ensures Runs(SubMatch(kind, node), n, rev, w, x, y) <==> Runs(node, n, rev, w, x, y)
    {
    }
  }

  lemma {:induction false} SubMatchParts(prog: seq<Op>, kind: SmKind, node: Ast, off: nat, n: nat, rev: bool)
    requires !kind.NonCapturing? && CodeAt(prog, off, Code(SubMatch(kind, node), off, n, rev))
    ensures off + 1 + OpLen(node) < |prog|
    ensures prog[off] == SaveOp(EnterSlot(n + 1, rev), rev)
    ensures CodeAt(prog, off + 1, Code(node, off + 1, n + 1, rev))
    ensures prog[off + 1 + OpLen(node)] == SaveOp(LeaveSlot(n + 1, rev), rev)
  {
    var x, z := [SaveOp(EnterSlot(n + 1, rev), rev)], [SaveOp(LeaveSlot(n + 1, rev), rev)];
    CodeLen(node, off + 1, n + 1, rev);
    CodeAtPart(prog, off, x, Code(node, off + 1, n + 1, rev), z);
    CodeAtOne(prog, off, x[0]);
    CodeAtOne(prog, off + 1 + OpLen(node), z[0]);
  }

  lemma {:induction false} SubMatchCorrect(prog: seq<Op>, w: Input, kind: SmKind, node: Ast, off: nat,
          n: nat, rev: bool)
    requires !kind.NonCapturing? && off + 1 + OpLen(node) < |prog|
    requires prog[off] == SaveOp(EnterSlot(n + 1, rev), rev)
    requires RegionIs(prog, w, off + 1, off + 1 + OpLen(node), node, n + 1, rev)
    requires prog[off + 1 + OpLen(node)] == SaveOp(LeaveSlot(n + 1, rev), rev)
    ensures RegionIs(prog, w, off, off + 2 + OpLen(node), SubMatch(kind, node), n, rev)
  {
    hide Reaches, RegionIs;
    var mid, hi, a := off + 1 + OpLen(node), off + 2 + OpLen(node), SubMatch(kind, node);
    forall x: Conf, g: State
      ensures Reaches(prog, w, off, hi, State(off, x), g) <==> g.pc == hi && Runs(a, n, rev, w, x, g.conf)
    {
      var x' := Mark(x, EnterSlot(n + 1, rev));
      SaveStep(prog, w, off, hi, off, EnterSlot(n + 1, rev), rev, x, g);
      Through(prog, w, off, hi, off + 1, mid, node, n + 1, rev, x', g);
      forall z: Conf
        ensures Reaches(prog, w, off, hi, State(mid, z), g) <==> g == State(hi, Mark(z, LeaveSlot(n + 1, rev)))
      {
        SaveStep(prog, w, off, hi, mid, LeaveSlot(n + 1, rev), rev, z, g);
        ReachesOutside(prog, w, off, hi, State(hi, Mark(z, LeaveSlot(n + 1, rev))), g);
      }
      SubMatchRuns(kind, node, n, rev, w, x, g.conf);
    }
    RegionFrom(prog, w, off, hi, a, n, rev);
  }

  lemma {:induction false} SubMatchRuns(kind: SmKind, node: Ast, n: nat, rev: bool, w: Input, x: Conf, y: Conf)
    requires !kind.NonCapturing?
    ensures var k, x' := n + 1, Mark(x, EnterSlot(n + 1, rev));
      Runs(SubMatch(kind, node), n, rev, w, x, y) <==>
      exists z: Conf :: Runs(node, k, rev, w, x', z) && y == Mark(z, LeaveSlot(k, rev))
  {
  }

  lemma {:induction false} RegionFrom(prog: seq<Op>, w: Input, lo: nat, hi: nat, a: Ast, n: nat, rev: bool)
    requires lo <= hi
    requires forall x: Conf, g: State ::
      Reaches(prog, w, lo, hi, State(lo, x), g) <==> g.pc == hi && Runs(a, n, rev, w, x, g.conf)
    ensures RegionIs(prog, w, lo, hi, a, n, rev)
  {
  }

  lemma SaveStep(prog: seq<Op>, w: Input, lo: nat, hi: nat, pc: nat, slot: nat, rev: bool, x: Conf, g: State)
    requires Inside(prog, lo, hi, pc) && prog[pc] == SaveOp(slot, rev)
    ensures Reaches(prog, w, lo, hi, State(pc, x), g) <==> Reaches(prog, w, lo, hi, State(pc + 1, Mark(x, slot)), g)
  {
    hide Reaches;
    ReachesStep(prog, w, lo, hi, State(pc, x), g);
  }

  lemma JumpStep(prog: seq<Op>, w: Input, lo: nat, hi: nat, pc: nat, l: nat, x: Conf, g: State)
    requires Inside(prog, lo, hi, pc) && prog[pc] == Jump(l)
    ensures Reaches(prog, w, lo, hi, State(pc, x), g) <==> Reaches(prog, w, lo, hi, State(l, x), g)
  {
    hide Reaches;
    ReachesStep(prog, w, lo, hi, State(pc, x), g);
  }

  lemma SplitStep(prog: seq<Op>, w: Input, lo: nat, hi: nat, pc: nat, l1: nat, l2: nat, x: Conf, g: State)
    requires Inside(prog, lo, hi, pc) && (prog[pc] == Split(l1, l2) || prog[pc] == Split(l2, l1))
    ensures Reaches(prog, w, lo, hi, State(pc, x), g) <==>
      Reaches(prog, w, lo, hi, State(l1, x), g) || Reaches(prog, w, lo, hi, State(l2, x), g)
  {
    hide Reaches;
    ReachesStep(prog, w, lo, hi, State(pc, x), g);
    assert State(l1, x) in Steps(prog[pc], w, State(pc, x)) && State(l2, x) in Steps(prog[pc], w, State(pc, x));
  }

  lemma RepParts(prog: seq<Op>, r: Rep, node: Ast, off: nat, n: nat, rev: bool)
    requires CodeAt(prog, off, Code(ARep(r, node), off, n, rev))
    ensures off + OpLen(ARep(r, node)) <= |prog|
    ensures var len := OpLen(node);
      match r
      case Quest(g) => prog[off] == SplitOf(g, off + 1, off + 1 + len) &&
        CodeAt(prog, off + 1, Code(node, off + 1, n, rev))
      case Star(g) =>
        && prog[off] == SplitOf(g, off + 1, off + 2 + len) && CodeAt(prog, off + 1, Code(node, off + 1, n, rev))
        && prog[off + 1 + len] == Jump(off)
      case Plus(g) => CodeAt(prog, off, Code(node, off, n, rev)) && prog[off + len] == SplitOf(g, off, off + 1 + len)
  {
    hide SplitOf;
    var len := OpLen(node);
    CodeLen(ARep(r, node), off, n, rev);
    CodeLen(node, if r.Plus? then off else off + 1, n, rev);
    match r
    case Quest(g) =>
      var x, y := [SplitOf(g, off + 1, off + 1 + len)], Code(node, off + 1, n, rev);
      assert x + y + [] == x + y;
      CodeAtPart(prog, off, x, y, []);
      CodeAtOne(prog, off, x[0]);
    case Star(g) =>
      var x, y := [SplitOf(g, off + 1, off + 2 + len)], Code(node, off + 1, n, rev);
      CodeAtPart(prog, off, x, y, [Jump(off)]);
      CodeAtOne(prog, off, x[0]);
      CodeAtOne(prog, off + 1 + len, Jump(off));
    case Plus(g) =>
      var x, y := Code(node, off, n, rev), [SplitOf(g, off, off + 1 + len)];
      assert x + y + [] == x + y;
      CodeAtPart(prog, off, x, y, []);
      CodeAtOne(prog, off + len, y[0]);
  }

  // Repetitions in terms of their operand.

  lemma {:induction false} RepRuns(r: Rep, node: Ast, n: nat, rev: bool, w: Input, x: Conf, y: Conf)
    ensures Runs(ARep(r, node), n, rev, w, x, y) <==>
      exists k: nat :: Allowed(r, k) && RunsTimes(node, n, rev, w, k, x, y)
  {
  }

  lemma {:induction false} RunsOnce(node: Ast, n: nat, rev: bool, w: Input, x: Conf, y: Conf)
    ensures RunsTimes(node, n, rev, w, 1, x, y) <==> Runs(node, n, rev, w, x, y)
  {
    if Runs(node, n, rev, w, x, y) {
      RunsTimesNone(node, n, rev, w, y, y);
      RunsTimesFrom(node, n, rev, w, 1, x, y, y);
    }
  }

  lemma {:induction false} QuestRuns(r: Rep, node: Ast, n: nat, rev: bool, w: Input, x: Conf, y: Conf)
    requires r.Quest?
    ensures Runs(ARep(r, node), n, rev, w, x, y) <==> x == y || Runs(node, n, rev, w, x, y)
  {
    RepRuns(r, node, n, rev, w, x, y);
    RunsOnce(node, n, rev, w, x, y);
    RunsTimesNone(node, n, rev, w, x, y);
    hide Runs, RunsTimes;
    assert Allowed(r, 0) && Allowed(r, 1);
    if k: nat :| Allowed(r, k) && RunsTimes(node, n, rev, w, k, x, y) {
      assert k == 0 || k == 1;
    }
  }

  lemma {:induction false} QuestCorrect(prog: seq<Op>, w: Input, r: Rep, node: Ast, off: nat, n: nat, rev: bool)
    requires r.Quest? && off + 1 + OpLen(node) <= |prog|
    requires prog[off] == SplitOf(r.greed, off + 1, off + 1 + OpLen(node))
    requires RegionIs(prog, w, off + 1, off + 1 + OpLen(node), node, n, rev)
    ensures RegionIs(prog, w, off, off + 1 + OpLen(node), ARep(r, node), n, rev)
  {
    hide Reaches, RegionIs, Runs;
    var hi, a := off + 1 + OpLen(node), ARep(r, node);
    forall x: Conf, g: State
      ensures Reaches(prog, w, off, hi, State(off, x), g) <==> g.pc == hi && Runs(a, n, rev, w, x, g.conf)
    {
      SplitStep(prog, w, off, hi, off, off + 1, hi, x, g);
      ThroughLast(prog, w, off, hi, off + 1, node, n, rev, x, g);
      ReachesOutside(prog, w, off, hi, State(hi, x), g);
      QuestRuns(r, node, n, rev, w, x, g.conf);
    }
    RegionFrom(prog, w, off, hi, a, n, rev);
  }

  /** The instructions around the operand of a star. */
  ghost predicate StarCode(prog: seq<Op>, w: Input, g: Greed, node: Ast, off: nat, n: nat, rev: bool) {
    && off + 2 + OpLen(node) <= |prog|
    && prog[off] == SplitOf(g, off + 1, off + 2 + OpLen(node))
    && RegionIs(prog, w, off + 1, off + 1 + OpLen(node), node, n, rev)
    && prog[off + 1 + OpLen(node)] == Jump(off)
  }

  /** A run through a star makes some number of rounds. */
  lemma {:induction false} StarRounds(prog: seq<Op>, w: Input, r: Greed, node: Ast, off: nat, n: nat,
          rev: bool, x: Conf, g: State, l: nat)
    returns (k: nat)
    requires StarCode(prog, w, r, node, off, n, rev) && Run(prog, w, off, off + 2 + OpLen(node), State(off, x), g, l)
    ensures g.pc == off + 2 + OpLen(node) && RunsTimes(node, n, rev, w, k, x, g.conf)
    decreases l
  {
    hide Run, Runs, RunsTimes, RegionIs;
    var mid, hi := off + 1 + OpLen(node), off + 2 + OpLen(node);
    var u := RunStep(prog, w, off, hi, State(off, x), g, l);
    if u == State(hi, x) {
      RunOutside(prog, w, off, hi, u, g, l - 1);
      RunsTimesNone(node, n, rev, w, x, x);
      k := 0;
    } else {
      assert u == State(off + 1, x);
      var m, l1 := Decompose(prog, w, off, hi, off + 1, mid, u, g, l - 1);
      RegionRun(prog, w, off + 1, mid, node, n, rev, x, m, l1);
      var v := RunStep(prog, w, off, hi, m, g, l - 1 - l1);
      assert v == State(off, m.conf);
      var k' := StarRounds(prog, w, r, node, off, n, rev, m.conf, g, l - 2 - l1);
      RunsTimesFrom(node, n, rev, w, k' + 1, x, m.conf, g.conf);
      k := k' + 1;
    }
  }

  lemma {:induction false} RunOutside(prog: seq<Op>, w: Input, lo: nat, hi: nat, t: State, g: State, n: nat)
    requires !Inside(prog, lo, hi, t.pc) && Run(prog, w, lo, hi, t, g, n)
    ensures t == g
  {
  }

  lemma {:induction false} RegionRun(prog: seq<Op>, w: Input, lo: nat, hi: nat, a: Ast, n: nat, rev: bool,
          x: Conf, g: State, l: nat)
    requires RegionIs(prog, w, lo, hi, a, n, rev) && Run(prog, w, lo, hi, State(lo, x), g, l)
    ensures g.pc == hi && Runs(a, n, rev, w, x, g.conf)
  {
    hide Runs, Run;
    assert Reaches(prog, w, lo, hi, State(lo, x), g);
  }

  /** Every number of rounds is possible. */
  lemma {:induction false} StarReaches(prog: seq<Op>, w: Input, r: Greed, node: Ast, off: nat, n: nat,
          rev: bool, k: nat, x: Conf, y: Conf)
    requires StarCode(prog, w, r, node, off, n, rev) && RunsTimes(node, n, rev, w, k, x, y)
    ensures Reaches(prog, w, off, off + 2 + OpLen(node), State(off, x), State(off + 2 + OpLen(node), y))
    decreases k
  {
    hide Reaches, Runs, RunsTimes, RegionIs;
    var mid, hi := off + 1 + OpLen(node), off + 2 + OpLen(node);
    var g := State(hi, y);
    SplitStep(prog, w, off, hi, off, off + 1, hi, x, g);
    if k == 0 {
      RunsTimesNone(node, n, rev, w, x, y);
      ReachesOutside(prog, w, off, hi, State(hi, x), g);
    } else {
      var z := RunsTimesHead(node, n, rev, w, k, x, y);
      StarReaches(prog, w, r, node, off, n, rev, k - 1, z, y);
      JumpStep(prog, w, off, hi, mid, off, z, g);
      Through(prog, w, off, hi, off + 1, mid, node, n, rev, x, g);
    }
  }

  lemma {:induction false} StarCorrect(prog: seq<Op>, w: Input, r: Rep, node: Ast, off: nat, n: nat, rev: bool)
    requires r.Star? && StarCode(prog, w, r.greed, node, off, n, rev)
    ensures RegionIs(prog, w, off, off + 2 + OpLen(node), ARep(r, node), n, rev)
  {
    hide Run, RegionIs, Runs, RunsTimes, StarCode;
    var hi, a := off + 2 + OpLen(node), ARep(r, node);
    forall x: Conf, g: State
      ensures Reaches(prog, w, off, hi, State(off, x), g) <==> g.pc == hi && Runs(a, n, rev, w, x, g.conf)
    {
      RepRuns(r, node, n, rev, w, x, g.conf);
      if Reaches(prog, w, off, hi, State(off, x), g) {
        var l: nat :| Run(prog, w, off, hi, State(off, x), g, l);
        var k := StarRounds(prog, w, r.greed, node, off, n, rev, x, g, l);
        assert Allowed(r, k);
      }
      if g.pc == hi && Runs(a, n, rev, w, x, g.conf) {
        var k: nat :| Allowed(r, k) && RunsTimes(node, n, rev, w, k, x, g.conf);
        StarReaches(prog, w, r.greed, node, off, n, rev, k, x, g.conf);
      }
    }
    RegionFrom(prog, w, off, hi, a, n, rev);
  }

  /** The instructions around the operand of a plus. */
  ghost predicate PlusCode(prog: seq<Op>, w: Input, g: Greed, node: Ast, off: nat, n: nat, rev: bool) {
    && off + 1 + OpLen(node) <= |prog|
    && RegionIs(prog, w, off, off + OpLen(node), node, n, rev)
    && prog[off + OpLen(node)] == SplitOf(g, off, off + 1 + OpLen(node))
  }

  lemma {:induction false} PlusRounds(prog: seq<Op>, w: Input, r: Greed, node: Ast, off: nat, n: nat,
          rev: bool, x: Conf, g: State, l: nat)
    returns (k: nat)
    requires PlusCode(prog, w, r, node, off, n, rev) && Run(prog, w, off, off + 1 + OpLen(node), State(off, x), g, l)
    ensures k > 0 && g.pc == off + 1 + OpLen(node) && RunsTimes(node, n, rev, w, k, x, g.conf)
    decreases l
  {
    hide Run, Runs, RunsTimes, RegionIs;
    var mid, hi := off + OpLen(node), off + 1 + OpLen(node);
    var m, l1 := Decompose(prog, w, off, hi, off, mid, State(off, x), g, l);
    RegionRun(prog, w, off, mid, node, n, rev, x, m, l1);
    var v := RunStep(prog, w, off, hi, m, g, l - l1);
    if v == State(hi, m.conf) {
      RunOutside(prog, w, off, hi, v, g, l - l1 - 1);
      RunsTimesNone(node, n, rev, w, m.conf, m.conf);
      RunsTimesFrom(node, n, rev, w, 1, x, m.conf, m.conf);
      k := 1;
    } else {
      assert v == State(off, m.conf);
      var k' := PlusRounds(prog, w, r, node, off, n, rev, m.conf, g, l - l1 - 1);
      RunsTimesFrom(node, n, rev, w, k' + 1, x, m.conf, g.conf);
      k := k' + 1;
    }
  }

  lemma {:induction false} PlusReaches(prog: seq<Op>, w: Input, r: Greed, node: Ast, off: nat, n: nat,
          rev: bool, k: nat, x: Conf, y: Conf)
    requires PlusCode(prog, w, r, node, off, n, rev) && k > 0 && RunsTimes(node, n, rev, w, k, x, y)
    ensures Reaches(prog, w, off, off + 1 + OpLen(node), State(off, x), State(off + 1 + OpLen(node), y))
    decreases k
  {
    hide Reaches, Runs, RunsTimes, RegionIs;
    var mid, hi := off + OpLen(node), off + 1 + OpLen(node);
    var g := State(hi, y);
    var z := RunsTimesHead(node, n, rev, w, k, x, y);
    SplitStep(prog, w, off, hi, mid, off, hi, z, g);
    if k == 1 {
      RunsTimesNone(node, n, rev, w, z, y);
      ReachesOutside(prog, w, off, hi, State(hi, z), g);
    } else {
      PlusReaches(prog, w, r, node, off, n, rev, k - 1, z, y);
    }
    Through(prog, w, off, hi, off, mid, node, n, rev, x, g);
  }

  lemma {:induction false} PlusCorrect(prog: seq<Op>, w: Input, r: Rep, node: Ast, off: nat, n: nat, rev: bool)
    requires r.Plus? && PlusCode(prog, w, r.greed, node, off, n, rev)
    ensures RegionIs(prog, w, off, off + 1 + OpLen(node), ARep(r, node), n, rev)
  {
    hide Run, RegionIs, Runs, RunsTimes, PlusCode;
    var hi, a := off + 1 + OpLen(node), ARep(r, node);
    forall x: Conf, g: State
      ensures Reaches(prog, w, off, hi, State(off, x), g) <==> g.pc == hi && Runs(a, n, rev, w, x, g.conf)
    {
      RepRuns(r, node, n, rev, w, x, g.conf);
      if Reaches(prog, w, off, hi, State(off, x), g) {
        var l: nat :| Run(prog, w, off, hi, State(off, x), g, l);
        var k := PlusRounds(prog, w, r.greed, node, off, n, rev, x, g, l);
        assert Allowed(r, k);
      }
      if g.pc == hi && Runs(a, n, rev, w, x, g.conf) {
        var k: nat :| Allowed(r, k) && RunsTimes(node, n, rev, w, k, x, g.conf);
        PlusReaches(prog, w, r.greed, node, off, n, rev, k, x, g.conf);
      }
    }
    RegionFrom(prog, w, off, hi, a, n, rev);
  }

  lemma {:induction false} ConcatRuns(nodes: seq<Ast>, n: nat, rev: bool, w: Input, x: Conf, y: Conf)
    ensures nodes == [] ==> (Runs(Concat(nodes), n, rev, w, x, y) <==> x == y)
    ensures nodes != [] ==>
      var rest, n' := Concat(nodes[1..]), n + Saves(nodes[0]);
      (Runs(Concat(nodes), n, rev, w, x, y) <==>
        exists z: Conf :: Runs(nodes[0], n, rev, w, x, z) && Runs(rest, n', rev, w, z, y))
  {
    if nodes != [] {
      var rest, n' := Concat(nodes[1..]), n + Saves(nodes[0]);
      hide RunsAll;
      if Runs(Concat(nodes), n, rev, w, x, y) {
        var z := RunsAllHead(nodes, n, rev, w, x, y);
        assert Runs(nodes[0], n, rev, w, x, z) && Runs(rest, n', rev, w, z, y);
      }
      if z: Conf :| Runs(nodes[0], n, rev, w, x, z) && Runs(rest, n', rev, w, z, y) {
        RunsAllFrom(nodes, n, rev, w, x, z, y);
      }
    }
  }

  lemma ConcatParts(prog: seq<Op>, nodes: seq<Ast>, off: nat, n: nat, rev: bool)
    requires nodes != [] && CodeAt(prog, off, CodeAll(nodes, off, n, rev))
    ensures CodeAt(prog, off, Code(nodes[0], off, n, rev))
    ensures CodeAt(prog, off + OpLen(nodes[0]), CodeAll(nodes[1..], off + OpLen(nodes[0]), n + Saves(nodes[0]), rev))
  {
    hide Code, CodeAt;
    var c1, c2 := Code(nodes[0], off, n, rev), CodeAll(nodes[1..], off + OpLen(nodes[0]), n + Saves(nodes[0]), rev);
    assert c1 + c2 + [] == c1 + c2;
    CodeLen(nodes[0], off, n, rev);
    CodeAtPart(prog, off, c1, c2, []);
  }

  lemma {:induction false} ConcatCorrect(prog: seq<Op>, w: Input, nodes: seq<Ast>, off: nat, n: nat, rev: bool)
    requires forall i :: 0 <= i < |nodes| ==> WellFormed(nodes[i])
    requires CodeAt(prog, off, CodeAll(nodes, off, n, rev))
    ensures RegionIs(prog, w, off, off + OpLens(nodes), Concat(nodes), n, rev)
    decreases nodes, 0
  {
    hide Reaches, RegionIs, Runs, WellFormed, Code, CodeAll, CodeAt;
    var hi := off + OpLens(nodes);
    if nodes != [] {
      var mid, n' := off + OpLen(nodes[0]), n + Saves(nodes[0]);
      ConcatParts(prog, nodes, off, n, rev);
      CompiledCorrectly(prog, w, nodes[0], off, n, rev);
      ConcatCorrect(prog, w, nodes[1..], mid, n', rev);
    }
    forall x: Conf, g: State
      ensures Reaches(prog, w, off, hi, State(off, x), g) <==> g.pc == hi && Runs(Concat(nodes), n, rev, w, x, g.conf)
    {
      ConcatRuns(nodes, n, rev, w, x, g.conf);
      if nodes == [] {
        ReachesOutside(prog, w, off, hi, State(off, x), g);
      } else {
        ConcatOne(prog, w, nodes, off, n, rev, x, g);
      }
    }
    RegionFrom(prog, w, off, hi, Concat(nodes), n, rev);
  }

  lemma {:induction false} ConcatOne(prog: seq<Op>, w: Input, nodes: seq<Ast>, off: nat, n: nat, rev: bool,
          x: Conf, g: State)
    requires nodes != []
    requires RegionIs(prog, w, off, off + OpLen(nodes[0]), nodes[0], n, rev)
    requires RegionIs(prog, w, off + OpLen(nodes[0]), off + OpLens(nodes), Concat(nodes[1..]), n + Saves(nodes[0]), rev)
    ensures Reaches(prog, w, off, off + OpLens(nodes), State(off, x), g) <==>
      g.pc == off + OpLens(nodes) && Runs(Concat(nodes), n, rev, w, x, g.conf)
  {
    hide Reaches, RegionIs, Runs;
    var mid, hi, rest, n' := off + OpLen(nodes[0]), off + OpLens(nodes), Concat(nodes[1..]), n + Saves(nodes[0]);
    ConcatRuns(nodes, n, rev, w, x, g.conf);
    Through(prog, w, off, hi, off, mid, nodes[0], n, rev, x, g);
    forall z: Conf
      ensures Reaches(prog, w, off, hi, State(mid, z), g) <==> g.pc == hi && Runs(rest, n', rev, w, z, g.conf)
    {
      ThroughLast(prog, w, off, hi, mid, rest, n', rev, z, g);
    }
  }

  lemma {:induction false} AltRuns(nodes: seq<Ast>, n: nat, rev: bool, w: Input, x: Conf, y: Conf)
    requires nodes != []
    ensures Runs(Alt(nodes), n, rev, w, x, y) <==>
      Runs(nodes[0], n, rev, w, x, y) || Runs(Alt(nodes[1..]), n + Saves(nodes[0]), rev, w, x, y)
  {
  }

  lemma {:induction false} AltRunsNone(n: nat, rev: bool, w: Input, x: Conf, y: Conf)
    ensures !Runs(Alt([]), n, rev, w, x, y)
  {
  }

  lemma {:induction false} AltCorrect(prog: seq<Op>, w: Input, nodes: seq<Ast>, off: nat, n: nat, rev: bool)
    requires nodes != [] && forall i :: 0 <= i < |nodes| ==> WellFormed(nodes[i])
    requires CodeAt(prog, off, CodeAlt(nodes, off, off + OpLen(Alt(nodes)), n, rev))
    ensures RegionIs(prog, w, off, off + OpLen(Alt(nodes)), Alt(nodes), n, rev)
    decreases nodes, 0
  {
    hide Reaches, RegionIs, Runs, WellFormed, Code, CodeAlt, OpLen, CodeAt;
    if |nodes| == 1 {
      AltPart(prog, nodes, off, n, rev);
      CompiledCorrectly(prog, w, nodes[0], off, n, rev);
      AltOfOne(prog, w, nodes, off, n, rev);
    } else {
      AltParts(prog, nodes, off, n, rev);
      CompiledCorrectly(prog, w, nodes[0], off + 1, n, rev);
      AltCorrect(prog, w, nodes[1..], off + 2 + OpLen(nodes[0]), n + Saves(nodes[0]), rev);
      AltOfMany(prog, w, nodes, off, n, rev);
    }
  }

  lemma AltOfOne(prog: seq<Op>, w: Input, nodes: seq<Ast>, off: nat, n: nat, rev: bool)
    requires |nodes| == 1 && RegionIs(prog, w, off, off + OpLen(nodes[0]), nodes[0], n, rev)
    ensures RegionIs(prog, w, off, off + OpLen(Alt(nodes)), Alt(nodes), n, rev)
  {
    hide Reaches, Runs;
    assert nodes[1..] == [];
    assert OpLens(nodes) == OpLen(nodes[0]) + OpLens(nodes[1..]);
    forall x: Conf, y: Conf
      ensures Runs(Alt(nodes), n, rev, w, x, y) <==> Runs(nodes[0], n, rev, w, x, y)
    {
      AltRuns(nodes, n, rev, w, x, y);
      AltRunsNone(n + Saves(nodes[0]), rev, w, x, y);
    }
  }

  lemma {:induction false} AltPart(prog: seq<Op>, nodes: seq<Ast>, off: nat, n: nat, rev: bool)
    requires |nodes| == 1 && CodeAt(prog, off, CodeAlt(nodes, off, off + OpLen(Alt(nodes)), n, rev))
    ensures CodeAt(prog, off, Code(nodes[0], off, n, rev))
  {
    hide Code;
    assert nodes[1..] == [];
  }

  lemma AltParts(prog: seq<Op>, nodes: seq<Ast>, off: nat, n: nat, rev: bool)
    requires |nodes| > 1 && CodeAt(prog, off, CodeAlt(nodes, off, off + OpLen(Alt(nodes)), n, rev))
    ensures var len, end := OpLen(nodes[0]), off + OpLen(Alt(nodes));
      && end == off + 2 + len + OpLen(Alt(nodes[1..])) && end <= |prog|
      && off + 1 + len < |prog|
      && prog[off] == Split(off + 1, off + 2 + len)
      && CodeAt(prog, off + 1, Code(nodes[0], off + 1, n, rev))
      && prog[off + 1 + len] == Jump(end)
      && CodeAt(prog, off + 2 + len, CodeAlt(nodes[1..], off + 2 + len, end, n + Saves(nodes[0]), rev))
  {
    hide Code, CodeAlt, OpLen;
    var len, end := OpLen(nodes[0]), off + OpLen(Alt(nodes));
    AltLen(nodes);
    CodeAltUnfold(nodes, off, end, n, rev);
    var c0, c1, c2 := [Split(off + 1, off + 2 + len)], Code(nodes[0], off + 1, n, rev), [Jump(end)];
    var c3 := CodeAlt(nodes[1..], off + 2 + len, end, n + Saves(nodes[0]), rev);
    CodeLen(nodes[0], off + 1, n, rev);
    CodeAltLen(nodes, off, end, n, rev);
    FourParts(prog, off, c0[0], c1, c2[0], c3);
  }

  lemma CodeAltUnfold(nodes: seq<Ast>, off: nat, end: nat, n: nat, rev: bool)
    requires |nodes| > 1
    ensures var len := OpLen(nodes[0]);
      CodeAlt(nodes, off, end, n, rev) ==
        [Split(off + 1, off + 2 + len)] + Code(nodes[0], off + 1, n, rev) + [Jump(end)]
        + CodeAlt(nodes[1..], off + 2 + len, end, n + Saves(nodes[0]), rev)
  {
  }

  lemma FourParts(prog: seq<Op>, off: nat, x: Op, y: seq<Op>, z: Op, rest: seq<Op>)
    requires CodeAt(prog, off, [x] + y + [z] + rest)
    ensures off + 1 + |y| < |prog| && prog[off] == x && CodeAt(prog, off + 1, y) && prog[off + 1 + |y|] == z
    ensures CodeAt(prog, off + 2 + |y|, rest)
  {
    CodeAtPart(prog, off, [x] + y, [z], rest);
    CodeAtOne(prog, off + 1 + |y|, z);
    assert [x] + y + [] == [x] + y;
    CodeAtPart(prog, off, [x], y, []);
    CodeAtOne(prog, off, x);
  }

  lemma AltLen(nodes: seq<Ast>)
    requires |nodes| > 1
    ensures OpLen(Alt(nodes)) == 2 + OpLen(nodes[0]) + OpLen(Alt(nodes[1..]))
  {
  }

  lemma AltOfMany(prog: seq<Op>, w: Input, nodes: seq<Ast>, off: nat, n: nat, rev: bool)
    requires |nodes| > 1 && off + OpLen(Alt(nodes)) <= |prog|
    requires off + OpLen(Alt(nodes)) == off + 2 + OpLen(nodes[0]) + OpLen(Alt(nodes[1..])) &&
      off + 1 + OpLen(nodes[0]) < |prog|
    requires prog[off] == Split(off + 1, off + 2 + OpLen(nodes[0]))
    requires RegionIs(prog, w, off + 1, off + 1 + OpLen(nodes[0]), nodes[0], n, rev)
    requires prog[off + 1 + OpLen(nodes[0])] == Jump(off + OpLen(Alt(nodes)))
    requires RegionIs(prog, w, off + 2 + OpLen(nodes[0]), off + OpLen(Alt(nodes)), Alt(nodes[1..]),
      n + Saves(nodes[0]), rev)
    ensures RegionIs(prog, w, off, off + OpLen(Alt(nodes)), Alt(nodes), n, rev)
  {
    hide Reaches, RegionIs, Runs, OpLen;
    var mid, hi, rest, n' := off + 1 + OpLen(nodes[0]), off + OpLen(Alt(nodes)), Alt(nodes[1..]), n + Saves(nodes[0]);
    forall x: Conf, g: State
      ensures Reaches(prog, w, off, hi, State(off, x), g) <==> g.pc == hi && Runs(Alt(nodes), n, rev, w, x, g.conf)
    {
      AltRuns(nodes, n, rev, w, x, g.conf);
      SplitStep(prog, w, off, hi, off, off + 1, mid + 1, x, g);
      ThroughLast(prog, w, off, hi, mid + 1, rest, n', rev, x, g);
      Through(prog, w, off, hi, off + 1, mid, nodes[0], n, rev, x, g);
      forall z: Conf
        ensures Reaches(prog, w, off, hi, State(mid, z), g) <==> State(hi, z) == g
      {
        JumpStep(prog, w, off, hi, mid, hi, z, g);
        ReachesOutside(prog, w, off, hi, State(hi, z), g);
      }
      if g.pc == hi && Runs(nodes[0], n, rev, w, x, g.conf) {
        assert Reaches(prog, w, off, hi, State(mid, g.conf), g);
      }
    }
    RegionFrom(prog, w, off, hi, Alt(nodes), n, rev);
  }
}
