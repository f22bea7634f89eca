/** Whole programs of the regex machine: the compiled body between the prefix that lets a match
    start anywhere and the instructions that end it. */
module RegexProgram {
  import opened RegexAst
  import opened RegexTransform
  import opened RegexVm
  import opened RegexCompile

  // ---------------------------------------------------------------- acceptance

  /** Within `n` steps a Match instruction is reached in configuration `y`. */
  ghost predicate AcceptsIn(prog: seq<Op>, w: Input, t: State, y: Conf, n: nat)
    decreases n
  {
    t.pc < |prog| &&
    if prog[t.pc].Match? then t.conf == y
    else n > 0 && exists u :: u in Steps(prog[t.pc], w, t) && AcceptsIn(prog, w, u, y, n - 1)
  }

  ghost predicate Accepts(prog: seq<Op>, w: Input, t: State, y: Conf) {
    exists n: nat :: AcceptsIn(prog, w, t, y, n)
  }

  lemma AcceptsInHead(prog: seq<Op>, w: Input, t: State, y: Conf, n: nat) returns (u: State)
    requires AcceptsIn(prog, w, t, y, n) && !prog[t.pc].Match?
    ensures n > 0 && u in Steps(prog[t.pc], w, t) && AcceptsIn(prog, w, u, y, n - 1)
  {
    u :| u in Steps(prog[t.pc], w, t) && AcceptsIn(prog, w, u, y, n - 1);
  }

  lemma AcceptsInFrom(prog: seq<Op>, w: Input, t: State, u: State, y: Conf, n: nat)
    requires t.pc < |prog| && !prog[t.pc].Match? && n > 0
    requires u in Steps(prog[t.pc], w, t) && AcceptsIn(prog, w, u, y, n - 1)
    ensures AcceptsIn(prog, w, t, y, n)
  {
  }

  lemma AcceptsFrom(prog: seq<Op>, w: Input, t: State, u: State, y: Conf)
    requires t.pc < |prog| && !prog[t.pc].Match?
    requires u in Steps(prog[t.pc], w, t) && Accepts(prog, w, u, y)
    ensures Accepts(prog, w, t, y)
  {
    hide AcceptsIn, Steps;
    var n: nat :| AcceptsIn(prog, w, u, y, n);
    AcceptsInFrom(prog, w, t, u, y, n + 1);
  }

  /** A program whose only Match is its last instruction. */
  predicate MatchLast(prog: seq<Op>) {
    && prog != [] && prog[|prog| - 1].Match?
    && forall p :: 0 <= p < |prog| - 1 ==> !prog[p].Match?
  }

  /** Accepting is arriving at the last instruction. */
  lemma AcceptsIsReaching(prog: seq<Op>, w: Input, t: State, y: Conf)
    requires prog != [] && MatchLast(prog)
    ensures Accepts(prog, w, t, y) <==> Reaches(prog, w, 0, |prog| - 1, t, State(|prog| - 1, y))
  {
    hide AcceptsIn, Run, MatchLast;
    if Accepts(prog, w, t, y) {
      var n: nat :| AcceptsIn(prog, w, t, y, n);
      AcceptsRuns(prog, w, t, y, n);
    }
    if Reaches(prog, w, 0, |prog| - 1, t, State(|prog| - 1, y)) {
      var n: nat :| Run(prog, w, 0, |prog| - 1, t, State(|prog| - 1, y), n);
      RunsAccept(prog, w, t, y, n);
    }
  }

  lemma {:induction false} AcceptsRuns(prog: seq<Op>, w: Input, t: State, y: Conf, n: nat)
    requires MatchLast(prog) && AcceptsIn(prog, w, t, y, n)
    ensures Run(prog, w, 0, |prog| - 1, t, State(|prog| - 1, y), n)
    decreases n
  {
    if t.pc < |prog| - 1 {
      hide Steps, AcceptsIn, Run;
      var u := AcceptsInHead(prog, w, t, y, n);
      AcceptsRuns(prog, w, u, y, n - 1);
      RunFrom(prog, w, 0, |prog| - 1, t, u, State(|prog| - 1, y), n);
    }
  }

  lemma {:induction false} RunsAccept(prog: seq<Op>, w: Input, t: State, y: Conf, n: nat)
    requires MatchLast(prog) && Run(prog, w, 0, |prog| - 1, t, State(|prog| - 1, y), n)
    ensures AcceptsIn(prog, w, t, y, n)
    decreases n
  {
    if t.pc < |prog| - 1 {
      hide Steps, AcceptsIn, Run;
      var u := RunStep(prog, w, 0, |prog| - 1, t, State(|prog| - 1, y), n);
      RunsAccept(prog, w, u, y, n - 1);
      AcceptsInFrom(prog, w, t, u, y, n);
    }
  }

  // ---------------------------------------------------------------- compile_ast

  function FirstSlot(rev: bool): nat { if rev then 1 else 0 }

  function SecondSlot(rev: bool): nat { if rev then 0 else 1 }

  /** The program of an expression. */
  function Program(a: Ast, rev: bool): seq<Op> {
    [Split(3, 1), OComp(TrueAny), Split(3, 1), SaveOp(FirstSlot(rev), rev)]
    + Code(a, 4, 0, rev)
    + [SaveOp(SecondSlot(rev), rev), Match]
  }

  function ShiftOp(op: Op, d: nat): Op {
    match op
    case Jump(j) => Jump(j + d)
    case Split(l1, l2) => Split(l1 + d, l2 + d)
    case _ => op
  }

  function Shift(ops: seq<Op>, d: nat): (r: seq<Op>)
    ensures |r| == |ops|
    ensures forall p :: 0 <= p < |ops| ==> r[p] == ShiftOp(ops[p], d)
  {
    seq(|ops|, p requires 0 <= p < |ops| => ShiftOp(ops[p], d))
  }

  lemma ShiftConcat(x: seq<Op>, y: seq<Op>, d: nat)
    ensures Shift(x + y, d) == Shift(x, d) + Shift(y, d)
  {
  }

  /** Code can be compiled at zero and moved afterwards. */
  lemma {:induction false} ShiftCode(a: Ast, off: nat, n: nat, rev: bool, d: nat)
    ensures Shift(Code(a, off, n, rev), d) == Code(a, off + d, n, rev)
    decreases a
  {
    hide Shift, OpLen;
    match a
    case AComp(_) => ShiftOne(Code(a, off, n, rev)[0], d);
    case AAssertion(_) => ShiftOne(Code(a, off, n, rev)[0], d);
    case Alt(nodes) => ShiftCodeAlt(nodes, off, off + OpLen(a), n, rev, d);
    case Concat(nodes) => ShiftCodeAll(nodes, off, n, rev, d);
    case ARep(r, node) =>
      ShiftCode(node, if r.Plus? then off else off + 1, n, rev, d);
      ShiftRep(r, node, off, n, rev, d);
    case SubMatch(kind, node) =>
      if kind.NonCapturing? {
        ShiftCode(node, off, n, rev, d);
      } else {
        ShiftCode(node, off + 1, n + 1, rev, d);
        var x, z := SaveOp(EnterSlot(n + 1, rev), rev), SaveOp(LeaveSlot(n + 1, rev), rev);
        ShiftAround(x, Code(node, off + 1, n + 1, rev), z, d);
      }
  }

  lemma ShiftOne(op: Op, d: nat)
    ensures Shift([op], d) == [ShiftOp(op, d)]
  {
  }

  lemma ShiftAround(x: Op, y: seq<Op>, z: Op, d: nat)
    ensures Shift([x] + y, d) == [ShiftOp(x, d)] + Shift(y, d)
    ensures Shift(y + [z], d) == Shift(y, d) + [ShiftOp(z, d)]
    ensures Shift([x] + y + [z], d) == [ShiftOp(x, d)] + Shift(y, d) + [ShiftOp(z, d)]
  {
    hide Shift;
    ShiftConcat([x], y, d);
    ShiftConcat(y, [z], d);
    ShiftConcat([x] + y, [z], d);
    ShiftOne(x, d);
    ShiftOne(z, d);
  }

  lemma {:induction false} ShiftRep(r: Rep, node: Ast, off: nat, n: nat, rev: bool, d: nat)
    requires var o := if r.Plus? then off else off + 1; Shift(Code(node, o, n, rev), d) == Code(node, o + d, n, rev)
    ensures Shift(Code(ARep(r, node), off, n, rev), d) == Code(ARep(r, node), off + d, n, rev)
  {
    match r
    case Quest(g) => ShiftQuest(g, node, off, n, rev, d);
    case Star(g) => ShiftStar(g, node, off, n, rev, d);
    case Plus(g) => ShiftPlus(g, node, off, n, rev, d);
  }

  lemma {:induction false} ShiftQuest(g: Greed, node: Ast, off: nat, n: nat, rev: bool, d: nat)
    requires Shift(Code(node, off + 1, n, rev), d) == Code(node, off + 1 + d, n, rev)
    ensures Shift(Code(ARep(Quest(g), node), off, n, rev), d) == Code(ARep(Quest(g), node), off + d, n, rev)
  {
    hide Shift;
    var sp := SplitOf(g, off + 1, off + 1 + OpLen(node));
    ShiftAround(sp, Code(node, off + 1, n, rev), sp, d);
  }

  lemma {:induction false} ShiftStar(g: Greed, node: Ast, off: nat, n: nat, rev: bool, d: nat)
    requires Shift(Code(node, off + 1, n, rev), d) == Code(node, off + 1 + d, n, rev)
    ensures Shift(Code(ARep(Star(g), node), off, n, rev), d) == Code(ARep(Star(g), node), off + d, n, rev)
  {
    hide Shift;
    ShiftAround(SplitOf(g, off + 1, off + 2 + OpLen(node)), Code(node, off + 1, n, rev), Jump(off), d);
  }

  lemma {:induction false} ShiftPlus(g: Greed, node: Ast, off: nat, n: nat, rev: bool, d: nat)
    requires Shift(Code(node, off, n, rev), d) == Code(node, off + d, n, rev)
    ensures Shift(Code(ARep(Plus(g), node), off, n, rev), d) == Code(ARep(Plus(g), node), off + d, n, rev)
  {
    hide Shift;
    var sp := SplitOf(g, off, off + 1 + OpLen(node));
    ShiftAround(sp, Code(node, off, n, rev), sp, d);
  }

  lemma {:induction false} ShiftCodeAll(nodes: seq<Ast>, off: nat, n: nat, rev: bool, d: nat)
    ensures Shift(CodeAll(nodes, off, n, rev), d) == CodeAll(nodes, off + d, n, rev)
    decreases nodes
  {
    if nodes == [] {
      ShiftNone(d);
    } else {
      hide Shift, Code, OpLen;
      var off', n' := off + OpLen(nodes[0]), n + Saves(nodes[0]);
      ShiftCode(nodes[0], off, n, rev, d);
      ShiftCodeAll(nodes[1..], off', n', rev, d);
      ShiftConcat(Code(nodes[0], off, n, rev), CodeAll(nodes[1..], off', n', rev), d);
    }
  }

  lemma ShiftNone(d: nat)
    ensures Shift([], d) == []
  {
  }

  lemma {:induction false} ShiftCodeAlt(nodes: seq<Ast>, off: nat, end: nat, n: nat, rev: bool, d: nat)
    ensures Shift(CodeAlt(nodes, off, end, n, rev), d) == CodeAlt(nodes, off + d, end + d, n, rev)
    decreases nodes
  {
    hide Shift, OpLen, Saves, Code;
    if nodes == [] {
      ShiftNone(d);
    } else {
      hide CodeAlt;
      if |nodes| == 1 {
        ShiftCode(nodes[0], off, n, rev, d);
        CodeAltLast(nodes, off, end, n, rev);
        CodeAltLast(nodes, off + d, end + d, n, rev);
      } else {
        var off', n' := off + 2 + OpLen(nodes[0]), n + Saves(nodes[0]);
        ShiftCode(nodes[0], off + 1, n, rev, d);
        ShiftCodeAlt(nodes[1..], off', end, n', rev, d);
        ShiftCodeAltMany(nodes, off, end, n, rev, d);
      }
    }
  }

  lemma ShiftCodeAltMany(nodes: seq<Ast>, off: nat, end: nat, n: nat, rev: bool, d: nat)
    requires |nodes| > 1
    requires Shift(Code(nodes[0], off + 1, n, rev), d) == Code(nodes[0], off + 1 + d, n, rev)
    requires var off', n' := off + 2 + OpLen(nodes[0]), n + Saves(nodes[0]);
      Shift(CodeAlt(nodes[1..], off', end, n', rev), d) == CodeAlt(nodes[1..], off' + d, end + d, n', rev)
    ensures Shift(CodeAlt(nodes, off, end, n, rev), d) == CodeAlt(nodes, off + d, end + d, n, rev)
  {
    hide Shift, Code, CodeAlt, OpLen, Saves;
    var off', n' := off + 2 + OpLen(nodes[0]), n + Saves(nodes[0]);
    CodeAltUnfold(nodes, off, end, n, rev);
    ShiftFour(Split(off + 1, off'), Code(nodes[0], off + 1, n, rev), Jump(end),
      CodeAlt(nodes[1..], off', end, n', rev), d);
    CodeAltUnfold(nodes, off + d, end + d, n, rev);
  }

  lemma ShiftFour(x: Op, y: seq<Op>, z: Op, rest: seq<Op>, d: nat)
    ensures Shift([x] + y + [z] + rest, d) == [ShiftOp(x, d)] + Shift(y, d) + [ShiftOp(z, d)] + Shift(rest, d)
  {
    hide Shift;
    ShiftAround(x, y, z, d);
    ShiftConcat([x] + y + [z], rest, d);
  }

  lemma {:induction false} ReverseWellFormed(a: Ast)
    requires WellFormed(a)
    ensures WellFormed(ReverseAst(a))
    decreases a
  {
    match a
    case AComp(_) =>
    case AAssertion(_) =>
    case Alt(nodes) => ReverseAllWellFormed(nodes);
    case ARep(_, node) => ReverseWellFormed(node);
    case Concat(nodes) => ReverseAllWellFormed(nodes);
    case SubMatch(_, node) => ReverseWellFormed(node);
  }

  lemma {:induction false} ReverseAllWellFormed(nodes: seq<Ast>)
    requires forall i :: 0 <= i < |nodes| ==> WellFormed(nodes[i])
    ensures forall i :: 0 <= i < |nodes| ==> WellFormed(ReverseAsts(nodes)[i])
    decreases nodes
  {
    if nodes != [] {
      ReverseAllWellFormed(nodes[1..]);
      ReverseWellFormed(nodes[0]);
    }
  }

  /** compile_ast: a reversed expression is reversed first. */
  method CompileAst(ast: Ast, reverse: bool) returns (ops: seq<Op>, nSubmatches: nat, names: seq<string>)
    requires WellFormed(ast)
    ensures var a := if reverse then ReverseAst(ast) else ast;
      ops == Program(a, reverse) && nSubmatches == Saves(a) && names == Names(a)
  {
    hide WellFormed, Code, Shift;
    var a := ast;
    if reverse {
      ReverseWellFormed(ast);
      a := ReverseAst(ast);
    }
    var saves := new SmDetails();
    var prog := IntoOps(a, 0, saves, reverse);
    var first, second := if reverse then RSave(1) else Save(0), if reverse then RSave(0) else Save(1);
    var full := [Split(3, 1), OComp(TrueAny), Split(3, 1), first];
    ShiftCode(a, 0, 0, reverse, 4);
    full := full + Shift(prog, 4);
    full := full + [second, Match];
    return full, saves.n, saves.names;
  }

  // ---------------------------------------------------------------- targets

  /** Targets lie inside the code or at its end, a jump that goes back goes to a split, and there is no Match. */
  predicate GoodOp(prog: seq<Op>, p: nat, lo: nat, hi: nat)
    requires p < |prog|
  {
    match prog[p]
    case Split(l1, l2) => lo <= l1 <= hi && lo <= l2 <= hi
    case Jump(l) => lo <= l <= hi && (l > p || prog[l].Split?)
    case Match => false
    case _ => true
  }

  predicate GoodCode(prog: seq<Op>, lo: nat, hi: nat) {
    lo <= hi <= |prog| && forall p :: lo <= p < hi ==> GoodOp(prog, p, lo, hi)
  }

  lemma GoodJoin(prog: seq<Op>, lo: nat, mid: nat, hi: nat)
    requires GoodCode(prog, lo, mid) && GoodCode(prog, mid, hi)
    ensures GoodCode(prog, lo, hi)
  {
    forall p | lo <= p < hi
      ensures GoodOp(prog, p, lo, hi)
    {
      if p < mid {
        assert GoodOp(prog, p, lo, mid);
      } else {
        assert GoodOp(prog, p, mid, hi);
      }
    }
  }

  /** Good code with at most one more instruction on each side. */
  lemma GoodAround(prog: seq<Op>, lo: nat, a: nat, b: nat, hi: nat)
    requires lo <= a <= b <= hi <= |prog| && a <= lo + 1 && hi <= b + 1
    requires GoodCode(prog, a, b)
    requires lo < a ==> GoodOp(prog, lo, lo, hi)
    requires b < hi ==> GoodOp(prog, b, lo, hi)
    ensures GoodCode(prog, lo, hi)
  {
    forall p | lo <= p < hi
      ensures GoodOp(prog, p, lo, hi)
    {
      if a <= p < b {
        assert GoodOp(prog, p, a, b);
      }
    }
  }

  lemma {:induction false} CodeIsGood(prog: seq<Op>, a: Ast, off: nat, n: nat, rev: bool)
    requires WellFormed(a) && CodeAt(prog, off, Code(a, off, n, rev))
    ensures GoodCode(prog, off, off + OpLen(a))
    decreases a
  {
    hide CodeAt, GoodCode, SplitOf, CodeAlt, CodeAll;
    match a
    case AComp(_) => OneOpGood(prog, a, off, n, rev);
    case AAssertion(_) => OneOpGood(prog, a, off, n, rev);
    case Alt(nodes) => AltIsGood(prog, nodes, off, n, rev);
    case Concat(nodes) => ConcatIsGood(prog, nodes, off, n, rev);
    case ARep(r, node) =>
      RepParts(prog, r, node, off, n, rev);
      CodeIsGood(prog, node, if r.Plus? then off else off + 1, n, rev);
      RepIsGood(prog, r, node, off);
    case SubMatch(kind, node) =>
      if kind.NonCapturing? {
        CodeIsGood(prog, node, off, n, rev);
      } else {
        SubMatchParts(prog, kind, node, off, n, rev);
        CodeIsGood(prog, node, off + 1, n + 1, rev);
        GoodAround(prog, off, off + 1, off + 1 + OpLen(node), off + 2 + OpLen(node));
      }
  }

  lemma {:induction false} OneOpGood(prog: seq<Op>, a: Ast, off: nat, n: nat, rev: bool)
    requires (a.AComp? || a.AAssertion?) && CodeAt(prog, off, Code(a, off, n, rev))
    ensures GoodCode(prog, off, off + 1)
  {
    CodeAtOne(prog, off, Code(a, off, n, rev)[0]);
  }

  lemma {:induction false} RepIsGood(prog: seq<Op>, r: Rep, node: Ast, off: nat)
    requires off + OpLen(ARep(r, node)) <= |prog|
    requires var o := if r.Plus? then off else off + 1; GoodCode(prog, o, o + OpLen(node))
    requires var len := OpLen(node);
      match r
      case Quest(g) => prog[off] == SplitOf(g, off + 1, off + 1 + len)
      case Star(g) => prog[off] == SplitOf(g, off + 1, off + 2 + len) && prog[off + 1 + len] == Jump(off)
      case Plus(g) => prog[off + len] == SplitOf(g, off, off + 1 + len)
    ensures GoodCode(prog, off, off + OpLen(ARep(r, node)))
  {
    hide GoodCode;
    var o := if r.Plus? then off else off + 1;
    GoodAround(prog, off, o, o + OpLen(node), off + OpLen(ARep(r, node)));
  }

  lemma {:induction false} ConcatIsGood(prog: seq<Op>, nodes: seq<Ast>, off: nat, n: nat, rev: bool)
    requires forall i :: 0 <= i < |nodes| ==> WellFormed(nodes[i])
    requires CodeAt(prog, off, CodeAll(nodes, off, n, rev))
    ensures GoodCode(prog, off, off + OpLens(nodes))
    decreases nodes
  {
    if nodes != [] {
      hide Code, CodeAll, GoodCode, WellFormed, CodeAt;
      var mid, n' := off + OpLen(nodes[0]), n + Saves(nodes[0]);
      ConcatParts(prog, nodes, off, n, rev);
      CodeIsGood(prog, nodes[0], off, n, rev);
      ConcatIsGood(prog, nodes[1..], mid, n', rev);
      GoodJoin(prog, off, mid, off + OpLens(nodes));
    }
  }

  lemma {:induction false} AltIsGood(prog: seq<Op>, nodes: seq<Ast>, off: nat, n: nat, rev: bool)
    requires nodes != [] && forall i :: 0 <= i < |nodes| ==> WellFormed(nodes[i])
    requires CodeAt(prog, off, CodeAlt(nodes, off, off + OpLen(Alt(nodes)), n, rev))
    ensures GoodCode(prog, off, off + OpLen(Alt(nodes)))
    decreases nodes
  {
    hide Code, GoodCode, WellFormed, CodeAlt, CodeAt;
    if |nodes| == 1 {
      CodeAltLast(nodes, off, off + OpLen(Alt(nodes)), n, rev);
      AltLenOne(nodes);
      CodeIsGood(prog, nodes[0], off, n, rev);
    } else {
      AltParts(prog, nodes, off, n, rev);
      CodeIsGood(prog, nodes[0], off + 1, n, rev);
      AltIsGood(prog, nodes[1..], off + 2 + OpLen(nodes[0]), n + Saves(nodes[0]), rev);
      AltJoin(prog, off, off + 1 + OpLen(nodes[0]), off + OpLen(Alt(nodes)));
    }
  }

  lemma AltLenOne(nodes: seq<Ast>)
    requires |nodes| == 1
    ensures OpLen(Alt(nodes)) == OpLen(nodes[0])
  {
    assert OpLens(nodes) == OpLen(nodes[0]) + OpLens(nodes[1..]);
  }

  lemma AltJoin(prog: seq<Op>, off: nat, mid: nat, end: nat)
    requires off < mid < end <= |prog| && prog[off] == Split(off + 1, mid + 1) && prog[mid] == Jump(end)
    requires GoodCode(prog, off + 1, mid) && GoodCode(prog, mid + 1, end)
    ensures GoodCode(prog, off, end)
  {
    forall p | off <= p < end
      ensures GoodOp(prog, p, off, end)
    {
      if off < p < mid {
        assert GoodOp(prog, p, off + 1, mid);
      } else if mid < p {
        assert GoodOp(prog, p, mid + 1, end);
      }
    }
  }

  /** Every target is an instruction of the program. */
  predicate InRange(prog: seq<Op>) {
    forall p :: 0 <= p < |prog| ==>
      && (prog[p].Split? ==> prog[p].l1 < |prog| && prog[p].l2 < |prog|)
      && (prog[p].Jump? ==> prog[p].l < |prog|)
  }

  /** A jump to a jump goes forward. */
  predicate JumpsForward(prog: seq<Op>) {
    forall p :: 0 <= p < |prog| && prog[p].Jump? ==>
      p < prog[p].l || (prog[p].l < |prog| && !prog[prog[p].l].Jump?)
  }

  /** What later passes and the search rely on. */
  lemma {:induction false} ProgramShape(a: Ast, rev: bool)
    requires WellFormed(a)
    ensures var prog := Program(a, rev);
      prog != [] && MatchLast(prog) && InRange(prog) && JumpsForward(prog)
  {
    hide Code, GoodCode, WellFormed;
    var prog := Program(a, rev);
    var x, z := [Split(3, 1), OComp(TrueAny), Split(3, 1), SaveOp(FirstSlot(rev), rev)],
      [SaveOp(SecondSlot(rev), rev), Match];
    CodeLen(a, 4, 0, rev);
    assert prog == x + Code(a, 4, 0, rev) + z;
    assert prog[0..|prog|] == prog;
    CodeAtPart(prog, 0, x, Code(a, 4, 0, rev), z);
    CodeIsGood(prog, a, 4, 0, rev);
    ShapeFrom(prog, 4 + OpLen(a));
  }

  lemma ShapeFrom(prog: seq<Op>, end: nat)
    requires 4 <= end && |prog| == end + 2 && GoodCode(prog, 4, end)
    requires prog[0] == Split(3, 1) && prog[1].OComp? && prog[2] == Split(3, 1) && (prog[3].Save? || prog[3].RSave?)
    requires (prog[end].Save? || prog[end].RSave?) && prog[end + 1].Match?
    ensures MatchLast(prog) && InRange(prog) && JumpsForward(prog)
  {
    forall p | 0 <= p < |prog|
      ensures p < |prog| - 1 ==> !prog[p].Match?
      ensures prog[p].Split? ==> prog[p].l1 < |prog| && prog[p].l2 < |prog|
      ensures prog[p].Jump? ==> prog[p].l < |prog| && (p < prog[p].l || !prog[prog[p].l].Jump?)
    {
      if 4 <= p < end {
        assert GoodOp(prog, p, 4, end);
      }
    }
  }

  // ---------------------------------------------------------------- what a program accepts

  /** A search from `start` may begin its match at `i`. */
  predicate Unanchored(w: Input, start: nat, i: nat) { i == start || start < i <= |w.s| }

  /** The instructions at the two ends of a program, and the meaning of the body between them. */
  ghost predicate ProgramCode(prog: seq<Op>, w: Input, a: Ast, rev: bool) {
    && |prog| == OpLen(a) + 6
    && prog[0] == Split(3, 1) && prog[1] == OComp(TrueAny) && prog[2] == Split(3, 1)
    && prog[3] == SaveOp(FirstSlot(rev), rev)
    && RegionIs(prog, w, 4, 4 + OpLen(a), a, 0, rev)
    && prog[4 + OpLen(a)] == SaveOp(SecondSlot(rev), rev)
    && prog[5 + OpLen(a)] == Match
  }

  lemma {:induction false} ProgramIs(a: Ast, w: Input, rev: bool)
    requires WellFormed(a)
    ensures ProgramCode(Program(a, rev), w, a, rev)
  {
    hide Code, RegionIs, WellFormed;
    var prog := Program(a, rev);
    var x, z := [Split(3, 1), OComp(TrueAny), Split(3, 1), SaveOp(FirstSlot(rev), rev)],
      [SaveOp(SecondSlot(rev), rev), Match];
    CodeLen(a, 4, 0, rev);
    assert prog == x + Code(a, 4, 0, rev) + z;
    assert prog[0..|prog|] == prog;
    CodeAtPart(prog, 0, x, Code(a, 4, 0, rev), z);
    CompiledCorrectly(prog, w, a, 4, 0, rev);
  }

  /** From where the match begins, the program runs the expression between its two saves. */
  lemma {:induction false} FromThree(prog: seq<Op>, w: Input, a: Ast, rev: bool, x: Conf, y: Conf)
    requires ProgramCode(prog, w, a, rev)
    ensures Reaches(prog, w, 0, |prog| - 1, State(3, x), State(|prog| - 1, y)) <==>
      exists c: Conf :: Runs(a, 0, rev, w, Mark(x, FirstSlot(rev)), c) && y == Mark(c, SecondSlot(rev))
  {
    hide Reaches, Runs, RegionIs, Steps;
    var end, mid := |prog| - 1, 4 + OpLen(a);
    var g := State(end, y);
    SaveStep(prog, w, 0, end, 3, FirstSlot(rev), rev, x, g);
    Through(prog, w, 0, end, 4, mid, a, 0, rev, Mark(x, FirstSlot(rev)), g);
    forall c: Conf
      ensures Reaches(prog, w, 0, end, State(mid, c), g) <==> y == Mark(c, SecondSlot(rev))
    {
      SaveStep(prog, w, 0, end, mid, SecondSlot(rev), rev, c, g);
      ReachesOutside(prog, w, 0, end, State(end, Mark(c, SecondSlot(rev))), g);
    }
  }

  /** The prefix skips characters until a match begins. */
  lemma {:induction false} PrefixSkips(prog: seq<Op>, w: Input, a: Ast, rev: bool, pc: nat, x: Conf, g: State, n: nat)
    returns (i: nat)
    requires ProgramCode(prog, w, a, rev) && (pc == 0 || pc == 2)
    requires Run(prog, w, 0, |prog| - 1, State(pc, x), g, n)
    ensures Unanchored(w, x.pos, i) && Reaches(prog, w, 0, |prog| - 1, State(3, Conf(i, x.slots)), g)
    decreases n
  {
    hide Run, RegionIs;
    var end := |prog| - 1;
    var u := RunStep(prog, w, 0, end, State(pc, x), g, n);
    if u == State(3, x) {
      i := x.pos;
      assert x == Conf(i, x.slots);
    } else {
      assert u == State(1, x);
      var v := RunStep(prog, w, 0, end, u, g, n - 1);
      assert v == State(2, Conf(x.pos + 1, x.slots)) && x.pos < |w.s|;
      i := PrefixSkips(prog, w, a, rev, 2, Conf(x.pos + 1, x.slots), g, n - 2);
    }
  }

  lemma {:induction false} PrefixReaches(prog: seq<Op>, w: Input, a: Ast, rev: bool, pc: nat, x: Conf,
          i: nat, g: State)
    requires ProgramCode(prog, w, a, rev) && (pc == 0 || pc == 2)
    requires Unanchored(w, x.pos, i) && Reaches(prog, w, 0, |prog| - 1, State(3, Conf(i, x.slots)), g)
    ensures Reaches(prog, w, 0, |prog| - 1, State(pc, x), g)
    decreases i - x.pos
  {
    hide Reaches, RegionIs;
    var end := |prog| - 1;
    SplitStep(prog, w, 0, end, pc, 3, 1, x, g);
    if i == x.pos {
      assert x == Conf(i, x.slots);
    } else {
      var x' := Conf(x.pos + 1, x.slots);
      PrefixReaches(prog, w, a, rev, 2, x', i, g);
      ReachesStep(prog, w, 0, end, State(1, x), g);
      assert State(2, x') in Steps(prog[1], w, State(1, x));
    }
  }

  /** A match that begins at `i`, where the search may begin one, leads to `c`; saving its ends leads to `y`. */
  ghost predicate MatchFrom(a: Ast, w: Input, rev: bool, start: nat, i: nat, c: Conf, y: Conf) {
    && Unanchored(w, start, i) && Runs(a, 0, rev, w, Mark(Conf(i, map[]), FirstSlot(rev)), c)
    && y == Mark(c, SecondSlot(rev))
  }

  /** A compiled program accepts exactly what the expression matches, beginning anywhere from the
      start of the search on, with the extent of every submatch in its slots. */
  lemma {:induction false} ProgramCorrect(a: Ast, w: Input, rev: bool, start: nat, y: Conf)
    requires WellFormed(a)
    ensures Accepts(Program(a, rev), w, State(0, Conf(start, map[])), y) <==>
      exists i: nat, c: Conf :: MatchFrom(a, w, rev, start, i, c, y)
  {
    hide Accepts, Runs, Run, ProgramCode, Program, WellFormed, Unanchored, MatchLast;
    var prog, x := Program(a, rev), Conf(start, map[]);
    ProgramIs(a, w, rev);
    ProgramShape(a, rev);
    AcceptsIsReaching(prog, w, State(0, x), y);
    var end := |prog| - 1;
    var g := State(end, y);
    if Accepts(prog, w, State(0, x), y) {
      var n: nat :| Run(prog, w, 0, end, State(0, x), g, n);
      var i := PrefixSkips(prog, w, a, rev, 0, x, g, n);
      FromThree(prog, w, a, rev, Conf(i, map[]), y);
      var c: Conf :| Runs(a, 0, rev, w, Mark(Conf(i, map[]), FirstSlot(rev)), c) && y == Mark(c, SecondSlot(rev));
      assert MatchFrom(a, w, rev, start, i, c, y);
    }
    if i: nat, c: Conf :| MatchFrom(a, w, rev, start, i, c, y) {
      FromThree(prog, w, a, rev, Conf(i, map[]), y);
      PrefixReaches(prog, w, a, rev, 0, x, i, g);
    }
  }

  // ---------------------------------------------------------------- the span of a match

  /** A run leaves the slots of earlier groups alone. */
  ghost predicate SameBelow(x: map<nat, nat>, y: map<nat, nat>, k: nat) {
    forall s: nat :: s < k ==> (s in x <==> s in y) && (s in x ==> x[s] == y[s])
  }

  lemma {:induction false} RunsKeepSlots(a: Ast, n: nat, rev: bool, w: Input, x: Conf, y: Conf)
    requires Runs(a, n, rev, w, x, y)
    ensures SameBelow(x.slots, y.slots, 2 * n + 2)
    decreases a, 0, 0
  {
    match a
    case AComp(_) =>
    case AAssertion(_) =>
    case Alt(nodes) => RunsAnyKeepSlots(nodes, n, rev, w, x, y);
    case ARep(r, node) =>
      var k: nat :| Allowed(r, k) && RunsTimes(node, n, rev, w, k, x, y);
      RunsTimesKeepSlots(node, n, rev, w, k, x, y);
    case Concat(nodes) => RunsAllKeepSlots(nodes, n, rev, w, x, y);
    case SubMatch(kind, node) =>
      if kind.NonCapturing? {
        RunsKeepSlots(node, n, rev, w, x, y);
      } else {
        SubMatchRuns(kind, node, n, rev, w, x, y);
        hide Runs;
        var k, x' := n + 1, Mark(x, EnterSlot(n + 1, rev));
        var z: Conf :| Runs(node, k, rev, w, x', z) && y == Mark(z, LeaveSlot(k, rev));
        RunsKeepSlots(node, k, rev, w, x', z);
      }
  }

  lemma {:induction false} RunsAnyKeepSlots(nodes: seq<Ast>, n: nat, rev: bool, w: Input, x: Conf, y: Conf)
    requires RunsAny(nodes, n, rev, w, x, y)
    ensures SameBelow(x.slots, y.slots, 2 * n + 2)
    decreases nodes, 0, 0
  {
    if Runs(nodes[0], n, rev, w, x, y) {
      RunsKeepSlots(nodes[0], n, rev, w, x, y);
    } else {
      RunsAnyKeepSlots(nodes[1..], n + Saves(nodes[0]), rev, w, x, y);
    }
  }

  lemma {:induction false} RunsAllKeepSlots(nodes: seq<Ast>, n: nat, rev: bool, w: Input, x: Conf, y: Conf)
    requires RunsAll(nodes, n, rev, w, x, y)
    ensures SameBelow(x.slots, y.slots, 2 * n + 2)
    decreases nodes, 0, 0
  {
    if nodes != [] {
      var z := RunsAllHead(nodes, n, rev, w, x, y);
      hide RunsAll, Runs;
      RunsKeepSlots(nodes[0], n, rev, w, x, z);
      RunsAllKeepSlots(nodes[1..], n + Saves(nodes[0]), rev, w, z, y);
    }
  }

  lemma {:induction false} RunsTimesKeepSlots(a: Ast, n: nat, rev: bool, w: Input, k: nat, x: Conf, y: Conf)
    requires RunsTimes(a, n, rev, w, k, x, y)
    ensures SameBelow(x.slots, y.slots, 2 * n + 2)
    decreases a, 1, k
  {
    if k > 0 {
      var z := RunsTimesHead(a, n, rev, w, k, x, y);
      hide RunsTimes, Runs;
      RunsKeepSlots(a, n, rev, w, x, z);
      RunsTimesKeepSlots(a, n, rev, w, k - 1, z, y);
    }
  }

  /** A search accepts with slots 0 and 1 (swapped in reverse) at `i` and `j`. */
  ghost predicate Finds(prog: seq<Op>, w: Input, rev: bool, start: nat, i: nat, j: nat) {
    exists y: Conf ::
      && Accepts(prog, w, State(0, Conf(start, map[])), y)
      && 0 in y.slots && 1 in y.slots
      && if rev then y.slots[1] == i && y.slots[0] == j else y.slots[0] == i && y.slots[1] == j
  }

  /** The spans that a compiled program finds are exactly those that the expression matches. */
  lemma {:induction false} SpanCorrect(a: Ast, w: Input, rev: bool, start: nat, i: nat, j: nat)
    requires WellFormed(a)
    ensures Finds(Program(a, rev), w, rev, start, i, j) <==> Unanchored(w, start, i) && Matches(a, w, i, j)
  {
    hide Accepts, Runs, Program, Matches, WellFormed, Unanchored;
    var prog, t := Program(a, rev), State(0, Conf(start, map[]));
    var first, second := FirstSlot(rev), SecondSlot(rev);
    if Finds(prog, w, rev, start, i, j) {
      var y: Conf :| Accepts(prog, w, t, y) && first in y.slots && y.slots[first] == i &&
        second in y.slots && y.slots[second] == j;
      ProgramCorrect(a, w, rev, start, y);
      var k: nat, c: Conf :| MatchFrom(a, w, rev, start, k, c, y);
      RunsKeepSlots(a, 0, rev, w, Mark(Conf(k, map[]), first), c);
      RunsForget(a, 0, rev, w, Mark(Conf(k, map[]), first), j);
    }
    if Unanchored(w, start, i) && Matches(a, w, i, j) {
      var x := Mark(Conf(i, map[]), first);
      RunsForget(a, 0, rev, w, x, j);
      var c: Conf :| Runs(a, 0, rev, w, x, c) && c.pos == j;
      RunsKeepSlots(a, 0, rev, w, x, c);
      ProgramCorrect(a, w, rev, start, Mark(c, second));
      assert MatchFrom(a, w, rev, start, i, c, Mark(c, second)) && Accepts(prog, w, t, Mark(c, second));
    }
  }

  /** A reversed program finds in a mirrored text exactly the mirrored spans of what the expression matches. */
  lemma {:induction false} ReverseSpanMirrored(a: Ast, w: Input, v: Input, start: nat, i: nat, j: nat)
    requires WellFormed(a) && i <= |w.s| && j <= |w.s| && Mirrored(w, v)
    ensures Finds(Program(ReverseAst(a), true), v, true, start, |w.s| - j, |w.s| - i) <==>
      Unanchored(w, start, |w.s| - j) && Matches(a, w, i, j)
  {
    hide Finds, Matches, Program, WellFormed;
    ReverseWellFormed(a);
    SpanCorrect(ReverseAst(a), v, true, start, |w.s| - j, |w.s| - i);
    ReverseMirrored(a, w, v, i, j);
  }

  /** A reversed program run backwards over a text finds exactly the spans that the expression matches
      forwards, at their mirrored positions. */
  lemma {:induction false} ReverseSpanCorrect(a: Ast, alnum: char -> bool, s: seq<char>, start: nat, i: nat, j: nat)
    requires WellFormed(a) && i <= |s| && j <= |s|
    ensures Finds(Program(ReverseAst(a), true), TextInput(alnum, ReverseText(s)), true, start, |s| - j, |s| - i) <==>
      Unanchored(TextInput(alnum, s), start, |s| - j) && Matches(a, TextInput(alnum, s), i, j)
  {
    hide Finds, Matches, Program, WellFormed, Mirrored;
    TextsMirrored(alnum, s);
    ReverseSpanMirrored(a, TextInput(alnum, s), TextInput(alnum, ReverseText(s)), start, i, j);
  }
}
