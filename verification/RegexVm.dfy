/** The instructions of the regex machine and their nondeterministic meaning. */
module RegexVm {
  import opened RegexAst

  datatype Op =
    | OComp(comp: Comp)
    | OAssertion(assertion: Assertion)
    | Split(l1: nat, l2: nat)
    | Jump(l: nat)
    | Save(slot: nat)
    | RSave(slot: nat)
    | Match

  /** A position in the text and the submatch positions saved so far. */
  datatype Conf = Conf(pos: nat, slots: map<nat, nat>)

  datatype State = State(pc: nat, conf: Conf)

  function Mark(x: Conf, slot: nat): Conf { Conf(x.pos, x.slots[slot := x.pos]) }

  /** The states that one instruction leads to. */
  function Steps(op: Op, w: Input, t: State): set<State> {
    match op
    case OComp(c) =>
      if t.conf.pos < |w.s| && c.Matches(w.s[t.conf.pos])
      then {State(t.pc + 1, Conf(t.conf.pos + 1, t.conf.slots))} else {}
    case OAssertion(a) => if w.holds(a, t.conf.pos) then {State(t.pc + 1, t.conf)} else {}
    case Split(l1, l2) => {State(l1, t.conf), State(l2, t.conf)}
    case Jump(l) => {State(l, t.conf)}
    case Save(slot) => {State(t.pc + 1, Mark(t.conf, slot))}
    case RSave(slot) => {State(t.pc + 1, Mark(t.conf, slot))}
    case Match => {}
  }

  predicate Inside(prog: seq<Op>, lo: nat, hi: nat, pc: nat) { lo <= pc < hi && pc < |prog| }

  /** A run that stays at the instructions from `lo` up to `hi`, first leaves them in state `g`, and
      takes at most `n` steps. */
  ghost predicate Run(prog: seq<Op>, w: Input, lo: nat, hi: nat, t: State, g: State, n: nat)
    decreases n
  {
    if !Inside(prog, lo, hi, t.pc) then t == g
    else n > 0 && exists u :: u in Steps(prog[t.pc], w, t) && Run(prog, w, lo, hi, u, g, n - 1)
  }

  ghost predicate Reaches(prog: seq<Op>, w: Input, lo: nat, hi: nat, t: State, g: State) {
    exists n: nat :: Run(prog, w, lo, hi, t, g, n)
  }

  lemma RunStep(prog: seq<Op>, w: Input, lo: nat, hi: nat, t: State, g: State, n: nat) returns (u: State)
    requires Inside(prog, lo, hi, t.pc) && Run(prog, w, lo, hi, t, g, n)
    ensures n > 0 && u in Steps(prog[t.pc], w, t) && Run(prog, w, lo, hi, u, g, n - 1)
  {
    u :| u in Steps(prog[t.pc], w, t) && Run(prog, w, lo, hi, u, g, n - 1);
  }

  lemma RunFrom(prog: seq<Op>, w: Input, lo: nat, hi: nat, t: State, u: State, g: State, n: nat)
    requires Inside(prog, lo, hi, t.pc) && n > 0
    requires u in Steps(prog[t.pc], w, t) && Run(prog, w, lo, hi, u, g, n - 1)
    ensures Run(prog, w, lo, hi, t, g, n)
  {
  }

  /** A run through a part of the region is a run of the part followed by a run of the region. */
  lemma {:induction false} Decompose(prog: seq<Op>, w: Input, lo: nat, hi: nat, a: nat, b: nat, t: State,
          g: State, n: nat)
    returns (m: State, k: nat)
    requires lo <= a <= b <= hi && Run(prog, w, lo, hi, t, g, n)
    ensures k <= n && Run(prog, w, a, b, t, m, k) && Run(prog, w, lo, hi, m, g, n - k)
    ensures Inside(prog, a, b, t.pc) ==> k > 0
    decreases n
  {
    if Inside(prog, a, b, t.pc) {
      hide Run, Steps;
      var u := RunStep(prog, w, lo, hi, t, g, n);
      var l;
      m, l := Decompose(prog, w, lo, hi, a, b, u, g, n - 1);
      k := l + 1;
      RunFrom(prog, w, a, b, t, u, m, k);
    } else {
      m, k := t, 0;
    }
  }

  lemma {:induction false} Join(prog: seq<Op>, w: Input, lo: nat, hi: nat, a: nat, b: nat, t: State,
          m: State, g: State, k: nat, l: nat)
    requires lo <= a <= b <= hi
    requires Run(prog, w, a, b, t, m, k) && Run(prog, w, lo, hi, m, g, l)
    ensures exists n: nat :: Run(prog, w, lo, hi, t, g, n)
    decreases k
  {
    if Inside(prog, a, b, t.pc) {
      hide Run, Steps;
      var u := RunStep(prog, w, a, b, t, m, k);
      Join(prog, w, lo, hi, a, b, u, m, g, k - 1, l);
      var n: nat :| Run(prog, w, lo, hi, u, g, n);
      RunFrom(prog, w, lo, hi, t, u, g, n + 1);
    } else {
      assert Run(prog, w, lo, hi, t, g, l);
    }
  }

  lemma ReachesThrough(prog: seq<Op>, w: Input, lo: nat, hi: nat, a: nat, b: nat, t: State, g: State)
    requires lo <= a <= b <= hi
    ensures Reaches(prog, w, lo, hi, t, g) <==>
      exists m :: Reaches(prog, w, a, b, t, m) && Reaches(prog, w, lo, hi, m, g)
  {
    hide Run;
    if Reaches(prog, w, lo, hi, t, g) {
      var n: nat :| Run(prog, w, lo, hi, t, g, n);
      var m, k := Decompose(prog, w, lo, hi, a, b, t, g, n);
      assert Reaches(prog, w, a, b, t, m) && Reaches(prog, w, lo, hi, m, g);
    }
    if m :| Reaches(prog, w, a, b, t, m) && Reaches(prog, w, lo, hi, m, g) {
      var k: nat :| Run(prog, w, a, b, t, m, k);
      var l: nat :| Run(prog, w, lo, hi, m, g, l);
      Join(prog, w, lo, hi, a, b, t, m, g, k, l);
    }
  }

  lemma ReachesOutside(prog: seq<Op>, w: Input, lo: nat, hi: nat, t: State, g: State)
    requires !Inside(prog, lo, hi, t.pc)
    ensures Reaches(prog, w, lo, hi, t, g) <==> t == g
  {
    if t == g {
      assert Run(prog, w, lo, hi, t, g, 0);
    }
  }

  lemma ReachesStep(prog: seq<Op>, w: Input, lo: nat, hi: nat, t: State, g: State)
    requires Inside(prog, lo, hi, t.pc)
    ensures Reaches(prog, w, lo, hi, t, g) <==>
      exists u :: u in Steps(prog[t.pc], w, t) && Reaches(prog, w, lo, hi, u, g)
  {
    hide Run, Steps;
    if Reaches(prog, w, lo, hi, t, g) {
      var n: nat :| Run(prog, w, lo, hi, t, g, n);
      var u := RunStep(prog, w, lo, hi, t, g, n);
    }
    if u :| u in Steps(prog[t.pc], w, t) && Reaches(prog, w, lo, hi, u, g) {
      var n: nat :| Run(prog, w, lo, hi, u, g, n);
      RunFrom(prog, w, lo, hi, t, u, g, n + 1);
    }
  }

  // ---------------------------------------------------------------- matching with submatches

  /** The number of capturing groups. */
  function Saves(a: Ast): nat {
    match a
    case AComp(_) => 0
    case AAssertion(_) => 0
    case Alt(nodes) => SavesOf(nodes)
    case ARep(_, node) => Saves(node)
    case Concat(nodes) => SavesOf(nodes)
    case SubMatch(kind, node) => Saves(node) + if kind.NonCapturing? then 0 else 1
  }

  function SavesOf(nodes: seq<Ast>): nat {
    if nodes == [] then 0 else Saves(nodes[0]) + SavesOf(nodes[1..])
  }

  /** `a`, whose first capturing group is number `n + 1`, takes `x` to `y`: it matches the text between
      their positions and records the extent of group `k` in slots `2k` and `2k + 1`. A reversed
      expression is entered at the end of a group and left at its start. */
  ghost predicate Runs(a: Ast, n: nat, rev: bool, w: Input, x: Conf, y: Conf)
    decreases a, 0, 0
  {
    match a
    case AComp(c) => x.pos < |w.s| && c.Matches(w.s[x.pos]) && y == Conf(x.pos + 1, x.slots)
    case AAssertion(b) => w.holds(b, x.pos) && y == x
    case Alt(nodes) => RunsAny(nodes, n, rev, w, x, y)
    case ARep(r, node) => exists k: nat :: Allowed(r, k) && RunsTimes(node, n, rev, w, k, x, y)
    case Concat(nodes) => RunsAll(nodes, n, rev, w, x, y)
    case SubMatch(kind, node) =>
      if kind.NonCapturing? then Runs(node, n, rev, w, x, y)
      else
        var k, entered := n + 1, Mark(x, EnterSlot(n + 1, rev));
        exists z :: Runs(node, k, rev, w, entered, z) && y == Mark(z, LeaveSlot(k, rev))
  }

  function EnterSlot(k: nat, rev: bool): nat { if rev then 2 * k + 1 else 2 * k }

  function LeaveSlot(k: nat, rev: bool): nat { if rev then 2 * k else 2 * k + 1 }

  ghost predicate RunsAny(nodes: seq<Ast>, n: nat, rev: bool, w: Input, x: Conf, y: Conf)
    decreases nodes, 0, 0
  {
    nodes != [] && (Runs(nodes[0], n, rev, w, x, y) || RunsAny(nodes[1..], n + Saves(nodes[0]), rev, w, x, y))
  }

  ghost predicate RunsAll(nodes: seq<Ast>, n: nat, rev: bool, w: Input, x: Conf, y: Conf)
    decreases nodes, 0, 0
  {
    if nodes == [] then y == x
    else exists z :: Runs(nodes[0], n, rev, w, x, z) && RunsAll(nodes[1..], n + Saves(nodes[0]), rev, w, z, y)
  }

  ghost predicate RunsTimes(a: Ast, n: nat, rev: bool, w: Input, k: nat, x: Conf, y: Conf)
    decreases a, 1, k
  {
    if k == 0 then y == x
    else exists z :: Runs(a, n, rev, w, x, z) && RunsTimes(a, n, rev, w, k - 1, z, y)
  }

  lemma RunsAllHead(nodes: seq<Ast>, n: nat, rev: bool, w: Input, x: Conf, y: Conf) returns (z: Conf)
    requires nodes != [] && RunsAll(nodes, n, rev, w, x, y)
    ensures Runs(nodes[0], n, rev, w, x, z) && RunsAll(nodes[1..], n + Saves(nodes[0]), rev, w, z, y)
  {
    z :| Runs(nodes[0], n, rev, w, x, z) && RunsAll(nodes[1..], n + Saves(nodes[0]), rev, w, z, y);
  }

  lemma RunsAllFrom(nodes: seq<Ast>, n: nat, rev: bool, w: Input, x: Conf, z: Conf, y: Conf)
    requires nodes != []
    requires Runs(nodes[0], n, rev, w, x, z) && RunsAll(nodes[1..], n + Saves(nodes[0]), rev, w, z, y)
    ensures RunsAll(nodes, n, rev, w, x, y)
  {
  }

  lemma RunsTimesHead(a: Ast, n: nat, rev: bool, w: Input, k: nat, x: Conf, y: Conf) returns (z: Conf)
    requires k > 0 && RunsTimes(a, n, rev, w, k, x, y)
    ensures Runs(a, n, rev, w, x, z) && RunsTimes(a, n, rev, w, k - 1, z, y)
  {
    z :| Runs(a, n, rev, w, x, z) && RunsTimes(a, n, rev, w, k - 1, z, y);
  }

  lemma RunsTimesFrom(a: Ast, n: nat, rev: bool, w: Input, k: nat, x: Conf, z: Conf, y: Conf)
    requires k > 0 && Runs(a, n, rev, w, x, z) && RunsTimes(a, n, rev, w, k - 1, z, y)
    ensures RunsTimes(a, n, rev, w, k, x, y)
  {
  }

  lemma {:induction false} RunsTimesNone(a: Ast, n: nat, rev: bool, w: Input, x: Conf, y: Conf)
    ensures RunsTimes(a, n, rev, w, 0, x, y) <==> x == y
  {
  }

  // ---------------------------------------------------------------- forgetting the submatches

  /** With and without submatches, an expression matches the same parts of the text. */
  lemma {:induction false} RunsForget(a: Ast, n: nat, rev: bool, w: Input, x: Conf, j: nat)
    ensures (exists y: Conf :: Runs(a, n, rev, w, x, y) && y.pos == j) <==> Matches(a, w, x.pos, j)
    decreases a, 0, 0
  {
    hide RunsTimes, RunsAll, RunsAny, Times, MatchesAll, MatchesAny;
    match a
    case AComp(_) =>
      assert Matches(a, w, x.pos, j) ==> Runs(a, n, rev, w, x, Conf(j, x.slots));
    case AAssertion(_) =>
      assert Matches(a, w, x.pos, j) ==> Runs(a, n, rev, w, x, x);
    case Alt(nodes) => RunsAnyForget(nodes, n, rev, w, x, j);
    case ARep(r, node) => RunsRepForget(r, node, n, rev, w, x, j);
    case Concat(nodes) => RunsAllForget(nodes, n, rev, w, x, j);
    case SubMatch(kind, node) =>
      if kind.NonCapturing? {
        RunsForget(node, n, rev, w, x, j);
      } else {
        var x', leave := Mark(x, EnterSlot(n + 1, rev)), LeaveSlot(n + 1, rev);
        RunsForget(node, n + 1, rev, w, x', j);
        if z: Conf :| Runs(node, n + 1, rev, w, x', z) && z.pos == j {
          assert Runs(a, n, rev, w, x, Mark(z, leave));
        }
      }
  }

  lemma {:induction false} RunsAnyForget(nodes: seq<Ast>, n: nat, rev: bool, w: Input, x: Conf, j: nat)
    ensures (exists y: Conf :: RunsAny(nodes, n, rev, w, x, y) && y.pos == j) <==> MatchesAny(nodes, w, x.pos, j)
    decreases nodes, 0, 0
  {
    if nodes != [] {
      hide Runs, Matches;
      RunsForget(nodes[0], n, rev, w, x, j);
      RunsAnyForget(nodes[1..], n + Saves(nodes[0]), rev, w, x, j);
      if y: Conf :| Runs(nodes[0], n, rev, w, x, y) && y.pos == j {
        assert RunsAny(nodes, n, rev, w, x, y);
      }
      if y: Conf :| RunsAny(nodes[1..], n + Saves(nodes[0]), rev, w, x, y) && y.pos == j {
        assert RunsAny(nodes, n, rev, w, x, y);
      }
    }
  }

  lemma {:induction false} RunsAllForget(nodes: seq<Ast>, n: nat, rev: bool, w: Input, x: Conf, j: nat)
    ensures (exists y: Conf :: RunsAll(nodes, n, rev, w, x, y) && y.pos == j) <==> MatchesAll(nodes, w, x.pos, j)
    decreases nodes, 0, 0
  {
    if nodes == [] {
      assert RunsAll(nodes, n, rev, w, x, x);
    } else {
      hide Runs, Matches, RunsAll, MatchesAll;
      var n' := n + Saves(nodes[0]);
      if y: Conf :| RunsAll(nodes, n, rev, w, x, y) && y.pos == j {
        var z := RunsAllHead(nodes, n, rev, w, x, y);
        RunsForget(nodes[0], n, rev, w, x, z.pos);
        RunsAllForget(nodes[1..], n', rev, w, z, j);
        MatchesAllFrom(nodes, w, x.pos, z.pos, j);
      }
      if MatchesAll(nodes, w, x.pos, j) {
        var m := MatchesAllHead(nodes, w, x.pos, j);
        RunsForget(nodes[0], n, rev, w, x, m);
        var z: Conf :| Runs(nodes[0], n, rev, w, x, z) && z.pos == m;
        RunsAllForget(nodes[1..], n', rev, w, z, j);
        var y: Conf :| RunsAll(nodes[1..], n', rev, w, z, y) && y.pos == j;
        RunsAllFrom(nodes, n, rev, w, x, z, y);
      }
    }
  }

  lemma {:induction false} RunsTimesSound(a: Ast, n: nat, rev: bool, w: Input, k: nat, x: Conf, y: Conf)
    requires RunsTimes(a, n, rev, w, k, x, y)
    ensures Times(a, k, w, x.pos, y.pos)
    decreases a, 1, k
  {
    if k > 0 {
      hide Runs, Matches, RunsTimes, Times;
      var z := RunsTimesHead(a, n, rev, w, k, x, y);
      RunsForget(a, n, rev, w, x, z.pos);
      RunsTimesSound(a, n, rev, w, k - 1, z, y);
      TimesFrom(a, k, w, x.pos, z.pos, y.pos);
    }
  }

  lemma {:induction false} RunsTimesComplete(a: Ast, n: nat, rev: bool, w: Input, k: nat, x: Conf, j: nat)
    returns (y: Conf)
    requires Times(a, k, w, x.pos, j)
    ensures RunsTimes(a, n, rev, w, k, x, y) && y.pos == j
    decreases a, 1, k
  {
    if k == 0 {
      y := x;
    } else {
      hide Runs, Matches, RunsTimes, Times;
      var m := TimesHead(a, k, w, x.pos, j);
      RunsForget(a, n, rev, w, x, m);
      var z: Conf :| Runs(a, n, rev, w, x, z) && z.pos == m;
      y := RunsTimesComplete(a, n, rev, w, k - 1, z, j);
      RunsTimesFrom(a, n, rev, w, k, x, z, y);
    }
  }

  lemma {:induction false} RunsRepForget(r: Rep, node: Ast, n: nat, rev: bool, w: Input, x: Conf, j: nat)
    ensures (exists y: Conf :: Runs(ARep(r, node), n, rev, w, x, y) && y.pos == j) <==>
      Matches(ARep(r, node), w, x.pos, j)
    decreases node, 2, 0
  {
    hide RunsTimes, Times;
    var a := ARep(r, node);
    if y: Conf :| Runs(a, n, rev, w, x, y) && y.pos == j {
      var k: nat :| Allowed(r, k) && RunsTimes(node, n, rev, w, k, x, y);
      RunsTimesSound(node, n, rev, w, k, x, y);
    }
    if Matches(a, w, x.pos, j) {
      var k: nat :| Allowed(r, k) && Times(node, k, w, x.pos, j);
      var y := RunsTimesComplete(node, n, rev, w, k, x, j);
      assert Runs(a, n, rev, w, x, y);
    }
  }

  // ---------------------------------------------------------------- the extents of the groups

  /** The slots of the groups from `n + 1` up to `n + k`. */
  predicate SlotOf(n: nat, k: nat, m: nat) { 2 * n + 2 <= m < 2 * (n + k) + 2 }

  predicate SameSlot(x: Conf, y: Conf, m: nat) {
    (m in x.slots <==> m in y.slots) && (m in x.slots ==> x.slots[m] == y.slots[m])
  }

  /** A matched group has its start and its end in its two slots, in both directions, whatever is matched in it. */
  lemma {:induction false} GroupExtent(kind: SmKind, node: Ast, n: nat, rev: bool, w: Input, x: Conf, y: Conf)
    requires !kind.NonCapturing? && Runs(SubMatch(kind, node), n, rev, w, x, y)
    ensures var start, end := 2 * (n + 1), 2 * (n + 1) + 1;
      && start in y.slots && end in y.slots
      && y.slots[start] == (if rev then y.pos else x.pos) && y.slots[end] == (if rev then x.pos else y.pos)
  {
    var entered := Mark(x, EnterSlot(n + 1, rev));
    var z :| Runs(node, n + 1, rev, w, entered, z) && y == Mark(z, LeaveSlot(n + 1, rev));
    OtherSlotsKept(node, n + 1, rev, w, entered, z, EnterSlot(n + 1, rev));
  }

  /** An expression saves in the slots of its own groups alone. */
  lemma {:induction false} OtherSlotsKept(a: Ast, n: nat, rev: bool, w: Input, x: Conf, y: Conf, m: nat)
    requires Runs(a, n, rev, w, x, y) && !SlotOf(n, Saves(a), m)
    ensures SameSlot(x, y, m)
    decreases a, 0, 0
  {
    match a
    case AComp(_) =>
    case AAssertion(_) =>
    case Alt(nodes) => OtherSlotsKeptAny(nodes, n, rev, w, x, y, m);
    case ARep(r, node) =>
      var k: nat :| Allowed(r, k) && RunsTimes(node, n, rev, w, k, x, y);
      OtherSlotsKeptTimes(node, n, rev, w, k, x, y, m);
    case Concat(nodes) => OtherSlotsKeptAll(nodes, n, rev, w, x, y, m);
    case SubMatch(kind, node) =>
      if kind.NonCapturing? {
        OtherSlotsKept(node, n, rev, w, x, y, m);
      } else {
        var entered := Mark(x, EnterSlot(n + 1, rev));
        var z :| Runs(node, n + 1, rev, w, entered, z) && y == Mark(z, LeaveSlot(n + 1, rev));
        OtherSlotsKept(node, n + 1, rev, w, entered, z, m);
      }
  }

  lemma {:induction false} OtherSlotsKeptAny(nodes: seq<Ast>, n: nat, rev: bool, w: Input, x: Conf, y: Conf, m: nat)
    requires RunsAny(nodes, n, rev, w, x, y) && !SlotOf(n, SavesOf(nodes), m)
    ensures SameSlot(x, y, m)
    decreases nodes, 0, 0
  {
    hide Runs;
    if Runs(nodes[0], n, rev, w, x, y) {
      OtherSlotsKept(nodes[0], n, rev, w, x, y, m);
    } else {
      OtherSlotsKeptAny(nodes[1..], n + Saves(nodes[0]), rev, w, x, y, m);
    }
  }

  lemma {:induction false} OtherSlotsKeptAll(nodes: seq<Ast>, n: nat, rev: bool, w: Input, x: Conf, y: Conf, m: nat)
    requires RunsAll(nodes, n, rev, w, x, y) && !SlotOf(n, SavesOf(nodes), m)
    ensures SameSlot(x, y, m)
    decreases nodes, 0, 0
  {
    if nodes != [] {
      hide Runs;
      var z := RunsAllHead(nodes, n, rev, w, x, y);
      OtherSlotsKept(nodes[0], n, rev, w, x, z, m);
      OtherSlotsKeptAll(nodes[1..], n + Saves(nodes[0]), rev, w, z, y, m);
    }
  }

  lemma {:induction false} OtherSlotsKeptTimes(a: Ast, n: nat, rev: bool, w: Input, k: nat, x: Conf, y: Conf, m: nat)
    requires RunsTimes(a, n, rev, w, k, x, y) && !SlotOf(n, Saves(a), m)
    ensures SameSlot(x, y, m)
    decreases a, 1, k
  {
    if k > 0 {
      hide Runs;
      var z := RunsTimesHead(a, n, rev, w, k, x, y);
      OtherSlotsKept(a, n, rev, w, x, z, m);
      OtherSlotsKeptTimes(a, n, rev, w, k - 1, z, y, m);
    }
  }
}
