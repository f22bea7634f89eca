/** The second pass over a compiled program: dropping the instructions that nothing leads to any more; and
    both passes together. */
module RegexStrip {
  import opened Basics
  import opened RegexAst
  import opened RegexVm
  import opened RegexTransform
  import opened RegexCompile
  import opened RegexProgram
  import opened RegexOptimise

  // ---------------------------------------------------------------- strip_unreachable_instructions

  predicate IsControl(op: Op) { op.Jump? || op.Split? || op.Match? }

  predicate Targets(op: Op, k: nat) {
    (op.Jump? && op.l == k) || (op.Split? && (op.l1 == k || op.l2 == k))
  }

  /** The test that the pass makes before it removes instruction `i`. */
  predicate Removable(ops: seq<Op>, i: nat) {
    1 <= i < |ops| - 1 && IsControl(ops[i - 1]) && forall p :: 0 <= p < |ops| ==> !Targets(ops[p], i)
  }

  /** The entries (target, instruction) of one instruction in the pass's table. */
  function EntriesOf(op: Op, from: nat): seq<(nat, nat)> {
    match op
    case Jump(j) => [(j, from)]
    case Split(l1, l2) => [(l1, from), (l2, from)]
    case _ => []
  }

  function TableOf(ops: seq<Op>): seq<(nat, nat)> {
    if ops == [] then [] else TableOf(ops[..|ops| - 1]) + EntriesOf(ops[|ops| - 1], |ops| - 1)
  }

  /** The table as the pass builds it. */
  method BuildTable(ops: seq<Op>) returns (toFrom: seq<(nat, nat)>)
    ensures toFrom == TableOf(ops)
  {
    toFrom := [];
    for k := 0 to |ops|
      invariant toFrom == TableOf(ops[..k])
    {
      assert ops[..k + 1][..k] == ops[..k];
      match ops[k]
      case Jump(j) => toFrom := toFrom + [(j, k)];
      case Split(l1, l2) => toFrom := toFrom + [(l1, k), (l2, k)];
      case _ =>
    }
    assert ops[..|ops|] == ops;
  }

  /** What one entry whose target lies behind `i` does to its instruction. */
  function Lower(op: Op, i: nat): Op {
    match op
    case Jump(x) => if x == 0 then op else Jump(x - 1)
    case Split(x, y) => if x > i then Split(x - 1, y) else if y > i then Split(x, y - 1) else op
    case _ => op
  }

  predicate TableFits(table: seq<(nat, nat)>, n: nat) {
    forall k :: 0 <= k < |table| ==> table[k].1 < n
  }

  /** The effect of a table on a program, entry by entry, and whether the target of a jump underflows. */
  function Swept(ops: seq<Op>, table: seq<(nat, nat)>, i: nat): (r: (seq<Op>, bool))
    requires TableFits(table, |ops|)
    ensures |r.0| == |ops|
  {
    if table == [] then (ops, false)
    else
      var ((before, underflow), (to, from)) := (Swept(ops, table[..|table| - 1], i), table[|table| - 1]);
      if to > i then (before[from := Lower(before[from], i)], underflow || before[from] == Jump(0))
        else (before, underflow)
  }

  /** The table once instruction `i` is removed; targets stay as they were before the pass. */
  function MovedTable(table: seq<(nat, nat)>, i: nat): (r: seq<(nat, nat)>)
    ensures |r| == |table|
    ensures forall k :: 0 <= k < |r| ==> r[k] == (table[k].0, if table[k].1 > i then table[k].1 - 1 else table[k].1)
  {
    seq(|table|, k requires 0 <= k < |table| => (table[k].0, if table[k].1 > i then table[k].1 - 1 else table[k].1))
  }

  function Without(ops: seq<Op>, i: nat): seq<Op>
    requires i < |ops|
  {
    ops[..i] + ops[i + 1..]
  }

  lemma {:induction false} TableWithin(ops: seq<Op>)
    ensures TableFits(TableOf(ops), |ops|)
  {
    if ops != [] {
      TableWithin(ops[..|ops| - 1]);
    }
  }

  lemma {:induction false} SweptNothing(ops: seq<Op>, i: nat)
    ensures Swept(ops, [], i) == (ops, false)
  {
  }

  /** Removes instruction `i`: every entry whose target lies behind it lowers a target of its instruction. */
  method RemoveInstruction(ops: seq<Op>, toFrom: seq<(nat, nat)>, i: nat)
    returns (cut: seq<Op>, moved: seq<(nat, nat)>, underflow: bool)
    requires i < |ops| && TableFits(toFrom, |ops|)
    ensures cut == Without(Swept(ops, toFrom, i).0, i) && underflow == Swept(ops, toFrom, i).1
    ensures moved == MovedTable(toFrom, i)
  {
    cut, moved, underflow := ops, toFrom, false;
    SweptNothing(ops, i);
    assert toFrom[..0] == [];
    ghost var goal := MovedTable(toFrom, i);
    for k := 0 to |toFrom|
      invariant |cut| == |ops| && |moved| == |toFrom| && (cut, underflow) == Swept(ops, toFrom[..k], i)
      invariant forall l :: k <= l < |moved| ==> moved[l] == toFrom[l]
      invariant forall l :: 0 <= l < k ==> moved[l] == goal[l]
    {
      assert toFrom[..k + 1][..k] == toFrom[..k];
      var (to, from) := moved[k];
      if to > i {
        underflow := underflow || cut[from] == Jump(0);
        cut := cut[from := Lower(cut[from], i)];
      }
      if from > i {
        moved := moved[k := (to, from - 1)];
      }
    }
    assert toFrom[..|toFrom|] == toFrom && moved == goal;
    cut := cut[..i] + cut[i + 1..];
  }

  function TargetSet(table: seq<(nat, nat)>): set<nat> { set k | 0 <= k < |table| :: table[k].0 }

  lemma {:induction false} WithoutLen(ops: seq<Op>, table: seq<(nat, nat)>, i: nat)
    requires i < |ops| - 1 && TableFits(table, |ops|)
    ensures |Without(Swept(ops, table, i).0, i)| == |ops| - 1 && TableFits(MovedTable(table, i), |ops| - 1)
  {
  }

  /** The pass from instruction `i` down. Which instructions are led to is what it was before the pass. */
  function StripFrom(ops: seq<Op>, table: seq<(nat, nat)>, jumps: set<nat>, i: nat, underflow: bool): (seq<Op>, bool)
    requires i == 0 || (i < |ops| - 1 && TableFits(table, |ops|))
    decreases i
  {
    if i == 0 then (ops, underflow)
    else if IsControl(ops[i - 1]) && i !in jumps then
      WithoutLen(ops, table, i);
      var (swept, u) := Swept(ops, table, i);
      StripFrom(Without(swept, i), MovedTable(table, i), jumps, i - 1, underflow || u)
    else StripFrom(ops, table, jumps, i - 1, underflow)
  }

  /** What the pass leaves, and whether a target underflows on the way. */
  function Stripped(ops: seq<Op>): (seq<Op>, bool)
    requires ops != []
  {
    TableWithin(ops);
    StripFrom(ops, TableOf(ops), TargetSet(TableOf(ops)), LastRemovable(ops), false)
  }

  function LastRemovable(ops: seq<Op>): nat
    requires ops != []
  {
    if |ops| == 1 then 0 else |ops| - 2
  }

  /** strip_unreachable_instructions, from the last instruction but one down to the second. */
  method StripUnreachable(program: seq<Op>) returns (ops: seq<Op>, underflow: bool)
    requires program != []
    ensures (ops, underflow) == Stripped(program)
    ensures !underflow && ops == CutOut(program) <==> StripsRightly(program)
  {
    hide TableOf, Swept, Without, CutOut, StripsRightly;
    StrippedRightly(program);
    ops, underflow := program, false;
    var toFrom := BuildTable(program);
    var jumps := TargetSet(toFrom);
    TableWithin(program);
    var i: nat := LastRemovable(program);
    while i > 0
      invariant i == 0 || i < |ops| - 1
      invariant TableFits(toFrom, |ops|)
      invariant StripFrom(ops, toFrom, jumps, i, underflow) == Stripped(program)
    {
      if IsControl(ops[i - 1]) && i !in jumps {
        WithoutLen(ops, toFrom, i);
        var u;
        ops, toFrom, u := RemoveInstruction(ops, toFrom, i);
        underflow := underflow || u;
      }
      i := i - 1;
    }
  }

  // ---------------------------------------------------------------- what stripping should leave

  /** The number of removable instructions behind `i` and in front of `q`. */
  function Gone(ops: seq<Op>, i: nat, q: nat): (g: nat)
    ensures g <= if q > i then q - i - 1 else 0
  {
    if q <= i + 1 then 0 else Gone(ops, i, q - 1) + if Removable(ops, q - 1) then 1 else 0
  }

  /** Where instruction `q` is once all removable instructions behind `i` are removed. */
  function Pos(ops: seq<Op>, i: nat, q: nat): (r: nat)
    ensures if q > i then i < r <= q else r == q
  {
    q - Gone(ops, i, q)
  }

  function Readdressed(ops: seq<Op>, i: nat, op: Op): Op {
    match op
    case Jump(l) => Jump(Pos(ops, i, l))
    case Split(l1, l2) => Split(Pos(ops, i, l1), Pos(ops, i, l2))
    case _ => op
  }

  /** The first `n` instructions without the removable ones, with all targets readdressed. */
  function CutTo(ops: seq<Op>, n: nat): (r: seq<Op>)
    requires n <= |ops|
  {
    if n == 0 then [] else CutTo(ops, n - 1) + if Removable(ops, n - 1) then [] else [Readdressed(ops, 0, ops[n - 1])]
  }

  function CutOut(ops: seq<Op>): seq<Op> { CutTo(ops, |ops|) }

  /** The number of targets behind `i`. */
  function TargetsBehind(op: Op, i: nat): nat {
    match op
    case Jump(l) => if l > i then 1 else 0
    case Split(l1, l2) => (if l1 > i then 1 else 0) + if l2 > i then 1 else 0
    case _ => 0
  }

  predicate Kept(ops: seq<Op>, p: nat) { p < |ops| && !Removable(ops, p) }

  /** When instruction `i` is removed, `p` has entries of instructions that stood right in front of it and
      are removed already, and one of their targets lay behind `i`. */
  predicate Inherits(ops: seq<Op>, p: nat, i: nat)
    requires p < |ops|
  {
    exists r :: 0 <= r < p && AllGone(ops, i, r, p) && TargetsBehind(ops[r], i) > 0
  }

  /** Removing `i` lowers the targets of `p` as it should: an entry is never used on the first target
      that was meant for the second, and inherited entries find nothing to lower. */
  predicate RightAt(ops: seq<Op>, p: nat, i: nat)
    requires p < |ops|
  {
    match ops[p]
    case Jump(_) => !Inherits(ops, p, i)
    case Split(l1, l2) =>
      && (l1 > i && (l2 > i || Inherits(ops, p, i)) ==> Pos(ops, i, l1) == i + 1)
      && (l2 > i && Inherits(ops, p, i) ==> Pos(ops, i, l2) == i + 1)
    case _ => true
  }

  predicate StripsRightly(ops: seq<Op>) {
    forall i, p :: 0 <= i < |ops| && 0 <= p < |ops| && Removable(ops, i) && Kept(ops, p) ==> RightAt(ops, p, i)
  }

  lemma {:induction false} GoneStep(ops: seq<Op>, i: nat, q: nat)
    requires i > 0
    ensures Gone(ops, i - 1, q) == Gone(ops, i, q) + if Removable(ops, i) && q > i then 1 else 0
    ensures Pos(ops, i - 1, q) == Pos(ops, i, q) - if Removable(ops, i) && q > i then 1 else 0
    decreases q
  {
    hide Removable;
    if q > i + 1 {
      GoneStep(ops, i, q - 1);
    }
  }

  lemma {:induction false} GoneEnd(ops: seq<Op>, i: nat, q: nat)
    requires i + 2 >= |ops|
    ensures Gone(ops, i, q) == 0 && Pos(ops, i, q) == q
    decreases q
  {
    if q > i + 1 {
      GoneEnd(ops, i, q - 1);
    }
  }

  /** Positions grow, by one from each instruction that is there. */
  lemma PosNext(ops: seq<Op>, i: nat, q: nat)
    ensures Pos(ops, i, q + 1) == Pos(ops, i, q) + if q > i && Removable(ops, q) then 0 else 1
  {
    hide Removable;
  }

  lemma {:induction false} PosMonotone(ops: seq<Op>, i: nat, p: nat, q: nat)
    requires p <= q
    ensures Pos(ops, i, p) <= Pos(ops, i, q)
    decreases q
  {
    hide Pos, Removable;
    if p < q {
      PosMonotone(ops, i, p, q - 1);
      PosNext(ops, i, q - 1);
    }
  }

  /** All instructions from `p` up to `q` are removed once those behind `i` are. */
  predicate AllGone(ops: seq<Op>, i: nat, p: nat, q: nat)
    decreases q
  {
    p < q ==> i < q - 1 && Removable(ops, q - 1) && AllGone(ops, i, p, q - 1)
  }

  /** Two instructions come to the same position exactly if all from the first up to the second are removed. */
  lemma {:induction false} PosSame(ops: seq<Op>, i: nat, p: nat, q: nat)
    requires p <= q
    ensures Pos(ops, i, p) == Pos(ops, i, q) <==> AllGone(ops, i, p, q)
    decreases q
  {
    hide Pos, Removable;
    if p < q {
      PosSame(ops, i, p, q - 1);
      PosMonotone(ops, i, p, q - 1);
      PosNext(ops, i, q - 1);
    }
  }

  lemma {:induction false} AllGoneFirst(ops: seq<Op>, i: nat, p: nat, q: nat)
    requires p < q && AllGone(ops, i, p, q)
    ensures i < p && Removable(ops, p)
    decreases q
  {
    if p < q - 1 {
      AllGoneFirst(ops, i, p, q - 1);
    }
  }

  lemma {:induction false} CutToLen(ops: seq<Op>, n: nat)
    requires n <= |ops|
    ensures |CutTo(ops, n)| == Pos(ops, 0, n)
    decreases n
  {
    hide Removable, Readdressed;
    if n > 0 {
      CutToLen(ops, n - 1);
      NotFirst(ops);
      PosNext(ops, 0, n - 1);
    }
  }

  lemma NotFirst(ops: seq<Op>)
    ensures !Removable(ops, 0)
  {
  }

  /** Every instruction that is kept is at its position. */
  lemma {:induction false} CutToAt(ops: seq<Op>, n: nat, p: nat)
    requires p < n <= |ops| && Kept(ops, p)
    ensures Pos(ops, 0, p) < |CutTo(ops, n)| && CutTo(ops, n)[Pos(ops, 0, p)] == Readdressed(ops, 0, ops[p])
    decreases n
  {
    hide Removable, Readdressed;
    CutToLen(ops, n - 1);
    if p < n - 1 {
      CutToAt(ops, n - 1, p);
    }
  }

  lemma {:induction false} TargetsTabled(ops: seq<Op>, j: nat)
    ensures j in TargetSet(TableOf(ops)) <==> exists p :: 0 <= p < |ops| && Targets(ops[p], j)
  {
    if ops != [] {
      var front, last := ops[..|ops| - 1], |ops| - 1;
      TargetsTabled(front, j);
      TargetSetConcat(TableOf(front), EntriesOf(ops[last], last));
      assert j in TargetSet(EntriesOf(ops[last], last)) <==> Targets(ops[last], j) by {
        EntriesTargets(ops[last], last, j);
      }
      if p :| 0 <= p < |front| && Targets(front[p], j) {
        assert Targets(ops[p], j);
      }
      if p :| 0 <= p < |ops| && Targets(ops[p], j) {
        assert p < last ==> Targets(front[p], j);
      }
    }
  }

  lemma EntriesTargets(op: Op, from: nat, j: nat)
    ensures j in TargetSet(EntriesOf(op, from)) <==> Targets(op, j)
  {
    var es := EntriesOf(op, from);
    if Targets(op, j) {
      assert es[0].0 == j || es[1].0 == j;
    }
  }

  lemma TargetSetConcat(x: seq<(nat, nat)>, y: seq<(nat, nat)>)
    ensures TargetSet(x + y) == TargetSet(x) + TargetSet(y)
  {
    forall j | j in TargetSet(x) + TargetSet(y)
      ensures j in TargetSet(x + y)
    {
      if j in TargetSet(x) {
        var k :| 0 <= k < |x| && x[k].0 == j;
        assert (x + y)[k].0 == j;
      } else {
        var k :| 0 <= k < |y| && y[k].0 == j;
        assert (x + y)[|x| + k].0 == j;
      }
    }
    forall j | j in TargetSet(x + y)
      ensures j in TargetSet(x) + TargetSet(y)
    {
      var k :| 0 <= k < |x + y| && (x + y)[k].0 == j;
      assert if k < |x| then x[k].0 == j else y[k - |x|].0 == j;
    }
  }

  // ---------------------------------------------------------------- the table during the pass

  /** The entries once all removable instructions behind `i` are removed. */
  function Shifted(ops: seq<Op>, i: nat, table: seq<(nat, nat)>): (r: seq<(nat, nat)>)
    ensures |r| == |table| && forall k :: 0 <= k < |r| ==> r[k] == (table[k].0, Pos(ops, i, table[k].1))
  {
    seq(|table|, k requires 0 <= k < |table| => (table[k].0, Pos(ops, i, table[k].1)))
  }

  lemma ShiftedStep(ops: seq<Op>, i: nat, table: seq<(nat, nat)>)
    requires i > 0
    ensures Removable(ops, i) ==> MovedTable(Shifted(ops, i, table), i) == Shifted(ops, i - 1, table)
    ensures !Removable(ops, i) ==> Shifted(ops, i, table) == Shifted(ops, i - 1, table)
  {
    forall k | 0 <= k < |table|
      ensures Pos(ops, i - 1, table[k].1) ==
        Pos(ops, i, table[k].1) - if Removable(ops, i) && table[k].1 > i then 1 else 0
    {
      GoneStep(ops, i, table[k].1);
    }
  }

  lemma ShiftedEnd(ops: seq<Op>, i: nat, table: seq<(nat, nat)>)
    requires i + 2 >= |ops|
    ensures Shifted(ops, i, table) == table
  {
    forall k | 0 <= k < |table|
      ensures Pos(ops, i, table[k].1) == table[k].1
    {
      GoneEnd(ops, i, table[k].1);
    }
  }

  /** How many entries of the table with a target behind `i` are at instruction `a`. */
  function Hits(table: seq<(nat, nat)>, a: nat, i: nat): nat {
    if table == [] then 0
    else
      var (to, from) := table[|table| - 1];
      Hits(table[..|table| - 1], a, i) + if to > i && from == a then 1 else 0
  }

  lemma {:induction false} HitsConcat(x: seq<(nat, nat)>, y: seq<(nat, nat)>, a: nat, i: nat)
    ensures Hits(x + y, a, i) == Hits(x, a, i) + Hits(y, a, i)
    decreases |y|
  {
    if y == [] {
      assert x + y == x;
    } else {
      assert (x + y)[..|x + y| - 1] == x + y[..|y| - 1];
      HitsConcat(x, y[..|y| - 1], a, i);
    }
  }

  lemma {:induction false} EntriesHits(ops: seq<Op>, i: nat, op: Op, q: nat, a: nat)
    ensures Hits(Shifted(ops, i, EntriesOf(op, q)), a, i) == if Pos(ops, i, q) == a then TargetsBehind(op, i) else 0
  {
    var es: seq<(nat, nat)> := Shifted(ops, i, EntriesOf(op, q));
    match op
    case Jump(_) => HitsOne(es[0], a, i);
    case Split(_, _) =>
      HitsOne(es[0], a, i);
      HitsOne(es[1], a, i);
      HitsConcat([es[0]], [es[1]], a, i);
      assert es == [es[0]] + [es[1]];
    case _ =>
  }

  lemma {:induction false} HitsOne(e: (nat, nat), a: nat, i: nat)
    ensures Hits([e], a, i) == if e.0 > i && e.1 == a then 1 else 0
  {
    assert [e][..0] == [];
  }

  /** The same, counted along the program. */
  function HitsTo(ops: seq<Op>, i: nat, a: nat, n: nat): nat
    requires n <= |ops|
  {
    if n == 0 then 0 else HitsTo(ops, i, a, n - 1) + if Pos(ops, i, n - 1) == a then TargetsBehind(ops[n - 1], i) else 0
  }

  lemma {:induction false} HitsCounted(ops: seq<Op>, i: nat, a: nat, n: nat)
    requires n <= |ops|
    ensures Hits(Shifted(ops, i, TableOf(ops[..n])), a, i) == HitsTo(ops, i, a, n)
    decreases n
  {
    hide Pos, TargetsBehind, EntriesOf;
    if n > 0 {
      hide Hits;
      var front, es := TableOf(ops[..n - 1]), EntriesOf(ops[n - 1], n - 1);
      assert ops[..n][..n - 1] == ops[..n - 1];
      assert Shifted(ops, i, front + es) == Shifted(ops, i, front) + Shifted(ops, i, es);
      HitsConcat(Shifted(ops, i, front), Shifted(ops, i, es), a, i);
      EntriesHits(ops, i, ops[n - 1], n - 1, a);
      HitsCounted(ops, i, a, n - 1);
    }
  }

  /** An instruction that is still there when `i` is removed. */
  predicate There(ops: seq<Op>, i: nat, p: nat) { p < |ops| && (p <= i || !Removable(ops, p)) }

  /** In front of an instruction only removed ones can have its position. */
  lemma {:induction false} HitsBefore(ops: seq<Op>, i: nat, p: nat, n: nat)
    requires n <= p < |ops|
    ensures !Inherits(ops, p, i) ==> HitsTo(ops, i, Pos(ops, i, p), n) == 0
    ensures forall r :: 0 <= r < n && AllGone(ops, i, r, p) && TargetsBehind(ops[r], i) > 0 ==>
      HitsTo(ops, i, Pos(ops, i, p), n) > 0
    decreases n
  {
    hide Pos, TargetsBehind, Removable;
    if n > 0 {
      HitsBefore(ops, i, p, n - 1);
      PosSame(ops, i, n - 1, p);
    }
  }

  /** The entries at an instruction when `i` is removed are its own and those that it inherits. */
  lemma {:induction false} HitsThere(ops: seq<Op>, i: nat, p: nat, n: nat)
    requires There(ops, i, p) && p < n <= |ops|
    ensures !Inherits(ops, p, i) ==> HitsTo(ops, i, Pos(ops, i, p), n) == TargetsBehind(ops[p], i)
    ensures Inherits(ops, p, i) ==> HitsTo(ops, i, Pos(ops, i, p), n) > TargetsBehind(ops[p], i)
    decreases n
  {
    hide Pos, TargetsBehind, Removable, HitsTo;
    HitsToNext(ops, i, Pos(ops, i, p), n);
    if n == p + 1 {
      HitsBefore(ops, i, p, p);
    } else {
      HitsThere(ops, i, p, n - 1);
      PosSame(ops, i, p, n - 1);
      if AllGone(ops, i, p, n - 1) {
        AllGoneFirst(ops, i, p, n - 1);
      }
    }
  }

  lemma HitsToNext(ops: seq<Op>, i: nat, a: nat, n: nat)
    requires 0 < n <= |ops|
    ensures HitsTo(ops, i, a, n) ==
      HitsTo(ops, i, a, n - 1) + if Pos(ops, i, n - 1) == a then TargetsBehind(ops[n - 1], i) else 0
  {
  }

  lemma {:induction false} HitsAre(ops: seq<Op>, i: nat, p: nat)
    requires There(ops, i, p)
    ensures var h := Hits(Shifted(ops, i, TableOf(ops)), Pos(ops, i, p), i);
      if Inherits(ops, p, i) then h > TargetsBehind(ops[p], i) else h == TargetsBehind(ops[p], i)
  {
    hide Pos, TargetsBehind, Removable, HitsTo, Hits, Inherits, TableOf;
    HitsCounted(ops, i, Pos(ops, i, p), |ops|);
    assert ops[..|ops|] == ops;
    HitsThere(ops, i, p, |ops|);
  }

  // ---------------------------------------------------------------- one removal

  function Lowered(op: Op, i: nat, h: nat): Op {
    if h == 0 then op else Lower(Lowered(op, i, h - 1), i)
  }

  /** A sweep lowers every instruction as often as it has entries; it underflows if a jump has more than
      its target allows. */
  lemma {:induction false} SweptIs(ops: seq<Op>, table: seq<(nat, nat)>, i: nat)
    requires TableFits(table, |ops|)
    ensures forall p :: 0 <= p < |ops| ==> Swept(ops, table, i).0[p] == Lowered(ops[p], i, Hits(table, p, i))
    ensures Swept(ops, table, i).1 <==> exists p :: 0 <= p < |ops| && ops[p].Jump? && ops[p].l < Hits(table, p, i)
    decreases |table|
  {
    if table != [] {
      var front := table[..|table| - 1];
      var (to, from) := table[|table| - 1];
      SweptIs(ops, front, i);
      var (before, underflow) := Swept(ops, front, i);
      var h := Hits(front, from, i);
      if ops[from].Jump? { LoweredJump(ops[from].l, i, h); } else { LoweredKind(ops[from], i, h); }
      assert before[from] == Jump(0) <==> ops[from].Jump? && ops[from].l <= h;
      if to > i {
        assert Hits(table, from, i) == h + 1;
        assert forall p :: 0 <= p < |ops| && p != from ==> Hits(table, p, i) == Hits(front, p, i);
        if p :| 0 <= p < |ops| && ops[p].Jump? && ops[p].l < Hits(front, p, i) {
          assert ops[p].l < Hits(table, p, i);
        }
      } else {
        assert forall p :: 0 <= p < |ops| ==> Hits(table, p, i) == Hits(front, p, i);
      }
    }
  }

  lemma {:induction false} LoweredJump(x: nat, i: nat, h: nat)
    ensures Lowered(Jump(x), i, h) == Jump(if h < x then x - h else 0)
  {
    if h > 0 {
      LoweredJump(x, i, h - 1);
    }
  }

  /** The first target is lowered down to `i`, and then the second. */
  lemma {:induction false} LoweredSplit(x: nat, y: nat, i: nat, h: nat)
    ensures var a := Min(h, SaturatingSub(x, i));
      Lowered(Split(x, y), i, h) == Split(x - a, y - Min(h - a, SaturatingSub(y, i)))
  {
    if h > 0 {
      LoweredSplit(x, y, i, h - 1);
    }
  }

  lemma {:induction false} LoweredKind(op: Op, i: nat, h: nat)
    ensures SameKind(Lowered(op, i, h), op)
  {
    if h > 0 {
      LoweredKind(op, i, h - 1);
    }
  }

  predicate SameKind(x: Op, y: Op) {
    (x.Jump? <==> y.Jump?) && (x.Split? <==> y.Split?) && (!x.Jump? && !x.Split? ==> x == y)
  }

  /** Some target of `c` is too low, and was lowered behind `i`: the first, or the second alone. */
  predicate TooLow(c: Op, a: Op, i: nat) {
    || (c.Jump? && a.Jump? && c.l < a.l)
    || (c.Split? && a.Split? && ((i < c.l1 < a.l1) || (c.l1 == a.l1 && i < c.l2 < a.l2)))
  }

  /** What one removal does to an instruction with right targets, and to one with too low ones. */
  lemma {:induction false} OneRemoval(ops: seq<Op>, i: nat, p: nat, c: Op, h: nat)
    requires 0 < i && Removable(ops, i) && p < |ops|
    requires if Inherits(ops, p, i) then h > TargetsBehind(ops[p], i) else h == TargetsBehind(ops[p], i)
    ensures var a, b, d := Readdressed(ops, i, ops[p]), Readdressed(ops, i - 1, ops[p]), Lowered(c, i, h);
      && (c == a && RightAt(ops, p, i) ==> d == b && (c.Jump? ==> h <= c.l))
      && (c == a && !RightAt(ops, p, i) ==> TooLow(d, b, i - 1) || (c.Jump? && c.l < h))
      && (TooLow(c, a, i) ==> TooLow(d, b, i - 1) || (c.Jump? && c.l < h))
  {
    hide Inherits, Removable, Lowered, Pos;
    match ops[p] {
      case Jump(l) =>
        GoneStep(ops, i, l);
        PosBehind(ops, i, l);
        if c.Jump? { LoweredJump(c.l, i, h); }
      case Split(l1, l2) =>
        GoneStep(ops, i, l1);
        GoneStep(ops, i, l2);
        PosBehind(ops, i, l1);
        PosBehind(ops, i, l2);
        if c.Split? { LoweredSplit(c.l1, c.l2, i, h); }
      case _ =>
        LoweredKind(c, i, h);
    }
  }

  lemma PosBehind(ops: seq<Op>, i: nat, q: nat)
    ensures Pos(ops, i, q) > i <==> q > i
  {
  }

  // ---------------------------------------------------------------- the whole pass

  /** What the pass keeps when all removable instructions behind `i` are removed: lengths, the table, and
      the kinds of the instructions that it has not reached. */
  predicate InPass(ops: seq<Op>, cur: seq<Op>, i: nat)
    requires ops != []
  {
    && i <= LastRemovable(ops) && |cur| == Pos(ops, i, |ops|)
    && forall q :: 0 <= q <= i ==> q < |cur| && SameKind(cur[q], ops[q])
  }

  function TableAt(ops: seq<Op>, i: nat): seq<(nat, nat)> { Shifted(ops, i, TableOf(ops)) }

  lemma TableAtFits(ops: seq<Op>, i: nat)
    requires ops != []
    ensures TableFits(TableAt(ops, i), Pos(ops, i, |ops|))
  {
    hide Pos, TableOf;
    TableWithin(ops);
    NotLast(ops);
    PosNext(ops, i, |ops| - 1);
    forall k | 0 <= k < |TableOf(ops)|
      ensures Pos(ops, i, TableOf(ops)[k].1) < Pos(ops, i, |ops|)
    {
      PosMonotone(ops, i, TableOf(ops)[k].1, |ops| - 1);
    }
  }

  lemma NotLast(ops: seq<Op>)
    requires ops != []
    ensures !Removable(ops, |ops| - 1)
  {
  }

  /** The place of an instruction that is there, and the instruction at a place. */
  lemma PlaceOf(ops: seq<Op>, i: nat, p: nat)
    requires There(ops, i, p)
    ensures Pos(ops, i, p) < Pos(ops, i, |ops|)
  {
    hide Pos, Removable;
    PosNext(ops, i, p);
    PosMonotone(ops, i, p + 1, |ops|);
  }

  lemma {:induction false} AtPlace(ops: seq<Op>, i: nat, n: nat, k: nat) returns (p: nat)
    requires n <= |ops| && k < Pos(ops, i, n)
    ensures p < n && There(ops, i, p) && Pos(ops, i, p) == k
    decreases n
  {
    hide Pos, Removable;
    if n == 0 {
      PosNone(ops, i);
    }
    PosNext(ops, i, n - 1);
    if k < Pos(ops, i, n - 1) {
      p := AtPlace(ops, i, n - 1, k);
    } else {
      p := n - 1;
    }
  }

  lemma PosNone(ops: seq<Op>, i: nat)
    ensures Pos(ops, i, 0) == 0
  {
  }

  /** The pass removes what is removable, whatever it has made of the targets so far. */
  lemma {:induction false} SameTest(ops: seq<Op>, cur: seq<Op>, i: nat)
    requires ops != [] && InPass(ops, cur, i) && i > 0
    ensures IsControl(cur[i - 1]) && i !in TargetSet(TableOf(ops)) <==> Removable(ops, i)
  {
    hide Pos, TableOf;
    TargetsTabled(ops, i);
    assert SameKind(cur[i - 1], ops[i - 1]);
  }

  /** The program after one removal. */
  function After(ops: seq<Op>, cur: seq<Op>, i: nat): (seq<Op>, bool)
    requires ops != [] && InPass(ops, cur, i) && i > 0
  {
    TableAtFits(ops, i);
    var (swept, u) := Swept(cur, TableAt(ops, i), i);
    (Without(swept, i), u)
  }

  lemma AfterPlaces(ops: seq<Op>, cur: seq<Op>, i: nat, p: nat)
    requires ops != [] && InPass(ops, cur, i) && i > 0 && Removable(ops, i) && There(ops, i, p) && p != i
    ensures Pos(ops, i, p) < |cur| && Pos(ops, i - 1, p) < |After(ops, cur, i).0|
    ensures After(ops, cur, i).0[Pos(ops, i - 1, p)] ==
      Lowered(cur[Pos(ops, i, p)], i, Hits(TableAt(ops, i), Pos(ops, i, p), i))
  {
    hide TableAt, Removable, Swept, Hits, Lowered;
    TableAtFits(ops, i);
    SweptIs(cur, TableAt(ops, i), i);
    PlaceOf(ops, i, p);
    GoneStep(ops, i, p);
  }

  lemma AfterInPass(ops: seq<Op>, cur: seq<Op>, i: nat)
    requires ops != [] && InPass(ops, cur, i) && i > 0 && Removable(ops, i)
    ensures InPass(ops, After(ops, cur, i).0, i - 1)
    ensures MovedTable(TableAt(ops, i), i) == TableAt(ops, i - 1)
  {
    hide TableOf, Swept, Hits;
    ShiftedStep(ops, i, TableOf(ops));
    GoneStep(ops, i, |ops|);
    TableAtFits(ops, i);
    SweptIs(cur, TableAt(ops, i), i);
    forall q | 0 <= q <= i - 1
      ensures SameKind(After(ops, cur, i).0[q], ops[q])
    {
      LoweredKind(cur[q], i, Hits(TableAt(ops, i), q, i));
    }
  }

  /** There is always an instruction behind the one that the pass looks at. */
  lemma PassBound(ops: seq<Op>, cur: seq<Op>, i: nat)
    requires ops != [] && InPass(ops, cur, i)
    ensures i == 0 || i < |cur| - 1
  {
    hide Removable, Pos;
    NotLast(ops);
    PosNext(ops, i, |ops| - 1);
    PosBehind(ops, i, |ops| - 1);
  }

  /** One round of the pass. */
  lemma PassStep(ops: seq<Op>, cur: seq<Op>, i: nat, u: bool)
    requires ops != [] && InPass(ops, cur, i) && i > 0
    ensures i < |cur| - 1 && TableFits(TableAt(ops, i), |cur|)
    ensures var jumps := TargetSet(TableOf(ops));
      if Removable(ops, i) then
        var (next, v) := After(ops, cur, i);
        && InPass(ops, next, i - 1) && TableFits(TableAt(ops, i - 1), |next|)
        && (i - 1 == 0 || i - 1 < |next| - 1)
        && StripFrom(cur, TableAt(ops, i), jumps, i, u) == StripFrom(next, TableAt(ops, i - 1), jumps, i - 1, u || v)
      else
        && InPass(ops, cur, i - 1) && TableAt(ops, i) == TableAt(ops, i - 1)
        && StripFrom(cur, TableAt(ops, i), jumps, i, u) == StripFrom(cur, TableAt(ops, i - 1), jumps, i - 1, u)
  {
    hide TableOf, Swept, Removable, Shifted, Pos;
    SameTest(ops, cur, i);
    TableAtFits(ops, i);
    TableAtFits(ops, i - 1);
    PassBound(ops, cur, i);
    if Removable(ops, i) {
      AfterInPass(ops, cur, i);
      PassBound(ops, After(ops, cur, i).0, i - 1);
    } else {
      ShiftedStep(ops, i, TableOf(ops));
      GoneStep(ops, i, |ops|);
    }
  }

  /** Instruction `p` is as it should be when all removable ones behind `i` are removed. */
  predicate Fine(ops: seq<Op>, cur: seq<Op>, i: nat, p: nat) {
    p < |ops| && Pos(ops, i, p) < |cur| && cur[Pos(ops, i, p)] == Readdressed(ops, i, ops[p])
  }

  predicate Spoilt(ops: seq<Op>, cur: seq<Op>, i: nat, p: nat) {
    p < |ops| && Pos(ops, i, p) < |cur| && TooLow(cur[Pos(ops, i, p)], Readdressed(ops, i, ops[p]), i)
  }

  /** One removal keeps a fine instruction fine if it lowers its targets rightly, and spoils it if not; a spoilt
      one stays spoilt. */
  lemma AfterOne(ops: seq<Op>, cur: seq<Op>, i: nat, p: nat)
    requires ops != [] && InPass(ops, cur, i) && i > 0 && Removable(ops, i) && There(ops, i, p) && p != i
    ensures var (next, u) := After(ops, cur, i);
      && (Fine(ops, cur, i, p) && RightAt(ops, p, i) ==> Fine(ops, next, i - 1, p))
      && (Fine(ops, cur, i, p) && !RightAt(ops, p, i) ==> Spoilt(ops, next, i - 1, p) || u)
      && (Spoilt(ops, cur, i, p) ==> Spoilt(ops, next, i - 1, p) || u)
  {
    hide TableOf, Swept, Removable, Shifted, Hits, Pos, Lowered, RightAt, TooLow, Readdressed, Inherits, After,
      TargetsBehind;
    AfterPlaces(ops, cur, i, p);
    HitsAre(ops, i, p);
    var a := Pos(ops, i, p);
    var h := Hits(TableAt(ops, i), a, i);
    OneRemoval(ops, i, p, cur[a], h);
    UnderflowIs(ops, cur, i, a);
  }

  lemma {:induction false} UnderflowIs(ops: seq<Op>, cur: seq<Op>, i: nat, a: nat)
    requires ops != [] && InPass(ops, cur, i) && i > 0 && a < |cur|
    ensures cur[a].Jump? && cur[a].l < Hits(TableAt(ops, i), a, i) ==> After(ops, cur, i).1
  {
    hide TableAt, Hits, Swept;
    TableAtFits(ops, i);
    SweptIs(cur, TableAt(ops, i), i);
  }

  // ---------------------------------------------------------------- the pass, if it is right

  /** All instructions that will be kept are fine, and so are the jumps. */
  predicate AllFine(ops: seq<Op>, cur: seq<Op>, i: nat) {
    forall p :: 0 <= p < |ops| && There(ops, i, p) && (Kept(ops, p) || ops[p].Jump?) ==> Fine(ops, cur, i, p)
  }

  lemma NothingInherited(ops: seq<Op>, i: nat, p: nat)
    requires p <= i && p < |ops|
    ensures !Inherits(ops, p, i)
  {
    forall r | 0 <= r < p
      ensures !AllGone(ops, i, r, p)
    {
    }
  }

  lemma RightThere(ops: seq<Op>, i: nat, p: nat)
    requires StripsRightly(ops) && Removable(ops, i) && There(ops, i, p) && (Kept(ops, p) || ops[p].Jump?)
    ensures RightAt(ops, p, i)
  {
    hide Inherits;
    if !Kept(ops, p) {
      NothingInherited(ops, i, p);
    }
  }

  lemma AfterAllFine(ops: seq<Op>, cur: seq<Op>, i: nat)
    requires ops != [] && InPass(ops, cur, i) && i > 0 && Removable(ops, i) && StripsRightly(ops) &&
      AllFine(ops, cur, i)
    ensures AllFine(ops, After(ops, cur, i).0, i - 1)
  {
    hide StripsRightly, RightAt, Fine, Removable, After, InPass;
    forall p | 0 <= p < |ops| && There(ops, i - 1, p) && (Kept(ops, p) || ops[p].Jump?)
      ensures Fine(ops, After(ops, cur, i).0, i - 1, p)
    {
      RightThere(ops, i, p);
      AfterOne(ops, cur, i, p);
    }
  }

  lemma NoUnderflow(ops: seq<Op>, cur: seq<Op>, i: nat)
    requires ops != [] && InPass(ops, cur, i) && i > 0 && Removable(ops, i) && StripsRightly(ops) &&
      AllFine(ops, cur, i)
    ensures !After(ops, cur, i).1
  {
    hide StripsRightly, RightAt, Removable, Hits, TableAt, Swept, Lowered, Inherits;
    TableAtFits(ops, i);
    SweptIs(cur, TableAt(ops, i), i);
    forall a | 0 <= a < |cur| && cur[a].Jump?
      ensures cur[a].l >= Hits(TableAt(ops, i), a, i)
    {
      var p := AtPlace(ops, i, |ops|, a);
      EnoughLeft(ops, cur, i, p);
    }
  }

  lemma {:induction false} EnoughLeft(ops: seq<Op>, cur: seq<Op>, i: nat, p: nat)
    requires ops != [] && InPass(ops, cur, i) && i > 0 && Removable(ops, i) && StripsRightly(ops) &&
      AllFine(ops, cur, i)
    requires There(ops, i, p) && Pos(ops, i, p) < |cur| && cur[Pos(ops, i, p)].Jump?
    ensures cur[Pos(ops, i, p)].l >= Hits(TableAt(ops, i), Pos(ops, i, p), i)
  {
    hide StripsRightly, RightAt, Removable, Hits, Shifted, Swept, Lowered, Inherits, TargetsBehind;
    var c := cur[Pos(ops, i, p)];
    if p <= i {
      assert SameKind(cur[p], ops[p]);
    }
    assert Kept(ops, p) || ops[p].Jump?;
    assert Fine(ops, cur, i, p);
    RightThere(ops, i, p);
    HitsAre(ops, i, p);
    OneRemoval(ops, i, p, c, Hits(TableAt(ops, i), Pos(ops, i, p), i));
  }

  lemma AllFineSkip(ops: seq<Op>, cur: seq<Op>, i: nat)
    requires i > 0 && !Removable(ops, i) && AllFine(ops, cur, i)
    ensures AllFine(ops, cur, i - 1)
  {
    hide Removable;
    forall p | 0 <= p < |ops| && There(ops, i - 1, p) && (Kept(ops, p) || ops[p].Jump?)
      ensures Fine(ops, cur, i - 1, p)
    {
      SkipStep(ops, i, p);
    }
  }

  lemma SkipStep(ops: seq<Op>, i: nat, p: nat)
    requires i > 0 && !Removable(ops, i) && p < |ops|
    ensures Pos(ops, i - 1, p) == Pos(ops, i, p) && Readdressed(ops, i - 1, ops[p]) == Readdressed(ops, i, ops[p])
  {
    hide Removable, Pos;
    GoneStep(ops, i, p);
    match ops[p] {
      case Jump(l) => GoneStep(ops, i, l);
      case Split(l1, l2) =>
        GoneStep(ops, i, l1);
        GoneStep(ops, i, l2);
      case _ =>
    }
  }

  lemma {:induction false} PassRight(ops: seq<Op>, cur: seq<Op>, i: nat)
    requires ops != [] && InPass(ops, cur, i) && StripsRightly(ops) && AllFine(ops, cur, i)
    ensures (i == 0 || i < |cur| - 1) && TableFits(TableAt(ops, i), |cur|)
    ensures StripFrom(cur, TableAt(ops, i), TargetSet(TableOf(ops)), i, false) == (CutOut(ops), false)
    decreases i
  {
    hide InPass, StripsRightly, AllFine, TableOf, Removable, Pos, After, Swept, Shifted, CutOut, StripFrom;
    if i == 0 {
      PassEnd(ops, cur);
      TableAtFits(ops, 0);
      InPassLen(ops, cur, 0);
      StripNone(cur, TableAt(ops, 0), TargetSet(TableOf(ops)), false);
    } else {
      PassStep(ops, cur, i, false);
      if Removable(ops, i) {
        AfterAllFine(ops, cur, i);
        NoUnderflow(ops, cur, i);
        PassRight(ops, After(ops, cur, i).0, i - 1);
      } else {
        AllFineSkip(ops, cur, i);
        PassRight(ops, cur, i - 1);
      }
    }
  }

  lemma InPassLen(ops: seq<Op>, cur: seq<Op>, i: nat)
    requires ops != [] && InPass(ops, cur, i)
    ensures |cur| == Pos(ops, i, |ops|)
  {
  }

  lemma {:induction false} StripNone(cur: seq<Op>, table: seq<(nat, nat)>, jumps: set<nat>, u: bool)
    ensures StripFrom(cur, table, jumps, 0, u) == (cur, u)
  {
  }

  /** In the end everything that is left is as it should be. */
  lemma PassEnd(ops: seq<Op>, cur: seq<Op>)
    requires ops != [] && InPass(ops, cur, 0) && AllFine(ops, cur, 0)
    ensures cur == CutOut(ops)
  {
    hide Pos, Removable, Readdressed, CutTo;
    CutToLen(ops, |ops|);
    forall k | 0 <= k < |cur|
      ensures cur[k] == CutOut(ops)[k]
    {
      var p := AtPlace(ops, 0, |ops|, k);
      NotFirst(ops);
      CutToAt(ops, |ops|, p);
    }
  }

  // ---------------------------------------------------------------- the pass, if it is wrong somewhere

  /** A spoilt instruction stays spoilt to the end, unless a target underflows; and a fine one that is
      lowered wrongly at `j` gets spoilt. */
  lemma {:induction false} PassWrong(ops: seq<Op>, cur: seq<Op>, i: nat, p: nat, j: nat, u: bool)
    requires ops != [] && InPass(ops, cur, i) && Kept(ops, p)
    requires u || Spoilt(ops, cur, i, p) ||
      (Fine(ops, cur, i, p) && 0 < j <= i && Removable(ops, j) && !RightAt(ops, p, j))
    ensures (i == 0 || i < |cur| - 1) && TableFits(TableAt(ops, i), |cur|)
    ensures var (end, v) := StripFrom(cur, TableAt(ops, i), TargetSet(TableOf(ops)), i, u); v || Spoilt(ops, end, 0, p)
    decreases i
  {
    hide InPass, TableOf, Removable, Pos, After, Swept, Shifted, StripFrom, RightAt, Fine, Spoilt;
    if i == 0 {
      TableAtFits(ops, 0);
      InPassLen(ops, cur, 0);
      StripNone(cur, TableAt(ops, 0), TargetSet(TableOf(ops)), u);
    } else {
      PassStep(ops, cur, i, u);
      if Removable(ops, i) {
        var (next, v) := After(ops, cur, i);
        AfterOne(ops, cur, i, p);
        PassWrong(ops, next, i - 1, p, j, u || v);
      } else {
        SpoiltSkip(ops, cur, i, p);
        PassWrong(ops, cur, i - 1, p, j, u);
      }
    }
  }

  lemma SpoiltSkip(ops: seq<Op>, cur: seq<Op>, i: nat, p: nat)
    requires i > 0 && !Removable(ops, i) && p < |ops|
    ensures Spoilt(ops, cur, i, p) ==> Spoilt(ops, cur, i - 1, p)
    ensures Fine(ops, cur, i, p) ==> Fine(ops, cur, i - 1, p)
  {
    hide Removable, Pos, Readdressed;
    SkipStep(ops, i, p);
  }

  lemma {:induction false} PassBegin(ops: seq<Op>)
    requires ops != []
    ensures var i := LastRemovable(ops);
      InPass(ops, ops, i) && TableAt(ops, i) == TableOf(ops) && AllFine(ops, ops, i)
  {
    var i := LastRemovable(ops);
    hide Removable, Pos, TableOf;
    ShiftedEnd(ops, i, TableOf(ops));
    GoneEnd(ops, i, |ops|);
    forall p | 0 <= p < |ops|
      ensures Fine(ops, ops, i, p)
    {
      FineBegin(ops, i, p);
    }
  }

  lemma FineBegin(ops: seq<Op>, i: nat, p: nat)
    requires i + 2 >= |ops| && p < |ops|
    ensures Fine(ops, ops, i, p)
  {
    hide Pos;
    GoneEnd(ops, i, p);
    match ops[p] {
      case Jump(l) => GoneEnd(ops, i, l);
      case Split(l1, l2) =>
        GoneEnd(ops, i, l1);
        GoneEnd(ops, i, l2);
      case _ =>
    }
  }

  /** Stripping leaves the program without its removable instructions and with all targets readdressed, and
      underflows nowhere, exactly if every removal lowers the targets of every kept instruction rightly. */
  lemma StrippedRightly(ops: seq<Op>)
    requires ops != []
    ensures Stripped(ops) == (CutOut(ops), false) <==> StripsRightly(ops)
  {
    hide InPass, AllFine, TableOf, CutOut, StripFrom, Spoilt, Fine, RightAt, Removable;
    PassBegin(ops);
    var i := LastRemovable(ops);
    if StripsRightly(ops) {
      PassRight(ops, ops, i);
    } else {
      var j, p :| 0 <= j < |ops| && 0 <= p < |ops| && Removable(ops, j) && Kept(ops, p) && !RightAt(ops, p, j);
      RemovableBound(ops, j);
      assert Fine(ops, ops, i, p) by {
        FineBegin(ops, i, p);
      }
      PassWrong(ops, ops, i, p, j, false);
      SpoiltIsNotCut(ops, p);
    }
  }

  lemma RemovableBound(ops: seq<Op>, j: nat)
    requires ops != [] && Removable(ops, j)
    ensures 0 < j <= LastRemovable(ops)
  {
  }

  lemma SpoiltIsNotCut(ops: seq<Op>, p: nat)
    requires Kept(ops, p)
    ensures !Spoilt(ops, CutOut(ops), 0, p)
  {
    hide Pos, Removable, CutTo;
    CutToAt(ops, |ops|, p);
  }

  // ---------------------------------------------------------------- the language without removable instructions

  /** The same state in the program without the removable instructions. */
  function CutState(ops: seq<Op>, t: State): State { State(Pos(ops, 0, t.pc), t.conf) }

  /** Nothing that is kept leads to a removable instruction, and every step has its counterpart. */
  lemma CutStep(ops: seq<Op>, w: Input, t: State, u: State)
    requires Kept(ops, t.pc) && u in Steps(ops[t.pc], w, t)
    ensures !Removable(ops, u.pc)
    ensures CutState(ops, u) in Steps(Readdressed(ops, 0, ops[t.pc]), w, CutState(ops, t))
  {
    hide Pos;
    NextKept(ops, t.pc);
    assert !Targets(ops[t.pc], u.pc) || !Removable(ops, u.pc);
  }

  lemma CutStepBack(ops: seq<Op>, w: Input, t: State, v: State) returns (u: State)
    requires Kept(ops, t.pc) && v in Steps(Readdressed(ops, 0, ops[t.pc]), w, CutState(ops, t))
    ensures u in Steps(ops[t.pc], w, t) && v == CutState(ops, u)
  {
    hide Pos, Removable;
    NextKept(ops, t.pc);
    match ops[t.pc]
    case Jump(l) => u := State(l, v.conf);
    case Split(l1, l2) => u := State(if v.pc == Pos(ops, 0, l1) then l1 else l2, v.conf);
    case Match => u := v;
    case _ => u := State(t.pc + 1, v.conf);
  }

  lemma NextKept(ops: seq<Op>, pc: nat)
    requires Kept(ops, pc)
    ensures Pos(ops, 0, pc + 1) == Pos(ops, 0, pc) + 1
    ensures !IsControl(ops[pc]) ==> !Removable(ops, pc + 1)
  {
    NotFirst(ops);
    PosNext(ops, 0, pc);
  }

  lemma {:induction false} CutAccepts(ops: seq<Op>, w: Input, t: State, y: Conf, n: nat)
    requires !Removable(ops, t.pc)
    ensures AcceptsIn(CutOut(ops), w, CutState(ops, t), y, n) <==> AcceptsIn(ops, w, t, y, n)
    decreases n
  {
    hide Pos, Removable, CutTo, Readdressed, AcceptsIn, Steps;
    var cut, t' := CutOut(ops), CutState(ops, t);
    if t.pc >= |ops| {
      CutToLen(ops, |ops|);
      PosMonotone(ops, 0, |ops|, t.pc);
      AcceptsInside(ops, w, t, y, n);
      AcceptsInside(cut, w, t', y, n);
    } else {
      CutToAt(ops, |ops|, t.pc);
      ReaddressedKind(ops, 0, ops[t.pc]);
      if ops[t.pc].Match? {
        AcceptsInMatch(ops, w, t, y, n);
        AcceptsInMatch(cut, w, t', y, n);
      } else {
        if AcceptsIn(ops, w, t, y, n) {
          var u := AcceptsInHead(ops, w, t, y, n);
          CutStep(ops, w, t, u);
          CutAccepts(ops, w, u, y, n - 1);
          AcceptsInFrom(cut, w, t', CutState(ops, u), y, n);
        }
        if AcceptsIn(cut, w, t', y, n) {
          var v := AcceptsInHead(cut, w, t', y, n);
          var u := CutStepBack(ops, w, t, v);
          CutStep(ops, w, t, u);
          CutAccepts(ops, w, u, y, n - 1);
          AcceptsInFrom(ops, w, t, u, y, n);
        }
      }
    }
  }

  lemma ReaddressedKind(ops: seq<Op>, i: nat, op: Op)
    ensures Readdressed(ops, i, op).Match? <==> op.Match?
  {
  }

  lemma {:induction false} AcceptsInside(prog: seq<Op>, w: Input, t: State, y: Conf, n: nat)
    ensures AcceptsIn(prog, w, t, y, n) ==> t.pc < |prog|
  {
  }

  /** Removing what nothing leads to keeps what is accepted from every instruction that stays. */
  lemma CutKeepsLanguage(ops: seq<Op>, w: Input, t: State, y: Conf)
    requires !Removable(ops, t.pc)
    ensures Accepts(CutOut(ops), w, CutState(ops, t), y) <==> Accepts(ops, w, t, y)
  {
    hide AcceptsIn, CutOut, Removable, CutState;
    forall n: nat
      ensures AcceptsIn(CutOut(ops), w, CutState(ops, t), y, n) <==> AcceptsIn(ops, w, t, y, n)
    {
      CutAccepts(ops, w, t, y, n);
    }
  }

  /** If every removal lowers targets rightly, stripping keeps what is accepted from every instruction that stays. */
  lemma StrippingKeepsLanguage(ops: seq<Op>, w: Input, t: State, y: Conf)
    requires ops != [] && StripsRightly(ops) && !Removable(ops, t.pc)
    ensures Accepts(Stripped(ops).0, w, CutState(ops, t), y) <==> Accepts(ops, w, t, y)
  {
    hide Accepts, Stripped, StripsRightly, CutOut, Removable, CutState;
    StrippedRightly(ops);
    CutKeepsLanguage(ops, w, t, y);
  }

  lemma StrippingKeepsSpans(ops: seq<Op>, w: Input, rev: bool, start: nat, i: nat, j: nat)
    requires ops != [] && StripsRightly(ops)
    ensures Finds(Stripped(ops).0, w, rev, start, i, j) <==> Finds(ops, w, rev, start, i, j)
  {
    hide Accepts, Stripped, StripsRightly, Pos, Removable;
    var t := State(0, Conf(start, map[]));
    NotFirst(ops);
    PosNone(ops, 0);
    forall y: Conf
      ensures Accepts(Stripped(ops).0, w, t, y) <==> Accepts(ops, w, t, y)
    {
      StrippingKeepsLanguage(ops, w, t, y);
    }
  }

  // ---------------------------------------------------------------- compiling and optimising

  lemma SameFinds(p: seq<Op>, q: seq<Op>, w: Input, rev: bool, start: nat, i: nat, j: nat)
    requires SameLanguage(p, q)
    ensures Finds(p, w, rev, start, i, j) <==> Finds(q, w, rev, start, i, j)
  {
    hide Accepts;
  }

  lemma {:induction false} ProgramInlinable(a: Ast, rev: bool)
    requires WellFormed(a)
    ensures Program(a, rev) != [] && Inlinable(Program(a, rev))
  {
    hide Program, WellFormed;
    ProgramShape(a, rev);
  }

  /** optimise: inlining always keeps what a search finds, and stripping does so if it goes right. */
  method Optimise(program: seq<Op>) returns (ops: seq<Op>, underflow: bool)
    requires program != [] && Inlinable(program)
    ensures (ops, underflow) == Stripped(AllInlined(program))
    ensures forall w: Input, rev: bool, start: nat, i: nat, j: nat ::
      Finds(AllInlined(program), w, rev, start, i, j) <==> Finds(program, w, rev, start, i, j)
    ensures StripsRightly(AllInlined(program)) ==>
      !underflow && forall w: Input, rev: bool, start: nat, i: nat, j: nat ::
      Finds(ops, w, rev, start, i, j) <==> Finds(program, w, rev, start, i, j)
  {
    hide SameLanguage, Inlinable, InlinedOp, Stripped, StripsRightly, Finds, CutOut;
    var buffer := new Op[|program|](i requires 0 <= i < |program| => program[i]);
    assert buffer[..] == program;
    InlineAll(buffer);
    ghost var inlined := AllInlined(program);
    ops, underflow := StripUnreachable(buffer[..]);
    forall w: Input, rev: bool, start: nat, i: nat, j: nat
      ensures Finds(inlined, w, rev, start, i, j) <==> Finds(program, w, rev, start, i, j)
      ensures StripsRightly(inlined) ==> (Finds(ops, w, rev, start, i, j) <==> Finds(program, w, rev, start, i, j))
    {
      SameFinds(program, inlined, w, rev, start, i, j);
      if StripsRightly(inlined) {
        StrippingKeepsSpans(inlined, w, rev, start, i, j);
      }
    }
  }

  /** The expression in the direction in which it is searched for. */
  function Directed(a: Ast, reverse: bool): Ast { if reverse then ReverseAst(a) else a }

  /** The program finds exactly the matches of the expression. */
  ghost predicate FindsMatches(prog: seq<Op>, a: Ast, rev: bool) {
    forall w: Input, start: nat, i: nat, j: nat ::
      Finds(prog, w, rev, start, i, j) <==> Unanchored(w, start, i) && Matches(a, w, i, j)
  }

  /** compile_ast and optimise: after inlining a search finds exactly the matches of the expression, and after
      stripping it still does if stripping goes right. */
  method CompileOptimised(ast: Ast, reverse: bool) returns (ops: seq<Op>, underflow: bool)
    requires WellFormed(ast)
    ensures var a := Directed(ast, reverse);
      WellFormed(a) && Program(a, reverse) != [] && Inlinable(Program(a, reverse))
    ensures var a := Directed(ast, reverse);
      var inlined := AllInlined(Program(a, reverse));
      && (ops, underflow) == Stripped(inlined) && FindsMatches(inlined, a, reverse)
      && (StripsRightly(inlined) ==> !underflow && FindsMatches(ops, a, reverse))
  {
    hide SameLanguage, Inlinable, Stripped, StripsRightly, Finds, Program, Matches, Unanchored, WellFormed;
    var program, nSubmatches, names := CompileAst(ast, reverse);
    ghost var a := Directed(ast, reverse);
    if reverse {
      ReverseWellFormed(ast);
    }
    ProgramInlinable(a, reverse);
    ops, underflow := Optimise(program);
    forall w: Input, start: nat, i: nat, j: nat
      ensures Finds(program, w, reverse, start, i, j) <==> Unanchored(w, start, i) && Matches(a, w, i, j)
    {
      SpanCorrect(a, w, reverse, start, i, j);
    }
  }

  /** A program finds the matches of two expressions exactly if these are the same. */
  lemma FindsBoth(prog: seq<Op>, a: Ast, b: Ast, rev: bool)
    requires FindsMatches(prog, b, rev)
    ensures FindsMatches(prog, a, rev) <==> SameMatches(b, a)
  {
    hide Finds, Matches;
    if FindsMatches(prog, a, rev) {
      forall w: Input, i: nat, j: nat
        ensures Matches(b, w, i, j) <==> Matches(a, w, i, j)
      {
        assert Unanchored(w, i, i);
        assert Finds(prog, w, rev, i, i, j) <==> Matches(b, w, i, j);
      }
    }
  }

  /** A whole compilation behind the parser, where the expression is optimised first: the program finds exactly
      the matches of the expression that was parsed if a class at its root is replaced by an equal one, and,
      once it is stripped, if stripping goes right too. */
  method Compile(parsed: Ast, reverse: bool) returns (ops: seq<Op>, underflow: bool)
    requires WellFormed(parsed)
    ensures var b := Directed(OptimisedAst(parsed), reverse);
      WellFormed(b) && Program(b, reverse) != [] && Inlinable(Program(b, reverse))
    ensures var inlined := AllInlined(Program(Directed(OptimisedAst(parsed), reverse), reverse));
      var a := Directed(parsed, reverse);
      && (ops, underflow) == Stripped(inlined)
      && (FindsMatches(inlined, a, reverse) <==> (parsed.AComp? ==> Replaceable(parsed.comp)))
      && (FindsMatches(inlined, a, reverse) && StripsRightly(inlined) ==> !underflow && FindsMatches(ops, a, reverse))
  {
    hide Inlinable, Stripped, StripsRightly, FindsMatches, Program, Matches, WellFormed, OptimisedAst, Replaceable,
      SameMatches;
    var ast := OptimiseAst(parsed);
    OptimisedWellFormed(parsed);
    ops, underflow := CompileOptimised(ast, reverse);
    ghost var a, b := Directed(parsed, reverse), Directed(ast, reverse);
    ghost var inlined := AllInlined(Program(b, reverse));
    OptimisedReverse(parsed);
    OptimisedLanguage(a);
    FindsBoth(inlined, a, b, reverse);
    if StripsRightly(inlined) {
      FindsBoth(ops, a, b, reverse);
    }
  }

  // ---------------------------------------------------------------- a program with one removable instruction

  /** Every instruction lowered once for each of its targets behind `i`. */
  function OnceSwept(ops: seq<Op>, i: nat): (r: seq<Op>)
    ensures |r| == |ops| && forall p :: 0 <= p < |ops| ==> r[p] == Lowered(ops[p], i, TargetsBehind(ops[p], i))
  {
    seq(|ops|, p requires 0 <= p < |ops| => Lowered(ops[p], i, TargetsBehind(ops[p], i)))
  }

  lemma {:induction false} SkipTo(ops: seq<Op>, cur: seq<Op>, i: nat, j: nat, u: bool)
    requires ops != [] && InPass(ops, cur, i) && j <= i && forall k :: j < k <= i ==> !Removable(ops, k)
    ensures InPass(ops, cur, j) && TableAt(ops, i) == TableAt(ops, j)
    ensures (i == 0 || i < |cur| - 1) && (j == 0 || j < |cur| - 1) && TableFits(TableAt(ops, i), |cur|)
    ensures var jumps := TargetSet(TableOf(ops));
      StripFrom(cur, TableAt(ops, i), jumps, i, u) == StripFrom(cur, TableAt(ops, j), jumps, j, u)
    decreases i
  {
    hide InPass, TableOf, Removable, Pos, After, Swept, Shifted, StripFrom;
    if j < i {
      PassStep(ops, cur, i, u);
      SkipTo(ops, cur, i - 1, j, u);
    } else {
      TableAtFits(ops, i);
      InPassLen(ops, cur, i);
      PassBound(ops, cur, i);
    }
  }

  /** With one removable instruction the pass removes that one, and lowers every instruction once for each
      of its targets behind it. */
  lemma StripsOne(ops: seq<Op>, i: nat)
    requires ops != [] && Removable(ops, i) && forall k :: Removable(ops, k) ==> k == i
    ensures Stripped(ops) == (Without(OnceSwept(ops, i), i), false)
  {
    hide InPass, TableOf, Removable, Pos, Swept, Shifted, StripFrom, After, AllFine, Without;
    RemovableBound(ops, i);
    PassBegin(ops);
    SkipTo(ops, ops, LastRemovable(ops), i, false);
    PassStep(ops, ops, i, false);
    AfterOnly(ops, i);
    var (next, u) := After(ops, ops, i);
    SkipTo(ops, next, i - 1, 0, u);
    StripNone(next, TableAt(ops, 0), TargetSet(TableOf(ops)), u);
  }

  lemma AfterOnly(ops: seq<Op>, i: nat)
    requires ops != [] && InPass(ops, ops, i) && i > 0 && forall k :: Removable(ops, k) <==> k == i
    ensures After(ops, ops, i) == (Without(OnceSwept(ops, i), i), false)
  {
    hide TableOf, Swept, Hits, Shifted, InPass, Lowered;
    TableAtFits(ops, i);
    InPassLen(ops, ops, i);
    SweptIs(ops, TableAt(ops, i), i);
    forall p | 0 <= p < |ops|
      ensures Hits(TableAt(ops, i), p, i) == TargetsBehind(ops[p], i)
    {
      HitsAre(ops, i, p);
      NoneInherited(ops, i, p);
      NoneGone(ops, i, p);
    }
    assert Swept(ops, TableAt(ops, i), i).0 == OnceSwept(ops, i);
  }

  lemma {:induction false} NoneGone(ops: seq<Op>, i: nat, q: nat)
    requires forall k :: k > i ==> !Removable(ops, k)
    ensures Pos(ops, i, q) == q
    decreases q
  {
    hide Removable;
    if q > i + 1 {
      NoneGone(ops, i, q - 1);
    }
  }

  lemma NoneInherited(ops: seq<Op>, i: nat, p: nat)
    requires p < |ops| && forall k :: k > i ==> !Removable(ops, k)
    ensures !Inherits(ops, p, i)
  {
    hide Removable;
    forall r | 0 <= r < p
      ensures !AllGone(ops, i, r, p)
    {
    }
  }

  // ---------------------------------------------------------------- a program that stripping breaks

  function One(c: char): Ast { AComp(Char(c)) }

  /** The expression `a+|bc?d`. */
  function Sample(): Ast {
    Alt([SamplePlus(), SampleCat()])
  }

  function SampleFront(): seq<Op> { [Split(3, 1), OComp(TrueAny), Split(3, 1), Save(0)] }

  function SampleProgram(): seq<Op> {
    SampleFront() + [Split(5, 8), OComp(Char('a')), Split(5, 7), Jump(12), OComp(Char('b')), Split(10, 11),
                     OComp(Char('c')), OComp(Char('d')), Save(1), Match]
  }

  function SampleInlined(): seq<Op> {
    SampleFront() + [Split(5, 8), OComp(Char('a')), Split(5, 12), Jump(12), OComp(Char('b')), Split(10, 11),
                     OComp(Char('c')), OComp(Char('d')), Save(1), Match]
  }

  function SampleStripped(): seq<Op> {
    SampleFront() + [Split(5, 7), OComp(Char('a')), Split(5, 11), OComp(Char('b')), Split(8, 11),
                     OComp(Char('c')), OComp(Char('d')), Save(1), Match]
  }

  function TextB(): Input { Input(['b'], (b: Assertion, p: nat) => false) }

  function SampleTail(): seq<Ast> { [ARep(Quest(Greedy), One('c')), One('d')] }

  function SampleCat(): Ast { Concat([One('b')] + SampleTail()) }

  function SamplePlus(): Ast { ARep(Plus(Greedy), One('a')) }

  lemma SampleCatCompiled()
    ensures WellFormed(SampleCat()) && OpLen(SampleCat()) == 4
    ensures Code(SampleCat(), 8, 0, false) == [OComp(Char('b')), Split(10, 11), OComp(Char('c')), OComp(Char('d'))]
  {
    var y, z := ARep(Quest(Greedy), One('c')), One('d');
    assert ([One('b')] + SampleTail())[1..] == [y, z] && [y, z][1..] == [z] && [z][1..] == [];
    assert OpLens([z]) == 1 && OpLens([y, z]) == 3;
    assert CodeAll([z], 11, 0, false) == [OComp(Char('d'))];
    assert CodeAll([y, z], 9, 0, false) == [Split(10, 11), OComp(Char('c')), OComp(Char('d'))];
  }

  lemma SampleCompiled()
    ensures WellFormed(Sample()) && Program(Sample(), false) == SampleProgram()
  {
    var x, cat := SamplePlus(), SampleCat();
    SampleCatCompiled();
    hide SampleCat;
    assert [cat][1..] == [] && [x, cat][1..] == [cat];
    assert OpLens([cat]) == 4 && OpLen(x) == 2 && OpLens([x, cat]) == 6 && OpLen(Sample()) == 8;
    assert CodeAlt([cat], 8, 12, 0, false) == Code(cat, 8, 0, false);
    assert Code(x, 5, 0, false) == [OComp(Char('a')), Split(5, 7)];
    assert Code(Sample(), 4, 0, false) == CodeAlt([x, cat], 4, 12, 0, false);
  }

  /** The only rewrite in the program is that of its instruction 6. */
  lemma SampleIsInlined()
    ensures Inlinable(SampleProgram()) && AllInlined(SampleProgram()) == SampleInlined()
  {
    hide RewrittenOp, Inlinable;
    SampleRewrites();
    AllInlinedIs(SampleProgram(), SampleInlined());
  }

  lemma SampleRewrites()
    ensures Inlinable(SampleProgram()) && InRange(SampleProgram()) && InRange(SampleInlined())
    ensures forall k :: 0 <= k < 14 ==> RewrittenOp(SampleProgram(), SampleInlined(), k) == SampleInlined()[k]
    ensures forall k :: 0 <= k < 14 ==> RewrittenOp(SampleInlined(), SampleInlined(), k) == SampleInlined()[k]
  {
    SampleInRange();
    hide InRange, Inlinable, RewrittenOp, SampleProgram, SampleInlined;
    forall k | 0 <= k < 14
      ensures RewrittenOp(SampleProgram(), SampleInlined(), k) == SampleInlined()[k]
      ensures RewrittenOp(SampleInlined(), SampleInlined(), k) == SampleInlined()[k]
    {
      SampleRewritten(k);
      SampleFixed(k);
    }
  }

  lemma SampleInRange()
    ensures |SampleProgram()| == |SampleInlined()| == 14
    ensures Inlinable(SampleProgram()) && InRange(SampleProgram()) && InRange(SampleInlined())
  {
  }

  lemma SampleRewritten(k: nat)
    requires k < 14 && InRange(SampleProgram())
    ensures RewrittenOp(SampleProgram(), SampleInlined(), k) == SampleInlined()[k]
  {
  }

  lemma SampleFixed(k: nat)
    requires k < 14 && InRange(SampleInlined())
    ensures RewrittenOp(SampleInlined(), SampleInlined(), k) == SampleInlined()[k]
  {
  }

  /** The only instruction that is removable is number 7. */
  lemma SampleRemovable(i: nat)
    ensures Removable(SampleInlined(), i) <==> i == 7
  {
    var ops := SampleInlined();
    assert Targets(ops[0], 1) && Targets(ops[0], 3) && Targets(ops[4], 5) && Targets(ops[4], 8) && Targets(ops[9], 10);
  }

  lemma LoweredNot(ops: seq<Op>, i: nat)
    ensures forall p :: 0 <= p < |ops| ==> Lowered(ops[p], i, 0) == ops[p]
  {
  }

  lemma SampleIsStripped()
    ensures Without(OnceSwept(SampleInlined(), 7), 7) == SampleStripped()
  {
    var r := OnceSwept(SampleInlined(), 7);
    hide Lowered;
    LoweredNot(SampleInlined(), 7);
    LoweredSplit(5, 8, 7, 1);
    LoweredSplit(5, 12, 7, 1);
    LoweredJump(12, 7, 1);
    LoweredSplit(10, 11, 7, 2);
    assert r == SampleFront() + [Split(5, 7), OComp(Char('a')), Split(5, 11), Jump(11), OComp(Char('b')), Split(8, 11),
                                 OComp(Char('c')), OComp(Char('d')), Save(1), Match];
  }

  lemma {:induction false} NothingInTextB(i: nat, j: nat)
    ensures !Matches(Sample(), TextB(), i, j)
  {
    var w, x, cat, y, z := TextB(), SamplePlus(), SampleCat(), ARep(Quest(Greedy), One('c')), One('d');
    assert [cat][1..] == [] && [x, cat][1..] == [cat];
    assert ([One('b')] + SampleTail())[1..] == [y, z] && [y, z][1..] == [z] && [z][1..] == [];
    forall m: nat, n: nat
      ensures !Matches(One('a'), w, m, n) && !Matches(z, w, m, n) && !Matches(One('c'), w, m, n)
    {
    }
    forall k: nat | k >= 1
      ensures !Times(One('a'), k, w, i, j)
    {
    }
    forall m: nat
      ensures !MatchesAll([z], w, m, j) && !MatchesAll([y, z], w, m, j)
    {
    }
    assert !Matches(x, w, i, j) && !Matches(cat, w, i, j);
    assert !MatchesAny([], w, i, j) && !MatchesAny([cat], w, i, j) && !MatchesAny([x, cat], w, i, j);
  }

  /** Optimising the program of `a+|bc?d` makes it find a match in "b", where there is none: stripping
      sends the split of `c?` behind the character that it should compare next. */
  lemma StrippingChangesLanguage()
    ensures OptimisedAst(Sample()) == Sample()
    ensures Inlinable(Program(Sample(), false)) && AllInlined(Program(Sample(), false)) == SampleInlined()
    ensures Stripped(SampleInlined()) == (SampleStripped(), false) && !StripsRightly(SampleInlined())
    ensures !Finds(Program(Sample(), false), TextB(), false, 0, 0, 1)
    ensures !Finds(SampleInlined(), TextB(), false, 0, 0, 1)
    ensures Finds(SampleStripped(), TextB(), false, 0, 0, 1)
  {
    hide AllInlined, Inlinable, SameLanguage, Finds, Program, Matches;
    SampleCompiled();
    SampleIsInlined();
    SampleIsStripped();
    forall i: nat
      ensures Removable(SampleInlined(), i) <==> i == 7
    {
      SampleRemovable(i);
    }
    StripsOne(SampleInlined(), 7);
    SampleGoesWrong();
    SpanCorrect(Sample(), TextB(), false, 0, 0, 1);
    NothingInTextB(0, 1);
    AllInlinedSound(SampleProgram());
    SameFinds(SampleProgram(), SampleInlined(), TextB(), false, 0, 0, 1);
    SampleFindsB();
  }

  lemma SampleFindsB()
    ensures Finds(SampleStripped(), TextB(), false, 0, 0, 1)
  {
    hide AcceptsIn;
    var p, w := SampleStripped(), TextB();
    var x0, x1 := Conf(0, map[]), Conf(0, map[0 := 0]);
    var x2, y := Conf(1, map[0 := 0]), Conf(1, map[0 := 0, 1 := 1]);
    AcceptsInMatch(p, w, State(12, y), y, 0);
    AcceptsInFrom(p, w, State(11, x2), State(12, y), y, 1);
    AcceptsInFrom(p, w, State(8, x2), State(11, x2), y, 2);
    AcceptsInFrom(p, w, State(7, x1), State(8, x2), y, 3);
    AcceptsInFrom(p, w, State(4, x1), State(7, x1), y, 4);
    AcceptsInFrom(p, w, State(3, x0), State(4, x1), y, 5);
    AcceptsInFrom(p, w, State(0, x0), State(3, x0), y, 6);
    assert Accepts(p, w, State(0, x0), y);
  }

  /** The split of `c?` has both targets behind the removed jump, the first not right behind it. */
  lemma SampleGoesWrong()
    ensures !StripsRightly(SampleInlined())
  {
    var ops := SampleInlined();
    hide Removable, Pos, Inherits;
    SampleRemovable(7);
    SampleRemovable(9);
    forall k: nat | k > 7
      ensures !Removable(ops, k)
    {
      SampleRemovable(k);
    }
    NoneGone(ops, 7, 10);
    assert !RightAt(ops, 9, 7);
  }

  // ---------------------------------------------------------------- a program with inherited entries

  function Group(a: Ast): Ast { SubMatch(NonCapturing, a) }

  function Stars(n: nat): Ast {
    if n == 0 then One('a') else Group(ARep(Star(Greedy), Stars(n - 1)))
  }

  /** The expression `(?:(?:(?:a*)*)*)+`. */
  function Nested(): Ast { ARep(Plus(Greedy), Stars(3)) }

  function NestedProgram(): seq<Op> {
    SampleFront() + [Split(5, 11), Split(6, 10), Split(7, 9), OComp(Char('a')), Jump(6), Jump(5), Jump(4), Split(4, 12),
                     Save(1), Match]
  }

  function NestedInlined(): seq<Op> {
    SampleFront() + [Split(5, 11), Split(6, 4), Split(7, 5), OComp(Char('a')), Split(7, 5), Split(6, 4), Split(5, 11),
                     Split(4, 12), Save(1), Match]
  }

  /** After the removal of instruction 10. */
  function NestedOnce(): seq<Op> {
    SampleFront() + [Split(5, 10), Split(6, 4), Split(7, 5), OComp(Char('a')), Split(7, 5), Split(6, 4), Split(4, 11),
                     Save(1), Match]
  }

  function NestedStripped(): seq<Op> {
    SampleFront() + [Split(5, 9), Split(6, 4), Split(7, 5), OComp(Char('a')), Split(7, 5), Split(4, 9), Save(1), Match]
  }

  lemma StarsCompiled()
    ensures WellFormed(Stars(3)) && OpLen(Stars(3)) == 7
    ensures Code(Stars(3), 4, 0, false) ==
      [Split(5, 11), Split(6, 10), Split(7, 9), OComp(Char('a')), Jump(6), Jump(5), Jump(4)]
  {
    assert OpLen(Stars(0)) == 1 && OpLen(Stars(1)) == 3 && OpLen(Stars(2)) == 5;
    assert WellFormed(Stars(1)) && WellFormed(Stars(2));
    assert Code(Stars(0), 7, 0, false) == [OComp(Char('a'))];
    assert Code(Stars(1), 6, 0, false) == [Split(7, 9)] + [OComp(Char('a'))] + [Jump(6)];
    assert Code(Stars(2), 5, 0, false) == [Split(6, 10)] + Code(Stars(1), 6, 0, false) + [Jump(5)];
    assert Code(Stars(3), 4, 0, false) == [Split(5, 11)] + Code(Stars(2), 5, 0, false) + [Jump(4)];
  }

  lemma NestedCompiled()
    ensures WellFormed(Nested()) && Program(Nested(), false) == NestedProgram()
  {
    StarsCompiled();
    hide Stars;
    assert Code(Nested(), 4, 0, false) == Code(Stars(3), 4, 0, false) + [Split(4, 12)];
  }

  lemma NestedIsInlined()
    ensures Inlinable(NestedProgram()) && AllInlined(NestedProgram()) == NestedInlined()
  {
    hide RewrittenOp, Inlinable;
    NestedRewrites();
    AllInlinedIs(NestedProgram(), NestedInlined());
  }

  lemma NestedRewrites()
    ensures Inlinable(NestedProgram()) && InRange(NestedProgram()) && InRange(NestedInlined())
    ensures forall k :: 0 <= k < 14 ==> RewrittenOp(NestedProgram(), NestedInlined(), k) == NestedInlined()[k]
    ensures forall k :: 0 <= k < 14 ==> RewrittenOp(NestedInlined(), NestedInlined(), k) == NestedInlined()[k]
  {
    NestedInRange();
    hide InRange, Inlinable, RewrittenOp, NestedProgram, NestedInlined;
    forall k | 0 <= k < 14
      ensures RewrittenOp(NestedProgram(), NestedInlined(), k) == NestedInlined()[k]
      ensures RewrittenOp(NestedInlined(), NestedInlined(), k) == NestedInlined()[k]
    {
      NestedRewritten(k);
      NestedFixed(k);
    }
  }

  lemma NestedInRange()
    ensures |NestedProgram()| == |NestedInlined()| == 14
    ensures Inlinable(NestedProgram()) && InRange(NestedProgram()) && InRange(NestedInlined())
  {
  }

  lemma NestedRewritten(k: nat)
    requires k < 14 && InRange(NestedProgram())
    ensures RewrittenOp(NestedProgram(), NestedInlined(), k) == NestedInlined()[k]
  {
  }

  lemma NestedFixed(k: nat)
    requires k < 14 && InRange(NestedInlined())
    ensures RewrittenOp(NestedInlined(), NestedInlined(), k) == NestedInlined()[k]
  {
  }

  /** The only instructions that are removable are numbers 9 and 10. */
  lemma NestedRemovable(i: nat)
    ensures Removable(NestedInlined(), i) <==> i == 9 || i == 10
  {
    var ops := NestedInlined();
    assert Targets(ops[0], 1) && Targets(ops[0], 3) && Targets(ops[4], 5) && Targets(ops[5], 6) && Targets(ops[5], 4);
    assert Targets(ops[6], 7) && Targets(ops[4], 11) && Targets(ops[11], 12);
  }

  /** No kept split has both targets behind a removable instruction. */
  predicate SplitsApart(ops: seq<Op>) {
    forall i, p :: 0 <= i < |ops| && 0 <= p < |ops| && Removable(ops, i) && Kept(ops, p) && ops[p].Split? ==>
      ops[p].l1 <= i || ops[p].l2 <= i
  }

  lemma NestedApart()
    ensures SplitsApart(NestedInlined())
  {
    var ops := NestedInlined();
    hide Removable;
    forall i, p | 0 <= i < |ops| && 0 <= p < |ops| && Removable(ops, i) && Kept(ops, p) && ops[p].Split?
      ensures ops[p].l1 <= i || ops[p].l2 <= i
    {
      NestedRemovable(i);
      NestedRemovable(p);
    }
  }

  lemma {:induction false} TableMore(ops: seq<Op>, op: Op, table: seq<(nat, nat)>)
    requires TableOf(ops) == table
    ensures TableOf(ops + [op]) == table + EntriesOf(op, |ops|)
  {
    assert (ops + [op])[..|ops|] == ops;
  }

  function NestedFront(): seq<(nat, nat)> { [(3, 0), (1, 0), (3, 2), (1, 2), (5, 4)] }

  function NestedMiddle(): seq<(nat, nat)> {
    [(6, 5), (4, 5), (7, 6), (5, 6), (7, 8), (5, 8), (6, 9), (4, 9), (5, 10)]
  }

  lemma TableNone()
    ensures TableOf([]) == []
  {
  }

  lemma SampleFrontTable()
    ensures TableOf(SampleFront()) == [(3, 0), (1, 0), (3, 2), (1, 2)]
  {
    hide TableOf;
    TableNone();
    var o1, t1 := [Split(3, 1)], [(3, 0), (1, 0)];
    TableMore([], Split(3, 1), []);
    assert [] + o1 == o1;
    var o2 := o1 + [OComp(TrueAny)];
    TableMore(o1, OComp(TrueAny), t1);
    var o3, t3 := o2 + [Split(3, 1)], t1 + [(3, 2), (1, 2)];
    TableMore(o2, Split(3, 1), t1);
    TableMore(o3, Save(0), t3);
    assert o3 + [Save(0)] == SampleFront();
  }

  lemma NestedTable()
    ensures TableOf(NestedInlined()) == NestedFront() + [(11, 4)] + NestedMiddle() + [(11, 10)] + [(4, 11)] + [(12, 11)]
  {
    hide TableOf;
    SampleFrontTable();
    var o4 := SampleFront();
    var o5, t5 := o4 + [Split(5, 11)], NestedFront() + [(11, 4)];
    TableMore(o4, Split(5, 11), [(3, 0), (1, 0), (3, 2), (1, 2)]);
    var o6, t6 := o5 + [Split(6, 4)], t5 + [(6, 5), (4, 5)];
    TableMore(o5, Split(6, 4), t5);
    var o7, t7 := o6 + [Split(7, 5)], t6 + [(7, 6), (5, 6)];
    TableMore(o6, Split(7, 5), t6);
    var o8 := o7 + [OComp(Char('a'))];
    TableMore(o7, OComp(Char('a')), t7);
    var o9, t9 := o8 + [Split(7, 5)], t7 + [(7, 8), (5, 8)];
    TableMore(o8, Split(7, 5), t7);
    var o10, t10 := o9 + [Split(6, 4)], t9 + [(6, 9), (4, 9)];
    TableMore(o9, Split(6, 4), t9);
    var o11, t11 := o10 + [Split(5, 11)], t10 + [(5, 10), (11, 10)];
    TableMore(o10, Split(5, 11), t10);
    var o12, t12 := o11 + [Split(4, 12)], t11 + [(4, 11), (12, 11)];
    TableMore(o11, Split(4, 12), t11);
    TableMore(o12, Save(1), t12);
    TableMore(o12 + [Save(1)], Match, t12);
    assert o12 + [Save(1)] + [Match] == NestedInlined();
  }

  lemma {:induction false} SweptMore(ops: seq<Op>, front: seq<(nat, nat)>, e: (nat, nat), i: nat, before: seq<Op>)
    requires TableFits(front, |ops|) && e.1 < |ops| && e.0 > i
    requires Swept(ops, front, i) == (before, false) && before[e.1] != Jump(0)
    ensures TableFits(front + [e], |ops|)
    ensures Swept(ops, front + [e], i) == (before[e.1 := Lower(before[e.1], i)], false)
  {
    assert (front + [e])[..|front|] == front;
  }

  /** Entries with no target behind `i` change nothing. */
  lemma {:induction false} SweptIdle(ops: seq<Op>, front: seq<(nat, nat)>, idle: seq<(nat, nat)>, i: nat,
      before: seq<Op>)
    requires TableFits(front, |ops|) && Swept(ops, front, i) == (before, false)
    requires forall k :: 0 <= k < |idle| ==> idle[k].0 <= i && idle[k].1 < |ops|
    ensures TableFits(front + idle, |ops|) && Swept(ops, front + idle, i) == (before, false)
    decreases |idle|
  {
    if idle == [] {
      assert front + idle == front;
    } else {
      assert (front + idle)[..|front + idle| - 1] == front + idle[..|idle| - 1];
      SweptIdle(ops, front, idle[..|idle| - 1], i, before);
    }
  }

  /** A table with three entries whose targets lie behind `i`, at the instructions `x`, `y` and `z`. */
  lemma {:induction false} SweptThrice(ops: seq<Op>, front: seq<(nat, nat)>, middle: seq<(nat, nat)>, i: nat,
      x: (nat, nat), y: (nat, nat), idle: (nat, nat), z: (nat, nat))
    requires forall k :: 0 <= k < |front| ==> front[k].0 <= i && front[k].1 < |ops|
    requires forall k :: 0 <= k < |middle| ==> middle[k].0 <= i && middle[k].1 < |ops|
    requires x.0 > i && y.0 > i && idle.0 <= i && z.0 > i
    requires x.1 < |ops| && y.1 < |ops| && idle.1 < |ops| && z.1 < |ops|
    requires ops[x.1].Split? && ops[y.1].Split? && ops[z.1].Split?
    ensures var o1 := ops[x.1 := Lower(ops[x.1], i)];
      var o2 := o1[y.1 := Lower(o1[y.1], i)];
      var table := front + [x] + middle + [y] + [idle] + [z];
      TableFits(table, |ops|) && Swept(ops, table, i) == (o2[z.1 := Lower(o2[z.1], i)], false)
  {
    hide Swept;
    SweptNothing(ops, i);
    assert [] + front == front;
    SweptIdle(ops, [], front, i, ops);
    SweptMore(ops, front, x, i, ops);
    var o1 := ops[x.1 := Lower(ops[x.1], i)];
    SweptIdle(ops, front + [x], middle, i, o1);
    SweptMore(ops, front + [x] + middle, y, i, o1);
    var o2 := o1[y.1 := Lower(o1[y.1], i)];
    SweptIdle(ops, front + [x] + middle + [y], [idle], i, o2);
    SweptMore(ops, front + [x] + middle + [y] + [idle], z, i, o2);
  }

  /** The first removal is right. */
  lemma NestedFirst()
    ensures var table := NestedFront() + [(11, 4)] + NestedMiddle() + [(11, 10)] + [(4, 11)] + [(12, 11)];
      && TableFits(table, 14) && !Swept(NestedInlined(), table, 10).1
      && Without(Swept(NestedInlined(), table, 10).0, 10) == NestedOnce()
  {
    var ops := NestedInlined();
    SweptThrice(ops, NestedFront(), NestedMiddle(), 10, (11, 4), (11, 10), (4, 11), (12, 11));
    hide Swept;
    assert Without(ops[4 := Split(5, 10)][10 := Split(5, 10)][11 := Split(4, 11)], 10) == NestedOnce();
  }

  /** At the second one the entries of instruction 10 belong to the split that closes the loop of `+`. */
  lemma NestedSecond()
    ensures var table := NestedFront() + [(11, 4)] + NestedMiddle() + [(11, 10)] + [(4, 10)] + [(12, 10)];
      && TableFits(table, 13) && !Swept(NestedOnce(), table, 9).1
      && Without(Swept(NestedOnce(), table, 9).0, 9) == NestedStripped()
  {
    var ops := NestedOnce();
    SweptThrice(ops, NestedFront(), NestedMiddle(), 9, (11, 4), (11, 10), (4, 10), (12, 10));
    hide Swept;
    assert Without(ops[4 := Split(5, 9)][10 := Split(4, 9)], 9) == NestedStripped();
    assert ops[4 := Split(5, 9)][10 := Split(4, 10)][10 := Split(4, 9)] == ops[4 := Split(5, 9)][10 := Split(4, 9)];
  }

  /** Where nothing is removed the pass leaves the program as it is. */
  lemma {:induction false} StripIdle(cur: seq<Op>, table: seq<(nat, nat)>, jumps: set<nat>, i: nat, j: nat, u: bool)
    requires j <= i && (i == 0 || i < |cur| - 1) && TableFits(table, |cur|)
    requires forall k :: j < k <= i ==> !IsControl(cur[k - 1]) || k in jumps
    ensures StripFrom(cur, table, jumps, i, u) == StripFrom(cur, table, jumps, j, u)
    decreases i
  {
    if j < i {
      StripIdle(cur, table, jumps, i - 1, j, u);
    }
  }

  lemma StripRemoves(cur: seq<Op>, table: seq<(nat, nat)>, jumps: set<nat>, i: nat, u: bool)
    requires 0 < i < |cur| - 1 && TableFits(table, |cur|) && IsControl(cur[i - 1]) && i !in jumps
    ensures var (swept, v) := Swept(cur, table, i);
      && TableFits(MovedTable(table, i), |cur| - 1) && |Without(swept, i)| == |cur| - 1
      && StripFrom(cur, table, jumps, i, u) == StripFrom(Without(swept, i), MovedTable(table, i), jumps, i - 1, u || v)
  {
    hide Swept;
    WithoutLen(cur, table, i);
  }

  /** The entry of the removed instruction 10 takes the loop of `+` back to its own split. */
  lemma NestedIsStripped()
    ensures Stripped(NestedInlined()) == (NestedStripped(), false)
  {
    var ops := NestedInlined();
    hide TableOf, Swept, StripFrom, TargetSet, Without;
    NestedTable();
    NestedFirst();
    NestedSecond();
    TableWithin(ops);
    var table, jumps := TableOf(ops), TargetSet(TableOf(ops));
    var moved := NestedFront() + [(11, 4)] + NestedMiddle() + [(11, 10)] + [(4, 10)] + [(12, 10)];
    assert MovedTable(table, 10) == moved;
    forall k | 1 <= k <= 12
      ensures IsControl(ops[k - 1]) && k !in jumps <==> k == 9 || k == 10
    {
      NestedJumps(k);
    }
    NestedJumps(9);
    NestedJumps(10);
    hide MovedTable;
    StripIdle(ops, table, jumps, 12, 10, false);
    StripRemoves(ops, table, jumps, 10, false);
    StripRemoves(NestedOnce(), moved, jumps, 9, false);
    NestedKinds();
    StripIdle(NestedStripped(), MovedTable(moved, 9), jumps, 8, 0, false);
    StripNone(NestedStripped(), MovedTable(moved, 9), jumps, false);
  }

  lemma NestedKinds()
    ensures forall k :: 0 <= k < 9 ==>
      (IsControl(NestedStripped()[k]) <==> IsControl(NestedInlined()[k])) &&
      (IsControl(NestedOnce()[k]) <==> IsControl(NestedInlined()[k]))
  {
  }

  lemma NestedJumps(k: nat)
    requires 1 <= k <= 12
    ensures IsControl(NestedInlined()[k - 1]) && k !in TargetSet(TableOf(NestedInlined())) <==> k == 9 || k == 10
  {
    hide TableOf, Removable;
    NestedRemovable(k);
    TargetsTabled(NestedInlined(), k);
    RemovableIs(NestedInlined(), k);
  }

  lemma RemovableIs(ops: seq<Op>, k: nat)
    requires 1 <= k < |ops| - 1
    ensures Removable(ops, k) <==> IsControl(ops[k - 1]) && !exists p :: 0 <= p < |ops| && Targets(ops[p], k)
  {
  }

  lemma {:induction false} NestedLoops(w: Input, t: State, y: Conf, n: nat)
    requires t.pc <= 9
    ensures !AcceptsIn(NestedStripped(), w, t, y, n)
    decreases n
  {
    var p := NestedStripped();
    if AcceptsIn(p, w, t, y, n) {
      var u := AcceptsInHead(p, w, t, y, n);
      NestedStays(w, t, u);
      NestedLoops(w, u, y, n - 1);
    }
  }

  lemma NestedStays(w: Input, t: State, u: State)
    requires t.pc <= 9 && u in Steps(NestedStripped()[t.pc], w, t)
    ensures u.pc <= 9
  {
  }

  /** The expression matches the empty text at every position. */
  lemma {:induction false} NestedMatches(w: Input, i: nat)
    ensures Matches(Nested(), w, i, i)
  {
    hide Times;
    var inner := ARep(Star(Greedy), Stars(2));
    TimesNone(Stars(2), w, i, i);
    assert Allowed(inner.rep, 0) && Times(Stars(2), 0, w, i, i);
    assert Matches(inner, w, i, i) && Matches(Stars(3), w, i, i);
    TimesOnce(Stars(3), w, i, i);
    assert Allowed(Plus(Greedy), 1) && Times(Stars(3), 1, w, i, i);
  }

  /** The split of `+` should lead behind itself, where the save then is. */
  lemma NestedGoesWrong()
    ensures !StripsRightly(NestedInlined())
  {
    var p := NestedInlined();
    hide StripsRightly, Stripped, CutTo, Removable, Pos;
    NestedIsStripped();
    StrippedRightly(p);
    PosNone(p, 0);
    for k := 0 to 12
      invariant Pos(p, 0, k) == if k <= 9 then k else if k == 10 then 9 else k - 2
    {
      NestedRemovable(k);
      PosNext(p, 0, k);
    }
    NestedRemovable(11);
    CutToAt(p, 14, 11);
  }

  /** Of the expression `(?:(?:(?:a*)*)*)+`, which matches at every position, the program finds no match in any
      text once it is stripped, although no split has both targets behind a removed instruction. */
  lemma InheritedEntriesChangeLanguage()
    ensures WellFormed(Nested()) && OptimisedAst(Nested()) == Nested() && Inlinable(Program(Nested(), false))
    ensures AllInlined(Program(Nested(), false)) == NestedInlined()
    ensures forall w: Input, start: nat :: Finds(NestedInlined(), w, false, start, start, start)
    ensures SplitsApart(NestedInlined()) && !StripsRightly(NestedInlined())
    ensures Stripped(NestedInlined()) == (NestedStripped(), false)
    ensures forall w: Input, start: nat, i: nat, j: nat :: !Finds(NestedStripped(), w, false, start, i, j)
  {
    hide AcceptsIn, StripsRightly, Stripped, SplitsApart, AllInlined, Inlinable, Program, WellFormed, Finds;
    NestedCompiled();
    NestedIsInlined();
    NestedIsStripped();
    NestedGoesWrong();
    NestedApart();
    forall w: Input, start: nat
      ensures Finds(NestedInlined(), w, false, start, start, start)
    {
      NestedFinds(w, start);
    }
    forall w: Input, start: nat, i: nat, j: nat
      ensures !Finds(NestedStripped(), w, false, start, i, j)
    {
      NestedFindsNothing(w, start, i, j);
    }
  }

  lemma NestedFinds(w: Input, start: nat)
    ensures Finds(NestedInlined(), w, false, start, start, start)
  {
    hide Finds, Program, WellFormed, Matches, SameLanguage, Inlinable, AllInlined;
    NestedCompiled();
    NestedIsInlined();
    NestedMatches(w, start);
    AllInlinedSound(NestedProgram());
    SameFinds(NestedProgram(), NestedInlined(), w, false, start, start, start);
    SpanCorrect(Nested(), w, false, start, start, start);
  }

  lemma NestedFindsNothing(w: Input, start: nat, i: nat, j: nat)
    ensures !Finds(NestedStripped(), w, false, start, i, j)
  {
    forall y: Conf, n: nat
      ensures !AcceptsIn(NestedStripped(), w, State(0, Conf(start, map[])), y, n)
    {
      NestedLoops(w, State(0, Conf(start, map[])), y, n);
    }
    hide AcceptsIn, NestedStripped;
  }
}
