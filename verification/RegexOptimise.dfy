/** The first pass over a compiled program: inlining jumps until nothing changes. */
module RegexOptimise {
  import opened RegexAst
  import opened RegexVm
  import opened RegexProgram

  ghost predicate SameLanguage(p: seq<Op>, q: seq<Op>) {
    forall w: Input, t: State, y: Conf :: Accepts(p, w, t, y) <==> Accepts(q, w, t, y)
  }

  // ---------------------------------------------------------------- inline_jumps

  /** What inline_jumps makes of instruction `i`, and whether it made anything of it. */
  function InlinedOp(ops: seq<Op>, i: nat): (Op, bool)
    requires i < |ops| && InRange(ops)
  {
    match ops[i]
    case Jump(j) =>
      (match ops[j]
       case Jump(l1) => (Jump(l1), true)
       case Split(l1, l2) => (Split(l1, l2), true)
       case Match => (Match, true)
       case _ => (ops[i], false))
    case Split(s1, s2) =>
      if ops[s1].Match? && ops[s2].Match? then (Match, true)
      else
        var new1 := if ops[s1].Jump? then ops[s1].l else s1;
        var new2 := if ops[s2].Jump? then ops[s2].l else s2;
        if new1 != s1 || new2 != s2 then (Split(new1, new2), true) else (ops[i], false)
    case _ => (ops[i], false)
  }

  function Inlined(ops: seq<Op>, i: nat): seq<Op>
    requires i < |ops| && InRange(ops)
  {
    ops[i := InlinedOp(ops, i).0]
  }

  /** There is nothing to make of an instruction exactly if no jump leads to a jump, a split or the match, and no
      split leads to another jump or twice to the match. */
  lemma NothingToInline(ops: seq<Op>, i: nat)
    requires i < |ops| && InRange(ops)
    ensures !InlinedOp(ops, i).1 <==>
      && (ops[i].Jump? ==> !ops[ops[i].l].Jump? && !ops[ops[i].l].Split? && !ops[ops[i].l].Match?)
      && (ops[i].Split? ==> forall s :: s in {ops[i].l1, ops[i].l2} ==> ops[s].Jump? ==> ops[s].l == s)
      && (ops[i].Split? ==> !(ops[ops[i].l1].Match? && ops[ops[i].l2].Match?))
  {
    if ops[i].Split? {
      assert ops[i].l1 in {ops[i].l1, ops[i].l2} && ops[i].l2 in {ops[i].l1, ops[i].l2};
    }
  }

  method InlineJumps(ops: array<Op>, i: nat) returns (changed: bool)
    requires i < ops.Length && InRange(ops[..])
    modifies ops
    ensures ops[..] == Inlined(old(ops[..]), i)
    ensures changed == InlinedOp(old(ops[..]), i).1
  {
    ghost var before := ops[..];
    if ops[i].Jump? {
      var j := ops[i].l;
      if ops[j].Jump? {
        ops[i] := Jump(ops[j].l);
      } else if ops[j].Split? {
        ops[i] := Split(ops[j].l1, ops[j].l2);
      } else if ops[j].Match? {
        ops[i] := Match;
      } else {
        return false;
      }
      return true;
    } else if ops[i].Split? {
      var s1, s2 := ops[i].l1, ops[i].l2;
      if ops[s1] == Match && ops[s2] == Match {
        ops[i] := Match;
        return true;
      }
      var new1 := if ops[s1].Jump? then ops[s1].l else s1;
      var new2 := if ops[s2].Jump? then ops[s2].l else s2;
      if new1 != s1 || new2 != s2 {
        ops[i] := Split(new1, new2);
        return true;
      }
    }
    return false;
  }

  // ---------------------------------------------------------------- the language is kept

  lemma {:induction false} AcceptsInMore(p: seq<Op>, w: Input, t: State, y: Conf, n: nat, m: nat)
    requires n <= m && AcceptsIn(p, w, t, y, n)
    ensures AcceptsIn(p, w, t, y, m)
    decreases n
  {
    if !p[t.pc].Match? {
      hide AcceptsIn, Steps;
      var u := AcceptsInHead(p, w, t, y, n);
      AcceptsInMore(p, w, u, y, n - 1, m - 1);
      AcceptsInFrom(p, w, t, u, y, m);
    }
  }

  lemma {:induction false} AcceptsInMatch(p: seq<Op>, w: Input, t: State, y: Conf, n: nat)
    requires t.pc < |p| && p[t.pc].Match?
    ensures AcceptsIn(p, w, t, y, n) <==> t.conf == y
  {
  }

  lemma {:induction false} AcceptsInBound(p: seq<Op>, w: Input, t: State, y: Conf, n: nat)
    requires AcceptsIn(p, w, t, y, n)
    ensures t.pc < |p|
  {
  }

  /** Inlining shortens runs. */
  lemma {:induction false} InlinedAccepts(p: seq<Op>, i: nat, w: Input, t: State, y: Conf, n: nat)
    requires i < |p| && InRange(p) && AcceptsIn(p, w, t, y, n)
    ensures AcceptsIn(Inlined(p, i), w, t, y, n)
    decreases n
  {
    hide AcceptsIn, InRange, InlinedOp;
    var q := Inlined(p, i);
    AcceptsInBound(p, w, t, y, n);
    if p[t.pc].Match? {
      AcceptsInMatch(p, w, t, y, n);
      InlinedKeepsMatch(p, i, t.pc);
      AcceptsInMatch(q, w, t, y, n);
    } else {
      var u := AcceptsInHead(p, w, t, y, n);
      InlinedAccepts(p, i, w, u, y, n - 1);
      if t.pc == i {
        InlinedFirstStep(p, i, w, t, u, y, n);
      } else {
        AcceptsInFrom(q, w, t, u, y, n);
      }
    }
  }

  lemma InlinedKeepsMatch(p: seq<Op>, i: nat, pc: nat)
    requires i < |p| && InRange(p) && pc < |p| && p[pc].Match?
    ensures Inlined(p, i)[pc].Match?
  {
  }

  /** The inlined instruction reaches at once what the original reached by way of `u`. */
  lemma InlinedFirstStep(p: seq<Op>, i: nat, w: Input, t: State, u: State, y: Conf, n: nat)
    requires i < |p| && InRange(p) && t.pc == i && !p[i].Match? && n > 0
    requires u in Steps(p[i], w, t) && AcceptsIn(p, w, u, y, n - 1) && AcceptsIn(Inlined(p, i), w, u, y, n - 1)
    ensures AcceptsIn(Inlined(p, i), w, t, y, n)
  {
    hide AcceptsIn;
    var q, op := Inlined(p, i), InlinedOp(p, i).0;
    assert q[i] == op;
    AcceptsInBound(p, w, u, y, n - 1);
    if op.Match? {
      AcceptsInMatch(p, w, u, y, n - 1);
      AcceptsInMatch(q, w, t, y, n);
    } else if u in Steps(op, w, t) {
      AcceptsInFrom(q, w, t, u, y, n);
    } else {
      // `u` is at another instruction, which is a jump or a split and is left unchanged.
      assert u.pc != i ==> q[u.pc] == p[u.pc];
      assert !q[u.pc].Match?;
      var v := AcceptsInHead(q, w, u, y, n - 1);
      assert v in Steps(op, w, t);
      AcceptsInMore(q, w, v, y, n - 2, n - 1);
      AcceptsInFrom(q, w, t, v, y, n);
    }
  }

  /** Everything that the inlined program does, the original does with more steps. */
  lemma {:induction false} OriginalAccepts(p: seq<Op>, i: nat, w: Input, t: State, y: Conf, n: nat)
    requires i < |p| && InRange(p) && AcceptsIn(Inlined(p, i), w, t, y, n)
    ensures Accepts(p, w, t, y)
    decreases n
  {
    hide AcceptsIn, InRange, InlinedOp;
    var q := Inlined(p, i);
    AcceptsInBound(q, w, t, y, n);
    if q[t.pc].Match? {
      AcceptsInMatch(q, w, t, y, n);
      if t.pc == i {
        OriginalMatches(p, i, w, t);
      } else {
        AcceptsInMatch(p, w, t, y, 0);
      }
    } else {
      var u := AcceptsInHead(q, w, t, y, n);
      OriginalAccepts(p, i, w, u, y, n - 1);
      if t.pc == i {
        OriginalSteps(p, i, w, t, u, y);
      } else {
        AcceptsFrom(p, w, t, u, y);
      }
    }
  }

  lemma OriginalMatches(p: seq<Op>, i: nat, w: Input, t: State)
    requires i < |p| && InRange(p) && t.pc == i && InlinedOp(p, i).0.Match?
    ensures Accepts(p, w, t, t.conf)
  {
    hide Accepts;
    if p[i].Match? {
      AcceptsMatch(p, w, t);
    } else {
      var u := State(if p[i].Jump? then p[i].l else p[i].l1, t.conf);
      AcceptsMatch(p, w, u);
      AcceptsFrom(p, w, t, u, t.conf);
    }
  }

  lemma AcceptsMatch(p: seq<Op>, w: Input, t: State)
    requires t.pc < |p| && p[t.pc].Match?
    ensures Accepts(p, w, t, t.conf)
  {
    assert AcceptsIn(p, w, t, t.conf, 0);
  }

  lemma OriginalSteps(p: seq<Op>, i: nat, w: Input, t: State, u: State, y: Conf)
    requires i < |p| && InRange(p) && t.pc == i && !InlinedOp(p, i).0.Match?
    requires u in Steps(InlinedOp(p, i).0, w, t) && Accepts(p, w, u, y)
    ensures Accepts(p, w, t, y)
  {
    hide Accepts;
    if u in Steps(p[i], w, t) {
      AcceptsFrom(p, w, t, u, y);
    } else if p[i].Jump? {
      var v := State(p[i].l, t.conf);
      AcceptsFrom(p, w, v, u, y);
      AcceptsFrom(p, w, t, v, y);
    } else {
      var s := if p[p[i].l1].Jump? && u.pc == p[p[i].l1].l then p[i].l1 else p[i].l2;
      var v := State(s, t.conf);
      AcceptsFrom(p, w, v, u, y);
      AcceptsFrom(p, w, t, v, y);
    }
  }

  /** One rewrite keeps the accepted language, from every state. */
  lemma InliningSound(p: seq<Op>, i: nat)
    requires i < |p| && InRange(p)
    ensures SameLanguage(p, Inlined(p, i))
  {
    hide AcceptsIn, InRange, Inlined;
    forall w: Input, t: State, y: Conf
      ensures Accepts(p, w, t, y) <==> Accepts(Inlined(p, i), w, t, y)
    {
      if Accepts(p, w, t, y) {
        var n: nat :| AcceptsIn(p, w, t, y, n);
        InlinedAccepts(p, i, w, t, y, n);
      }
      if Accepts(Inlined(p, i), w, t, y) {
        var n: nat :| AcceptsIn(Inlined(p, i), w, t, y, n);
        OriginalAccepts(p, i, w, t, y, n);
      }
    }
  }

  // ---------------------------------------------------------------- the loop ends

  function Total(xs: seq<nat>): nat {
    if xs == [] then 0 else Total(xs[..|xs| - 1]) + xs[|xs| - 1]
  }

  lemma {:induction false} TotalUpdate(xs: seq<nat>, i: nat, v: nat)
    requires i < |xs|
    ensures Total(xs[i := v]) + xs[i] == Total(xs) + v
    decreases |xs|
  {
    var n := |xs| - 1;
    if i < n {
      assert xs[i := v][..n] == xs[..n][i := v];
      TotalUpdate(xs[..n], i, v);
    } else {
      assert xs[i := v][..n] == xs[..n];
    }
  }

  /** How far behind a target a chain of jumps can lead. */
  function ChainBound(ops: seq<Op>, pc: nat): nat
    requires pc < |ops|
  {
    if ops[pc].Jump? then |ops| - pc else 0
  }

  function ChainWeight(ops: seq<Op>, p: nat): nat
    requires p < |ops| && InRange(ops)
  {
    match ops[p]
    case Jump(j) => ChainBound(ops, j)
    case Split(s1, s2) => ChainBound(ops, s1) + ChainBound(ops, s2)
    case _ => 0
  }

  function JumpFlags(ops: seq<Op>): (r: seq<nat>)
    ensures |r| == |ops|
  {
    seq(|ops|, p requires 0 <= p < |ops| => if ops[p].Jump? then 1 else 0)
  }

  function SplitFlags(ops: seq<Op>): (r: seq<nat>)
    ensures |r| == |ops|
  {
    seq(|ops|, p requires 0 <= p < |ops| => if ops[p].Split? then 1 else 0)
  }

  function Weights(ops: seq<Op>): (r: seq<nat>)
    requires InRange(ops)
    ensures |r| == |ops|
  {
    seq(|ops|, p requires 0 <= p < |ops| => ChainWeight(ops, p))
  }

  function NJumps(ops: seq<Op>): nat { Total(JumpFlags(ops)) }

  function NSplits(ops: seq<Op>): nat { Total(SplitFlags(ops)) }

  function ChainTotal(ops: seq<Op>): nat
    requires InRange(ops)
  {
    Total(Weights(ops))
  }

  /** Fewer jumps, or as many and fewer splits, or as many of both and shorter chains. */
  predicate Smaller(q: seq<Op>, p: seq<Op>)
    requires InRange(p) && InRange(q)
  {
    || NJumps(q) < NJumps(p)
    || (NJumps(q) == NJumps(p) && NSplits(q) < NSplits(p))
    || (NJumps(q) == NJumps(p) && NSplits(q) == NSplits(p) && ChainTotal(q) < ChainTotal(p))
  }

  predicate Inlinable(ops: seq<Op>) { InRange(ops) && JumpsForward(ops) }

  lemma InlinedInlinable(p: seq<Op>, i: nat)
    requires i < |p| && Inlinable(p)
    ensures Inlinable(Inlined(p, i))
  {
    var q := Inlined(p, i);
    forall k | 0 <= k < |q|
      ensures q[k].Split? ==> q[k].l1 < |q| && q[k].l2 < |q|
      ensures q[k].Jump? ==> q[k].l < |q|
    {
    }
    forall k | 0 <= k < |q| && q[k].Jump?
      ensures k < q[k].l || !q[q[k].l].Jump?
    {
      if k == i {
        var j := p[i].l;
        if p[j].Jump? {
          assert q[i] == Jump(p[j].l);
        }
      } else {
        assert q[k] == p[k];
      }
    }
  }

  lemma FlagsUpdated(p: seq<Op>, i: nat)
    requires i < |p| && InRange(p)
    ensures var q := Inlined(p, i);
      && JumpFlags(q) == JumpFlags(p)[i := if q[i].Jump? then 1 else 0]
      && SplitFlags(q) == SplitFlags(p)[i := if q[i].Split? then 1 else 0]
  {
  }

  /** When an instruction keeps its kind, only its own weight changes, and it shrinks. */
  lemma WeightsUpdated(p: seq<Op>, i: nat)
    requires i < |p| && Inlinable(p) && InlinedOp(p, i).1 && Inlinable(Inlined(p, i))
    requires (p[i].Jump? && Inlined(p, i)[i].Jump?) || (p[i].Split? && Inlined(p, i)[i].Split?)
    ensures var q := Inlined(p, i);
      Weights(q) == Weights(p)[i := ChainWeight(q, i)] && ChainWeight(q, i) < ChainWeight(p, i)
  {
    hide InRange, JumpsForward;
    var q := Inlined(p, i);
    forall pc | 0 <= pc < |p|
      ensures ChainBound(q, pc) == ChainBound(p, pc)
    {
    }
    assert InRange(p) && InRange(q);
    RangeOf(p, i);
    forall k | 0 <= k < |p| && k != i
      ensures Weights(q)[k] == Weights(p)[k]
    {
      RangeOf(p, k);
    }
    if p[i].Jump? {
      ForwardOf(p, p[i].l);
      ForwardOf(p, i);
    } else {
      RangeOf(p, p[i].l1);
      RangeOf(p, p[i].l2);
      if p[p[i].l1].Jump? { ForwardOf(p, p[i].l1); }
      if p[p[i].l2].Jump? { ForwardOf(p, p[i].l2); }
    }
  }

  lemma RangeOf(p: seq<Op>, k: nat)
    requires InRange(p) && k < |p|
    ensures p[k].Split? ==> p[k].l1 < |p| && p[k].l2 < |p|
    ensures p[k].Jump? ==> p[k].l < |p|
  {
  }

  lemma ForwardOf(p: seq<Op>, k: nat)
    requires Inlinable(p) && k < |p| && p[k].Jump?
    ensures p[k].l < |p| && (k < p[k].l || !p[p[k].l].Jump?)
  {
  }

  /** Every rewrite makes the program smaller. */
  lemma InliningShrinks(p: seq<Op>, i: nat)
    requires i < |p| && Inlinable(p) && InlinedOp(p, i).1 && Inlinable(Inlined(p, i))
    ensures Smaller(Inlined(p, i), p)
  {
    hide Total, InRange, JumpsForward;
    var q := Inlined(p, i);
    FlagsUpdated(p, i);
    TotalUpdate(JumpFlags(p), i, if q[i].Jump? then 1 else 0);
    TotalUpdate(SplitFlags(p), i, if q[i].Split? then 1 else 0);
    KindOfInlined(p, i);
    if p[i].Jump? == q[i].Jump? && p[i].Split? == q[i].Split? {
      WeightsUpdated(p, i);
      TotalUpdate(Weights(p), i, ChainWeight(q, i));
    }
  }

  lemma KindOfInlined(p: seq<Op>, i: nat)
    requires i < |p| && InRange(p) && InlinedOp(p, i).1
    ensures p[i].Jump? || p[i].Split?
    ensures var op := InlinedOp(p, i).0;
      (op.Jump? && p[i].Jump?) || op.Split? || op.Match?
  {
  }

  lemma InlinableInRange(p: seq<Op>)
    requires Inlinable(p)
    ensures InRange(p)
  {
  }

  lemma SameRefl(p: seq<Op>)
    ensures SameLanguage(p, p)
  {
  }

  lemma SameTrans(p: seq<Op>, q: seq<Op>, r: seq<Op>)
    requires SameLanguage(p, q) && SameLanguage(q, r)
    ensures SameLanguage(p, r)
  {
    hide Accepts;
  }

  lemma SmallerTrans(p: seq<Op>, q: seq<Op>, r: seq<Op>)
    requires InRange(p) && InRange(q) && InRange(r) && Smaller(q, p) && Smaller(r, q)
    ensures Smaller(r, p)
  {
    hide NJumps, NSplits, ChainTotal;
  }

  lemma NothingInlined(p: seq<Op>, i: nat)
    requires i < |p| && InRange(p) && !InlinedOp(p, i).1
    ensures Inlined(p, i) == p
  {
  }

  // ---------------------------------------------------------------- the loops of optimise

  /** The program after one round has come to instruction `n`. */
  function RoundTo(p: seq<Op>, n: nat): (r: seq<Op>)
    requires n <= |p| && Inlinable(p)
    ensures |r| == |p| && Inlinable(r)
  {
    if n == 0 then p
    else
      var q := RoundTo(p, n - 1);
      InlinedInlinable(q, n - 1);
      Inlined(q, n - 1)
  }

  /** A round keeps the language. It leaves the program as it is, with nothing to inline, or makes it smaller. */
  lemma {:induction false} RoundSound(p: seq<Op>, n: nat)
    requires n <= |p| && Inlinable(p)
    ensures SameLanguage(p, RoundTo(p, n)) && InRange(p) && InRange(RoundTo(p, n))
    ensures if RoundTo(p, n) == p then forall k :: 0 <= k < n ==> !InlinedOp(p, k).1 else Smaller(RoundTo(p, n), p)
    decreases n
  {
    hide SameLanguage, Inlinable, InlinedOp, Inlined, Smaller, InRange;
    InlinableInRange(p);
    if n == 0 {
      SameRefl(p);
    } else {
      var q, r := RoundTo(p, n - 1), RoundTo(p, n);
      RoundSound(p, n - 1);
      InliningSound(q, n - 1);
      SameTrans(p, q, r);
      InlinableInRange(r);
      NotSmaller(p);
      if InlinedOp(q, n - 1).1 {
        InliningShrinks(q, n - 1);
        if q != p {
          SmallerTrans(p, q, r);
        }
      } else {
        NothingInlined(q, n - 1);
      }
    }
  }

  lemma NotSmaller(p: seq<Op>)
    requires InRange(p)
    ensures !Smaller(p, p)
  {
    hide NJumps, NSplits, ChainTotal;
  }

  lemma SmallerLess(q: seq<Op>, p: seq<Op>)
    requires InRange(p) && InRange(q) && Smaller(q, p)
    ensures NJumps(q) <= NJumps(p)
    ensures NJumps(q) == NJumps(p) ==> NSplits(q) <= NSplits(p)
    ensures NJumps(q) == NJumps(p) && NSplits(q) == NSplits(p) ==> ChainTotal(q) < ChainTotal(p)
  {
    hide NJumps, NSplits, ChainTotal;
  }

  /** The program when a round changes nothing any more. */
  function AllInlined(p: seq<Op>): (r: seq<Op>)
    requires Inlinable(p)
    ensures |r| == |p| && Inlinable(r)
    decreases NJumps(p), NSplits(p), if InRange(p) then ChainTotal(p) else 0
  {
    var q := RoundTo(p, |p|);
    RoundSound(p, |p|);
    if q == p then p else
      SmallerLess(q, p);
      AllInlined(q)
  }

  /** There is nothing left to inline, and the language is the same. */
  lemma {:induction false} AllInlinedSound(p: seq<Op>)
    requires Inlinable(p)
    ensures SameLanguage(p, AllInlined(p)) && InRange(AllInlined(p))
    ensures forall i :: 0 <= i < |p| ==> !InlinedOp(AllInlined(p), i).1
    decreases NJumps(p), NSplits(p), if InRange(p) then ChainTotal(p) else 0
  {
    hide SameLanguage, Inlinable, InlinedOp, RoundTo, Smaller, InRange, NJumps, NSplits, ChainTotal;
    var q := RoundTo(p, |p|);
    RoundSound(p, |p|);
    if q != p {
      SmallerLess(q, p);
      AllInlinedSound(q);
      SameTrans(p, q, AllInlined(q));
    }
  }

  /** One round over all instructions. */
  method InlineRound(ops: array<Op>) returns (optimising: bool)
    requires Inlinable(ops[..])
    modifies ops
    ensures ops[..] == RoundTo(old(ops[..]), ops.Length)
    ensures optimising <==> ops[..] != old(ops[..])
  {
    hide SameLanguage, Inlinable, InlinedOp, Inlined, Smaller, InRange;
    optimising := false;
    ghost var before := ops[..];
    for i := 0 to ops.Length
      invariant ops[..] == RoundTo(before, i) && (optimising <==> ops[..] != before)
    {
      ghost var p := ops[..];
      InlinableInRange(p);
      var changed := InlineJumps(ops, i);
      RoundSound(before, i);
      RoundSound(before, i + 1);
      NotSmaller(before);
      if changed {
        InliningShrinks(p, i);
        if p != before {
          SmallerTrans(before, p, ops[..]);
        }
      } else {
        NothingInlined(p, i);
      }
      optimising := optimising || changed;
    }
  }

  /** The fixpoint loop of optimise. */
  method InlineAll(ops: array<Op>)
    requires Inlinable(ops[..])
    modifies ops
    ensures ops[..] == AllInlined(old(ops[..]))
    ensures SameLanguage(old(ops[..]), ops[..])
    ensures InRange(ops[..]) && forall i :: 0 <= i < ops.Length ==> !InlinedOp(ops[..], i).1
  {
    hide SameLanguage, Inlinable, InlinedOp, RoundTo, Smaller, InRange, NJumps, NSplits, ChainTotal;
    AllInlinedSound(ops[..]);
    var optimising := true;
    while optimising
      invariant Inlinable(ops[..]) && AllInlined(ops[..]) == AllInlined(old(ops[..]))
      invariant !optimising ==> ops[..] == AllInlined(ops[..])
      decreases NJumps(ops[..]), NSplits(ops[..]), if InRange(ops[..]) then ChainTotal(ops[..]) else 0, optimising
    {
      ghost var p := ops[..];
      RoundSound(p, |p|);
      optimising := InlineRound(ops);
      if optimising {
        SmallerLess(ops[..], p);
      }
    }
  }

  // ---------------------------------------------------------------- rounds over a given program

  /** What becomes of an instruction with the instructions at its targets. */
  function Rewritten(op: Op, x: Op, y: Op): Op {
    match op
    case Jump(_) => if x.Jump? || x.Split? || x.Match? then x else op
    case Split(s1, s2) =>
      if x.Match? && y.Match? then Match
      else Split(if x.Jump? then x.l else s1, if y.Jump? then y.l else s2)
    case _ => op
  }

  /** What becomes of instruction `k` of `p` when those in front of it are already as in `q`. */
  function RewrittenOp(p: seq<Op>, q: seq<Op>, k: nat): Op
    requires k < |p| == |q| && InRange(p)
  {
    match p[k]
    case Jump(j) => Rewritten(p[k], Mixed(p, q, k, j), Mixed(p, q, k, j))
    case Split(s1, s2) => Rewritten(p[k], Mixed(p, q, k, s1), Mixed(p, q, k, s2))
    case _ => p[k]
  }

  function Mixed(p: seq<Op>, q: seq<Op>, k: nat, t: nat): Op
    requires t < |p| == |q|
  {
    if t < k then q[t] else p[t]
  }

  lemma RewrittenIs(p: seq<Op>, q: seq<Op>, k: nat)
    requires k < |p| == |q| && InRange(p) && InRange(q[..k] + p[k..])
    ensures InlinedOp(q[..k] + p[k..], k).0 == RewrittenOp(p, q, k)
  {
    var m := q[..k] + p[k..];
    assert m[k] == p[k] && forall t :: 0 <= t < |p| ==> m[t] == Mixed(p, q, k, t);
  }

  lemma MixedInRange(p: seq<Op>, q: seq<Op>, k: nat)
    requires k <= |p| == |q| && InRange(p) && InRange(q)
    ensures InRange(q[..k] + p[k..])
  {
  }

  /** A round turns `p` into `q` if every instruction is rewritten to the one that `q` has. */
  lemma {:induction false} RoundIs(p: seq<Op>, q: seq<Op>, n: nat)
    requires n <= |p| == |q| && Inlinable(p) && InRange(p) && InRange(q)
    requires forall k :: 0 <= k < n ==> RewrittenOp(p, q, k) == q[k]
    ensures RoundTo(p, n) == q[..n] + p[n..]
    decreases n
  {
    hide InRange, Inlinable, InlinedOp, RewrittenOp;
    if n > 0 {
      RoundIs(p, q, n - 1);
      MixedInRange(p, q, n - 1);
      RewrittenIs(p, q, n - 1);
      assert q[..n] + p[n..] == (q[..n - 1] + p[n - 1..])[n - 1 := q[n - 1]];
    }
  }

  /** What one round makes of `p`, and leaves as it is in another, is the result. */
  lemma {:induction false} AllInlinedIs(p: seq<Op>, q: seq<Op>)
    requires Inlinable(p) && |q| == |p| && InRange(p) && InRange(q)
    requires forall k :: 0 <= k < |p| ==> RewrittenOp(p, q, k) == q[k]
    requires forall k :: 0 <= k < |p| ==> RewrittenOp(q, q, k) == q[k]
    ensures AllInlined(p) == q
  {
    hide InRange, InlinedOp, RoundTo, NJumps, NSplits, ChainTotal, RewrittenOp;
    RoundIs(p, q, |p|);
    assert q[..|p|] + p[|p|..] == q && q[..|q|] + q[|q|..] == q;
    assert Inlinable(q);
    hide Inlinable;
    RoundIs(q, q, |q|);
  }
}
