/** The rewrites of the regular expression AST and what they do to the language. */
module RegexTransform {
  import opened Basics
  import opened RegexAst

  // ---------------------------------------------------------------- how far a match reaches

  /** A match does not go backwards and does not run off the end of the text. */
  lemma {:induction false} MatchBounds(a: Ast, w: Input, i: nat, j: nat)
    requires Matches(a, w, i, j)
    ensures i <= j && (i <= |w.s| ==> j <= |w.s|)
    decreases a, 0, 0
  {
    match a
    case AComp(_) =>
    case AAssertion(_) =>
    case Alt(nodes) => MatchAnyBounds(nodes, w, i, j);
    case ARep(r, node) =>
      var k: nat :| Allowed(r, k) && Times(node, k, w, i, j);
      TimesBounds(node, k, w, i, j);
    case Concat(nodes) => MatchAllBounds(nodes, w, i, j);
    case SubMatch(_, node) => MatchBounds(node, w, i, j);
  }

  lemma {:induction false} MatchAnyBounds(nodes: seq<Ast>, w: Input, i: nat, j: nat)
    requires MatchesAny(nodes, w, i, j)
    ensures i <= j && (i <= |w.s| ==> j <= |w.s|)
    decreases nodes, 0, 0
  {
    if Matches(nodes[0], w, i, j) {
      MatchBounds(nodes[0], w, i, j);
    } else {
      MatchAnyBounds(nodes[1..], w, i, j);
    }
  }

  lemma {:induction false} MatchAllBounds(nodes: seq<Ast>, w: Input, i: nat, j: nat)
    requires MatchesAll(nodes, w, i, j)
    ensures i <= j && (i <= |w.s| ==> j <= |w.s|)
    decreases nodes, 0, 0
  {
    if nodes != [] {
      var m := MatchesAllHead(nodes, w, i, j);
      MatchBounds(nodes[0], w, i, m);
      MatchAllBounds(nodes[1..], w, m, j);
    }
  }

  lemma {:induction false} TimesBounds(a: Ast, k: nat, w: Input, i: nat, j: nat)
    requires Times(a, k, w, i, j)
    ensures i <= j && (i <= |w.s| ==> j <= |w.s|)
    decreases a, 1, k
  {
    if k > 0 {
      var m := TimesHead(a, k, w, i, j);
      MatchBounds(a, w, i, m);
      TimesBounds(a, k - 1, w, m, j);
    }
  }

  // ---------------------------------------------------------------- reverse

  function Flip(b: Assertion): Assertion {
    match b
    case LineStart => LineEnd
    case LineEnd => LineStart
    case WordBoundary => WordBoundary
    case NonWordBoundary => NonWordBoundary
  }

  /** Ast::reverse. */
  function ReverseAst(a: Ast): Ast {
    match a
    case AComp(_) => a
    case AAssertion(b) => AAssertion(Flip(b))
    case Alt(nodes) => Alt(ReverseAsts(nodes))
    case ARep(r, node) => ARep(r, ReverseAst(node))
    case Concat(nodes) => Concat(ReverseAsts(nodes))
    case SubMatch(kind, node) => SubMatch(kind, ReverseAst(node))
  }

  function ReverseAsts(nodes: seq<Ast>): (r: seq<Ast>)
    ensures |r| == |nodes|
  {
    if nodes == [] then [] else ReverseAsts(nodes[1..]) + [ReverseAst(nodes[0])]
  }

  lemma {:induction false} ReverseAstsConcat(xs: seq<Ast>, ys: seq<Ast>)
    ensures ReverseAsts(xs + ys) == ReverseAsts(ys) + ReverseAsts(xs)
    decreases |xs|
  {
    if xs == [] {
      assert xs + ys == ys;
    } else {
      assert (xs + ys)[0] == xs[0] && (xs + ys)[1..] == xs[1..] + ys;
      ReverseAstsConcat(xs[1..], ys);
    }
  }

  /** Reversing twice gives the expression back. */
  lemma {:induction false} ReverseInvolution(a: Ast)
    ensures ReverseAst(ReverseAst(a)) == a
    decreases a
  {
    match a
    case AComp(_) =>
    case AAssertion(_) =>
    case Alt(nodes) => ReverseAstsInvolution(nodes);
    case ARep(_, node) => ReverseInvolution(node);
    case Concat(nodes) => ReverseAstsInvolution(nodes);
    case SubMatch(_, node) => ReverseInvolution(node);
  }

  /** Reversing keeps greediness, groups and lengths. */
  lemma {:induction false} ReverseKeeps(a: Ast)
    ensures OpLen(ReverseAst(a)) == OpLen(a)
    ensures a.ARep? ==> ReverseAst(a).ARep? && ReverseAst(a).rep == a.rep
    ensures a.SubMatch? ==> ReverseAst(a).SubMatch? && ReverseAst(a).kind == a.kind
    decreases a, 0
  {
    match a
    case Alt(nodes) => ReverseAstsKeep(nodes);
    case Concat(nodes) => ReverseAstsKeep(nodes);
    case ARep(_, node) => ReverseKeeps(node);
    case SubMatch(_, node) => ReverseKeeps(node);
    case _ =>
  }

  lemma {:induction false} ReverseAstsKeep(nodes: seq<Ast>)
    ensures OpLens(ReverseAsts(nodes)) == OpLens(nodes)
    decreases nodes, 0
  {
    if nodes != [] {
      ReverseKeeps(nodes[0]);
      ReverseAstsKeep(nodes[1..]);
      OpLensConcat(ReverseAsts(nodes[1..]), [ReverseAst(nodes[0])]);
      assert [ReverseAst(nodes[0])][1..] == [];
    }
  }

  lemma {:induction false} OpLensConcat(xs: seq<Ast>, ys: seq<Ast>)
    ensures OpLens(xs + ys) == OpLens(xs) + OpLens(ys)
    decreases |xs|
  {
    if xs == [] {
      assert xs + ys == ys;
    } else {
      assert (xs + ys)[1..] == xs[1..] + ys;
      OpLensConcat(xs[1..], ys);
    }
  }

  lemma {:induction false} ReverseAstsInvolution(nodes: seq<Ast>)
    ensures ReverseAsts(ReverseAsts(nodes)) == nodes
    decreases nodes
  {
    if nodes != [] {
      var r := [ReverseAst(nodes[0])];
      ReverseAstsConcat(ReverseAsts(nodes[1..]), r);
      ReverseAstsInvolution(nodes[1..]);
      ReverseInvolution(nodes[0]);
      assert r[1..] == [];
      assert ReverseAsts(r) == [nodes[0]];
    }
  }

  function ReverseText(s: seq<char>): (r: seq<char>)
    ensures |r| == |s|
    ensures forall i :: 0 <= i < |s| ==> r[i] == s[|s| - 1 - i]
  {
    seq(|s|, i requires 0 <= i < |s| => s[|s| - 1 - i])
  }

  /** `v` is `w` read backwards: where an assertion holds in one, its mirror image holds in the other. */
  ghost predicate Mirrored(w: Input, v: Input) {
    && v.s == ReverseText(w.s)
    && forall b: Assertion, p: nat :: p <= |w.s| ==> (v.holds(Flip(b), |w.s| - p) <==> w.holds(b, p))
  }

  /** The reversed expression matches exactly the mirrored parts of a mirrored text. */
  lemma {:induction false} ReverseMirrored(a: Ast, w: Input, v: Input, i: nat, j: nat)
    requires i <= |w.s| && j <= |w.s| && Mirrored(w, v)
    ensures Matches(ReverseAst(a), v, |w.s| - j, |w.s| - i) <==> Matches(a, w, i, j)
    decreases a, 0, 0
  {
    var p, q := |w.s| - j, |w.s| - i;
    match a
    case AComp(_) =>
      assert j == i + 1 ==> v.s[p] == w.s[i];
    case AAssertion(b) =>
      assert Flip(Flip(b)) == b;
      assert v.holds(Flip(b), p) == w.holds(b, j);
    case Alt(nodes) => ReverseMirroredAny(nodes, w, v, i, j);
    case ARep(r, node) =>
      hide Times;
      if Matches(a, w, i, j) {
        var k: nat :| Allowed(r, k) && Times(node, k, w, i, j);
        ReverseMirroredTimes(node, k, w, v, i, j);
        assert Times(ReverseAst(node), k, v, p, q);
      }
      if Matches(ReverseAst(a), v, p, q) {
        var k: nat :| Allowed(r, k) && Times(ReverseAst(node), k, v, p, q);
        ReverseMirroredTimes(node, k, w, v, i, j);
        assert Times(node, k, w, i, j);
      }
    case Concat(nodes) => ReverseMirroredAll(nodes, w, v, i, j);
    case SubMatch(_, node) => ReverseMirrored(node, w, v, i, j);
  }

  lemma {:induction false} MatchesAnyConcat(xs: seq<Ast>, ys: seq<Ast>, w: Input, i: nat, j: nat)
    ensures MatchesAny(xs + ys, w, i, j) <==> MatchesAny(xs, w, i, j) || MatchesAny(ys, w, i, j)
    decreases |xs|
  {
    if xs == [] {
      assert xs + ys == ys;
    } else {
      assert (xs + ys)[0] == xs[0] && (xs + ys)[1..] == xs[1..] + ys;
      MatchesAnyConcat(xs[1..], ys, w, i, j);
    }
  }

  lemma {:induction false} MatchesAnyOne(a: Ast, w: Input, i: nat, j: nat)
    ensures MatchesAny([a], w, i, j) <==> Matches(a, w, i, j)
  {
    assert [a][1..] == [];
  }

  lemma {:induction false} MatchesAllOne(a: Ast, w: Input, i: nat, j: nat)
    ensures MatchesAll([a], w, i, j) <==> Matches(a, w, i, j)
  {
    assert [a][1..] == [];
    if Matches(a, w, i, j) {
      MatchesAllFrom([a], w, i, j, j);
    }
  }

  lemma {:induction false} ReverseMirroredAny(nodes: seq<Ast>, w: Input, v: Input, i: nat, j: nat)
    requires i <= |w.s| && j <= |w.s| && Mirrored(w, v)
    ensures MatchesAny(ReverseAsts(nodes), v, |w.s| - j, |w.s| - i) <==> MatchesAny(nodes, w, i, j)
    decreases nodes, 0, 0
  {
    if nodes != [] {
      var n := |w.s|;
      ReverseMirrored(nodes[0], w, v, i, j);
      ReverseMirroredAny(nodes[1..], w, v, i, j);
      MatchesAnyConcat(ReverseAsts(nodes[1..]), [ReverseAst(nodes[0])], v, n - j, n - i);
      MatchesAnyOne(ReverseAst(nodes[0]), v, n - j, n - i);
    }
  }

  lemma {:induction false} ReverseMirroredAll(nodes: seq<Ast>, w: Input, v: Input, i: nat, j: nat)
    requires i <= |w.s| && j <= |w.s| && Mirrored(w, v)
    ensures MatchesAll(ReverseAsts(nodes), v, |w.s| - j, |w.s| - i) <==> MatchesAll(nodes, w, i, j)
    decreases nodes, 0, 0
  {
    if nodes != [] {
      hide Matches, MatchesAll;
      var n, p, q := |w.s|, |w.s| - j, |w.s| - i;
      var rest, one := ReverseAsts(nodes[1..]), [ReverseAst(nodes[0])];
      MatchesAllConcat(rest, one, v, p, q);
      if MatchesAll(nodes, w, i, j) {
        var m := MatchesAllHead(nodes, w, i, j);
        MatchBounds(nodes[0], w, i, m);
        ReverseMirrored(nodes[0], w, v, i, m);
        ReverseMirroredAll(nodes[1..], w, v, m, j);
        var m' := n - m;
        MatchesAllOne(ReverseAst(nodes[0]), v, m', q);
        assert MatchesAll(rest, v, p, m') && MatchesAll(one, v, m', q);
      }
      if MatchesAll(rest + one, v, p, q) {
        var m': nat :| MatchesAll(rest, v, p, m') && MatchesAll(one, v, m', q);
        MatchAllBounds(rest, v, p, m');
        var m := n - m';
        MatchesAllOne(ReverseAst(nodes[0]), v, m', q);
        ReverseMirrored(nodes[0], w, v, i, m);
        ReverseMirroredAll(nodes[1..], w, v, m, j);
        MatchesAllFrom(nodes, w, i, m, j);
      }
    }
  }

  lemma {:induction false} ReverseMirroredTimes(a: Ast, k: nat, w: Input, v: Input, i: nat, j: nat)
    requires i <= |w.s| && j <= |w.s| && Mirrored(w, v)
    ensures Times(ReverseAst(a), k, v, |w.s| - j, |w.s| - i) <==> Times(a, k, w, i, j)
    decreases a, 1, k
  {
    if k > 0 {
      hide Matches, Times;
      var n, r, p, q := |w.s|, ReverseAst(a), |w.s| - j, |w.s| - i;
      if Times(a, k, w, i, j) {
        var m := TimesHead(a, k, w, i, j);
        MatchBounds(a, w, i, m);
        ReverseMirrored(a, w, v, i, m);
        ReverseMirroredTimes(a, k - 1, w, v, m, j);
        TimesTail(r, k, v, p, n - m, q);
      }
      if Times(r, k, v, p, q) {
        var m' := TimesLast(r, k, v, p, q);
        TimesBounds(r, k - 1, v, p, m');
        var m := n - m';
        ReverseMirrored(a, w, v, i, m);
        ReverseMirroredTimes(a, k - 1, w, v, m, j);
        TimesFrom(a, k, w, i, m, j);
      }
    }
  }

  lemma TextsMirrored(alnum: char -> bool, s: seq<char>)
    ensures Mirrored(TextInput(alnum, s), TextInput(alnum, ReverseText(s)))
  {
    var w, v := TextInput(alnum, s), TextInput(alnum, ReverseText(s));
    forall b: Assertion, p: nat | p <= |s|
      ensures v.holds(Flip(b), |s| - p) <==> w.holds(b, p)
    {
      var q := |s| - p;
      assert p > 0 ==> ReverseText(s)[q] == s[p - 1];
      assert p < |s| ==> ReverseText(s)[q - 1] == s[p];
    }
  }

  /** The reversed expression matches in a text read backwards exactly the mirrored parts of what the expression
      matches in the text. */
  lemma {:induction false} ReverseLanguage(a: Ast, alnum: char -> bool, s: seq<char>, i: nat, j: nat)
    requires i <= |s| && j <= |s|
    ensures Matches(ReverseAst(a), TextInput(alnum, ReverseText(s)), |s| - j, |s| - i) <==>
      Matches(a, TextInput(alnum, s), i, j)
  {
    hide Matches, Mirrored;
    TextsMirrored(alnum, s);
    ReverseMirrored(a, TextInput(alnum, s), TextInput(alnum, ReverseText(s)), i, j);
  }

  // ---------------------------------------------------------------- compress_cats

  function Size(a: Ast): (n: nat)
    ensures n > 0
  {
    match a
    case AComp(_) => 1
    case AAssertion(_) => 1
    case Alt(nodes) => 1 + Sizes(nodes)
    case ARep(_, node) => 1 + Size(node)
    case Concat(nodes) => 1 + Sizes(nodes)
    case SubMatch(_, node) => 1 + Size(node)
  }

  function Sizes(nodes: seq<Ast>): nat {
    if nodes == [] then 0 else Size(nodes[0]) + Sizes(nodes[1..])
  }

  lemma {:induction false} SizesConcat(xs: seq<Ast>, ys: seq<Ast>)
    ensures Sizes(xs + ys) == Sizes(xs) + Sizes(ys)
    decreases |xs|
  {
    if xs == [] {
      assert xs + ys == ys;
    } else {
      assert (xs + ys)[0] == xs[0] && (xs + ys)[1..] == xs[1..] + ys;
      SizesConcat(xs[1..], ys);
    }
  }

  /** The nodes with all nested concatenations, however deep, unpacked in place. */
  function Unpacked(nodes: seq<Ast>): seq<Ast> {
    if nodes == [] then []
    else (if nodes[0].Concat? then Unpacked(nodes[0].nodes) else [nodes[0]]) + Unpacked(nodes[1..])
  }

  predicate NoConcat(nodes: seq<Ast>) {
    forall i :: 0 <= i < |nodes| ==> !nodes[i].Concat?
  }

  lemma {:induction false} UnpackedConcat(xs: seq<Ast>, ys: seq<Ast>)
    ensures Unpacked(xs + ys) == Unpacked(xs) + Unpacked(ys)
    decreases |xs|
  {
    if xs == [] {
      assert xs + ys == ys;
    } else {
      assert (xs + ys)[0] == xs[0] && (xs + ys)[1..] == xs[1..] + ys;
      UnpackedConcat(xs[1..], ys);
    }
  }

  lemma UnpackedOne(a: Ast)
    ensures Unpacked([a]) == if a.Concat? then Unpacked(a.nodes) else [a]
  {
    assert [a][1..] == [];
  }

  lemma {:induction false} UnpackedFixed(nodes: seq<Ast>)
    requires NoConcat(nodes)
    ensures Unpacked(nodes) == nodes
    decreases |nodes|
  {
    if nodes != [] {
      UnpackedFixed(nodes[1..]);
    }
  }

  lemma {:induction false} UnpackedHasNoConcat(nodes: seq<Ast>)
    ensures NoConcat(Unpacked(nodes))
    decreases nodes
  {
    if nodes != [] {
      UnpackedHasNoConcat(nodes[1..]);
      if nodes[0].Concat? {
        UnpackedHasNoConcat(nodes[0].nodes);
      }
    }
  }

  /** Unpacking nested concatenations leaves the language alone. */
  lemma {:induction false} UnpackedLanguage(nodes: seq<Ast>, w: Input, i: nat, j: nat)
    ensures MatchesAll(Unpacked(nodes), w, i, j) <==> MatchesAll(nodes, w, i, j)
    decreases nodes
  {
    if nodes != [] {
      var head := if nodes[0].Concat? then Unpacked(nodes[0].nodes) else [nodes[0]];
      MatchesAllConcat(head, Unpacked(nodes[1..]), w, i, j);
      forall m: nat
        ensures MatchesAll(head, w, i, m) <==> Matches(nodes[0], w, i, m)
        ensures MatchesAll(Unpacked(nodes[1..]), w, m, j) <==> MatchesAll(nodes[1..], w, m, j)
      {
        if nodes[0].Concat? {
          UnpackedLanguage(nodes[0].nodes, w, i, m);
        } else {
          MatchesAllOne(nodes[0], w, i, m);
        }
        UnpackedLanguage(nodes[1..], w, m, j);
      }
      hide MatchesAll, Matches, Unpacked;
      if MatchesAll(nodes, w, i, j) {
        var m := MatchesAllHead(nodes, w, i, j);
        assert MatchesAll(head, w, i, m) && MatchesAll(Unpacked(nodes[1..]), w, m, j);
      }
      if m: nat :| MatchesAll(head, w, i, m) && MatchesAll(Unpacked(nodes[1..]), w, m, j) {
        MatchesAllFrom(nodes, w, i, m, j);
      }
    }
  }

  /** Unpacks one level of concatenations after another until none is left. */
  method CompressCats(nodes: seq<Ast>) returns (flat: seq<Ast>, compressed: bool)
    ensures flat == Unpacked(nodes) && NoConcat(flat)
    ensures compressed <==> !NoConcat(nodes)
    ensures forall w, i: nat, j: nat :: MatchesAll(flat, w, i, j) <==> MatchesAll(nodes, w, i, j)
  {
    hide MatchesAll, Matches;
    var buf := nodes;
    var compressing := true;
    compressed := false;
    while compressing
      invariant Unpacked(buf) == Unpacked(nodes)
      invariant !compressing ==> NoConcat(buf)
      invariant if compressed then !NoConcat(nodes) else buf == nodes
      decreases compressing, Sizes(buf)
    {
      var before := buf;
      buf, compressing := UnpackOnce(buf);
      compressed := compressed || compressing;
      if !compressing {
        UnpackedFixed(buf);
        UnpackedFixed(before);
      }
    }
    UnpackedFixed(buf);
    flat := buf;
    forall w, i: nat, j: nat
      ensures MatchesAll(flat, w, i, j) <==> MatchesAll(nodes, w, i, j)
    {
      UnpackedLanguage(nodes, w, i, j);
    }
  }

  /** One pass: the children of every concatenation take its place. */
  method UnpackOnce(buf: seq<Ast>) returns (buf2: seq<Ast>, compressing: bool)
    ensures Unpacked(buf2) == Unpacked(buf)
    ensures compressing <==> !NoConcat(buf)
    ensures if compressing then Sizes(buf2) < Sizes(buf) else buf2 == buf
  {
    hide Unpacked, Sizes, Size;
    buf2, compressing := [], false;
    Nothing();
    for k := 0 to |buf|
      invariant Unpacked(buf2) == Unpacked(buf[..k])
      invariant compressing <==> !NoConcat(buf[..k])
      invariant if compressing then Sizes(buf2) < Sizes(buf[..k]) else buf2 == buf[..k]
    {
      var node := buf[k];
      assert buf[..k + 1] == buf[..k] + [node];
      assert NoConcat(buf[..k + 1]) <==> NoConcat(buf[..k]) && !node.Concat?;
      UnpackedConcat(buf[..k], [node]);
      UnpackedOne(node);
      SizesConcat(buf[..k], [node]);
      SizesOne(node);
      if node.Concat? {
        UnpackedConcat(buf2, node.nodes);
        SizesConcat(buf2, node.nodes);
        buf2 := buf2 + node.nodes;
        compressing := true;
      } else {
        UnpackedConcat(buf2, [node]);
        SizesConcat(buf2, [node]);
        buf2 := buf2 + [node];
      }
    }
    assert buf[..|buf|] == buf;
  }

  lemma Nothing()
    ensures Unpacked([]) == [] && Sizes([]) == 0
  {
  }

  lemma {:induction false} SizesOne(a: Ast)
    ensures Sizes([a]) == Size(a)
    ensures a.Concat? ==> Sizes(a.nodes) < Size(a)
  {
    assert [a][1..] == [];
  }

  // ---------------------------------------------------------------- counted repetition

  datatype Counted = Exactly(n: nat) | AtLeast(n: nat) | Between(n: nat, m: nat)

  /** How often a counted repetition may match its operand. */
  predicate CountAllowed(c: Counted, k: nat) {
    match c
    case Exactly(n) => k == n
    case AtLeast(n) => n <= k
    case Between(n, m) => n <= k <= m
  }

  function Copies(a: Ast, n: nat): (r: seq<Ast>)
    ensures |r| == n
  {
    if n == 0 then [] else [a] + Copies(a, n - 1)
  }

  lemma {:induction false} CopiesLanguage(a: Ast, n: nat, w: Input, i: nat, j: nat)
    ensures MatchesAll(Copies(a, n), w, i, j) <==> Times(a, n, w, i, j)
    decreases n
  {
    if n > 0 {
      var all := Copies(a, n);
      assert all[0] == a && all[1..] == Copies(a, n - 1);
      hide MatchesAll, Matches, Times;
      if MatchesAll(all, w, i, j) {
        var m := MatchesAllHead(all, w, i, j);
        CopiesLanguage(a, n - 1, w, m, j);
        TimesFrom(a, n, w, i, m, j);
      }
      if Times(a, n, w, i, j) {
        var m := TimesHead(a, n, w, i, j);
        CopiesLanguage(a, n - 1, w, m, j);
        MatchesAllFrom(all, w, i, m, j);
      }
    }
  }

  /** Optional copies match any number of times up to their own number. */
  lemma {:induction false} OptionalCopies(a: Ast, p: nat, w: Input, i: nat, j: nat)
    ensures MatchesAll(Copies(ARep(Quest(Greedy), a), p), w, i, j) <==>
      exists k: nat :: k <= p && Times(a, k, w, i, j)
    decreases p
  {
    var q := ARep(Quest(Greedy), a);
    if p == 0 {
      TimesNone(a, w, i, j);
      assert i == j ==> 0 <= p && Times(a, 0, w, i, j);
    } else {
      var all := Copies(q, p);
      assert all[0] == q && all[1..] == Copies(q, p - 1);
      hide MatchesAll, Times;
      if MatchesAll(all, w, i, j) {
        var m := MatchesAllHead(all, w, i, j);
        var l: nat :| Allowed(Quest(Greedy), l) && Times(a, l, w, i, m);
        OptionalCopies(a, p - 1, w, m, j);
        var k: nat :| k <= p - 1 && Times(a, k, w, m, j);
        TimesSum(a, l, k, w, i, j);
        assert exists n: nat :: Times(a, l, w, i, n) && Times(a, k, w, n, j);
        assert l + k <= p && Times(a, l + k, w, i, j);
      }
      if k: nat :| k <= p && Times(a, k, w, i, j) {
        if k == 0 {
          TimesNone(a, w, i, j);
          OptionalFrom(a, 0, w, i, i);
          OptionalCopies(a, p - 1, w, i, j);
          assert 0 <= p - 1 && Times(a, 0, w, i, j);
          MatchesAllFrom(all, w, i, i, j);
        } else {
          var m := TimesHead(a, k, w, i, j);
          TimesOnce(a, w, i, m);
          OptionalFrom(a, 1, w, i, m);
          OptionalCopies(a, p - 1, w, m, j);
          assert k - 1 <= p - 1 && Times(a, k - 1, w, m, j);
          MatchesAllFrom(all, w, i, m, j);
        }
      }
    }
  }

  lemma {:induction false} OptionalFrom(a: Ast, l: nat, w: Input, i: nat, m: nat)
    requires l <= 1 && (if l == 0 then i == m else Matches(a, w, i, m))
    ensures Matches(ARep(Quest(Greedy), a), w, i, m)
  {
    hide Times;
    TimesNone(a, w, i, m);
    TimesOnce(a, w, i, m);
    assert Allowed(Quest(Greedy), l) && Times(a, l, w, i, m);
  }

  datatype ApplyOutcome = Done | NoOperand | Underflow

  /** Counted::apply: the last node is replaced by what the count asks for. The counts are unsigned:
      `{n,}` with zero and `{n,m}` with `m < n` underflow. */
  method ApplyCounted(c: Counted, nodes: seq<Ast>) returns (r: seq<Ast>, outcome: ApplyOutcome)
    ensures outcome == NoOperand <==> nodes == []
    ensures outcome == Underflow <==> nodes != [] && ((c.AtLeast? && c.n == 0) || (c.Between? && c.m < c.n))
    ensures outcome == Done ==> nodes != [] && forall w, i: nat, j: nat ::
      MatchesAll(r, w, i, j) <==> CountedLanguage(c, nodes, w, i, j)
    ensures outcome == Done ==> var k := |nodes| - 1;
      |r| >= k && r[..k] == nodes[..k] && IsExpansion(c, nodes[k], r[k..])
  {
    hide MatchesAll, Matches, Times, CountedLanguage, Copies;
    if nodes == [] {
      return nodes, NoOperand;
    }
    var last, rest := nodes[|nodes| - 1], nodes[..|nodes| - 1];
    var added;
    match c {
      case Exactly(n) =>
        added := Copies(last, n);
      case AtLeast(n) =>
        if n == 0 {
          return rest, Underflow;
        }
        added := Copies(last, n - 1) + [ARep(Plus(Greedy), last)];
      case Between(n, m) =>
        if m < n {
          return rest, Underflow;
        }
        added := Copies(last, n) + Copies(ARep(Quest(Greedy), last), m - n);
    }
    r, outcome := rest + added, Done;
    forall w, i: nat, j: nat
      ensures MatchesAll(r, w, i, j) <==> CountedLanguage(c, nodes, w, i, j)
    {
      AddedAfter(c, nodes, added, w, i, j);
    }
  }

  /** The language a counted repetition should have: the earlier nodes, then an allowed number of
      matches of the last node. */
  ghost predicate CountedLanguage(c: Counted, nodes: seq<Ast>, w: Input, i: nat, j: nat)
    requires nodes != []
  {
    var rest, last := nodes[..|nodes| - 1], nodes[|nodes| - 1];
    exists m: nat, k: nat :: MatchesAll(rest, w, i, m) && CountAllowed(c, k) && Times(last, k, w, m, j)
  }

  /** What replaces the operand. */
  predicate IsExpansion(c: Counted, a: Ast, added: seq<Ast>) {
    match c
    case Exactly(n) => added == Copies(a, n)
    case AtLeast(n) => n > 0 && added == Copies(a, n - 1) + [ARep(Plus(Greedy), a)]
    case Between(n, m) => n <= m && added == Copies(a, n) + Copies(ARep(Quest(Greedy), a), m - n)
  }

  /** An expansion matches an allowed number of times. */
  lemma {:induction false} ExpansionLanguage(c: Counted, a: Ast, added: seq<Ast>, w: Input, i: nat, j: nat)
    requires IsExpansion(c, a, added)
    ensures MatchesAll(added, w, i, j) <==> exists k: nat :: CountAllowed(c, k) && Times(a, k, w, i, j)
  {
    hide MatchesAll, Matches, Times, Copies;
    match c {
      case Exactly(n) =>
        CopiesLanguage(a, n, w, i, j);
      case AtLeast(n) => AtLeastLanguage(a, n, w, i, j);
      case Between(n, m) => BetweenLanguage(a, n, m, w, i, j);
    }
  }

  lemma AtLeastLanguage(a: Ast, n: nat, w: Input, i: nat, j: nat)
    requires n > 0
    ensures MatchesAll(Copies(a, n - 1) + [ARep(Plus(Greedy), a)], w, i, j) <==>
      exists k: nat :: CountAllowed(AtLeast(n), k) && Times(a, k, w, i, j)
  {
    var plus, xs := ARep(Plus(Greedy), a), Copies(a, n - 1);
    MatchesAllConcat(xs, [plus], w, i, j);
    hide MatchesAll, Times, Copies;
    if MatchesAll(xs + [plus], w, i, j) {
      var m: nat :| MatchesAll(xs, w, i, m) && MatchesAll([plus], w, m, j);
      CopiesLanguage(a, n - 1, w, i, m);
      MatchesAllOne(plus, w, m, j);
      var k: nat :| Allowed(plus.rep, k) && Times(a, k, w, m, j);
      TimesSum(a, n - 1, k, w, i, j);
      assert exists l: nat :: Times(a, n - 1, w, i, l) && Times(a, k, w, l, j);
      assert CountAllowed(AtLeast(n), n - 1 + k) && Times(a, n - 1 + k, w, i, j);
    }
    if k: nat :| CountAllowed(AtLeast(n), k) && Times(a, k, w, i, j) {
      TimesSum(a, n - 1, k - (n - 1), w, i, j);
      var m: nat :| Times(a, n - 1, w, i, m) && Times(a, k - (n - 1), w, m, j);
      CopiesLanguage(a, n - 1, w, i, m);
      assert Allowed(plus.rep, k - (n - 1));
      MatchesAllOne(plus, w, m, j);
    }
  }

  lemma BetweenLanguage(a: Ast, n: nat, m: nat, w: Input, i: nat, j: nat)
    requires n <= m
    ensures MatchesAll(Copies(a, n) + Copies(ARep(Quest(Greedy), a), m - n), w, i, j) <==>
      exists k: nat :: CountAllowed(Between(n, m), k) && Times(a, k, w, i, j)
  {
    hide MatchesAll, Matches, Times, Copies;
    var xs, ys := Copies(a, n), Copies(ARep(Quest(Greedy), a), m - n);
    MatchesAllConcat(xs, ys, w, i, j);
    if MatchesAll(xs + ys, w, i, j) {
      var p: nat :| MatchesAll(xs, w, i, p) && MatchesAll(ys, w, p, j);
      CopiesLanguage(a, n, w, i, p);
      OptionalCopies(a, m - n, w, p, j);
      var k: nat :| k <= m - n && Times(a, k, w, p, j);
      TimesSum(a, n, k, w, i, j);
      assert exists l: nat :: Times(a, n, w, i, l) && Times(a, k, w, l, j);
      assert CountAllowed(Between(n, m), n + k) && Times(a, n + k, w, i, j);
    }
    if k: nat :| CountAllowed(Between(n, m), k) && Times(a, k, w, i, j) {
      TimesSum(a, n, k - n, w, i, j);
      var p: nat :| Times(a, n, w, i, p) && Times(a, k - n, w, p, j);
      CopiesLanguage(a, n, w, i, p);
      OptionalCopies(a, m - n, w, p, j);
      assert k - n <= m - n && Times(a, k - n, w, p, j);
    }
  }

  lemma AddedAfter(c: Counted, nodes: seq<Ast>, added: seq<Ast>, w: Input, i: nat, j: nat)
    requires nodes != [] && IsExpansion(c, nodes[|nodes| - 1], added)
    ensures MatchesAll(nodes[..|nodes| - 1] + added, w, i, j) <==> CountedLanguage(c, nodes, w, i, j)
  {
    hide MatchesAll, Matches, Times, Copies, IsExpansion;
    var last, rest := nodes[|nodes| - 1], nodes[..|nodes| - 1];
    MatchesAllConcat(rest, added, w, i, j);
    if MatchesAll(rest + added, w, i, j) {
      var m: nat :| MatchesAll(rest, w, i, m) && MatchesAll(added, w, m, j);
      ExpansionLanguage(c, last, added, w, m, j);
    }
    if m: nat, k: nat :| MatchesAll(rest, w, i, m) && CountAllowed(c, k) && Times(last, k, w, m, j) {
      ExpansionLanguage(c, last, added, w, m, j);
    }
  }

  // ---------------------------------------------------------------- replace_common_classes

  /** Comp::replace_common_classes: the class of an equivalent common class, as the source decides it. */
  function ReplaceCommonClasses(c: Comp): Comp {
    if !c.Class? then c
    else
      var cls := c.cls;
      if cls.chars == [] && cls.ranges == [('0', '9')] then if cls.negated then NonNumeric else Numeric
      else if cls.chars == ['_'] && ('0', '9') in cls.ranges && ('a', 'z') in cls.ranges && ('A', 'Z') in cls.ranges
      then if cls.negated then NonAlphaNumeric else AlphaNumeric
      else c
  }

  /** Nothing is replaced, or the class is not negated and has no range that leaves the word characters. */
  ghost predicate Replaceable(c: Comp) {
    || ReplaceCommonClasses(c) == c
    || (!c.cls.negated && forall i, ch: char ::
      0 <= i < |c.cls.ranges| && c.cls.ranges[i].0 <= ch <= c.cls.ranges[i].1 ==> IsAsciiWord(ch))
  }

  /** The replacement matches the same characters exactly in these cases. A negated class never matches a
      newline; what replaces it does. */
  lemma ReplacementSound(c: Comp)
    ensures (forall ch: char :: ReplaceCommonClasses(c).Matches(ch) <==> c.Matches(ch)) <==> Replaceable(c)
    ensures c.Class? && ReplaceCommonClasses(c).Class? ==>
      && !(c.cls.chars == [] && c.cls.ranges == [('0', '9')])
      && !(c.cls.chars == ['_'] && forall r :: r in {('0', '9'), ('a', 'z'), ('A', 'Z')} ==> r in c.cls.ranges)
  {
    var d := ReplaceCommonClasses(c);
    if d != c {
      var cls := c.cls;
      if cls.negated {
        assert d.Matches('\n') && !c.Matches('\n');
      } else if cls.chars == [] {
        assert cls.ranges[0] == ('0', '9');
        assert forall ch: char :: IsAsciiDigit(ch) ==> cls.ranges[0].0 <= ch <= cls.ranges[0].1;
      } else {
        var x :| 0 <= x < |cls.ranges| && cls.ranges[x] == ('0', '9');
        var y :| 0 <= y < |cls.ranges| && cls.ranges[y] == ('a', 'z');
        var z :| 0 <= z < |cls.ranges| && cls.ranges[z] == ('A', 'Z');
        assert forall ch: char :: IsAsciiWord(ch) ==> c.Matches(ch);
        forall i, ch: char | 0 <= i < |cls.ranges| && cls.ranges[i].0 <= ch <= cls.ranges[i].1
          ensures c.Matches(ch)
        {
        }
        assert forall ch: char :: d.Matches(ch) <==> IsAsciiWord(ch);
      }
    }
  }

  /** A negated class that is replaced matches a newline as well then, and loses or gains nothing else exactly
      if it has no range that leaves the word characters. */
  lemma NegatedReplacement(c: Comp)
    requires c.Class? && c.cls.negated && ReplaceCommonClasses(c) != c
    ensures !ReplaceCommonClasses(c).Class?
    ensures (forall ch: char :: ReplaceCommonClasses(c).Matches(ch) <==> c.Matches(ch) || ch == '\n') <==>
      forall i, ch: char :: 0 <= i < |c.cls.ranges| && c.cls.ranges[i].0 <= ch <= c.cls.ranges[i].1 ==>
        IsAsciiWord(ch) || ch == '\n'
  {
    var cls, d := c.cls, ReplaceCommonClasses(c);
    var plain := Class(CharClass(false, cls.chars, cls.ranges));
    ReplacementCovers(plain);
    assert forall ch: char :: ch != '\n' ==> c.Matches(ch) == !plain.Matches(ch);
    assert forall ch: char :: d.Matches(ch) == !ReplaceCommonClasses(plain).Matches(ch);
    if forall ch: char :: d.Matches(ch) <==> c.Matches(ch) || ch == '\n' {
      forall i, ch: char | 0 <= i < |cls.ranges| && cls.ranges[i].0 <= ch <= cls.ranges[i].1
        ensures IsAsciiWord(ch) || ch == '\n'
      {
        assert plain.Matches(ch);
      }
    }
  }

  /** What replaces a class matches only word characters, and only what the class matches. */
  lemma ReplacementCovers(c: Comp)
    requires c.Class? && !c.cls.negated && ReplaceCommonClasses(c) != c
    ensures forall ch: char :: ReplaceCommonClasses(c).Matches(ch) ==> c.Matches(ch) && IsAsciiWord(ch)
    ensures forall ch: char :: c.Matches(ch) ==> ReplaceCommonClasses(c).Matches(ch) || exists i ::
      0 <= i < |c.cls.ranges| && c.cls.ranges[i].0 <= ch <= c.cls.ranges[i].1
    ensures forall ch: char :: c.Matches(ch) && IsAsciiWord(ch) ==> ReplaceCommonClasses(c).Matches(ch)
  {
    var cls := c.cls;
    if cls.chars == [] {
      assert cls.ranges[0] == ('0', '9');
      assert forall ch: char :: IsAsciiDigit(ch) ==> cls.ranges[0].0 <= ch <= cls.ranges[0].1;
    } else {
      var x :| 0 <= x < |cls.ranges| && cls.ranges[x] == ('0', '9');
      var y :| 0 <= y < |cls.ranges| && cls.ranges[y] == ('a', 'z');
      var z :| 0 <= z < |cls.ranges| && cls.ranges[z] == ('A', 'Z');
      assert forall ch: char :: IsAsciiWord(ch) ==> c.Matches(ch);
    }
  }

  // ---------------------------------------------------------------- Ast::optimise

  /** What Ast::optimise makes of an expression; it looks at the root alone. */
  function OptimisedAst(a: Ast): Ast {
    match a
    case AComp(c) => AComp(ReplaceCommonClasses(c))
    case Concat(nodes) => Concat(Unpacked(nodes))
    case _ => a
  }

  method OptimiseAst(ast: Ast) returns (r: Ast)
    ensures r == OptimisedAst(ast)
    ensures r.Concat? ==> NoConcat(r.nodes)
  {
    if ast.Concat? {
      UnpackedHasNoConcat(ast.nodes);
    }
    hide Unpacked;
    r := ast;
    var optimising := true;
    while optimising
      invariant OptimisedAst(r) == OptimisedAst(ast) && (!optimising ==> r == OptimisedAst(ast))
      decreases optimising, (r.AComp? && r.comp.Class?) || (r.Concat? && !NoConcat(r.nodes))
    {
      match r
      case AComp(c) =>
        var d := ReplaceCommonClasses(c);
        optimising := d != c;
        r := AComp(d);
      case Concat(nodes) =>
        var flat;
        flat, optimising := CompressCats(nodes);
        UnpackedFixed(flat);
        r := Concat(flat);
      case _ =>
        optimising := false;
    }
  }

  /** Two expressions have the same matches in every text. */
  ghost predicate SameMatches(a: Ast, b: Ast) {
    forall w: Input, i: nat, j: nat :: Matches(a, w, i, j) <==> Matches(b, w, i, j)
  }

  /** Optimising keeps the language exactly if a class at the root is replaced by an equal one. */
  lemma OptimisedLanguage(a: Ast)
    ensures SameMatches(OptimisedAst(a), a) <==> (a.AComp? ==> Replaceable(a.comp))
  {
    hide Replaceable, ReplaceCommonClasses, Unpacked;
    match a
    case AComp(c) =>
      ReplacementSound(c);
      ClassesDiffer(c);
    case Concat(nodes) =>
      forall w, i: nat, j: nat
        ensures Matches(OptimisedAst(a), w, i, j) <==> Matches(a, w, i, j)
      {
        UnpackedLanguage(nodes, w, i, j);
      }
    case _ =>
  }

  /** A character that only one of two classes has makes a text that only one of them matches. */
  lemma ClassesDiffer(c: Comp)
    ensures var d := ReplaceCommonClasses(c);
      SameMatches(AComp(d), AComp(c)) <==> forall ch: char :: d.Matches(ch) <==> c.Matches(ch)
  {
    hide ReplaceCommonClasses, Comp.Matches;
    var d := ReplaceCommonClasses(c);
    if ch: char :| d.Matches(ch) != c.Matches(ch) {
      var w := Input([ch], (b: Assertion, p: nat) => false);
      assert w.s[0] == ch;
      assert Matches(AComp(d), w, 0, 1) != Matches(AComp(c), w, 0, 1);
    }
  }

  lemma {:induction false} UnpackedWellFormed(nodes: seq<Ast>)
    requires forall k :: 0 <= k < |nodes| ==> WellFormed(nodes[k])
    ensures forall k :: 0 <= k < |Unpacked(nodes)| ==> WellFormed(Unpacked(nodes)[k])
    decreases nodes
  {
    if nodes != [] {
      UnpackedWellFormed(nodes[1..]);
      if nodes[0].Concat? {
        UnpackedWellFormed(nodes[0].nodes);
      }
    }
  }

  lemma {:induction false} OptimisedWellFormed(a: Ast)
    requires WellFormed(a)
    ensures WellFormed(OptimisedAst(a))
  {
    if a.Concat? {
      UnpackedWellFormed(a.nodes);
    }
  }

  lemma {:induction false} UnpackedReverse(nodes: seq<Ast>)
    ensures Unpacked(ReverseAsts(nodes)) == ReverseAsts(Unpacked(nodes))
    decreases nodes
  {
    if nodes != [] {
      var first := nodes[0];
      UnpackedReverse(nodes[1..]);
      if first.Concat? {
        UnpackedReverse(first.nodes);
      }
      var head := if first.Concat? then Unpacked(first.nodes) else [first];
      UnpackedConcat(ReverseAsts(nodes[1..]), [ReverseAst(first)]);
      UnpackedOne(ReverseAst(first));
      ReverseAstsConcat(head, Unpacked(nodes[1..]));
      assert [first][1..] == [];
    }
  }

  /** Optimising and reversing can change places. */
  lemma {:induction false} OptimisedReverse(a: Ast)
    ensures OptimisedAst(ReverseAst(a)) == ReverseAst(OptimisedAst(a))
  {
    if a.Concat? {
      UnpackedReverse(a.nodes);
    }
  }
}
