/** The trie: the tree in which keys are collected, the flat arrays that it is turned into, queries on the
    arrays, and merging. Elements of keys are integers, which stand for any totally ordered type. */
module Tries {
  import opened Basics

  type Key = seq<int>

  datatype BuildNode<V> = BuildNode(k: int, data: BuildData<V>)

  datatype BuildData<V> = Internal(children: seq<BuildNode<V>>) | Leaf(v: V)

  type Forest<V> = seq<BuildNode<V>>

  datatype Query<V> = Val(v: V) | Partial | Missing

  // ---------------------------------------------------------------- what a trie means

  /** The answer for a key that is not empty in a trie of the keys and values of `m`. */
  ghost function Answer<V>(m: map<Key, V>, key: Key): Query<V> {
    if key in m then Val(m[key])
    else if exists k :: k in m && key < k then Partial
    else Missing
  }

  /** No key of `m` is equal to `key`, a prefix of it, or extends it. */
  ghost predicate Unrelated<V>(m: map<Key, V>, key: Key) {
    forall k :: k in m ==> !(k <= key) && !(key <= k)
  }

  // ---------------------------------------------------------------- collecting keys

  /** The first node with key element `k`, or the number of nodes. */
  function Find<V>(f: Forest<V>, k: int): (i: nat)
    ensures i <= |f| && (i < |f| ==> f[i].k == k)
    ensures forall j :: 0 <= j < i ==> f[j].k != k
  {
    if f == [] || f[0].k == k then 0 else 1 + Find(f[1..], k)
  }

  function Walk<V>(f: Forest<V>, key: Key): Query<V>
    decreases |key|
  {
    if key == [] then Partial
    else
      var i := Find(f, key[0]);
      if i == |f| then Missing
      else match f[i].data
        case Leaf(v) => if |key| == 1 then Val(v) else Missing
        case Internal(children) => Walk(children, key[1..])
  }

  /** Siblings have different key elements, and an inner node has children. */
  ghost predicate WellFormed<V>(f: Forest<V>)
    decreases f
  {
    && (forall i, j :: 0 <= i < j < |f| ==> f[i].k != f[j].k)
    && forall i :: 0 <= i < |f| ==> WellFormedNode(f[i])
  }

  ghost predicate WellFormedNode<V>(b: BuildNode<V>)
    decreases b
  {
    match b.data
    case Internal(children) => children != [] && WellFormed(children)
    case Leaf(_) => true
  }

  ghost predicate Denotes<V>(f: Forest<V>, m: map<Key, V>) {
    && WellFormed(f) && [] !in m
    && forall q :: q != [] ==> Walk(f, q) == Answer(m, q)
  }

  /** There is room for a key: no key in the forest is a prefix of it or has it as a prefix. */
  predicate Free<V>(f: Forest<V>, key: Key)
    requires key != []
    decreases |key|
  {
    var i := Find(f, key[0]);
    i == |f| || (|key| > 1 && f[i].data.Internal? && Free(f[i].data.children, key[1..]))
  }

  lemma {:induction false} FindUpdated<V>(f: Forest<V>, i: nat, b: BuildNode<V>, k: int)
    requires i < |f| && b.k == f[i].k
    ensures Find(f[i := b], k) == Find(f, k)
    decreases |f|
  {
    if i > 0 {
      assert f[i := b][1..] == f[1..][i - 1 := b];
      FindUpdated(f[1..], i - 1, b, k);
    }
  }

  lemma {:induction false} FindAppended<V>(f: Forest<V>, b: BuildNode<V>, k: int)
    ensures Find(f + [b], k) == if Find(f, k) == |f| && b.k != k then |f| + 1 else Find(f, k)
    decreases |f|
  {
    if f != [] {
      assert (f + [b])[1..] == f[1..] + [b];
      FindAppended(f[1..], b, k);
    }
  }

  /** What a key finds when the tree below one node is replaced. */
  lemma {:induction false} WalkUpdated<V>(f: Forest<V>, i: nat, children: Forest<V>, q: Key)
    requires i < |f| && Find(f, f[i].k) == i && f[i].data.Internal?
    ensures Walk(f[i := BuildNode(f[i].k, Internal(children))], q) ==
      if q != [] && q[0] == f[i].k then Walk(children, q[1..]) else Walk(f, q)
    ensures q != [] && q[0] == f[i].k ==> Walk(f, q) == Walk(f[i].data.children, q[1..])
  {
    if q != [] {
      FindUpdated(f, i, BuildNode(f[i].k, Internal(children)), q[0]);
    }
  }

  lemma {:induction false} WalkAppended<V>(f: Forest<V>, b: BuildNode<V>, q: Key)
    requires Find(f, b.k) == |f|
    ensures Walk(f + [b], q) == if q != [] && q[0] == b.k
      then match b.data {
          case Leaf(v) => if |q| == 1 then Val(v) else Missing
          case Internal(children) => Walk(children, q[1..])
        }
      else Walk(f, q)
  {
    if q != [] {
      FindAppended(f, b, q[0]);
    }
  }

  lemma WellFormedUpdated<V>(f: Forest<V>, i: nat, b: BuildNode<V>)
    requires WellFormed(f) && i < |f| && b.k == f[i].k && WellFormedNode(b)
    ensures WellFormed(f[i := b])
  {
  }

  lemma {:induction false} WellFormedAppended<V>(f: Forest<V>, b: BuildNode<V>)
    requires WellFormed(f) && Find(f, b.k) == |f| && WellFormedNode(b)
    ensures WellFormed(f + [b])
  {
  }

  /** `g` answers as `f` does once `key` is added with value `v`. */
  ghost predicate Added<V>(f: Forest<V>, key: Key, v: V, g: Forest<V>) {
    forall q :: Walk(g, q) == if q == key then Val(v) else if q <= key then Partial else Walk(f, q)
  }

  lemma {:induction false} AddedBelow<V>(f: Forest<V>, i: nat, key: Key, v: V, children: Forest<V>)
    requires i < |f| && Find(f, f[i].k) == i && f[i].data.Internal? && key != [] && key[0] == f[i].k
    requires Added(f[i].data.children, key[1..], v, children)
    ensures Added(f, key, v, f[i := BuildNode(key[0], Internal(children))])
  {
    hide Walk, Find;
    var g := f[i := BuildNode(key[0], Internal(children))];
    forall q
      ensures Walk(g, q) == if q == key then Val(v) else if q <= key then Partial else Walk(f, q)
    {
      WalkUpdated(f, i, children, q);
      HeadAndTail(q, key);
      WalkEmpty(f);
      WalkEmpty(g);
    }
  }

  lemma {:induction false} AddedNode<V>(f: Forest<V>, key: Key, v: V, b: BuildNode<V>)
    requires key != [] && b.k == key[0] && Find(f, key[0]) == |f|
    requires if |key| == 1 then b.data == Leaf(v) else b.data.Internal? && Added([], key[1..], v, b.data.children)
    ensures Added(f, key, v, f + [b])
  {
    var g := f + [b];
    forall q
      ensures Walk(g, q) == if q == key then Val(v) else if q <= key then Partial else Walk(f, q)
    {
      WalkAppended(f, b, q);
      HeadAndTail(q, key);
    }
  }

  lemma HeadAndTail(q: Key, key: Key)
    requires key != []
    ensures q != [] ==> (q == key <==> q[0] == key[0] && q[1..] == key[1..])
    ensures q != [] ==> (q <= key <==> q[0] == key[0] && q[1..] <= key[1..])
    ensures q == [] ==> q <= key && q != key
  {
    if q != [] {
      assert q == [q[0]] + q[1..] && key == [key[0]] + key[1..];
    }
  }

  lemma {:induction false} WalkEmpty<V>(f: Forest<V>)
    ensures Walk(f, []) == Partial
  {
  }

  method Insert<V>(key: Key, v: V, current: Forest<V>) returns (r: Result<Forest<V>, string>)
    requires key != [] && WellFormed(current)
    ensures r.Ok? <==> Free(current, key)
    ensures r.Ok? ==> r.value != [] && WellFormed(r.value)
    ensures r.Ok? ==> Added(current, key, v, r.value)
    decreases |key|
  {
    for i := 0 to |current|
      invariant i <= Find(current, key[0])
    {
      if current[i].k == key[0] {
        if |key| <= 1 {
          return Err("duplicate entry for key");
        }
        match current[i].data {
          case Internal(nodes) =>
            var inner := Insert(key[1..], v, nodes);
            if inner.Err? {
              return Err(inner.error);
            }
            AddedBelow(current, i, key, v, inner.value);
            WellFormedUpdated(current, i, BuildNode(key[0], Internal(inner.value)));
            r := Ok(current[i := BuildNode(key[0], Internal(inner.value))]);
            return;
          case Leaf(_) =>
            return Err("attempt to insert into value node");
        }
      }
    }
    var node: BuildNode<V>;
    if |key| == 1 {
      node := BuildNode(key[0], Leaf(v));
    } else {
      var inner := Insert(key[1..], v, []);
      node := BuildNode(key[0], Internal(inner.value));
    }
    AddedNode(current, key, v, node);
    WellFormedAppended(current, node);
    r := Ok(current + [node]);
  }

  /** There is room for a key exactly when the forest does not know it and none of its proper prefixes
      has a value. */
  lemma {:induction false} FreeIff<V>(f: Forest<V>, key: Key)
    requires key != []
    ensures Free(f, key) <==> Walk(f, key).Missing? && forall n :: 0 < n < |key| ==> !Walk(f, key[..n]).Val?
    decreases |key|
  {
    var i := Find(f, key[0]);
    if i == |f| {
    } else if |key| == 1 {
      assert key[1..] == [];
    } else if f[i].data.Leaf? {
      assert Walk(f, key[..1]).Val?;
    } else {
      var children, rest := f[i].data.children, key[1..];
      FreeIff(children, rest);
      forall n | 0 < n < |key|
        ensures Walk(f, key[..n]) == Walk(children, rest[..n - 1])
      {
        assert key[..n][1..] == rest[..n - 1];
      }
      if n :| 0 < n < |key| && Walk(f, key[..n]).Val? {
        assert Walk(children, rest[..n - 1]).Val? && rest[..0] == [];
      }
      if n :| 0 < n < |rest| && Walk(children, rest[..n]).Val? {
        assert Walk(f, key[..n + 1]) == Walk(children, rest[..n + 1 - 1]);
      }
    }
  }

  lemma {:induction false} FreeMeans<V>(f: Forest<V>, m: map<Key, V>, key: Key)
    requires Denotes(f, m) && key != []
    ensures Free(f, key) <==> Unrelated(m, key)
  {
    hide Free;
    FreeIff(f, key);
    if Unrelated(m, key) {
      forall n | 0 < n < |key|
        ensures !Walk(f, key[..n]).Val?
      {
        assert key[..n] <= key;
      }
    } else {
      var k :| k in m && (k <= key || key <= k);
      if k == key {
        assert Walk(f, key).Val?;
      } else if k <= key {
        assert key[..|k|] == k && Walk(f, k).Val?;
      } else {
        assert !Walk(f, key).Missing?;
      }
    }
  }

  lemma {:induction false} AddedDenotes<V>(f: Forest<V>, m: map<Key, V>, key: Key, v: V, g: Forest<V>)
    requires Denotes(f, m) && key != [] && Unrelated(m, key) && Added(f, key, v, g) && WellFormed(g)
    ensures Denotes(g, m[key := v])
  {
    hide WellFormed;
    var m' := m[key := v];
    forall q | q != []
      ensures Walk(g, q) == Answer(m', q)
    {
      if q == key {
      } else if q <= key {
        assert q < key && key in m' && q !in m;
      } else if q !in m {
        if k :| k in m && q < k {
          assert k in m';
        }
        if k :| k in m' && q < k {
          assert k in m;
        }
      }
    }
  }

  // ---------------------------------------------------------------- the flat arrays

  datatype Node = Node(key: int, data: Data)

  datatype Data = InternalAt(childStart: nat, nChildren: nat) | LeafAt(i: nat)

  /** The `n` nodes from `start` hold the forest in sorted order, and all nodes of it are from `lo` on. */
  ghost predicate Holds<V>(nodes: seq<Node>, values: seq<V>, lo: nat, start: nat, n: nat, f: Forest<V>)
    decreases f
  {
    && n == |f| && lo <= start && start + n <= |nodes|
    && (forall i, j :: start <= i < j < start + n ==> nodes[i].key < nodes[j].key)
    && (forall b :: b in f ==> exists i :: start <= i < start + n && nodes[i].key == b.k)
    && forall i :: start <= i < start + n ==>
      var m := Find(f, nodes[i].key); m < |f| && HoldsNode(nodes, values, lo, nodes[i], f[m])
  }

  ghost predicate HoldsNode<V>(nodes: seq<Node>, values: seq<V>, lo: nat, node: Node, b: BuildNode<V>)
    decreases b
  {
    match (node.data, b.data)
    case (LeafAt(i), Leaf(v)) => i < |values| && values[i] == v
    case (InternalAt(childStart, nChildren), Internal(children)) =>
      Holds(nodes, values, lo, childStart, nChildren, children)
    case _ => false
  }

  /** What is held stays held when the arrays grow and nodes in front of `lo` change. */
  lemma {:induction false} HoldsKept<V>(nodes: seq<Node>, values: seq<V>, lo: nat, start: nat, n: nat, f: Forest<V>,
                      nodes': seq<Node>, values': seq<V>)
    requires Holds(nodes, values, lo, start, n, f)
    requires |nodes| <= |nodes'| && lo <= |nodes| && nodes[lo..] == nodes'[lo..|nodes|] && values <= values'
    ensures Holds(nodes', values', lo, start, n, f)
    decreases f
  {
    forall i | start <= i < start + n
      ensures nodes'[i] == nodes[i]
      ensures HoldsNode(nodes', values', lo, nodes'[i], f[Find(f, nodes[i].key)])
    {
      assert nodes[lo..][i - lo] == nodes'[lo..|nodes|][i - lo];
      HoldsNodeKept(nodes, values, lo, nodes[i], f[Find(f, nodes[i].key)], nodes', values');
    }
  }

  lemma {:induction false} HoldsNodeKept<V>(nodes: seq<Node>, values: seq<V>, lo: nat, node: Node, b: BuildNode<V>,
                          nodes': seq<Node>, values': seq<V>)
    requires HoldsNode(nodes, values, lo, node, b)
    requires |nodes| <= |nodes'| && lo <= |nodes| && nodes[lo..] == nodes'[lo..|nodes|] && values <= values'
    ensures HoldsNode(nodes', values', lo, node, b)
    decreases b
  {
    match (node.data, b.data)
    case (LeafAt(i), Leaf(v)) =>
    case (InternalAt(cs, nc), Internal(children)) => HoldsKept(nodes, values, lo, cs, nc, children, nodes', values');
  }

  /** A lower bound may be lowered. */
  lemma {:induction false} HoldsFrom<V>(nodes: seq<Node>, values: seq<V>, lo: nat, start: nat, n: nat,
          f: Forest<V>, lo': nat)
    requires Holds(nodes, values, lo, start, n, f) && lo' <= lo
    ensures Holds(nodes, values, lo', start, n, f)
    decreases f
  {
    forall i | start <= i < start + n
      ensures HoldsNode(nodes, values, lo', nodes[i], f[Find(f, nodes[i].key)])
    {
      HoldsNodeFrom(nodes, values, lo, nodes[i], f[Find(f, nodes[i].key)], lo');
    }
  }

  lemma {:induction false} HoldsNodeFrom<V>(nodes: seq<Node>, values: seq<V>, lo: nat, node: Node,
          b: BuildNode<V>, lo': nat)
    requires HoldsNode(nodes, values, lo, node, b) && lo' <= lo
    ensures HoldsNode(nodes, values, lo', node, b)
    decreases b
  {
    match (node.data, b.data)
    case (LeafAt(_), Leaf(_)) =>
    case (InternalAt(cs, nc), Internal(children)) => HoldsFrom(nodes, values, lo, cs, nc, children, lo');
  }

  predicate Sorted<V>(f: Forest<V>) {
    forall i, j :: 0 <= i < j < |f| ==> f[i].k < f[j].k
  }

  function InsertSorted<V>(b: BuildNode<V>, s: Forest<V>): (r: Forest<V>)
    ensures |r| == |s| + 1
    ensures b in r && (forall x :: x in s ==> x in r) && forall x :: x in r ==> x == b || x in s
  {
    if s == [] || b.k < s[0].k then [b] + s else [s[0]] + InsertSorted(b, s[1..])
  }

  lemma {:induction false} InsertSortedSorts<V>(b: BuildNode<V>, s: Forest<V>)
    requires Sorted(s) && forall x :: x in s ==> x.k != b.k
    ensures Sorted(InsertSorted(b, s))
  {
    if s != [] && b.k >= s[0].k {
      InsertSortedSorts(b, s[1..]);
      var r := InsertSorted(b, s[1..]);
      forall i | 0 <= i < |r|
        ensures s[0].k < r[i].k
      {
        assert r[i] in r;
      }
    }
  }

  /** The forest in the order of the key elements. */
  function SortByKey<V>(f: Forest<V>): (r: Forest<V>)
    ensures |r| == |f|
    ensures (forall x :: x in f ==> x in r) && forall x :: x in r ==> x in f
  {
    if f == [] then [] else InsertSorted(f[0], SortByKey(f[1..]))
  }

  lemma {:induction false} SortByKeySorts<V>(f: Forest<V>)
    requires forall i, j :: 0 <= i < j < |f| ==> f[i].k != f[j].k
    ensures Sorted(SortByKey(f))
  {
    if f != [] {
      SortByKeySorts(f[1..]);
      InsertSortedSorts(f[0], SortByKey(f[1..]));
    }
  }

  function Size<V>(f: Forest<V>): nat
    decreases f
  {
    if f == [] then 0 else 1 + SizeNode(f[0]) + Size(f[1..])
  }

  function SizeNode<V>(b: BuildNode<V>): nat
    decreases b
  {
    match b.data
    case Internal(children) => Size(children)
    case Leaf(_) => 0
  }

  lemma {:induction false} SizeBelow<V>(f: Forest<V>, b: BuildNode<V>)
    requires b in f
    ensures SizeNode(b) < Size(f)
  {
    if f[0] != b {
      SizeBelow(f[1..], b);
    }
  }

  /** The number of nodes with children among the first `k`. */
  function Inner<V>(f: Forest<V>, k: nat): nat
    requires k <= |f|
  {
    if k == 0 then 0 else Inner(f, k - 1) + if f[k - 1].data.Internal? then 1 else 0
  }

  lemma {:induction false} InnerGrows<V>(f: Forest<V>, i: nat, j: nat)
    requires i < j <= |f|
    ensures Inner(f, i) <= Inner(f, j) && (f[i].data.Internal? ==> Inner(f, i) < Inner(f, j))
    decreases j
  {
    if i < j - 1 {
      InnerGrows(f, i, j - 1);
    }
  }

  /** The nodes among the first `k` whose children are to be flattened. */
  function Stack<V>(f: Forest<V>, base: nat, k: nat): (r: seq<(nat, Forest<V>)>)
    requires k <= |f|
    ensures |r| == Inner(f, k)
  {
    if k == 0 then []
    else Stack(f, base, k - 1) + match f[k - 1].data {
        case Internal(children) => [(base + k - 1, children)]
        case Leaf(_) => []
      }
  }

  lemma {:induction false} StackAt<V>(f: Forest<V>, base: nat, k: nat, e: nat) returns (j: nat)
    requires k <= |f| && e < |Stack(f, base, k)|
    ensures j < k && Inner(f, j) == e && Stack(f, base, k)[e].0 == base + j &&
      f[j].data == Internal(Stack(f, base, k)[e].1)
  {
    if e == Inner(f, k - 1) {
      j := k - 1;
    } else {
      j := StackAt(f, base, k - 1, e);
    }
  }

  /** A node has its place, and its children too if it is `done`. */
  ghost predicate Placed<V>(nodes: seq<Node>, values: seq<V>, lo: nat, i: nat, b: BuildNode<V>, done: bool) {
    && i < |nodes| && nodes[i].key == b.k
    && if b.data.Leaf? || done then HoldsNode(nodes, values, lo, nodes[i], b)
       else nodes[i].data == InternalAt(0, |b.data.children|)
  }

  lemma PlacedKept<V>(nodes: seq<Node>, values: seq<V>, lo: nat, i: nat, b: BuildNode<V>, done: bool,
                      nodes': seq<Node>, values': seq<V>)
    requires Placed(nodes, values, lo, i, b, done) && |nodes| <= |nodes'| && nodes'[i] == nodes[i] && values <= values'
    requires lo <= |nodes| && nodes[lo..] == nodes'[lo..|nodes|]
    ensures Placed(nodes', values', lo, i, b, done)
  {
    hide HoldsNode;
    if b.data.Leaf? || done {
      HoldsNodeKept(nodes, values, lo, nodes[i], b, nodes', values');
    }
  }

  /** All siblings have their place, and the first `e` of those with children have these too. */
  ghost predicate Patched<V>(nodes: seq<Node>, values: seq<V>, base: nat, sorted: Forest<V>, e: nat) {
    && base + |sorted| <= |nodes|
    && forall j :: 0 <= j < |sorted| ==>
      Placed(nodes, values, base + |sorted|, base + j, sorted[j], Inner(sorted, j) < e)
  }

  function WithStart(nodes: seq<Node>, i: nat, start: nat, n: nat): seq<Node>
    requires i < |nodes|
  {
    nodes[i := nodes[i].(data := InternalAt(start, n))]
  }

  lemma {:induction false} PatchStep<V>(nodes: seq<Node>, values: seq<V>, base: nat, sorted: Forest<V>,
          j: nat, after: seq<Node>, values': seq<V>)
    requires j < |sorted| && sorted[j].data.Internal? && Patched(nodes, values, base, sorted, Inner(sorted, j))
    requires |nodes| <= |after| && values <= values'
    requires forall i :: 0 <= i < |nodes| && i != base + j ==> after[i] == nodes[i]
    requires Placed(after, values', base + |sorted|, base + j, sorted[j], true)
    ensures Patched(after, values', base, sorted, Inner(sorted, j) + 1)
  {
    hide HoldsNode, Placed, Inner;
    var lo := base + |sorted|;
    assert nodes[lo..] == after[lo..|nodes|];
    forall k | 0 <= k < |sorted| && k != j
      ensures Placed(after, values', lo, base + k, sorted[k], Inner(sorted, k) < Inner(sorted, j) + 1)
    {
      PlacedKept(nodes, values, lo, base + k, sorted[k], Inner(sorted, k) < Inner(sorted, j), after, values');
      SameFlag(after, values', lo, base, sorted, j, k);
    }
  }

  lemma {:induction false} SameFlag<V>(nodes: seq<Node>, values: seq<V>, lo: nat, base: nat,
          sorted: Forest<V>, j: nat, k: nat)
    requires j < |sorted| && k < |sorted| && j != k && sorted[j].data.Internal?
    requires Placed(nodes, values, lo, base + k, sorted[k], Inner(sorted, k) < Inner(sorted, j))
    ensures Placed(nodes, values, lo, base + k, sorted[k], Inner(sorted, k) < Inner(sorted, j) + 1)
  {
    hide HoldsNode;
    if j < k { InnerGrows(sorted, j, k); } else { InnerGrows(sorted, k, j); }
  }

  lemma {:induction false} ChildrenPlaced<V>(nodes: seq<Node>, nodes': seq<Node>, values': seq<V>, lo: nat,
          i: nat, b: BuildNode<V>, start: nat)
    requires b.data.Internal? && i < lo <= |nodes| && nodes <= nodes' && nodes[i].key == b.k
    requires Holds(nodes', values', |nodes|, start, |b.data.children|, b.data.children)
    ensures Placed(WithStart(nodes', i, start, |b.data.children|), values', lo, i, b, true)
  {
    hide Holds;
    var n := |b.data.children|;
    var after := WithStart(nodes', i, start, n);
    assert nodes'[lo..] == after[lo..|nodes'|];
    HoldsFrom(nodes', values', |nodes|, start, n, b.data.children, lo);
    HoldsKept(nodes', values', lo, start, n, b.data.children, after, values');
  }

  lemma {:induction false} FindIt<V>(f: Forest<V>, b: BuildNode<V>)
    requires b in f && forall i, j :: 0 <= i < j < |f| ==> f[i].k != f[j].k
    ensures Find(f, b.k) < |f| && f[Find(f, b.k)] == b
  {
    if f[0] != b {
      FindIt(f[1..], b);
    }
  }

  lemma {:induction false} AllPatched<V>(nodes: seq<Node>, values: seq<V>, base: nat, f: Forest<V>)
    requires WellFormed(f)
    requires Patched(nodes, values, base, SortByKey(f), Inner(SortByKey(f), |f|))
    ensures Holds(nodes, values, base, base, |f|, f)
  {
    hide SortByKey, HoldsNode, Inner, Placed;
    var sorted := SortByKey(f);
    SortByKeySorts(f);
    forall j | 0 <= j < |f|
      ensures nodes[base + j].key == sorted[j].k && HoldsNode(nodes, values, base, nodes[base + j], sorted[j])
    {
      AllDone(nodes, values, base, sorted, j);
    }
    forall b | b in f
      ensures exists i :: base <= i < base + |f| && nodes[i].key == b.k
    {
      assert b in sorted;
      var j :| 0 <= j < |sorted| && sorted[j] == b;
      assert nodes[base + j].key == b.k;
    }
    forall i | base <= i < base + |f|
      ensures var m := Find(f, nodes[i].key); m < |f| && HoldsNode(nodes, values, base, nodes[i], f[m])
    {
      var j := i - base;
      assert sorted[j] in f && nodes[base + j].key == sorted[j].k;
      FindIt(f, sorted[j]);
    }
    forall i, k | base <= i < k < base + |f|
      ensures nodes[i].key < nodes[k].key
    {
      assert nodes[base + (i - base)].key == sorted[i - base].k && nodes[base + (k - base)].key == sorted[k - base].k;
    }
  }

  lemma {:induction false} AllDone<V>(nodes: seq<Node>, values: seq<V>, base: nat, sorted: Forest<V>, j: nat)
    requires j < |sorted| && Patched(nodes, values, base, sorted, Inner(sorted, |sorted|))
    ensures nodes[base + j].key == sorted[j].k && HoldsNode(nodes, values, base, nodes[base + j], sorted[j])
  {
    hide HoldsNode;
    InnerGrows(sorted, j, |sorted|);
    assert Placed(nodes, values, base + |sorted|, base + j, sorted[j], Inner(sorted, j) < Inner(sorted, |sorted|));
    HoldsNodeFrom(nodes, values, base + |sorted|, nodes[base + j], sorted[j], base);
  }

  class Flattener<V> {
    var nodes: seq<Node>
    var values: seq<V>

    constructor ()
      ensures nodes == [] && values == []
    {
      nodes, values := [], [];
    }

    /** Appends a forest: first all roots, then below each root that has children these, whose place is
        then noted at the root. */
    method Flatten(roots: Forest<V>) returns (childStart: nat, nChildren: nat)
      requires WellFormed(roots)
      modifies this
      ensures old(nodes) <= nodes && old(values) <= values
      ensures childStart == |old(nodes)| && nChildren == |roots|
      ensures Holds(nodes, values, childStart, childStart, nChildren, roots)
      decreases Size(roots)
    {
      hide Holds, SortByKey, Patched, Inner, Stack, Size;
      var sorted := SortByKey(roots);
      childStart, nChildren := |nodes|, |sorted|;
      var childStack := PlaceRoots(sorted);
      for e := 0 to |childStack|
        invariant old(nodes) <= nodes && old(values) <= values
        invariant Patched(nodes, values, childStart, sorted, e)
      {
        var (i, children) := childStack[e];
        ghost var j := StackAt(sorted, childStart, |sorted|, e);
        Below(roots, sorted[j]);
        ghost var before, valuesBefore := nodes, values;
        var start, count := Flatten(children);
        InBounds(before, valuesBefore, childStart, sorted, j);
        ChildrenPlaced(before, nodes, values, childStart + |sorted|, i, sorted[j], start);
        nodes := nodes[i := nodes[i].(data := InternalAt(start, nodes[i].data.nChildren))];
        PatchStep(before, valuesBefore, childStart, sorted, j, nodes, values);
      }
      AllPatched(nodes, values, childStart, roots);
    }

    /** Appends the roots and gives back those that have children. */
    method PlaceRoots(sorted: Forest<V>) returns (childStack: seq<(nat, Forest<V>)>)
      modifies this
      ensures old(nodes) <= nodes && old(values) <= values
      ensures childStack == Stack(sorted, |old(nodes)|, |sorted|)
      ensures Patched(nodes, values, |old(nodes)|, sorted, 0)
    {
      hide Holds, Inner;
      childStack := [];
      ghost var base, lo := |nodes|, |nodes| + |sorted|;
      for k := 0 to |sorted|
        invariant |nodes| == base + k && old(nodes) <= nodes && old(values) <= values
        invariant childStack == Stack(sorted, base, k)
        invariant forall j :: 0 <= j < k ==> Placed(nodes, values, lo, base + j, sorted[j], false)
      {
        match sorted[k].data
        case Internal(children) =>
          var i := |nodes|;
          nodes := nodes + [Node(sorted[k].k, InternalAt(0, |children|))];
          childStack := childStack + [(i, children)];
        case Leaf(v) =>
          var i := |values|;
          values := values + [v];
          nodes := nodes + [Node(sorted[k].k, LeafAt(i))];
      }
    }
  }

  lemma {:induction false} Below<V>(f: Forest<V>, b: BuildNode<V>)
    requires WellFormed(f) && b in SortByKey(f) && b.data.Internal?
    ensures WellFormed(b.data.children) && Size(b.data.children) < Size(f)
  {
    hide SortByKey;
    SizeBelow(f, b);
    assert WellFormedNode(b);
  }

  lemma {:induction false} InBounds<V>(nodes: seq<Node>, values: seq<V>, base: nat, sorted: Forest<V>, j: nat)
    requires j < |sorted| && sorted[j].data.Internal? && Patched(nodes, values, base, sorted, Inner(sorted, j))
    ensures base + j < |nodes| && nodes[base + j].data == InternalAt(0, |sorted[j].data.children|)
    ensures base + |sorted| <= |nodes| && nodes[base + j].key == sorted[j].k
  {
    assert Placed(nodes, values, base + |sorted|, base + j, sorted[j], false);
  }

  // ---------------------------------------------------------------- the trie

  datatype Trie<V> = Trie(nodes: seq<Node>, values: seq<V>, nRoots: nat)

  ghost predicate IsFlat<V>(t: Trie<V>, f: Forest<V>) {
    WellFormed(f) && Holds(t.nodes, t.values, 0, 0, t.nRoots, f)
  }

  /** The trie holds the keys and values of `m`. */
  ghost predicate Is<V(!new)>(t: Trie<V>, m: map<Key, V>) {
    exists f: Forest<V> :: IsFlat(t, f) && Denotes(f, m)
  }

  lemma {:induction false} NotHeld<V>(nodes: seq<Node>, values: seq<V>, start: nat, n: nat, f: Forest<V>, k: int)
    requires Holds(nodes, values, 0, start, n, f)
    requires forall i :: start <= i < start + n ==> nodes[i].key != k
    ensures Find(f, k) == |f|
  {
    forall b | b in f
      ensures b.k != k
    {
      var i :| start <= i < start + n && nodes[i].key == b.k;
    }
  }

  lemma HeldAt<V>(nodes: seq<Node>, values: seq<V>, start: nat, n: nat, f: Forest<V>, i: nat) returns (m: nat)
    requires Holds(nodes, values, 0, start, n, f) && start <= i < start + n <= |nodes|
    ensures m == Find(f, nodes[i].key) && m < |f| && HoldsNode(nodes, values, 0, nodes[i], f[m])
  {
    m := Find(f, nodes[i].key);
  }

  lemma {:induction false} HeldBound<V>(nodes: seq<Node>, values: seq<V>, start: nat, n: nat, f: Forest<V>)
    requires Holds(nodes, values, 0, start, n, f)
    ensures n == |f| && start + n <= |nodes|
    ensures forall i, j :: start <= i < j < start + n ==> nodes[i].key < nodes[j].key
  {
  }

  /** A query of the flat arrays. */
  method Get<V(!new)>(t: Trie<V>, key: Key, ghost m: map<Key, V>) returns (r: Query<V>)
    requires Is(t, m)
    ensures r == if key == [] then Missing else Answer(m, key)
  {
    hide Holds, Walk;
    if |key| == 0 {
      return Missing;
    }
    ghost var f: Forest<V> :| IsFlat(t, f) && Denotes(f, m);
    var from, to := 0, t.nRoots;
    var keyIndex := 0;
    assert key[0..] == key;
    label outer: while keyIndex < |key|
      invariant keyIndex <= |key| && from <= to
      invariant Holds(t.nodes, t.values, 0, from, to - from, f) && Walk(f, key[keyIndex..]) == Answer(m, key)
      decreases |key| - keyIndex
    {
      HeldBound(t.nodes, t.values, from, to - from, f);
      var target := key[keyIndex];
      for i := from to to
        invariant forall j :: from <= j < i ==> t.nodes[j].key < target
      {
        var node := t.nodes[i];
        if node.key == target {
          ghost var n := HeldAt(t.nodes, t.values, from, to - from, f, i);
          WalkInto(f, key[keyIndex..]);
          assert key[keyIndex..][1..] == key[keyIndex + 1..];
          keyIndex := keyIndex + 1;
          match node.data {
            case LeafAt(v) =>
              return if keyIndex == |key| then Val(t.values[v]) else Missing;
            case InternalAt(childStart, nChildren) =>
              from, to, f := childStart, childStart + nChildren, f[n].data.children;
              continue outer;
          }
        } else if node.key > target {
          NotHeld(t.nodes, t.values, from, to - from, f, target);
          WalkInto(f, key[keyIndex..]);
          return Missing;
        }
      }
      NotHeld(t.nodes, t.values, from, to - from, f, target);
      WalkInto(f, key[keyIndex..]);
      return Missing;
    }
    assert key[keyIndex..] == [];
    WalkEmpty(f);
    return Partial;
  }

  lemma {:induction false} WalkInto<V>(f: Forest<V>, key: Key)
    requires key != []
    ensures var i := Find(f, key[0]);
      Walk(f, key) == if i == |f| then Missing else match f[i].data {
          case Leaf(v) => if |key| == 1 then Val(v) else Missing
          case Internal(children) => Walk(children, key[1..])
        }
  {
  }

  // ---------------------------------------------------------------- construction

  function MapOf<V>(pairs: seq<(Key, V)>): (m: map<Key, V>)
  {
    if pairs == [] then map[] else MapOf(pairs[..|pairs| - 1])[pairs[|pairs| - 1].0 := pairs[|pairs| - 1].1]
  }

  predicate Related(x: Key, y: Key) { x <= y || y <= x }

  predicate PrefixFree<V>(pairs: seq<(Key, V)>) {
    forall i, j :: 0 <= i < j < |pairs| ==> !Related(pairs[i].0, pairs[j].0)
  }

  /** A trie of keys that are not empty can be made exactly when no key is equal to or a prefix of
      another; it holds these keys with their values. */
  method TryFromIter<V(!new)>(pairs: seq<(Key, V)>) returns (r: Result<Trie<V>, string>)
    requires forall i :: 0 <= i < |pairs| ==> pairs[i].0 != []
    ensures r.Ok? <==> PrefixFree(pairs)
    ensures r.Ok? ==> Is(r.value, MapOf(pairs))
  {
    hide MapOf, Holds, Denotes, WellFormed, Added, Free, Unrelated;
    var roots: Forest<V> := [];
    NothingDenoted<V>();
    assert pairs[..0] == [];
    for k := 0 to |pairs|
      invariant Denotes(roots, MapOf(pairs[..k])) && WellFormed(roots) && PrefixFree(pairs[..k])
      invariant k > 0 ==> roots != []
    {
      var (key, value) := pairs[k];
      FreeMeans(roots, MapOf(pairs[..k]), key);
      UnrelatedMeans(pairs, k);
      var inserted := Insert(key, value, roots);
      if inserted.Err? {
        return Err(inserted.error);
      }
      AddedDenotes(roots, MapOf(pairs[..k]), key, value, inserted.value);
      MapOfNext(pairs, k);
      roots := inserted.value;
    }
    assert pairs[..|pairs|] == pairs;
    if |roots| == 0 {
      r := Ok(Trie([], [], 0));
      NothingHeld<V>();
    } else {
      var arrays := new Flattener<V>();
      var start, nRoots := arrays.Flatten(roots);
      r := Ok(Trie(arrays.nodes, arrays.values, nRoots));
    }
    assert IsFlat(r.value, roots);
  }

  lemma NothingDenoted<V>()
    ensures Denotes<V>([], MapOf([])) && WellFormed<V>([])
  {
  }

  lemma NothingHeld<V>()
    ensures Holds<V>([], [], 0, 0, 0, [])
  {
  }

  lemma MapOfNext<V>(pairs: seq<(Key, V)>, k: nat)
    requires k < |pairs|
    ensures MapOf(pairs[..k + 1]) == MapOf(pairs[..k])[pairs[k].0 := pairs[k].1]
  {
    assert pairs[..k + 1][..k] == pairs[..k];
  }

  lemma UnrelatedMeans<V>(pairs: seq<(Key, V)>, k: nat)
    requires k < |pairs| && PrefixFree(pairs[..k])
    ensures Unrelated(MapOf(pairs[..k]), pairs[k].0) <==> PrefixFree(pairs[..k + 1])
    ensures !Unrelated(MapOf(pairs[..k]), pairs[k].0) ==> !PrefixFree(pairs)
  {
    KeysOf(pairs[..k]);
    hide MapOf;
    var m, key := MapOf(pairs[..k]), pairs[k].0;
    if Unrelated(m, key) {
      forall i | 0 <= i < k
        ensures !Related(pairs[i].0, key)
      {
        assert pairs[..k][i].0 in m;
      }
      PrefixFreeNext(pairs, k);
    } else {
      var x :| x in m && (x <= key || key <= x);
      var i :| 0 <= i < k && pairs[..k][i].0 == x;
      RelatedPair(pairs, i, k);
    }
  }

  lemma {:induction false} KeysOf<V>(pairs: seq<(Key, V)>)
    ensures forall i :: 0 <= i < |pairs| ==> pairs[i].0 in MapOf(pairs)
    ensures forall k :: k in MapOf(pairs) ==> exists i :: 0 <= i < |pairs| && pairs[i].0 == k
  {
    if pairs != [] {
      var n := |pairs| - 1;
      KeysOf(pairs[..n]);
      forall k | k in MapOf(pairs)
        ensures exists i :: 0 <= i < |pairs| && pairs[i].0 == k
      {
        if k != pairs[n].0 {
          var i :| 0 <= i < n && pairs[..n][i].0 == k;
          assert pairs[i].0 == k;
        }
      }
      forall i | 0 <= i < n
        ensures pairs[i].0 in MapOf(pairs)
      {
        assert pairs[..n][i].0 in MapOf(pairs[..n]);
      }
    }
  }

  lemma PrefixFreeNext<V>(pairs: seq<(Key, V)>, k: nat)
    requires k < |pairs| && PrefixFree(pairs[..k])
    requires forall i :: 0 <= i < k ==> !Related(pairs[i].0, pairs[k].0)
    ensures PrefixFree(pairs[..k + 1])
  {
    var q := pairs[..k + 1];
    forall i, j | 0 <= i < j < |q|
      ensures !Related(q[i].0, q[j].0)
    {
      if j < k {
        assert pairs[..k][i] == q[i] && pairs[..k][j] == q[j];
      }
    }
  }

  lemma RelatedPair<V>(pairs: seq<(Key, V)>, i: nat, k: nat)
    requires i < k < |pairs| && Related(pairs[i].0, pairs[k].0)
    ensures !PrefixFree(pairs[..k + 1]) && !PrefixFree(pairs)
  {
    assert pairs[..k + 1][i] == pairs[i] && pairs[..k + 1][k] == pairs[k];
  }

  // ---------------------------------------------------------------- merging

  ghost predicate Distinct<V>(pairs: seq<(Key, V)>) {
    forall i, j :: 0 <= i < j < |pairs| ==> pairs[i].0 != pairs[j].0
  }

  /** The pairs below the nodes from `from` up to `to`, behind the key elements `key` that lead there. */
  method ExtractPairs<V(!new)>(t: Trie<V>, key: Key, from: nat, to: nat, ghost f: Forest<V>)
    returns (pairs: seq<(Key, V)>)
    requires from <= to && WellFormed(f) && Holds(t.nodes, t.values, 0, from, to - from, f)
    ensures forall p :: p in pairs <==> key <= p.0 && Walk(f, p.0[|key|..]) == Val(p.1)
    ensures Distinct(pairs)
    decreases Size(f)
  {
    hide Holds, Walk, Size, WellFormed;
    HeldBound(t.nodes, t.values, from, to - from, f);
    pairs := [];
    for i := from to to
      invariant forall p :: p in pairs <==> Behind(t.nodes, from, i, key, p.0) && Walk(f, p.0[|key|..]) == Val(p.1)
      invariant Distinct(pairs)
    {
      var node := t.nodes[i];
      ghost var n := HeldAt(t.nodes, t.values, from, to - from, f, i);
      ChildrenSmaller(f, n);
      ghost var before := pairs;
      var childKey := key + [node.key];
      match node.data {
        case LeafAt(v) =>
          LeafPairs(f, n, key);
          pairs := pairs + [(childKey, t.values[v])];
        case InternalAt(childStart, nChildren) =>
          var below := ExtractPairs(t, childKey, childStart, childStart + nChildren, f[n].data.children);
          PairsBelow(f, n, key, below);
          pairs := pairs + below;
      }
      PairsStep(t.nodes, from, i, to, key, f, before, pairs[|before|..]);
      assert pairs == before + pairs[|before|..];
    }
    PairsComplete(t, key, from, to, f, pairs);
  }

  /** The pairs are those that the forest holds behind `key`, followed by `k`. */
  ghost predicate PairsAt<V(!new)>(f: Forest<V>, key: Key, k: int, pairs: seq<(Key, V)>) {
    Distinct(pairs) && forall p :: p in pairs <==> key + [k] <= p.0 && Walk(f, p.0[|key|..]) == Val(p.1)
  }

  lemma {:induction false} LeafPairs<V(!new)>(f: Forest<V>, n: nat, key: Key)
    requires n < |f| && Find(f, f[n].k) == n && f[n].data.Leaf?
    ensures PairsAt(f, key, f[n].k, [(key + [f[n].k], f[n].data.v)])
  {
    var childKey := key + [f[n].k];
    var pairs := [(childKey, f[n].data.v)];
    forall p: (Key, V)
      ensures p in pairs <==> childKey <= p.0 && Walk(f, p.0[|key|..]) == Val(p.1)
    {
      if childKey <= p.0 {
        Behindhand(key, f[n].k, p.0);
        WalkInto(f, p.0[|key|..]);
      }
    }
  }

  lemma {:induction false} PairsBelow<V(!new)>(f: Forest<V>, n: nat, key: Key, pairs: seq<(Key, V)>)
    requires n < |f| && Find(f, f[n].k) == n && f[n].data.Internal? && Distinct(pairs)
    requires var childKey := key + [f[n].k];
      forall p :: p in pairs <==> childKey <= p.0 && Walk(f[n].data.children, p.0[|childKey|..]) == Val(p.1)
    ensures PairsAt(f, key, f[n].k, pairs)
  {
    hide Walk, Distinct;
    var childKey := key + [f[n].k];
    forall p: (Key, V)
      ensures p in pairs <==> childKey <= p.0 && Walk(f, p.0[|key|..]) == Val(p.1)
    {
      if childKey <= p.0 {
        Behindhand(key, f[n].k, p.0);
        WalkInto(f, p.0[|key|..]);
      }
    }
  }

  /** What follows `key` in a key that continues with `k`. */
  lemma Behindhand(key: Key, k: int, q: Key)
    requires key + [k] <= q
    ensures var rest := q[|key|..];
      key <= q && rest != [] && rest[0] == k && rest[1..] == q[|key + [k]|..] && (|rest| == 1 <==> q == key + [k])
  {
    assert q == key + [k] + q[|key| + 1..];
  }

  lemma {:induction false} PairsStep<V(!new)>(nodes: seq<Node>, from: nat, i: nat, to: nat, key: Key, f: Forest<V>,
                           before: seq<(Key, V)>, below: seq<(Key, V)>)
    requires from <= i < to <= |nodes| && forall j, k :: from <= j < k < to ==> nodes[j].key < nodes[k].key
    requires Distinct(before) && PairsAt(f, key, nodes[i].key, below)
    requires forall p :: p in before <==> Behind(nodes, from, i, key, p.0) && Walk(f, p.0[|key|..]) == Val(p.1)
    ensures Distinct(before + below)
    ensures forall p :: p in before + below <==>
      Behind(nodes, from, i + 1, key, p.0) && Walk(f, p.0[|key|..]) == Val(p.1)
  {
    hide Walk;
    var k := nodes[i].key;
    forall p: (Key, V)
      ensures p in before + below <==> Behind(nodes, from, i + 1, key, p.0) && Walk(f, p.0[|key|..]) == Val(p.1)
    {
      BehindNext(nodes, from, i, to, key, p.0);
    }
    forall x, y | 0 <= x < |before| && 0 <= y < |below|
      ensures before[x].0 != below[y].0
    {
      assert before[x] in before && below[y] in below;
      BehindNext(nodes, from, i, to, key, below[y].0);
    }
  }

  lemma BehindNext(nodes: seq<Node>, from: nat, i: nat, to: nat, key: Key, q: Key)
    requires from <= i < to <= |nodes| && forall j, k :: from <= j < k < to ==> nodes[j].key < nodes[k].key
    ensures Behind(nodes, from, i + 1, key, q) <==> Behind(nodes, from, i, key, q) || key + [nodes[i].key] <= q
    ensures !(Behind(nodes, from, i, key, q) && key + [nodes[i].key] <= q)
  {
    var k := nodes[i].key;
    assert key + [k] <= q <==> key < q && q[|key|] == k;
    if key < q && q[|key|] == k {
      assert nodes[i].key == q[|key|];
    }
  }

  lemma PairsComplete<V(!new)>(t: Trie<V>, key: Key, from: nat, to: nat, f: Forest<V>, pairs: seq<(Key, V)>)
    requires from <= to && Holds(t.nodes, t.values, 0, from, to - from, f)
    requires forall p :: p in pairs <==> Behind(t.nodes, from, to, key, p.0) && Walk(f, p.0[|key|..]) == Val(p.1)
    ensures forall p :: p in pairs <==> key <= p.0 && Walk(f, p.0[|key|..]) == Val(p.1)
  {
    forall p: (Key, V) | key <= p.0 && Walk(f, p.0[|key|..]) == Val(p.1)
      ensures Behind(t.nodes, from, to, key, p.0)
    {
      var rest := p.0[|key|..];
      WalkEmpty(f);
      WalkInto(f, rest);
      var b := f[Find(f, rest[0])];
      assert b in f;
      var i :| from <= i < to && t.nodes[i].key == b.k;
      assert t.nodes[i].key == p.0[|key|];
    }
  }

  /** `q` continues `key` with the key element of one of the nodes from `from` up to `to`. */
  ghost predicate Behind(nodes: seq<Node>, from: nat, to: nat, key: Key, q: Key)
    requires from <= to <= |nodes|
  {
    key < q && exists i :: from <= i < to && nodes[i].key == q[|key|]
  }

  lemma {:induction false} ChildrenSmaller<V>(f: Forest<V>, n: nat)
    requires WellFormed(f) && n < |f|
    ensures f[n].data.Internal? ==> WellFormed(f[n].data.children) && Size(f[n].data.children) < Size(f)
  {
    assert f[n] in f;
    SizeBelow(f, f[n]);
    assert WellFormedNode(f[n]);
  }

  /** No key has a value below another key that has one. */
  lemma {:induction false} NothingBelow<V>(f: Forest<V>, p: Key, q: Key)
    requires Walk(f, p).Val? && p < q
    ensures Walk(f, q).Missing?
    decreases |p|
  {
    if p == [] {
      WalkEmpty(f);
    } else {
      assert p[0] == q[0] && p[1..] < q[1..];
      var i := Find(f, p[0]);
      if f[i].data.Internal? {
        NothingBelow(f[i].data.children, p[1..], q[1..]);
      }
    }
  }

  /** The keys of a trie are not empty and unrelated. */
  lemma KeysUnrelated<V(!new)>(t: Trie<V>, m: map<Key, V>)
    requires Is(t, m)
    ensures forall k :: k in m ==> k != []
    ensures forall j, k :: j in m && k in m && j != k ==> !Related(j, k)
  {
    var f: Forest<V> :| IsFlat(t, f) && Denotes(f, m);
    hide Walk, WellFormed;
    forall j, k | j in m && k in m && j < k
      ensures false
    {
      assert j != [] && k != [] && Walk(f, j).Val? && Walk(f, k).Val?;
      NothingBelow(f, j, k);
    }
    forall j, k | j in m && k in m && j != k
      ensures !Related(j, k)
    {
      assert Related(j, k) ==> j < k || k < j;
    }
  }

  lemma EmptyIs<V(!new)>(t: Trie<V>, m: map<Key, V>)
    requires Is(t, m) && t.nodes == []
    ensures m == map[]
  {
    var f: Forest<V> :| IsFlat(t, f) && Denotes(f, m);
    HeldBound(t.nodes, t.values, 0, t.nRoots, f);
    forall k: Key | k != []
      ensures k !in m
    {
      assert Walk(f, k) == Answer(m, k);
    }
    assert forall k :: k in m ==> k != [];
  }

  /** The pairs of `m`, each once. */
  ghost predicate Lists<V(!new)>(pairs: seq<(Key, V)>, m: map<Key, V>) {
    Distinct(pairs) && forall p :: p in pairs <==> p.0 in m && m[p.0] == p.1
  }

  /** All pairs of a trie. */
  method AllPairs<V(!new)>(t: Trie<V>, ghost m: map<Key, V>) returns (pairs: seq<(Key, V)>)
    requires Is(t, m)
    ensures Lists(pairs, m)
  {
    hide Holds, Walk, WellFormed;
    ghost var f: Forest<V> :| IsFlat(t, f) && Denotes(f, m);
    pairs := ExtractPairs(t, [], 0, t.nRoots, f);
    forall p: (Key, V)
      ensures p in pairs <==> p.0 in m && m[p.0] == p.1
    {
      assert p.0[0..] == p.0;
      WalkEmpty(f);
    }
  }

  /** All pairs of two tries can be put into one exactly when no key of one is related to one of the
      other; the result holds the keys of both. */
  method Merge<V(!new)>(t: Trie<V>, other: Trie<V>, ghost m: map<Key, V>, ghost n: map<Key, V>)
    returns (r: Result<Trie<V>, string>)
    requires Is(t, m) && Is(other, n)
    ensures r.Ok? <==> forall j, k :: j in m && k in n ==> !Related(j, k)
    ensures r.Ok? ==> Is(r.value, m + n)
  {
    hide Is, PrefixFree, Related, MapOf;
    if |t.nodes| == 0 {
      EmptyIs(t, m);
      assert m + n == n;
      return Ok(other);
    } else if |other.nodes| == 0 {
      EmptyIs(other, n);
      assert m + n == m;
      return Ok(t);
    }
    var pairs := AllPairs(t, m);
    var more := AllPairs(other, n);
    KeysUnrelated(t, m);
    KeysUnrelated(other, n);
    MergedPairs(pairs, more, m, n);
    r := TryFromIter(pairs + more);
  }

  lemma {:induction false} MergedPairs<V(!new)>(x: seq<(Key, V)>, y: seq<(Key, V)>, m: map<Key, V>, n: map<Key, V>)
    requires Lists(x, m) && Lists(y, n)
    requires forall j, k :: j in m && k in m && j != k ==> !Related(j, k)
    requires forall j, k :: j in n && k in n && j != k ==> !Related(j, k)
    requires forall k :: k in m || k in n ==> k != []
    ensures forall i :: 0 <= i < |x + y| ==> (x + y)[i].0 != []
    ensures PrefixFree(x + y) <==> forall j, k :: j in m && k in n ==> !Related(j, k)
    ensures PrefixFree(x + y) ==> MapOf(x + y) == m + n
  {
    hide Related, MapOf;
    var z := x + y;
    ListsIndexed(x, m);
    ListsIndexed(y, n);
    if PrefixFree(z) {
      forall j, k | j in m && k in n
        ensures !Related(j, k)
      {
        var a := KeyAt(x, m, j);
        var b := KeyAt(y, n, k);
        assert z[a].0 == j && z[|x| + b].0 == k;
      }
      PairsOfMap(z, m, n, x, y);
    }
    if forall j, k :: j in m && k in n ==> !Related(j, k) {
      forall a, b | 0 <= a < b < |z|
        ensures !Related(z[a].0, z[b].0)
      {
        assert a < |x| ==> z[a] == x[a];
        assert a >= |x| ==> z[a] == y[a - |x|];
        assert b < |x| ==> z[b] == x[b];
        assert b >= |x| ==> z[b] == y[b - |x|];
      }
    }
  }

  lemma ListsIndexed<V(!new)>(pairs: seq<(Key, V)>, m: map<Key, V>)
    requires Lists(pairs, m)
    ensures forall i :: 0 <= i < |pairs| ==> pairs[i].0 in m && m[pairs[i].0] == pairs[i].1
    ensures forall i, j :: 0 <= i < j < |pairs| ==> pairs[i].0 != pairs[j].0
  {
    forall i | 0 <= i < |pairs|
      ensures pairs[i].0 in m && m[pairs[i].0] == pairs[i].1
    {
      assert pairs[i] in pairs;
    }
  }

  lemma KeyAt<V(!new)>(pairs: seq<(Key, V)>, m: map<Key, V>, k: Key) returns (i: nat)
    requires Lists(pairs, m) && k in m
    ensures i < |pairs| && pairs[i] == (k, m[k])
  {
    assert (k, m[k]) in pairs;
    i :| 0 <= i < |pairs| && pairs[i] == (k, m[k]);
  }

  lemma {:induction false} MapOfDistinct<V>(pairs: seq<(Key, V)>)
    requires Distinct(pairs)
    ensures forall i :: 0 <= i < |pairs| ==> pairs[i].0 in MapOf(pairs) && MapOf(pairs)[pairs[i].0] == pairs[i].1
  {
    if pairs != [] {
      var front := pairs[..|pairs| - 1];
      MapOfDistinct(front);
      forall i | 0 <= i < |front|
        ensures pairs[i].0 in MapOf(pairs) && MapOf(pairs)[pairs[i].0] == pairs[i].1
      {
        assert front[i] == pairs[i];
      }
    }
  }

  lemma {:induction false} PairsOfMap<V(!new)>(z: seq<(Key, V)>, m: map<Key, V>, n: map<Key, V>,
          x: seq<(Key, V)>, y: seq<(Key, V)>)
    requires Lists(x, m) && Lists(y, n) && z == x + y && PrefixFree(z)
    ensures MapOf(z) == m + n
  {
    PrefixFreeDistinct(z);
    MapOfDistinct(z);
    KeysOf(z);
    hide MapOf, PrefixFree, Distinct;
    forall k | k in m + n
      ensures k in MapOf(z) && MapOf(z)[k] == (m + n)[k]
    {
      var i := KeyOfUnion(x, y, m, n, k);
    }
    forall k | k in MapOf(z)
      ensures k in m + n
    {
      var i :| 0 <= i < |z| && z[i].0 == k;
      PairOfUnion(x, y, m, n, i);
    }
  }

  lemma PrefixFreeDistinct<V>(pairs: seq<(Key, V)>)
    requires PrefixFree(pairs)
    ensures Distinct(pairs)
  {
    forall i, j | 0 <= i < j < |pairs|
      ensures pairs[i].0 != pairs[j].0
    {
      assert !Related(pairs[i].0, pairs[j].0);
    }
  }

  lemma KeyOfUnion<V(!new)>(x: seq<(Key, V)>, y: seq<(Key, V)>, m: map<Key, V>, n: map<Key, V>, k: Key)
    returns (i: nat)
    requires Lists(x, m) && Lists(y, n) && k in m + n
    ensures i < |x + y| && (x + y)[i] == (k, (m + n)[k])
  {
    if k in n {
      i := KeyAt(y, n, k);
      i := i + |x|;
    } else {
      i := KeyAt(x, m, k);
    }
  }

  lemma PairOfUnion<V(!new)>(x: seq<(Key, V)>, y: seq<(Key, V)>, m: map<Key, V>, n: map<Key, V>, i: nat)
    requires Lists(x, m) && Lists(y, n) && i < |x + y|
    ensures (x + y)[i].0 in m + n
  {
    if i < |x| {
      assert x[i] in x;
    } else {
      assert y[i - |x|] in y;
    }
  }

  /** The entries of an ordered map. The order plays no part in what follows. */
  method Entries<V(!new)>(m: map<Key, V>) returns (pairs: seq<(Key, V)>)
    ensures Lists(pairs, m)
  {
    pairs := [];
    var rest := m.Keys;
    while rest != {}
      invariant rest <= m.Keys && Distinct(pairs)
      invariant forall p :: p in pairs <==> p.0 in m && p.0 !in rest && m[p.0] == p.1
      decreases |rest|
    {
      var k :| k in rest;
      forall i | 0 <= i < |pairs|
        ensures pairs[i].0 != k
      {
        assert pairs[i] in pairs;
      }
      pairs := pairs + [(k, m[k])];
      rest := rest - {k};
    }
  }

  /** The pairs put into a map one after the other. */
  method Extend<V>(m: map<Key, V>, pairs: seq<(Key, V)>) returns (r: map<Key, V>)
    ensures r == m + MapOf(pairs)
  {
    r := m;
    assert pairs[..0] == [];
    for k := 0 to |pairs|
      invariant r == m + MapOf(pairs[..k])
    {
      MapOfNext(pairs, k);
      r := r[pairs[k].0 := pairs[k].1];
    }
    assert pairs[..|pairs|] == pairs;
  }

  lemma {:induction false} MapOfLists<V(!new)>(pairs: seq<(Key, V)>, m: map<Key, V>)
    requires Lists(pairs, m)
    ensures MapOf(pairs) == m
  {
    ListsIndexed(pairs, m);
    MapOfDistinct(pairs);
    KeysOf(pairs);
    hide MapOf;
    forall k | k in m
      ensures k in MapOf(pairs) && MapOf(pairs)[k] == m[k]
    {
      var i := KeyAt(pairs, m, k);
    }
  }

  lemma {:induction false} EntriesFree<V(!new)>(entries: seq<(Key, V)>, m: map<Key, V>, n: map<Key, V>)
    requires Lists(entries, m + n)
    requires forall j, k :: j in m && k in m && j != k ==> !Related(j, k)
    requires forall j, k :: j in n && k in n && j != k ==> !Related(j, k)
    requires forall k :: k in m || k in n ==> k != []
    ensures forall i :: 0 <= i < |entries| ==> entries[i].0 != []
    ensures PrefixFree(entries) <==> forall j, k :: j in m && k in n && j != k ==> !Related(j, k)
    ensures MapOf(entries) == m + n
  {
    hide MapOf, Related;
    ListsIndexed(entries, m + n);
    MapOfLists(entries, m + n);
    if PrefixFree(entries) {
      forall j, k | j in m && k in n && j != k
        ensures !Related(j, k)
      {
        var a := KeyAt(entries, m + n, j);
        var b := KeyAt(entries, m + n, k);
        UnrelatedEntries(entries, a, b);
      }
    }
    if forall j, k :: j in m && k in n && j != k ==> !Related(j, k) {
      forall a, b | 0 <= a < b < |entries|
        ensures !Related(entries[a].0, entries[b].0)
      {
        UnionUnrelated(m, n, entries[a].0, entries[b].0);
      }
    }
  }

  lemma UnrelatedEntries<V>(pairs: seq<(Key, V)>, a: nat, b: nat)
    requires PrefixFree(pairs) && a < |pairs| && b < |pairs| && a != b
    ensures !Related(pairs[a].0, pairs[b].0)
  {
    assert !Related(pairs[if a < b then a else b].0, pairs[if a < b then b else a].0);
  }

  lemma UnionUnrelated<V>(m: map<Key, V>, n: map<Key, V>, j: Key, k: Key)
    requires forall j, k :: j in m && k in m && j != k ==> !Related(j, k)
    requires forall j, k :: j in n && k in n && j != k ==> !Related(j, k)
    requires forall j, k :: j in m && k in n && j != k ==> !Related(j, k)
    requires j in m + n && k in m + n && j != k
    ensures !Related(j, k)
  {
    assert Related(j, k) == Related(k, j);
  }

  /** Merging two tries so that the second wins where they have the same key succeeds exactly when no
      different keys are related; the result answers as the union of both with the second's values. */
  method MergeOverriding<V(!new)>(t: Trie<V>, other: Trie<V>, ghost m: map<Key, V>, ghost n: map<Key, V>)
    returns (r: Result<Trie<V>, string>)
    requires Is(t, m) && Is(other, n)
    ensures r.Ok? <==> forall j, k :: j in m && k in n && j != k ==> !Related(j, k)
    ensures r.Ok? ==> Is(r.value, m + n)
  {
    hide Is, PrefixFree, Related, MapOf;
    if |t.nodes| == 0 {
      EmptyIs(t, m);
      assert m + n == n;
      return Ok(other);
    } else if |other.nodes| == 0 {
      EmptyIs(other, n);
      assert m + n == m;
      return Ok(t);
    }
    var pairs := AllPairs(t, m);
    MapOfLists(pairs, m);
    var btree := Extend(map[], pairs);
    assert btree == m;
    pairs := AllPairs(other, n);
    btree := Extend(btree, pairs);
    var entries := Entries(btree);
    MapOfLists(pairs, n);
    KeysUnrelated(t, m);
    KeysUnrelated(other, n);
    EntriesFree(entries, m, n);
    r := TryFromIter(entries);
  }
}
