/** The list of buffers and of windows: elements above and below one that has the focus. */
module ZipLists {
  import opened Slices

  /** Cyclic shifts. */
  function Left<T>(s: seq<T>): (r: seq<T>)
    ensures |r| == |s|
  {
    if s == [] then [] else s[1..] + s[..1]
  }

  function Right<T>(s: seq<T>): (r: seq<T>)
    ensures |r| == |s|
  {
    if s == [] then [] else s[|s| - 1..] + s[..|s| - 1]
  }

  lemma ShiftsInverse<T>(s: seq<T>)
    ensures Left(Right(s)) == s && Right(Left(s)) == s
  {
    if s != [] {
      LeftOf(s[|s| - 1], s[..|s| - 1]);
      assert Right(s) == [s[|s| - 1]] + s[..|s| - 1];
      RightOf(s[1..], s[0]);
      assert Left(s) == s[1..] + [s[0]];
    }
  }

  lemma LeftOf<T>(t: T, x: seq<T>)
    ensures Left([t] + x) == x + [t]
  {
    assert ([t] + x)[1..] == x;
  }

  lemma RightOf<T>(x: seq<T>, t: T)
    ensures Right(x + [t]) == [t] + x
  {
    assert (x + [t])[..|x|] == x;
  }

  function Filter<T>(s: seq<T>, f: T -> bool): seq<T> {
    if s == [] then [] else (if f(s[0]) then [s[0]] else []) + Filter(s[1..], f)
  }

  lemma {:induction false} FilterConcat<T>(x: seq<T>, y: seq<T>, f: T -> bool)
    ensures Filter(x + y, f) == Filter(x, f) + Filter(y, f)
    decreases |x|
  {
    if x == [] {
      assert x + y == y;
    } else {
      assert (x + y)[1..] == x[1..] + y;
      FilterConcat(x[1..], y, f);
      var own := if f(x[0]) then [x[0]] else [];
      assert own + (Filter(x[1..], f) + Filter(y, f)) == own + Filter(x[1..], f) + Filter(y, f);
    }
  }

  lemma {:induction false} ReverseAppend<T>(s: seq<T>, t: T)
    ensures Reverse(s + [t]) == [t] + Reverse(s)
  {
    assert (s + [t])[..|s|] == s;
  }

  lemma {:induction false} ReversePrepend<T>(t: T, s: seq<T>)
    ensures Reverse([t] + s) == Reverse(s) + [t]
    decreases |s|
  {
    if s == [] {
      assert [t] + s == [t] && [t][..0] == [];
    } else {
      var front := s[..|s| - 1];
      assert [t] + s == ([t] + front) + [s[|s| - 1]];
      ReverseAppend([t] + front, s[|s| - 1]);
      ReversePrepend(t, front);
    }
  }

  lemma {:induction false} ReverseTwice<T>(s: seq<T>)
    ensures Reverse(Reverse(s)) == s
    decreases |s|
  {
    if s != [] {
      var front := s[..|s| - 1];
      ReversePrepend(s[|s| - 1], Reverse(front));
      ReverseTwice(front);
      assert s == front + [s[|s| - 1]];
    }
  }

  class ZipList<T> {
    var up: seq<T>
    var focus: T
    var down: seq<T>

    /** All elements in order. `up` has the nearest element first. */
    ghost function Elements(): (r: seq<T>)
      reads this
      ensures |r| == |up| + 1 + |down| && r[|up|] == focus
    {
      Reverse(up) + [focus] + down
    }

    constructor (up: seq<T>, focus: T, down: seq<T>)
      ensures Elements() == up + [focus] + down && this.up == Reverse(up)
    {
      var reversed := [];
      assert up[..0] == [];
      for i := 0 to |up|
        invariant reversed == Reverse(up[..i])
      {
        ReverseAppend(up[..i], up[i]);
        assert up[..i + 1] == up[..i] + [up[i]];
        reversed := [up[i]] + reversed;
      }
      assert up[..|up|] == up;
      ReverseTwice(up);
      this.up, this.focus, this.down := reversed, focus, down;
    }

    /** A list is determined by its elements in order and the place of the focus. */
    twostate lemma Determined()
      requires Elements() == old(Elements()) && |up| == |old(up)|
      ensures up == old(up) && focus == old(focus) && down == old(down)
    {
      var n := |up|;
      assert Reverse(up) == Elements()[..n] && old(Reverse(up)) == old(Elements())[..n];
      assert down == Elements()[n + 1..] && old(down) == old(Elements())[n + 1..];
      ReverseTwice(up);
      ReverseTwice(old(up));
    }

    /** Index::index: the elements are counted in their order. */
    method At(i: nat) returns (t: T)
      requires i < |Elements()|
      ensures t == Elements()[i]
    {
      var nup := |up|;
      if i < nup {
        t := up[nup - i - 1];
        ReversedAt(up, i);
      } else if i == nup {
        t := focus;
      } else {
        t := down[i - nup - 1];
      }
    }

    method RevUp()
      modifies `up
      ensures up == Reverse(old(up))
    {
      var reversed := [];
      assert up[..0] == [];
      for i := 0 to |up|
        invariant up == old(up) && reversed == Reverse(up[..i])
      {
        ReverseAppend(up[..i], up[i]);
        assert up[..i + 1] == up[..i] + [up[i]];
        reversed := [up[i]] + reversed;
      }
      assert up[..|up|] == up;
      up := reversed;
    }

    method RevDown()
      modifies `down
      ensures down == Reverse(old(down))
    {
      var reversed := [];
      assert down[..0] == [];
      for i := 0 to |down|
        invariant down == old(down) && reversed == Reverse(down[..i])
      {
        ReverseAppend(down[..i], down[i]);
        assert down[..i + 1] == down[..i] + [down[i]];
        reversed := [down[i]] + reversed;
      }
      assert down[..|down|] == down;
      down := reversed;
    }

    /** The focus moves up by one, from the first element to the last; no element moves. */
    method FocusUp()
      modifies this
      ensures Elements() == old(Elements())
      ensures |up| == if |old(up)| == 0 then |old(Elements())| - 1 else |old(up)| - 1
    {
      ReverseNone<T>();
      hide Reverse;
      if |up| > 0 {
        var f := up[0];
        assert up == [f] + up[1..];
        ReversePrepend(f, up[1..]);
        up := up[1..];
        focus, f := f, focus;
        down := [f] + down;
      } else if |down| > 0 {
        var f := down[|down| - 1];
        assert down == down[..|down| - 1] + [f];
        down := down[..|down| - 1];
        focus, f := f, focus;
        down := [f] + down;
        up, down := down, up;
        ReverseTwice(up);
        RevUp();
      }
    }

    /** The focus moves down by one, from the last element to the first; no element moves. */
    method FocusDown()
      modifies this
      ensures Elements() == old(Elements())
      ensures |up| == if |old(up)| == |old(Elements())| - 1 then 0 else |old(up)| + 1
    {
      ReverseNone<T>();
      hide Reverse;
      if |down| > 0 {
        var f, rest := down[0], down[1..];
        assert Elements() == Reverse(up) + [focus] + [f] + rest;
        ReversePrepend(focus, up);
        down := rest;
        focus, f := f, focus;
        up := [f] + up;
      } else if |up| > 0 {
        var f, rest := up[|up| - 1], up[..|up| - 1];
        assert up == rest + [f];
        ReverseAppend(rest, f);
        ReversePrepend(focus, rest);
        assert Elements() == [f] + Reverse(rest) + [focus];
        up := rest;
        focus, f := f, focus;
        up := [f] + up;
        up, down := down, up;
        RevDown();
      }
    }

    /** Moves the focus to the next element that satisfies `f`, looking down from the focus and then from
        the top; without one everything is as it was. */
    method FocusElementBy(f: T -> bool) returns (found: bool, ghost k: nat)
      modifies this
      ensures Elements() == old(Elements())
      ensures found <==> exists t :: t in old(Unraveled()) && f(t)
      ensures found ==> k < |Elements()| && |up| == Wrapped(|old(up)| + k, |Elements()|) && focus == old(Unraveled())[k]
      ensures found ==> f(focus) && forall j :: 0 <= j < k ==> !f(old(Unraveled())[j])
      ensures !found ==> up == old(up) && focus == old(focus) && down == old(down)
    {
      var n := |up| + |down| + 1;
      ghost var order, start := Unraveled(), |up|;
      k := 0;
      for i := 0 to n
        invariant k == i && Elements() == old(Elements())
        invariant |up| == if i == n then start else Wrapped(start + i, n)
        invariant forall j :: 0 <= j < i ==> !f(order[j])
      {
        UnraveledAt(Elements(), start, i);
        if f(focus) {
          return true, k;
        }
        FocusDown();
        k := k + 1;
      }
      Determined();
      return false, k;
    }

    /** All elements from the focus down and then from the top. */
    ghost function Unraveled(): (r: seq<T>)
      reads this
      ensures |r| == |Elements()|
    {
      Elements()[|up|..] + Elements()[..|up|]
    }

    /** All elements move up by one, the first to the end; the focus stays with its element. */
    method RotateUp()
      modifies this
      ensures Elements() == Left(old(Elements())) && focus == old(focus)
      ensures |up| == if |old(up)| == 0 then |old(Elements())| - 1 else |old(up)| - 1
    {
      if |up| > 0 {
        var t, rest := up[|up| - 1], up[..|up| - 1];
        assert up == rest + [t];
        ReverseAppend(rest, t);
        LeftOf(t, Reverse(rest) + [focus] + down);
        assert Elements() == [t] + (Reverse(rest) + [focus] + down);
        up := rest;
        down := down + [t];
        assert Elements() == Reverse(rest) + [focus] + old(down) + [t];
      } else {
        LeftOf(focus, down);
        assert Elements() == [focus] + down;
        up, down := down, up;
        ReverseTwice(up);
        RevUp();
        assert Elements() == old(down) + [focus];
      }
    }

    /** All elements move down by one, the last to the front; the focus stays with its element. */
    method RotateDown()
      modifies this
      ensures Elements() == Right(old(Elements())) && focus == old(focus)
      ensures |up| == if |old(up)| == |old(Elements())| - 1 then 0 else |old(up)| + 1
    {
      if |down| > 0 {
        var t, rest := down[|down| - 1], down[..|down| - 1];
        assert down == rest + [t];
        ReverseAppend(up, t);
        RightOf(Reverse(up) + [focus] + rest, t);
        assert Elements() == Reverse(up) + [focus] + rest + [t];
        down := rest;
        up := up + [t];
        assert Elements() == [t] + (Reverse(old(up)) + [focus] + rest);
      } else {
        RightOf(Reverse(up), focus);
        assert Elements() == Reverse(up) + [focus];
        up, down := down, up;
        RevDown();
        assert Elements() == [focus] + Reverse(old(up));
      }
    }

    /** Rotating up and down, in either order, changes nothing. */
    method RotateBoth(upFirst: bool)
      modifies this
      ensures up == old(up) && focus == old(focus) && down == old(down)
    {
      ShiftsInverse(Elements());
      if upFirst {
        RotateUp();
        RotateDown();
      } else {
        RotateDown();
        RotateUp();
      }
      Determined();
    }

    /** The elements that satisfy `f` stay, in order, and the others are taken out, in order. The focus
        moves down, or up if there is nothing below, when its element is taken out. */
    method Extract(f: T -> bool) returns (stack: ZipList?<T>, extracted: seq<T>)
      ensures extracted == Filter(Elements(), t => !f(t))
      ensures stack == null <==> Filter(Elements(), f) == []
      ensures stack != null ==> fresh(stack) && stack.Elements() == Filter(Elements(), f)
      ensures stack != null && f(focus) ==> stack.focus == focus && Reverse(stack.up) == Filter(Reverse(up), f)
      ensures stack != null && !f(focus) ==>
        var above, below := Filter(Reverse(up), f), Filter(down, f);
        if below != [] then stack.focus == below[0] && Reverse(stack.up) == above
        else above != [] && stack.focus == above[|above| - 1] && stack.down == []
    {
      ghost var not := (t: T) => !f(t);
      var newUp, above := KeepUp(f);
      var newDown, below := KeepDown(f);
      var upToFocus := |above|;
      extracted := above + below;
      FilterAround(Reverse(up), focus, down, f);
      FilterAround(Reverse(up), focus, down, not);
      hide Filter;
      if f(focus) {
        stack := new ZipList<T>.Parts(newUp, focus, newDown);
        assert extracted == above + [] + below;
        return;
      }
      assert extracted[..upToFocus] == above && extracted[upToFocus..] == below;
      extracted := extracted[..upToFocus] + [focus] + extracted[upToFocus..];
      stack := WithoutFocus(newUp, newDown);
    }

    /** What is left when the focus is taken out: the next element below gets it, or else the one above. */
    static method WithoutFocus(newUp: seq<T>, newDown: seq<T>) returns (stack: ZipList?<T>)
      ensures stack == null <==> newUp == [] && newDown == []
      ensures stack != null ==> fresh(stack) && stack.Elements() == Reverse(newUp) + [] + newDown
      ensures newDown != [] ==> stack != null && stack.focus == newDown[0] && stack.up == newUp
      ensures newDown == [] && newUp != [] ==> stack != null && stack.focus == newUp[0] && stack.down == []
      ensures newDown == [] && newUp != [] ==> Reverse(newUp)[|newUp| - 1] == newUp[0]
    {
      if |newDown| > 0 {
        stack := new ZipList<T>.Parts(newUp, newDown[0], newDown[1..]);
      } else if |newUp| > 0 {
        ReversePrepend(newUp[0], newUp[1..]);
        ReversedAt(newUp, |newUp| - 1);
        assert newUp == [newUp[0]] + newUp[1..];
        stack := new ZipList<T>.Parts(newUp[1..], newUp[0], []);
      } else {
        stack := null;
      }
    }

    method KeepUp(f: T -> bool) returns (kept: seq<T>, taken: seq<T>)
      ensures Reverse(kept) == Filter(Reverse(up), f) && taken == Filter(Reverse(up), t => !f(t))
      ensures kept == [] <==> Filter(Reverse(up), f) == []
    {
      ghost var above, not := Reverse(up), (t: T) => !f(t);
      kept, taken := [], [];
      assert above[..0] == [];
      for i := 0 to |up|
        invariant Reverse(kept) == Filter(above[..i], f) && taken == Filter(above[..i], not)
      {
        var t := up[|up| - i - 1];
        ReversedAt(up, i);
        assert above[..i + 1] == above[..i] + [t];
        FilterConcat(above[..i], [t], f);
        FilterConcat(above[..i], [t], not);
        if f(t) {
          ReversePrepend(t, kept);
          kept := [t] + kept;
        } else {
          taken := taken + [t];
        }
      }
      assert above[..|up|] == above;
      assert |Reverse(kept)| == |kept|;
    }

    method KeepDown(f: T -> bool) returns (kept: seq<T>, taken: seq<T>)
      ensures kept == Filter(down, f) && taken == Filter(down, t => !f(t))
    {
      ghost var not := (t: T) => !f(t);
      kept, taken := [], [];
      assert down[..0] == [];
      for i := 0 to |down|
        invariant kept == Filter(down[..i], f) && taken == Filter(down[..i], not)
      {
        var t := down[i];
        assert down[..i + 1] == down[..i] + [t];
        FilterConcat(down[..i], [t], f);
        FilterConcat(down[..i], [t], not);
        if f(t) {
          kept := kept + [t];
        } else {
          taken := taken + [t];
        }
      }
      assert down[..|down|] == down;
    }

    constructor Parts(up: seq<T>, focus: T, down: seq<T>)
      ensures this.up == up && this.focus == focus && this.down == down
    {
      this.up, this.focus, this.down := up, focus, down;
    }
  }

  function Wrapped(i: nat, n: nat): nat { if i < n then i else i - n }

  lemma {:induction false} ReversedAt<T>(s: seq<T>, i: nat)
    requires i < |s|
    ensures Reverse(s)[i] == s[|s| - 1 - i]
    decreases |s|
  {
    if i > 0 {
      ReversedAt(s[..|s| - 1], i - 1);
    }
  }

  lemma UnraveledAt<T>(s: seq<T>, u: nat, j: nat)
    requires u < |s| && j < |s|
    ensures (s[u..] + s[..u])[j] == s[Wrapped(u + j, |s|)]
  {
  }

  lemma {:induction false} FilterAround<T>(x: seq<T>, t: T, y: seq<T>, f: T -> bool)
    ensures Filter(x + [t] + y, f) == Filter(x, f) + (if f(t) then [t] else []) + Filter(y, f)
  {
    FilterConcat(x + [t], y, f);
    FilterConcat(x, [t], f);
    assert [t][1..] == [];
  }

  lemma {:induction false} FilterAll<T>(s: seq<T>, f: T -> bool)
    ensures forall t :: t in Filter(s, f) <==> t in s && f(t)
    decreases |s|
  {
    if s != [] {
      FilterAll(s[1..], f);
    }
  }

  /** What is extracted is never what satisfies the predicate: a list has an element, which is in one of the two
      parts alone. */
  lemma {:induction false} ExtractsOthers<T>(s: seq<T>, f: T -> bool)
    requires s != []
    ensures Filter(s, t => !f(t)) != Filter(s, f)
  {
    FilterAll(s, f);
    FilterAll(s, t => !f(t));
    assert s[0] in s;
  }
}
