/** The undo log of a buffer: transactions of edits, the combining of consecutive edits, and what undoing
    and redoing transactions does to a text. */
module EditLogs {
  import opened Basics
  import opened Utf8

  datatype Kind = Insertion | Deletion

  datatype Txt = Ch(c: char) | Str(s: seq<char>) {
    function Chars(): seq<char> { if Ch? then [c] else s }
  }

  datatype Edit = Edit(kind: Kind, cur: nat, txt: Txt)

  type Transaction = seq<Edit>

  datatype Log = Log(edits: seq<Transaction>, undone: seq<Transaction>)

  function Inverse(e: Edit): Edit {
    e.(kind := if e.kind.Insertion? then Deletion else Insertion)
  }

  // ---------------------------------------------------------------- what an edit does to a text

  /** The edit describes a change of `t` that it can have made: it changes something, has no carriage
      returns, lies in the text, and a deletion has the text that it deletes. */
  predicate Fits(t: seq<char>, e: Edit) {
    && e.txt.Chars() != [] && '\r' !in e.txt.Chars()
    && e.cur <= |t|
    && (e.kind.Deletion? ==> e.txt.Chars() <= t[e.cur..])
  }

  function Spliced(t: seq<char>, e: Edit): seq<char>
    requires e.cur <= |t| && (e.kind.Deletion? ==> e.cur + |e.txt.Chars()| <= |t|)
  {
    if e.kind.Insertion? then t[..e.cur] + e.txt.Chars() + t[e.cur..]
    else t[..e.cur] + t[e.cur + |e.txt.Chars()|..]
  }

  /** Making the edits one after the other turns `b` into `t`. */
  predicate Leads(b: seq<char>, es: seq<Edit>, t: seq<char>)
    decreases |es|
  {
    if es == [] then b == t else Fits(b, es[0]) && Leads(Spliced(b, es[0]), es[1..], t)
  }

  lemma {:induction false} LeadsConcat(b: seq<char>, x: seq<Edit>, m: seq<char>, y: seq<Edit>, t: seq<char>)
    requires Leads(b, x, m)
    ensures Leads(b, x + y, t) <==> Leads(m, y, t)
    decreases |x|
  {
    if x == [] {
      assert x + y == y;
    } else {
      assert (x + y)[1..] == x[1..] + y;
      LeadsConcat(Spliced(b, x[0]), x[1..], m, y, t);
    }
  }

  lemma {:induction false} LeadsSplit(b: seq<char>, x: seq<Edit>, y: seq<Edit>, t: seq<char>) returns (m: seq<char>)
    requires Leads(b, x + y, t)
    ensures Leads(b, x, m) && Leads(m, y, t)
    decreases |x|
  {
    if x == [] {
      assert x + y == y;
      m := b;
    } else {
      assert (x + y)[1..] == x[1..] + y;
      m := LeadsSplit(Spliced(b, x[0]), x[1..], y, t);
    }
  }

  lemma {:induction false} LeadsOne(b: seq<char>, e: Edit, t: seq<char>)
    ensures Leads(b, [e], t) <==> Fits(b, e) && Spliced(b, e) == t
  {
  }

  lemma {:induction false} LeadsTwo(b: seq<char>, a: Edit, e: Edit, t: seq<char>)
    ensures Leads(b, [a, e], t) <==> Fits(b, a) && Fits(Spliced(b, a), e) && Spliced(Spliced(b, a), e) == t
  {
    assert [a, e][1..] == [e];
    if Fits(b, a) {
      LeadsOne(Spliced(b, a), e, t);
    }
  }

  /** The inverse of an edit takes back what the edit did. */
  lemma InverseTakesBack(t: seq<char>, e: Edit)
    requires Fits(t, e)
    ensures Fits(Spliced(t, e), Inverse(e)) && Spliced(Spliced(t, e), Inverse(e)) == t
  {
    if e.kind.Insertion? {
      InsertThenDelete(t[..e.cur], e.txt.Chars(), t[e.cur..]);
      assert t == t[..e.cur] + t[e.cur..];
    } else {
      DeleteThenInsert(t, e.cur, e.txt.Chars());
    }
  }

  lemma InsertThenDelete(p: seq<char>, x: seq<char>, q: seq<char>)
    ensures var u := p + x + q; x <= u[|p|..] && u[..|p|] + u[|p| + |x|..] == p + q
  {
    var u := p + x + q;
    assert u[|p|..] == x + q && u[|p| + |x|..] == q && u[..|p|] == p;
  }

  lemma DeleteThenInsert(t: seq<char>, i: nat, x: seq<char>)
    requires i <= |t| && x <= t[i..]
    ensures var u := t[..i] + t[i + |x|..]; u[..i] + x + u[i..] == t
  {
    var u := t[..i] + t[i + |x|..];
    assert t[i..][..|x|] == x;
    assert u[..i] == t[..i] && u[i..] == t[i + |x|..];
  }

  /** The inverses of the edits of a transaction, last first. */
  function Inverses(es: seq<Edit>): (r: seq<Edit>)
    ensures |r| == |es|
  {
    if es == [] then [] else Inverses(es[1..]) + [Inverse(es[0])]
  }

  lemma {:induction false} InversesTakeBack(b: seq<char>, es: seq<Edit>, t: seq<char>)
    requires Leads(b, es, t)
    ensures Leads(t, Inverses(es), b)
    decreases |es|
  {
    if es != [] {
      hide Fits, Spliced, Inverse;
      var m, e := Spliced(b, es[0]), es[0];
      InversesTakeBack(m, es[1..], t);
      InverseTakesBack(b, e);
      LeadsOne(m, Inverse(e), b);
      LeadsConcat(t, Inverses(es[1..]), m, [Inverse(e)], b);
    }
  }

  lemma {:induction false} InversesBack(es: seq<Edit>, e: Edit)
    ensures Inverses(es + [e]) == [Inverse(e)] + Inverses(es)
    decreases |es|
  {
    if es == [] {
      assert [e][1..] == [] && es + [e] == [e];
    } else {
      assert (es + [e])[1..] == es[1..] + [e];
      InversesBack(es[1..], e);
    }
  }

  // ---------------------------------------------------------------- combining edits

  /** What remains of two edits that follow each other, when they can be combined. */
  function Combined(a: Edit, e: Edit): Option<Edit> {
    match (a.kind, e.kind)
    case (Insertion, Insertion) =>
      if e.cur == a.cur then Some(a.(txt := Str(e.txt.Chars() + a.txt.Chars())))
      else if e.cur == a.cur + LenAsGuarded(a.txt) then Some(a.(txt := Str(a.txt.Chars() + e.txt.Chars())))
      else None
    case (Deletion, Deletion) =>
      if e.cur == a.cur then Some(a.(txt := Str(a.txt.Chars() + e.txt.Chars())))
      else if e.cur + LenAsGuarded(e.txt) == a.cur
      then Some(Edit(Deletion, e.cur, Str(e.txt.Chars() + a.txt.Chars())))
      else None
    case _ => None
  }

  /** The length that the guards use: one for a character, and the number of bytes for a string. */
  function LenAsGuarded(txt: Txt): nat {
    if txt.Ch? then 1 else ByteLen(txt.s)
  }

  /** The guard that compares a character index with a length in bytes fires on a text whose length in
      characters is different. */
  predicate Misjudged(a: Edit, e: Edit) {
    && a.kind == e.kind && e.cur != a.cur
    && if a.kind.Insertion? then e.cur == a.cur + LenAsGuarded(a.txt) && LenAsGuarded(a.txt) != |a.txt.Chars()|
       else e.cur + LenAsGuarded(e.txt) == a.cur && LenAsGuarded(e.txt) != |e.txt.Chars()|
  }

  lemma GuardedLen(txt: Txt)
    ensures |txt.Chars()| <= LenAsGuarded(txt)
    ensures (forall i :: 0 <= i < |txt.Chars()| ==> txt.Chars()[i] < 128 as char) ==> LenAsGuarded(txt) == |txt.Chars()|
  {
    if txt.Str? {
      if forall i :: 0 <= i < |txt.s| ==> txt.s[i] < 128 as char {
        AsciiLen(txt.s);
      }
    }
  }

  lemma {:induction false} AsciiLen(s: seq<char>)
    requires forall i :: 0 <= i < |s| ==> s[i] < 128 as char
    ensures ByteLen(s) == |s|
    decreases |s|
  {
    if s != [] {
      AsciiLen(s[..|s| - 1]);
    }
  }

  /** Texts of one-byte characters are never misjudged. */
  lemma AsciiNotMisjudged(a: Edit, e: Edit)
    requires forall i :: 0 <= i < |a.txt.Chars()| ==> a.txt.Chars()[i] < 128 as char
    requires forall i :: 0 <= i < |e.txt.Chars()| ==> e.txt.Chars()[i] < 128 as char
    ensures !Misjudged(a, e)
  {
    GuardedLen(a.txt);
    GuardedLen(e.txt);
  }

  /** Two edits of one-byte characters are combined exactly if the second one continues the first at its start or
      its end. */
  lemma CombinedIfTouching(a: Edit, e: Edit)
    requires forall i :: 0 <= i < |a.txt.Chars()| ==> a.txt.Chars()[i] < 128 as char
    requires forall i :: 0 <= i < |e.txt.Chars()| ==> e.txt.Chars()[i] < 128 as char
    ensures var x, y := |a.txt.Chars()|, |e.txt.Chars()|;
      Combined(a, e).Some? <==>
        a.kind == e.kind && (e.cur == a.cur || if a.kind.Insertion? then e.cur == a.cur + x else e.cur + y == a.cur)
  {
    GuardedLen(a.txt);
    GuardedLen(e.txt);
  }

  /** With a character of several bytes in it, a string is not continued by what follows it, but by what is as far
      behind it as it has bytes; so with a string that is deleted in front of another deletion. */
  lemma GuardedInBytes(c: nat, s: seq<char>, txt: Txt)
    requires exists i :: 0 <= i < |s| && Width(s[i]) > 1
    ensures var a := Edit(Insertion, c, Str(s));
      Combined(a, Edit(Insertion, c + |s|, txt)) == None && Misjudged(a, Edit(Insertion, c + ByteLen(s), txt))
    ensures var e := Edit(Deletion, c, Str(s));
      Combined(Edit(Deletion, c + |s|, txt), e) == None && Misjudged(Edit(Deletion, c + ByteLen(s), txt), e)
  {
    var i :| 0 <= i < |s| && Width(s[i]) > 1;
    WiderThanLong(s, i);
  }

  lemma {:induction false} WiderThanLong(s: seq<char>, i: nat)
    requires i < |s| && Width(s[i]) > 1
    ensures ByteLen(s) > |s|
    decreases |s|
  {
    var front := s[..|s| - 1];
    GuardedLen(Str(front));
    if i < |front| {
      WiderThanLong(front, i);
    }
  }

  lemma InsertTwice(p: seq<char>, x: seq<char>, y: seq<char>, q: seq<char>)
    ensures var m := p + x + q;
      m[..|p| + |x|] + y + m[|p| + |x|..] == p + (x + y) + q && m[..|p|] + y + m[|p|..] == p + (y + x) + q
  {
    var m := p + x + q;
    assert m[..|p| + |x|] == p + x && m[|p| + |x|..] == q;
    assert m[..|p|] == p && m[|p|..] == x + q;
  }

  lemma {:induction false} CombinedInsertions(b: seq<char>, a: Edit, e: Edit, t: seq<char>)
    requires Combined(a, e).Some? && !Misjudged(a, e) && Leads(b, [a, e], t) && a.kind.Insertion?
    ensures Leads(b, [Combined(a, e).value], t)
  {
    hide Leads, ByteLen;
    LeadsTwo(b, a, e, t);
    InsertTwice(b[..a.cur], a.txt.Chars(), e.txt.Chars(), b[a.cur..]);
    LeadsOne(b, Combined(a, e).value, t);
  }

  lemma DeleteTwice(b: seq<char>, i: nat, x: seq<char>, y: seq<char>)
    requires i <= |b| && x <= b[i..] && y <= b[i + |x|..]
    ensures x + y <= b[i..]
    ensures var m := b[..i] + b[i + |x|..]; m[i..] == b[i + |x|..] && m[..i] + m[i + |y|..] == b[..i] + b[i + |x + y|..]
  {
    assert b[i..][..|x|] == x && b[i + |x|..][..|y|] == y;
    assert b[i..] == x + b[i + |x|..];
  }

  lemma DeleteInFront(b: seq<char>, i: nat, x: seq<char>, j: nat, y: seq<char>)
    requires i <= |b| && x <= b[i..] && j + |y| == i
    requires var m := b[..i] + b[i + |x|..]; y <= m[j..]
    ensures y + x <= b[j..]
    ensures var m := b[..i] + b[i + |x|..]; m[..j] + m[i..] == b[..j] + b[j + |y + x|..]
  {
    var m := b[..i] + b[i + |x|..];
    assert b[j..i] == m[j..][..|y|] == y;
    assert b[j..] == b[j..i] + b[i..];
    assert b[i..][..|x|] == x;
  }

  lemma NoReturns(x: seq<char>, y: seq<char>)
    requires '\r' !in x && '\r' !in y
    ensures '\r' !in x + y
  {
  }

  lemma {:induction false} TwoDeletions(b: seq<char>, a: Edit, e: Edit, t: seq<char>)
    requires a.kind.Deletion? && e.kind.Deletion? && Leads(b, [a, e], t)
    ensures var x, y := a.txt.Chars(), e.txt.Chars();
      x != [] && y != [] && '\r' !in y + x && '\r' !in x + y
    ensures a.cur <= |b| && a.txt.Chars() <= b[a.cur..]
    ensures var m := b[..a.cur] + b[a.cur + |a.txt.Chars()|..];
      e.cur <= |m| && e.txt.Chars() <= m[e.cur..] && t == m[..e.cur] + m[e.cur + |e.txt.Chars()|..]
  {
    hide Leads;
    LeadsTwo(b, a, e, t);
    NoReturns(a.txt.Chars(), e.txt.Chars());
    NoReturns(e.txt.Chars(), a.txt.Chars());
  }

  lemma {:induction false} DeletedThere(b: seq<char>, a: Edit, e: Edit, t: seq<char>)
    requires a.kind.Deletion? && e.kind.Deletion? && Leads(b, [a, e], t) && e.cur == a.cur
    ensures Leads(b, [Edit(Deletion, a.cur, Str(a.txt.Chars() + e.txt.Chars()))], t)
  {
    hide Leads, Txt.Chars;
    TwoDeletions(b, a, e, t);
    var x, y := a.txt.Chars(), e.txt.Chars();
    var m := b[..a.cur] + b[a.cur + |x|..];
    assert m[a.cur..] == b[a.cur + |x|..];
    DeleteTwice(b, a.cur, x, y);
    JoinedDeletion(b, a.cur, x + y, t);
  }

  lemma {:induction false} DeletedInFront(b: seq<char>, a: Edit, e: Edit, t: seq<char>)
    requires a.kind.Deletion? && e.kind.Deletion? && Leads(b, [a, e], t) && e.cur + |e.txt.Chars()| == a.cur
    ensures Leads(b, [Edit(Deletion, e.cur, Str(e.txt.Chars() + a.txt.Chars()))], t)
  {
    hide Leads, Txt.Chars;
    TwoDeletions(b, a, e, t);
    var x, y := a.txt.Chars(), e.txt.Chars();
    DeleteInFront(b, a.cur, x, e.cur, y);
    JoinedDeletion(b, e.cur, y + x, t);
  }

  lemma {:induction false} JoinedDeletion(b: seq<char>, i: nat, x: seq<char>, t: seq<char>)
    requires x != [] && '\r' !in x && i <= |b| && x <= b[i..] && t == b[..i] + b[i + |x|..]
    ensures Leads(b, [Edit(Deletion, i, Str(x))], t)
  {
    hide Leads;
    LeadsOne(b, Edit(Deletion, i, Str(x)), t);
  }

  lemma {:induction false} CombinedDeletions(b: seq<char>, a: Edit, e: Edit, t: seq<char>)
    requires Combined(a, e).Some? && !Misjudged(a, e) && Leads(b, [a, e], t) && a.kind.Deletion?
    ensures Leads(b, [Combined(a, e).value], t)
  {
    hide Leads, ByteLen;
    if e.cur == a.cur {
      DeletedThere(b, a, e, t);
    } else {
      DeletedInFront(b, a, e, t);
    }
  }

  function Other(x: char, y: char): (z: char)
    ensures z != x && z != y && z != '\r'
  {
    if 'w' != x && 'w' != y then 'w' else if 'x' != x && 'x' != y then 'x' else 'y'
  }

  function Filled(z: char, n: nat): (r: seq<char>)
    ensures |r| == n && forall i :: 0 <= i < n ==> r[i] == z
  {
    seq(n, _ => z)
  }

  /** A text on which two misjudged insertions do something else than their combination. */
  lemma MisjudgedInsertions(a: Edit, e: Edit) returns (b: seq<char>, t: seq<char>)
    requires Misjudged(a, e) && a.kind.Insertion?
    requires a.txt.Chars() != [] && e.txt.Chars() != [] && '\r' !in a.txt.Chars() && '\r' !in e.txt.Chars()
    ensures Leads(b, [a, e], t)
    ensures Combined(a, e).Some? && Combined(a, e).value.cur <= |b| && Spliced(b, Combined(a, e).value) != t
  {
    hide Leads, ByteLen;
    GuardedLen(a.txt);
    var z := Other(e.txt.Chars()[0], '\r');
    var n := |a.txt.Chars()|;
    b := Filled(z, a.cur + LenAsGuarded(a.txt) - n);
    var m, c := Spliced(b, a), Combined(a, e).value;
    assert e.cur == |m|;
    t := Spliced(m, e);
    LeadsTwo(b, a, e, t);
    assert t[a.cur + n] == m[a.cur + n] == z;
    assert Spliced(b, c)[a.cur + n] == e.txt.Chars()[0];
  }

  /** A text on which two misjudged deletions do something else than their combination. */
  lemma MisjudgedDeletions(a: Edit, e: Edit) returns (b: seq<char>, t: seq<char>)
    requires Misjudged(a, e) && a.kind.Deletion?
    requires a.txt.Chars() != [] && e.txt.Chars() != [] && '\r' !in a.txt.Chars() && '\r' !in e.txt.Chars()
    ensures Leads(b, [a, e], t)
    ensures var c := Combined(a, e);
      c.Some? && c.value.cur + |c.value.txt.Chars()| <= |b| && Spliced(b, c.value) != t
  {
    hide Leads, ByteLen;
    GuardedLen(e.txt);
    var x, y := a.txt.Chars(), e.txt.Chars();
    var z := Other(x[|x| - 1], '\r');
    var d := a.cur - e.cur - |y|;
    var front := Filled(z, e.cur) + y + Filled(z, d);
    b := front + x;
    assert b[a.cur..] == x && b[..a.cur] == front;
    assert Spliced(b, a) == front;
    assert front[e.cur..][..|y|] == y;
    t := Spliced(front, e);
    LeadsTwo(b, a, e, t);
    var c := Combined(a, e).value;
    assert |t| == e.cur + d && t[|t| - 1] == front[|front| - 1] == z;
    assert Spliced(b, c)[|t| - 1] == b[|b| - 1] == x[|x| - 1];
  }

  /** Combining two edits does what both did, on every text, exactly when the guard did not misjudge
      a length. */
  lemma CombinesRightly(a: Edit, e: Edit)
    requires Combined(a, e).Some?
    requires a.txt.Chars() != [] && e.txt.Chars() != [] && '\r' !in a.txt.Chars() && '\r' !in e.txt.Chars()
    ensures (forall b, t :: Leads(b, [a, e], t) ==> Leads(b, [Combined(a, e).value], t)) <==> !Misjudged(a, e)
  {
    hide Leads, Combined, Misjudged, Spliced;
    if Misjudged(a, e) {
      var b, t;
      if a.kind.Insertion? { b, t := MisjudgedInsertions(a, e); } else { b, t := MisjudgedDeletions(a, e); }
      LeadsOne(b, Combined(a, e).value, t);
      assert Leads(b, [a, e], t) && !Leads(b, [Combined(a, e).value], t);
    } else {
      forall b, t | Leads(b, [a, e], t)
        ensures Leads(b, [Combined(a, e).value], t)
      {
        if a.kind.Insertion? { CombinedInsertions(b, a, e, t); } else { CombinedDeletions(b, a, e, t); }
      }
    }
  }

  // ---------------------------------------------------------------- the log

  function Last<T>(s: seq<T>): T
    requires s != []
  {
    s[|s| - 1]
  }

  function Front<T>(s: seq<T>): seq<T>
    requires s != []
  {
    s[..|s| - 1]
  }

  function Extended(t: Transaction, e: Edit): Transaction {
    if t == [] then [e]
    else match Combined(Last(t), e) case Some(c) => Front(t) + [c] case None => t + [e]
  }

  function Pushed(l: Log, e: Edit): Log {
    Log(if l.edits == [] then [[e]] else Front(l.edits) + [Extended(Last(l.edits), e)], [])
  }

  function PushedAll(l: Log, es: seq<Edit>): Log
    decreases |es|
  {
    if es == [] then l else Pushed(PushedAll(l, Front(es)), Last(es))
  }

  /** The edits of typing `s` at `at`, and of deleting it with the cursor in front of it or behind it. */
  function Typed(at: nat,
    s: seq<char>): seq<Edit> { seq(|s|, k requires 0 <= k < |s| => Edit(Insertion, at + k, Ch(s[k]))) }

  function TakenOut(at: nat,
    s: seq<char>): seq<Edit> { seq(|s|, k requires 0 <= k < |s| => Edit(Deletion, at, Ch(s[k]))) }

  function Erased(at: nat, s: seq<char>): seq<Edit> {
    seq(|s|, k requires 0 <= k < |s| => Edit(Deletion, at + |s| - 1 - k, Ch(s[|s| - 1 - k])))
  }

  /** One edit for a whole text, as a combination of edits of characters writes it. */
  function OneEdit(kind: Kind, at: nat, s: seq<char>): Edit
    requires s != []
  {
    Edit(kind, at, if |s| == 1 then Ch(s[0]) else Str(s))
  }

  lemma {:induction false} PushedFirst(l: Log, e: Edit)
    requires l.edits == [] || Last(l.edits) == []
    ensures PushedAll(l, [e]) == Log((if l.edits == [] then [] else Front(l.edits)) + [[e]], [])
  {
    assert PushedAll(l, Front([e])) == l;
  }

  lemma {:induction false} PushedNext(l: Log, ts: seq<Transaction>, a: Edit, es: seq<Edit>, c: Edit)
    requires es != [] && PushedAll(l, Front(es)) == Log(ts + [[a]], []) && Combined(a, Last(es)) == Some(c)
    ensures PushedAll(l, es) == Log(ts + [[c]], [])
  {
    hide Combined;
    assert Last(ts + [[a]]) == [a] && Front(ts + [[a]]) == ts;
    assert Front([a]) + [c] == [c];
  }

  /** One-byte characters that are typed one after the other are one edit of the log. */
  lemma {:induction false} TypedTogether(l: Log, at: nat, s: seq<char>)
    requires s != [] && (l.edits == [] || Last(l.edits) == []) && forall i :: 0 <= i < |s| ==> s[i] < 128 as char
    ensures PushedAll(l, Typed(at, s)) ==
      Log((if l.edits == [] then [] else Front(l.edits)) + [[OneEdit(Insertion, at, s)]], [])
    decreases |s|
  {
    var n, es, ts := |s| - 1, Typed(at, s), if l.edits == [] then [] else Front(l.edits);
    if n == 0 {
      assert es == [OneEdit(Insertion, at, s)];
      PushedFirst(l, es[0]);
    } else {
      hide PushedAll;
      TypedTogether(l, at, s[..n]);
      assert Front(es) == Typed(at, s[..n]);
      AsciiLen(s[..n]);
      assert s[..n] + [s[n]] == s && (n == 1 ==> s[..n] == [s[0]]);
      PushedNext(l, ts, OneEdit(Insertion, at, s[..n]), es, OneEdit(Insertion, at, s));
    }
  }

  /** So are characters that are deleted one after the other, with the cursor in front of them. */
  lemma {:induction false} TakenOutTogether(l: Log, at: nat, s: seq<char>)
    requires s != [] && (l.edits == [] || Last(l.edits) == [])
    ensures PushedAll(l, TakenOut(at, s)) ==
      Log((if l.edits == [] then [] else Front(l.edits)) + [[OneEdit(Deletion, at, s)]], [])
    decreases |s|
  {
    var n, es, ts := |s| - 1, TakenOut(at, s), if l.edits == [] then [] else Front(l.edits);
    if n == 0 {
      assert es == [OneEdit(Deletion, at, s)];
      PushedFirst(l, es[0]);
    } else {
      hide PushedAll;
      TakenOutTogether(l, at, s[..n]);
      assert Front(es) == TakenOut(at, s[..n]);
      assert s[..n] + [s[n]] == s && (n == 1 ==> s[..n] == [s[0]]);
      PushedNext(l, ts, OneEdit(Deletion, at, s[..n]), es, OneEdit(Deletion, at, s));
    }
  }

  lemma ErasedFirst(at: nat, s: seq<char>)
    requires |s| > 1
    ensures Front(Erased(at, s)) == Erased(at + 1, s[1..]) && Last(Erased(at, s)) == Edit(Deletion, at, Ch(s[0]))
  {
  }

  /** And with the cursor behind them. */
  lemma {:induction false} ErasedTogether(l: Log, at: nat, s: seq<char>)
    requires s != [] && (l.edits == [] || Last(l.edits) == [])
    ensures PushedAll(l, Erased(at, s)) ==
      Log((if l.edits == [] then [] else Front(l.edits)) + [[OneEdit(Deletion, at, s)]], [])
    decreases |s|
  {
    var es, ts := Erased(at, s), if l.edits == [] then [] else Front(l.edits);
    if |s| == 1 {
      assert es == [OneEdit(Deletion, at, s)];
      PushedFirst(l, es[0]);
    } else {
      ErasedFirst(at, s);
      hide PushedAll, Erased;
      var rest := s[1..];
      ErasedTogether(l, at + 1, rest);
      assert [s[0]] + rest == s && (|rest| == 1 ==> rest == [s[1]]);
      PushedNext(l, ts, OneEdit(Deletion, at + 1, rest), es, OneEdit(Deletion, at, s));
    }
  }

  /** A new transaction, unless the last one is empty. */
  function Begun(l: Log): (r: Log)
    ensures r.edits != [] && Last(r.edits) == [] && r.undone == l.undone
    ensures l.edits != [] && Last(l.edits) == [] ==> r == l
  {
    if l.edits != [] && Last(l.edits) == [] then l else l.(edits := l.edits + [[]])
  }

  function Trimmed(ts: seq<Transaction>): (r: seq<Transaction>)
    ensures r != [] ==> Last(r) != []
  {
    if ts != [] && Last(ts) == [] then Trimmed(Front(ts)) else ts
  }

  lemma TrimmedNone()
    ensures Trimmed([]) == []
  {
  }

  lemma {:induction false} TrimmedStep(ts: seq<Transaction>, t: Transaction)
    ensures Trimmed(ts + [t]) == if t == [] then Trimmed(ts) else ts + [t]
    ensures Front(ts + [t]) == ts && Last(ts + [t]) == t
  {
  }

  /** The log after an undo, and the edits to make. */
  function Undone(l: Log): (r: (Log, Option<Transaction>))
    ensures r.1.Some? ==> r.1.value != []
  {
    var ts := Trimmed(l.edits);
    if ts == [] then (Log([], l.undone), None)
    else (Log(Front(ts), l.undone + [Last(ts)]), Some(Inverses(Last(ts))))
  }

  /** The log after a redo, and the edits to make. An empty transaction among the undone ones would make
      it continue with the transactions that have not been undone. */
  function Redone(l: Log): (r: (Log, Option<Transaction>))
    ensures r.1.Some? ==> r.1.value != []
  {
    if l.undone == [] then (l, None)
    else if Last(l.undone) != [] then (Log(l.edits + [Last(l.undone)], Front(l.undone)), Some(Last(l.undone)))
    else
      var ts := Trimmed(l.edits);
      (Log(ts, Front(l.undone)), if ts == [] then None else Some(Last(ts)))
  }

  predicate NoneEmpty(ts: seq<Transaction>) { [] !in ts }

  datatype LogOp = LogPush(e: Edit) | LogBegin | LogUndo | LogRedo

  function LogNext(l: Log, op: LogOp): Log {
    match op
    case LogPush(e) => Pushed(l, e)
    case LogBegin => Begun(l)
    case LogUndo => Undone(l).0
    case LogRedo => Redone(l).0
  }

  function LogRun(l: Log, ops: seq<LogOp>): Log
    decreases |ops|
  {
    if ops == [] then l else LogRun(LogNext(l, ops[0]), ops[1..])
  }

  /** However a log is used, no undone transaction is ever empty: a redo never falls back on the
      transactions that have not been undone. */
  lemma {:induction false} UndoneNeverEmpty(l: Log, ops: seq<LogOp>)
    requires NoneEmpty(l.undone)
    ensures NoneEmpty(LogRun(l, ops).undone)
    ensures var r := LogRun(l, ops); r.undone != [] ==>
      Redone(r) == (Log(r.edits + [Last(r.undone)], Front(r.undone)), Some(Last(r.undone)))
    decreases |ops|
  {
    if ops != [] {
      assert NoneEmpty(LogNext(l, ops[0]).undone);
      UndoneNeverEmpty(LogNext(l, ops[0]), ops[1..]);
    }
  }

  class EditLog {
    var edits: seq<Transaction>
    var undone: seq<Transaction>
    var paused: bool

    ghost function State(): Log
      reads `edits, `undone
    {
      Log(edits, undone)
    }

    constructor ()
      ensures State() == Log([], []) && !paused
    {
      edits, undone, paused := [], [], false;
    }

    method Clear()
      modifies this
      ensures State() == Log([], []) && !paused
    {
      edits, undone, paused := [], [], false;
    }

    method NewTransaction()
      modifies `edits
      ensures State() == Begun(old(State()))
    {
      if |edits| > 0 && |edits[|edits| - 1]| == 0 {
        return;
      }
      edits := edits + [[]];
    }

    method Push(e: Edit)
      modifies `edits, `undone
      ensures State() == Pushed(old(State()), e)
    {
      undone := [];
      if |edits| == 0 {
        edits := [[e]];
        return;
      }
      var transaction := edits[|edits| - 1];
      if |transaction| == 0 {
        edits := edits[|edits| - 1 := [e]];
        return;
      }
      var combined := TryCombine(transaction[|transaction| - 1], e);
      match combined
      case Some(c) =>
        assert transaction[|transaction| - 1 := c] == Front(transaction) + [c];
        edits := edits[|edits| - 1 := transaction[|transaction| - 1 := c]];
      case None =>
        edits := edits[|edits| - 1 := transaction + [e]];
    }

    /** Records an edit unless the log is paused. */
    method Record(e: Edit)
      modifies `edits, `undone
      ensures State() == if paused then old(State()) else Pushed(old(State()), e)
    {
      if !paused {
        Push(e);
      }
    }

    method Undo() returns (r: Option<Transaction>)
      modifies `edits, `undone
      ensures (State(), r) == Undone(old(State()))
    {
      hide Inverses, Trimmed;
      TrimmedNone();
      if |edits| == 0 {
        return None;
      }
      var t := edits[|edits| - 1];
      assert edits[..|edits| - 1] + [t] == edits;
      edits := edits[..|edits| - 1];
      while |t| == 0
        invariant undone == old(undone)
        invariant Trimmed(edits + [t]) == Trimmed(old(edits))
        decreases |edits|
      {
        TrimmedStep(edits, t);
        if |edits| == 0 {
          return None;
        }
        t := edits[|edits| - 1];
        assert edits[..|edits| - 1] + [t] == edits;
        edits := edits[..|edits| - 1];
      }
      TrimmedStep(edits, t);
      undone := undone + [t];
      var inverted := InvertAll(t);
      r := Some(inverted);
    }

    method Redo() returns (r: Option<Transaction>)
      modifies `edits, `undone
      ensures (State(), r) == Redone(old(State()))
    {
      hide Trimmed;
      TrimmedNone();
      if |undone| == 0 {
        return None;
      }
      var t := undone[|undone| - 1];
      undone := undone[..|undone| - 1];
      if |t| == 0 {
        TrimmedStep(edits, []);
      }
      while |t| == 0
        invariant undone == Front(old(undone))
        invariant || (edits == old(edits) && t == Last(old(undone)))
                  || (Last(old(undone)) == [] && Trimmed(edits + [t]) == Trimmed(old(edits)))
        decreases |edits|
      {
        TrimmedStep(edits, t);
        if |edits| == 0 {
          return None;
        }
        t := edits[|edits| - 1];
        assert edits[..|edits| - 1] + [t] == edits;
        edits := edits[..|edits| - 1];
      }
      TrimmedStep(edits, t);
      edits := edits + [t];
      r := Some(t);
    }
  }

  /** Merges `e` into `a` where that is possible. */
  method TryCombine(a: Edit, e: Edit) returns (r: Option<Edit>)
    ensures r == Combined(a, e)
  {
    if a.kind != e.kind {
      return None;
    } else if e.cur == a.cur {
      return Some(a.(txt := if a.kind.Insertion? then Prepended(a.txt, e.txt) else Appended(a.txt, e.txt)));
    } else if a.kind.Insertion? {
      match a.txt {
        case Ch(_) => if e.cur == a.cur + 1 { return Some(a.(txt := Appended(a.txt, e.txt))); }
        case Str(s) => if e.cur == a.cur + ByteLen(s) { return Some(a.(txt := Appended(a.txt, e.txt))); }
      }
      return None;
    } else {
      match e.txt {
        case Ch(_) => if e.cur + 1 == a.cur { return Some(Edit(a.kind, e.cur, Prepended(a.txt, e.txt))); }
        case Str(s) => if e.cur + ByteLen(s) == a.cur { return Some(Edit(a.kind, e.cur, Prepended(a.txt, e.txt))); }
      }
      return None;
    }
  }

  function Appended(t: Txt, u: Txt): Txt { Str(t.Chars() + u.Chars()) }

  function Prepended(t: Txt, u: Txt): Txt { Str(u.Chars() + t.Chars()) }

  /** The edits of a transaction reversed and inverted. */
  method InvertAll(t: Transaction) returns (r: Transaction)
    ensures r == Inverses(t)
  {
    r := [];
    assert t[..0] == [];
    for k := 0 to |t|
      invariant r == Inverses(t[..k])
    {
      InversesBack(t[..k], t[k]);
      assert t[..k + 1] == t[..k] + [t[k]];
      r := [Inverse(t[k])] + r;
    }
    assert t[..|t|] == t;
  }
}
