/** Selections, and the buffer: a gap buffer with an edit log, its editing operations, undo and redo, and
    insertions at a second selection. */
module Buffers {
  import opened Basics
  import opened Slices
  import opened EditLogs
  import H = History
  import opened GapBuffers

  // ---------------------------------------------------------------- selections

  datatype Range = Range(start: nat, end: nat, startActive: bool)

  function FromCursors(c1: nat, c2: nat, c1WasActive: bool): (r: Range)
    ensures r.start <= r.end && {r.start, r.end} == {c1, c2}
    ensures c1 != c2 ==> (if r.startActive then r.start else r.end) == if c1WasActive then c1 else c2
  {
    if c1 <= c2 then Range(c1, c2, c1WasActive)
    else if c1WasActive then Range(c2, c1, false)
    else Range(c2, c1, true)
  }

  datatype Dot = AtCur(c: nat) | AtRange(r: Range) {
    function First(): nat { if AtCur? then c else r.start }

    function LastCur(): nat { if AtCur? then c else r.end }

    function NChars(): int { LastCur() - First() + 1 }

    function AsRange(): Range { if AtCur? then Range(c, c, false) else r }

    function CollapseNullRange(): Dot { if AtRange? && r.start == r.end then AtCur(r.start) else this }

    lemma ClampedWithin(max: nat)
      requires First() <= LastCur()
      ensures ClampIdx(max).Within(max)
      ensures LastCur() <= max ==> ClampIdx(max) == this
      ensures ClampIdx(max).First() == Min(First(), max) && ClampIdx(max).LastCur() == Min(LastCur(), max)
    {
    }

    predicate Within(len: nat) { First() <= LastCur() <= len }

    function WithOffset(offset: int): Dot {
      if AtCur? then AtCur(Offset(c, offset))
      else AtRange(r.(start := Offset(r.start, offset), end := Offset(r.end, offset)))
    }

    function ClampIdx(max: nat): Dot {
      if AtCur? then AtCur(Min(c, max))
      else AtRange(r.(start := Min(r.start, max), end := Min(r.end, max)))
    }
  }

  /** Addition that saturates at zero. */
  function Offset(i: nat, offset: int): nat {
    if offset >= 0 then i + offset else SaturatingSub(i, -offset)
  }

  predicate Intersects(x: Range, y: Range) { x.start <= y.end && y.start <= x.end }

  /** The text that a dot selects. */
  function Content(t: seq<char>, d: Dot): seq<char>
    requires d.Within(|t|)
  {
    if t == [] then [] else t[d.First()..Min(d.LastCur() + 1, |t|)]
  }

  // ---------------------------------------------------------------- what the operations do

  /** A change of the text by an edit, which the log records unless it is paused. */
  function Changed(st: H.State, paused: bool, e: Edit): H.State
    requires e.cur <= |st.text| && (e.kind.Deletion? ==> e.cur + |e.txt.Chars()| <= |st.text|)
  {
    if paused then H.State(Spliced(st.text, e), st.log) else H.Made(st, e)
  }

  /** The characters from `from` to `to` inclusive, or to the end. */
  function RangeText(t: seq<char>, from: nat, to: nat): seq<char>
    requires from <= to + 1 && from <= |t|
  {
    t[from..Min(to + 1, |t|)]
  }

  function RangeDeletion(t: seq<char>, from: nat, to: nat): (e: Edit)
    requires from <= to + 1 && from <= |t|
    ensures e.kind.Deletion? && e.cur == from && e.cur + |e.txt.Chars()| <= |t|
  {
    Edit(Deletion, from, Str(RangeText(t, from, to)))
  }

  lemma RangeDeletionIs(st: H.State, paused: bool, r: Range)
    requires r.start <= r.end && r.start <= |st.text|
    ensures var e, after := RangeDeletion(st.text, r.start, r.end), H.RangeDeleted(st.text, r.start, r.end);
      && Changed(st, paused, e) == H.State(after, if paused then st.log else Pushed(st.log, e))
      && e == Edit(Deletion, r.start, Str(RangeText(st.text, r.start, r.end)))
  {
  }

  /** The state after the selected range is deleted; a cursor selects nothing. */
  function Cut(st: H.State, paused: bool, d: Dot): (r: H.State)
    requires d.First() <= |st.text| && d.First() <= d.LastCur()
    ensures d.First() <= |r.text|
  {
    if d.AtCur? then st else Changed(st, paused, RangeDeletion(st.text, d.r.start, d.r.end))
  }

  /** The state after the character at a cursor is deleted; there is none at the end of the text. */
  function CurDeleted(st: H.State, paused: bool, c: nat): H.State {
    if c < |st.text| then Changed(st, paused, Edit(Deletion, c, Ch(st.text[c]))) else st
  }

  function DotDeleted(st: H.State, paused: bool, d: Dot): H.State
    requires d.First() <= |st.text| && d.First() <= d.LastCur()
  {
    if d.AtCur? then CurDeleted(st, paused, d.c) else Cut(st, paused, d)
  }

  /** A deletion takes out exactly what dot selects. */
  lemma DeletionTakesContent(st: H.State, paused: bool, d: Dot)
    requires d.Within(|st.text|)
    ensures var i := d.First();
      DotDeleted(st, paused, d).text == st.text[..i] + st.text[i + |Content(st.text, d)|..]
    ensures DeletedText(st.text, d).Some? ==> DeletedText(st.text, d).value == Content(st.text, d)
  {
    if d.AtRange? {
      RangeDeletionIs(st, paused, d.r);
      hide Changed, RangeDeletion;
    }
  }

  /** What is handed to the clipboard. */
  function DeletedText(t: seq<char>, d: Dot): Option<seq<char>>
    requires d.First() <= |t| && d.First() <= d.LastCur()
  {
    if d.First() == d.LastCur() then None else Some(RangeText(t, d.First(), d.LastCur()))
  }

  function Inserted(st: H.State, paused: bool, d: Dot, txt: Txt): H.State
    requires d.First() <= |st.text| && d.First() <= d.LastCur()
  {
    var cut := Cut(st, paused, d);
    if txt.Chars() == [] then cut else Changed(cut, paused, Edit(Insertion, d.First(), txt))
  }

  /** The dot that replaying a deletion deletes. */
  function DeletionDot(e: Edit): (d: Dot)
    ensures d.First() <= d.LastCur() && d.First() <= e.cur
  {
    match e.txt
    case Ch(_) => AtCur(e.cur)
    case Str(s) => AtRange(FromCursors(e.cur, SaturatingSub(e.cur + |s|, 1), true)).CollapseNullRange()
  }

  /** Replaying an edit is an insertion at its cursor or a deletion of its dot. */
  lemma EditReplays(st: H.State, e: Edit)
    requires e.cur <= |st.text|
    ensures (match (e.kind, e.txt)
        case (Insertion, Ch(c)) => Inserted(st, true, AtCur(e.cur), Ch(if c == '\r' then '\n' else c))
        case (Insertion, Str(s)) => Inserted(st, true, AtCur(e.cur), Str(H.Normalised(s)))
        case (Deletion, _) => DotDeleted(st, true, DeletionDot(e))) == H.State(H.Replayed(st.text, e), st.log)
    ensures match (e.kind, e.txt)
      case (Insertion, Ch(_)) => e.cur < |H.Replayed(st.text, e)|
      case (Insertion, Str(s)) => e.cur + |H.Normalised(s)| <= |H.Replayed(st.text, e)|
      case (Deletion, _) => DeletionDot(e).First() <= |H.Replayed(st.text, e)|
  {
    hide H.Normalised;
    if e.kind.Insertion? {
      assert st.text[..e.cur] + [] + st.text[e.cur..] == st.text;
    } else {
      DeletedReplays(st, e);
    }
  }

  lemma DeletedReplays(st: H.State, e: Edit)
    requires e.kind.Deletion? && e.cur <= |st.text|
    ensures DotDeleted(st, true, DeletionDot(e)) == H.State(H.Replayed(st.text, e), st.log)
  {
    var d := DeletionDot(e);
    if d.AtRange? {
      RangeDeletionIs(st, true, d.r);
    } else {
      CurDeletionIs(st, d.c);
    }
    hide Changed, CurDeleted, RangeDeletion, H.RangeDeleted, H.CharDeleted;
  }

  lemma CharLength(txt: Txt)
    ensures txt.Ch? ==> |H.Normalised(txt.Chars())| == 1
  {
    if txt.Ch? {
      H.NormalisedOne(txt.c);
    }
  }

  lemma CurDeletionIs(st: H.State, c: nat)
    ensures CurDeleted(st, true, c) == H.State(H.CharDeleted(st.text, c), st.log)
  {
  }

  lemma DeletedLength(st: H.State, paused: bool, d: Dot)
    requires d.Within(|st.text|)
    ensures d.First() <= |DotDeleted(st, paused, d).text|
  {
  }

  lemma InsertedLength(st: H.State, paused: bool, d: Dot, txt: Txt)
    requires d.Within(|st.text|)
    ensures d.First() + |txt.Chars()| <= |Inserted(st, paused, d, txt).text|
  {
  }

  // ---------------------------------------------------------------- the log stays faithful

  /** The last edit of the log is a deletion at `c`. */
  predicate DeletedAt(l: Log, c: nat) {
    && l.edits != [] && Last(l.edits) != []
    && Last(Last(l.edits)).kind.Deletion? && Last(Last(l.edits)).cur == c
  }

  /** The transaction that an edit is added to. */
  function Running(l: Log): Transaction { if l.edits == [] then [] else Last(l.edits) }

  function Earlier(l: Log): seq<Transaction> { if l.edits == [] then [] else Front(l.edits) }

  /** A range at the end of the text is deleted, which deletes nothing, and that is not combined with the last edit. */
  predicate LogsNothing(st: H.State, d: Dot) {
    d.AtRange? && d.r.start == |st.text| && !DeletedAt(st.log, |st.text|)
  }

  lemma {:induction false} LeadsFits(b: seq<char>, es: seq<Edit>, t: seq<char>, k: nat)
    requires Leads(b, es, t) && k < |es|
    ensures es[k].txt.Chars() != []
    decreases |es|
  {
    if k > 0 {
      LeadsFits(Spliced(b, es[0]), es[1..], t, k - 1);
    }
  }

  /** A log with an edit that changes nothing is not faithful. */
  lemma EmptyEditLogged(base: seq<char>, st: H.State, ts: seq<Transaction>, t: Transaction, k: nat)
    requires st.log.edits == ts + [t] && k < |t| && t[k].txt.Chars() == []
    ensures !H.Faithful(base, st)
  {
    hide Leads, H.AllEdits, H.Pending;
    H.Grown(ts, t);
    assert (H.AllEdits(ts) + t)[|H.AllEdits(ts)| + k] == t[k];
    if end :| H.FaithfulTo(base, st, end) {
      LeadsFits(base, H.AllEdits(st.log.edits), st.text, |H.AllEdits(ts)| + k);
    }
  }

  /** The deletion that is recorded at the end of the text. */
  function EmptyDeletion(t: seq<char>): Edit { Edit(Deletion, |t|, Str([])) }

  /** An empty deletion is either combined with a deletion at the same place or logged as it is. */
  lemma NothingPushed(l: Log, t: seq<char>)
    ensures var last := Running(l);
      Pushed(l, EmptyDeletion(t)) == Log(Earlier(l) + [
        if DeletedAt(l, |t|) then Front(last) + [Last(last).(txt := Str(Last(last).txt.Chars()))]
        else last + [EmptyDeletion(t)]], [])
  {
    if l.edits != [] && Last(l.edits) != [] {
      var a := Last(Last(l.edits));
      assert a.txt.Chars() + [] == a.txt.Chars() == [] + a.txt.Chars();
      GuardedLen(Str([]));
    } else {
      assert [] + [EmptyDeletion(t)] == [EmptyDeletion(t)] && [] + [[EmptyDeletion(t)]] == [[EmptyDeletion(t)]];
    }
  }

  /** Writing the one character of an edit as a string changes nothing. */
  lemma {:induction false} LeadsRewritten(b: seq<char>, x: seq<Edit>, a: Edit, t: seq<char>)
    requires Leads(b, x + [a], t)
    ensures Leads(b, x + [a.(txt := Str(a.txt.Chars()))], t)
  {
    var a' := a.(txt := Str(a.txt.Chars()));
    var m := LeadsSplit(b, x, [a], t);
    LeadsConcat(b, x, m, [a'], t);
    assert [a][1..] == [] && [a'][1..] == [];
  }

  lemma {:induction false} LastRewritten(base: seq<char>, ts: seq<Transaction>, front: Transaction, a: Edit,
      t: seq<char>)
    requires Leads(base, H.AllEdits(ts + [front + [a]]), t)
    ensures Leads(base, H.AllEdits(ts + [front + [a.(txt := Str(a.txt.Chars()))]]), t)
  {
    hide Leads, H.AllEdits;
    var a' := a.(txt := Str(a.txt.Chars()));
    H.Grown(ts, front + [a]);
    H.Grown(ts, front + [a']);
    assert H.AllEdits(ts) + (front + [a]) == H.AllEdits(ts) + front + [a];
    assert H.AllEdits(ts) + (front + [a']) == H.AllEdits(ts) + front + [a'];
    LeadsRewritten(base, H.AllEdits(ts) + front, a, t);
  }

  lemma NothingCombinedKeeps(base: seq<char>, st: H.State)
    requires H.Faithful(base, st) && DeletedAt(st.log, |st.text|)
    ensures H.Faithful(base, H.State(st.text, Pushed(st.log, EmptyDeletion(st.text))))
  {
    hide Leads, H.AllEdits, H.Pending, Pushed;
    var ts, t := Earlier(st.log), Running(st.log);
    NothingPushed(st.log, st.text);
    assert Front(t) + [Last(t)] == t && ts + [t] == st.log.edits;
    LastRewritten(base, ts, Front(t), Last(t), st.text);
    H.NoEdits();
    H.LeadsNothing(st.text);
    assert H.FaithfulTo(base, H.State(st.text, Pushed(st.log, EmptyDeletion(st.text))), st.text);
  }

  lemma NothingCut(st: H.State, d: Dot)
    requires d.AtRange? && d.r.start == |st.text| <= d.r.end
    ensures RangeDeletion(st.text, d.r.start, d.r.end) == EmptyDeletion(st.text)
    ensures Cut(st, false, d) == H.State(st.text, Pushed(st.log, EmptyDeletion(st.text)))
  {
  }

  /** After a selection is deleted the log is faithful exactly if it did not log an empty deletion. */
  lemma CutKeeps(base: seq<char>, st: H.State, d: Dot)
    requires H.Faithful(base, st) && '\r' !in st.text && d.First() <= |st.text| && d.First() <= d.LastCur()
    requires d.AtRange? ==> !H.MisjudgedByLog(st.log, RangeDeletion(st.text, d.r.start, d.r.end))
    ensures H.Faithful(base, Cut(st, false, d)) <==> !LogsNothing(st, d)
    ensures '\r' !in Cut(st, false, d).text
  {
    hide H.Faithful, H.MisjudgedByLog, Pushed, DeletedAt;
    if d.AtRange? && d.r.start == |st.text| {
      NothingCut(st, d);
      if DeletedAt(st.log, |st.text|) {
        NothingCombinedKeeps(base, st);
      } else {
        NothingPushed(st.log, st.text);
        var ts, t := Earlier(st.log), Running(st.log);
        EmptyEditLogged(base, Cut(st, false, d), ts, t + [EmptyDeletion(st.text)], |t|);
      }
    } else if d.AtRange? {
      var e := RangeDeletion(st.text, d.r.start, d.r.end);
      assert Fits(st.text, e);
      H.StepKeeps(base, st, H.Make(e));
    }
  }

  /** An insertion is not combined with an empty deletion, so that this stays in the log. */
  lemma NothingStays(base: seq<char>, st: H.State, e: Edit, u: seq<char>)
    requires !DeletedAt(st.log, |st.text|) && e.kind.Insertion?
    ensures !H.Faithful(base, H.State(u, Pushed(Pushed(st.log, EmptyDeletion(st.text)), e)))
  {
    var ts, t := Earlier(st.log), Running(st.log);
    NothingPushed(st.log, st.text);
    var both := t + [EmptyDeletion(st.text)] + [e];
    var l := Pushed(st.log, EmptyDeletion(st.text));
    hide Pushed;
    assert Front(l.edits) == ts && Last(l.edits) == t + [EmptyDeletion(st.text)];
    InsertionPushed(l, e);
    EmptyEditLogged(base, H.State(u, Pushed(l, e)), ts, both, |t|);
  }

  lemma InsertionPushed(l: Log, e: Edit)
    requires l.edits != [] && Last(l.edits) != [] && Last(Last(l.edits)).kind.Deletion? && e.kind.Insertion?
    ensures Pushed(l, e) == Log(Front(l.edits) + [Last(l.edits) + [e]], [])
  {
  }

  /** After an insertion at a cursor or a selection the log is faithful exactly if no empty deletion is logged. */
  lemma InsertionKeeps(base: seq<char>, st: H.State, d: Dot, txt: Txt)
    requires H.Faithful(base, st) && '\r' !in st.text && d.First() <= |st.text| && d.First() <= d.LastCur()
    requires d.AtRange? ==> !H.MisjudgedByLog(st.log, RangeDeletion(st.text, d.r.start, d.r.end))
    requires '\r' !in txt.Chars() && !H.MisjudgedByLog(Cut(st, false, d).log, Edit(Insertion, d.First(), txt))
    ensures H.Faithful(base, Inserted(st, false, d, txt)) <==> !LogsNothing(st, d)
    ensures '\r' !in Inserted(st, false, d, txt).text
  {
    CutKeeps(base, st, d);
    hide H.Faithful, H.MisjudgedByLog, Cut, Pushed, DeletedAt;
    var cut := Cut(st, false, d);
    if txt.Chars() != [] {
      var e := Edit(Insertion, d.First(), txt);
      assert Fits(cut.text, e);
      if LogsNothing(st, d) {
        NothingCut(st, d);
        NothingStays(base, st, e, Spliced(cut.text, e));
      } else {
        H.StepKeeps(base, cut, H.Make(e));
      }
    }
  }

  /** After a deletion of the selected range or of the character at a cursor the log is faithful exactly if
      no empty deletion is logged. */
  lemma DeletionKeeps(base: seq<char>, st: H.State, d: Dot)
    requires H.Faithful(base, st) && '\r' !in st.text && d.First() <= |st.text| && d.First() <= d.LastCur()
    requires d.AtRange? ==> !H.MisjudgedByLog(st.log, RangeDeletion(st.text, d.r.start, d.r.end))
    requires d.AtCur? && d.c < |st.text| ==> !H.MisjudgedByLog(st.log, Edit(Deletion, d.c, Ch(st.text[d.c])))
    ensures H.Faithful(base, DotDeleted(st, false, d)) <==> !LogsNothing(st, d)
    ensures '\r' !in DotDeleted(st, false, d).text
  {
    hide H.Faithful, H.MisjudgedByLog, DeletedAt;
    if d.AtRange? {
      CutKeeps(base, st, d);
    } else if d.c < |st.text| {
      var e := Edit(Deletion, d.c, Ch(st.text[d.c]));
      assert Fits(st.text, e);
      H.StepKeeps(base, st, H.Make(e));
    }
  }

  // ---------------------------------------------------------------- what an empty deletion in the log does

  lemma {:induction false} ReplayedBoth(t: seq<char>, es: seq<Edit>, fs: seq<Edit>)
    requires H.Replayable(t, es)
    ensures H.Replayable(t, es + fs) <==> H.Replayable(H.ReplayedAll(t, es), fs)
    ensures H.Replayable(t, es + fs) ==> H.ReplayedAll(t, es + fs) == H.ReplayedAll(H.ReplayedAll(t, es), fs)
    decreases |es|
  {
    if es == [] {
      assert es + fs == fs;
    } else {
      hide H.Replayed;
      assert (es + fs)[1..] == es[1..] + fs;
      ReplayedBoth(H.Replayed(t, es[0]), es[1..], fs);
    }
  }

  /** Undoing a transaction that an empty deletion and then the edits `es` were added to goes back to where it
      began; redoing it replays the empty deletion in front of `es`. */
  lemma {:induction false} NothingUndone(base: seq<char>, st: H.State, es: seq<Edit>, u: seq<char>)
    requires H.Faithful(base, st) && Leads(st.text, es, u)
    ensures var all := [EmptyDeletion(st.text)] + es;
      var now := H.State(u, Log(Earlier(st.log) + [Running(st.log) + all], []));
      && H.CanStep(now, H.Undo)
      && var before := H.Next(now, H.Undo);
      && (H.CanStep(before, H.Redo) <==> H.Replayable(st.text, all))
      && (H.CanStep(before, H.Redo) ==> H.Next(before, H.Redo).text == H.ReplayedAll(st.text, all))
  {
    hide Leads, H.AllEdits, H.Pending, H.Replayed, H.Replayable, H.ReplayedAll, Inverses;
    var n, ts, t := EmptyDeletion(st.text), Earlier(st.log), Running(st.log);
    var now, whole := H.State(u, Log(ts + [t + ([n] + es)], [])), t + ([n] + es);
    assert Front(ts + [whole]) == ts && Last(ts + [whole]) == whole && whole != [];
    assert Trimmed(ts + [whole]) == ts + [whole];
    var m := LastBegins(base, st);
    H.LeadsReplayed(m, t, st.text);
    UndoneNothing(m, t, st.text, es, u);
    ReplayedBoth(m, t, [n] + es);
  }

  lemma LastBegins(base: seq<char>, st: H.State) returns (m: seq<char>)
    requires H.Faithful(base, st)
    ensures Leads(m, Running(st.log), st.text)
  {
    hide Leads, H.AllEdits, H.Pending;
    if st.log.edits == [] {
      m := st.text;
      H.LeadsNothing(m);
    } else {
      var ts, t := Earlier(st.log), Running(st.log);
      assert ts + [t] == st.log.edits;
      H.Grown(ts, t);
      m := LeadsSplit(base, H.AllEdits(ts), t, st.text);
    }
  }

  lemma {:induction false} UndoneNothing(m: seq<char>, t: Transaction, text: seq<char>, es: seq<Edit>, u: seq<char>)
    requires Leads(m, t, text) && Leads(text, es, u)
    ensures var back := Inverses(t + ([EmptyDeletion(text)] + es));
      H.Replayable(u, back) && H.ReplayedAll(u, back) == m
  {
    hide Leads, H.Replayable, H.ReplayedAll, H.Replayed, Inverses;
    var n := EmptyDeletion(text);
    InversesConcat(t, [n] + es);
    InversesConcat([n], es);
    InversesTakeBack(text, es, u);
    H.LeadsReplayed(u, Inverses(es), text);
    InversesTakeBack(m, t, text);
    H.LeadsReplayed(text, Inverses(t), m);
    NothingReplayed(text, n);
    ReplayedBoth(u, Inverses(es), Inverses([n]));
    ReplayedBoth(u, Inverses(es) + Inverses([n]), Inverses(t));
  }

  lemma {:induction false} InversesConcat(x: seq<Edit>, y: seq<Edit>)
    ensures Inverses(x + y) == Inverses(y) + Inverses(x)
    decreases |x|
  {
    if x == [] {
      assert x + y == y;
    } else {
      assert (x + y)[1..] == x[1..] + y;
      InversesConcat(x[1..], y);
    }
  }

  lemma {:induction false} NothingReplayed(t: seq<char>, e: Edit)
    requires e == EmptyDeletion(t)
    ensures H.Replayable(t, Inverses([e])) && H.ReplayedAll(t, Inverses([e])) == t
    ensures H.Replayable(t, [e]) && H.ReplayedAll(t, [e]) == H.Replayed(t, e)
  {
    assert [e][1..] == [] && Inverses([e]) == [Inverse(e)];
    assert H.Replayed(t, Inverse(e)) == t;
  }

  /** What a faithful log undoes, it redoes. */
  lemma FaithfulRedoes(base: seq<char>, st: H.State)
    requires H.Faithful(base, st) && st.log.edits != [] && Last(st.log.edits) != []
    ensures H.CanStep(st, H.Undo) && H.CanStep(H.Next(st, H.Undo), H.Redo)
    ensures H.Next(H.Next(st, H.Undo), H.Redo).text == st.text
  {
    hide H.Faithful, H.CanStep, H.Next;
    H.Grown(Front(st.log.edits), Last(st.log.edits));
    assert Front(st.log.edits) + [Last(st.log.edits)] == st.log.edits;
    H.UndoThenRedo(base, st);
  }

  /** Undoing and redoing the deletion of a range at the end of the text, which deletes nothing, restores the
      text exactly if the log has combined it with a deletion there, or the text is empty. */
  lemma DeletionAtEnd(base: seq<char>, st: H.State, r: Range)
    requires H.Faithful(base, st) && r.start == |st.text| <= r.end
    ensures var now := Cut(st, false, AtRange(r));
      && H.CanStep(now, H.Undo) && H.CanStep(H.Next(now, H.Undo), H.Redo)
      && (H.Next(H.Next(now, H.Undo), H.Redo).text == now.text <==> DeletedAt(st.log, |st.text|) || st.text == [])
  {
    NothingCut(st, AtRange(r));
    NothingPushed(st.log, st.text);
    hide H.Faithful, H.CanStep, H.Next, H.Replayable, H.ReplayedAll, H.Replayed, Pushed, Cut;
    var now := H.State(st.text, Pushed(st.log, EmptyDeletion(st.text)));
    if DeletedAt(st.log, |st.text|) {
      NothingCombinedKeeps(base, st);
      FaithfulRedoes(base, now);
    } else {
      var n := EmptyDeletion(st.text);
      assert [n] + [] == [n];
      NothingUndone(base, st, [], st.text);
      NothingReplayed(st.text, n);
      H.ReplayedNothing(st.text, |st.text|);
    }
  }

  lemma {:induction false} NothingThenInsertion(t: seq<char>, e: Edit)
    requires e.kind.Insertion? && e.cur == |t| && Fits(t, e)
    ensures Leads(t, [e], Spliced(t, e))
    ensures H.Replayable(t, [EmptyDeletion(t)] + [e]) <==> t == []
    ensures t == [] ==> H.ReplayedAll(t, [EmptyDeletion(t)] + [e]) == Spliced(t, e)
  {
    var n, r := EmptyDeletion(t), H.Replayed(t, EmptyDeletion(t));
    assert t != [] ==> |r| < |t|;
    NothingReplayed(t, n);
    ReplayedBoth(t, [n], [e]);
    OneReplayed(r, e);
    H.ReplayedNothing(t, |t|);
    H.ReplayedFitting(t, e);
    LeadsOne(t, e, Spliced(t, e));
  }

  lemma {:induction false} OneReplayed(t: seq<char>, e: Edit)
    ensures H.Replayable(t, [e]) <==> e.cur <= |t|
    ensures e.cur <= |t| ==> H.ReplayedAll(t, [e]) == H.Replayed(t, e)
  {
    assert [e][1..] == [];
  }

  lemma ReplacedAtEnd(st: H.State, r: Range, txt: Txt)
    requires r.start == |st.text| <= r.end && txt.Chars() != []
    ensures var e, cut := Edit(Insertion, |st.text|, txt), H.State(st.text, Pushed(st.log, EmptyDeletion(st.text)));
      && Inserted(st, false, AtRange(r), txt) == H.State(Spliced(st.text, e), Pushed(cut.log, e))
      && cut.log.edits != [] && Last(cut.log.edits) != [] && Last(Last(cut.log.edits)).kind.Deletion?
      && Pushed(cut.log, e) == Log(Front(cut.log.edits) + [Last(cut.log.edits) + [e]], [])
  {
    NothingCut(st, AtRange(r));
    NothingPushed(st.log, st.text);
    InsertionPushed(Pushed(st.log, EmptyDeletion(st.text)), Edit(Insertion, |st.text|, txt));
  }

  /** Replacing such a range by a text logs the empty deletion and then the insertion. The two can be undone,
      but can be redone exactly in the same cases: else the deletion leaves a text that ends in front of
      where the insertion goes. */
  lemma ReplacementAtEnd(base: seq<char>, st: H.State, r: Range, txt: Txt)
    requires H.Faithful(base, st) && r.start == |st.text| <= r.end && txt.Chars() != [] && '\r' !in txt.Chars()
    ensures var now := Inserted(st, false, AtRange(r), txt);
      && H.CanStep(now, H.Undo)
      && var before := H.Next(now, H.Undo);
      && (H.CanStep(before, H.Redo) <==> DeletedAt(st.log, |st.text|) || st.text == [])
      && (H.CanStep(before, H.Redo) ==> H.Next(before, H.Redo).text == now.text)
  {
    hide H.Faithful, H.Next, H.Replayable, H.ReplayedAll, H.Replayed, Pushed, Cut, Inserted, Spliced, H.CanStep;
    ReplacedAtEnd(st, r, txt);
    var e, n := Edit(Insertion, |st.text|, txt), EmptyDeletion(st.text);
    var cut := H.State(st.text, Pushed(st.log, n));
    var now := H.State(Spliced(st.text, e), Pushed(cut.log, e));
    assert Fits(st.text, e);
    if DeletedAt(st.log, |st.text|) {
      NothingCombinedKeeps(base, st);
      InsertionMade(base, cut, e);
      FaithfulRedoes(base, now);
    } else {
      NothingPushed(st.log, st.text);
      var t := Running(st.log);
      assert t + [n] + [e] == t + ([n] + [e]);
      NothingThenInsertion(st.text, e);
      NothingUndone(base, st, [e], now.text);
    }
  }

  lemma InsertionMade(base: seq<char>, st: H.State, e: Edit)
    requires H.Faithful(base, st) && Fits(st.text, e) && !H.MisjudgedByLog(st.log, e)
    ensures H.Faithful(base, H.State(Spliced(st.text, e), Pushed(st.log, e)))
  {
    hide H.Faithful, H.MisjudgedByLog, Pushed;
    H.StepKeeps(base, st, H.Make(e));
  }

  // ---------------------------------------------------------------- runs of the buffer's operations

  datatype Operation =
    OpChar(d: Dot, c: char) | OpString(d: Dot, s: seq<char>) | OpDelete(d: Dot) | OpTransaction | OpUndo | OpRedo

  /** The dot lies in the text, and what an undo or a redo replays can be replayed. */
  predicate Possible(st: H.State, op: Operation) {
    match op
    case OpChar(d, _) => d.Within(|st.text|)
    case OpString(d, _) => d.Within(|st.text|)
    case OpDelete(d) => d.Within(|st.text|)
    case OpTransaction => true
    case OpUndo => H.CanStep(st, H.Undo)
    case OpRedo => H.CanStep(st, H.Redo)
  }

  function CharTyped(c: char): Txt { Ch(if c == '\r' then '\n' else c) }

  /** A character is normalised as a string of it is. */
  lemma CharTypedNormalised(c: char)
    ensures CharTyped(c).Chars() == H.Normalised([c])
  {
    H.NormalisedOne(c);
  }

  function Operated(st: H.State, op: Operation): H.State
    requires Possible(st, op)
  {
    match op
    case OpChar(d, c) => Inserted(st, false, d, CharTyped(c))
    case OpString(d, s) => Inserted(st, false, d, Str(H.Normalised(s)))
    case OpDelete(d) => DotDeleted(st, false, d)
    case OpTransaction => H.Next(st, H.Begin)
    case OpUndo => H.Next(st, H.Undo)
    case OpRedo => H.Next(st, H.Redo)
  }

  /** No edit that is recorded is misjudged. */
  predicate WellJudged(st: H.State, op: Operation)
    requires Possible(st, op)
  {
    match op
    case OpChar(d, c) =>
      CutJudged(st, d) && !H.MisjudgedByLog(Cut(st, false, d).log, Edit(Insertion, d.First(), CharTyped(c)))
    case OpString(d, s) =>
      CutJudged(st, d) && !H.MisjudgedByLog(Cut(st, false, d).log, Edit(Insertion, d.First(), Str(H.Normalised(s))))
    case OpDelete(d) =>
      && CutJudged(st, d)
      && (d.AtCur? && d.c < |st.text| ==> !H.MisjudgedByLog(st.log, Edit(Deletion, d.c, Ch(st.text[d.c]))))
    case _ => true
  }

  predicate CutJudged(st: H.State, d: Dot)
    requires d.Within(|st.text|)
  {
    d.AtRange? ==> !H.MisjudgedByLog(st.log, RangeDeletion(st.text, d.r.start, d.r.end))
  }

  /** The operation makes no edit that deletes nothing. */
  predicate LogsSomething(st: H.State, op: Operation) {
    op.OpChar? || op.OpString? || op.OpDelete? ==> !LogsNothing(st, op.d)
  }

  lemma {:induction false} LeadsPlain(b: seq<char>, es: seq<Edit>, t: seq<char>)
    requires Leads(b, es, t) && '\r' !in b
    ensures '\r' !in t
    decreases |es|
  {
    if es != [] {
      LeadsPlain(Spliced(b, es[0]), es[1..], t);
    }
  }

  /** A text whose log replays from one without carriage returns has none. */
  lemma FaithfulPlain(base: seq<char>, st: H.State)
    requires H.Faithful(base, st) && '\r' !in base
    ensures '\r' !in st.text
  {
    hide Leads, H.AllEdits, H.Pending;
    var end :| H.FaithfulTo(base, st, end);
    LeadsPlain(base, H.AllEdits(st.log.edits), st.text);
  }

  /** With edits that are not misjudged an operation keeps the log faithful exactly if it logs no empty deletion;
      undo and redo are always possible. */
  lemma OperationKeeps(base: seq<char>, st: H.State, op: Operation)
    requires H.Faithful(base, st) && '\r' !in base
    ensures (op.OpUndo? || op.OpRedo? || op.OpTransaction?) ==> Possible(st, op)
    ensures Possible(st, op) && WellJudged(st, op) ==>
      (H.Faithful(base, Operated(st, op)) <==> LogsSomething(st, op))
  {
    hide H.Faithful, H.MisjudgedByLog, H.CanStep, H.Next, Cut, Inserted, DotDeleted, LogsNothing, RangeDeletion,
      H.Normalised;
    FaithfulPlain(base, st);
    H.StepKeeps(base, st, H.Begin);
    H.StepKeeps(base, st, H.Undo);
    H.StepKeeps(base, st, H.Redo);
    if Possible(st, op) && WellJudged(st, op) {
      match op
      case OpChar(d, c) => InsertionKeeps(base, st, d, CharTyped(c));
      case OpString(d, s) => InsertionKeeps(base, st, d, Str(H.Normalised(s)));
      case OpDelete(d) => DeletionKeeps(base, st, d);
      case _ =>
    }
  }

  /** The states that a run of operations goes through, with no edit misjudged and no empty deletion logged. */
  predicate OperatesTo(st: H.State, ops: seq<Operation>, end: H.State)
    decreases |ops|
  {
    if ops == [] then st == end
    else
      && Possible(st, ops[0]) && WellJudged(st, ops[0]) && LogsSomething(st, ops[0])
      && OperatesTo(Operated(st, ops[0]), ops[1..], end)
  }

  lemma {:induction false} OperationsKeep(base: seq<char>, st: H.State, ops: seq<Operation>, end: H.State)
    requires H.Faithful(base, st) && '\r' !in base && OperatesTo(st, ops, end)
    ensures H.Faithful(base, end)
    decreases |ops|
  {
    hide H.Faithful, Possible, Operated, WellJudged, LogsSomething;
    if ops != [] {
      OperationKeeps(base, st, ops[0]);
      OperationsKeep(base, Operated(st, ops[0]), ops[1..], end);
    }
  }

  /** Over every run of the buffer's operations from a text without carriage returns, in which no edit is
      misjudged and no empty deletion is logged: the log replays from the first text to the current one, undo and
      redo are possible, and undoing and redoing as many transactions as there are restores the text. */
  lemma {:induction false} OperationsReplay(base: seq<char>, ops: seq<Operation>, end: H.State, n: nat)
    requires '\r' !in base && OperatesTo(H.State(base, Log([], [])), ops, end)
    ensures H.Replayable(base, H.AllEdits(end.log.edits)) && H.ReplayedAll(base, H.AllEdits(end.log.edits)) == end.text
    ensures H.CanStep(end, H.Undo) && H.CanStep(end, H.Redo)
    ensures n <= |H.Compact(end.log.edits)| ==> H.Repeated(H.Repeated(end, H.Undo, n), H.Redo, n).text == end.text
  {
    hide Leads, OperatesTo, H.Replayable, H.ReplayedAll, H.CanStep, H.Repeated, H.Compact, H.AllEdits, H.Pending;
    var st := H.State(base, Log([], []));
    H.NoEdits();
    H.LeadsNothing(base);
    assert H.FaithfulTo(base, st, base);
    OperationsKeep(base, st, ops, end);
    H.StepKeeps(base, end, H.Undo);
    H.StepKeeps(base, end, H.Redo);
    if n <= |H.Compact(end.log.edits)| {
      H.UndosThenRedosRestore(base, end, n);
    }
    var e :| H.FaithfulTo(base, end, e);
    H.LeadsReplayed(base, H.AllEdits(end.log.edits), end.text);
  }

  // ---------------------------------------------------------------- insertions at xdot

  /** Where an insertion of `n` characters at `x` puts the dot `d`, before it is clamped. */
  function DotAfterXdot(d: Dot, x: Dot, n: nat): Dot {
    if Intersects(d.AsRange(), x.AsRange()) then
      AtCur(x.First()).WithOffset(if x.First() > d.First() && x.LastCur() >= d.LastCur() then -1 else n)
    else if x.First() > d.LastCur() then d
    else d.WithOffset(n - x.NChars() + if x.AtCur? then 1 else 0)
  }

  /** The text after `x` is replaced, or `ins` is inserted at `x` if that is a cursor. */
  function XdotText(t: seq<char>, x: Dot, ins: seq<char>): seq<char>
    requires x.Within(|t|)
  {
    t[..x.First()] + ins + t[if x.AtCur? then x.c else Min(x.r.end + 1, |t|)..]
  }

  lemma XdotTextIs(st: H.State, paused: bool, x: Dot, ins: seq<char>)
    requires x.Within(|st.text|)
    ensures Inserted(st, paused, x, Str(ins)).text == XdotText(st.text, x, ins)
  {
    var f := x.First();
    var cut := Cut(st, paused, x).text;
    var g := if x.AtCur? then x.c else Min(x.r.end + 1, |st.text|);
    Joined(st.text[..f], ins, st.text[g..]);
    assert cut == st.text[..f] + st.text[g..];
  }

  lemma Joined(p: seq<char>, ins: seq<char>, q: seq<char>)
    ensures (p + q)[..|p|] == p && (p + q)[|p|..] == q && (ins == [] ==> p + ins + q == p + q)
  {
  }

  /** An insertion at an xdot that does not meet dot leaves the text that dot selects as it is, when
      normalising its line endings does not shorten it. */
  lemma XdotKeepsContent(t: seq<char>, d: Dot, x: Dot, s: seq<char>)
    requires d.Within(|t|) && x.Within(|t|) && !Intersects(d.AsRange(), x.AsRange())
    requires x.First() > d.LastCur() || |H.Normalised(s)| == |s|
    ensures var u := XdotText(t, x, H.Normalised(s));
      var e := DotAfterXdot(d, x, |s|).ClampIdx(|u|);
      e.Within(|u|) && Content(u, e) == Content(t, d)
  {
    hide H.Normalised;
    var ins := H.Normalised(s);
    var u := XdotText(t, x, ins);
    if x.First() > d.LastCur() {
      InFrontOfXdot(t, d, x, ins);
    } else {
      BehindXdot(t, d, x, ins);
    }
  }

  lemma InFrontOfXdot(t: seq<char>, d: Dot, x: Dot, ins: seq<char>)
    requires d.Within(|t|) && x.Within(|t|) && x.First() > d.LastCur()
    ensures var u := XdotText(t, x, ins);
      d.ClampIdx(|u|) == d && d.Within(|u|) && Content(u, d) == Content(t, d)
  {
    var u, m := XdotText(t, x, ins), x.First();
    assert u[..m] == t[..m];
    PrefixSlice(u, t, m, d.First(), d.LastCur() + 1);
  }

  lemma PrefixSlice(u: seq<char>, t: seq<char>, m: nat, i: nat, j: nat)
    requires i <= j <= m <= |t| && m <= |u| && u[..m] == t[..m]
    ensures u[i..j] == t[i..j]
  {
    assert u[i..j] == u[..m][i..j] && t[i..j] == t[..m][i..j];
  }

  /** A dot behind xdot moves by as much as the text gets longer. */
  lemma BehindXdot(t: seq<char>, d: Dot, x: Dot, ins: seq<char>)
    requires d.Within(|t|) && x.Within(|t|) && x.LastCur() < d.First()
    ensures var u, e := XdotText(t, x, ins), DotAfterXdot(d, x, |ins|);
      && e.First() == d.First() + |u| - |t| && e.LastCur() == d.LastCur() + |u| - |t|
      && e.ClampIdx(|u|) == e && e.Within(|u|) && Content(u, e) == Content(t, d)
  {
    BehindXdotPosition(t, d, x, ins);
    hide DotAfterXdot;
    var u, e := XdotText(t, x, ins), DotAfterXdot(d, x, |ins|);
    var g, f := if x.AtCur? then x.c else x.r.end + 1, x.First() + |ins|;
    assert u[f..] == t[g..];
    hide XdotText;
    assert u[e.First()..] == u[f..][d.First() - g..] == t[g..][d.First() - g..] == t[d.First()..];
    ContentShifted(t, d, u, e);
  }

  lemma BehindXdotPosition(t: seq<char>, d: Dot, x: Dot, ins: seq<char>)
    requires d.Within(|t|) && x.Within(|t|) && x.LastCur() < d.First()
    ensures var u, e := XdotText(t, x, ins), DotAfterXdot(d, x, |ins|);
      && e.First() == d.First() + |u| - |t| && e.LastCur() == d.LastCur() + |u| - |t|
      && e.ClampIdx(|u|) == e && e.Within(|u|)
  {
  }

  lemma SliceOfRest(t: seq<char>, i: nat, j: nat)
    requires i <= j <= |t|
    ensures t[i..j] == t[i..][..j - i]
  {
  }

  lemma ContentShifted(t: seq<char>, d: Dot, u: seq<char>, e: Dot)
    requires d.Within(|t|) && e.Within(|u|)
    requires e.First() - d.First() == e.LastCur() - d.LastCur() == |u| - |t| && u[e.First()..] == t[d.First()..]
    ensures Content(u, e) == Content(t, d)
  {
    var i, j := d.First(), Min(d.LastCur() + 1, |t|);
    var k, l := e.First(), Min(e.LastCur() + 1, |u|);
    assert l - k == j - i;
    SliceOfRest(u, k, l);
    SliceOfRest(t, i, j);
  }

  /** Behind xdot, dot moves by as much as the text gets longer exactly when the inserted string has no
      "\r\n" in it: the offset counts the characters before the line endings are normalised. */
  lemma XdotMovesRightly(t: seq<char>, d: Dot, x: Dot, s: seq<char>)
    requires d.Within(|t|) && x.Within(|t|) && x.LastCur() < d.First()
    ensures var u := XdotText(t, x, H.Normalised(s));
      DotAfterXdot(d, x, |s|).First() == d.First() + |u| - |t|
      <==> !exists i :: 0 < i < |s| && s[i - 1] == '\r' && s[i] == '\n'
  {
    hide H.Normalised;
    H.NormalisedLength(s);
    BehindXdot(t, d, x, H.Normalised(s));
  }

  /** A dot that xdot meets becomes a cursor: in front of the inserted string if xdot begins behind the first
      character of dot and reaches its end, and else behind the string. */
  lemma XdotMeetsDot(t: seq<char>, d: Dot, x: Dot, s: seq<char>)
    requires d.Within(|t|) && x.Within(|t|) && d.First() <= x.LastCur() && x.First() <= d.LastCur()
    requires |H.Normalised(s)| == |s|
    ensures var u, e := XdotText(t, x, H.Normalised(s)), DotAfterXdot(d, x, |s|);
      e.AtCur? && e.Within(|u|) && if d.First() < x.First() && d.LastCur() <= x.LastCur()
        then u[..e.c + 1] == t[..x.First()] else u[..e.c] == t[..x.First()] + H.Normalised(s)
  {
    hide H.Normalised;
    var ins, i := H.Normalised(s), x.First();
    var rest := t[if x.AtCur? then x.c else Min(x.r.end + 1, |t|)..];
    assert XdotText(t, x, ins) == t[..i] + ins + rest;
    assert (t[..i] + ins + rest)[..i] == t[..i] && (t[..i] + ins + rest)[..i + |ins|] == t[..i] + ins;
  }

  /** The first half of insert_xdot. */
  method FollowXdot(d: Dot, x: Dot, n: nat) returns (dot: Dot)
    requires d.First() <= d.LastCur()
    ensures dot == DotAfterXdot(d, x, n) && dot.First() <= dot.LastCur()
  {
    var offset: int := n;
    dot := d;
    if Intersects(d.AsRange(), x.AsRange()) {
      if x.First() > d.First() && x.LastCur() >= d.LastCur() {
        offset := -1;
      }
      dot := AtCur(x.First());
    } else if x.First() > d.LastCur() {
      offset := 0;
    } else {
      offset := offset - x.NChars();
      if x.AtCur? {
        offset := offset + 1;
      }
    }
    dot := dot.WithOffset(offset);
  }

  lemma CountOf(txt: GapBuffer)
    requires txt.Valid()
    ensures txt.nChars == |txt.Text()|
  {
  }

  /** The actions that edit at dot or at xdot. */
  datatype Action =
    Delete | InsertChar(c: char) | InsertString(s: seq<char>) | XInsertString(s: seq<char>) | UndoLast | RedoLast
  {
    function AtDot(dot: Dot, xdot: Dot): Operation {
      match this
      case Delete => OpDelete(dot)
      case InsertChar(c) => OpChar(dot, c)
      case InsertString(s) => OpString(dot, s)
      case XInsertString(s) => OpString(xdot, s)
      case UndoLast => OpUndo
      case RedoLast => OpRedo
    }
  }

  class Buffer {
    const txt: GapBuffer
    const editLog: EditLog
    var dot: Dot
    var xdot: Dot

    ghost predicate Valid()
      reads this, txt, txt.data
    {
      txt.Valid() && dot.Within(|txt.Text()|)
    }

    ghost function State(): H.State
      reads txt, editLog
    {
      H.State(txt.Text(), editLog.State())
    }

    constructor (content: seq<char>)
      ensures Valid() && fresh(txt) && fresh(txt.data) && fresh(editLog) && !editLog.paused
      ensures State() == H.State(H.Normalised(content), Log([], []))
      ensures dot == AtCur(0) && xdot == AtCur(0)
    {
      var t := new GapBuffer.From(H.Normalised(content));
      var l := new EditLog();
      txt, editLog, dot, xdot := t, l, AtCur(0), AtCur(0);
    }

    /** Takes the characters of `r` out of the text. */
    method TakeOut(r: Range) returns (s: seq<char>)
      requires txt.Valid() && r.start <= r.end && r.start <= |txt.Text()|
      modifies txt, txt.data
      ensures txt.Valid() && (txt.data == old(txt.data) || fresh(txt.data))
      ensures s == old(RangeText(txt.Text(), r.start, r.end))
      ensures txt.Text() == old(H.RangeDeleted(txt.Text(), r.start, r.end))
    {
      CountOf(txt);
      hide GapBuffer.Valid, GapBuffer.Text, Shows;
      ghost var t := txt.Text();
      var from, to := r.start, Min(r.end + 1, txt.nChars);
      assert RangeText(t, r.start, r.end) == t[from..to] && H.RangeDeleted(t, r.start, r.end) == t[..from] + t[to..];
      hide RangeText, H.RangeDeleted, Min;
      var slice := txt.SliceOf(from, to);
      s := ToString(slice, t[from..to]);
      txt.RemoveRange(from, to);
    }

    method DeleteRange(r: Range) returns (cur: nat, deleted: Option<seq<char>>)
      requires txt.Valid() && r.start <= r.end && r.start <= |txt.Text()|
      modifies txt, txt.data, editLog`edits, editLog`undone
      ensures txt.Valid() && (txt.data == old(txt.data) || fresh(txt.data))
      ensures State() == Changed(old(State()), editLog.paused, RangeDeletion(old(txt.Text()), r.start, r.end))
      ensures cur == r.start
      ensures deleted == if r.start == r.end then None else Some(RangeText(old(txt.Text()), r.start, r.end))
    {
      hide GapBuffer.Valid, GapBuffer.Text, Pushed, Changed, Spliced, RangeDeletion, RangeText, H.RangeDeleted;
      RangeDeletionIs(State(), editLog.paused, r);
      var s := TakeOut(r);
      editLog.Record(Edit(Deletion, r.start, Str(s)));
      cur, deleted := r.start, if r.start == r.end then None else Some(s);
    }

    method DeleteCur(cur: nat) returns (c: nat)
      requires txt.Valid() && cur <= |txt.Text()|
      modifies txt, txt.data, editLog`edits, editLog`undone
      ensures txt.Valid() && (txt.data == old(txt.data) || fresh(txt.data))
      ensures State() == CurDeleted(old(State()), editLog.paused, cur)
      ensures c == cur
    {
      CountOf(txt);
      hide GapBuffer.Valid, Pushed;
      if cur < txt.nChars {
        var ch := txt.CharAt(cur);
        txt.RemoveChar(cur);
        editLog.Record(Edit(Deletion, cur, Ch(ch)));
      }
      c := cur;
    }

    method DeleteDot(d: Dot) returns (cur: nat, deleted: Option<seq<char>>)
      requires txt.Valid() && d.First() <= |txt.Text()| && d.First() <= d.LastCur()
      modifies txt, txt.data, editLog`edits, editLog`undone
      ensures txt.Valid() && (txt.data == old(txt.data) || fresh(txt.data))
      ensures State() == DotDeleted(old(State()), editLog.paused, d)
      ensures cur == d.First()
      ensures deleted == DeletedText(old(txt.Text()), d)
    {
      hide GapBuffer.Valid, Changed, CurDeleted, RangeDeletion;
      match d
      case AtCur(c) => cur := DeleteCur(c); deleted := None;
      case AtRange(r) => cur, deleted := DeleteRange(r);
    }

    method InsertChar(d: Dot, c: char) returns (cur: nat, deleted: Option<seq<char>>)
      requires txt.Valid() && d.First() <= |txt.Text()| && d.First() <= d.LastCur()
      modifies txt, txt.data, editLog`edits, editLog`undone
      ensures txt.Valid() && (txt.data == old(txt.data) || fresh(txt.data))
      ensures State() == Inserted(old(State()), editLog.paused, d, Ch(if c == '\r' then '\n' else c))
      ensures cur == d.First() + 1
      ensures deleted == if d.AtCur? then None else DeletedText(old(txt.Text()), d)
    {
      hide GapBuffer.Valid, Pushed, RangeDeletion;
      var ch := if c == '\r' then '\n' else c;
      var idx;
      match d {
        case AtCur(c) => idx, deleted := c, None;
        case AtRange(r) => idx, deleted := DeleteRange(r);
      }
      assert State() == Cut(old(State()), editLog.paused, d);
      txt.InsertChar(idx, ch);
      editLog.Record(Edit(Insertion, idx, Ch(ch)));
      cur := idx + 1;
    }

    method InsertString(d: Dot, str: seq<char>) returns (cur: nat, deleted: Option<seq<char>>)
      requires txt.Valid() && d.First() <= |txt.Text()| && d.First() <= d.LastCur()
      modifies txt, txt.data, editLog`edits, editLog`undone
      ensures txt.Valid() && (txt.data == old(txt.data) || fresh(txt.data))
      ensures State() == Inserted(old(State()), editLog.paused, d, Str(H.Normalised(str)))
      ensures cur == d.First() + |H.Normalised(str)|
      ensures deleted == if d.AtCur? then None else DeletedText(old(txt.Text()), d)
    {
      hide GapBuffer.Valid, Pushed, RangeDeletion, H.Normalised;
      var s := H.Normalised(str);
      var len := |s|;
      var idx;
      match d {
        case AtCur(c) => idx, deleted := c, None;
        case AtRange(r) => idx, deleted := DeleteRange(r);
      }
      assert State() == Cut(old(State()), editLog.paused, d);
      cur := idx;
      if s != [] {
        txt.InsertStr(idx, s);
        editLog.Record(Edit(Insertion, idx, Str(s)));
        cur := cur + len;
      }
    }

    /** Replays an edit of the log. */
    method ApplyEdit(e: Edit)
      requires Valid() && editLog.paused && e.cur <= |txt.Text()|
      modifies this, txt, txt.data, editLog`edits, editLog`undone
      ensures xdot == old(xdot)
      ensures Valid() && (txt.data == old(txt.data) || fresh(txt.data))
      ensures txt.Text() == H.Replayed(old(txt.Text()), e)
      ensures editLog.State() == old(editLog.State())
      ensures e.kind.Insertion? ==> dot == AtCur(e.cur + |H.Normalised(e.txt.Chars())|)
      ensures e.kind.Deletion? && e.txt.Chars() != [] ==> dot == AtCur(e.cur)
      ensures e.kind.Deletion? && e.txt.Chars() == [] ==> dot == AtCur(SaturatingSub(e.cur, 1))
    {
      CharLength(e.txt);
      hide GapBuffer.Valid, H.Normalised;
      EditReplays(State(), e);
      hide Inserted, DotDeleted, H.Replayed, GapBuffer.Text, DeletedText;
      var newCur, deleted;
      if e.kind.Insertion? {
        match e.txt {
          case Ch(c) => newCur, deleted := InsertChar(AtCur(e.cur), c);
          case Str(s) => newCur, deleted := InsertString(AtCur(e.cur), s);
        }
      } else {
        newCur, deleted := DeleteDot(DeletionDot(e));
      }
      dot := AtCur(newCur);
    }

    method ApplyAll(es: seq<Edit>)
      requires Valid() && editLog.paused && H.Replayable(txt.Text(), es)
      modifies this, txt, txt.data, editLog`edits, editLog`undone
      ensures xdot == old(xdot)
      ensures Valid() && (txt.data == old(txt.data) || fresh(txt.data))
      ensures txt.Text() == H.ReplayedAll(old(txt.Text()), es)
      ensures editLog.State() == old(editLog.State())
      ensures dot == if es == [] then old(dot) else AtCur(H.CurAfter(Last(es)))
    {
      hide GapBuffer.Valid, H.Replayed, H.Normalised;
      for k := 0 to |es|
        invariant Valid() && (txt.data == old(txt.data) || fresh(txt.data))
        invariant H.Replayable(txt.Text(), es[k..]) &&
          H.ReplayedAll(txt.Text(), es[k..]) == H.ReplayedAll(old(txt.Text()), es)
        invariant editLog.State() == old(editLog.State()) && xdot == old(xdot)
        invariant dot == if k == 0 then old(dot) else AtCur(H.CurAfter(es[k - 1]))
      {
        assert es[k..][1..] == es[k + 1..];
        ApplyEdit(es[k]);
      }
    }

    method NewTransaction()
      requires Valid()
      modifies editLog`edits
      ensures Valid() && State() == H.Next(old(State()), H.Begin)
    {
      hide GapBuffer.Valid, Begun;
      editLog.NewTransaction();
    }

    method Undo() returns (done: bool)
      requires Valid() && !editLog.paused && H.CanStep(State(), H.Undo)
      modifies this, txt, txt.data, editLog
      ensures xdot == old(xdot)
      ensures Valid() && (txt.data == old(txt.data) || fresh(txt.data)) && !editLog.paused
      ensures State() == H.Next(old(State()), H.Undo)
      ensures done <==> Undone(old(State()).log).1.Some?
      ensures dot == if done then AtCur(H.CurAfter(Last(Undone(old(State()).log).1.value))) else old(dot)
    {
      hide GapBuffer.Valid, H.Replayable, H.ReplayedAll, Undone, H.CurAfter;
      var edits := editLog.Undo();
      match edits
      case None => done := false;
      case Some(es) =>
        editLog.paused := true;
        ApplyAll(es);
        editLog.paused := false;
        done := true;
    }

    method Redo() returns (done: bool)
      requires Valid() && !editLog.paused && H.CanStep(State(), H.Redo)
      modifies this, txt, txt.data, editLog
      ensures xdot == old(xdot)
      ensures Valid() && (txt.data == old(txt.data) || fresh(txt.data)) && !editLog.paused
      ensures State() == H.Next(old(State()), H.Redo)
      ensures done <==> Redone(old(State()).log).1.Some?
      ensures dot == if done then AtCur(H.CurAfter(Last(Redone(old(State()).log).1.value))) else old(dot)
    {
      hide GapBuffer.Valid, H.Replayable, H.ReplayedAll, Redone, H.CurAfter;
      var edits := editLog.Redo();
      match edits
      case None => done := false;
      case Some(es) =>
        editLog.paused := true;
        ApplyAll(es);
        editLog.paused := false;
        done := true;
    }

    method HandleDelete()
      requires Valid()
      modifies this, txt, txt.data, editLog`edits, editLog`undone
      ensures Valid() && (txt.data == old(txt.data) || fresh(txt.data))
      ensures State() == DotDeleted(old(State()), editLog.paused, old(dot))
      ensures dot == AtCur(old(dot).First()) && xdot == old(xdot).ClampIdx(|txt.Text()|)
    {
      hide GapBuffer.Valid, GapBuffer.Text, Dot.ClampIdx, DotDeleted, DeletedText, EditLog.State;
      DeletedLength(State(), editLog.paused, dot);
      var c, deleted := DeleteDot(dot);
      assert txt.nChars == |txt.Text()| by {
        CountOf(txt);
      }
      AtCur(c).ClampedWithin(txt.nChars);
      dot := AtCur(c).ClampIdx(txt.nChars);
      xdot := xdot.ClampIdx(txt.nChars);
    }

    method HandleInsertChar(ch: char)
      requires Valid()
      modifies this, txt, txt.data, editLog`edits, editLog`undone
      ensures Valid() && (txt.data == old(txt.data) || fresh(txt.data))
      ensures State() == Inserted(old(State()), editLog.paused, old(dot), CharTyped(ch))
      ensures dot == AtCur(old(dot).First() + 1) && xdot == old(xdot).ClampIdx(|txt.Text()|)
    {
      hide GapBuffer.Valid, GapBuffer.Text, Dot.ClampIdx, Inserted, DeletedText, EditLog.State;
      InsertedLength(State(), editLog.paused, dot, CharTyped(ch));
      var c, deleted := InsertChar(dot, ch);
      assert txt.nChars == |txt.Text()| by {
        CountOf(txt);
      }
      AtCur(c).ClampedWithin(txt.nChars);
      dot := AtCur(c).ClampIdx(txt.nChars);
      xdot := xdot.ClampIdx(txt.nChars);
    }

    /** The insertion of a string at dot. */
    method HandleInsertString(s: seq<char>)
      requires Valid()
      modifies this, txt, txt.data, editLog`edits, editLog`undone
      ensures Valid() && (txt.data == old(txt.data) || fresh(txt.data))
      ensures State() == Inserted(old(State()), editLog.paused, old(dot), Str(H.Normalised(s)))
      ensures dot == AtCur(old(dot).First() + |H.Normalised(s)|)
      ensures xdot == old(xdot).ClampIdx(|txt.Text()|)
    {
      hide GapBuffer.Valid, GapBuffer.Text, H.Normalised, Dot.ClampIdx, Inserted, DeletedText, EditLog.State;
      InsertedLength(State(), editLog.paused, dot, Str(H.Normalised(s)));
      var c, deleted := InsertString(dot, s);
      assert txt.nChars == |txt.Text()| by {
        CountOf(txt);
      }
      AtCur(c).ClampedWithin(txt.nChars);
      dot := AtCur(c).ClampIdx(txt.nChars);
      xdot := xdot.ClampIdx(txt.nChars);
    }

    /** Inserts a string at xdot and keeps dot where it can. */
    method InsertXdot(s: seq<char>)
      requires Valid() && xdot.Within(|txt.Text()|)
      modifies this, txt, txt.data, editLog`edits, editLog`undone
      ensures Valid() && (txt.data == old(txt.data) || fresh(txt.data))
      ensures State() == Inserted(old(State()), editLog.paused, old(xdot), Str(H.Normalised(s)))
      ensures xdot == AtCur(old(xdot).First() + |H.Normalised(s)|)
      ensures dot == DotAfterXdot(old(dot), old(xdot), |s|).ClampIdx(|txt.Text()|)
      ensures old(!Intersects(dot.AsRange(), xdot.AsRange()) &&
        (xdot.First() > dot.LastCur() || |H.Normalised(s)| == |s|))
        ==> Content(txt.Text(), dot) == old(Content(txt.Text(), dot))
    {
      hide GapBuffer.Valid, GapBuffer.Text, H.Normalised, Inserted, DotAfterXdot, Content, XdotText;
      ghost var t, d, x := txt.Text(), dot, xdot;
      XdotTextIs(State(), editLog.paused, x, H.Normalised(s));
      if !Intersects(d.AsRange(), x.AsRange()) && (x.First() > d.LastCur() || |H.Normalised(s)| == |s|) {
        XdotKeepsContent(t, d, x, s);
      }
      var dotAfterEdit := FollowXdot(dot, xdot, |s|);
      dot := xdot;
      HandleInsertString(s);
      assert txt.nChars == |txt.Text()| by {
        CountOf(txt);
      }
      dotAfterEdit.ClampedWithin(txt.nChars);
      hide Dot.ClampIdx;
      xdot, dot := dot, dotAfterEdit;
      dot := dot.ClampIdx(txt.nChars);
    }

    /** handle_action, for the actions that edit. */
    method HandleAction(a: Action)
      requires Valid() && !editLog.paused && Possible(State(), a.AtDot(dot, xdot))
      modifies this, txt, txt.data, editLog
      ensures Valid() && (txt.data == old(txt.data) || fresh(txt.data)) && !editLog.paused
      ensures State() == Operated(old(State()), a.AtDot(old(dot), old(xdot)))
      ensures match a
        case Delete => State() == DotDeleted(old(State()), false, old(dot))
        case InsertChar(c) => State() == Inserted(old(State()), false, old(dot), Ch(if c == '\r' then '\n' else c))
        case InsertString(s) => State() == Inserted(old(State()), false, old(dot), Str(H.Normalised(s)))
        case XInsertString(s) => State() == Inserted(old(State()), false, old(xdot), Str(H.Normalised(s)))
        case UndoLast => State() == H.Next(old(State()), H.Undo)
        case RedoLast => State() == H.Next(old(State()), H.Redo)
      ensures match a
        case Delete => dot == AtCur(old(dot).First())
        case InsertChar(_) => dot == AtCur(old(dot).First() + 1)
        case InsertString(s) => dot == AtCur(old(dot).First() + |H.Normalised(s)|)
        case XInsertString(s) =>
          dot == DotAfterXdot(old(dot), old(xdot), |s|).ClampIdx(|txt.Text()|) &&
          xdot == AtCur(old(xdot).First() + |H.Normalised(s)|)
        case UndoLast =>
          var undone := Undone(old(State()).log).1;
          dot == if undone.Some? then AtCur(H.CurAfter(Last(undone.value))) else old(dot)
        case RedoLast =>
          var redone := Redone(old(State()).log).1;
          dot == if redone.Some? then AtCur(H.CurAfter(Last(redone.value))) else old(dot)
      ensures !a.XInsertString? ==>
        xdot == if a.UndoLast? || a.RedoLast? then old(xdot) else old(xdot).ClampIdx(|txt.Text()|)
    {
      hide GapBuffer.Valid, GapBuffer.Text, H.Normalised, Inserted, DotDeleted, H.CanStep, H.Next, DeletedText;
      match a
      case Delete => HandleDelete();
      case InsertChar(c) => HandleInsertChar(c);
      case InsertString(s) => HandleInsertString(s);
      case XInsertString(s) => InsertXdot(s);
      case UndoLast => var done := Undo();
      case RedoLast => var done := Redo();
    }
  }
}
