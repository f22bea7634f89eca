/** Undo and redo as a state machine over a text and its log: replaying edits, runs of edits, undos and
    redos, and what a number of undos followed by as many redos comes to. */
module History {
  import opened Basics
  import opened EditLogs

  // ---------------------------------------------------------------- line endings

  function ReplaceCrLf(s: seq<char>): seq<char> {
    if s == [] then []
    else if |s| >= 2 && s[0] == '\r' && s[1] == '\n' then ['\n'] + ReplaceCrLf(s[2..])
    else [s[0]] + ReplaceCrLf(s[1..])
  }

  function CrToLf(s: seq<char>): (r: seq<char>)
    ensures |r| == |s| && forall i :: 0 <= i < |s| ==> r[i] == if s[i] == '\r' then '\n' else s[i]
  {
    seq(|s|, i requires 0 <= i < |s| => if s[i] == '\r' then '\n' else s[i])
  }

  /** What is inserted for a string: both "\r\n" and "\r" become "\n". */
  function Normalised(s: seq<char>): (r: seq<char>)
    ensures '\r' !in r
    ensures '\r' !in s ==> r == s
    ensures r == [] <==> s == []
  {
    if '\r' !in s then s else CrToLf(ReplaceCrLf(s))
  }

  /** Normalising keeps the number of characters exactly when there is no "\r\n" in the string. */
  lemma NormalisedLength(s: seq<char>)
    ensures |Normalised(s)| <= |s|
    ensures |Normalised(s)| == |s| <==> !exists i :: 0 < i < |s| && s[i - 1] == '\r' && s[i] == '\n'
  {
    ReplacedLength(s);
  }

  lemma {:induction false} ReplacedLength(s: seq<char>)
    ensures |ReplaceCrLf(s)| <= |s|
    ensures |ReplaceCrLf(s)| == |s| <==> !exists i :: 0 < i < |s| && s[i - 1] == '\r' && s[i] == '\n'
    decreases |s|
  {
    if s != [] {
      if |s| >= 2 && s[0] == '\r' && s[1] == '\n' {
        ReplacedLength(s[2..]);
      } else {
        var r := s[1..];
        ReplacedLength(r);
        if i :| 0 < i < |r| && r[i - 1] == '\r' && r[i] == '\n' {
          assert s[i + 1 - 1] == '\r' && s[i + 1] == '\n';
        }
        if i :| 0 < i < |s| && s[i - 1] == '\r' && s[i] == '\n' {
          assert r[i - 1 - 1] == '\r' && r[i - 1] == '\n';
        }
      }
    }
  }

  lemma {:induction false} ReplacedBehind(x: seq<char>, s: seq<char>)
    requires '\r' !in x
    ensures ReplaceCrLf(x + s) == x + ReplaceCrLf(s)
    decreases |x|
  {
    if x == [] {
      assert x + s == s;
    } else {
      assert (x + s)[0] == x[0] && (x + s)[1..] == x[1..] + s;
      ReplacedBehind(x[1..], s);
    }
  }

  /** Both ways of normalising come to the same. */
  lemma {:induction false} NormalisedIs(s: seq<char>)
    ensures Normalised(s) == CrToLf(ReplaceCrLf(s))
  {
    if '\r' !in s {
      ReplacedBehind(s, []);
      assert s + [] == s && ReplaceCrLf([]) == [];
    }
  }

  lemma CrToLfConcat(x: seq<char>, y: seq<char>)
    ensures CrToLf(x + y) == CrToLf(x) + CrToLf(y)
    ensures '\r' !in x ==> CrToLf(x) == x
  {
  }

  /** The first "\r\n" becomes a newline, and what is behind it is normalised in the same way. */
  lemma NormalisedCrLf(x: seq<char>, y: seq<char>)
    requires '\r' !in x
    ensures Normalised(x + "\r\n" + y) == x + "\n" + Normalised(y)
  {
    assert x + "\r\n" + y == x + ("\r\n" + y) && ("\r\n" + y)[2..] == y;
    ReplacedBehind(x, "\r\n" + y);
    NormalisedAfter(x, x + "\r\n" + y, y);
  }

  /** So does the first "\r" that no newline follows. */
  lemma NormalisedCr(x: seq<char>, y: seq<char>)
    requires '\r' !in x && (y != [] ==> y[0] != '\n')
    ensures Normalised(x + "\r" + y) == x + "\n" + Normalised(y)
  {
    assert x + "\r" + y == x + ("\r" + y) && ("\r" + y)[1..] == y;
    ReplacedBehind(x, "\r" + y);
    assert CrToLf("\r") == "\n";
    NormalisedAfter(x, x + "\r" + y, y);
  }

  lemma {:induction false} NormalisedAfter(x: seq<char>, s: seq<char>, y: seq<char>)
    requires '\r' !in x
    requires ReplaceCrLf(s) == x + ("\n" + ReplaceCrLf(y)) || ReplaceCrLf(s) == x + ("\r" + ReplaceCrLf(y))
    ensures Normalised(s) == x + "\n" + Normalised(y)
  {
    NormalisedIs(s);
    NormalisedIs(y);
    var c := if ReplaceCrLf(s) == x + ("\n" + ReplaceCrLf(y)) then "\n" else "\r";
    assert CrToLf(c) == "\n";
    hide ReplaceCrLf, Normalised;
    CrToLfConcat(x, c + ReplaceCrLf(y));
    CrToLfConcat(c, ReplaceCrLf(y));
  }

  lemma NormalisedOne(c: char)
    ensures Normalised([c]) == [if c == '\r' then '\n' else c]
  {
    if c == '\r' {
      NormalisedCr([], []);
      assert [] + "\r" + [] == [c] && [] + "\n" + Normalised([]) == ['\n'];
    }
  }

  // ---------------------------------------------------------------- replaying an edit

  /** The text after the characters from `from` to `to` inclusive, or to the end, are deleted. */
  function RangeDeleted(t: seq<char>, from: nat, to: nat): seq<char>
    requires from <= |t| && from <= to + 1
  {
    t[..from] + t[Min(to + 1, |t|)..]
  }

  function CharDeleted(t: seq<char>, i: nat): seq<char> {
    if i < |t| then t[..i] + t[i + 1..] else t
  }

  /** The text after an edit of the log is applied to it. A deleted string is taken as the range from its
      first to its last character, in order, or as a cursor if these are the same. */
  function Replayed(t: seq<char>, e: Edit): seq<char>
    requires e.cur <= |t|
  {
    match (e.kind, e.txt)
    case (Insertion, Ch(c)) => t[..e.cur] + [if c == '\r' then '\n' else c] + t[e.cur..]
    case (Insertion, Str(s)) => t[..e.cur] + Normalised(s) + t[e.cur..]
    case (Deletion, Ch(_)) => CharDeleted(t, e.cur)
    case (Deletion, Str(s)) =>
      var end := if e.cur + |s| == 0 then 0 else e.cur + |s| - 1;
      if end == e.cur then CharDeleted(t, e.cur)
      else if e.cur < end then RangeDeleted(t, e.cur, end)
      else RangeDeleted(t, end, e.cur)
  }

  /** Replaying an edit that fits makes exactly the change that the edit describes. */
  lemma ReplayedFitting(t: seq<char>, e: Edit)
    requires Fits(t, e)
    ensures Replayed(t, e) == Spliced(t, e)
  {
    if e.kind.Insertion? && e.txt.Ch? {
      assert e.txt.Chars()[0] != '\r';
    }
  }

  /** Replaying an empty deletion, which a deletion at the end of the text records, is not harmless: it
      leaves the text as it is exactly if that is empty. */
  lemma ReplayedNothing(t: seq<char>, cur: nat)
    requires cur <= |t|
    ensures Replayed(t, Edit(Deletion, cur, Str([]))) == t <==> t == []
  {
    var r := Replayed(t, Edit(Deletion, cur, Str([])));
    if t != [] {
      assert |r| < |t|;
    }
  }

  /** Where the cursor is after an edit is replayed: behind what it inserts, or where it deletes. */
  function CurAfter(e: Edit): nat {
    if e.kind.Insertion? then e.cur + |Normalised(e.txt.Chars())|
    else if e.txt.Chars() == [] then SaturatingSub(e.cur, 1)
    else e.cur
  }

  predicate Replayable(t: seq<char>, es: seq<Edit>)
    decreases |es|
  {
    es != [] ==> es[0].cur <= |t| && Replayable(Replayed(t, es[0]), es[1..])
  }

  function ReplayedAll(t: seq<char>, es: seq<Edit>): seq<char>
    requires Replayable(t, es)
    decreases |es|
  {
    if es == [] then t else ReplayedAll(Replayed(t, es[0]), es[1..])
  }

  lemma {:induction false} LeadsReplayed(b: seq<char>, es: seq<Edit>, t: seq<char>)
    requires Leads(b, es, t)
    ensures Replayable(b, es) && ReplayedAll(b, es) == t
    decreases |es|
  {
    if es != [] {
      ReplayedFitting(b, es[0]);
      hide Spliced, Replayed;
      LeadsReplayed(Spliced(b, es[0]), es[1..], t);
    }
  }

  // ---------------------------------------------------------------- all edits of a log

  /** The edits of all transactions, in the order in which they were made. */
  function AllEdits(ts: seq<Transaction>): seq<Edit> {
    if ts == [] then [] else AllEdits(Front(ts)) + Last(ts)
  }

  /** The edits of all undone transactions, in the order in which they are made again. */
  function Pending(ts: seq<Transaction>): seq<Edit> {
    if ts == [] then [] else Last(ts) + Pending(Front(ts))
  }

  /** The transactions that are not empty. */
  function Compact(ts: seq<Transaction>): seq<Transaction> {
    if ts == [] then [] else if Last(ts) == [] then Compact(Front(ts)) else Compact(Front(ts)) + [Last(ts)]
  }

  lemma {:induction false} TrimmedKeeps(ts: seq<Transaction>)
    ensures AllEdits(Trimmed(ts)) == AllEdits(ts) && Compact(Trimmed(ts)) == Compact(ts)
    ensures Trimmed(ts) == [] <==> Compact(ts) == []
    decreases |ts|
  {
    if ts != [] && Last(ts) == [] {
      TrimmedKeeps(Front(ts));
    }
  }

  lemma {:induction false} Grown(ts: seq<Transaction>, t: Transaction)
    ensures AllEdits(ts + [t]) == AllEdits(ts) + t
    ensures Pending(ts + [t]) == t + Pending(ts)
    ensures Compact(ts + [t]) == if t == [] then Compact(ts) else Compact(ts) + [t]
  {
    assert Front(ts + [t]) == ts;
  }

  // ---------------------------------------------------------------- the state machine

  /** A text with its log. */
  datatype State = State(text: seq<char>, log: Log)

  datatype Step = Make(e: Edit) | Begin | Undo | Redo

  function ReplayedOn(t: seq<char>, r: Option<Transaction>): seq<char>
    requires r.Some? ==> Replayable(t, r.value)
  {
    if r.Some? then ReplayedAll(t, r.value) else t
  }

  /** An edit fits the text and is not misjudged when it is combined with the last one; what an undo or a
      redo replays can be replayed. */
  predicate CanStep(st: State, step: Step) {
    match step
    case Make(e) => Fits(st.text, e) && !MisjudgedByLog(st.log, e)
    case Begin => true
    case Undo => Undone(st.log).1.Some? ==> Replayable(st.text, Undone(st.log).1.value)
    case Redo => Redone(st.log).1.Some? ==> Replayable(st.text, Redone(st.log).1.value)
  }

  /** The state after an edit that lies in the text. */
  function Made(st: State, e: Edit): State
    requires e.cur <= |st.text| && (e.kind.Deletion? ==> e.cur + |e.txt.Chars()| <= |st.text|)
  {
    State(Spliced(st.text, e), Pushed(st.log, e))
  }

  predicate MisjudgedByLog(l: Log, e: Edit) {
    l.edits != [] && Last(l.edits) != [] && Misjudged(Last(Last(l.edits)), e)
  }

  function Next(st: State, step: Step): State
    requires CanStep(st, step)
  {
    match step
    case Make(e) => Made(st, e)
    case Begin => State(st.text, Begun(st.log))
    case Undo => State(ReplayedOn(st.text, Undone(st.log).1), Undone(st.log).0)
    case Redo => State(ReplayedOn(st.text, Redone(st.log).1), Redone(st.log).0)
  }

  /** The log replays from the base text to the current one, and what was undone from there on. */
  ghost predicate FaithfulTo(base: seq<char>, st: State, end: seq<char>) {
    && Leads(base, AllEdits(st.log.edits), st.text)
    && Leads(st.text, Pending(st.log.undone), end)
    && NoneEmpty(st.log.undone)
  }

  ghost predicate Faithful(base: seq<char>, st: State) {
    exists end :: FaithfulTo(base, st, end)
  }

  lemma {:induction false} ExtendedKeeps(b: seq<char>, t: Transaction, text: seq<char>, e: Edit)
    requires Leads(b, t, text) && Fits(text, e)
    requires t != [] ==> !Misjudged(Last(t), e)
    ensures Leads(b, Extended(t, e), Spliced(text, e))
  {
    hide Leads, Spliced, Combined, Misjudged;
    var u := Spliced(text, e);
    LeadsOne(text, e, u);
    LeadsConcat(b, t, text, [e], u);
    if t == [] {
      assert t + [e] == [e];
    } else if Combined(Last(t), e).Some? {
      var front, last := Front(t), Last(t);
      assert t + [e] == front + [last, e];
      var m := LeadsSplit(b, front, [last, e], u);
      CombinedKeeps(m, last, e, u);
      LeadsConcat(b, front, m, [Combined(last, e).value], u);
    }
  }

  lemma {:induction false} CombinedKeeps(b: seq<char>, a: Edit, e: Edit, t: seq<char>)
    requires Combined(a, e).Some? && !Misjudged(a, e) && Leads(b, [a, e], t)
    ensures Leads(b, [Combined(a, e).value], t)
  {
    hide Leads, Combined, Misjudged;
    if a.kind.Insertion? { CombinedInsertions(b, a, e, t); } else { CombinedDeletions(b, a, e, t); }
  }

  lemma NoEdits()
    ensures AllEdits([]) == [] && Pending([]) == [] && Compact([]) == []
  {
  }

  lemma {:induction false} AllEditsLast(ts: seq<Transaction>)
    requires ts != []
    ensures AllEdits(ts) == AllEdits(Front(ts)) + Last(ts)
  {
  }

  lemma {:induction false} LeadsNothing(b: seq<char>)
    ensures Leads(b, [], b)
  {
  }

  lemma {:induction false} MakeKeeps(base: seq<char>, st: State, e: Edit)
    requires Leads(base, AllEdits(st.log.edits), st.text) && CanStep(st, Make(e))
    ensures FaithfulTo(base, Next(st, Make(e)), Next(st, Make(e)).text)
  {
    assert Extended([], e) == [e];
    hide Leads, Misjudged, Extended, AllEdits, Spliced;
    var ts, u := st.log.edits, Next(st, Make(e)).text;
    var m, front, last := base, [], [];
    NoEdits();
    if ts != [] {
      front, last := Front(ts), Last(ts);
      AllEditsLast(ts);
      m := LeadsSplit(base, AllEdits(front), last, st.text);
    } else {
      assert [] + [e] == [e];
      LeadsNothing(base);
    }
    ExtendedKeeps(m, last, st.text, e);
    Grown(front, Extended(last, e));
    LeadsConcat(base, AllEdits(front), m, Extended(last, e), u);
    assert Pushed(st.log, e).edits == front + [Extended(last, e)];
    LeadsNothing(u);
  }

  lemma BeginKeeps(base: seq<char>, st: State, end: seq<char>)
    requires FaithfulTo(base, st, end)
    ensures CanStep(st, Begin) && FaithfulTo(base, Next(st, Begin), end)
  {
    hide Leads, AllEdits, Pending;
    Grown(st.log.edits, []);
    assert AllEdits(st.log.edits) + [] == AllEdits(st.log.edits);
  }

  /** An undo goes back to the text `m` in front of the last transaction that is not empty. */
  lemma UndoKeeps(base: seq<char>, st: State, end: seq<char>)
    requires FaithfulTo(base, st, end)
    ensures CanStep(st, Undo) && FaithfulTo(base, Next(st, Undo), end)
    ensures var ts := Trimmed(st.log.edits);
      if ts == [] then Next(st, Undo) == State(st.text, Log([], st.log.undone))
      else
        && Next(st, Undo).log == Log(Front(ts), st.log.undone + [Last(ts)])
        && Leads(Next(st, Undo).text, Last(ts), st.text)
  {
    hide Leads, AllEdits, Pending, Replayable, ReplayedAll, Inverses, Trimmed;
    var ts := Trimmed(st.log.edits);
    TrimmedKeeps(st.log.edits);
    if ts != [] {
      AllEditsLast(ts);
      var t := Last(ts);
      var m := LeadsSplit(base, AllEdits(Front(ts)), t, st.text);
      InversesTakeBack(m, t, st.text);
      LeadsReplayed(st.text, Inverses(t), m);
      Grown(st.log.undone, t);
      LeadsConcat(m, t, st.text, Pending(st.log.undone), end);
    }
  }

  /** A redo makes the edits of the transaction that was undone last. */
  lemma RedoKeeps(base: seq<char>, st: State, end: seq<char>)
    requires FaithfulTo(base, st, end)
    ensures CanStep(st, Redo) && FaithfulTo(base, Next(st, Redo), end)
    ensures var us := st.log.undone;
      if us == [] then Next(st, Redo) == st
      else
        && Next(st, Redo).log == Log(st.log.edits + [Last(us)], Front(us))
        && Leads(st.text, Last(us), Next(st, Redo).text)
  {
    hide Leads, AllEdits, Pending, Replayable, ReplayedAll, Trimmed;
    var us := st.log.undone;
    if us != [] {
      var t := Last(us);
      assert t in us && t != [];
      assert us == Front(us) + [t];
      Grown(Front(us), t);
      var m := LeadsSplit(st.text, t, Pending(Front(us)), end);
      LeadsReplayed(st.text, t, m);
      Grown(st.log.edits, t);
      LeadsConcat(base, AllEdits(st.log.edits), st.text, t, m);
    }
  }

  /** Every step keeps the log faithful to the text. */
  lemma StepKeeps(base: seq<char>, st: State, step: Step)
    requires Faithful(base, st) && (step.Make? ==> CanStep(st, step))
    ensures CanStep(st, step) && Faithful(base, Next(st, step))
  {
    hide Leads, AllEdits, Pending, CanStep, Next;
    var end :| FaithfulTo(base, st, end);
    match step
    case Make(e) => MakeKeeps(base, st, e);
    case Begin => BeginKeeps(base, st, end);
    case Undo => UndoKeeps(base, st, end);
    case Redo => RedoKeeps(base, st, end);
  }

  /** The states that a run goes through; it ends early at a step that is not allowed. */
  predicate RunsTo(st: State, steps: seq<Step>, end: State)
    decreases |steps|
  {
    if steps == [] then st == end else CanStep(st, steps[0]) && RunsTo(Next(st, steps[0]), steps[1..], end)
  }

  /** Over every run from a text with an empty log, of edits that fit and are not misjudged, of new
      transactions, undos and redos, the log replays from the first text to the current one. */
  lemma {:induction false} RunKeeps(base: seq<char>, steps: seq<Step>, end: State)
    requires RunsTo(State(base, Log([], [])), steps, end)
    ensures Faithful(base, end)
    ensures Replayable(base, AllEdits(end.log.edits)) && ReplayedAll(base, AllEdits(end.log.edits)) == end.text
  {
    hide Leads;
    var st := State(base, Log([], []));
    NoEdits();
    LeadsNothing(base);
    assert FaithfulTo(base, st, base);
    RunKeepsFrom(base, st, steps, end);
    var e :| FaithfulTo(base, end, e);
    LeadsReplayed(base, AllEdits(end.log.edits), end.text);
  }

  lemma {:induction false} RunKeepsFrom(base: seq<char>, st: State, steps: seq<Step>, end: State)
    requires Faithful(base, st) && RunsTo(st, steps, end)
    ensures Faithful(base, end)
    decreases |steps|
  {
    hide Faithful, CanStep, Next;
    if steps != [] {
      StepKeeps(base, st, steps[0]);
      RunKeepsFrom(base, Next(st, steps[0]), steps[1..], end);
    }
  }

  // ---------------------------------------------------------------- one transaction

  /** The edits can be made one after the other. */
  predicate CanMakeAll(st: State, es: seq<Edit>)
    decreases |es|
  {
    es != [] ==> CanStep(st, Make(es[0])) && CanMakeAll(Next(st, Make(es[0])), es[1..])
  }

  function MadeAll(st: State, es: seq<Edit>): State
    requires CanMakeAll(st, es)
    decreases |es|
  {
    if es == [] then st else MadeAll(Next(st, Make(es[0])), es[1..])
  }

  /** The last transaction leads from `text` to the current text. */
  predicate MadeSince(st: State, text: seq<char>, t: Transaction) {
    st.log.edits != [] && Last(st.log.edits) == t && Leads(text, t, st.text)
  }

  lemma RunningMade(st: State, text: seq<char>, t: Transaction, e: Edit)
    requires MadeSince(st, text, t) && CanStep(st, Make(e))
    ensures MadeSince(Next(st, Make(e)), text, Extended(t, e)) && Extended(t, e) != []
  {
    hide Leads, Misjudged, Combined;
    ExtendedKeeps(text, t, st.text, e);
  }

  lemma {:induction false} RunningMadeAll(base: seq<char>, st: State, text: seq<char>, t: Transaction, es: seq<Edit>)
      returns (u: Transaction)
    requires Faithful(base, st) && MadeSince(st, text, t) && CanMakeAll(st, es)
    ensures Faithful(base, MadeAll(st, es)) && MadeSince(MadeAll(st, es), text, u) && (t != [] || es != [] ==> u != [])
    decreases |es|
  {
    hide Faithful, CanStep, Next, MadeSince, Extended;
    if es == [] {
      u := t;
    } else {
      RunningMade(st, text, t, es[0]);
      StepKeeps(base, st, Make(es[0]));
      u := RunningMadeAll(base, Next(st, Make(es[0])), text, Extended(t, es[0]), es[1..]);
    }
  }

  lemma RunningBegun(st: State)
    ensures CanStep(st, Begin) && MadeSince(Next(st, Begin), st.text, [])
  {
  }

  lemma RunningUndone(st: State, text: seq<char>, t: Transaction)
    requires MadeSince(st, text, t) && t != []
    ensures CanStep(st, Undo) && Next(st, Undo).text == text && Compact(st.log.edits) != []
  {
    hide Leads, Replayable, ReplayedAll, Inverses;
    InversesTakeBack(text, t, st.text);
    LeadsReplayed(st.text, Inverses(t), text);
  }

  /** Edits that are made after a transaction is begun are taken back by one undo, all of them and no others, and
      made again by one redo. */
  lemma {:induction false} TransactionUndone(base: seq<char>, st: State, es: seq<Edit>)
    requires Faithful(base, st) && es != [] && CanStep(st, Begin) && CanMakeAll(Next(st, Begin), es)
    ensures var made := MadeAll(Next(st, Begin), es);
      && CanStep(made, Undo) && Next(made, Undo).text == st.text
      && CanStep(Next(made, Undo), Redo) && Next(Next(made, Undo), Redo).text == made.text
  {
    hide Faithful, CanStep, Next, MadeSince, MadeAll, CanMakeAll;
    StepKeeps(base, st, Begin);
    RunningBegun(st);
    var t := RunningMadeAll(base, Next(st, Begin), st.text, [], es);
    var made := MadeAll(Next(st, Begin), es);
    RunningUndone(made, st.text, t);
    UndoThenRedo(base, made);
  }

  /** After an insertion is undone the cursor is where it was made, and after a deletion is undone behind the
      restored text; after a redo it is the other way round. */
  lemma {:induction false} CursorTakenBack(st: State, e: Edit)
    requires CanStep(st, Begin) && CanStep(Next(st, Begin), Make(e))
    ensures var undone := Undone(Next(Next(st, Begin), Make(e)).log);
      && undone.1.Some? && Redone(undone.0).1.Some?
      && CurAfter(Last(undone.1.value)) == (if e.kind.Insertion? then e.cur else e.cur + |e.txt.Chars()|)
      && CurAfter(Last(Redone(undone.0).1.value)) == if e.kind.Insertion? then e.cur + |e.txt.Chars()| else e.cur
  {
    var l := Next(Next(st, Begin), Make(e)).log;
    assert l.undone == [] && l.edits == Front(l.edits) + [[e]];
    hide Normalised, Pushed, Begun, CanStep, Made, Next, Undone, Redone;
    LastUndone(Front(l.edits), e);
    NoReturnsNormalised(e.txt.Chars());
  }

  lemma LastUndone(ts: seq<Transaction>, e: Edit)
    ensures Undone(Log(ts + [[e]], [])) == (Log(ts, [[e]]), Some([Inverse(e)]))
    ensures Redone(Log(ts, [[e]])) == (Log(ts + [[e]], []), Some([e]))
  {
    TrimmedStep(ts, [e]);
    assert [] + [[e]] == [[e]] && Front([[e]]) == [] && [e][1..] == [] && [] + [Inverse(e)] == [Inverse(e)];
  }

  lemma NoReturnsNormalised(s: seq<char>)
    ensures '\r' !in s ==> Normalised(s) == s
  {
  }

  // ---------------------------------------------------------------- undos and redos

  /** Equal but for empty transactions, which neither an undo nor a redo sees. */
  predicate Same(x: State, y: State) {
    x.text == y.text && Compact(x.log.edits) == Compact(y.log.edits) && x.log.undone == y.log.undone
  }

  function Repeated(st: State, step: Step, n: nat): State
    requires step.Undo? || step.Redo?
  {
    if n == 0 then st
    else
      var before := Repeated(st, step, n - 1);
      if CanStep(before, step) then Next(before, step) else before
  }

  lemma {:induction false} LeadsUnique(b: seq<char>, es: seq<Edit>, t: seq<char>, u: seq<char>)
    requires Leads(b, es, t) && Leads(b, es, u)
    ensures t == u
    decreases |es|
  {
    if es != [] {
      LeadsUnique(Spliced(b, es[0]), es[1..], t, u);
    }
  }

  lemma UndoThenRedo(base: seq<char>, st: State)
    requires Faithful(base, st)
    ensures CanStep(st, Undo)
    ensures if Compact(st.log.edits) == [] then Same(Next(st, Undo), st)
      else CanStep(Next(st, Undo), Redo) && Same(Next(Next(st, Undo), Redo), st)
    ensures Compact(st.log.edits) != [] ==> |Compact(Next(st, Undo).log.edits)| == |Compact(st.log.edits)| - 1
  {
    hide Leads, AllEdits, Pending, CanStep, Next, Trimmed, Compact;
    NoEdits();
    var end :| FaithfulTo(base, st, end);
    UndoKeeps(base, st, end);
    TrimmedKeeps(st.log.edits);
    var ts := Trimmed(st.log.edits);
    if ts != [] {
      var s1, t := Next(st, Undo), Last(ts);
      RedoKeeps(base, s1, end);
      assert Last(s1.log.undone) == t && Front(s1.log.undone) == st.log.undone;
      LeadsUnique(s1.text, t, Next(s1, Redo).text, st.text);
      assert Front(ts) + [t] == ts;
      Grown(Front(ts), t);
      TrimmedLast(st.log.edits);
    }
  }

  lemma {:induction false} TrimmedLast(ts: seq<Transaction>)
    requires Trimmed(ts) != []
    ensures Last(Trimmed(ts)) != []
  {
  }

  lemma RedoThenUndo(base: seq<char>, st: State)
    requires Faithful(base, st)
    ensures CanStep(st, Redo)
    ensures st.log.undone == [] ==> Next(st, Redo) == st
    ensures st.log.undone != [] ==> CanStep(Next(st, Redo), Undo) && Next(Next(st, Redo), Undo) == st
    ensures st.log.undone != [] ==> |Next(st, Redo).log.undone| == |st.log.undone| - 1
  {
    hide Leads, AllEdits, Pending, CanStep, Next, Compact;
    var end :| FaithfulTo(base, st, end);
    RedoKeeps(base, st, end);
    var us := st.log.undone;
    if us != [] {
      var s1, t := Next(st, Redo), Last(us);
      assert t in us && t != [];
      UndoKeeps(base, s1, end);
      assert Trimmed(s1.log.edits) == s1.log.edits;
      assert Front(s1.log.edits) == st.log.edits && Front(us) + [t] == us;
      var back := Next(s1, Undo);
      InversesTakeBack(st.text, t, s1.text);
      InversesTakeBack(back.text, t, s1.text);
      LeadsUnique(s1.text, Inverses(t), st.text, back.text);
    }
  }

  function Stepped(st: State, step: Step): State
    requires step.Undo? || step.Redo?
  {
    if CanStep(st, step) then Next(st, step) else st
  }

  lemma {:induction false} RepeatedFirst(st: State, step: Step, n: nat)
    requires step.Undo? || step.Redo?
    ensures Repeated(st, step, n + 1) == Repeated(Stepped(st, step), step, n)
    decreases n
  {
    hide CanStep, Next;
    if n > 0 {
      RepeatedFirst(st, step, n - 1);
    }
  }

  lemma {:induction false} RepeatedKeep(base: seq<char>, st: State, step: Step, n: nat)
    requires (step.Undo? || step.Redo?) && Faithful(base, st)
    ensures Faithful(base, Repeated(st, step, n)) && CanStep(Repeated(st, step, n), step)
    decreases n
  {
    hide CanStep, Next, Faithful;
    if n > 0 {
      RepeatedKeep(base, st, step, n - 1);
      StepKeeps(base, Repeated(st, step, n - 1), step);
    }
    StepKeeps(base, Repeated(st, step, n), step);
  }

  lemma RedoRespects(base: seq<char>, x: State, y: State)
    requires Faithful(base, x) && Faithful(base, y) && Same(x, y)
    ensures CanStep(x, Redo) && CanStep(y, Redo) && Same(Next(x, Redo), Next(y, Redo))
  {
    hide Leads, AllEdits, Pending, CanStep, Next, Compact;
    var end :| FaithfulTo(base, x, end);
    RedoKeeps(base, x, end);
    var end' :| FaithfulTo(base, y, end');
    RedoKeeps(base, y, end');
    if x.log.undone != [] {
      LeadsUnique(x.text, Last(x.log.undone), Next(x, Redo).text, Next(y, Redo).text);
      Grown(x.log.edits, Last(x.log.undone));
      Grown(y.log.edits, Last(y.log.undone));
    }
  }

  lemma {:induction false} RedosRespect(base: seq<char>, x: State, y: State, n: nat)
    requires Faithful(base, x) && Faithful(base, y) && Same(x, y)
    ensures Same(Repeated(x, Redo, n), Repeated(y, Redo, n))
    decreases n
  {
    hide CanStep, Next, Faithful, Same;
    if n > 0 {
      RedosRespect(base, x, y, n - 1);
      RepeatedKeep(base, x, Redo, n - 1);
      RepeatedKeep(base, y, Redo, n - 1);
      RedoRespects(base, Repeated(x, Redo, n - 1), Repeated(y, Redo, n - 1));
    }
  }

  /** `n` undos followed by `n` redos come to the redos alone that are left over when there are fewer than
      `n` transactions to undo; with enough transactions they come to nothing. */
  lemma {:induction false} UndosThenRedos(base: seq<char>, st: State, n: nat)
    requires Faithful(base, st)
    ensures Same(Repeated(Repeated(st, Undo, n), Redo, n), Repeated(st, Redo, n - Min(n, |Compact(st.log.edits)|)))
    decreases n
  {
    hide CanStep, Next, Faithful, Same, Compact, Repeated;
    var k := |Compact(st.log.edits)|;
    if n == 0 {
      RepeatedNever(st);
    } else {
      UndoThenRedo(base, st);
      StepKeeps(base, st, Undo);
      var s1 := Next(st, Undo);
      RepeatedFirst(st, Undo, n - 1);
      UndosThenRedos(base, s1, n - 1);
      var x := Repeated(s1, Undo, n - 1);
      RepeatedKeep(base, s1, Undo, n - 1);
      RepeatedKeep(base, x, Redo, n - 1);
      RepeatedLast(x, Redo, n);
      if k > 0 {
        var j := n - Min(n, k);
        assert n - 1 - Min(n - 1, k - 1) == j;
        RepeatedKeep(base, s1, Redo, j);
        RedoRespects(base, Repeated(x, Redo, n - 1), Repeated(s1, Redo, j));
        RepeatedLast(s1, Redo, j + 1);
        RepeatedFirst(s1, Redo, j);
        StepKeeps(base, s1, Redo);
        RedosRespect(base, Next(s1, Redo), st, j);
        SameTrans(Repeated(x, Redo, n), Repeated(s1, Redo, j + 1), Repeated(st, Redo, j));
      } else {
        SameCount(s1, st);
        RepeatedKeep(base, s1, Redo, n - 1);
        RedoRespects(base, Repeated(x, Redo, n - 1), Repeated(s1, Redo, n - 1));
        RepeatedLast(s1, Redo, n);
        RedosRespect(base, s1, st, n);
        SameTrans(Repeated(x, Redo, n), Repeated(s1, Redo, n), Repeated(st, Redo, n));
      }
    }
  }

  lemma SameCount(x: State, y: State)
    requires Same(x, y)
    ensures |Compact(x.log.edits)| == |Compact(y.log.edits)|
  {
  }

  lemma SameTrans(x: State, y: State, z: State)
    requires Same(x, y) && Same(y, z)
    ensures Same(x, z)
  {
  }

  lemma {:induction false} RepeatedNever(st: State)
    ensures Repeated(st, Undo, 0) == st && Repeated(st, Redo, 0) == st && Same(st, st)
  {
  }

  lemma RepeatedLast(st: State, step: Step, n: nat)
    requires (step.Undo? || step.Redo?) && n > 0 && CanStep(Repeated(st, step, n - 1), step)
    ensures Repeated(st, step, n) == Next(Repeated(st, step, n - 1), step)
  {
  }

  /** Undoing at most as many transactions as there are and redoing them restores the text. */
  lemma {:induction false} UndosThenRedosRestore(base: seq<char>, st: State, n: nat)
    requires Faithful(base, st) && n <= |Compact(st.log.edits)|
    ensures Same(Repeated(Repeated(st, Undo, n), Redo, n), st)
  {
    UndosThenRedos(base, st, n);
    RepeatedNever(st);
  }

  /** `n` redos followed by `n` undos come to the undos alone that are left over when there are fewer than
      `n` transactions to redo. */
  lemma {:induction false} RedosThenUndos(base: seq<char>, st: State, n: nat)
    requires Faithful(base, st)
    ensures Repeated(Repeated(st, Redo, n), Undo, n) == Repeated(st, Undo, n - Min(n, |st.log.undone|))
    decreases n
  {
    hide CanStep, Next, Faithful, Repeated;
    var k := |st.log.undone|;
    if n == 0 {
      RepeatedNever(st);
    } else {
      RedoThenUndo(base, st);
      StepKeeps(base, st, Redo);
      var s1 := Next(st, Redo);
      RepeatedFirst(st, Redo, n - 1);
      RedosThenUndos(base, s1, n - 1);
      var x := Repeated(s1, Redo, n - 1);
      RepeatedKeep(base, s1, Redo, n - 1);
      RepeatedKeep(base, x, Undo, n - 1);
      RepeatedLast(x, Undo, n);
      var j := n - 1 - Min(n - 1, |s1.log.undone|);
      RepeatedKeep(base, s1, Undo, j);
      RepeatedLast(s1, Undo, j + 1);
      RepeatedFirst(s1, Undo, j);
      StepKeeps(base, s1, Undo);
    }
  }
}
