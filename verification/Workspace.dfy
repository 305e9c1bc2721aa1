/** The learning record of one workspace. */
module Workspace {
  // Its histories are bounded: how they grow, and how they survive being saved and read
  // back.

  import opened Basics
  import opened Wrappers
  import opened Text

  datatype Stage = Source | Built | Deployed

  datatype Action = Build | Deploy | Interact

  datatype Kind = NetworkEvent | BuildEvent | DeployEvent | InstructionEvent | IdeaEvent

  datatype Status = Idle | Working | Succeeded | Failed

  datatype Event = Event(kind: Kind, status: Status, text: string)

  datatype Record = Record(
    messages: seq<string>,
    previousResponseId: Option<string>,
    patch: Option<string>,
    undoFiles: Option<seq<string>>,
    events: seq<Event>,
    terminalLines: seq<string>,
    stage: Stage,
    chainAction: Option<Action>,
    experimentDismissed: bool)

  const MAX_MESSAGES: nat := 50
  const MAX_EVENTS: nat := 8
  const MAX_LINES: nat := 300

  function NewRecord(welcome: string): Record {
    Record([welcome], None, None, None, [Event(NetworkEvent, Idle, "Surfpool connection")], [], Source, None, false)
  }

  // ----- Windows -----

  function FirstOf<T>(s: seq<T>, n: nat): (r: seq<T>)
    ensures |r| <= n && r <= s
    ensures |s| <= n ==> r == s
  {
    if |s| <= n then s else s[..n]
  }

  function LastOf<T>(s: seq<T>, n: nat): (r: seq<T>)
    ensures |r| <= n && |r| <= |s|
    ensures |s| <= n ==> r == s
  {
    if |s| <= n then s else s[|s| - n..]
  }

  /** Cutting early loses nothing: the window of a longer history is the window of its window. */
  lemma WindowOfWindow<T>(a: seq<T>, b: seq<T>, n: nat)
    ensures LastOf(LastOf(a, n) + b, n) == LastOf(a + b, n)
  {
    if |a| > n {
      var head, cut := a[..|a| - n], a[|a| - n..];
      assert a + b == head + (cut + b) by {
        assert a == head + cut;
      }
      DropPast(head, cut + b, |b|);
    }
  }

  lemma DropPast<T>(a: seq<T>, b: seq<T>, k: nat)
    requires k <= |b|
    ensures (a + b)[|a| + k..] == b[k..]
  {
  }

  // ----- Events -----

  /** The first event of the kind that is still working. */
  function WorkingAt(events: seq<Event>, kind: Kind): (r: Option<nat>)
    ensures r.Some? ==> r.value < |events| && events[r.value].kind == kind && events[r.value].status == Working
    ensures r.Some? ==> forall i | 0 <= i < r.value :: !(events[i].kind == kind && events[i].status == Working)
    ensures r.None? ==> forall i | 0 <= i < |events| :: !(events[i].kind == kind && events[i].status == Working)
  {
    if events == [] then None
    else if events[0].kind == kind && events[0].status == Working then Some(0)
    else match WorkingAt(events[1..], kind)
      case Some(i) => Some(i + 1)
      case None => None
  }

  /** A new event comes first; unless it is itself a start it replaces the start of its kind. */
  function AddEvent(events: seq<Event>, next: Event): (r: seq<Event>)
    ensures 0 < |r| <= MAX_EVENTS && r[0] == next
  {
    var at := if next.status == Working then None else WorkingAt(events, next.kind);
    if at.Some? then FirstOf([next] + (events[..at.value] + events[at.value + 1..]), MAX_EVENTS)
    else FirstOf([next] + events, MAX_EVENTS)
  }

  /** The working event of the kind that comes first. */
  predicate FirstWorking(events: seq<Event>, kind: Kind, k: nat) {
    && k < |events| && events[k].kind == kind && events[k].status == Working
    && forall i | 0 <= i < k :: !(events[i].kind == kind && events[i].status == Working)
  }

  /** Nothing but that start is taken out before the list is cut to eight. */
  lemma AddEventExact(events: seq<Event>, next: Event)
    ensures forall k: nat | next.status != Working && FirstWorking(events, next.kind, k) ::
              AddEvent(events, next) == FirstOf([next] + events[..k] + events[k + 1..], 8)
    ensures (next.status == Working || forall k: nat :: !FirstWorking(events, next.kind, k)) ==>
              AddEvent(events, next) == FirstOf([next] + events, 8)
  {
    hide FirstOf;
    forall k: nat | next.status != Working && FirstWorking(events, next.kind, k)
      ensures AddEvent(events, next) == FirstOf([next] + events[..k] + events[k + 1..], 8)
    {
      assert WorkingAt(events, next.kind) == Some(k);
      assert [next] + (events[..k] + events[k + 1..]) == [next] + events[..k] + events[k + 1..];
    }
    var at := WorkingAt(events, next.kind);
    if at.Some? {
      assert FirstWorking(events, next.kind, at.value);
    }
  }

  function AddAll(events: seq<Event>, more: seq<Event>): seq<Event>
    decreases more
  {
    if more == [] then events else AddAll(AddEvent(events, more[0]), more[1..])
  }

  /** The kinds started and not yet followed by another event of the kind. */
  function Outstanding(kinds: set<Kind>, e: Event): set<Kind> {
    if e.status == Working then kinds + {e.kind} else kinds - {e.kind}
  }

  /** No kind is started while it is outstanding. */
  predicate OneStartEach(kinds: set<Kind>, more: seq<Event>)
    decreases more
  {
    more == []
    || ((more[0].status == Working ==> more[0].kind !in kinds) && OneStartEach(Outstanding(kinds, more[0]), more[1..]))
  }

  function OutstandingAfter(kinds: set<Kind>, more: seq<Event>): set<Kind>
    decreases more
  {
    if more == [] then kinds else OutstandingAfter(Outstanding(kinds, more[0]), more[1..])
  }

  /** The working events are of distinct kinds, all outstanding. */
  ghost predicate NoStale(events: seq<Event>, kinds: set<Kind>) {
    && (forall i | 0 <= i < |events| && events[i].status == Working :: events[i].kind in kinds)
    && (forall i, j | 0 <= i < j < |events| && events[i].status == Working && events[j].status == Working ::
          events[i].kind != events[j].kind)
  }

  lemma AddKeepsNoStale(events: seq<Event>, kinds: set<Kind>, next: Event)
    requires NoStale(events, kinds) && (next.status == Working ==> next.kind !in kinds)
    ensures NoStale(AddEvent(events, next), Outstanding(kinds, next))
  {
    assert AddEvent(events, next) <= [next] + Rest(events, next);
    RestNoStale(events, kinds, next);
    hide AddEvent, WorkingAt, Outstanding, Rest;
    StartNoStale(Rest(events, next), Outstanding(kinds, next), next);
  }

  /** The list without the start that an event replaces, if there is one. */
  function Rest(events: seq<Event>, next: Event): seq<Event> {
    var at := if next.status == Working then None else WorkingAt(events, next.kind);
    if at.Some? then events[..at.value] + events[at.value + 1..] else events
  }

  /** Every event of the rest is at its place or one place further in the whole. */
  function PlaceOf(events: seq<Event>, next: Event, i: nat): nat {
    var at := if next.status == Working then None else WorkingAt(events, next.kind);
    if at.Some? && i >= at.value then i + 1 else i
  }

  lemma RestAt(events: seq<Event>, next: Event, i: nat)
    requires i < |Rest(events, next)|
    ensures PlaceOf(events, next, i) < |events| && Rest(events, next)[i] == events[PlaceOf(events, next, i)]
  {
  }

  lemma RestNoStale(events: seq<Event>, kinds: set<Kind>, next: Event)
    requires NoStale(events, kinds) && (next.status == Working ==> next.kind !in kinds)
    ensures var rest := Rest(events, next);
            && NoStale(rest, Outstanding(kinds, next))
            && (forall i | 0 <= i < |rest| && rest[i].status == Working :: rest[i].kind != next.kind)
            && (next.status == Working ==> next.kind in Outstanding(kinds, next))
  {
    var rest := Rest(events, next);
    forall i | 0 <= i < |rest| && rest[i].status == Working
      ensures rest[i].kind in kinds && rest[i].kind != next.kind
    {
      RestAt(events, next, i);
    }
    forall i, j | 0 <= i < j < |rest| && rest[i].status == Working && rest[j].status == Working
      ensures rest[i].kind != rest[j].kind
    {
      RestAt(events, next, i);
      RestAt(events, next, j);
    }
    hide Rest;
  }

  lemma StartNoStale(rest: seq<Event>, kinds: set<Kind>, next: Event)
    requires NoStale(rest, kinds) && (next.status == Working ==> next.kind in kinds)
    requires forall i | 0 <= i < |rest| && rest[i].status == Working :: rest[i].kind != next.kind
    ensures forall r | r <= [next] + rest :: NoStale(r, kinds)
  {
    assert NoStale([next] + rest, kinds);
  }

  /** As long as no kind is started twice, no start outlives its end. */
  lemma {:induction false} StartsEnd(events: seq<Event>, kinds: set<Kind>, more: seq<Event>)
    requires NoStale(events, kinds) && OneStartEach(kinds, more)
    ensures NoStale(AddAll(events, more), OutstandingAfter(kinds, more))
    decreases more
  {
    if more != [] {
      AddKeepsNoStale(events, kinds, more[0]);
      hide NoStale;
      StartsEnd(AddEvent(events, more[0]), Outstanding(kinds, more[0]), more[1..]);
    }
  }

  /** No start of the kind of `next` is still working in the part of the list that stays
      when `next` is added. */
  predicate Harmless(events: seq<Event>, next: Event) {
    next.status == Working ==>
      forall i | 0 <= i < |events| && i < MAX_EVENTS - 1 ::
        !(events[i].kind == next.kind && events[i].status == Working)
  }

  /** An event keeps the list free of stale starts exactly when it is harmless. */
  lemma AddNoStaleIff(events: seq<Event>, kinds: set<Kind>, next: Event)
    requires NoStale(events, kinds)
    ensures NoStale(AddEvent(events, next), Outstanding(kinds, next)) <==> Harmless(events, next)
  {
    var after := AddEvent(events, next);
    if next.status == Working {
      var all := [next] + events;
      assert after == FirstOf(all, MAX_EVENTS);
      assert forall i | 1 <= i < |after| :: after[i] == events[i - 1];
      if i :| 0 <= i < |events| && i < MAX_EVENTS - 1 && events[i].kind == next.kind && events[i].status == Working {
        assert after[i + 1] == events[i] && after[0] == next;
      }
    } else {
      AddKeepsNoStale(events, kinds, next);
    }
  }

  /** Every event is harmless when it comes. */
  predicate AllHarmless(events: seq<Event>, more: seq<Event>)
    decreases more
  {
    more == [] || (Harmless(events, more[0]) && AllHarmless(AddEvent(events, more[0]), more[1..]))
  }

  ghost predicate NoStaleAfter(events: seq<Event>, kinds: set<Kind>, more: seq<Event>) {
    NoStale(AddAll(events, more), OutstandingAfter(kinds, more))
  }

  lemma AfterFirst(events: seq<Event>, kinds: set<Kind>, more: seq<Event>, n: nat)
    requires 0 < n <= |more|
    ensures NoStaleAfter(events, kinds, more[..n])
         == NoStaleAfter(AddEvent(events, more[0]), Outstanding(kinds, more[0]), more[1..][..n - 1])
  {
    assert more[..n][0] == more[0] && more[..n][1..] == more[1..][..n - 1];
  }

  /** The list is free of stale starts all through a run exactly when every event of the
      run is harmless. */
  lemma {:induction false} NeverStaleIff(events: seq<Event>, kinds: set<Kind>, more: seq<Event>)
    requires NoStale(events, kinds)
    ensures (forall n | 0 <= n <= |more| :: NoStaleAfter(events, kinds, more[..n])) <==> AllHarmless(events, more)
    decreases more
  {
    if more == [] {
      assert forall n | 0 <= n <= |more| :: more[..n] == [];
    } else {
      var e, k, rest := AddEvent(events, more[0]), Outstanding(kinds, more[0]), more[1..];
      AddNoStaleIff(events, kinds, more[0]);
      hide NoStale, Harmless, Outstanding;
      forall n | 0 < n <= |more|
        ensures NoStaleAfter(events, kinds, more[..n]) == NoStaleAfter(e, k, rest[..n - 1])
      {
        AfterFirst(events, kinds, more, n);
      }
      assert NoStaleAfter(events, kinds, more[..0]);
      assert NoStaleAfter(e, k, rest[..0]) == NoStale(e, k);
      if NoStale(e, k) {
        NeverStaleIff(e, k, rest);
      }
      Shifted(events, kinds, more, e, k);
    }
  }

  lemma Shifted(events: seq<Event>, kinds: set<Kind>, more: seq<Event>, e: seq<Event>, k: set<Kind>)
    requires more != [] && NoStaleAfter(events, kinds, more[..0])
    requires forall n | 0 < n <= |more| ::
               NoStaleAfter(events, kinds, more[..n]) == NoStaleAfter(e, k, more[1..][..n - 1])
    ensures (forall n | 0 <= n <= |more| :: NoStaleAfter(events, kinds, more[..n]))
       <==> forall m | 0 <= m <= |more[1..]| :: NoStaleAfter(e, k, more[1..][..m])
  {
    hide NoStaleAfter;
    if forall n | 0 <= n <= |more| :: NoStaleAfter(events, kinds, more[..n]) {
      forall m | 0 <= m <= |more[1..]| ensures NoStaleAfter(e, k, more[1..][..m]) {
        assert NoStaleAfter(events, kinds, more[..m + 1]);
      }
    }
    if forall m | 0 <= m <= |more[1..]| :: NoStaleAfter(e, k, more[1..][..m]) {
      forall n | 0 <= n <= |more| ensures NoStaleAfter(events, kinds, more[..n]) {
        if n > 0 {
          assert NoStaleAfter(e, k, more[1..][..n - 1]);
        }
      }
    }
  }

  /** A kind started twice and ended once leaves a start behind. */
  lemma DoubleStartStays(e: Event, f: Event, g: Event)
    requires e.kind == f.kind == g.kind && e.status == f.status == Working && g.status != Working
    ensures AddEvent(AddEvent(AddEvent([], e), f), g) == [g, e]
  {
    assert AddEvent([], e) == [e];
    assert AddEvent([e], f) == [f, e];
    assert WorkingAt([f, e], g.kind) == Some(0);
    assert [f, e][..0] + [f, e][1..] == [e];
  }

  // ----- Terminal output -----

  predicate IsLetter(c: char) { 'A' <= c <= 'Z' || 'a' <= c <= 'z' }

  const ESCAPE: char := 27 as char
  const RETURN: char := '\r'

  /** The characters of a message outside escape sequences; `inside` tells whether it starts within one. */
  function Visible(message: string, inside: bool): string {
    if message == "" then ""
    else
      var c, rest := message[0], message[1..];
      if c == ESCAPE then Visible(rest, true)
      else if inside then Visible(rest, !IsLetter(c))
      else (if c == RETURN then "" else [c]) + Visible(rest, false)
  }

  /** Whether the message ends inside an escape sequence. */
  function EndsInside(message: string, inside: bool): bool {
    if message == "" then inside
    else
      var c := message[0];
      EndsInside(message[1..], if c == ESCAPE then true else inside && !IsLetter(c))
  }

  function NonEmpty(lines: seq<string>): (r: seq<string>)
    ensures forall line | line in r :: line != ""
  {
    if lines == [] then [] else (if lines[0] == "" then [] else [lines[0]]) + NonEmpty(lines[1..])
  }

  /** The visible, non-empty lines of a message. */
  function CleanLines(message: string): seq<string> {
    var clean := Visible(message, false);
    NonEmpty(Lines(clean) + [Unfinished(clean)])
  }

  lemma {:induction false} VisibleAppend(a: string, b: string, inside: bool)
    ensures Visible(a + b, inside) == Visible(a, inside) + Visible(b, EndsInside(a, inside))
    ensures EndsInside(a + b, inside) == EndsInside(b, EndsInside(a, inside))
    decreases a
  {
    if a == "" {
      assert a + b == b;
    } else {
      assert (a + b)[1..] == a[1..] + b;
      VisibleAppend(a[1..], b, if a[0] == ESCAPE then true else inside && !IsLetter(a[0]));
    }
  }

  /** An escape has come, and no letter after it. */
  ghost predicate InSequence(message: string) {
    exists e :: && 0 <= e < |message| && message[e] == 27 as char
                && forall k | e < k < |message| :: !('A' <= message[k] <= 'Z' || 'a' <= message[k] <= 'z')
  }

  lemma InSequenceNext(message: string, c: char)
    ensures InSequence(message + [c]) <==> c == ESCAPE || (InSequence(message) && !IsLetter(c))
  {
    var all, n := message + [c], |message|;
    if c == ESCAPE {
      assert all[n] == ESCAPE;
    } else if InSequence(all) {
      var e :| && 0 <= e < |all| && all[e] == 27 as char
               && forall k | e < k < |all| :: !('A' <= all[k] <= 'Z' || 'a' <= all[k] <= 'z');
      assert message[e] == all[e] && forall k | e < k < n :: message[k] == all[k];
      assert !IsLetter(all[n]);
    } else if InSequence(message) {
      var e :| && 0 <= e < n && message[e] == 27 as char
               && forall k | e < k < n :: !('A' <= message[k] <= 'Z' || 'a' <= message[k] <= 'z');
      assert all[e] == message[e] && forall k | e < k < n :: all[k] == message[k];
    }
  }

  lemma {:induction false} EndsInsideIff(message: string)
    ensures EndsInside(message, false) <==> InSequence(message)
  {
    if message != "" {
      var last := |message| - 1;
      var less, c := message[..last], message[last];
      assert message == less + [c] && [c][1..] == "";
      VisibleAppend(less, [c], false);
      EndsInsideIff(less);
      InSequenceNext(less, c);
      hide InSequence;
    }
  }

  /** One character more is shown exactly when it is neither an escape nor a return and
      no sequence is open. */
  lemma VisibleNext(message: string, c: char)
    ensures Visible("", false) == ""
    ensures Visible(message + [c], false)
         == Visible(message, false) + if c == 27 as char || c == '\r' || InSequence(message) then "" else [c]
  {
    hide InSequence;
    VisibleAppend(message, [c], false);
    EndsInsideIff(message);
    assert [c][1..] == "";
  }

  /** The lines of a message are the pieces of what is shown, between newlines, that are not empty. */
  lemma CleanLinesExact(message: string)
    ensures exists pieces ::
              && JoinLines(pieces) == Visible(message, false) && pieces != []
              && (forall p | p in pieces :: '\n' !in p)
              && CleanLines(message) == Filter(pieces, (p: string) => p != "")
  {
    var shown := Visible(message, false);
    hide Visible;
    var pieces := Lines(shown) + [Unfinished(shown)];
    JoinSplit(shown);
    LinesNoNewline(shown);
    NonEmptyExact(pieces);
  }

  lemma {:induction false} NonEmptyExact(lines: seq<string>)
    ensures NonEmpty(lines) == Filter(lines, (l: string) => l != "")
  {
    if lines != [] {
      NonEmptyExact(lines[1..]);
    }
  }

  /** Nothing but returns comes before the next escape, or the end. */
  predicate Untouched(text: string) {
    text == "" || text[0] == ESCAPE || (text[0] == RETURN && Untouched(text[1..]))
  }

  lemma {:induction false} VisibleInside(text: string)
    ensures |Visible(text, true)| <= |Visible(text, false)|
    ensures Visible(text, true) == Visible(text, false) <==> Untouched(text)
  {
    if text != "" {
      VisibleInside(text[1..]);
    }
  }

  /** Two messages show what their joined text shows exactly when the first does not end
      inside an escape sequence, or nothing of the second is at stake: every message
      starts outside. */
  lemma CutIff(a: string, b: string)
    ensures Visible(a + b, false) == Visible(a, false) + Visible(b, false) <==> !EndsInside(a, false) || Untouched(b)
  {
    VisibleAppend(a, b, false);
    VisibleInside(b);
    var va, vb := Visible(a, false), Visible(b, EndsInside(a, false));
    assert (va + vb)[|va|..] == vb && (va + Visible(b, false))[|va|..] == Visible(b, false);
  }

  /** A colour sequence cut in two: its end is shown. */
  lemma CutSequenceShown()
    ensures var a, b := [ESCAPE, '['], ['3', '1', 'm', 'h'];
            CleanLines(a) == [] && CleanLines(b) == [b] && CleanLines(a + b) == [['h']]
  {
    var a, b := [ESCAPE, '['], ['3', '1', 'm', 'h'];
    ShowsStart();
    ShowsEnd();
    hide Visible, EndsInside;
    VisibleAppend(a, b, false);
    assert "" + ['h'] == ['h'];
    LinesOfNothing();
    OneLine(b);
    OneLine(['h']);
    hide NonEmpty, Lines, Unfinished;
  }

  lemma ShowsStart()
    ensures Visible([ESCAPE, '['], false) == "" && EndsInside([ESCAPE, '['], false)
  {
    assert [ESCAPE, '['][1..] == ['['] && ['['][1..] == [];
    assert Visible(['['], true) == Visible([], true) && EndsInside(['['], true) == EndsInside([], true);
  }

  lemma ShowsEnd()
    ensures var b := ['3', '1', 'm', 'h']; Visible(b, false) == b && Visible(b, true) == ['h']
  {
    var b := ['3', '1', 'm', 'h'];
    assert b[1..] == ['1', 'm', 'h'] && b[1..][1..] == ['m', 'h'] && ['m', 'h'][1..] == ['h'] && ['h'][1..] == [];
    assert Visible(['h'], false) == ['h'];
    assert Visible(['m', 'h'], false) == ['m', 'h'] && Visible(['m', 'h'], true) == ['h'];
    assert Visible(['1', 'm', 'h'], false) == ['1', 'm', 'h'] && Visible(['1', 'm', 'h'], true) == ['h'];
  }

  lemma LinesOfNothing()
    ensures NonEmpty(Lines("") + [Unfinished("")]) == []
  {
    assert Lines("") + [Unfinished("")] == [""];
    assert [""][1..] == [];
  }

  lemma OneLine(line: string)
    requires line != "" && '\n' !in line
    ensures NonEmpty(Lines(line) + [Unfinished(line)]) == [line]
  {
    NoNewline(line);
    assert Lines(line) + [Unfinished(line)] == [line];
    assert [line][1..] == [];
  }

  /** The pieces of a text between newlines. */
  function Pieces(text: string): seq<string> { Lines(text) + [Unfinished(text)] }

  lemma {:induction false} NonEmptyAppend(a: seq<string>, b: seq<string>)
    ensures NonEmpty(a + b) == NonEmpty(a) + NonEmpty(b)
  {
    if a == [] {
      assert a + b == b;
    } else {
      assert (a + b)[1..] == a[1..] + b;
      NonEmptyAppend(a[1..], b);
    }
  }

  lemma PiecesNext(text: string, c: char)
    ensures var p := Pieces(text);
            Pieces(text + [c]) == if c == '\n' then p + [""] else p[..|p| - 1] + [p[|p| - 1] + [c]]
  {
    assert (text + [c])[..|text|] == text;
  }

  /** A start without a newline goes before the first piece. */
  lemma {:induction false} PiecesAfter(start: string, text: string)
    requires '\n' !in start
    ensures Pieces(start + text) == [start + Pieces(text)[0]] + Pieces(text)[1..]
  {
    if text == "" {
      NoNewline(start);
      assert start + "" == start;
      assert Pieces(start) == [start] && Pieces("") == [""];
    } else {
      var last := |text| - 1;
      var less, c := text[..last], text[last];
      assert text == less + [c] && start + text == start + less + [c];
      PiecesAfter(start, less);
      PiecesNext(less, c);
      PiecesNext(start + less, c);
      assert Pieces(less) != [];
      hide Pieces;
      FirstExtended(start, Pieces(less), c);
    }
  }

  /** What a character does to the last piece it does with a start before the first. */
  lemma FirstExtended(start: string, p: seq<string>, c: char)
    requires p != []
    ensures var q := [start + p[0]] + p[1..];
            && q + [""] == [start + (p + [""])[0]] + (p + [""])[1..]
            && (var r := p[..|p| - 1] + [p[|p| - 1] + [c]];
                q[..|q| - 1] + [q[|q| - 1] + [c]] == [start + r[0]] + r[1..])
  {
    if |p| == 1 {
      assert start + p[0] + [c] == start + (p[0] + [c]);
    } else {
      var q, r := [start + p[0]] + p[1..], p[..|p| - 1] + [p[|p| - 1] + [c]];
      assert q[..|q| - 1] == [start + p[0]] + p[1..|p| - 1] && r[1..] == p[1..|p| - 1] + [p[|p| - 1] + [c]];
    }
  }

  predicate StartsLine(text: string) { text == "" || text[0] == '\n' }

  lemma {:induction false} FirstPieceEmptyIff(text: string)
    ensures Pieces(text)[0] == "" <==> StartsLine(text)
  {
    if text != "" {
      FirstPieceEmptyIff(text[..|text| - 1]);
    }
  }

  /** And when they do, their lines are the lines of the joined text exactly when the cut
      falls between two lines. */
  lemma LinesCutIff(a: string, b: string)
    requires Visible(a + b, false) == Visible(a, false) + Visible(b, false)
    ensures CleanLines(a + b) == CleanLines(a) + CleanLines(b)
       <==> Unfinished(Visible(a, false)) == "" || StartsLine(Visible(b, false))
  {
    var va, vb := Visible(a, false), Visible(b, false);
    var u, p := Unfinished(va), Pieces(vb);
    hide Visible, Lines, Unfinished, NonEmpty, StartsLine;
    SplitAppend(va, vb);
    PiecesAfter(u, vb);
    FirstPieceEmptyIff(vb);
    var tail := [u + p[0]] + p[1..];
    assert Pieces(va + vb) == Lines(va) + tail by {
      assert Lines(va) + Lines(u + vb) + [Unfinished(u + vb)] == Lines(va) + (Lines(u + vb) + [Unfinished(u + vb)]);
    }
    NonEmptyAppend(Lines(va), tail);
    NonEmptyAppend(Lines(va), [u]);
    assert p == [p[0]] + p[1..];
    JoinedPieces(NonEmpty(Lines(va)), u, p[0], p[1..]);
  }

  lemma NonEmptyOne(piece: string)
    ensures NonEmpty([piece]) == if piece == "" then [] else [piece]
  {
    assert [piece][1..] == [];
  }

  lemma JoinedPieces(before: seq<string>, u: string, first: string, rest: seq<string>)
    ensures before + NonEmpty([u + first] + rest) == before + NonEmpty([u]) + NonEmpty([first] + rest)
       <==> u == "" || first == ""
  {
    hide NonEmpty;
    NonEmptyAppend([u + first], rest);
    NonEmptyAppend([first], rest);
    NonEmptyOne(u);
    NonEmptyOne(first);
    NonEmptyOne(u + first);
    assert u == "" ==> u + first == first;
    assert first == "" ==> u + first == u;
    var end := NonEmpty(rest);
    if u == "" {
      assert before + [] == before;
    } else if first == "" {
      assert before + ([u] + end) == before + [u] + ([] + end);
    } else {
      assert |before + ([u + first] + end)| != |before + [u] + ([first] + end)|;
    }
  }

  /** The loop over the characters of a message. */
  method CleanTerminalOutput(message: string) returns (lines: seq<string>)
    ensures lines == CleanLines(message)
  {
    var clean := "";
    var inEscapeSequence := false;
    var i := 0;
    while i < |message|
      invariant 0 <= i <= |message|
      invariant clean == Visible(message[..i], false)
      invariant inEscapeSequence == EndsInside(message[..i], false)
    {
      var c := message[i];
      assert message[..i + 1] == message[..i] + [c];
      VisibleAppend(message[..i], [c], false);
      assert [c][1..] == "";
      if c == ESCAPE {
        inEscapeSequence := true;
      } else if inEscapeSequence {
        if IsLetter(c) {
          inEscapeSequence := false;
        }
      } else if c != RETURN {
        clean := clean + [c];
      }
      i := i + 1;
    }
    assert message[..i] == message;
    lines := NonEmpty(Lines(clean) + [Unfinished(clean)]);
  }

  /** What a record keeps after a message has been printed to it. */
  function Print(r: Record, message: string): (p: Record)
    ensures p == r.(terminalLines := p.terminalLines)
  {
    r.(terminalLines := LastOf(r.terminalLines + CleanLines(message), MAX_LINES))
  }

  function PrintAll(r: Record, messages: seq<string>): Record
    decreases messages
  {
    if messages == [] then r else PrintAll(Print(r, messages[0]), messages[1..])
  }

  function AllLines(messages: seq<string>): seq<string> {
    if messages == [] then [] else CleanLines(messages[0]) + AllLines(messages[1..])
  }

  /** However much is printed, the record holds exactly the last lines of it all. */
  lemma {:induction false} WindowExact(r: Record, messages: seq<string>)
    requires |r.terminalLines| <= MAX_LINES
    ensures PrintAll(r, messages)
         == r.(terminalLines := LastOf(r.terminalLines + AllLines(messages), MAX_LINES))
    decreases messages
  {
    if messages == [] {
      assert r.terminalLines + [] == r.terminalLines;
    } else {
      var lines, rest := CleanLines(messages[0]), AllLines(messages[1..]);
      WindowExact(Print(r, messages[0]), messages[1..]);
      WindowOfWindow(r.terminalLines + lines, rest, MAX_LINES);
      assert r.terminalLines + lines + rest == r.terminalLines + (lines + rest);
    }
  }

  // ----- Saving and reading back -----

  /** What is written for a record. */
  function Serializable(r: Record): Record {
    r.(messages := LastOf(r.messages, MAX_MESSAGES),
       events := FirstOf(r.events, MAX_EVENTS),
       terminalLines := LastOf(r.terminalLines, MAX_LINES),
       chainAction := None)
  }

  /** What is written when the full record does not fit into storage. */
  function Compact(r: Record): Record {
    Serializable(r).(terminalLines := [], undoFiles := None, messages := LastOf(LastOf(r.messages, MAX_MESSAGES), 20))
  }

  function NotWorking(events: seq<Event>): (r: seq<Event>)
    ensures |r| <= |events|
    ensures forall e | e in r :: e.status != Working
    ensures r == events <==> forall e | e in events :: e.status != Working
  {
    if events == [] then []
    else
      var rest := NotWorking(events[1..]);
      assert events == [events[0]] + events[1..];
      if events[0].status == Working then rest else [events[0]] + rest
  }

  lemma {:induction false} NotWorkingExact(events: seq<Event>)
    ensures NotWorking(events) == Filter(events, (e: Event) => e.status != Working)
  {
    if events != [] {
      NotWorkingExact(events[1..]);
    }
  }

  /** A field of a stored object: of the expected type, or anything else. */
  datatype Field<T> = Wrong | Is(value: T)

  function Given<T>(f: Field<T>, otherwise: T): T { if f.Is? then f.value else otherwise }

  function Maybe<T>(f: Field<T>): Option<T> { if f.Is? then Some(f.value) else None }

  function FieldOf<T>(o: Option<T>): Field<T> { if o.Some? then Is(o.value) else Wrong }

  /** A stored value, before anything is known of it. */
  datatype Stored = NoObject | Object(
    messages: Field<seq<string>>,
    previousResponseId: Field<string>,
    patch: Option<string>,
    undoFiles: Field<seq<string>>,
    events: Field<seq<Event>>,
    terminalLines: Field<seq<string>>,
    stage: Field<Stage>,
    experimentDismissed: bool)

  /** What is read of a stored value; one without messages is dropped. */
  function ReadBack(v: Stored): Option<Record> {
    if v.NoObject? || v.messages.Wrong? then None
    else Some(Record(
      LastOf(v.messages.value, MAX_MESSAGES), Maybe(v.previousResponseId), v.patch, Maybe(v.undoFiles),
      FirstOf(NotWorking(Given(v.events, [])), MAX_EVENTS), LastOf(Given(v.terminalLines, []), MAX_LINES),
      Given(v.stage, Source), None, v.experimentDismissed))
  }

  function StoredOf(r: Record): Stored {
    Object(Is(r.messages), FieldOf(r.previousResponseId), r.patch, FieldOf(r.undoFiles), Is(r.events),
           Is(r.terminalLines), Is(r.stage), r.experimentDismissed)
  }

  /** What is accepted of a stored record. */
  function Sanitized(r: Record): (s: Record)
    ensures ReadBack(StoredOf(r)) == Some(s)
  {
    r.(messages := LastOf(r.messages, MAX_MESSAGES),
       events := FirstOf(NotWorking(r.events), MAX_EVENTS),
       terminalLines := LastOf(r.terminalLines, MAX_LINES),
       chainAction := None)
  }

  function Reload(r: Record): Record { Sanitized(Serializable(r)) }

  predicate Bounded(r: Record) {
    && |r.messages| <= MAX_MESSAGES && |r.events| <= MAX_EVENTS && |r.terminalLines| <= MAX_LINES
    && r.chainAction == None && forall e | e in r.events :: e.status != Working
  }

  /** A reload gives back the same record exactly when it is within bounds and
      nothing in it is in flight. */
  lemma ReloadSameIff(r: Record)
    ensures Reload(r) == r <==> Bounded(r)
  {
    var events := FirstOf(r.events, MAX_EVENTS);
    if Bounded(r) {
      assert NotWorking(events) == r.events;
    }
  }

  /** A reload keeps the newest 50 messages and 300 lines, the newest eight events but for
      those in flight, and all the rest but the action. */
  lemma ReloadExact(r: Record)
    ensures var q, m, l := Reload(r), |r.messages|, |r.terminalLines|;
            && q.messages == (if m <= 50 then r.messages else r.messages[m - 50..])
            && q.terminalLines == (if l <= 300 then r.terminalLines else r.terminalLines[l - 300..])
            && q.events == Filter(if |r.events| <= 8 then r.events else r.events[..8],
                                  (e: Event) => e.status != Working)
            && q == r.(messages := q.messages, terminalLines := q.terminalLines, events := q.events,
                       chainAction := None)
  {
    NotWorkingExact(FirstOf(r.events, MAX_EVENTS));
  }

  /** The compact form, written when the full one does not fit, has the newest 20 messages
      and neither terminal lines nor files to undo. */
  lemma CompactExact(r: Record)
    ensures var c, m := Compact(r), |r.messages|;
            && c.messages == (if m <= 20 then r.messages else r.messages[m - 20..])
            && c.terminalLines == [] && c.undoFiles == None
            && c == Serializable(r).(messages := c.messages, terminalLines := [], undoFiles := None)
  {
  }

  /** A stored field of the wrong type is read as nothing; without messages there is no record. */
  lemma WrongFields(v: Stored)
    ensures ReadBack(v).None? <==> v.NoObject? || v.messages.Wrong?
    ensures ReadBack(v).Some? ==>
              var r := ReadBack(v).value;
              && (v.events.Wrong? ==> r.events == []) && (v.terminalLines.Wrong? ==> r.terminalLines == [])
              && (v.stage.Wrong? ==> r.stage == Source) && r.chainAction == None
              && (v.previousResponseId.Wrong? ==> r.previousResponseId == None)
              && (v.undoFiles.Wrong? ==> r.undoFiles == None)
              && (forall q | StoredOf(q) == v :: r == Sanitized(q))
  {
  }

  /** Whatever was stored, in whatever shape, what is read of it is within bounds and is
      read again as it is once it has been saved, in full or in the compact form. */
  lemma ReloadStable(v: Stored)
    requires ReadBack(v).Some?
    ensures var r := ReadBack(v).value;
            && Bounded(r)
            && ReadBack(StoredOf(Serializable(r))) == Some(r)
            && ReadBack(StoredOf(Compact(r))) == Some(Compact(r))
  {
    var r := ReadBack(v).value;
    ReloadSameIff(r);
    ReloadSameIff(Compact(r));
    assert Serializable(Compact(r)) == Compact(r);
  }

  /** And reloading any record settles after one time. */
  lemma ReloadSettles(r: Record)
    ensures Bounded(Reload(r)) && Reload(Reload(r)) == Reload(r)
  {
    ReloadStable(StoredOf(Serializable(r)));
  }
}
