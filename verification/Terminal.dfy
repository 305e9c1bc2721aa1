/** Where terminal output goes, and which workspace is active, over runs. */
module Terminal {
  import opened Wrappers
  import opened Workspace
  import opened ActionSlot
  import opened BuildLog

  /** The workspace that has the terminal. */
  function TerminalOf(s: State): Name { if s.terminalOwner.Some? then s.terminalOwner.value else s.active }

  function LinesIn(s: State, name: Name): seq<string> { RecordOf(s, name).terminalLines }

  lemma RecordSet(s: State, t: State, name: Name, r: Record)
    requires t.records == s.records[name := r]
    ensures RecordOf(t, name) == r && forall other | other != name :: RecordOf(t, other) == RecordOf(s, other)
  {
    hide NewRecord;
  }

  lemma SameRecords(s: State, t: State)
    requires t.records == s.records
    ensures forall name :: RecordOf(t, name) == RecordOf(s, name)
  {
    hide NewRecord;
  }

  lemma PrintRecords(s: State, message: string)
    ensures var t, r := Next(s, Printed(message)), RecordOf(s, TerminalOf(s));
            t.records == if CleanLines(message) == [] then s.records
                         else s.records[TerminalOf(s) :=
                           r.(terminalLines := LastOf(r.terminalLines + CleanLines(message), 300))]
  {
    hide CleanLines, LastOf, RecordOf;
  }

  /** What is printed goes to the workspace that has the terminal, and there to the last
      300 lines alone. */
  lemma PrintedExact(s: State, message: string)
    requires |LinesIn(s, TerminalOf(s))| <= 300
    ensures var t, name := Next(s, Printed(message)), TerminalOf(s);
            var all := LinesIn(s, name) + CleanLines(message);
            && LinesIn(t, name) == (if |all| <= 300 then all else all[|all| - 300..])
            && RecordOf(t, name) == RecordOf(s, name).(terminalLines := LinesIn(t, name))
            && (forall other | other != name :: RecordOf(t, other) == RecordOf(s, other))
  {
    PrintRecords(s, message);
    var t := Next(s, Printed(message));
    hide CleanLines, Next, Enabled, RecordOf, TerminalOf;
    if CleanLines(message) == [] {
      SameRecords(s, t);
      assert LinesIn(s, TerminalOf(s)) + [] == LinesIn(s, TerminalOf(s));
    } else {
      RecordSet(s, t, TerminalOf(s), t.records[TerminalOf(s)]);
    }
  }

  /** At most the record of `n` was set, and its lines stayed. */
  ghost predicate LinesStay(s: State, t: State, n: Name) {
    || t.records == s.records
    || (n in t.records && t.records == s.records[n := t.records[n]] && t.records[n].terminalLines == LinesIn(s, n))
  }

  lemma DoneRecords(s: State, name: Name, result: BuildResult)
    ensures LinesStay(s, BuildDone(s, name, result), name)
  {
    hide AddEvent, Diagnostic, RecordOf;
  }

  lemma CommandRecords(s: State, open: Name, failed: bool)
    ensures LinesStay(s, CommandDone(s, open, failed), open)
  {
    hide AddEvent, RecordOf;
  }

  lemma StartRecords(s: State, step: Step)
    requires Enabled(s, step) && step.BuildStarts?
    ensures LinesStay(s, Next(s, step), step.workspace)
  {
    hide AddEvent, NewRecord;
  }

  lemma StepRecords(s: State, step: Step) returns (n: Name)
    requires Enabled(s, step) && !step.Printed?
    ensures LinesStay(s, Next(s, step), n)
  {
    match step
    case BuildStarts(_, name, _) =>
      n := name;
      StartRecords(s, step);
    case BuildEnds(id, result) =>
      n := s.flights[id].building.value;
      DoneRecords(Building(s, id, None), n, result);
      hide BuildDone, NewRecord;
    case CommandEnds(id, open, failed) =>
      n := open;
      CommandRecords(s.(commands := s.commands - {id}), open, failed);
      hide CommandDone, NewRecord;
    case Run(_, _) =>
      n := s.active;
      hide NewRecord;
    case End(id) =>
      n := s.flights[id].workspace;
      hide NewRecord;
    case InlineOn(name) =>
      n := name;
      hide NewRecord;
    case InlineOff(name) =>
      n := name;
      hide NewRecord;
    case Navigate(name) => n := name;
    case CommandStarts(_, open) => n := open;
  }

  /** Nothing else changes what a terminal shows. */
  lemma OnlyPrinting(s: State, step: Step, name: Name)
    requires Enabled(s, step) && !step.Printed?
    ensures LinesIn(Next(s, step), name) == LinesIn(s, name)
  {
    var n := StepRecords(s, step);
    var t := Next(s, step);
    hide Next, Enabled, RecordOf;
    if t.records == s.records {
      SameRecords(s, t);
    } else {
      RecordSet(s, t, n, t.records[n]);
    }
  }

  /** The one action in flight, of the workspace `name`, has the terminal. */
  ghost predicate HasTerminal(s: State, id: nat, name: Name) {
    && SlotAgrees(s) && OneInFlight(s) && HasSlot(s, id) && s.flights[id].workspace == name
    && |LinesIn(s, name)| <= MAX_LINES
  }

  lemma OwnsTerminal(s: State, id: nat, name: Name)
    requires HasTerminal(s, id, name)
    ensures s.terminalOwner == Some(name) && TerminalOf(s) == name && s.flights.Keys == {id}
  {
  }

  lemma TerminalStep(s: State, step: Step, id: nat, name: Name)
    requires HasTerminal(s, id, name) && Enabled(s, step)
    requires !step.InlineOn? && !step.InlineOff? && !(step.End? && step.id == id)
    ensures HasTerminal(Next(s, step), id, name)
    ensures LinesIn(Next(s, step), name) == Logged(LinesIn(s, name), step)
  {
    OwnsTerminal(s, id, name);
    StepKeepsAgreement(s, step);
    StepKeepsOne(s, step);
    StepKeepsFlight(s, step, id);
    SlotStays(s, step, id);
    hide SlotAgrees, OneInFlight, CleanLines, Next, Enabled, LinesIn;
    if step.Printed? {
      PrintedExact(s, step.message);
    } else {
      OnlyPrinting(s, step, name);
    }
  }

  lemma OtherStep(s: State, step: Step, id: nat, name: Name, other: Name)
    requires HasTerminal(s, id, name) && Enabled(s, step) && other != name
    ensures LinesIn(Next(s, step), other) == LinesIn(s, other)
  {
    OwnsTerminal(s, id, name);
    if step.Printed? {
      PrintedExact(s, step.message);
    } else {
      OnlyPrinting(s, step, other);
    }
    hide *;
  }

  lemma SlotStays(s: State, step: Step, id: nat)
    requires HasSlot(s, id) && Enabled(s, step) && !step.InlineOn? && !step.InlineOff? && !(step.End? && step.id == id)
    requires s.slot.value.token.Chain?
    ensures HasSlot(Next(s, step), id)
  {
    hide Noted, ActionSlot.Print, BuildDone, CommandDone, NewRecord;
  }

  /** However often the user navigates while an action runs, all that is printed until it
      ends is in the terminal of its workspace, cut to the last 300 lines. */
  lemma {:induction false} TerminalStaysHome(s: State, steps: seq<Step>, t: State, id: nat, name: Name)
    requires HasTerminal(s, id, name) && Leads(s, steps, t) && NoInline(steps) && NotEnded(steps, id)
    ensures LinesIn(t, name) == LastOf(LinesIn(s, name) + AllLines(Messages(steps)), MAX_LINES)
    decreases steps
  {
    if steps == [] {
      assert LinesIn(s, name) + [] == LinesIn(s, name);
    } else {
      TerminalStep(s, steps[0], id, name);
      assert NoInline(steps[1..]) && NotEnded(steps[1..], id);
      hide Next, Enabled, HasTerminal, LinesIn, LastOf, AllLines, Messages, NoInline, NotEnded, Logged;
      TerminalStaysHome(Next(s, steps[0]), steps[1..], t, id, name);
      LoggedMore(LinesIn(s, name), steps);
    }
  }

  /** And in no other. */
  lemma {:induction false} OthersKeepTerminal(
    s: State, steps: seq<Step>, t: State, id: nat, name: Name, other: Name)
    requires HasTerminal(s, id, name) && Leads(s, steps, t) && NoInline(steps) && NotEnded(steps, id)
    requires other != name
    ensures LinesIn(t, other) == LinesIn(s, other)
    decreases steps
  {
    if steps != [] {
      TerminalStep(s, steps[0], id, name);
      OtherStep(s, steps[0], id, name, other);
      assert NoInline(steps[1..]) && NotEnded(steps[1..], id);
      hide Next, Enabled, HasTerminal, LinesIn, NoInline, NotEnded, Logged;
      OthersKeepTerminal(Next(s, steps[0]), steps[1..], t, id, name, other);
    }
  }

  /** From the start of an action, in any workspace, until it ends. */
  lemma ActionOwnsTerminal(s: State, id: nat, action: Action, steps: seq<Step>, t: State)
    requires SlotAgrees(s) && OneInFlight(s) && s.slot.None? && |LinesIn(s, s.active)| <= MAX_LINES
    requires Enabled(s, Run(id, action)) && Leads(Next(s, Run(id, action)), steps, t)
    requires NoInline(steps) && NotEnded(steps, id)
    ensures LinesIn(t, s.active) == LastOf(LinesIn(s, s.active) + AllLines(Messages(steps)), MAX_LINES)
    ensures forall other | other != s.active :: LinesIn(t, other) == LinesIn(s, other)
  {
    var u := Next(s, Run(id, action));
    StartsWithTerminal(s, id, action);
    hide Next, Leads, HasTerminal, LinesIn, AllLines, Messages, LastOf, Enabled, SlotAgrees, OneInFlight;
    OnlyPrinting(s, Run(id, action), s.active);
    TerminalStaysHome(u, steps, t, id, s.active);
    forall other | other != s.active ensures LinesIn(t, other) == LinesIn(s, other) {
      OnlyPrinting(s, Run(id, action), other);
      OthersKeepTerminal(u, steps, t, id, s.active, other);
    }
  }

  lemma StartsWithTerminal(s: State, id: nat, action: Action)
    requires SlotAgrees(s) && OneInFlight(s) && s.slot.None? && |LinesIn(s, s.active)| <= MAX_LINES
    requires Enabled(s, Run(id, action))
    ensures HasTerminal(Next(s, Run(id, action)), id, s.active)
  {
    StepKeepsAgreement(s, Run(id, action));
    StepKeepsOne(s, Run(id, action));
    hide NewRecord;
  }

  // ----- The active workspace -----

  /** The workspace navigated to last is the active one. */
  lemma {:induction false} LastNavigated(s: State, steps: seq<Step>, t: State)
    requires Leads(s, steps, t)
    ensures (forall i | 0 <= i < |steps| :: !steps[i].Navigate?) ==> t.active == s.active
    ensures forall i | 0 <= i < |steps| && steps[i].Navigate? && (forall j | i < j < |steps| :: !steps[j].Navigate?) ::
              t.active == steps[i].workspace
    decreases steps
  {
    if steps != [] {
      var rest := steps[1..];
      LastNavigated(Next(s, steps[0]), rest, t);
      Active(s, steps[0]);
      hide Next, Enabled;
      assert forall i | 0 < i < |steps| :: steps[i] == rest[i - 1];
      forall i | 0 <= i < |steps| && steps[i].Navigate? && (forall j | i < j < |steps| :: !steps[j].Navigate?)
        ensures t.active == steps[i].workspace
      {
        if i > 0 {
          assert rest[i - 1] == steps[i];
        }
      }
    }
  }

  lemma Active(s: State, step: Step)
    requires Enabled(s, step)
    ensures Next(s, step).active == if step.Navigate? then step.workspace else s.active
  {
    hide Noted, ActionSlot.Print, BuildDone, CommandDone, NewRecord;
  }
}
