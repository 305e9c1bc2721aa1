/** Builds whose output or outcome goes astray. */
module BuildLog {
  // Those typed into the terminal take no slot, and those of actions share one log.

  import opened Text
  import opened Wrappers
  import opened Workspace
  import opened ActionSlot

  // ----- Builds typed into the terminal -----

  /** The stage of every workspace but `home` is as it was. */
  ghost predicate StagesKept(s: State, t: State, home: Name) {
    forall name | name != home :: RecordOf(t, name).stage == RecordOf(s, name).stage
  }

  /** A command that ends writes its stage to the open workspace and no other. */
  lemma CommandStep(s: State, id: nat, open: Name, failed: bool)
    requires Enabled(s, CommandEnds(id, open, failed))
    ensures var t := Next(s, CommandEnds(id, open, failed));
            && RecordOf(t, open).stage == (if failed then Source else Built)
            && (s.slot.Some? && s.slot.value.action == Build ==>
                  RecordOf(t, open).events == RecordOf(s, open).events)
            && (!(s.slot.Some? && s.slot.value.action == Build) ==>
                  RecordOf(t, open).events == AddEvent(RecordOf(s, open).events,
                    if failed then Event(BuildEvent, Failed, BUILD_FAILED)
                    else Event(BuildEvent, Succeeded, BUILD_COMPLETE)))
            && forall name | name != open :: RecordOf(t, name) == RecordOf(s, name)
  {
    hide AddEvent;
  }

  lemma CommandStepKept(s: State, step: Step, id: nat)
    requires Enabled(s, step) && id in s.commands && !(step.CommandEnds? && step.id == id)
    ensures id in Next(s, step).commands && Next(s, step).commands[id] == s.commands[id]
  {
    hide Noted, ActionSlot.Print, BuildDone, CommandDone, NewRecord;
  }

  predicate CommandNotEnded(steps: seq<Step>, id: nat) {
    forall i | 0 <= i < |steps| :: !(steps[i].CommandEnds? && steps[i].id == id)
  }

  /** A command that has not ended is the one that was started. */
  lemma {:induction false} CommandKept(s: State, steps: seq<Step>, t: State, id: nat)
    requires Leads(s, steps, t) && id in s.commands && CommandNotEnded(steps, id)
    ensures id in t.commands && t.commands[id] == s.commands[id]
    decreases steps
  {
    if steps != [] {
      CommandStepKept(s, steps[0], id);
      assert CommandNotEnded(steps[1..], id);
      hide Next, Enabled;
      CommandKept(Next(s, steps[0]), steps[1..], t, id);
    }
  }

  /** Whatever happens between the start and the end of a build typed into the terminal,
      its end leaves the stages of the workspaces it did not build as they were exactly
      when the workspace it was started in is the open one, or the open one has that
      stage already. */
  lemma CommandStaysHomeIff(s: State, id: nat, home: Name, steps: seq<Step>, t: State, open: Name, failed: bool)
    requires Enabled(s, CommandStarts(id, home)) && Leads(Next(s, CommandStarts(id, home)), steps, t)
    requires CommandNotEnded(steps, id)
    ensures Enabled(t, CommandEnds(id, open, failed))
    ensures StagesKept(t, Next(t, CommandEnds(id, open, failed)), home)
       <==> (open == home || RecordOf(t, open).stage == (if failed then Source else Built))
  {
    CommandKept(Next(s, CommandStarts(id, home)), steps, t, id);
    CommandStep(t, id, open, failed);
    hide Next, RecordOf, Leads;
  }

  /** A build started in one workspace and ended in another marks the wrong one as built. */
  lemma CommandLeavesHome(home: Name, other: Name, id: nat)
    requires home != other
    ensures var s := Next(Start(home, map[]), CommandStarts(id, home));
            var t := Next(s, Navigate(other));
            var u := Next(t, CommandEnds(id, other, false));
            RecordOf(u, other).stage == Built && RecordOf(u, home).stage == Source
  {
  }

  // ----- The build log -----

  predicate Builds(s: State, id: nat, name: Name) {
    id in s.flights && s.flights[id].building == Some(name)
  }

  /** Every build in progress has the log. */
  ghost predicate LogKept(s: State) {
    forall id, name | Builds(s, id, name) :: s.buildLog.Some? && s.buildLog.value.0 == name
  }

  /** A build that starts finds no other workspace being built, and one that ends leaves
      no build behind. */
  ghost predicate LeavesLog(s: State, step: Step)
    requires Enabled(s, step)
  {
    && (step.BuildStarts? && step.open == step.workspace ==> forall o, n | Builds(s, o, n) :: n == step.workspace)
    && (step.BuildEnds? ==> forall o, n | Builds(s, o, n) :: o == step.id)
  }

  /** The one log stays with the builds in progress exactly then. */
  lemma LogKeptIff(s: State, step: Step)
    requires LogKept(s) && Enabled(s, step)
    ensures LogKept(Next(s, step)) <==> LeavesLog(s, step)
  {
    var t := Next(s, step);
    match step
    case BuildStarts(id, name, open) => LogAtStart(s, step);
    case BuildEnds(id, _) => LogAtEnd(s, step);
    case _ =>
      forall o, n ensures Builds(t, o, n) ==> Builds(s, o, n) {
        OtherBuilds(s, step, o, n);
      }
      LogUntouched(s, step);
  }

  lemma OtherBuilds(s: State, step: Step, o: nat, n: Name)
    requires Enabled(s, step) && !step.BuildStarts? && !step.BuildEnds?
    ensures Builds(Next(s, step), o, n) ==> Builds(s, o, n)
  {
    hide Noted, ActionSlot.Print, BuildDone, CommandDone, NewRecord;
  }

  lemma LogUntouched(s: State, step: Step)
    requires Enabled(s, step) && !step.BuildStarts? && !step.BuildEnds?
    ensures var log := Next(s, step).buildLog;
            log.Some? == s.buildLog.Some? && (log.Some? ==> log.value.0 == s.buildLog.value.0)
  {
    hide Noted, CleanLines, Workspace.Print, NewRecord, Diagnostic;
  }

  lemma LogAtStart(s: State, step: Step)
    requires LogKept(s) && Enabled(s, step) && step.BuildStarts?
    ensures LogKept(Next(s, step)) <==>
              (step.open == step.workspace ==> forall o, n | Builds(s, o, n) :: n == step.workspace)
  {
    hide Noted, NewRecord;
    if step.open == step.workspace {
      var t := Next(s, step);
      assert t.buildLog == Some((step.workspace, []));
      assert forall o, n :: Builds(t, o, n) <==> Builds(s, o, n) || (o == step.id && n == step.workspace);
    }
  }

  lemma LogAtEnd(s: State, step: Step)
    requires LogKept(s) && Enabled(s, step) && step.BuildEnds?
    ensures LogKept(Next(s, step)) <==> forall o, n | Builds(s, o, n) :: o == step.id
  {
    hide Noted, NewRecord, Diagnostic;
    var t := Next(s, step);
    assert t.buildLog == None;
    assert forall o, n :: Builds(t, o, n) <==> Builds(s, o, n) && o != step.id;
  }

  /** A log belongs to the action in the slot, which is building its workspace. */
  ghost predicate LogOwned(s: State) {
    s.buildLog.Some? ==>
      && s.slot.Some? && s.slot.value.token.Chain?
      && Builds(s, s.slot.value.token.id, s.buildLog.value.0)
  }

  lemma LogOwnedStep(s: State, step: Step)
    requires OneInFlight(s) && LogOwned(s) && Enabled(s, step) && !step.InlineOn? && !step.InlineOff?
    ensures LogOwned(Next(s, step))
  {
    if !step.BuildStarts? && !step.BuildEnds? {
      LogUntouched(s, step);
    }
    hide Noted, ActionSlot.Print, BuildDone, CommandDone, NewRecord;
  }

  /** Without inline interactions no build ever loses its log, and the log always
      belongs to the action in the slot. */
  lemma {:induction false} LogAlwaysKept(s: State, steps: seq<Step>, t: State)
    requires OneInFlight(s) && LogKept(s) && LogOwned(s) && Leads(s, steps, t) && NoInline(steps)
    ensures LogKept(t) && LogOwned(t)
    decreases steps
  {
    if steps != [] {
      StepKeepsOne(s, steps[0]);
      LogKeptIff(s, steps[0]);
      LogOwnedStep(s, steps[0]);
      assert NoInline(steps[1..]);
      hide Next, LogKept, LogOwned;
      LogAlwaysKept(Next(s, steps[0]), steps[1..], t);
    }
  }

  function Messages(steps: seq<Step>): seq<string> {
    if steps == [] then [] else (if steps[0].Printed? then [steps[0].message] else []) + Messages(steps[1..])
  }

  /** A build of the workspace that has the slot, with what has been logged for it. */
  ghost predicate Logging(s: State, id: nat, name: Name, lines: seq<string>) {
    && SlotAgrees(s) && OneInFlight(s) && HasSlot(s, id)
    && Builds(s, id, name) && s.flights[id].workspace == name && s.buildLog == Some((name, lines))
  }

  lemma LogGrows(s: State, step: Step, id: nat, name: Name, lines: seq<string>)
    requires Logging(s, id, name, lines) && Enabled(s, step) && |lines| <= MAX_LINES
    requires !step.InlineOn? && !step.InlineOff? && !(step.BuildEnds? && step.id == id)
    ensures Logging(Next(s, step), id, name, Logged(lines, step))
  {
    StepKeepsAgreement(s, step);
    StepKeepsOne(s, step);
    hide Noted, Workspace.Print, NewRecord, CleanLines, SlotAgrees, OneInFlight;
    if step.Printed? && CleanLines(step.message) == [] {
      assert lines + CleanLines(step.message) == lines;
    }
    assert s.terminalOwner == Some(name) by {
      Owner(s, id, name, lines);
    }
    assert s.flights.Keys == {id} by {
      Owner(s, id, name, lines);
    }
  }

  lemma Owner(s: State, id: nat, name: Name, lines: seq<string>)
    requires Logging(s, id, name, lines)
    ensures s.terminalOwner == Some(name) && s.flights.Keys == {id}
  {
  }

  function Logged(lines: seq<string>, step: Step): seq<string> {
    if step.Printed? then LastOf(lines + CleanLines(step.message), MAX_LINES) else lines
  }

  /** The lines of what one step prints. */
  function LinesOf(step: Step): seq<string> { if step.Printed? then CleanLines(step.message) else [] }

  lemma LinesFirst(message: string, rest: seq<string>)
    ensures AllLines([message] + rest) == CleanLines(message) + AllLines(rest)
  {
    hide CleanLines;
    assert ([message] + rest)[1..] == rest;
  }

  lemma MessagesStep(steps: seq<Step>)
    requires steps != []
    ensures AllLines(Messages(steps)) == LinesOf(steps[0]) + AllLines(Messages(steps[1..]))
  {
    var rest := Messages(steps[1..]);
    assert Messages(steps) == (if steps[0].Printed? then [steps[0].message] else []) + rest;
    hide CleanLines, AllLines, Messages;
    if steps[0].Printed? {
      LinesFirst(steps[0].message, rest);
    } else {
      assert [] + rest == rest && [] + AllLines(rest) == AllLines(rest);
    }
  }

  lemma LoggedMore(lines: seq<string>, steps: seq<Step>)
    requires steps != []
    ensures LastOf(Logged(lines, steps[0]) + AllLines(Messages(steps[1..])), MAX_LINES)
         == LastOf(lines + AllLines(Messages(steps)), MAX_LINES)
  {
    hide CleanLines, AllLines, Messages, LastOf;
    MessagesStep(steps);
    var rest := AllLines(Messages(steps[1..]));
    if steps[0].Printed? {
      var more := CleanLines(steps[0].message);
      WindowOfWindow(lines + more, rest, MAX_LINES);
      assert lines + more + rest == lines + (more + rest);
    } else {
      assert [] + rest == rest;
    }
  }

  /** And its log is, all the time, the last 300 lines printed since it started. */
  lemma {:induction false} LogIsWhatWasPrinted(
    s: State, steps: seq<Step>, t: State, id: nat, name: Name, lines: seq<string>)
    requires Logging(s, id, name, lines) && |lines| <= MAX_LINES
    requires Leads(s, steps, t) && NoInline(steps) && BuildNotEnded(steps, id)
    ensures t.buildLog == Some((name, LastOf(lines + AllLines(Messages(steps)), MAX_LINES)))
    decreases steps
  {
    if steps == [] {
      assert lines + [] == lines;
    } else {
      LogGrows(s, steps[0], id, name, lines);
      assert NoInline(steps[1..]) && BuildNotEnded(steps[1..], id);
      assert |Logged(lines, steps[0])| <= MAX_LINES;
      LoggedMore(lines, steps);
      hide Next, Enabled, Logging, Logged, LastOf, AllLines, Messages, NoInline, BuildNotEnded;
      LogIsWhatWasPrinted(Next(s, steps[0]), steps[1..], t, id, name, Logged(lines, steps[0]));
    }
  }

  /** When it fails, its workspace shows them, trimmed, with the error after them. */
  lemma FailedBuildShowsLog(s: State, steps: seq<Step>, t: State, id: nat, name: Name, message: string)
    requires Logging(s, id, name, []) && Leads(s, steps, t) && NoInline(steps) && BuildNotEnded(steps, id)
    ensures Enabled(t, BuildEnds(id, BuildFailed(message)))
    ensures var u := Next(t, BuildEnds(id, BuildFailed(message)));
            var output := Trim(JoinLines(LastOf(AllLines(Messages(steps)), MAX_LINES)));
            var error := if message == "" then BUILD_FAILED_ERROR else message;
            && name in u.records && u.records[name].stage == Source && u.records[name].events != []
            && u.records[name].events[0]
                 == Event(BuildEvent, Failed,
                          if output == "" then error
                          else if Occurs(output, error) then output
                          else output + "\n\n" + error)
  {
    BuildingKept(s, steps, t, id);
    LogIsWhatWasPrinted(s, steps, t, id, name, []);
    var lines := LastOf(AllLines(Messages(steps)), MAX_LINES);
    assert [] + AllLines(Messages(steps)) == AllLines(Messages(steps));
    DiagnosticExact(t, name, lines, message);
    BuildStepFrame(t, id, BuildEnds(id, BuildFailed(message)));
    hide Next, Leads, Logging, Diagnostic, Occurs, LastOf, AllLines, Messages, Trim, JoinLines, OnlyFor, AddEvent;
  }
}
