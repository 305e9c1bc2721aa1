/** The slot for the action in flight, and navigation. */
module ActionSlot {
  // There is one slot, a terminal owner, and a record for each workspace. Actions are
  // asynchronous, so between the start and the end of one anything else may happen.

  import opened Wrappers
  import opened Text
  import opened Workspace

  type Name = string

  /** Each started action is an object of its own; finishers compare identities. */
  datatype Token = Chain(id: nat) | Inline

  datatype Slot = Slot(token: Token, action: Action, workspace: Name)

  /** An action in flight, bound to the workspace that was active when it started, and
      the workspace that it is building. */
  datatype Flight = Flight(action: Action, workspace: Name, building: Option<Name>)

  datatype State = State(
    slot: Option<Slot>,
    terminalOwner: Option<Name>,
    background: Option<Slot>,
    active: Name,
    records: map<Name, Record>,
    idls: map<Name, string>,
    buildLog: Option<(Name, seq<string>)>,
    flights: map<nat, Flight>,
    commands: map<nat, Name>)

  function Start(active: Name, records: map<Name, Record>): State {
    State(None, None, None, active, records, map[], None, map[], map[])
  }

  const BUILDING := "Building the program"
  const BUILD_COMPLETE := "Build complete"
  const BUILD_FAILED := "Build failed"
  const BUILD_FAILED_ERROR := "Build failed."
  const BLANK_LINE := "\n\n"

  /** How a build ends. */
  datatype BuildResult = BuildOk(idl: Option<string>) | BuildFailed(message: string)

  /** `open` is the workspace that the explorer shows. A command is a build typed into
      the terminal; it takes no slot. */
  datatype Step =
    | Run(id: nat, action: Action)
    | BuildStarts(id: nat, workspace: Name, open: Name)
    | BuildEnds(id: nat, result: BuildResult)
    | CommandStarts(id: nat, open: Name)
    | CommandEnds(id: nat, open: Name, failed: bool)
    | End(id: nat)
    | InlineOn(workspace: Name)
    | InlineOff(workspace: Name)
    | Navigate(workspace: Name)
    | Printed(message: string)

  /** The record of a workspace; one that is not known yet is created. */
  function RecordOf(s: State, name: Name): Record {
    if name in s.records then s.records[name] else NewRecord(name)
  }

  function SetRecord(s: State, name: Name, r: Record): State {
    s.(records := s.records[name := r])
  }

  function SetChainAction(s: State, name: Name, action: Option<Action>): State {
    SetRecord(s, name, RecordOf(s, name).(chainAction := action))
  }

  function Taken(s: State, slot: Slot): State {
    SetChainAction(
      s.(slot := Some(slot), terminalOwner := Some(slot.workspace), background := Some(slot)),
      slot.workspace, Some(slot.action))
  }

  function Cleared(s: State, name: Name): State {
    SetChainAction(s.(slot := None, terminalOwner := None, background := None), name, None)
  }

  function Noted(r: Record, stage: Stage, status: Status, text: string): (n: Record)
    ensures n.stage == stage && n.chainAction == r.chainAction
  {
    r.(stage := stage, events := AddEvent(r.events, Event(BuildEvent, status, text)))
  }

  predicate Enabled(s: State, step: Step) {
    match step
    case Run(id, _) => id !in s.flights && (s.slot.Some? ==> s.slot.value.token != Chain(id))
    case BuildStarts(id, name, _) =>
      id in s.flights && s.flights[id].building == None
      && name == if s.flights[id].action == Build then s.flights[id].workspace else s.active
    case BuildEnds(id, _) => id in s.flights && s.flights[id].building.Some?
    case CommandStarts(id, _) => id !in s.commands
    case CommandEnds(id, _, _) => id in s.commands
    case End(id) => id in s.flights && s.flights[id].building == None
    case _ => true
  }

  function Next(s: State, step: Step): State
    requires Enabled(s, step)
  {
    match step
    case Run(id, action) =>
      if s.slot.Some? then s
      else Taken(s.(flights := s.flights[id := Flight(action, s.active, None)]), Slot(Chain(id), action, s.active))
    case BuildStarts(id, name, open) =>
      if open != name then s
      else
        SetRecord(Building(s.(buildLog := Some((name, []))), id, Some(name)), name,
                  Noted(RecordOf(s, name), Source, Working, BUILDING))
    case BuildEnds(id, result) => BuildDone(Building(s, id, None), s.flights[id].building.value, result)
    case CommandStarts(id, open) => s.(commands := s.commands[id := open])
    case CommandEnds(id, open, failed) =>
      CommandDone(s.(commands := s.commands - {id}), open, failed)
    case End(id) =>
      var t := s.(flights := s.flights - {id});
      if s.slot.Some? && s.slot.value.token == Chain(id) then Cleared(t, s.flights[id].workspace) else t
    case InlineOn(name) => Taken(s, Slot(Inline, Interact, name))
    case InlineOff(name) =>
      if s.slot.Some? && s.slot.value.action == Interact && s.slot.value.workspace == name then Cleared(s, name) else s
    case Navigate(name) => SetRecord(s.(active := name), name, RecordOf(s, name))
    case Printed(message) => Print(s, message)
  }

  function Building(s: State, id: nat, name: Option<Name>): State
    requires id in s.flights
  {
    s.(flights := s.flights[id := s.flights[id].(building := name)])
  }

  /** No record shows another action than before. */
  ghost predicate SameActions(s: State, t: State) {
    && s.records.Keys <= t.records.Keys
    && forall name | name in t.records :: t.records[name].chainAction == RecordOf(s, name).chainAction
  }

  function BuildDone(s: State, name: Name, result: BuildResult): (t: State)
    ensures t == s.(records := t.records, idls := t.idls, buildLog := None)
    ensures SameActions(s, t)
  {
    match result
    case BuildOk(idl) =>
      SetRecord(
        s.(idls := if idl.Some? then s.idls[name := idl.value] else s.idls, buildLog := None),
        name, Noted(RecordOf(s, name), Built, Succeeded, BUILD_COMPLETE))
    case BuildFailed(message) =>
      SetRecord(s.(buildLog := None), name, Noted(RecordOf(s, name), Source, Failed, Diagnostic(s, name, message)))
  }

  predicate Contains(text: string, part: string) {
    part <= text || (text != "" && Contains(text[1..], part))
  }

  /** What is shown of a failed build: its log, and the error when the log has it not. */
  function Diagnostic(s: State, name: Name, message: string): string {
    var output := if s.buildLog.Some? && s.buildLog.value.0 == name then Trim(JoinLines(s.buildLog.value.1)) else "";
    var error := if message == "" then BUILD_FAILED_ERROR else message;
    if output == "" then error
    else if Contains(output, error) then output
    else output + BLANK_LINE + error
  }

  /** `part` occurs in `text`. */
  ghost predicate Occurs(text: string, part: string) {
    exists before, after :: text == before + part + after
  }

  lemma {:induction false} ContainsIff(text: string, part: string)
    ensures Contains(text, part) <==> Occurs(text, part)
    decreases text
  {
    if part <= text {
      assert text == "" + part + text[|part|..];
    } else if text != "" {
      ContainsIff(text[1..], part);
      if Occurs(text[1..], part) {
        var before, after :| text[1..] == before + part + after;
        assert text == [text[0]] + before + part + after;
      }
      if Occurs(text, part) {
        var before, after :| text == before + part + after;
        assert before == "" ==> text == part + after;
        assert text[1..] == before[1..] + part + after;
      }
    }
  }

  /** A failed build shows its trimmed log, and after it the error unless the log has it. */
  lemma DiagnosticExact(s: State, name: Name, lines: seq<string>, message: string)
    requires s.buildLog == Some((name, lines))
    ensures var error := if message == "" then BUILD_FAILED_ERROR else message;
            var output := Trim(JoinLines(lines));
            Diagnostic(s, name, message)
              == if output == "" then error
                 else if Occurs(output, error) then output
                 else output + "\n\n" + error
  {
    hide Occurs, Contains, Trim, JoinLines;
    ContainsIff(Trim(JoinLines(lines)), if message == "" then BUILD_FAILED_ERROR else message);
  }

  /** The stage goes to the workspace that is open; so does the event, unless an action
      is building. */
  function CommandDone(s: State, open: Name, failed: bool): (t: State)
    ensures t == s.(records := t.records)
    ensures SameActions(s, t)
  {
    var stage := if failed then Source else Built;
    var r := RecordOf(s, open);
    SetRecord(s, open,
      if s.slot.Some? && s.slot.value.action == Build then r.(stage := stage)
      else Noted(r, stage, if failed then Failed else Succeeded, if failed then BUILD_FAILED else BUILD_COMPLETE))
  }

  /** Terminal output goes to the terminal's owner, or else to the active workspace. */
  function Print(s: State, message: string): (t: State)
    ensures t == s.(records := t.records, buildLog := t.buildLog)
    ensures SameActions(s, t)
  {
    var lines := CleanLines(message);
    if lines == [] then s
    else
      var name := if s.terminalOwner.Some? then s.terminalOwner.value else s.active;
      var t := SetRecord(s, name, Workspace.Print(RecordOf(s, name), message));
      if s.buildLog.Some? && s.buildLog.value.0 == name
      then t.(buildLog := Some((name, LastOf(s.buildLog.value.1 + lines, MAX_LINES))))
      else t
  }

  predicate Leads(s: State, steps: seq<Step>, t: State)
    decreases steps
  {
    if steps == [] then s == t
    else Enabled(s, steps[0]) && Leads(Next(s, steps[0]), steps[1..], t)
  }

  // ----- The slot -----

  predicate Holds(f: Flight, slot: Slot) { f.action == slot.action && f.workspace == slot.workspace }

  /** The slot, the terminal owner and the background action tell the same story. */
  ghost predicate SlotAgrees(s: State) {
    && s.background == s.slot
    && s.terminalOwner == (if s.slot.Some? then Some(s.slot.value.workspace) else None)
    && (s.slot.Some? ==> s.slot.value.workspace in s.records)
    && (s.slot.Some? && s.slot.value.token.Chain? ==>
          s.slot.value.token.id in s.flights
          && Holds(s.flights[s.slot.value.token.id], s.slot.value))
  }

  lemma StepKeepsAgreement(s: State, step: Step)
    requires SlotAgrees(s) && Enabled(s, step)
    ensures SlotAgrees(Next(s, step))
  {
    hide Noted, Print, BuildDone, CommandDone, NewRecord;
  }

  lemma {:induction false} SlotAlwaysAgrees(s: State, steps: seq<Step>, t: State)
    requires SlotAgrees(s) && Leads(s, steps, t)
    ensures SlotAgrees(t)
    decreases steps
  {
    if steps != [] {
      StepKeepsAgreement(s, steps[0]);
      hide SlotAgrees, Next, Enabled;
      SlotAlwaysAgrees(Next(s, steps[0]), steps[1..], t);
    }
  }

  predicate NotEnded(steps: seq<Step>, id: nat) {
    forall i | 0 <= i < |steps| :: !(steps[i].End? && steps[i].id == id)
  }

  predicate HasSlot(s: State, id: nat) { s.slot.Some? && s.slot.value.token == Chain(id) }

  lemma NoSlotRegained(s: State, step: Step, id: nat)
    requires Enabled(s, step) && id in s.flights && !HasSlot(s, id)
    ensures !HasSlot(Next(s, step), id)
  {
    hide Noted, Print, BuildDone, CommandDone, NewRecord;
  }

  /** Once its slot has been taken over an action never gets it back, whatever follows,
      so its finisher clears nothing of a successor, nor anything else. */
  lemma {:induction false} StaleFinisherHarmless(s: State, steps: seq<Step>, t: State, id: nat)
    requires Leads(s, steps, t) && id in s.flights && !HasSlot(s, id) && NotEnded(steps, id)
    requires Enabled(t, End(id))
    ensures Next(t, End(id)) == t.(flights := t.flights - {id})
    decreases steps
  {
    if steps != [] {
      NoSlotRegained(s, steps[0], id);
      StepKeepsFlight(s, steps[0], id);
      assert NotEnded(steps[1..], id);
      hide Next, Enabled;
      StaleFinisherHarmless(Next(s, steps[0]), steps[1..], t, id);
    }
  }

  predicate NoInline(steps: seq<Step>) {
    forall i | 0 <= i < |steps| :: !steps[i].InlineOn? && !steps[i].InlineOff?
  }

  /** The action in flight, if there is one, is the one in the slot. */
  ghost predicate OneInFlight(s: State) {
    if s.slot.None? then s.flights == map[]
    else s.slot.value.token.Chain?
         && s.flights.Keys == {s.slot.value.token.id} && Holds(s.flights[s.slot.value.token.id], s.slot.value)
  }

  lemma StepKeepsOne(s: State, step: Step)
    requires OneInFlight(s) && Enabled(s, step) && !step.InlineOn? && !step.InlineOff?
    ensures OneInFlight(Next(s, step))
  {
    hide Noted, Print, BuildDone, CommandDone, NewRecord;
  }

  /** Without inline interactions at most one action is ever in flight. */
  lemma {:induction false} MutualExclusion(s: State, steps: seq<Step>, t: State)
    requires OneInFlight(s) && Leads(s, steps, t) && NoInline(steps)
    ensures OneInFlight(t)
    decreases steps
  {
    if steps != [] {
      StepKeepsOne(s, steps[0]);
      hide OneInFlight, Next, Enabled;
      MutualExclusion(Next(s, steps[0]), steps[1..], t);
    }
  }

  // ----- Builds and navigation -----

  /** Only what belongs to `name` differs. */
  ghost predicate OnlyFor(s: State, t: State, name: Name) {
    && (forall other | other != name :: (other in t.records <==> other in s.records)
          && (other in s.records ==> t.records[other] == s.records[other]))
    && (forall other | other != name :: (other in t.idls <==> other in s.idls)
          && (other in s.idls ==> t.idls[other] == s.idls[other]))
    && t.slot == s.slot && t.terminalOwner == s.terminalOwner && t.background == s.background
    && t.active == s.active && t.commands == s.commands
    && t.flights.Keys == s.flights.Keys
    && forall id | id in s.flights :: t.flights[id].(building := None) == s.flights[id].(building := None)
  }

  /** A build of an action that only builds is that of the action's workspace. */
  predicate BuildsOwn(f: Flight) {
    f.action == Build && f.building.Some? ==> f.building.value == f.workspace
  }

  lemma StepKeepsFlight(s: State, step: Step, id: nat)
    requires Enabled(s, step) && id in s.flights && !(step.End? && step.id == id)
    ensures id in Next(s, step).flights
    ensures var f := Next(s, step).flights[id];
            && f.action == s.flights[id].action && f.workspace == s.flights[id].workspace
            && (BuildsOwn(s.flights[id]) ==> BuildsOwn(f))
            && (!(step.BuildStarts? && step.id == id) && !(step.BuildEnds? && step.id == id) ==> f == s.flights[id])
  {
    hide Noted, Print, BuildDone, CommandDone, NewRecord;
  }

  /** Flights keep the workspace they started in, whatever happens meanwhile. */
  lemma {:induction false} FlightKeepsWorkspace(s: State, steps: seq<Step>, t: State, id: nat)
    requires Leads(s, steps, t) && id in s.flights && BuildsOwn(s.flights[id]) && NotEnded(steps, id)
    ensures id in t.flights && BuildsOwn(t.flights[id])
    ensures t.flights[id].action == s.flights[id].action && t.flights[id].workspace == s.flights[id].workspace
    decreases steps
  {
    if steps != [] {
      StepKeepsFlight(s, steps[0], id);
      assert NotEnded(steps[1..], id);
      hide Next, Enabled;
      FlightKeepsWorkspace(Next(s, steps[0]), steps[1..], t, id);
    }
  }

  /** The steps of a build. */
  predicate OfBuild(step: Step, id: nat) {
    (step.BuildStarts? || step.BuildEnds?) && step.id == id
  }

  function BuiltBy(s: State, step: Step): Name
    requires (step.BuildStarts? || step.BuildEnds?) && Enabled(s, step)
  {
    if step.BuildStarts? then step.workspace else s.flights[step.id].building.value
  }

  /** The record with a new stage and an event in front. */
  predicate Marked(r: Record, m: Record, stage: Stage, status: Status, text: string) {
    m == r.(stage := stage, events := AddEvent(r.events, Event(BuildEvent, status, text)))
  }

  lemma StartFrame(s: State, step: Step)
    requires step.BuildStarts? && Enabled(s, step)
    ensures OnlyFor(s, Next(s, step), step.workspace)
    ensures step.open == step.workspace ==>
              step.workspace in Next(s, step).records
              && Marked(RecordOf(s, step.workspace), Next(s, step).records[step.workspace], Source, Working, BUILDING)
  {
    hide RecordOf, NewRecord, AddEvent;
  }

  lemma DoneFrame(s: State, name: Name, result: BuildResult)
    ensures OnlyFor(s, BuildDone(s, name, result), name)
    ensures var t := BuildDone(s, name, result);
            && name in t.records
            && (if result.BuildOk? then Marked(RecordOf(s, name), t.records[name], Built, Succeeded, BUILD_COMPLETE)
                else Marked(RecordOf(s, name), t.records[name], Source, Failed, Diagnostic(s, name, result.message)))
            && (result.BuildOk? && result.idl.Some? ==> name in t.idls && t.idls[name] == result.idl.value)
  {
    hide RecordOf, NewRecord, Diagnostic, AddEvent;
  }

  /** That a flight builds no more is of no account. */
  lemma BuildingFrame(s: State, t: State, id: nat, name: Name)
    requires id in s.flights && OnlyFor(Building(s, id, None), t, name)
    ensures OnlyFor(s, t, name)
  {
  }

  lemma EndFrame(s: State, step: Step)
    requires step.BuildEnds? && Enabled(s, step)
    ensures OnlyFor(s, Next(s, step), s.flights[step.id].building.value)
  {
    hide OnlyFor, BuildDone, Building;
    DoneFrame(Building(s, step.id, None), s.flights[step.id].building.value, step.result);
    BuildingFrame(s, Next(s, step), step.id, s.flights[step.id].building.value);
  }

  lemma SameDiagnostic(s: State, t: State, name: Name)
    requires t.buildLog == s.buildLog
    ensures forall message :: Diagnostic(t, name, message) == Diagnostic(s, name, message)
  {
    hide Trim, JoinLines, Contains;
  }

  /** Whatever a build does, it does to the workspace it builds, and to the log. */
  lemma BuildStepFrame(s: State, id: nat, step: Step)
    requires OfBuild(step, id) && Enabled(s, step)
    ensures OnlyFor(s, Next(s, step), BuiltBy(s, step))
    ensures var t, name := Next(s, step), BuiltBy(s, step);
            && (step.BuildStarts? && step.open == name ==>
                  name in t.records && Marked(RecordOf(s, name), t.records[name], Source, Working, BUILDING))
            && (step.BuildEnds? ==>
                  name in t.records
                  && if step.result.BuildOk?
                     then Marked(RecordOf(s, name), t.records[name], Built, Succeeded, BUILD_COMPLETE)
                     else Marked(RecordOf(s, name), t.records[name], Source, Failed,
                                 Diagnostic(s, name, step.result.message)))
            && (step.BuildEnds? && step.result.BuildOk? && step.result.idl.Some? ==>
                  name in t.idls && t.idls[name] == step.result.idl.value)
            && t.buildLog == if step.BuildEnds? then None
                             else if step.open == name then Some((name, [])) else s.buildLog
  {
    hide OnlyFor, BuildDone, Noted, NewRecord, Marked, Diagnostic;
    if step.BuildStarts? {
      StartFrame(s, step);
    } else {
      EndFrame(s, step);
      DoneFrame(Building(s, id, None), s.flights[id].building.value, step.result);
      SameDiagnostic(s, Building(s, id, None), s.flights[id].building.value);
    }
  }

  /** So however often the user navigates while a build runs, the steps of the build
      change only the record and the files of the workspace it was started in, and the log. */
  lemma BuildStaysHome(s: State, id: nat, steps: seq<Step>, t: State, step: Step)
    requires s.slot.None? && Enabled(s, Run(id, Build))
    requires Leads(Next(s, Run(id, Build)), steps, t) && OfBuild(step, id) && Enabled(t, step)
    requires NotEnded(steps, id)
    ensures BuiltBy(t, step) == s.active && OnlyFor(t, Next(t, step), s.active)
    ensures Next(t, step).buildLog
         == if step.BuildEnds? then None
            else if step.open == s.active then Some((s.active, [])) else t.buildLog
  {
    FlightKeepsWorkspace(Next(s, Run(id, Build)), steps, t, id);
    assert BuiltBy(t, step) == s.active;
    hide Leads, Next, Enabled, OnlyFor;
    BuildStepFrame(t, id, step);
  }

  predicate BuildNotEnded(steps: seq<Step>, id: nat) {
    forall i | 0 <= i < |steps| :: !(steps[i].BuildEnds? && steps[i].id == id)
  }

  lemma {:induction false} BuildingKept(s: State, steps: seq<Step>, t: State, id: nat)
    requires Leads(s, steps, t) && id in s.flights && s.flights[id].building.Some? && BuildNotEnded(steps, id)
    ensures id in t.flights && t.flights[id] == s.flights[id]
    decreases steps
  {
    if steps != [] {
      StepKeepsFlight(s, steps[0], id);
      assert BuildNotEnded(steps[1..], id);
      BuildingKept(Next(s, steps[0]), steps[1..], t, id);
    }
  }

  /** A build inside a deployment or an interaction is that of the workspace active when
      the build started, and stays with it. */
  lemma NestedBuildStaysHome(s: State, id: nat, steps: seq<Step>, t: State, result: BuildResult)
    requires id in s.flights && s.flights[id].action != Build && s.flights[id].building == None
    requires Leads(Next(s, BuildStarts(id, s.active, s.active)), steps, t) && BuildNotEnded(steps, id)
    ensures Enabled(t, BuildEnds(id, result)) && OnlyFor(t, Next(t, BuildEnds(id, result)), s.active)
    ensures Next(t, BuildEnds(id, result)).buildLog == None
  {
    BuildingKept(Next(s, BuildStarts(id, s.active, s.active)), steps, t, id);
    BuildStepFrame(t, id, BuildEnds(id, result));
  }
}
