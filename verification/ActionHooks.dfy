/** The references that the hooks share, assigned step by step. */
module ActionHooks {
  import opened Text
  import opened Wrappers
  import opened Workspace
  import opened ActionSlot

  class ProgramActions {
    var chainActionRef: Option<Slot>
    var terminalOwnerRef: Option<Name>
    var backgroundAction: Option<Slot>
    var activeWorkspaceNameRef: Name
    var workspaceStates: map<Name, Record>
    var idls: map<Name, string>
    var activeBuildLogRef: Option<(Name, seq<string>)>
    /** The promises that have not settled yet. */
    ghost var flights: map<nat, Flight>
    ghost var commands: map<nat, Name>

    ghost function Current(): State
      reads this
    {
      State(chainActionRef, terminalOwnerRef, backgroundAction, activeWorkspaceNameRef, workspaceStates, idls,
            activeBuildLogRef, flights, commands)
    }

    constructor (active: Name, saved: map<Name, Record>)
      ensures Current() == Start(active, saved) && SlotAgrees(Current()) && OneInFlight(Current())
    {
      chainActionRef, terminalOwnerRef, backgroundAction := None, None, None;
      activeWorkspaceNameRef, workspaceStates, idls := active, saved, map[];
      activeBuildLogRef, flights, commands := None, map[], map[];
    }

    /** The record to update, created when it is missing. */
    function Load(name: Name): Record
      reads this`workspaceStates
    {
      if name in workspaceStates then workspaceStates[name] else NewRecord(name)
    }

    method Take(slot: Slot)
      modifies this
      ensures Current() == Taken(old(Current()), slot)
    {
      chainActionRef := Some(slot);
      terminalOwnerRef := Some(slot.workspace);
      backgroundAction := Some(slot);
      var r := Load(slot.workspace);
      workspaceStates := workspaceStates[slot.workspace := r.(chainAction := Some(slot.action))];
    }

    method Clear(name: Name)
      modifies this
      ensures Current() == Cleared(old(Current()), name)
    {
      chainActionRef := None;
      terminalOwnerRef := None;
      backgroundAction := None;
      var r := Load(name);
      workspaceStates := workspaceStates[name := r.(chainAction := None)];
    }

    /** The synchronous beginning of an action; it is refused while the slot is taken. */
    method BeginChainAction(id: nat, action: Action) returns (started: bool, workspaceName: Name)
      requires Enabled(Current(), Run(id, action))
      modifies this
      ensures Current() == Next(old(Current()), Run(id, action))
      ensures started == old(chainActionRef).None? && workspaceName == old(activeWorkspaceNameRef)
    {
      workspaceName := activeWorkspaceNameRef;
      if chainActionRef.Some? {
        return false, workspaceName;
      }
      started := true;
      flights := flights[id := Flight(action, workspaceName, None)];
      Take(Slot(Chain(id), action, workspaceName));
    }

    /** What runs when the action has settled. */
    method EndChainAction(id: nat, workspaceName: Name)
      requires Enabled(Current(), End(id)) && flights[id].workspace == workspaceName
      modifies this
      ensures Current() == Next(old(Current()), End(id))
    {
      flights := flights - {id};
      if chainActionRef.Some? && chainActionRef.value.token == Chain(id) {
        Clear(workspaceName);
      }
    }

    method SetInlineInteractionRunning(workspaceName: Name, running: bool)
      modifies this
      ensures Current() == Next(old(Current()), if running then InlineOn(workspaceName) else InlineOff(workspaceName))
    {
      if running {
        Take(Slot(Inline, Interact, workspaceName));
        return;
      }
      if chainActionRef.Some? && chainActionRef.value.action == Interact
         && chainActionRef.value.workspace == workspaceName {
        Clear(workspaceName);
      }
    }

    method NoteBuild(workspaceName: Name, stage: Stage, status: Status, text: string)
      modifies `workspaceStates
      ensures Current() == SetRecord(old(Current()), workspaceName,
                                     Noted(RecordOf(old(Current()), workspaceName), stage, status, text))
    {
      var r := Load(workspaceName);
      r := r.(stage := stage);
      r := r.(events := AddEvent(r.events, Event(BuildEvent, status, text)));
      workspaceStates := workspaceStates[workspaceName := r];
    }

    /** `ok` is false when the workspace is not the open one. */
    method BeginBuild(id: nat, workspaceName: Name, open: Name) returns (ok: bool)
      requires Enabled(Current(), BuildStarts(id, workspaceName, open))
      modifies this
      ensures ok == (open == workspaceName)
      ensures Current() == Next(old(Current()), BuildStarts(id, workspaceName, open))
    {
      if open != workspaceName {
        return false;
      }
      ok := true;
      flights := flights[id := flights[id].(building := Some(workspaceName))];
      activeBuildLogRef := Some((workspaceName, []));
      NoteBuild(workspaceName, Source, Working, BUILDING);
    }

    method EndBuild(id: nat, workspaceName: Name, result: BuildResult)
      requires Enabled(Current(), BuildEnds(id, result)) && flights[id].building == Some(workspaceName)
      modifies this
      ensures Current() == Next(old(Current()), BuildEnds(id, result))
    {
      hide NewRecord, AddEvent, JoinLines, Trim, Contains;
      flights := flights[id := flights[id].(building := None)];
      match result
      case BuildOk(idl) =>
        if idl.Some? {
          idls := idls[workspaceName := idl.value];
        }
        NoteBuild(workspaceName, Built, Succeeded, BUILD_COMPLETE);
        activeBuildLogRef := None;
      case BuildFailed(message) =>
        var buildOutput := "";
        if activeBuildLogRef.Some? && activeBuildLogRef.value.0 == workspaceName {
          buildOutput := Trim(JoinLines(activeBuildLogRef.value.1));
        }
        var errorMessage := if message == "" then BUILD_FAILED_ERROR else message;
        var diagnostic :=
          if buildOutput != "" && !Contains(buildOutput, errorMessage) then buildOutput + BLANK_LINE + errorMessage
          else if buildOutput != "" then buildOutput
          else errorMessage;
        assert diagnostic == Diagnostic(old(Current()), workspaceName, message);
        activeBuildLogRef := None;
        NoteBuild(workspaceName, Source, Failed, diagnostic);
    }

    /** The handler of a build command that has finished. */
    method OnDidFinishBuild(id: nat, open: Name, failed: bool)
      requires Enabled(Current(), CommandEnds(id, open, failed))
      modifies this
      ensures Current() == Next(old(Current()), CommandEnds(id, open, failed))
    {
      commands := commands - {id};
      var r := Load(open);
      r := r.(stage := if failed then Source else Built);
      if !(chainActionRef.Some? && chainActionRef.value.action == Build) {
        var event := Event(BuildEvent, if failed then Failed else Succeeded,
                           if failed then BUILD_FAILED else BUILD_COMPLETE);
        r := r.(events := AddEvent(r.events, event));
      }
      workspaceStates := workspaceStates[open := r];
    }

    method OnDidPrint(message: string)
      modifies this
      ensures Current() == Next(old(Current()), Printed(message))
    {
      hide CleanLines, LastOf, NewRecord;
      var lines := CleanTerminalOutput(message);
      if lines == [] {
        return;
      }
      var name := if terminalOwnerRef.Some? then terminalOwnerRef.value else activeWorkspaceNameRef;
      if activeBuildLogRef.Some? && activeBuildLogRef.value.0 == name {
        activeBuildLogRef := Some((name, LastOf(activeBuildLogRef.value.1 + lines, MAX_LINES)));
      }
      var r := Load(name);
      workspaceStates := workspaceStates[name := r.(terminalLines := LastOf(r.terminalLines + lines, MAX_LINES))];
    }
  }
}
