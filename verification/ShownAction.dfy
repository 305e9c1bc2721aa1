/** The action that a workspace shows as running, against the one that has the slot. */
module ShownAction {
  import opened Wrappers
  import opened Workspace
  import opened ActionSlot

  ghost predicate ShownFor(s: State, name: Name) {
    name in s.records ==>
      s.records[name].chainAction
        == if s.slot.Some? && s.slot.value.workspace == name then Some(s.slot.value.action) else None
  }

  /** A workspace shows an action exactly when it has the slot. */
  ghost predicate Shown(s: State) { forall name :: ShownFor(s, name) }

  lemma ShownForKept(s: State, step: Step, name: Name)
    requires SlotAgrees(s) && Enabled(s, step) && !step.InlineOn?
    requires ShownFor(s, name)
    requires s.slot.Some? ==> ShownFor(s, s.slot.value.workspace)
    ensures ShownFor(Next(s, step), name)
  {
    hide Noted, ActionSlot.Print, BuildDone, CommandDone;
    var t := Next(s, step);
    if step.BuildStarts? || step.BuildEnds? || step.CommandEnds? || step.Printed? || step.Navigate? {
      assert SameActions(s, t) && t.slot == s.slot;
      hide Next;
    }
  }

  lemma ShownKept(s: State, step: Step)
    requires SlotAgrees(s) && Shown(s) && Enabled(s, step) && !step.InlineOn?
    ensures Shown(Next(s, step))
  {
    hide Next, Enabled, SlotAgrees;
    forall name ensures ShownFor(Next(s, step), name) {
      ShownForKept(s, step, name);
    }
  }

  /** Starting an inline interaction takes the slot unconditionally: what is shown
      stays right exactly when the slot was empty or already of this workspace. */
  lemma InlineKeepsShownIff(s: State, name: Name)
    requires SlotAgrees(s) && Shown(s)
    ensures Shown(Next(s, InlineOn(name))) <==> s.slot.None? || s.slot.value.workspace == name
  {
    var t := Next(s, InlineOn(name));
    if s.slot.Some? && s.slot.value.workspace != name {
      var before := s.slot.value.workspace;
      assert ShownFor(s, before);
      assert t.records[before].chainAction == Some(s.slot.value.action);
      assert !ShownFor(t, before);
    } else {
      forall other ensures ShownFor(t, other) {
        assert ShownFor(s, other);
      }
    }
  }

  /** And then no finisher corrects it: the action taken over stays shown when it ends. */
  lemma TakenOverStaysShown(s: State, id: nat, action: Action, name: Name)
    requires s.slot.None? && Enabled(s, Run(id, action)) && name != s.active
    ensures var t := Next(Next(s, Run(id, action)), InlineOn(name));
            && Enabled(t, End(id))
            && Next(t, End(id)).records[s.active].chainAction == Some(action)
            && id !in Next(t, End(id)).flights
  {
  }

  /** An inline interaction has the slot from its start, and its end gives the slot back,
      unless something else has taken it. */
  lemma InlineGivesBack(s: State, name: Name, t: State)
    ensures var u := Next(s, InlineOn(name)); u.slot == u.background == Some(Slot(Inline, Interact, name))
    ensures t.slot == Some(Slot(Inline, Interact, name)) ==>
              var u := Next(t, InlineOff(name));
              u.slot.None? && u.terminalOwner.None? && RecordOf(u, name).chainAction == None
    ensures t.slot.None? || t.slot.value.action != Interact || t.slot.value.workspace != name ==>
              Next(t, InlineOff(name)) == t
  {
    hide NewRecord;
  }
}
