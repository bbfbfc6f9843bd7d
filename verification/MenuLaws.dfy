/**
 What every event does to a menu that satisfies its invariant: the status, the calls to the owners and the
 whole menu afterwards, and what whole editing sessions come to.
 */
module MenuLaws {
  import opened Integers
  import opened MenuSafety
  import opened MenuSpec
  import opened MizuStatuses
  import opened ParameterRegistry
  import opened ParameterSpec

  // ---------------------------------------------------------------- which events are accepted

  ghost predicate StepIsEditable(d: Descriptor) {
    d.valueType != BOOL && d.minimum != d.maximum
  }

  /** The events that a mode has a use for. */
  ghost predicate Usable(cfg: Config, m: Menu, event: Event)
    requires Inv(cfg, m)
  {
    match m.mode
    case ROOT => event.kind == MOVE_SELECTION || event.kind == ACTIVATE
    case GROUP => event.kind == MOVE_SELECTION || event.kind == ACTIVATE || event.kind == BACK
    case PARAMETER_EDIT =>
      || event.kind == ADJUST_VALUE || event.kind == ACTIVATE || event.kind == BACK
      || (event.kind == OPEN_STEP_EDITOR && StepIsEditable(cfg.parameters[m.stepIndex]))
    case STEP_EDIT =>
      || event.kind == ACTIVATE || event.kind == BACK
      || (event.kind == ADJUST_STEP && (event.amount == -1 || event.amount == 0 || event.amount == 1))
    case COMMAND_CONFIRM => event.kind == ACTIVATE || event.kind == BACK
    case DISPLAY_PAGE => event.kind == MOVE_PAGE || event.kind == BACK
  }

  /** Usable events return OK, scaling by more than a decade INVALID_ARGUMENT, and all others INVALID_STATE. */
  lemma {:induction false} StatusOfEvent(cfg: Config, m: Menu, event: Event, owners: Owners, now: uint32)
    requires Inv(cfg, m)
    ensures Step(cfg, m, event, owners, now).status ==
      if Usable(cfg, m, event) then OK
      else if m.mode == STEP_EDIT && event.kind == ADJUST_STEP then INVALID_ARGUMENT
      else INVALID_STATE
  {
    match m.mode {
      case GROUP => CurrentItemIsValid(cfg, m);
      case STEP_EDIT => StepScalingNeverFails(cfg, m, event.amount, owners, now);
      case COMMAND_CONFIRM => CurrentItemIsValid(cfg, m);
      case _ =>
    }
  }

  // ---------------------------------------------------------------- moving around

  /** At the top a selection moves around the entries, and ACTIVATE opens a group or a page at its start. */
  lemma {:induction false} RootEvents(cfg: Config, m: Menu, amount: int32, owners: Owners, now: uint32)
    requires Inv(cfg, m) && m.mode == ROOT
    ensures Step(cfg, m, Event(MOVE_SELECTION, amount), owners, now) ==
      Outcome(m.(rootIndex := (m.rootIndex + amount) % |cfg.roots|), OK, [])
    ensures Step(cfg, m, Event(ACTIVATE, amount), owners, now) ==
      Outcome(if cfg.roots[m.rootIndex].GroupRoot? then m.(mode := GROUP, itemIndex := 0)
              else m.(mode := DISPLAY_PAGE, subpageIndex := 0), OK, [])
  {
    MoveIsModular(m.rootIndex, |cfg.roots|, amount);
  }

  /** In a group a selection moves around its items, and BACK returns to the top. */
  lemma {:induction false} GroupMoves(cfg: Config, m: Menu, amount: int32, owners: Owners, now: uint32)
    requires Inv(cfg, m) && m.mode == GROUP
    ensures Step(cfg, m, Event(MOVE_SELECTION, amount), owners, now) ==
      Outcome(m.(itemIndex := (m.itemIndex + amount) % |cfg.roots[m.rootIndex].items|), OK, [])
    ensures Step(cfg, m, Event(BACK, amount), owners, now) == Outcome(m.(mode := ROOT), OK, [])
  {
    CurrentItemIsValid(cfg, m);
    MoveIsModular(m.itemIndex, |cfg.roots[m.rootIndex].items|, amount);
  }

  /** On a display page the subpages are turned in a circle, and BACK returns to the top. */
  lemma {:induction false} PageEvents(cfg: Config, m: Menu, amount: int32, owners: Owners, now: uint32)
    requires Inv(cfg, m) && m.mode == DISPLAY_PAGE
    ensures Step(cfg, m, Event(MOVE_PAGE, amount), owners, now) ==
      Outcome(m.(subpageIndex := (m.subpageIndex + amount) % cfg.roots[m.rootIndex].pageCount), OK, [])
    ensures Step(cfg, m, Event(BACK, amount), owners, now) == Outcome(m.(mode := ROOT), OK, [])
  {
    MoveIsModular(m.subpageIndex, cfg.roots[m.rootIndex].pageCount, amount);
  }

  // ---------------------------------------------------------------- commands

  /** The command of the selected item has run, and what its handler returned is shown. */
  ghost function Executed(cfg: Config, m: Menu, id: uint16, handlerStatus: MizuStatus, now: uint32): Outcome {
    Outcome(m.(mode := GROUP, feedback := CommandFeedback(id, handlerStatus),
               deadlineMs := (now + cfg.feedbackDurationMs) % 0x1_0000_0000),
            OK, [ExecuteCall(id)])
  }

  /** ACTIVATE runs a command at once or asks first; confirming runs it, and BACK drops it. */
  lemma {:induction false} CommandEvents(cfg: Config, m: Menu, amount: int32, owners: Owners, now: uint32)
    requires Inv(cfg, m) && (m.mode == GROUP || m.mode == COMMAND_CONFIRM)
    requires cfg.roots[m.rootIndex].items[m.itemIndex].CommandItem?
    ensures var item := cfg.roots[m.rootIndex].items[m.itemIndex];
            Step(cfg, m, Event(ACTIVATE, amount), owners, now) ==
            if m.mode == GROUP && item.requiresConfirmation then Outcome(m.(mode := COMMAND_CONFIRM), OK, [])
            else Executed(cfg, m, item.commandId, owners.handlerStatus, now)
    ensures m.mode == COMMAND_CONFIRM ==>
      Step(cfg, m, Event(BACK, amount), owners, now) == Outcome(m.(mode := GROUP), OK, [])
  {
    CurrentItemIsValid(cfg, m);
  }

  // ---------------------------------------------------------------- entering and leaving an edit

  /** The parameter of the selected item is the one registered at position k. */
  ghost predicate Selects(cfg: Config, m: Menu, k: nat) {
    && m.rootIndex < |cfg.roots| && cfg.roots[m.rootIndex].GroupRoot?
    && m.itemIndex < |cfg.roots[m.rootIndex].items| && cfg.roots[m.rootIndex].items[m.itemIndex].ParameterItem?
    && k < |cfg.parameters| && cfg.parameters[k].id == cfg.roots[m.rootIndex].items[m.itemIndex].parameterId
  }

  lemma {:induction false} SelectedPosition(cfg: Config, m: Menu, k: nat)
    requires ValidConfig(cfg) && Selects(cfg, m, k)
    ensures OnParameter(cfg, m) && CurrentPosition(cfg, m) == k && Valid(cfg.parameters[k])
  {
    LookupUnique(cfg.parameters, k);
  }

  /** Both edit modes work on the parameter of the selected item. */
  lemma {:induction false} EditsSelected(cfg: Config, m: Menu)
    requires Inv(cfg, m) && (m.mode == PARAMETER_EDIT || m.mode == STEP_EDIT)
    ensures Selects(cfg, m, m.stepIndex) && cfg.parameters[m.stepIndex].writable && m.stepIndex < |m.steps|
  {
  }

  /** The owner answered OK with a value of the right type within the bounds. */
  ghost predicate Readable(d: Descriptor, reading: Reading) {
    && reading.status == OK && reading.value.Type() == d.valueType
    && d.minimum.AsInt() <= reading.value.AsInt() <= d.maximum.AsInt()
  }

  /** The fault that is shown for a value that cannot be used. */
  function ReadFault(reading: Reading): MizuStatus {
    if reading.status != OK then reading.status else INVALID_DATA
  }

  ghost function Reported(cfg: Config, m: Menu, id: uint16, reason: Reason, status: MizuStatus, now: uint32): Menu {
    m.(feedback := ParameterFeedback(id, reason, status),
       deadlineMs := (now + cfg.feedbackDurationMs) % 0x1_0000_0000)
  }

  /** Entering an edit starts from the value just read, or shows why it could not be read. */
  lemma {:induction false} EnterEvent(cfg: Config, m: Menu, k: nat, amount: int32, owners: Owners, now: uint32)
    requires Inv(cfg, m) && m.mode == GROUP && Selects(cfg, m, k)
    ensures var d, read := cfg.parameters[k], owners.reading;
            Step(cfg, m, Event(ACTIVATE, amount), owners, now) ==
            Outcome(if Readable(d, read) then
                      m.(mode := PARAMETER_EDIT, editValue := read.value, originalValue := read.value, stepIndex := k)
                    else Reported(cfg, m, d.id, READ_FAILED, ReadFault(read), now),
                    OK, [GetCall(d.id)])
  {
    SelectedPosition(cfg, m, k);
    CurrentItemIsValid(cfg, m);
    ReadingDecides(cfg.parameters[k], owners.reading);
  }

  /** What committing the draft of d comes to. */
  ghost function Committed(cfg: Config, m: Menu, d: Descriptor, owners: Owners, now: uint32): Outcome {
    var read, readCall, writeCall := owners.reading, GetCall(d.id), SetCall(d.id, m.editValue);
    if !Readable(d, read) then
      Outcome(Reported(cfg, m, d.id, READ_FAILED, ReadFault(read), now), OK, [readCall])
    else if read.value != m.originalValue then
      var shown := m.(editValue := read.value, originalValue := read.value);
      Outcome(Reported(cfg, shown, d.id, CONFLICT, INVALID_STATE, now), OK, [readCall])
    else if m.editValue.AsInt() < d.minimum.AsInt() || m.editValue.AsInt() > d.maximum.AsInt() then
      Outcome(Reported(cfg, m, d.id, WRITE_FAILED, OUT_OF_RANGE, now), OK, [readCall])
    else if owners.setterStatus != OK then
      Outcome(Reported(cfg, m, d.id, WRITE_FAILED, owners.setterStatus, now), OK, [readCall, writeCall])
    else
      Outcome(Reported(cfg, m.(mode := GROUP), d.id, APPLIED, OK, now), OK, [readCall, writeCall])
  }

  /** The five ways in which a commit ends, and leaving without one. */
  lemma {:induction false} CommitEvents(cfg: Config, m: Menu, amount: int32, owners: Owners, now: uint32)
    requires Inv(cfg, m) && m.mode == PARAMETER_EDIT
    ensures Step(cfg, m, Event(ACTIVATE, amount), owners, now) ==
      Committed(cfg, m, cfg.parameters[m.stepIndex], owners, now)
    ensures Step(cfg, m, Event(BACK, amount), owners, now) == Outcome(m.(mode := GROUP), OK, [])
  {
    var d := cfg.parameters[m.stepIndex];
    ReadingDecides(d, owners.reading);
    WriteDecides(d, m.editValue);
  }

  // ---------------------------------------------------------------- adjusting the draft

  /**
   Adjusting the draft of an integer parameter moves it by its cached step, clamped to the bounds, and
   changes nothing else.
   */
  lemma {:induction false} AdjustEvent(cfg: Config, m: Menu, amount: int32, owners: Owners, now: uint32)
    requires Inv(cfg, m) && m.mode == PARAMETER_EDIT && cfg.parameters[m.stepIndex].valueType != BOOL
    ensures var d, outcome := cfg.parameters[m.stepIndex], Step(cfg, m, Event(ADJUST_VALUE, amount), owners, now);
            var draft := outcome.menu.editValue;
            && outcome == Outcome(m.(editValue := draft), OK, [])
            && draft.Type() == d.valueType
            && draft.AsInt() == Clamp(m.editValue.AsInt() + m.steps[m.stepIndex].AsInt() * amount,
                                      d.minimum.AsInt(), d.maximum.AsInt())
  {
    var d := cfg.parameters[m.stepIndex];
    assert StepFits(d, m.steps[m.stepIndex]);
    ValidMeans(d);
    AdjustClamps(d, m.editValue, m.steps[m.stepIndex], amount);
  }

  /** The draft of a bool follows the sign of the amount, unless it has left its bounds: then that is shown. */
  lemma {:induction false} AdjustBoolEvent(cfg: Config, m: Menu, amount: int32, owners: Owners, now: uint32)
    requires Inv(cfg, m) && m.mode == PARAMETER_EDIT && cfg.parameters[m.stepIndex].valueType == BOOL
    ensures var d := cfg.parameters[m.stepIndex];
            Step(cfg, m, Event(ADJUST_VALUE, amount), owners, now) ==
            Outcome(if m.editValue.AsInt() < d.minimum.AsInt() || m.editValue.AsInt() > d.maximum.AsInt()
                    then Reported(cfg, m, d.id, WRITE_FAILED, OUT_OF_RANGE, now)
                    else if amount == 0 then m
                    else m.(editValue := Bool(amount > 0)),
                    OK, [])
  {
    var d := cfg.parameters[m.stepIndex];
    assert StepFits(d, m.steps[m.stepIndex]);
    ValidMeans(d);
    AdjustClamps(d, m.editValue, m.steps[m.stepIndex], amount);
    if Adjustable(d, m.editValue, m.steps[m.stepIndex]) {
      AdjustBoolSelects(d, m.editValue, m.steps[m.stepIndex], amount);
    } else {
      AdjustFault(d, m.editValue, m.steps[m.stepIndex], amount);
    }
  }

  // ---------------------------------------------------------------- editing the step

  /** The step editor opens with the cached step as its backup. */
  lemma {:induction false} OpenEvent(cfg: Config, m: Menu, amount: int32, owners: Owners, now: uint32)
    requires Inv(cfg, m) && m.mode == PARAMETER_EDIT && StepIsEditable(cfg.parameters[m.stepIndex])
    ensures Step(cfg, m, Event(OPEN_STEP_EDITOR, amount), owners, now) ==
      Outcome(m.(mode := STEP_EDIT, originalStep := m.steps[m.stepIndex]), OK, [])
  {
  }

  /** It closes with the edited step, or with the backup. */
  lemma {:induction false} CloseEvents(cfg: Config, m: Menu, amount: int32, owners: Owners, now: uint32)
    requires Inv(cfg, m) && m.mode == STEP_EDIT
    ensures Step(cfg, m, Event(ACTIVATE, amount), owners, now) == Outcome(m.(mode := PARAMETER_EDIT), OK, [])
    ensures Step(cfg, m, Event(BACK, amount), owners, now) ==
      Outcome(m.(mode := PARAMETER_EDIT, steps := m.steps[m.stepIndex := m.originalStep]), OK, [])
  {
  }

  /** A step that is scaled by a decade up, down, or not at all, within 1 and what the range allows. */
  ghost function Scaled(d: Descriptor, step: int, direction: int): int {
    var decade := if direction < 0 then step / 10 else if direction > 0 then step * 10 else step;
    Clamp(decade, 1, if d.valueType == INT32 then Min(Range(d), INT32_MAX) else Range(d))
  }

  /** Scaling in the step editor changes the one cached step. */
  lemma {:induction false} ScaleEvent(cfg: Config, m: Menu, direction: int32, owners: Owners, now: uint32)
    requires Inv(cfg, m) && m.mode == STEP_EDIT && -1 <= direction <= 1
    ensures var d, k := cfg.parameters[m.stepIndex], m.stepIndex;
            var outcome := Step(cfg, m, Event(ADJUST_STEP, direction), owners, now);
            && |outcome.menu.steps| == |m.steps|
            && var step := outcome.menu.steps[k];
               && outcome == Outcome(m.(steps := m.steps[k := step]), OK, [])
               && step.Type() == d.valueType && step.AsInt() == Scaled(d, m.steps[k].AsInt(), direction)
  {
    ScaleKeepsStepsValid(cfg.parameters[m.stepIndex], m.steps[m.stepIndex], direction);
  }

  /** What the usable amounts among these inputs make of a step, one after the other. */
  ghost function ScaledAll(d: Descriptor, step: int, inputs: seq<Input>): int
    decreases |inputs|
  {
    if inputs == [] then step
    else
      var event := inputs[0].event;
      var usable := event.kind == ADJUST_STEP && -1 <= event.amount <= 1;
      ScaledAll(d, if usable then Scaled(d, step, event.amount) else step, inputs[1..])
  }

  ghost predicate StaysInStepEditor(inputs: seq<Input>) {
    forall i :: 0 <= i < |inputs| ==> inputs[i].event.kind != ACTIVATE && inputs[i].event.kind != BACK
  }

  /** One event of the step editor that does not leave it. */
  lemma {:induction false} StepEditorEvent(cfg: Config, m: Menu, input: Input)
    requires Inv(cfg, m) && m.mode == STEP_EDIT && input.event.kind != ACTIVATE && input.event.kind != BACK
    ensures var next := Step(cfg, m, input.event, input.owners, input.now).menu;
            && |next.steps| == |m.steps| && next == m.(steps := m.steps[m.stepIndex := next.steps[m.stepIndex]])
            && next.steps[m.stepIndex].AsInt() == ScaledAll(cfg.parameters[m.stepIndex], m.steps[m.stepIndex].AsInt(),
                                                            [input])
  {
    var event := input.event;
    if event.kind == ADJUST_STEP && -1 <= event.amount <= 1 {
      ScaleEvent(cfg, m, event.amount, input.owners, input.now);
      assert event == Event(ADJUST_STEP, event.amount);
    } else {
      StatusOfEvent(cfg, m, event, input.owners, input.now);
      RefusedChangesNothing(cfg, m, event, input.owners, input.now);
      assert m.steps[m.stepIndex := m.steps[m.stepIndex]] == m.steps;
    }
  }

  /** A stay in the step editor leaves the scaled step in the cache, and nothing else. */
  lemma {:induction false} ScalingSession(cfg: Config, m: Menu, inputs: seq<Input>)
    requires Inv(cfg, m) && m.mode == STEP_EDIT && StaysInStepEditor(inputs)
    ensures var d, k, after := cfg.parameters[m.stepIndex], m.stepIndex, After(cfg, m, inputs);
            && |after.steps| == |m.steps| && after == m.(steps := m.steps[k := after.steps[k]])
            && after.steps[k].AsInt() == ScaledAll(d, m.steps[k].AsInt(), inputs)
    decreases |inputs|
  {
    if inputs == [] {
      assert m.steps[m.stepIndex := m.steps[m.stepIndex]] == m.steps;
    } else {
      StepEditorEvent(cfg, m, inputs[0]);
      StepKeepsInv(cfg, m, inputs[0].event, inputs[0].owners, inputs[0].now);
      ScalingSession(cfg, Step(cfg, m, inputs[0].event, inputs[0].owners, inputs[0].now).menu, inputs[1..]);
    }
  }

  /**
   Opening the step editor, scaling any number of times and ACTIVATE leave exactly the scaled step in the
   cache, and that step is the one by which the draft moves next.
   */
  lemma {:induction false} EditedStepIsUsed(cfg: Config, m: Menu, open: Input, inputs: seq<Input>, accept: Input,
                                            use: Input)
    requires Inv(cfg, m) && m.mode == PARAMETER_EDIT && StepIsEditable(cfg.parameters[m.stepIndex])
    requires open.event.kind == OPEN_STEP_EDITOR && accept.event.kind == ACTIVATE && use.event.kind == ADJUST_VALUE
    requires StaysInStepEditor(inputs)
    ensures var d, k := cfg.parameters[m.stepIndex], m.stepIndex;
            var start := Step(cfg, m, open.event, open.owners, open.now).menu;
            Inv(cfg, start) &&
            var edited := After(cfg, start, inputs);
            var back := Step(cfg, edited, accept.event, accept.owners, accept.now).menu;
            Inv(cfg, back) && k < |back.steps| &&
            var step, used := back.steps[k], Step(cfg, back, use.event, use.owners, use.now).menu;
            && back == m.(originalStep := m.steps[k], steps := m.steps[k := step])
            && step.AsInt() == ScaledAll(d, m.steps[k].AsInt(), inputs)
            && used == back.(editValue := used.editValue)
            && used.editValue.AsInt() == Clamp(m.editValue.AsInt() + step.AsInt() * use.event.amount,
                                               d.minimum.AsInt(), d.maximum.AsInt())
  {
    OpenEvent(cfg, m, open.event.amount, open.owners, open.now);
    assert open.event == Event(OPEN_STEP_EDITOR, open.event.amount);
    StepKeepsInv(cfg, m, open.event, open.owners, open.now);
    var start := Step(cfg, m, open.event, open.owners, open.now).menu;
    ScalingSession(cfg, start, inputs);
    var edited := After(cfg, start, inputs);
    CloseEvents(cfg, edited, accept.event.amount, accept.owners, accept.now);
    assert accept.event == Event(ACTIVATE, accept.event.amount);
    StepKeepsInv(cfg, edited, accept.event, accept.owners, accept.now);
    var back := Step(cfg, edited, accept.event, accept.owners, accept.now).menu;
    AdjustEvent(cfg, back, use.event.amount, use.owners, use.now);
    assert use.event == Event(ADJUST_VALUE, use.event.amount);
  }

  // ---------------------------------------------------------------- a whole edit

  /** A value moved by these amounts of one step, clamped each time. */
  ghost function AdjustedAll(d: Descriptor, value: int, step: int, inputs: seq<Input>): int
    decreases |inputs|
  {
    if inputs == [] then value
    else
      AdjustedAll(d, Clamp(value + step * inputs[0].event.amount, d.minimum.AsInt(), d.maximum.AsInt()), step,
                  inputs[1..])
  }

  ghost predicate OnlyAdjusts(inputs: seq<Input>) {
    forall i :: 0 <= i < |inputs| ==> inputs[i].event.kind == ADJUST_VALUE
  }

  lemma {:induction false} AdjustingSession(cfg: Config, m: Menu, inputs: seq<Input>)
    requires Inv(cfg, m) && m.mode == PARAMETER_EDIT && cfg.parameters[m.stepIndex].valueType != BOOL
    requires OnlyAdjusts(inputs)
    ensures var d, after := cfg.parameters[m.stepIndex], After(cfg, m, inputs);
            && after == m.(editValue := after.editValue)
            && after.editValue.AsInt() ==
                 AdjustedAll(d, m.editValue.AsInt(), m.steps[m.stepIndex].AsInt(), inputs)
    decreases |inputs|
  {
    if inputs == [] {
    } else {
      var input := inputs[0];
      assert input.event == Event(ADJUST_VALUE, input.event.amount);
      AdjustEvent(cfg, m, input.event.amount, input.owners, input.now);
      StepKeepsInv(cfg, m, input.event, input.owners, input.now);
      AdjustingSession(cfg, Step(cfg, m, input.event, input.owners, input.now).menu, inputs[1..]);
    }
  }

  /**
   A whole edit of an integer parameter: selected, read, adjusted any number of times and committed while
   the owner still has the value that was read. The owner's setter receives the clamped sum, once, and the
   menu is back in the group with APPLIED to show.
   */
  lemma {:induction false} EditReachesOwner(cfg: Config, m: Menu, k: nat, enter: Input, inputs: seq<Input>,
                                            commit: Input)
    requires Inv(cfg, m) && m.mode == GROUP && Selects(cfg, m, k) && cfg.parameters[k].valueType != BOOL
    requires enter.event.kind == ACTIVATE && commit.event.kind == ACTIVATE && OnlyAdjusts(inputs)
    requires Readable(cfg.parameters[k], enter.owners.reading)
    requires commit.owners.reading == enter.owners.reading && commit.owners.setterStatus == OK
    ensures var d, start := cfg.parameters[k], Step(cfg, m, enter.event, enter.owners, enter.now).menu;
            Inv(cfg, start) &&
            var edited := After(cfg, start, inputs);
            var done := Step(cfg, edited, commit.event, commit.owners, commit.now);
            && edited.editValue.AsInt() ==
                 AdjustedAll(d, enter.owners.reading.value.AsInt(), m.steps[k].AsInt(), inputs)
            && done.calls == [GetCall(d.id), SetCall(d.id, edited.editValue)]
            && done.menu.mode == GROUP && done.menu.feedback == ParameterFeedback(d.id, APPLIED, OK)
  {
    var d := cfg.parameters[k];
    assert enter.event == Event(ACTIVATE, enter.event.amount) && commit.event == Event(ACTIVATE, commit.event.amount);
    EnterEvent(cfg, m, k, enter.event.amount, enter.owners, enter.now);
    StepKeepsInv(cfg, m, enter.event, enter.owners, enter.now);
    var start := Step(cfg, m, enter.event, enter.owners, enter.now).menu;
    AdjustingSession(cfg, start, inputs);
    var edited := After(cfg, start, inputs);
    CommitEvents(cfg, edited, commit.event.amount, commit.owners, commit.now);
    assert DraftFits(d, edited.editValue);
  }
}
