/**
 The menu as a state machine over a registered parameter table and a set of commands. The owners behind
 the parameters and commands are adversarial: per event, whatever the getter, the setter and the
 command handler would return is part of the input (Owners), and every call to them is recorded.
 */
module MenuSpec {
  import opened MizuStatuses
  import opened Integers
  import opened Division
  import opened ParameterSpec
  import opened ParameterRegistry

  datatype Item =
    | ParameterItem(parameterId: uint16)
    | CommandItem(commandId: uint16, requiresConfirmation: bool)

  /** titled stands for the check of the title text. */
  datatype Root =
    | GroupRoot(groupId: uint16, titled: bool, items: seq<Item>)
    | PageRoot(pageId: uint16, titled: bool, pageCount: nat)

  /** What the menu borrows: its tree, the flat parameter table, and the registered command ids. */
  datatype Config = Config(
    roots: seq<Root>,
    parameters: seq<Descriptor>,
    commands: set<uint16>,
    feedbackDurationMs: uint32)

  datatype EventKind = MOVE_SELECTION | MOVE_PAGE | ACTIVATE | BACK | ADJUST_VALUE | OPEN_STEP_EDITOR | ADJUST_STEP

  datatype Event = Event(kind: EventKind, amount: int32)

  datatype Mode = ROOT | GROUP | PARAMETER_EDIT | STEP_EDIT | COMMAND_CONFIRM | DISPLAY_PAGE

  datatype Reason = RESULT | APPLIED | CONFLICT | READ_FAILED | WRITE_FAILED

  datatype Feedback =
    | NoFeedback
    | ParameterFeedback(parameterId: uint16, reason: Reason, status: MizuStatus)
    | CommandFeedback(commandId: uint16, status: MizuStatus)

  datatype Menu = Menu(
    mode: Mode,
    rootIndex: nat,
    itemIndex: nat,
    subpageIndex: nat,
    stepIndex: nat,
    editValue: Value,
    originalValue: Value,
    originalStep: Value,
    steps: seq<Value>,
    feedback: Feedback,
    deadlineMs: uint32)

  datatype Owners = Owners(reading: Reading, setterStatus: MizuStatus, handlerStatus: MizuStatus)

  datatype Call =
    | GetCall(parameterId: uint16)
    | SetCall(parameterId: uint16, value: Value)
    | ExecuteCall(commandId: uint16)

  datatype Outcome = Outcome(menu: Menu, status: MizuStatus, calls: seq<Call>)

  // ---------------------------------------------------------------- configurations

  predicate ValidItem(cfg: Config, item: Item) {
    match item
    case ParameterItem(id) =>
      var k := Lookup(cfg.parameters, id);
      k.Some? && cfg.parameters[k.value].writable
    case CommandItem(id, _) => id in cfg.commands
  }

  predicate ValidRoot(cfg: Config, root: Root) {
    match root
    case GroupRoot(_, _, items) => items != [] && forall i :: 0 <= i < |items| ==> ValidItem(cfg, items[i])
    case PageRoot(_, _, pageCount) => pageCount > 0
  }

  /** What mizu_menu_init has checked, as far as event handling relies on it. */
  ghost predicate ValidConfig(cfg: Config) {
    && RegisteredFlat(cfg.parameters)
    && cfg.roots != []
    && (forall r :: 0 <= r < |cfg.roots| ==> ValidRoot(cfg, cfg.roots[r]))
  }

  /** mizu_menu_initialize_steps: the k-th cached step is the registered step of the k-th parameter. */
  function InitialSteps(parameters: seq<Descriptor>): seq<Value> {
    seq(|parameters|, k requires 0 <= k < |parameters| => parameters[k].step)
  }

  function InitialMenu(cfg: Config): Menu {
    Menu(ROOT, 0, 0, 0, 0, Int32(0), Int32(0), Int32(0), InitialSteps(cfg.parameters), NoFeedback, 0)
  }

  // ---------------------------------------------------------------- moving a selection

  /** mizu_menu_move_index: 32-bit magnitudes, no intermediate sum above count. */
  function MoveIndex(index: nat, count: nat, amount: int32): (r: nat)
    requires index < count
    ensures r < count
  {
    if amount >= 0 then
      var delta := amount % count;
      if delta > count - index - 1 then index - (count - delta) else index + delta
    else
      var wide: int64 := amount;
      var delta := (-wide) % count;
      if delta > index then count - (delta - index) else index - delta
  }

  /** Moving is addition modulo the number of entries, for every amount. */
  lemma {:induction false} MoveIsModular(index: nat, count: nat, amount: int32)
    requires index < count
    ensures MoveIndex(index, count, amount) == (index + amount) % count
  {
    var wide: int := amount;
    var size := if wide >= 0 then wide else -wide;
    var q, delta := size / count, size % count;
    var moved := MoveIndex(index, count, amount);
    DivideBack(size, count, q);
    var turns := if wide >= 0 then (if delta > count - index - 1 then q + 1 else q)
                 else (if delta > index then -q - 1 else -q);
    assert wide >= 0 ==> count * (q + 1) == count * q + count;
    assert wide < 0 ==> count * -q == -(count * q) && count * (-q - 1) == -(count * q) - count;
    DivideUniquely(index + wide, count, turns, moved);
  }

  // ---------------------------------------------------------------- one event

  predicate InGroup(cfg: Config, m: Menu) {
    m.rootIndex < |cfg.roots| && cfg.roots[m.rootIndex].GroupRoot? && m.itemIndex < |cfg.roots[m.rootIndex].items|
  }

  function CurrentItem(cfg: Config, m: Menu): Item
    requires InGroup(cfg, m)
  {
    cfg.roots[m.rootIndex].items[m.itemIndex]
  }

  /** The flat position of the current item's parameter. */
  predicate OnParameter(cfg: Config, m: Menu) {
    InGroup(cfg, m) && CurrentItem(cfg, m).ParameterItem? &&
        Lookup(cfg.parameters, CurrentItem(cfg, m).parameterId).Some?
  }

  function CurrentPosition(cfg: Config, m: Menu): nat
    requires OnParameter(cfg, m)
    ensures CurrentPosition(cfg, m) < |cfg.parameters|
  {
    Lookup(cfg.parameters, CurrentItem(cfg, m).parameterId).value
  }

  function CurrentDescriptor(cfg: Config, m: Menu): Descriptor
    requires OnParameter(cfg, m)
  {
    cfg.parameters[CurrentPosition(cfg, m)]
  }

  function Deadline(cfg: Config, now: uint32): uint32 {
    (now + cfg.feedbackDurationMs) % 0x1_0000_0000
  }

  function Report(cfg: Config, m: Menu, id: uint16, reason: Reason, status: MizuStatus, now: uint32): Menu {
    m.(feedback := ParameterFeedback(id, reason, status), deadlineMs := Deadline(cfg, now))
  }

  function RootStep(cfg: Config, m: Menu, event: Event): Outcome
    requires m.rootIndex < |cfg.roots|
  {
    match event.kind
    case MOVE_SELECTION => Outcome(m.(rootIndex := MoveIndex(m.rootIndex, |cfg.roots|, event.amount)), OK, [])
    case ACTIVATE =>
      if cfg.roots[m.rootIndex].GroupRoot?
      then Outcome(m.(itemIndex := 0, mode := GROUP), OK, [])
      else Outcome(m.(subpageIndex := 0, mode := DISPLAY_PAGE), OK, [])
    case _ => Outcome(m, INVALID_STATE, [])
  }

  /** mizu_menu_execute_command. */
  function ExecuteStep(cfg: Config, m: Menu, owners: Owners, now: uint32): Outcome
    requires InGroup(cfg, m) && CurrentItem(cfg, m).CommandItem?
  {
    var id := CurrentItem(cfg, m).commandId;
    if id !in cfg.commands then Outcome(m, OUT_OF_RANGE, [])
    else Outcome(m.(mode := GROUP, feedback := CommandFeedback(id, owners.handlerStatus),
                    deadlineMs := Deadline(cfg, now)),
                 OK, [ExecuteCall(id)])
  }

  /** mizu_menu_enter_parameter_edit. */
  function EnterEditStep(cfg: Config, m: Menu, owners: Owners, now: uint32): Outcome
    requires ValidConfig(cfg) && OnParameter(cfg, m)
  {
    var d := CurrentDescriptor(cfg, m);
    var status := ReadingStatus(d, owners.reading);
    if status != OK then Outcome(Report(cfg, m, d.id, READ_FAILED, status, now), OK, [GetCall(d.id)])
    else Outcome(m.(editValue := owners.reading.value, originalValue := owners.reading.value,
                    stepIndex := CurrentPosition(cfg, m), mode := PARAMETER_EDIT),
                 OK, [GetCall(d.id)])
  }

  function GroupStep(cfg: Config, m: Menu, event: Event, owners: Owners, now: uint32): Outcome
    requires ValidConfig(cfg) && InGroup(cfg, m) && ValidItem(cfg, CurrentItem(cfg, m))
  {
    match event.kind
    case MOVE_SELECTION =>
      Outcome(m.(itemIndex := MoveIndex(m.itemIndex, |cfg.roots[m.rootIndex].items|, event.amount)), OK, [])
    case BACK => Outcome(m.(mode := ROOT), OK, [])
    case ACTIVATE =>
      (match CurrentItem(cfg, m)
       case ParameterItem(_) => EnterEditStep(cfg, m, owners, now)
       case CommandItem(_, requiresConfirmation) =>
         if requiresConfirmation then Outcome(m.(mode := COMMAND_CONFIRM), OK, [])
         else ExecuteStep(cfg, m, owners, now))
    case _ => Outcome(m, INVALID_STATE, [])
  }

  /** The end of a commit, behind its read: the draft goes to the owner if it may be written. */
  function WriteStep(cfg: Config, m: Menu, owners: Owners, now: uint32): Outcome
    requires ValidConfig(cfg) && OnParameter(cfg, m)
  {
    var d := CurrentDescriptor(cfg, m);
    if WriteStatus(d, m.editValue) != OK then
      Outcome(Report(cfg, m, d.id, WRITE_FAILED, WriteStatus(d, m.editValue), now), OK, [GetCall(d.id)])
    else
      var calls := [GetCall(d.id), SetCall(d.id, m.editValue)];
      if owners.setterStatus != OK then Outcome(Report(cfg, m, d.id, WRITE_FAILED, owners.setterStatus, now), OK, calls)
      else Outcome(Report(cfg, m.(mode := GROUP), d.id, APPLIED, OK, now), OK, calls)
  }

  /** ACTIVATE in PARAMETER_EDIT: read again, and write only over the value that was shown. */
  function CommitStep(cfg: Config, m: Menu, owners: Owners, now: uint32): Outcome
    requires ValidConfig(cfg) && OnParameter(cfg, m)
  {
    var d := CurrentDescriptor(cfg, m);
    var readStatus := ReadingStatus(d, owners.reading);
    var current := owners.reading.value;
    if readStatus != OK then
      Outcome(Report(cfg, m, d.id, READ_FAILED, readStatus, now), OK, [GetCall(d.id)])
    else if current != m.originalValue then
      Outcome(Report(cfg, m.(editValue := current, originalValue := current), d.id, CONFLICT, INVALID_STATE, now),
              OK, [GetCall(d.id)])
    else WriteStep(cfg, m, owners, now)
  }

  function EditStep(cfg: Config, m: Menu, event: Event, owners: Owners, now: uint32): Outcome
    requires ValidConfig(cfg) && OnParameter(cfg, m) && m.stepIndex < |m.steps|
  {
    var d := CurrentDescriptor(cfg, m);
    match event.kind
    case ADJUST_VALUE =>
      (match AdjustValue(d, m.editValue, m.steps[m.stepIndex], event.amount)
       case Success(value) => Outcome(m.(editValue := value), OK, [])
       case Failure(status) => Outcome(Report(cfg, m, d.id, WRITE_FAILED, status, now), OK, []))
    case OPEN_STEP_EDITOR =>
      if d.valueType == BOOL || d.minimum == d.maximum then Outcome(m, INVALID_STATE, [])
      else Outcome(m.(originalStep := m.steps[m.stepIndex], mode := STEP_EDIT), OK, [])
    case BACK => Outcome(m.(mode := GROUP), OK, [])
    case ACTIVATE => CommitStep(cfg, m, owners, now)
    case _ => Outcome(m, INVALID_STATE, [])
  }

  function StepEditStep(cfg: Config, m: Menu, event: Event): Outcome
    requires OnParameter(cfg, m) && m.stepIndex < |m.steps|
  {
    match event.kind
    case ADJUST_STEP =>
      (match ScaleStep(CurrentDescriptor(cfg, m), m.steps[m.stepIndex], event.amount)
       case Success(step) => Outcome(m.(steps := m.steps[m.stepIndex := step]), OK, [])
       case Failure(status) => Outcome(m, status, []))
    case ACTIVATE => Outcome(m.(mode := PARAMETER_EDIT), OK, [])
    case BACK => Outcome(m.(steps := m.steps[m.stepIndex := m.originalStep], mode := PARAMETER_EDIT), OK, [])
    case _ => Outcome(m, INVALID_STATE, [])
  }

  function ConfirmStep(cfg: Config, m: Menu, event: Event, owners: Owners, now: uint32): Outcome
    requires InGroup(cfg, m) && CurrentItem(cfg, m).CommandItem?
  {
    match event.kind
    case ACTIVATE => ExecuteStep(cfg, m, owners, now)
    case BACK => Outcome(m.(mode := GROUP), OK, [])
    case _ => Outcome(m, INVALID_STATE, [])
  }

  function PageStep(cfg: Config, m: Menu, event: Event): Outcome
    requires m.rootIndex < |cfg.roots| && cfg.roots[m.rootIndex].PageRoot? &&
      m.subpageIndex < cfg.roots[m.rootIndex].pageCount
  {
    match event.kind
    case MOVE_PAGE =>
      Outcome(m.(subpageIndex := MoveIndex(m.subpageIndex, cfg.roots[m.rootIndex].pageCount, event.amount)), OK, [])
    case BACK => Outcome(m.(mode := ROOT), OK, [])
    case _ => Outcome(m, INVALID_STATE, [])
  }

  // ---------------------------------------------------------------- the invariant

  /** The step cache holds, per parameter, a step of its type: within its range if there is one to scale in. */
  ghost predicate StepsFit(cfg: Config, steps: seq<Value>) {
    && |steps| == |cfg.parameters|
    && forall k :: 0 <= k < |steps| ==> StepFits(cfg.parameters[k], steps[k])
  }

  ghost predicate StepFits(d: Descriptor, step: Value) {
    if d.valueType != BOOL && Range(d) > 0 then RuntimeStep(d, step) else step == d.step
  }

  /** A bool with equal bounds is the one parameter whose draft may leave the bounds. */
  predicate Escapes(d: Descriptor) {
    d.valueType == BOOL && d.minimum == d.maximum
  }

  ghost predicate DraftFits(d: Descriptor, value: Value)
    requires Valid(d)
  {
    value.Type() == d.valueType && (Admits(d, value) || Escapes(d))
  }

  ghost predicate Inv(cfg: Config, m: Menu) {
    && ValidConfig(cfg)
    && m.rootIndex < |cfg.roots|
    && StepsFit(cfg, m.steps)
    && match m.mode
       case ROOT => true
       case DISPLAY_PAGE => cfg.roots[m.rootIndex].PageRoot? && m.subpageIndex < cfg.roots[m.rootIndex].pageCount
       case GROUP => InGroup(cfg, m)
       case COMMAND_CONFIRM =>
         InGroup(cfg, m) && CurrentItem(cfg, m).CommandItem? && CurrentItem(cfg, m).requiresConfirmation
       case PARAMETER_EDIT => Editing(cfg, m)
       case STEP_EDIT =>
         && Editing(cfg, m)
         && RuntimeStep(CurrentDescriptor(cfg, m), m.steps[m.stepIndex])
         && RuntimeStep(CurrentDescriptor(cfg, m), m.originalStep)
  }

  /** The two edit modes: the draft and the cached step belong to the current item's parameter. */
  ghost predicate Editing(cfg: Config, m: Menu)
    requires ValidConfig(cfg)
  {
    && OnParameter(cfg, m)
    && m.stepIndex == CurrentPosition(cfg, m)
    && CurrentDescriptor(cfg, m).writable
    && DraftFits(CurrentDescriptor(cfg, m), m.editValue)
    && Admits(CurrentDescriptor(cfg, m), m.originalValue)
  }

  lemma {:induction false} CurrentItemIsValid(cfg: Config, m: Menu)
    requires ValidConfig(cfg) && InGroup(cfg, m)
    ensures ValidItem(cfg, CurrentItem(cfg, m))
  {
    assert ValidRoot(cfg, cfg.roots[m.rootIndex]);
  }

  /** mizu_menu_handle_event. */
  ghost function Step(cfg: Config, m: Menu, event: Event, owners: Owners, now: uint32): Outcome
    requires Inv(cfg, m)
  {
    match m.mode
    case ROOT => RootStep(cfg, m, event)
    case GROUP => CurrentItemIsValid(cfg, m); GroupStep(cfg, m, event, owners, now)
    case PARAMETER_EDIT => EditStep(cfg, m, event, owners, now)
    case STEP_EDIT => StepEditStep(cfg, m, event)
    case COMMAND_CONFIRM => ConfirmStep(cfg, m, event, owners, now)
    case DISPLAY_PAGE => PageStep(cfg, m, event)
  }

  /** mizu_menu_process: feedback ends when now is at or past the deadline, in wrapping time. */
  function Processed(m: Menu, now: uint32): Menu {
    if m.feedback != NoFeedback && (now - m.deadlineMs) % 0x1_0000_0000 < 0x8000_0000 then m.(feedback := NoFeedback)
    else m
  }
}

/** What every sequence of events keeps, whatever the owners answer. */
module MenuSafety {
  import opened Division
  import opened Integers
  import opened MizuStatuses
  import opened ParameterSpec
  import opened ParameterRegistry
  import opened MenuSpec

  lemma {:induction false} InitialInv(cfg: Config)
    requires ValidConfig(cfg)
    ensures Inv(cfg, InitialMenu(cfg))
  {
    var steps := InitialSteps(cfg.parameters);
    forall k | 0 <= k < |steps| ensures StepFits(cfg.parameters[k], steps[k]) {
      ValidMeans(cfg.parameters[k]);
    }
  }

  lemma {:induction false} EnterEditKeepsInv(cfg: Config, m: Menu, owners: Owners, now: uint32)
    requires Inv(cfg, m) && m.mode == GROUP && OnParameter(cfg, m)
    ensures Inv(cfg, EnterEditStep(cfg, m, owners, now).menu)
  {
    CurrentItemIsValid(cfg, m);
  }

  lemma {:induction false} GroupKeepsInv(cfg: Config, m: Menu, event: Event, owners: Owners, now: uint32)
    requires Inv(cfg, m) && m.mode == GROUP
    ensures Inv(cfg, Step(cfg, m, event, owners, now).menu)
  {
    CurrentItemIsValid(cfg, m);
    if event.kind == ACTIVATE && CurrentItem(cfg, m).ParameterItem? {
      EnterEditKeepsInv(cfg, m, owners, now);
    }
  }

  /** Adjusting keeps the draft within the bounds, or leaves it to a bool whose bounds coincide. */
  lemma {:induction false} AdjustKeepsDraft(d: Descriptor, value: Value, step: Value, amount: int32)
    requires Valid(d) && DraftFits(d, value) && AdjustValue(d, value, step, amount).Success?
    ensures DraftFits(d, AdjustValue(d, value, step, amount).value)
  {
    AdjustClamps(d, value, step, amount);
    if d.valueType == BOOL {
      AdjustBoolSelects(d, value, step, amount);
    }
  }

  lemma {:induction false} AdjustKeepsInv(cfg: Config, m: Menu, event: Event, owners: Owners, now: uint32)
    requires Inv(cfg, m) && m.mode == PARAMETER_EDIT && event.kind == ADJUST_VALUE
    ensures Inv(cfg, EditStep(cfg, m, event, owners, now).menu)
  {
    var d := CurrentDescriptor(cfg, m);
    if AdjustValue(d, m.editValue, m.steps[m.stepIndex], event.amount).Success? {
      AdjustKeepsDraft(d, m.editValue, m.steps[m.stepIndex], event.amount);
    }
  }

  lemma {:induction false} FeedbackKeepsInv(cfg: Config, m: Menu, feedback: Feedback, deadlineMs: uint32)
    requires Inv(cfg, m)
    ensures Inv(cfg, m.(feedback := feedback, deadlineMs := deadlineMs))
  {
  }

  /** The draft may be replaced by a value that was read, and the editor may be left. */
  lemma {:induction false} DraftKeepsInv(cfg: Config, m: Menu, value: Value)
    requires Inv(cfg, m) && m.mode == PARAMETER_EDIT && Admits(CurrentDescriptor(cfg, m), value)
    ensures Inv(cfg, m.(editValue := value, originalValue := value)) && Inv(cfg, m.(mode := GROUP))
  {
  }

  lemma {:induction false} CommitKeepsInv(cfg: Config, m: Menu, owners: Owners, now: uint32)
    requires Inv(cfg, m) && m.mode == PARAMETER_EDIT
    ensures Inv(cfg, CommitStep(cfg, m, owners, now).menu)
  {
    var current, after := owners.reading.value, CommitStep(cfg, m, owners, now).menu;
    FeedbackKeepsInv(cfg, m, after.feedback, after.deadlineMs);
    if ReadingStatus(CurrentDescriptor(cfg, m), owners.reading) == OK {
      DraftKeepsInv(cfg, m, current);
      FeedbackKeepsInv(cfg, m.(editValue := current, originalValue := current), after.feedback, after.deadlineMs);
      FeedbackKeepsInv(cfg, m.(mode := GROUP), after.feedback, after.deadlineMs);
    }
  }

  lemma {:induction false} EditKeepsInv(cfg: Config, m: Menu, event: Event, owners: Owners, now: uint32)
    requires Inv(cfg, m) && m.mode == PARAMETER_EDIT
    ensures Inv(cfg, EditStep(cfg, m, event, owners, now).menu)
  {
    match event.kind {
      case ADJUST_VALUE => AdjustKeepsInv(cfg, m, event, owners, now);
      case ACTIVATE => CommitKeepsInv(cfg, m, owners, now);
      case OPEN_STEP_EDITOR => assert StepFits(CurrentDescriptor(cfg, m), m.steps[m.stepIndex]);
      case _ =>
    }
  }

  lemma {:induction false} StepEditKeepsInv(cfg: Config, m: Menu, event: Event, owners: Owners, now: uint32)
    requires Inv(cfg, m) && m.mode == STEP_EDIT
    ensures Inv(cfg, Step(cfg, m, event, owners, now).menu)
  {
    var d := CurrentDescriptor(cfg, m);
    if event.kind == ADJUST_STEP && -1 <= event.amount <= 1 {
      ScaleKeepsStepsValid(d, m.steps[m.stepIndex], event.amount);
    }
  }

  /** Every event keeps the invariant, for every answer of the owners. */
  lemma {:induction false} StepKeepsInv(cfg: Config, m: Menu, event: Event, owners: Owners, now: uint32)
    requires Inv(cfg, m)
    ensures Inv(cfg, Step(cfg, m, event, owners, now).menu)
  {
    match m.mode {
      case GROUP => GroupKeepsInv(cfg, m, event, owners, now);
      case PARAMETER_EDIT => EditKeepsInv(cfg, m, event, owners, now);
      case STEP_EDIT => StepEditKeepsInv(cfg, m, event, owners, now);
      case _ =>
    }
  }

  lemma {:induction false} RefusedInGroup(cfg: Config, m: Menu, event: Event, owners: Owners, now: uint32)
    requires Inv(cfg, m) && m.mode == GROUP && ValidItem(cfg, CurrentItem(cfg, m))
    ensures var outcome := GroupStep(cfg, m, event, owners, now);
            outcome.status != OK ==> outcome.menu == m && outcome.calls == []
  {
  }

  lemma {:induction false} RefusedInEdit(cfg: Config, m: Menu, event: Event, owners: Owners, now: uint32)
    requires Inv(cfg, m) && m.mode == PARAMETER_EDIT
    ensures var outcome := EditStep(cfg, m, event, owners, now);
            outcome.status != OK ==> outcome.menu == m && outcome.calls == []
  {
  }

  /** An event that is refused changes nothing at all and reaches no owner. */
  lemma {:induction false} RefusedChangesNothing(cfg: Config, m: Menu, event: Event, owners: Owners, now: uint32)
    requires Inv(cfg, m)
    ensures var outcome := Step(cfg, m, event, owners, now);
            outcome.status != OK ==> outcome.menu == m && outcome.calls == []
  {
    match m.mode {
      case GROUP =>
        CurrentItemIsValid(cfg, m);
        RefusedInGroup(cfg, m, event, owners, now);
      case PARAMETER_EDIT => RefusedInEdit(cfg, m, event, owners, now);
      case _ =>
    }
  }

  /** Scaling by one decade or none never fails in the step editor; any other amount is refused. */
  lemma {:induction false} StepScalingNeverFails(cfg: Config, m: Menu, amount: int32, owners: Owners, now: uint32)
    requires Inv(cfg, m) && m.mode == STEP_EDIT
    ensures Step(cfg, m, Event(ADJUST_STEP, amount), owners, now).status ==
            if -1 <= amount <= 1 then OK else INVALID_ARGUMENT
  {
    if -1 <= amount <= 1 {
      ScaleKeepsStepsValid(CurrentDescriptor(cfg, m), m.steps[m.stepIndex], amount);
    }
  }

  /**
   The setter is called exactly when ACTIVATE in PARAMETER_EDIT read back the value that was shown and
   the draft is admissible; it is called once, after that read, with the draft of the current parameter.
   */
  lemma {:induction false} SetterDiscipline(cfg: Config, m: Menu, event: Event, owners: Owners, now: uint32)
    requires Inv(cfg, m)
    ensures var calls := Step(cfg, m, event, owners, now).calls;
            if m.mode == PARAMETER_EDIT && event.kind == ACTIVATE
               && owners.reading == Reading(OK, m.originalValue)
               && Admits(CurrentDescriptor(cfg, m), m.editValue)
            then calls == [GetCall(CurrentDescriptor(cfg, m).id), SetCall(CurrentDescriptor(cfg, m).id, m.editValue)]
            else forall c :: c in calls ==> !c.SetCall?
  {
  }

  /**
   A handler runs exactly for ACTIVATE on a command: in the group when it needs no confirmation, in the
   confirmation when it does; and then exactly once.
   */
  lemma {:induction false} HandlerDiscipline(cfg: Config, m: Menu, event: Event, owners: Owners, now: uint32)
    requires Inv(cfg, m)
    ensures var outcome := Step(cfg, m, event, owners, now);
            if event.kind == ACTIVATE &&
               (m.mode == COMMAND_CONFIRM ||
                (m.mode == GROUP && CurrentItem(cfg, m).CommandItem? && !CurrentItem(cfg, m).requiresConfirmation))
            then outcome.calls == [ExecuteCall(CurrentItem(cfg, m).commandId)] && outcome.menu.mode == GROUP
            else forall c :: c in outcome.calls ==> !c.ExecuteCall?
  {
    if m.mode == GROUP || m.mode == COMMAND_CONFIRM {
      CurrentItemIsValid(cfg, m);
    }
  }

  // ---------------------------------------------------------------- runs

  datatype Input = Input(event: Event, owners: Owners, now: uint32)

  /** The menu after a sequence of inputs. */
  ghost function After(cfg: Config, m: Menu, inputs: seq<Input>): (r: Menu)
    requires Inv(cfg, m)
    ensures Inv(cfg, r)
    decreases |inputs|
  {
    if inputs == [] then m
    else
      StepKeepsInv(cfg, m, inputs[0].event, inputs[0].owners, inputs[0].now);
      After(cfg, Step(cfg, m, inputs[0].event, inputs[0].owners, inputs[0].now).menu, inputs[1..])
  }

  ghost function CallsOf(cfg: Config, m: Menu, inputs: seq<Input>): seq<Call>
    requires Inv(cfg, m)
    decreases |inputs|
  {
    if inputs == [] then []
    else
      var outcome := Step(cfg, m, inputs[0].event, inputs[0].owners, inputs[0].now);
      StepKeepsInv(cfg, m, inputs[0].event, inputs[0].owners, inputs[0].now);
      outcome.calls + CallsOf(cfg, outcome.menu, inputs[1..])
  }

  /** Every reachable menu satisfies the invariant. */
  lemma {:induction false} ReachableInv(cfg: Config, inputs: seq<Input>)
    requires ValidConfig(cfg)
    ensures Inv(cfg, InitialMenu(cfg)) && Inv(cfg, After(cfg, InitialMenu(cfg), inputs))
  {
    InitialInv(cfg);
  }

  /** The draft of every reachable edit is within the bounds, unless it is a bool whose bounds coincide. */
  lemma {:induction false} ReachableDrafts(cfg: Config, inputs: seq<Input>)
    requires ValidConfig(cfg)
    ensures Inv(cfg, InitialMenu(cfg))
    ensures var m := After(cfg, InitialMenu(cfg), inputs);
            m.mode == PARAMETER_EDIT || m.mode == STEP_EDIT ==>
              && OnParameter(cfg, m) && m.stepIndex == CurrentPosition(cfg, m)
              && m.editValue.Type() == CurrentDescriptor(cfg, m).valueType
              && (Admits(CurrentDescriptor(cfg, m), m.editValue) || Escapes(CurrentDescriptor(cfg, m)))
  {
    ReachableInv(cfg, inputs);
  }

  /**
   The exception is real: a bool whose bounds coincide, being edited with an admissible draft, leaves
   them after one adjustment; the draft is then stuck, and committing it is refused without a setter call.
   */
  lemma {:induction false} EscapedDraft(cfg: Config, m: Menu, owners: Owners, now: uint32)
    requires Inv(cfg, m) && m.mode == PARAMETER_EDIT
    requires Escapes(CurrentDescriptor(cfg, m)) && Admits(CurrentDescriptor(cfg, m), m.editValue)
    ensures var amount: int32 := if m.editValue.b then -1 else 1;
            var outcome := Step(cfg, m, Event(ADJUST_VALUE, amount), owners, now);
            && outcome.status == OK && outcome.menu.mode == PARAMETER_EDIT
            && Inv(cfg, outcome.menu)
            && !Admits(CurrentDescriptor(cfg, m), outcome.menu.editValue)
            && (forall again: int32 ::
                  Step(cfg, outcome.menu, Event(ADJUST_VALUE, again), owners, now).menu.editValue ==
                      outcome.menu.editValue)
            && (forall c :: c in Step(cfg, outcome.menu, Event(ACTIVATE, 0), owners, now).calls ==> !c.SetCall?)
  {
    var d := CurrentDescriptor(cfg, m);
    var amount: int32 := if m.editValue.b then -1 else 1;
    assert StepFits(d, m.steps[m.stepIndex]);
    ValidMeans(d);
    AdjustClamps(d, m.editValue, m.steps[m.stepIndex], amount);
    AdjustBoolSelects(d, m.editValue, m.steps[m.stepIndex], amount);
    StepKeepsInv(cfg, m, Event(ADJUST_VALUE, amount), owners, now);
    var after := Step(cfg, m, Event(ADJUST_VALUE, amount), owners, now).menu;
    SetterDiscipline(cfg, after, Event(ACTIVATE, 0), owners, now);
  }

  /** Activations that confirm this command, along a run. */
  ghost function Confirmations(cfg: Config, m: Menu, inputs: seq<Input>, id: uint16): nat
    requires Inv(cfg, m)
    decreases |inputs|
  {
    if inputs == [] then 0
    else
      StepKeepsInv(cfg, m, inputs[0].event, inputs[0].owners, inputs[0].now);
      (if m.mode == COMMAND_CONFIRM && inputs[0].event.kind == ACTIVATE && CurrentItem(cfg, m).commandId == id
       then 1 else 0)
      + Confirmations(cfg, Step(cfg, m, inputs[0].event, inputs[0].owners, inputs[0].now).menu, inputs[1..], id)
  }

  ghost function Executions(calls: seq<Call>, id: uint16): nat {
    if calls == [] then 0 else (if calls[0] == ExecuteCall(id) then 1 else 0) + Executions(calls[1..], id)
  }

  lemma {:induction false} ExecutionsSum(a: seq<Call>, b: seq<Call>, id: uint16)
    ensures Executions(a + b, id) == Executions(a, id) + Executions(b, id)
  {
    if a == [] {
      assert a + b == b;
    } else {
      assert (a + b)[1..] == a[1..] + b;
      ExecutionsSum(a[1..], b, id);
    }
  }

  lemma {:induction false} NoExecutions(calls: seq<Call>, id: uint16)
    requires forall c :: c in calls ==> !c.ExecuteCall?
    ensures Executions(calls, id) == 0
  {
    if calls != [] {
      NoExecutions(calls[1..], id);
    }
  }

  /** Every item that runs this command asks for confirmation. */
  ghost predicate AlwaysConfirmed(cfg: Config, id: uint16) {
    forall r, i :: 0 <= r < |cfg.roots| && cfg.roots[r].GroupRoot? && 0 <= i < |cfg.roots[r].items|
      && cfg.roots[r].items[i].CommandItem? && cfg.roots[r].items[i].commandId == id
      ==> cfg.roots[r].items[i].requiresConfirmation
  }

  /** Over every run, a command that requires confirmation is executed once per confirmation and never otherwise. */
  lemma {:induction false} ExecutedOncePerConfirmation(cfg: Config, m: Menu, inputs: seq<Input>, id: uint16)
    requires Inv(cfg, m) && AlwaysConfirmed(cfg, id)
    ensures Executions(CallsOf(cfg, m, inputs), id) == Confirmations(cfg, m, inputs, id)
    decreases |inputs|
  {
    if inputs != [] {
      var input := inputs[0];
      var outcome := Step(cfg, m, input.event, input.owners, input.now);
      StepKeepsInv(cfg, m, input.event, input.owners, input.now);
      ExecutedOncePerConfirmation(cfg, outcome.menu, inputs[1..], id);
      ExecutionsSum(outcome.calls, CallsOf(cfg, outcome.menu, inputs[1..]), id);
      HandlerDiscipline(cfg, m, input.event, input.owners, input.now);
      if forall c :: c in outcome.calls ==> !c.ExecuteCall? {
        NoExecutions(outcome.calls, id);
      } else {
        assert Executions(outcome.calls[1..], id) == 0;
      }
    }
  }

  /** A value that the owner of this parameter may receive. */
  ghost predicate Sendable(cfg: Config, id: uint16, value: Value) {
    var k := Lookup(cfg.parameters, id);
    k.Some? && var d := cfg.parameters[k.value]; d.id == id && Valid(d) && d.writable && Admits(d, value)
  }

  /** Every setter call of the sequence carries a value within bounds and follows a read of the same parameter. */
  ghost predicate ProperCalls(cfg: Config, calls: seq<Call>) {
    forall k :: 0 <= k < |calls| && calls[k].SetCall? ==>
      k > 0 && calls[k - 1] == GetCall(calls[k].parameterId) && Sendable(cfg, calls[k].parameterId, calls[k].value)
  }

  /** One event makes proper calls only. */
  lemma {:induction false} StepCallsAreProper(cfg: Config, m: Menu, event: Event, owners: Owners, now: uint32)
    requires Inv(cfg, m)
    ensures ProperCalls(cfg, Step(cfg, m, event, owners, now).calls)
  {
    SetterDiscipline(cfg, m, event, owners, now);
    var calls := Step(cfg, m, event, owners, now).calls;
    if c :| c in calls && c.SetCall? {
      assert calls == [GetCall(CurrentDescriptor(cfg, m).id), SetCall(CurrentDescriptor(cfg, m).id, m.editValue)];
    }
  }

  /** Over every run, whatever the owners answer, no owner ever receives a value that is not sendable. */
  lemma {:induction false} OwnersReceiveProperCalls(cfg: Config, m: Menu, inputs: seq<Input>)
    requires Inv(cfg, m)
    ensures ProperCalls(cfg, CallsOf(cfg, m, inputs))
    decreases |inputs|
  {
    if inputs != [] {
      var input := inputs[0];
      var outcome := Step(cfg, m, input.event, input.owners, input.now);
      StepKeepsInv(cfg, m, input.event, input.owners, input.now);
      StepCallsAreProper(cfg, m, input.event, input.owners, input.now);
      OwnersReceiveProperCalls(cfg, outcome.menu, inputs[1..]);
      ProperCallsJoin(cfg, outcome.calls, CallsOf(cfg, outcome.menu, inputs[1..]));
    }
  }

  lemma {:induction false} ProperCallsJoin(cfg: Config, a: seq<Call>, b: seq<Call>)
    requires ProperCalls(cfg, a) && ProperCalls(cfg, b)
    ensures ProperCalls(cfg, a + b)
  {
    forall k | 0 <= k < |a + b| && (a + b)[k].SetCall?
      ensures k > 0 && (a + b)[k - 1] == GetCall((a + b)[k].parameterId) &&
        Sendable(cfg, (a + b)[k].parameterId, (a + b)[k].value)
    {
      if k < |a| {
        assert a[k].SetCall?;
      } else {
        assert b[k - |a|].SetCall?;
      }
    }
  }

  // ---------------------------------------------------------------- what BACK undoes

  /**
   Leaving the step editor with BACK after any amount of step editing restores the menu as it was when
   the editor was opened; nothing else was touched meanwhile.
   */
  lemma {:induction false} BackUndoesStepEditing(cfg: Config, m: Menu, open: Input, inputs: seq<Input>, back: Input)
    requires Inv(cfg, m) && m.mode == PARAMETER_EDIT && open.event.kind == OPEN_STEP_EDITOR && back.event.kind == BACK
    requires Step(cfg, m, open.event, open.owners, open.now).status == OK
    requires forall k :: 0 <= k < |inputs| ==> inputs[k].event.kind != ACTIVATE && inputs[k].event.kind != BACK
    ensures var start := Step(cfg, m, open.event, open.owners, open.now).menu;
            Inv(cfg, start) &&
            var edited := After(cfg, start, inputs);
            edited.mode == STEP_EDIT &&
            Step(cfg, edited, back.event, back.owners, back.now).menu == m.(originalStep := m.steps[m.stepIndex])
  {
    StepKeepsInv(cfg, m, open.event, open.owners, open.now);
    var start := Step(cfg, m, open.event, open.owners, open.now).menu;
    StepEditingIsLocal(cfg, start, inputs);
    var edited := After(cfg, start, inputs);
    assert edited.steps[m.stepIndex := m.steps[m.stepIndex]] == m.steps;
  }

  /** Events other than ACTIVATE and BACK stay in the step editor and change only the cached step. */
  lemma {:induction false} StepEditingIsLocal(cfg: Config, m: Menu, inputs: seq<Input>)
    requires Inv(cfg, m) && m.mode == STEP_EDIT
    requires forall k :: 0 <= k < |inputs| ==> inputs[k].event.kind != ACTIVATE && inputs[k].event.kind != BACK
    ensures var edited := After(cfg, m, inputs);
            && edited.mode == STEP_EDIT
            && edited == m.(steps := edited.steps)
            && |edited.steps| == |m.steps|
            && forall k :: 0 <= k < |m.steps| && k != m.stepIndex ==> edited.steps[k] == m.steps[k]
    decreases |inputs|
  {
    if inputs != [] {
      var input := inputs[0];
      StepKeepsInv(cfg, m, input.event, input.owners, input.now);
      var next := Step(cfg, m, input.event, input.owners, input.now).menu;
      assert inputs[0].event.kind != ACTIVATE && inputs[0].event.kind != BACK;
      assert next.mode == STEP_EDIT && next == m.(steps := next.steps);
      StepEditingIsLocal(cfg, next, inputs[1..]);
    }
  }

  // ---------------------------------------------------------------- how long feedback is shown

  /** The time since the deadline, for feedback of duration d that was reported at t, when it is t + e. */
  lemma {:induction false} SinceDeadline(t: uint32, d: nat, e: nat)
    ensures ((t + e) % 0x1_0000_0000 - (t + d) % 0x1_0000_0000) % 0x1_0000_0000 == (e - d) % 0x1_0000_0000
  {
    var p := 0x1_0000_0000;
    var since := (t + e) % p - (t + d) % p;
    var q := (t + e) / p - (t + d) / p + since / p;
    DivideBack(t + e, p, (t + e) / p);
    DivideBack(t + d, p, (t + d) / p);
    DivideBack(since, p, since / p);
    DivideUniquely(e - d, p, q, since % p);
  }

  /** The feedback is as before, or reported with the deadline one duration ahead. */
  ghost predicate AsBeforeOrAhead(cfg: Config, m: Menu, after: Menu, t: uint32) {
    || (after.feedback == m.feedback && after.deadlineMs == m.deadlineMs)
    || (after.feedback != NoFeedback && after.deadlineMs == Deadline(cfg, t))
  }

  lemma {:induction false} CommitReports(cfg: Config, m: Menu, owners: Owners, t: uint32)
    requires ValidConfig(cfg) && OnParameter(cfg, m)
    ensures AsBeforeOrAhead(cfg, m, CommitStep(cfg, m, owners, t).menu, t)
  {
  }

  lemma {:induction false} EditReports(cfg: Config, m: Menu, event: Event, owners: Owners, t: uint32)
    requires ValidConfig(cfg) && OnParameter(cfg, m) && m.stepIndex < |m.steps|
    ensures AsBeforeOrAhead(cfg, m, EditStep(cfg, m, event, owners, t).menu, t)
  {
    CommitReports(cfg, m, owners, t);
  }

  lemma {:induction false} GroupReports(cfg: Config, m: Menu, event: Event, owners: Owners, t: uint32)
    requires Inv(cfg, m) && m.mode == GROUP
    ensures AsBeforeOrAhead(cfg, m, Step(cfg, m, event, owners, t).menu, t)
  {
    CurrentItemIsValid(cfg, m);
  }

  lemma {:induction false} ReportsAhead(cfg: Config, m: Menu, event: Event, owners: Owners, t: uint32)
    requires Inv(cfg, m)
    ensures AsBeforeOrAhead(cfg, m, Step(cfg, m, event, owners, t).menu, t)
  {
    match m.mode {
      case GROUP => GroupReports(cfg, m, event, owners, t);
      case PARAMETER_EDIT => EditReports(cfg, m, event, owners, t);
      case _ =>
    }
  }

  lemma {:induction false} ExpiryInTime(d: int, e: int)
    requires 0 < d <= INT32_MAX && 0 <= e < d + 0x8000_0000
    ensures (e - d) % 0x1_0000_0000 < 0x8000_0000 <==> d <= e
  {
    if d <= e {
      DivideUniquely(e - d, 0x1_0000_0000, 0, e - d);
    } else {
      DivideUniquely(e - d, 0x1_0000_0000, -1, e - d + 0x1_0000_0000);
    }
  }

  /** Whatever is shown with a deadline d after time t is shown at t + e exactly for e below d. */
  lemma {:induction false} ProcessedInTime(m: Menu, t: uint32, d: nat, e: nat)
    requires 0 < d <= INT32_MAX && e < d + 0x8000_0000 && m.deadlineMs == (t + d) % 0x1_0000_0000
    ensures Processed(m, (t + e) % 0x1_0000_0000) == if e < d then m else m.(feedback := NoFeedback)
  {
    SinceDeadline(t, d, e);
    ExpiryInTime(d, e);
    assert m.feedback == NoFeedback ==> m.(feedback := NoFeedback) == m;
  }

  /**
   Feedback that an event reports at time t is gone, when the menu is processed at t + e, exactly if the
   wrapping time since its deadline is below half the range: within that range of the deadline, exactly
   if the configured duration has passed. Processing changes nothing else.
   */
  lemma {:induction false} FeedbackExpires(cfg: Config, m: Menu, event: Event, owners: Owners, t: uint32, e: nat)
    requires Inv(cfg, m) && 0 < cfg.feedbackDurationMs <= INT32_MAX
    ensures var d, after := cfg.feedbackDurationMs, Step(cfg, m, event, owners, t).menu;
            var later := Processed(after, (t + e) % 0x1_0000_0000);
            && later == after.(feedback := later.feedback)
            && (later.feedback == NoFeedback || later.feedback == after.feedback)
            && (after.feedback != m.feedback || after.deadlineMs != m.deadlineMs ==>
                  && after.feedback != NoFeedback
                  && (later.feedback == NoFeedback <==> (e - d) % 0x1_0000_0000 < 0x8000_0000)
                  && (e < d + 0x8000_0000 ==> (later.feedback == NoFeedback <==> d <= e)))
  {
    ReportsAhead(cfg, m, event, owners, t);
    SinceDeadline(t, cfg.feedbackDurationMs, e);
    if e < cfg.feedbackDurationMs + 0x8000_0000 {
      ExpiryInTime(cfg.feedbackDurationMs, e);
    }
  }
}
