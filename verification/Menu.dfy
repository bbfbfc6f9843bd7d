/** What mizu_menu_init checks about the tree of a menu, as the first fault in the order of the tree. */
module MenuTree {
  import opened MizuStatuses
  import opened ParameterRegistry
  import opened MenuSpec
  import Safety = MenuSafety

  predicate SameBinding(a: Item, b: Item) {
    || (a.ParameterItem? && b.ParameterItem? && a.parameterId == b.parameterId)
    || (a.CommandItem? && b.CommandItem? && a.commandId == b.commandId)
  }

  /** An earlier item of the tree is bound to the same parameter or command. */
  ghost predicate BindingBefore(roots: seq<Root>, r: nat, i: nat)
    requires r < |roots| && roots[r].GroupRoot? && i < |roots[r].items|
  {
    exists s, j :: 0 <= s <= r && roots[s].GroupRoot? && 0 <= j < |roots[s].items| && (s < r || j < i)
      && SameBinding(roots[s].items[j], roots[r].items[i])
  }

  ghost predicate RootBefore(roots: seq<Root>, r: nat)
    requires r < |roots|
  {
    exists s :: 0 <= s < r && SameRoot(roots[s], roots[r])
  }

  predicate SameRoot(a: Root, b: Root) {
    || (a.GroupRoot? && b.GroupRoot? && a.groupId == b.groupId)
    || (a.PageRoot? && b.PageRoot? && a.pageId == b.pageId)
  }

  /** mizu_menu_validate_item. */
  ghost function ItemStatus(cfg: Config, r: nat, i: nat): MizuStatus
    requires r < |cfg.roots| && cfg.roots[r].GroupRoot? && i < |cfg.roots[r].items|
  {
    match cfg.roots[r].items[i]
    case ParameterItem(id) =>
      if Lookup(cfg.parameters, id).None? then OUT_OF_RANGE
      else if !ValidItem(cfg, cfg.roots[r].items[i]) || BindingBefore(cfg.roots, r, i) then INVALID_ARGUMENT
      else OK
    case CommandItem(id, _) =>
      if id !in cfg.commands then OUT_OF_RANGE
      else if BindingBefore(cfg.roots, r, i) then INVALID_ARGUMENT
      else OK
  }

  /** The first fault among the first n items of a group. */
  ghost function ItemsStatus(cfg: Config, r: nat, n: nat): MizuStatus
    requires r < |cfg.roots| && cfg.roots[r].GroupRoot? && n <= |cfg.roots[r].items|
  {
    if n == 0 then OK
    else
      var earlier := ItemsStatus(cfg, r, n - 1);
      if earlier != OK then earlier else ItemStatus(cfg, r, n - 1)
  }

  ghost function RootStatus(cfg: Config, r: nat): MizuStatus
    requires r < |cfg.roots|
  {
    match cfg.roots[r]
    case GroupRoot(_, titled, items) =>
      if !titled || items == [] || RootBefore(cfg.roots, r) then INVALID_ARGUMENT else ItemsStatus(cfg, r, |items|)
    case PageRoot(_, titled, pageCount) =>
      if !titled || pageCount == 0 || RootBefore(cfg.roots, r) then INVALID_ARGUMENT else OK
  }

  /** mizu_menu_validate_roots, for the first n roots. */
  ghost function RootsStatus(cfg: Config, n: nat): MizuStatus
    requires n <= |cfg.roots|
  {
    if n == 0 then OK
    else
      var earlier := RootsStatus(cfg, n - 1);
      if earlier != OK then earlier else RootStatus(cfg, n - 1)
  }

  /** A tree that may be built: every entry is titled, usable and unique. */
  ghost predicate WellBuilt(cfg: Config) {
    forall r :: 0 <= r < |cfg.roots| ==> WellBuiltRoot(cfg, r)
  }

  ghost predicate WellBuiltRoot(cfg: Config, r: nat)
    requires r < |cfg.roots|
  {
    var root := cfg.roots[r];
    && root.titled && ValidRoot(cfg, root) && !RootBefore(cfg.roots, r)
    && (root.GroupRoot? ==> forall i :: 0 <= i < |root.items| ==> !BindingBefore(cfg.roots, r, i))
  }

  lemma {:induction false} ItemsOk(cfg: Config, r: nat, n: nat)
    requires r < |cfg.roots| && cfg.roots[r].GroupRoot? && n <= |cfg.roots[r].items|
    ensures ItemsStatus(cfg, r, n) == OK <==>
      forall i :: 0 <= i < n ==> ValidItem(cfg, cfg.roots[r].items[i]) && !BindingBefore(cfg.roots, r, i)
  {
    if n > 0 {
      ItemsOk(cfg, r, n - 1);
    }
  }

  lemma {:induction false} RootOk(cfg: Config, r: nat)
    requires r < |cfg.roots|
    ensures RootStatus(cfg, r) == OK <==> WellBuiltRoot(cfg, r)
  {
    var root := cfg.roots[r];
    if root.GroupRoot? {
      ItemsOk(cfg, r, |root.items|);
    }
  }

  lemma {:induction false} RootsOk(cfg: Config, n: nat)
    requires n <= |cfg.roots|
    ensures RootsStatus(cfg, n) == OK <==> forall r :: 0 <= r < n ==> WellBuiltRoot(cfg, r)
  {
    if n > 0 {
      RootsOk(cfg, n - 1);
      RootOk(cfg, n - 1);
    }
  }

  /** The tree is accepted exactly when it is well built, and then events can be handled. */
  lemma {:induction false} TreeAccepted(cfg: Config)
    ensures RootsStatus(cfg, |cfg.roots|) == OK <==> WellBuilt(cfg)
    ensures RegisteredFlat(cfg.parameters) && cfg.roots != [] && WellBuilt(cfg) ==> ValidConfig(cfg)
  {
    RootsOk(cfg, |cfg.roots|);
    if WellBuilt(cfg) {
      forall r | 0 <= r < |cfg.roots| ensures ValidRoot(cfg, cfg.roots[r]) {
        assert WellBuiltRoot(cfg, r);
      }
    }
  }

  lemma {:induction false} EarlierBinding(roots: seq<Root>, r: nat, i: nat, s: nat, j: nat)
    requires r < |roots| && roots[r].GroupRoot? && i < |roots[r].items|
    requires s < |roots| && roots[s].GroupRoot? && j < |roots[s].items|
    ensures SameBinding(roots[s].items[j], roots[r].items[i]) && (s < r || (s == r && j < i)) ==>
      BindingBefore(roots, r, i)
  {
  }

  /** In an accepted tree one item decides whether a command requires confirmation. */
  lemma {:induction false} OneItemDecides(cfg: Config, r: nat, i: nat)
    requires WellBuilt(cfg) && r < |cfg.roots| && cfg.roots[r].GroupRoot? && i < |cfg.roots[r].items|
    requires cfg.roots[r].items[i].CommandItem?
    ensures Safety.AlwaysConfirmed(cfg, cfg.roots[r].items[i].commandId) <==> cfg.roots[r].items[i].requiresConfirmation
  {
    var item := cfg.roots[r].items[i];
    forall s: nat, j: nat | s < |cfg.roots| && cfg.roots[s].GroupRoot? && j < |cfg.roots[s].items|
                            && SameBinding(cfg.roots[s].items[j], item)
      ensures s == r && j == i
    {
      assert WellBuiltRoot(cfg, r) && WellBuiltRoot(cfg, s);
      EarlierBinding(cfg.roots, r, i, s, j);
      EarlierBinding(cfg.roots, s, j, r, i);
    }
  }

  lemma {:induction false} RootsStatusPrefix(cfg: Config, n: nat)
    requires n <= |cfg.roots|
    ensures RootsStatus(cfg, n) != OK ==> RootsStatus(cfg, |cfg.roots|) == RootsStatus(cfg, n)
    decreases |cfg.roots| - n
  {
    if n < |cfg.roots| {
      RootsStatusPrefix(cfg, n + 1);
    }
  }

  lemma {:induction false} ItemsStatusPrefix(cfg: Config, r: nat, n: nat)
    requires r < |cfg.roots| && cfg.roots[r].GroupRoot? && n <= |cfg.roots[r].items|
    ensures ItemsStatus(cfg, r, n) != OK ==> ItemsStatus(cfg, r, |cfg.roots[r].items|) == ItemsStatus(cfg, r, n)
    decreases |cfg.roots[r].items| - n
  {
    if n < |cfg.roots[r].items| {
      ItemsStatusPrefix(cfg, r, n + 1);
    }
  }

  /** Item i of group r comes before item j of group s. */
  predicate ComesBefore(r: nat, i: nat, s: nat, j: nat) {
    r < s || (r == s && i < j)
  }

  /** A usable item is a registered writable parameter or a registered command. */
  ghost predicate Bindable(cfg: Config, item: Item) {
    match item
    case ParameterItem(id) =>
      exists k :: 0 <= k < |cfg.parameters| && cfg.parameters[k].id == id && cfg.parameters[k].writable
    case CommandItem(id, _) => id in cfg.commands
  }

  /** The two items name different parameters or commands. */
  predicate Apart(a: Item, b: Item) {
    match (a, b)
    case (ParameterItem(id), ParameterItem(other)) => id != other
    case (CommandItem(id, _), CommandItem(other, _)) => id != other
    case _ => true
  }

  /** Wherever two items stand in the tree, they name different things. */
  ghost predicate ItemsApart(cfg: Config, r: nat, i: nat, s: nat, j: nat) {
    (&& r < |cfg.roots| && cfg.roots[r].GroupRoot? && i < |cfg.roots[r].items|
     && s < |cfg.roots| && cfg.roots[s].GroupRoot? && j < |cfg.roots[s].items| && ComesBefore(r, i, s, j))
    ==> Apart(cfg.roots[r].items[i], cfg.roots[s].items[j])
  }

  /** Two entries of a kind have different ids. */
  ghost predicate RootsApart(cfg: Config, r: nat, s: nat) {
    r < s < |cfg.roots| ==>
      && (cfg.roots[r].GroupRoot? && cfg.roots[s].GroupRoot? ==> cfg.roots[r].groupId != cfg.roots[s].groupId)
      && (cfg.roots[r].PageRoot? && cfg.roots[s].PageRoot? ==> cfg.roots[r].pageId != cfg.roots[s].pageId)
  }

  /** An entry has a title and content, and its items are usable. */
  ghost predicate Complete(cfg: Config, root: Root) {
    && root.titled
    && match root
       case GroupRoot(_, _, items) => items != [] && forall i :: 0 <= i < |items| ==> Bindable(cfg, items[i])
       case PageRoot(_, _, pageCount) => pageCount > 0
  }

  lemma {:induction false} BindableIsValid(cfg: Config, item: Item)
    requires RegisteredFlat(cfg.parameters)
    ensures ValidItem(cfg, item) <==> Bindable(cfg, item)
  {
    if item.ParameterItem? {
      if k :| 0 <= k < |cfg.parameters| && cfg.parameters[k].id == item.parameterId && cfg.parameters[k].writable {
        LookupUnique(cfg.parameters, k);
      }
    }
  }

  lemma {:induction false} CompleteIsValid(cfg: Config, root: Root)
    requires RegisteredFlat(cfg.parameters)
    ensures root.titled && ValidRoot(cfg, root) <==> Complete(cfg, root)
  {
    if root.GroupRoot? {
      forall i | 0 <= i < |root.items| ensures ValidItem(cfg, root.items[i]) <==> Bindable(cfg, root.items[i]) {
        BindableIsValid(cfg, root.items[i]);
      }
    }
  }

  lemma {:induction false} WellBuiltIsApart(cfg: Config, r: nat, i: nat, s: nat, j: nat)
    requires WellBuilt(cfg)
    ensures ItemsApart(cfg, r, i, s, j) && RootsApart(cfg, r, s)
  {
    if r < |cfg.roots| && s < |cfg.roots| {
      assert WellBuiltRoot(cfg, r) && WellBuiltRoot(cfg, s);
      if r < s { assert !RootBefore(cfg.roots, s); }
      if cfg.roots[r].GroupRoot? && cfg.roots[s].GroupRoot? && i < |cfg.roots[r].items| && j < |cfg.roots[s].items| {
        EarlierBinding(cfg.roots, s, j, r, i);
      }
    }
  }

  /** A tree is well built exactly when all entries are complete and no two entries or items name the same thing. */
  lemma {:induction false} WellBuiltMeans(cfg: Config)
    requires RegisteredFlat(cfg.parameters)
    ensures WellBuilt(cfg) <==>
      && (forall r :: 0 <= r < |cfg.roots| ==> Complete(cfg, cfg.roots[r]))
      && (forall r: nat, s: nat :: RootsApart(cfg, r, s))
      && (forall r: nat, i: nat, s: nat, j: nat :: ItemsApart(cfg, r, i, s, j))
  {
    forall r | 0 <= r < |cfg.roots|
      ensures cfg.roots[r].titled && ValidRoot(cfg, cfg.roots[r]) <==> Complete(cfg, cfg.roots[r])
    {
      CompleteIsValid(cfg, cfg.roots[r]);
    }
    if WellBuilt(cfg) {
      forall r: nat, i: nat, s: nat, j: nat ensures ItemsApart(cfg, r, i, s, j) {
        WellBuiltIsApart(cfg, r, i, s, j);
      }
      forall r: nat, s: nat ensures RootsApart(cfg, r, s) {
        WellBuiltIsApart(cfg, r, 0, s, 0);
      }
      forall r | 0 <= r < |cfg.roots| ensures Complete(cfg, cfg.roots[r]) {
        assert WellBuiltRoot(cfg, r);
      }
    } else {
      var r :| 0 <= r < |cfg.roots| && !WellBuiltRoot(cfg, r);
      if RootBefore(cfg.roots, r) {
        var s :| 0 <= s < r && SameRoot(cfg.roots[s], cfg.roots[r]);
        assert !RootsApart(cfg, s, r);
      } else if Complete(cfg, cfg.roots[r]) {
        var s, j, i := ClashOfItems(cfg, r);
      }
    }
  }

  lemma {:induction false} ClashOfItems(cfg: Config, r: nat) returns (s: nat, j: nat, i: nat)
    requires r < |cfg.roots| && cfg.roots[r].GroupRoot?
    requires exists i :: 0 <= i < |cfg.roots[r].items| && BindingBefore(cfg.roots, r, i)
    ensures !ItemsApart(cfg, s, j, r, i)
  {
    i :| 0 <= i < |cfg.roots[r].items| && BindingBefore(cfg.roots, r, i);
    s, j :| 0 <= s <= r && cfg.roots[s].GroupRoot? && 0 <= j < |cfg.roots[s].items| && (s < r || j < i)
            && SameBinding(cfg.roots[s].items[j], cfg.roots[r].items[i]);
    assert !Apart(cfg.roots[s].items[j], cfg.roots[r].items[i]);
  }

  /** The first fault decides, when it is in the head of an entry. */
  lemma {:induction false} FaultyHead(cfg: Config, r: nat)
    requires r < |cfg.roots| && forall s :: 0 <= s < r ==> WellBuiltRoot(cfg, s)
    requires var root := cfg.roots[r];
             || !root.titled || RootBefore(cfg.roots, r)
             || (if root.GroupRoot? then root.items == [] else root.pageCount == 0)
    ensures RootsStatus(cfg, |cfg.roots|) == INVALID_ARGUMENT
  {
    RootsOk(cfg, r);
    RootsStatusPrefix(cfg, r + 1);
  }

  /**
   The first fault decides, when it is an item: an id that is not registered is OUT_OF_RANGE, a read-only
   parameter or an id that is bound already INVALID_ARGUMENT.
   */
  lemma {:induction false} FaultyItem(cfg: Config, r: nat, i: nat)
    requires r < |cfg.roots| && forall s :: 0 <= s < r ==> WellBuiltRoot(cfg, s)
    requires cfg.roots[r].GroupRoot? && cfg.roots[r].titled && !RootBefore(cfg.roots, r)
    requires i < |cfg.roots[r].items|
    requires forall j :: 0 <= j < i ==>
      ValidItem(cfg, cfg.roots[r].items[j]) && !BindingBefore(cfg.roots, r, j)
    requires !ValidItem(cfg, cfg.roots[r].items[i]) || BindingBefore(cfg.roots, r, i)
    ensures var item := cfg.roots[r].items[i];
            var registered := if item.CommandItem? then item.commandId in cfg.commands
                              else exists k :: 0 <= k < |cfg.parameters| && cfg.parameters[k].id == item.parameterId;
            RootsStatus(cfg, |cfg.roots|) == if registered then INVALID_ARGUMENT else OUT_OF_RANGE
  {
    RootsOk(cfg, r);
    ItemsOk(cfg, r, i);
    ItemsStatusPrefix(cfg, r, i + 1);
    RootsStatusPrefix(cfg, r + 1);
  }
}

/** menu.c: the menu object. */
module Menu {
  import opened MizuStatuses
  import opened Integers
  import opened Options
  import opened ParameterSpec
  import opened ParameterRegistry
  import opened MenuSpec
  import opened MenuTree
  import Safety = MenuSafety
  import Service = ParameterService

  class MenuService {
    var roots: seq<Root>
    var service: Service.ParameterService
    var commands: set<uint16>
    var stepCache: array<Value>
    var feedbackDurationMs: uint32
    var mode: Mode
    var rootIndex: nat
    var itemIndex: nat
    var subpageIndex: nat
    var stepIndex: nat
    var editValue: Value
    var originalValue: Value
    var originalStep: Value
    var feedback: Feedback
    var deadlineMs: uint32
    var initialized: bool

    ghost function Cfg(): Config
      reads this, service
    {
      Config(roots, Flatten(service.groups), commands, feedbackDurationMs)
    }

    ghost function View(): MenuSpec.Menu
      reads this, stepCache
    {
      MenuSpec.Menu(mode, rootIndex, itemIndex, subpageIndex, stepIndex, editValue, originalValue, originalStep,
        stepCache[..], feedback, deadlineMs)
    }

    ghost predicate Valid()
      reads this, service, stepCache
    {
      initialized ==> service.initialized && service.Valid() && Inv(Cfg(), View())
    }

    /** The menu is initialized over a registered table, whatever it is showing. */
    ghost predicate Bound()
      reads this, service
    {
      initialized && service.initialized && service.Valid() && ValidConfig(Cfg())
    }

    /** The borrowed parts never change after init. */
    twostate predicate SameBindings()
      reads this
    {
      roots == old(roots) && service == old(service) && commands == old(commands) && stepCache == old(stepCache)
      && feedbackDurationMs == old(feedbackDurationMs) && initialized == old(initialized)
    }

    constructor ()
      ensures Valid() && !initialized
    {
      roots, commands, feedbackDurationMs := [], {}, 0;
      service := new Service.ParameterService();
      stepCache := new Value[0];
      mode, rootIndex, itemIndex, subpageIndex, stepIndex := ROOT, 0, 0, 0, 0;
      editValue, originalValue, originalStep := Int32(0), Int32(0), Int32(0);
      feedback, deadlineMs, initialized := NoFeedback, 0, false;
    }

    // -------------------------------------------------------------- init

    /** mizu_menu_binding_exists. */
    static method BindingExists(tree: seq<Root>, r: nat, i: nat) returns (found: bool)
      requires r < |tree| && tree[r].GroupRoot? && i < |tree[r].items|
      ensures found <==> BindingBefore(tree, r, i)
    {
      var item := tree[r].items[i];
      for s := 0 to r + 1
        invariant forall t, j :: 0 <= t < s && tree[t].GroupRoot? && 0 <= j < |tree[t].items| && (t < r || j < i)
                    ==> !SameBinding(tree[t].items[j], item)
      {
        if !tree[s].GroupRoot? {
          continue;
        }
        var limit := if s == r then i else |tree[s].items|;
        for j := 0 to limit
          invariant forall k :: 0 <= k < j ==> !SameBinding(tree[s].items[k], item)
        {
          if SameBinding(tree[s].items[j], item) {
            return true;
          }
        }
      }
      return false;
    }

    /** mizu_menu_group_id_exists and mizu_menu_page_id_exists. */
    static method RootExists(tree: seq<Root>, r: nat) returns (found: bool)
      requires r < |tree|
      ensures found <==> RootBefore(tree, r)
    {
      for s := 0 to r
        invariant forall t :: 0 <= t < s ==> !SameRoot(tree[t], tree[r])
      {
        if SameRoot(tree[s], tree[r]) {
          return true;
        }
      }
      return false;
    }

    /** mizu_menu_validate_item. */
    static method ValidateItem(ghost cfg: Config, tree: seq<Root>, parameters: Service.ParameterService,
                               registered: set<uint16>, r: nat, i: nat)
      returns (status: MizuStatus)
      requires parameters.initialized && parameters.Valid()
      requires cfg.roots == tree && cfg.parameters == Flatten(parameters.groups) && cfg.commands == registered
      requires r < |tree| && tree[r].GroupRoot? && i < |tree[r].items|
      ensures status == ItemStatus(cfg, r, i)
    {
      match tree[r].items[i]
      case ParameterItem(id) =>
        var descriptor;
        status, descriptor := parameters.Find(id);
        if status != OK {
          return;
        }
        var bound := BindingExists(tree, r, i);
        status := if !descriptor.value.writable || bound then INVALID_ARGUMENT else OK;
      case CommandItem(id, _) =>
        if id !in registered {
          return OUT_OF_RANGE;
        }
        var bound := BindingExists(tree, r, i);
        status := if bound then INVALID_ARGUMENT else OK;
    }

    /** mizu_menu_validate_roots. */
    static method ValidateRoots(ghost cfg: Config, tree: seq<Root>, parameters: Service.ParameterService,
                                registered: set<uint16>)
      returns (status: MizuStatus)
      requires parameters.initialized && parameters.Valid()
      requires cfg.roots == tree && cfg.parameters == Flatten(parameters.groups) && cfg.commands == registered
      ensures status == RootsStatus(cfg, |tree|)
    {
      for r := 0 to |tree|
        invariant RootsStatus(cfg, r) == OK
      {
        RootsStatusPrefix(cfg, r + 1);
        var duplicate := RootExists(tree, r);
        match tree[r]
        case GroupRoot(_, titled, items) =>
          if !titled || |items| == 0 || duplicate {
            return INVALID_ARGUMENT;
          }
          for i := 0 to |items|
            invariant ItemsStatus(cfg, r, i) == OK
          {
            ItemsStatusPrefix(cfg, r, i + 1);
            status := ValidateItem(cfg, tree, parameters, registered, r, i);
            if status != OK {
              return;
            }
          }
        case PageRoot(_, titled, pageCount) =>
          if !titled || pageCount == 0 || duplicate {
            return INVALID_ARGUMENT;
          }
      }
      return OK;
    }

    /** mizu_menu_initialize_steps: walk the groups and copy the registered steps. */
    static method InitializeSteps(groups: seq<Group>, cache: array<Value>)
      requires cache.Length == |Flatten(groups)|
      modifies cache
      ensures cache[..] == InitialSteps(Flatten(groups))
    {
      ghost var flat := Flatten(groups);
      var cacheIndex := 0;
      assert groups[..0] == [] && groups[..|groups|] == groups;
      for g := 0 to |groups|
        invariant cacheIndex == Offset(groups, g) <= |flat|
        invariant forall k :: 0 <= k < cacheIndex ==> cache[k] == flat[k].step
      {
        OffsetStep(groups, g);
        FlattenPrefix(groups, g + 1);
        for p := 0 to |groups[g].parameters|
          invariant cacheIndex == Offset(groups, g) + p
          invariant forall k :: 0 <= k < cacheIndex ==> cache[k] == flat[k].step
        {
          FlatAt(groups, g, p);
          cache[cacheIndex] := groups[g].parameters[p].step;
          cacheIndex := cacheIndex + 1;
        }
      }
    }

    /**
     mizu_menu_init; titled stands for the check of the root title, and registered is None before the
     command service is initialized.
     */
    method Init(titled: bool, tree: seq<Root>, parameters: Service.ParameterService, registered: Option<set<uint16>>,
                cache: array<Value>, durationMs: uint32)
      returns (status: MizuStatus)
      requires Valid() && parameters.Valid()
      modifies this, cache
      ensures Valid()
      ensures status ==
        if old(initialized) then INVALID_STATE
        else if !titled || |tree| == 0 || durationMs == 0 || durationMs > INT32_MAX then INVALID_ARGUMENT
        else if !parameters.initialized || registered.None? then NOT_INITIALIZED
        else if cache.Length != parameters.parameterCount then OUT_OF_RANGE
        else RootsStatus(Config(tree, Flatten(parameters.groups), registered.value, durationMs), |tree|)
      ensures status == OK ==>
        && initialized && Cfg() == Config(tree, Flatten(parameters.groups), registered.value, durationMs)
        && WellBuilt(Cfg()) && stepCache == cache && service == parameters
        && View() == InitialMenu(Cfg())
        && mode == ROOT && rootIndex == 0 && feedback == NoFeedback
        && (forall k :: 0 <= k < cache.Length ==> cache[k] == Flatten(parameters.groups)[k].step)
      ensures status != OK ==> unchanged(this) && unchanged(cache)
    {
      if initialized {
        return INVALID_STATE;
      }
      if !titled || |tree| == 0 || durationMs == 0 || durationMs > INT32_MAX {
        return INVALID_ARGUMENT;
      }
      if !parameters.initialized || registered.None? {
        return NOT_INITIALIZED;
      }
      if cache.Length != parameters.parameterCount {
        return OUT_OF_RANGE;
      }
      ghost var cfg := Config(tree, Flatten(parameters.groups), registered.value, durationMs);
      status := ValidateRoots(cfg, tree, parameters, registered.value);
      if status != OK {
        return;
      }
      TreeAccepted(cfg);
      Safety.InitialInv(cfg);
      Assemble(tree, parameters, registered.value, cache, durationMs);
      return OK;
    }

    method Borrow(tree: seq<Root>, parameters: Service.ParameterService, registered: set<uint16>,
                  cache: array<Value>, durationMs: uint32)
      modifies this`roots, this`service, this`commands, this`stepCache, this`feedbackDurationMs
      ensures roots == tree && service == parameters && commands == registered
      ensures stepCache == cache && feedbackDurationMs == durationMs
    {
      roots, service, commands, stepCache, feedbackDurationMs := tree, parameters, registered, cache, durationMs;
    }

    /** The assignment that ends mizu_menu_init. */
    method Assemble(tree: seq<Root>, parameters: Service.ParameterService, registered: set<uint16>,
                    cache: array<Value>, durationMs: uint32)
      requires parameters.initialized && parameters.Valid() && cache.Length == |Flatten(parameters.groups)|
      modifies this, cache
      ensures initialized && stepCache == cache && service == parameters
      ensures Cfg() == Config(tree, Flatten(parameters.groups), registered, durationMs)
      ensures View() == InitialMenu(Cfg())
    {
      InitializeSteps(parameters.groups, cache);
      Borrow(tree, parameters, registered, cache, durationMs);
      mode, rootIndex, itemIndex, subpageIndex, stepIndex := ROOT, 0, 0, 0, 0;
      editValue, originalValue, originalStep := Int32(0), Int32(0), Int32(0);
      feedback, deadlineMs, initialized := NoFeedback, 0, true;
    }

    // -------------------------------------------------------------- events

    /** mizu_menu_find_step_index: the position at which the step of this parameter was cached. */
    method FindStepIndex(id: uint16) returns (status: MizuStatus, position: nat)
      requires Bound()
      ensures match Lookup(Cfg().parameters, id)
              case Some(k) => status == OK && position == k
              case None => status == OUT_OF_RANGE
    {
      var groups := service.groups;
      ghost var flat := Flatten(groups);
      var linearIndex := 0;
      assert groups[..0] == [] && groups[..|groups|] == groups;
      for g := 0 to |groups|
        invariant linearIndex == Offset(groups, g) <= |flat|
        invariant forall k :: 0 <= k < linearIndex ==> flat[k].id != id
      {
        OffsetStep(groups, g);
        FlattenPrefix(groups, g + 1);
        for p := 0 to |groups[g].parameters|
          invariant linearIndex == Offset(groups, g) + p
          invariant forall k :: 0 <= k < linearIndex ==> flat[k].id != id
        {
          FlatAt(groups, g, p);
          if groups[g].parameters[p].id == id {
            LookupUnique(flat, linearIndex);
            return OK, linearIndex;
          }
          linearIndex := linearIndex + 1;
        }
      }
      return OUT_OF_RANGE, 0;
    }

    /** mizu_menu_set_parameter_feedback. */
    method SetParameterFeedback(id: uint16, reason: Reason, status: MizuStatus, now: uint32)
      modifies this`feedback, this`deadlineMs
      ensures feedback == ParameterFeedback(id, reason, status) && deadlineMs == Deadline(Cfg(), now)
    {
      feedback := ParameterFeedback(id, reason, status);
      deadlineMs := (now + feedbackDurationMs) % 0x1_0000_0000;
    }

    /** mizu_menu_execute_command. */
    method ExecuteCommand(owners: Owners, now: uint32) returns (status: MizuStatus, calls: seq<Call>)
      requires Valid() && initialized && InGroup(Cfg(), View()) && CurrentItem(Cfg(), View()).CommandItem?
      modifies this`mode, this`feedback, this`deadlineMs
      ensures Outcome(View(), status, calls) == ExecuteStep(old(Cfg()), old(View()), owners, now)
    {
      var item := roots[rootIndex].items[itemIndex];
      if item.commandId !in commands {
        return OUT_OF_RANGE, [];
      }
      calls := [ExecuteCall(item.commandId)];
      mode := GROUP;
      feedback := CommandFeedback(item.commandId, owners.handlerStatus);
      deadlineMs := (now + feedbackDurationMs) % 0x1_0000_0000;
      return OK, calls;
    }

    /** mizu_menu_enter_parameter_edit. */
    method EnterParameterEdit(owners: Owners, now: uint32) returns (status: MizuStatus, calls: seq<Call>)
      requires Bound() && OnParameter(Cfg(), View())
      modifies this`mode, this`feedback, this`deadlineMs, this`editValue, this`originalValue, this`stepIndex
      ensures Outcome(View(), status, calls) == EnterEditStep(old(Cfg()), old(View()), owners, now)
    {
      var id := roots[rootIndex].items[itemIndex].parameterId;
      var found, descriptor := service.Find(id);
      var d := descriptor.value;
      var value;
      status, value := service.GetById(d.id, owners.reading);
      calls := [GetCall(d.id)];
      if status != OK {
        SetParameterFeedback(d.id, READ_FAILED, status, now);
        return OK, calls;
      }
      var position;
      status, position := FindStepIndex(d.id);
      editValue := value.value;
      originalValue := value.value;
      stepIndex := position;
      mode := PARAMETER_EDIT;
      return OK, calls;
    }

    /** mizu_menu_handle_root. */
    method HandleRoot(event: Event) returns (status: MizuStatus)
      requires Valid() && initialized && mode == ROOT
      modifies this`mode, this`rootIndex, this`itemIndex, this`subpageIndex
      ensures Outcome(View(), status, []) == RootStep(old(Cfg()), old(View()), event)
    {
      if event.kind == MOVE_SELECTION {
        rootIndex := MoveIndex(rootIndex, |roots|, event.amount);
        return OK;
      }
      if event.kind == ACTIVATE {
        if roots[rootIndex].GroupRoot? {
          itemIndex := 0;
          mode := GROUP;
        } else {
          subpageIndex := 0;
          mode := DISPLAY_PAGE;
        }
        return OK;
      }
      return INVALID_STATE;
    }

    /** mizu_menu_handle_group. */
    method HandleGroup(event: Event, owners: Owners, now: uint32) returns (status: MizuStatus, calls: seq<Call>)
      requires Valid() && initialized && mode == GROUP
      modifies this`mode, this`itemIndex, this`feedback, this`deadlineMs, this`editValue, this`originalValue,
          this`stepIndex
      ensures Outcome(View(), status, calls) == Step(old(Cfg()), old(View()), event, owners, now)
    {
      CurrentItemIsValid(Cfg(), View());
      var item := roots[rootIndex].items[itemIndex];
      if event.kind == MOVE_SELECTION {
        itemIndex := MoveIndex(itemIndex, |roots[rootIndex].items|, event.amount);
        return OK, [];
      }
      if event.kind == BACK {
        mode := ROOT;
        return OK, [];
      }
      if event.kind == ACTIVATE && item.ParameterItem? {
        status, calls := EnterParameterEdit(owners, now);
        return;
      }
      if event.kind == ACTIVATE && item.CommandItem? {
        if item.requiresConfirmation {
          mode := COMMAND_CONFIRM;
          return OK, [];
        }
        status, calls := ExecuteCommand(owners, now);
        return;
      }
      return INVALID_STATE, [];
    }

    /** The end of the ACTIVATE branch of mizu_menu_handle_parameter_edit: the draft is written. */
    method WriteDraft(d: Descriptor, owners: Owners, now: uint32) returns (status: MizuStatus, calls: seq<Call>)
      requires Bound() && OnParameter(Cfg(), View()) && d == CurrentDescriptor(Cfg(), View())
      modifies this`mode, this`feedback, this`deadlineMs
      ensures Outcome(View(), status, calls) == WriteStep(old(Cfg()), old(View()), owners, now)
    {
      var sent;
      WriteDecides(d, editValue);
      status, sent := service.SetById(d.id, editValue, owners.setterStatus);
      calls := [GetCall(d.id)];
      if sent.Some? {
        calls := calls + [SetCall(d.id, sent.value)];
      }
      if status == OK {
        mode := GROUP;
      }
      SetParameterFeedback(d.id, if status == OK then APPLIED else WRITE_FAILED, status, now);
      return OK, calls;
    }

    /** The ACTIVATE branch of mizu_menu_handle_parameter_edit. */
    method Commit(d: Descriptor, owners: Owners, now: uint32) returns (status: MizuStatus, calls: seq<Call>)
      requires Bound() && OnParameter(Cfg(), View()) && d == CurrentDescriptor(Cfg(), View())
      modifies this`mode, this`feedback, this`deadlineMs, this`editValue, this`originalValue
      ensures Outcome(View(), status, calls) == CommitStep(old(Cfg()), old(View()), owners, now)
    {
      var current;
      status, current := service.GetById(d.id, owners.reading);
      calls := [GetCall(d.id)];
      if status != OK {
        SetParameterFeedback(d.id, READ_FAILED, status, now);
        return OK, calls;
      }
      if current.value != originalValue {
        editValue := current.value;
        originalValue := current.value;
        SetParameterFeedback(d.id, CONFLICT, INVALID_STATE, now);
        return OK, calls;
      }
      status, calls := WriteDraft(d, owners, now);
    }

    /** mizu_menu_handle_parameter_edit. */
    method HandleParameterEdit(event: Event, owners: Owners, now: uint32) returns (status: MizuStatus, calls: seq<Call>)
      requires Valid() && initialized && mode == PARAMETER_EDIT
      modifies this`mode, this`feedback, this`deadlineMs, this`editValue, this`originalValue, this`originalStep
      ensures Outcome(View(), status, calls) == EditStep(old(Cfg()), old(View()), event, owners, now)
    {
      var id := roots[rootIndex].items[itemIndex].parameterId;
      var found, descriptor := service.Find(id);
      var d := descriptor.value;
      if event.kind == ADJUST_VALUE {
        var adjusted := AdjustValue(d, editValue, stepCache[stepIndex], event.amount);
        if adjusted.Success? {
          editValue := adjusted.value;
        } else {
          SetParameterFeedback(d.id, WRITE_FAILED, adjusted.status, now);
        }
        return OK, [];
      }
      if event.kind == OPEN_STEP_EDITOR {
        if d.valueType == BOOL || d.minimum == d.maximum {
          return INVALID_STATE, [];
        }
        originalStep := stepCache[stepIndex];
        mode := STEP_EDIT;
        return OK, [];
      }
      if event.kind == BACK {
        mode := GROUP;
        return OK, [];
      }
      if event.kind == ACTIVATE {
        status, calls := Commit(d, owners, now);
        return;
      }
      return INVALID_STATE, [];
    }

    /** mizu_menu_handle_step_edit: the cached step is scaled in place. */
    method HandleStepEdit(event: Event) returns (status: MizuStatus)
      requires Valid() && initialized && mode == STEP_EDIT
      modifies this`mode, stepCache
      ensures Outcome(View(), status, []) == StepEditStep(old(Cfg()), old(View()), event)
    {
      if event.kind == ADJUST_STEP && (event.amount < -1 || event.amount > 1) {
        return INVALID_ARGUMENT;
      }
      var id := roots[rootIndex].items[itemIndex].parameterId;
      var found, descriptor := service.Find(id);
      if event.kind == ADJUST_STEP {
        var scaled := ScaleStep(descriptor.value, stepCache[stepIndex], event.amount);
        if scaled.Failure? {
          return scaled.status;
        }
        stepCache[stepIndex] := scaled.value;
        return OK;
      }
      if event.kind == ACTIVATE {
        mode := PARAMETER_EDIT;
        return OK;
      }
      if event.kind == BACK {
        stepCache[stepIndex] := originalStep;
        mode := PARAMETER_EDIT;
        return OK;
      }
      return INVALID_STATE;
    }

    /** mizu_menu_handle_command_confirm. */
    method HandleCommandConfirm(event: Event, owners: Owners, now: uint32)
      returns (status: MizuStatus, calls: seq<Call>)
      requires Valid() && initialized && mode == COMMAND_CONFIRM
      modifies this`mode, this`feedback, this`deadlineMs
      ensures Outcome(View(), status, calls) == ConfirmStep(old(Cfg()), old(View()), event, owners, now)
    {
      if event.kind == ACTIVATE {
        status, calls := ExecuteCommand(owners, now);
        return;
      }
      if event.kind == BACK {
        mode := GROUP;
        return OK, [];
      }
      return INVALID_STATE, [];
    }

    /** mizu_menu_handle_display_page. */
    method HandleDisplayPage(event: Event) returns (status: MizuStatus)
      requires Valid() && initialized && mode == DISPLAY_PAGE
      modifies this`mode, this`subpageIndex
      ensures Outcome(View(), status, []) == PageStep(old(Cfg()), old(View()), event)
    {
      if event.kind == MOVE_PAGE {
        subpageIndex := MoveIndex(subpageIndex, roots[rootIndex].pageCount, event.amount);
        return OK;
      }
      if event.kind == BACK {
        mode := ROOT;
        return OK;
      }
      return INVALID_STATE;
    }

    /** The switch of mizu_menu_handle_event. */
    method Dispatch(event: Event, owners: Owners, now: uint32) returns (status: MizuStatus, calls: seq<Call>)
      requires Valid() && initialized
      modifies this`mode, this`rootIndex, this`itemIndex, this`subpageIndex, this`stepIndex, this`editValue,
        this`originalValue, this`originalStep, this`feedback, this`deadlineMs, stepCache
      ensures Outcome(View(), status, calls) == Step(old(Cfg()), old(View()), event, owners, now)
    {
      calls := [];
      match mode
      case ROOT => status := HandleRoot(event);
      case GROUP => status, calls := HandleGroup(event, owners, now);
      case PARAMETER_EDIT => status, calls := HandleParameterEdit(event, owners, now);
      case STEP_EDIT => status := HandleStepEdit(event);
      case COMMAND_CONFIRM => status, calls := HandleCommandConfirm(event, owners, now);
      case DISPLAY_PAGE => status := HandleDisplayPage(event);
    }

    /** mizu_menu_handle_event: calls lists the calls to parameter owners and command handlers, in order. */
    method HandleEvent(event: Event, owners: Owners, now: uint32) returns (status: MizuStatus, calls: seq<Call>)
      requires Valid()
      modifies this, stepCache
      ensures Valid() && SameBindings()
      ensures old(initialized) ==> Outcome(View(), status, calls) == Step(old(Cfg()), old(View()), event, owners, now)
      ensures !old(initialized) ==> status == NOT_INITIALIZED && calls == [] && View() == old(View())
    {
      if !initialized {
        return NOT_INITIALIZED, [];
      }
      Safety.StepKeepsInv(Cfg(), View(), event, owners, now);
      status, calls := Dispatch(event, owners, now);
    }

    /** mizu_menu_process. */
    method Process(now: uint32) returns (status: MizuStatus)
      requires Valid()
      modifies this`feedback
      ensures Valid()
      ensures status == if initialized then OK else NOT_INITIALIZED
      ensures View() == if initialized then Processed(old(View()), now) else old(View())
    {
      if !initialized {
        return NOT_INITIALIZED;
      }
      if feedback != NoFeedback && (now - deadlineMs) % 0x1_0000_0000 < 0x8000_0000 {
        feedback := NoFeedback;
      }
      return OK;
    }
  }
}
