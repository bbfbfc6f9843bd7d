/** The registration table of parameter.c: groups of descriptors, seen as one flat sequence. */
module ParameterRegistry {
  import opened MizuStatuses
  import opened Integers
  import opened Options
  import opened ParameterSpec

  /** named stands for the checks of the name and parameter pointers. */
  datatype Group = Group(id: uint16, named: bool, parameters: seq<Descriptor>)

  const MAX_GROUPS := 16
  const MAX_PARAMETERS := 64

  /** All descriptors in registration order. */
  function Flatten(groups: seq<Group>): seq<Descriptor> {
    if groups == [] then []
    else Flatten(groups[..|groups| - 1]) + groups[|groups| - 1].parameters
  }

  /** The flat position of the first descriptor of group g. */
  function Offset(groups: seq<Group>, g: nat): nat
    requires g <= |groups|
  {
    |Flatten(groups[..g])|
  }

  lemma {:induction false} OffsetStep(groups: seq<Group>, g: nat)
    requires g < |groups|
    ensures Flatten(groups[..g + 1]) == Flatten(groups[..g]) + groups[g].parameters
    ensures Offset(groups, g + 1) == Offset(groups, g) + |groups[g].parameters|
  {
    assert groups[..g + 1][..g] == groups[..g];
  }

  lemma {:induction false} FlattenPrefix(groups: seq<Group>, g: nat)
    requires g <= |groups|
    ensures Flatten(groups[..g]) <= Flatten(groups)
    decreases |groups| - g
  {
    if g < |groups| {
      OffsetStep(groups, g);
      FlattenPrefix(groups, g + 1);
    } else {
      assert groups[..g] == groups;
    }
  }

  /** Descriptor p of group g has flat position Offset(g) + p. */
  lemma {:induction false} FlatAt(groups: seq<Group>, g: nat, p: nat)
    requires g < |groups| && p < |groups[g].parameters|
    ensures Offset(groups, g) + p < |Flatten(groups)|
    ensures Flatten(groups)[Offset(groups, g) + p] == groups[g].parameters[p]
  {
    OffsetStep(groups, g);
    FlattenPrefix(groups, g + 1);
  }

  /** Group g occupies the flat positions from Offset(g) on. */
  lemma {:induction false} GroupSpan(groups: seq<Group>, g: nat)
    requires g < |groups|
    ensures Offset(groups, g + 1) == Offset(groups, g) + |groups[g].parameters| <= |Flatten(groups)|
    ensures forall k :: Offset(groups, g) <= k < Offset(groups, g + 1) ==>
      Flatten(groups)[k] == groups[g].parameters[k - Offset(groups, g)]
  {
    OffsetStep(groups, g);
    FlattenPrefix(groups, g + 1);
  }

  // ---------------------------------------------------------------- the checks of registration

  ghost predicate GroupIdBefore(groups: seq<Group>, g: nat)
    requires g < |groups|
  {
    exists earlier :: 0 <= earlier < g && groups[earlier].id == groups[g].id
  }

  /** The checks of one group before its descriptors. */
  ghost function HeadStatus(groups: seq<Group>, g: nat): MizuStatus
    requires g < |groups|
  {
    if !groups[g].named || |groups[g].parameters| == 0 then INVALID_ARGUMENT
    else if GroupIdBefore(groups, g) then INVALID_ARGUMENT
    else if Offset(groups, g) + |groups[g].parameters| > MAX_PARAMETERS then OUT_OF_RANGE
    else OK
  }

  ghost predicate IdBefore(flat: seq<Descriptor>, k: nat)
    requires k < |flat|
  {
    exists earlier :: 0 <= earlier < k && flat[earlier].id == flat[k].id
  }

  /** The checks of one descriptor; reading is what its getter returns during registration. */
  ghost function EntryStatus(flat: seq<Descriptor>, k: nat, reading: Reading): MizuStatus
    requires k < |flat|
  {
    if DescriptorStatus(flat[k]) != OK then DescriptorStatus(flat[k])
    else if IdBefore(flat, k) then INVALID_ARGUMENT
    else ReadingStatus(flat[k], reading)
  }

  ghost predicate Readable(groups: seq<Group>, readings: seq<Reading>) {
    |readings| == |Flatten(groups)|
  }

  /** The first fault among descriptors from..upTo of the flat table. */
  ghost function EntriesStatus(flat: seq<Descriptor>, readings: seq<Reading>, from: nat, upTo: nat): MizuStatus
    requires from <= upTo <= |flat| == |readings|
    decreases upTo
  {
    if from == upTo then OK
    else
      var earlier := EntriesStatus(flat, readings, from, upTo - 1);
      if earlier != OK then earlier else EntryStatus(flat, upTo - 1, readings[upTo - 1])
  }

  /** The first fault of the first g groups, in the order of the table. */
  ghost function TableStatus(groups: seq<Group>, readings: seq<Reading>, g: nat): MizuStatus
    requires g <= |groups| && Readable(groups, readings)
    decreases g
  {
    if g == 0 then OK
    else
      var earlier := TableStatus(groups, readings, g - 1);
      if earlier != OK then earlier
      else if HeadStatus(groups, g - 1) != OK then HeadStatus(groups, g - 1)
      else
        FlattenPrefix(groups, g - 1); FlattenPrefix(groups, g); OffsetStep(groups, g - 1);
        EntriesStatus(Flatten(groups), readings, Offset(groups, g - 1), Offset(groups, g))
  }

  /** A table that registration may leave behind. */
  ghost predicate Registered(groups: seq<Group>) {
    && 0 < |groups| <= MAX_GROUPS
    && |Flatten(groups)| <= MAX_PARAMETERS
    && (forall g :: 0 <= g < |groups| ==> groups[g].named && |groups[g].parameters| > 0)
    && (forall g, h :: 0 <= g < h < |groups| ==> groups[g].id != groups[h].id)
    && RegisteredFlat(Flatten(groups))
  }

  /** Valid descriptors with globally unique ids. */
  ghost predicate RegisteredFlat(flat: seq<Descriptor>) {
    && (forall k :: 0 <= k < |flat| ==> Valid(flat[k]))
    && (forall j, k :: 0 <= j < k < |flat| ==> flat[j].id != flat[k].id)
  }

  ghost predicate AllReadable(flat: seq<Descriptor>, readings: seq<Reading>)
    requires |flat| == |readings| && forall k :: 0 <= k < |flat| ==> Valid(flat[k])
  {
    forall k :: 0 <= k < |flat| ==> ReadingStatus(flat[k], readings[k]) == OK
  }

  ghost predicate EntriesFine(flat: seq<Descriptor>, readings: seq<Reading>, from: nat, upTo: nat)
    requires from <= upTo <= |flat| == |readings|
  {
    forall k :: from <= k < upTo ==> EntryStatus(flat, k, readings[k]) == OK
  }

  ghost predicate HeadsFine(groups: seq<Group>, g: nat)
    requires g <= |groups|
  {
    forall h :: 0 <= h < g ==> HeadStatus(groups, h) == OK
  }

  lemma {:induction false} EntriesOk(flat: seq<Descriptor>, readings: seq<Reading>, from: nat, upTo: nat)
    requires from <= upTo <= |flat| == |readings|
    ensures EntriesStatus(flat, readings, from, upTo) == OK <==> EntriesFine(flat, readings, from, upTo)
    decreases upTo
  {
    if from < upTo {
      EntriesOk(flat, readings, from, upTo - 1);
    }
  }

  lemma {:induction false} FineInParts(flat: seq<Descriptor>, readings: seq<Reading>, middle: nat, upTo: nat)
    requires middle <= upTo <= |flat| == |readings|
    ensures EntriesFine(flat, readings, 0, upTo) <==>
      EntriesFine(flat, readings, 0, middle) && EntriesFine(flat, readings, middle, upTo)
  {
  }

  lemma {:induction false} TableStep(groups: seq<Group>, readings: seq<Reading>, g: nat)
    requires g < |groups| && Readable(groups, readings)
    ensures Offset(groups, g) <= Offset(groups, g + 1) <= |Flatten(groups)|
    ensures TableStatus(groups, readings, g + 1) == OK <==>
      && TableStatus(groups, readings, g) == OK
      && HeadStatus(groups, g) == OK
      && EntriesFine(Flatten(groups), readings, Offset(groups, g), Offset(groups, g + 1))
  {
    GroupSpan(groups, g);
    EntriesOk(Flatten(groups), readings, Offset(groups, g), Offset(groups, g + 1));
  }

  /** The first g groups are accepted exactly when nothing is wrong with their heads and descriptors. */
  ghost predicate PrefixOk(groups: seq<Group>, readings: seq<Reading>, g: nat)
    requires g <= |groups| && Readable(groups, readings)
  {
    && Offset(groups, g) <= |Flatten(groups)|
    && (TableStatus(groups, readings, g) == OK <==>
          HeadsFine(groups, g) && EntriesFine(Flatten(groups), readings, 0, Offset(groups, g)))
  }

  lemma {:induction false} NextPrefixOk(groups: seq<Group>, readings: seq<Reading>, g: nat)
    requires g < |groups| && Readable(groups, readings) && PrefixOk(groups, readings, g)
    ensures PrefixOk(groups, readings, g + 1)
  {
    TableStep(groups, readings, g);
    FineInParts(Flatten(groups), readings, Offset(groups, g), Offset(groups, g + 1));
  }

  lemma {:induction false} TableOk(groups: seq<Group>, readings: seq<Reading>, g: nat)
    requires g <= |groups| && Readable(groups, readings)
    ensures PrefixOk(groups, readings, g)
    decreases g
  {
    if g == 0 {
      assert groups[..0] == [];
    } else {
      TableOk(groups, readings, g - 1);
      NextPrefixOk(groups, readings, g - 1);
    }
  }

  /** Registration succeeds exactly for tables with unique ids, valid descriptors and values in range. */
  lemma {:induction false} TableAccepted(groups: seq<Group>, readings: seq<Reading>)
    requires 0 < |groups| <= MAX_GROUPS && Readable(groups, readings)
    ensures TableStatus(groups, readings, |groups|) == OK <==>
      Registered(groups) && AllReadable(Flatten(groups), readings)
  {
    var n := |groups|;
    var flat := Flatten(groups);
    assert groups[..n] == groups;
    TableOk(groups, readings, n);
    EntriesAccepted(flat, readings);
    HeadsAccepted(groups);
  }

  lemma {:induction false} EntriesAccepted(flat: seq<Descriptor>, readings: seq<Reading>)
    requires |flat| == |readings|
    ensures EntriesFine(flat, readings, 0, |flat|) <==> RegisteredFlat(flat) && AllReadable(flat, readings)
  {
    if EntriesFine(flat, readings, 0, |flat|) {
      forall k | 0 <= k < |flat|
        ensures Valid(flat[k]) && ReadingStatus(flat[k], readings[k]) == OK && !IdBefore(flat, k)
      {
        assert EntryStatus(flat, k, readings[k]) == OK;
      }
      forall j, k | 0 <= j < k < |flat| ensures flat[j].id != flat[k].id {
        assert !IdBefore(flat, k);
      }
    }
  }

  lemma {:induction false} HeadsAccepted(groups: seq<Group>)
    ensures HeadsFine(groups, |groups|) <==>
      && (forall g :: 0 <= g < |groups| ==> groups[g].named && |groups[g].parameters| > 0)
      && (forall g, h :: 0 <= g < h < |groups| ==> groups[g].id != groups[h].id)
      && |Flatten(groups)| <= MAX_PARAMETERS
  {
    var n := |groups|;
    assert groups[..n] == groups;
    if HeadsFine(groups, n) {
      forall g | 0 <= g < n ensures groups[g].named && |groups[g].parameters| > 0 && !GroupIdBefore(groups, g) {
        assert HeadStatus(groups, g) == OK;
      }
      forall g, h | 0 <= g < h < n ensures groups[g].id != groups[h].id {
        assert !GroupIdBefore(groups, h);
      }
      if n > 0 {
        assert HeadStatus(groups, n - 1) == OK;
        OffsetStep(groups, n - 1);
      }
    } else {
      var g :| 0 <= g < n && HeadStatus(groups, g) != OK;
      OffsetStep(groups, g);
      FlattenPrefix(groups, g + 1);
    }
  }

  /** A fault in the first g groups is the fault of the whole table. */
  lemma {:induction false} TableStatusPrefix(groups: seq<Group>, readings: seq<Reading>, g: nat)
    requires g <= |groups| && Readable(groups, readings)
    ensures TableStatus(groups, readings, g) != OK ==>
      TableStatus(groups, readings, |groups|) == TableStatus(groups, readings, g)
    decreases |groups| - g
  {
    if g < |groups| {
      TableStatusPrefix(groups, readings, g + 1);
    }
  }

  lemma {:induction false} EntriesStatusPrefix(flat: seq<Descriptor>, readings: seq<Reading>, from: nat, middle: nat,
                                               upTo: nat)
    requires from <= middle <= upTo <= |flat| == |readings|
    ensures EntriesStatus(flat, readings, from, middle) != OK ==>
      EntriesStatus(flat, readings, from, upTo) == EntriesStatus(flat, readings, from, middle)
    decreases upTo - middle
  {
    if middle < upTo {
      EntriesStatusPrefix(flat, readings, from, middle + 1, upTo);
    }
  }

  /** When nothing is wrong with the first g groups, they are accepted. */
  lemma {:induction false} FineSoFar(groups: seq<Group>, readings: seq<Reading>, g: nat)
    requires g <= |groups| && Readable(groups, readings) && HeadsFine(groups, g)
    ensures Offset(groups, g) <= |Flatten(groups)|
    ensures EntriesFine(Flatten(groups), readings, 0, Offset(groups, g)) ==> TableStatus(groups, readings, g) == OK
  {
    TableOk(groups, readings, g);
  }

  /** The first fault decides, when it is in the head of a group: too many parameters, or anything else. */
  lemma {:induction false} FaultyHead(groups: seq<Group>, readings: seq<Reading>, g: nat)
    requires g < |groups| && Readable(groups, readings) && HeadsFine(groups, g)
    requires Offset(groups, g) <= |Flatten(groups)| && EntriesFine(Flatten(groups), readings, 0, Offset(groups, g))
    requires HeadStatus(groups, g) != OK
    ensures TableStatus(groups, readings, |groups|) ==
      if groups[g].named && groups[g].parameters != []
         && forall earlier :: 0 <= earlier < g ==> groups[earlier].id != groups[g].id
      then OUT_OF_RANGE else INVALID_ARGUMENT
  {
    FineSoFar(groups, readings, g);
    TableStatusPrefix(groups, readings, g + 1);
  }

  /**
   The first fault decides, when it is at a parameter: its descriptor, then an id that was there before,
   then what its getter answers.
   */
  lemma {:induction false} FaultyEntry(groups: seq<Group>, readings: seq<Reading>, g: nat, k: nat)
    requires g < |groups| && Readable(groups, readings) && HeadsFine(groups, g + 1)
    requires Offset(groups, g) <= k < Offset(groups, g + 1) <= |Flatten(groups)|
    requires EntriesFine(Flatten(groups), readings, 0, k)
    requires EntryStatus(Flatten(groups), k, readings[k]) != OK
    ensures var flat := Flatten(groups);
            TableStatus(groups, readings, |groups|) ==
            if !Valid(flat[k]) then DescriptorStatus(flat[k])
            else if exists earlier :: 0 <= earlier < k && flat[earlier].id == flat[k].id then INVALID_ARGUMENT
            else if readings[k].status != OK then readings[k].status
            else INVALID_DATA
  {
    var flat := Flatten(groups);
    FineInParts(flat, readings, Offset(groups, g), k);
    FineSoFar(groups, readings, g);
    EntriesOk(flat, readings, Offset(groups, g), k);
    EntriesStatusPrefix(flat, readings, Offset(groups, g), k + 1, Offset(groups, g + 1));
    assert HeadStatus(groups, g) == OK;
    TableStatusPrefix(groups, readings, g + 1);
  }

  // ---------------------------------------------------------------- lookup

  /** The flat position of an id. */
  function Lookup(flat: seq<Descriptor>, id: uint16): (r: Option<nat>)
    ensures r.Some? ==> r.value < |flat| && flat[r.value].id == id
    ensures r.None? ==> forall k :: 0 <= k < |flat| ==> flat[k].id != id
  {
    if flat == [] then None
    else
      var n := |flat| - 1;
      var earlier := Lookup(flat[..n], id);
      assert forall k :: 0 <= k < n ==> flat[..n][k] == flat[k];
      if earlier.Some? then earlier else if flat[n].id == id then Some(n) else None
  }

  lemma {:induction false} LookupUnique(flat: seq<Descriptor>, k: nat)
    requires RegisteredFlat(flat) && k < |flat|
    ensures Lookup(flat, flat[k].id) == Some(k)
  {
  }
}

/** parameter.c: the service object. */
module ParameterService {
  import opened MizuStatuses
  import opened Integers
  import opened Options
  import opened ParameterSpec
  import opened ParameterRegistry

  class ParameterService {
    var groups: seq<Group>
    var parameterCount: nat
    var initialized: bool

    ghost predicate Valid()
      reads this
    {
      initialized ==> Registered(groups) && parameterCount == |Flatten(groups)|
    }

    constructor ()
      ensures Valid() && !initialized
    {
      groups, parameterCount, initialized := [], 0, false;
    }

    /** The search loop for an earlier group of the same id. */
    static method GroupIdExists(table: seq<Group>, g: nat) returns (found: bool)
      requires g < |table|
      ensures found <==> GroupIdBefore(table, g)
    {
      for earlier := 0 to g
        invariant forall e :: 0 <= e < earlier ==> table[e].id != table[g].id
      {
        if table[earlier].id == table[g].id {
          return true;
        }
      }
      return false;
    }

    /** mizu_parameter_id_exists: all earlier groups, and the earlier descriptors of this one. */
    static method IdExists(table: seq<Group>, g: nat, p: nat) returns (found: bool)
      requires g < |table| && p < |table[g].parameters|
      ensures Offset(table, g) + p < |Flatten(table)|
      ensures found <==> IdBefore(Flatten(table), Offset(table, g) + p)
    {
      FlatAt(table, g, p);
      ghost var flat, position := Flatten(table), Offset(table, g) + p;
      var id := table[g].parameters[p].id;
      assert table[..0] == [];
      for earlierGroup := 0 to g + 1
        invariant Offset(table, earlierGroup) <= |flat|
        invariant forall k :: 0 <= k < Offset(table, earlierGroup) && k < position ==> flat[k].id != id
      {
        OffsetStep(table, earlierGroup);
        FlattenPrefix(table, earlierGroup + 1);
        var limit := if earlierGroup == g then p else |table[earlierGroup].parameters|;
        for earlierParameter := 0 to limit
          invariant forall k :: 0 <= k < Offset(table, earlierGroup) + earlierParameter && k < position ==>
            flat[k].id != id
        {
          FlatAt(table, earlierGroup, earlierParameter);
          if table[earlierGroup].parameters[earlierParameter].id == id {
            OffsetMonotone(table, earlierGroup, g);
            assert flat[Offset(table, earlierGroup) + earlierParameter].id == flat[position].id;
            return true;
          }
        }
      }
      OffsetStep(table, g);
      return false;
    }

    /** mizu_parameter_service_init; readings are what the getters return, in registration order. */
    method Init(table: seq<Group>, readings: seq<Reading>) returns (status: MizuStatus)
      requires Valid() && Readable(table, readings)
      modifies this
      ensures Valid()
      ensures status == if old(initialized) then INVALID_STATE
                        else if |table| == 0 then INVALID_ARGUMENT
                        else if |table| > MAX_GROUPS then OUT_OF_RANGE
                        else TableStatus(table, readings, |table|)
      ensures status == OK ==> initialized && groups == table && AllReadable(Flatten(table), readings)
      ensures status != OK ==> unchanged(this)
    {
      if initialized {
        return INVALID_STATE;
      }
      if |table| == 0 {
        return INVALID_ARGUMENT;
      }
      if |table| > MAX_GROUPS {
        return OUT_OF_RANGE;
      }
      var total := 0;
      assert table[..0] == [];
      for g := 0 to |table|
        invariant unchanged(this)
        invariant total == Offset(table, g) && (g == 0 || total <= MAX_PARAMETERS)
        invariant TableStatus(table, readings, g) == OK
      {
        status := CheckGroup(table, readings, g, total);
        TableStatusPrefix(table, readings, g + 1);
        if status != OK {
          return;
        }
        OffsetStep(table, g);
        total := total + |table[g].parameters|;
      }
      assert table[..|table|] == table;
      TableAccepted(table, readings);
      groups, parameterCount, initialized := table, total, true;
      return OK;
    }

    /** The body of the group loop of mizu_parameter_service_init. */
    static method CheckGroup(table: seq<Group>, readings: seq<Reading>, g: nat, total: nat) returns (status: MizuStatus)
      requires g < |table| && Readable(table, readings) && total == Offset(table, g) <= MAX_PARAMETERS
      requires TableStatus(table, readings, g) == OK
      ensures status == TableStatus(table, readings, g + 1)
      ensures status == OK ==> total + |table[g].parameters| <= MAX_PARAMETERS
    {
      FlattenPrefix(table, g);
      FlattenPrefix(table, g + 1);
      OffsetStep(table, g);
      var group := table[g];
      if !group.named || |group.parameters| == 0 {
        return INVALID_ARGUMENT;
      }
      var duplicate := GroupIdExists(table, g);
      if duplicate {
        return INVALID_ARGUMENT;
      }
      if |group.parameters| > MAX_PARAMETERS - total {
        return OUT_OF_RANGE;
      }
      status := CheckParameters(table, readings, g, total);
    }

    /** One round of the descriptor loop. */
    static method CheckParameter(table: seq<Group>, readings: seq<Reading>, g: nat, p: nat, ghost position: nat,
                                 reading: Reading)
      returns (status: MizuStatus)
      requires g < |table| && p < |table[g].parameters| && Readable(table, readings)
      requires position == Offset(table, g) + p < |Flatten(table)| && reading == readings[position]
      ensures status == EntryStatus(Flatten(table), position, reading)
    {
      FlatAt(table, g, p);
      var descriptor := table[g].parameters[p];
      status := DescriptorStatus(descriptor);
      if status != OK {
        return;
      }
      var known := IdExists(table, g, p);
      if known {
        return INVALID_ARGUMENT;
      }
      status := ReadingStatus(descriptor, reading);
    }

    /** The descriptor loop of mizu_parameter_service_init. */
    static method CheckParameters(table: seq<Group>, readings: seq<Reading>, g: nat, total: nat)
      returns (status: MizuStatus)
      requires g < |table| && Readable(table, readings) && total == Offset(table, g)
      requires total + |table[g].parameters| <= |Flatten(table)|
      ensures status == EntriesStatus(Flatten(table), readings, total, total + |table[g].parameters|)
    {
      ghost var flat, upTo := Flatten(table), total + |table[g].parameters|;
      for p := 0 to |table[g].parameters|
        invariant EntriesStatus(flat, readings, total, total + p) == OK
      {
        EntriesStatusPrefix(flat, readings, total, total + p + 1, upTo);
        status := CheckParameter(table, readings, g, p, total + p, readings[total + p]);
        if status != OK {
          return;
        }
      }
      return OK;
    }

    /** The inner loop of mizu_parameter_find. */
    static method FindInGroup(parameters: seq<Descriptor>, id: uint16) returns (position: Option<nat>)
      ensures match position
              case Some(p) => p < |parameters| && parameters[p].id == id
              case None => forall p :: 0 <= p < |parameters| ==> parameters[p].id != id
    {
      for p := 0 to |parameters|
        invariant forall q :: 0 <= q < p ==> parameters[q].id != id
      {
        if parameters[p].id == id {
          return Some(p);
        }
      }
      return None;
    }

    /** mizu_parameter_find, which is also mizu_parameter_service_get_descriptor_by_id. */
    method Find(id: uint16) returns (status: MizuStatus, descriptor: Option<Descriptor>)
      requires Valid()
      ensures !initialized ==> status == NOT_INITIALIZED && descriptor.None?
      ensures initialized ==>
        match Lookup(Flatten(groups), id)
        case Some(k) => status == OK && descriptor == Some(Flatten(groups)[k])
        case None => status == OUT_OF_RANGE && descriptor.None?
    {
      if !initialized {
        return NOT_INITIALIZED, None;
      }
      ghost var flat := Flatten(groups);
      assert groups[..0] == [] && groups[..|groups|] == groups;
      for g := 0 to |groups|
        invariant Offset(groups, g) <= |flat|
        invariant forall k :: 0 <= k < Offset(groups, g) ==> flat[k].id != id
      {
        GroupSpan(groups, g);
        var position := FindInGroup(groups[g].parameters, id);
        if position.Some? {
          LookupUnique(flat, Offset(groups, g) + position.value);
          return OK, Some(groups[g].parameters[position.value]);
        }
      }
      return OUT_OF_RANGE, None;
    }

    /** mizu_parameter_service_get_by_id; reading is what the owner's getter returns if it is called. */
    method GetById(id: uint16, reading: Reading) returns (status: MizuStatus, value: Option<Value>)
      requires Valid()
      ensures !initialized ==> status == NOT_INITIALIZED && value.None?
      ensures initialized ==>
        match Lookup(Flatten(groups), id)
        case Some(k) =>
          && status == ReadingStatus(Flatten(groups)[k], reading)
          && value == (if status == OK then Some(reading.value) else None)
        case None => status == OUT_OF_RANGE && value.None?
    {
      value := None;
      var descriptor;
      status, descriptor := Find(id);
      if status != OK {
        return;
      }
      status := reading.status;
      if status != OK {
        return;
      }
      if !Admits(descriptor.value, reading.value) {
        return INVALID_DATA, None;
      }
      value := Some(reading.value);
    }

    /** mizu_parameter_service_set_by_id; sent is the value that reaches the owner's setter, if it is called. */
    method SetById(id: uint16, value: Value, setterStatus: MizuStatus) returns (status: MizuStatus, sent: Option<Value>)
      requires Valid()
      ensures !initialized ==> status == NOT_INITIALIZED && sent.None?
      ensures initialized ==>
        match Lookup(Flatten(groups), id)
        case Some(k) =>
          var d := Flatten(groups)[k];
          var typed := value.Type() == d.valueType;
          var bounded := d.minimum.AsInt() <= value.AsInt() <= d.maximum.AsInt();
          && sent == (if d.writable && typed && bounded then Some(value) else None)
          && status == if !d.writable then INVALID_STATE
                       else if !typed then INVALID_ARGUMENT
                       else if !bounded then OUT_OF_RANGE
                       else setterStatus
        case None => status == OUT_OF_RANGE && sent.None?
    {
      sent := None;
      var descriptor;
      status, descriptor := Find(id);
      if status != OK {
        return;
      }
      var d := descriptor.value;
      if !d.writable {
        return INVALID_STATE, None;
      }
      if value.Type() != d.valueType {
        return INVALID_ARGUMENT, None;
      }
      if !Admits(d, value) {
        return OUT_OF_RANGE, None;
      }
      return setterStatus, Some(value);
    }

    /**
     mizu_parameter_service_adjust_by_id: the owner receives the clamped sum of the value just read and
     the steps; only a bool whose bounds exclude the new value is refused.
     */
    method AdjustById(id: uint16, count: int32, reading: Reading, setterStatus: MizuStatus)
      returns (status: MizuStatus, sent: Option<Value>)
      requires Valid()
      ensures !initialized ==> status == NOT_INITIALIZED && sent.None?
      ensures initialized ==>
        match Lookup(Flatten(groups), id)
        case Some(k) => AdjustedBy(Flatten(groups)[k], count, reading, setterStatus, status, sent)
        case None => status == OUT_OF_RANGE && sent.None?
    {
      sent := None;
      var descriptor;
      status, descriptor := Find(id);
      if status != OK {
        return;
      }
      var d := descriptor.value;
      if !d.writable {
        return INVALID_STATE, None;
      }
      if count == 0 {
        return OK, None;
      }
      var value;
      status, value := GetById(id, reading);
      if status != OK {
        return;
      }
      AdjustIsSent(d, count, reading, setterStatus);
      match AdjustValue(d, value.value, d.step, count)
      case Failure(fault) => return fault, None;
      case Success(adjusted) => status, sent := SetById(id, adjusted, setterStatus);
    }
  }

  /** What one adjustment through the owner does. */
  ghost predicate AdjustedBy(d: Descriptor, count: int32, reading: Reading, setterStatus: MizuStatus,
                             status: MizuStatus, sent: Option<Value>)
    requires Valid(d)
  {
    if !d.writable then status == INVALID_STATE && sent.None?
    else if count == 0 then status == OK && sent.None?
    else if ReadingStatus(d, reading) != OK then status == ReadingStatus(d, reading) && sent.None?
    else if d.valueType == BOOL && !Admits(d, Bool(count > 0)) then status == OUT_OF_RANGE && sent.None?
    else
      && status == setterStatus && sent.Some? && sent.value.Type() == d.valueType
      && sent.value.AsInt() ==
           if d.valueType == BOOL then (if count > 0 then 1 else 0)
           else Clamp(reading.value.AsInt() + d.step.AsInt() * count, d.minimum.AsInt(), d.maximum.AsInt())
  }

  /** Case by case: when an adjustment is refused and with which status, and otherwise what the owner receives. */
  lemma {:induction false} AdjustmentMeans(d: Descriptor, count: int32, reading: Reading, setterStatus: MizuStatus,
                                           status: MizuStatus, sent: Option<Value>)
    requires Valid(d) && AdjustedBy(d, count, reading, setterStatus, status, sent)
    ensures var low, high, wide: int := d.minimum.AsInt(), d.maximum.AsInt(), count;
            var usable := reading.value.Type() == d.valueType && low <= reading.value.AsInt() <= high;
            var target := if d.valueType == BOOL then if wide > 0 then 1 else 0
                          else Clamp(reading.value.AsInt() + d.step.AsInt() * wide, low, high);
            && (!d.writable ==> status == INVALID_STATE && sent == None)
            && (d.writable && wide == 0 ==> status == OK && sent == None)
            && (d.writable && wide != 0 && reading.status != OK ==> status == reading.status && sent == None)
            && (d.writable && wide != 0 && reading.status == OK && !usable ==> status == INVALID_DATA && sent == None)
            && (d.writable && wide != 0 && reading.status == OK && usable && (target < low || target > high) ==>
                 d.valueType == BOOL && status == OUT_OF_RANGE && sent == None)
            && (d.writable && wide != 0 && reading.status == OK && usable && low <= target <= high ==>
                 status == setterStatus && sent.Some?
                 && sent.value.Type() == d.valueType && sent.value.AsInt() == target)
  {
    ReadingDecides(d, reading);
    ValidMeans(d);
  }

  lemma {:induction false} AdjustIsSent(d: Descriptor, count: int32, reading: Reading, setterStatus: MizuStatus)
    requires Valid(d) && d.writable && count != 0 && ReadingStatus(d, reading) == OK
    ensures var adjusted := AdjustValue(d, reading.value, d.step, count);
            && adjusted.Success?
            && (if WriteStatus(d, adjusted.value) == OK
                then AdjustedBy(d, count, reading, setterStatus, setterStatus, Some(adjusted.value))
                else AdjustedBy(d, count, reading, setterStatus, WriteStatus(d, adjusted.value), None))
  {
    ValidMeans(d);
    AdjustClamps(d, reading.value, d.step, count);
    if d.valueType == BOOL {
      AdjustBoolSelects(d, reading.value, d.step, count);
    }
  }

  lemma {:induction false} OffsetMonotone(groups: seq<Group>, g: nat, h: nat)
    requires g <= h <= |groups|
    ensures Offset(groups, g) <= Offset(groups, h)
    ensures g < h ==> Offset(groups, g) + |groups[g].parameters| <= Offset(groups, h)
    decreases h
  {
    if g < h {
      OffsetStep(groups, h - 1);
      OffsetMonotone(groups, g, h - 1);
    }
  }
}
