/** Typed parameter values, their descriptors, and the arithmetic of parameter.c without the float arm. */
module ParameterSpec {
  import opened MizuStatuses
  import opened Integers

  datatype ValueType = INT32 | UINT32 | BOOL

  datatype Value =
    | Int32(i: int32)
    | Uint32(u: uint32)
    | Bool(b: bool)
  {
    function Type(): ValueType {
      match this
      case Int32(_) => INT32
      case Uint32(_) => UINT32
      case Bool(_) => BOOL
    }

    /** The value as an unbounded integer; false and true are 0 and 1. */
    function AsInt(): int {
      match this
      case Int32(i) => i
      case Uint32(u) => u
      case Bool(b) => if b then 1 else 0
    }
  }

  /** described stands for the checks of the name and unit pointers. */
  datatype Descriptor = Descriptor(
    id: uint16,
    described: bool,
    valueType: ValueType,
    minimum: Value,
    maximum: Value,
    step: Value,
    decimals: uint8,
    writable: bool,
    hasGetter: bool,
    hasSetter: bool)

  datatype Result<+T> = Success(value: T) | Failure(status: MizuStatus)

  const MAX_DECIMALS := 4

  /** mizu_parameter_compare: the sign of left - right. */
  function Compare(left: Value, right: Value): (r: int)
    requires left.Type() == right.Type()
    ensures r < 0 <==> left.AsInt() < right.AsInt()
    ensures r == 0 <==> left == right
  {
    match left
    case Int32(i) => (if i > right.i then 1 else 0) - (if i < right.i then 1 else 0)
    case Uint32(u) => (if u > right.u then 1 else 0) - (if u < right.u then 1 else 0)
    case Bool(b) => (if b && !right.b then 1 else 0) - (if !b && right.b then 1 else 0)
  }

  /** mizu_parameter_value_is_valid together with mizu_parameter_value_in_range. */
  predicate Admits(d: Descriptor, value: Value)
    requires d.minimum.Type() == d.maximum.Type() == d.valueType
  {
    && value.Type() == d.valueType
    && Compare(value, d.minimum) >= 0
    && Compare(value, d.maximum) <= 0
  }

  // ---------------------------------------------------------------- descriptors

  /** mizu_parameter_validate_descriptor. */
  function DescriptorStatus(d: Descriptor): MizuStatus {
    if !d.described || !d.hasGetter || d.writable != d.hasSetter || d.decimals > MAX_DECIMALS then INVALID_ARGUMENT
    else if d.minimum.Type() != d.valueType || d.maximum.Type() != d.valueType ||
      d.step.Type() != d.valueType then INVALID_DATA
    else if Compare(d.minimum, d.maximum) > 0 then INVALID_ARGUMENT
    else
      match d.valueType
      case INT32 =>
        var range: int64 := d.maximum.i - d.minimum.i;
        if d.decimals != 0 || d.step.i <= 0 || (d.minimum.i != d.maximum.i && d.step.i > range)
        then INVALID_ARGUMENT else OK
      case UINT32 =>
        var range: uint32 := d.maximum.u - d.minimum.u;
        if d.decimals != 0 || d.step.u == 0 || (d.minimum.u != d.maximum.u && d.step.u > range)
        then INVALID_ARGUMENT else OK
      case BOOL =>
        if d.decimals != 0 || !d.step.b then INVALID_ARGUMENT else OK
  }

  predicate Valid(d: Descriptor) {
    DescriptorStatus(d) == OK
  }

  ghost function Range(d: Descriptor): int {
    d.maximum.AsInt() - d.minimum.AsInt()
  }

  /** What the field checks of every value type come to: one step fits into a nonzero range. */
  lemma {:induction false} ValidMeans(d: Descriptor)
    ensures Valid(d) <==>
      && d.described && d.hasGetter && d.writable == d.hasSetter && d.decimals == 0
      && d.minimum.Type() == d.maximum.Type() == d.step.Type() == d.valueType
      && Range(d) >= 0 && d.step.AsInt() > 0
      && (d.valueType != BOOL && Range(d) > 0 ==> d.step.AsInt() <= Range(d))
  {
  }

  /** Which fault a refused descriptor is charged with: INVALID_DATA for mixed types, and only for them. */
  lemma {:induction false} DescriptorFault(d: Descriptor)
    requires !Valid(d)
    ensures DescriptorStatus(d) ==
      if d.described && d.hasGetter && d.writable == d.hasSetter && d.decimals <= 4
         && !(d.minimum.Type() == d.maximum.Type() == d.step.Type() == d.valueType)
      then INVALID_DATA else INVALID_ARGUMENT
  {
  }

  // ---------------------------------------------------------------- adjusting a value

  function Clamp(x: int, low: int, high: int): int {
    if x < low then low else if x > high then high else x
  }

  /** mizu_parameter_adjust_int32; the type of result shows that 64 bits are enough. */
  function AdjustInt32(low: int32, high: int32, value: int32, step: int32, count: int32): Result<int32> {
    if step <= 0 then Failure(INVALID_ARGUMENT)
    else
      StepProduct(step, count);
      var result: int64 := value + step * count;
      Success(if result < low then low else if result > high then high else result)
  }

  lemma {:induction false} StepProduct(step: int, count: int)
    requires 0 <= step <= UINT32_MAX && INT32_MIN <= count <= -INT32_MIN
    ensures -0x8000_0000 * step <= step * count <= 0x8000_0000 * step
  {
    ProductMonotone(step, count, 0x8000_0000);
    ProductMonotone(step, -0x8000_0000, count);
  }

  lemma {:induction false} ProductMonotone(x: int, y: int, z: int)
    requires 0 <= x && y <= z
    ensures x * y <= x * z
  {
    assert x * (z - y) >= 0;
  }

  /** The largest product of a step and a count. */
  const LARGEST_PRODUCT: int := 0x8000_0000 * UINT32_MAX

  lemma {:induction false} ProductBound(step: uint32, magnitude: int)
    requires 0 <= magnitude <= 0x8000_0000
    ensures 0 <= step * magnitude <= LARGEST_PRODUCT
  {
    ProductMonotone(step, magnitude, 0x8000_0000);
    ProductMonotone(step, 0, magnitude);
  }

  /**
   No intermediate result of the adjustments wraps: the sum of the signed form fits into int64_t, and the
   product of the unsigned form into uint64_t, for every value, step and count. The bound of the product
   is attained.
   */
  lemma {:induction false} IntermediatesFit(value: int32, step: uint32, count: int32)
    ensures INT64_MIN <= value + step * count <= INT64_MAX
    ensures var wide: int := count;
            var magnitude := if wide < 0 then -wide else wide;
            && 0 <= step * magnitude <= LARGEST_PRODUCT <= UINT64_MAX
            && (step == UINT32_MAX && wide == INT32_MIN ==> step * magnitude == LARGEST_PRODUCT)
  {
    var wide: int := count;
    var magnitude := if wide < 0 then -wide else wide;
    ProductBound(step, magnitude);
    SignedProduct(step, wide, magnitude);
  }

  lemma {:induction false} SignedProduct(step: int, wide: int, magnitude: int)
    requires magnitude == wide || magnitude == -wide
    ensures step * wide == step * magnitude || step * wide == -(step * magnitude)
  {
  }

  /** The product of mizu_parameter_adjust_uint32, in 64 bits. */
  function Product(step: uint32, magnitude: int): (delta: uint64)
    requires 0 <= magnitude <= 0x8000_0000
    ensures delta == step * magnitude <= LARGEST_PRODUCT
  {
    ProductBound(step, magnitude);
    step * magnitude
  }

  /** mizu_parameter_adjust_uint32: unsigned magnitudes, compared with the room that is left. */
  function AdjustUint32(low: uint32, high: uint32, value: uint32, step: uint32, count: int32): Result<uint32>
    requires low <= value <= high
  {
    if step == 0 then Failure(INVALID_ARGUMENT)
    else if count < 0 then
      var wide: int := count;
      var magnitude: uint64 := -wide;
      var delta := Product(step, magnitude);
      var available: uint32 := value - low;
      Success(if delta >= available then low else value - delta)
    else
      var delta := Product(step, count);
      var available: uint32 := high - value;
      Success(if delta >= available then high else value + delta)
  }

  /** mizu_parameter_adjust_bool: the descriptor's bounds play no part. */
  function AdjustBool(value: bool, step: bool, count: int32): Result<bool> {
    if !step then Failure(INVALID_ARGUMENT) else Success(if count == 0 then value else count > 0)
  }

  /** mizu_parameter_adjust_value. */
  function AdjustValue(d: Descriptor, value: Value, step: Value, count: int32): Result<Value> {
    if !Valid(d) then Failure(DescriptorStatus(d))
    else if value.Type() != d.valueType || step.Type() != d.valueType then Failure(INVALID_ARGUMENT)
    else if !d.writable then Failure(INVALID_STATE)
    else if !Admits(d, value) then Failure(OUT_OF_RANGE)
    else
      match d.valueType
      case INT32 =>
        (match AdjustInt32(d.minimum.i, d.maximum.i, value.i, step.i, count)
         case Success(i) => Success(Int32(i))
         case Failure(status) => Failure(status))
      case UINT32 =>
        (match AdjustUint32(d.minimum.u, d.maximum.u, value.u, step.u, count)
         case Success(u) => Success(Uint32(u))
         case Failure(status) => Failure(status))
      case BOOL =>
        (match AdjustBool(value.b, step.b, count)
         case Success(b) => Success(Bool(b))
         case Failure(status) => Failure(status))
  }

  /** The inputs that adjust_value accepts. */
  ghost predicate Adjustable(d: Descriptor, value: Value, step: Value) {
    Valid(d) && d.writable && step.Type() == d.valueType && step.AsInt() > 0 && Admits(d, value)
  }

  lemma {:induction false} Int32Clamps(low: int32, high: int32, value: int32, step: int32, count: int32)
    requires low <= high && step > 0
    ensures AdjustInt32(low, high, value, step, count) == Success(Clamp(value + step * count, low, high))
  {
    StepProduct(step, count);
  }

  lemma {:induction false} Uint32Clamps(low: uint32, high: uint32, value: uint32, step: uint32, count: int32)
    requires low <= value <= high && step > 0
    ensures AdjustUint32(low, high, value, step, count) == Success(Clamp(value + step * count, low, high))
  {
    var wide: int := count;
    SignOfProduct(step, wide);
    assert wide < 0 ==> step * -wide == -(step * wide);
  }

  /** Integer adjustment is clamping over unbounded integers, for every count; everything else is refused. */
  lemma {:induction false} AdjustClamps(d: Descriptor, value: Value, step: Value, count: int32)
    ensures AdjustValue(d, value, step, count).Success? <==> Adjustable(d, value, step)
    ensures Adjustable(d, value, step) && d.valueType != BOOL ==>
      var result := AdjustValue(d, value, step, count).value;
      && result.Type() == d.valueType
      && result.AsInt() == Clamp(value.AsInt() + step.AsInt() * count, d.minimum.AsInt(), d.maximum.AsInt())
  {
    if Adjustable(d, value, step) {
      match d.valueType {
        case INT32 => Int32Clamps(d.minimum.i, d.maximum.i, value.i, step.i, count);
        case UINT32 => Uint32Clamps(d.minimum.u, d.maximum.u, value.u, step.u, count);
        case BOOL =>
      }
    }
  }

  /** Which fault a refused adjustment is charged with. */
  lemma {:induction false} AdjustFault(d: Descriptor, value: Value, step: Value, count: int32)
    requires !Adjustable(d, value, step)
    ensures AdjustValue(d, value, step, count) == Failure(
      if !Valid(d) then DescriptorStatus(d)
      else if value.Type() != d.valueType || step.Type() != d.valueType then INVALID_ARGUMENT
      else if !d.writable then INVALID_STATE
      else if value.AsInt() < d.minimum.AsInt() || value.AsInt() > d.maximum.AsInt() then OUT_OF_RANGE
      else INVALID_ARGUMENT)
  {
  }

  /** A bool becomes the sign of the count, and zero leaves it alone. */
  lemma {:induction false} AdjustBoolSelects(d: Descriptor, value: Value, step: Value, count: int32)
    requires Adjustable(d, value, step) && d.valueType == BOOL
    ensures AdjustValue(d, value, step, count) == Success(if count == 0 then value else Bool(count > 0))
  {
  }

  /**
   Adjusting always stays within the bounds, except for a bool whose bounds coincide: there some
   count leads out, because the bool arm ignores the bounds.
   */
  lemma {:induction false} AdjustStaysInRange(d: Descriptor, value: Value, step: Value)
    requires Adjustable(d, value, step)
    ensures (forall count: int32 :: Admits(d, AdjustValue(d, value, step, count).value))
      <==> !(d.valueType == BOOL && d.minimum == d.maximum)
  {
    if d.valueType == BOOL {
      AdjustBoolSelects(d, value, step, 1);
      AdjustBoolSelects(d, value, step, -1);
      assert AdjustValue(d, value, step, 1).value == Bool(true) && AdjustValue(d, value, step, -1).value == Bool(false);
    } else {
      forall count: int32 ensures Admits(d, AdjustValue(d, value, step, count).value) {
        AdjustClamps(d, value, step, count);
      }
    }
  }

  lemma {:induction false} ClampTwice(x: int, a: int, b: int, low: int, high: int)
    requires low <= x <= high
    ensures Clamp(Clamp(x + a, low, high) + b, low, high) == Clamp(x + a + b, low, high) <==>
      || low <= x + a <= high
      || (a >= 0 && b >= 0) || (a <= 0 && b <= 0)
      || (x + a > high && x + a + b <= low)
      || (x + a < low && x + a + b >= high)
      || low == high
  {
  }

  /**
   The first adjustment is not cut off, or the second goes the same way, or both together run through to
   the other bound, or there is only one value.
   */
  predicate StepsAddUp(value: int, s: int, a: int, b: int, low: int, high: int) {
    var once, twice := value + s * a, value + s * (a + b);
    || low <= once <= high
    || (a >= 0 && b >= 0) || (a <= 0 && b <= 0)
    || (once > high && twice <= low)
    || (once < low && twice >= high)
    || low == high
  }

  lemma {:induction false} AdjustedTwice(d: Descriptor, value: Value, step: Value, a: int32, b: int32)
    requires Adjustable(d, value, step) && d.valueType != BOOL
    ensures var middle := AdjustValue(d, value, step, a).value;
            var low, high := d.minimum.AsInt(), d.maximum.AsInt();
            && Adjustable(d, middle, step)
            && AdjustValue(d, middle, step, b).value.Type() == d.valueType
            && AdjustValue(d, middle, step, b).value.AsInt() ==
               Clamp(Clamp(value.AsInt() + step.AsInt() * a, low, high) + step.AsInt() * b, low, high)
  {
    AdjustClamps(d, value, step, a);
    AdjustClamps(d, AdjustValue(d, value, step, a).value, step, b);
  }

  lemma {:induction false} SameWhenClampsAgree(d: Descriptor, value: Value, step: Value, a: int32, b: int32)
    requires Adjustable(d, value, step) && d.valueType != BOOL && INT32_MIN <= a + b <= INT32_MAX
    ensures var low, high := d.minimum.AsInt(), d.maximum.AsInt();
            AdjustValue(d, AdjustValue(d, value, step, a).value, step, b) == AdjustValue(d, value, step, a + b) <==>
            Clamp(Clamp(value.AsInt() + step.AsInt() * a, low, high) + step.AsInt() * b, low, high) ==
            Clamp(value.AsInt() + step.AsInt() * (a + b), low, high)
  {
    AdjustedTwice(d, value, step, a, b);
    AdjustClamps(d, value, step, a + b);
    SameValue(AdjustValue(d, AdjustValue(d, value, step, a).value, step, b).value,
              AdjustValue(d, value, step, a + b).value);
  }

  /**
   Two adjustments make one with the sum of the counts exactly when the first is not cut off at a
   bound, or the second goes the same way, or runs through to the opposite bound anyway.
   */
  lemma {:induction false} AdjustmentsCompose(d: Descriptor, value: Value, step: Value, a: int32, b: int32)
    requires Adjustable(d, value, step) && d.valueType != BOOL && INT32_MIN <= a + b <= INT32_MAX
    ensures
      AdjustValue(d, AdjustValue(d, value, step, a).value, step, b) == AdjustValue(d, value, step, a + b) <==>
      StepsAddUp(value.AsInt(), step.AsInt(), a, b, d.minimum.AsInt(), d.maximum.AsInt())
  {
    SameWhenClampsAgree(d, value, step, a, b);
    ClampedSteps(value.AsInt(), step.AsInt(), a, b, d.minimum.AsInt(), d.maximum.AsInt());
  }

  lemma {:induction false} ClampedSteps(value: int, s: int, a: int, b: int, low: int, high: int)
    requires s > 0 && low <= value <= high
    ensures Clamp(Clamp(value + s * a, low, high) + s * b, low, high) == Clamp(value + s * (a + b), low, high) <==>
      StepsAddUp(value, s, a, b, low, high)
  {
    SumOfProducts(s, a, b);
    SignOfProduct(s, a);
    SignOfProduct(s, b);
    ClampTwice(value, s * a, s * b, low, high);
  }

  lemma {:induction false} SumOfProducts(s: int, a: int, b: int)
    ensures s * (a + b) == s * a + s * b
  {
  }

  lemma {:induction false} SignOfProduct(s: int, a: int)
    requires s > 0
    ensures s * a >= 0 <==> a >= 0
    ensures s * a <= 0 <==> a <= 0
  {
  }

  lemma {:induction false} SameValue(v: Value, w: Value)
    requires v.Type() == w.Type()
    ensures v == w <==> v.AsInt() == w.AsInt()
  {
  }

  // ---------------------------------------------------------------- scaling a step

  /** mizu_parameter_validate_runtime_step. */
  function RuntimeStepStatus(d: Descriptor, step: Value): MizuStatus
    requires Valid(d) && step.Type() == d.valueType
  {
    match d.valueType
    case INT32 =>
      var range: int64 := d.maximum.i - d.minimum.i;
      if step.i <= 0 || step.i > range then INVALID_ARGUMENT else OK
    case UINT32 =>
      var range: uint32 := d.maximum.u - d.minimum.u;
      if step.u == 0 || step.u > range then INVALID_ARGUMENT else OK
    case BOOL => INVALID_STATE
  }

  /** The steps a menu may hold for a parameter: whole, positive, and at most the range. */
  ghost predicate RuntimeStep(d: Descriptor, step: Value) {
    step.Type() == d.valueType && d.valueType != BOOL && 1 <= step.AsInt() <= Range(d)
  }

  /** mizu_parameter_scale_step. */
  function ScaleStep(d: Descriptor, step: Value, direction: int32): Result<Value> {
    if direction < -1 || direction > 1 then Failure(INVALID_ARGUMENT)
    else if !Valid(d) then Failure(DescriptorStatus(d))
    else if step.Type() != d.valueType then Failure(INVALID_ARGUMENT)
    else if !d.writable || d.valueType == BOOL || Compare(d.minimum, d.maximum) == 0 then Failure(INVALID_STATE)
    else if RuntimeStepStatus(d, step) != OK then Failure(RuntimeStepStatus(d, step))
    else if d.valueType == INT32 then
      var range: int64 := d.maximum.i - d.minimum.i;
      var maximum: int32 := if range > INT32_MAX then INT32_MAX else range;
      var candidate: int64 := step.i * 10;
      Success(Int32(
        if direction < 0 then (if step.i / 10 < 1 then 1 else step.i / 10)
        else if direction > 0 then (if candidate > maximum then maximum else candidate)
        else step.i))
    else
      var maximum: uint32 := d.maximum.u - d.minimum.u;
      var candidate: uint64 := step.u * 10;
      Success(Uint32(
        if direction < 0 then (if step.u / 10 == 0 then 1 else step.u / 10)
        else if direction > 0 then (if candidate > maximum then maximum else candidate)
        else step.u))
  }

  /** Scaling takes valid steps to valid steps, by a factor of ten within [1, range]; other steps are refused. */
  lemma {:induction false} ScaleKeepsStepsValid(d: Descriptor, step: Value, direction: int32)
    requires Valid(d) && -1 <= direction <= 1
    ensures ScaleStep(d, step, direction).Success? <==> d.writable && RuntimeStep(d, step)
    ensures d.writable && RuntimeStep(d, step) ==>
      var scaled := ScaleStep(d, step, direction).value;
      var limit := if d.valueType == INT32 then Min(Range(d), INT32_MAX) else Range(d);
      && RuntimeStep(d, scaled)
      && scaled.AsInt() == Clamp(if direction < 0 then step.AsInt() / 10
                                 else if direction > 0 then step.AsInt() * 10
                                 else step.AsInt(), 1, limit)
  {
  }

  /** Which fault a refused scaling is charged with. */
  lemma {:induction false} ScaleFault(d: Descriptor, step: Value, direction: int32)
    requires !Valid(d) || !d.writable || !RuntimeStep(d, step) || direction < -1 || direction > 1
    ensures ScaleStep(d, step, direction) == Failure(
      if direction < -1 || direction > 1 then INVALID_ARGUMENT
      else if !Valid(d) then DescriptorStatus(d)
      else if step.Type() != d.valueType then INVALID_ARGUMENT
      else if !d.writable || d.valueType == BOOL || d.minimum == d.maximum then INVALID_STATE
      else INVALID_ARGUMENT)
  {
  }

  // ---------------------------------------------------------------- reading and writing through the owner

  /** What a getter returns; the value may be anything, whatever the status. */
  datatype Reading = Reading(status: MizuStatus, value: Value)

  /** mizu_parameter_validate_current and the checks of mizu_parameter_service_get_by_id. */
  function ReadingStatus(d: Descriptor, reading: Reading): MizuStatus
    requires Valid(d)
  {
    if reading.status != OK then reading.status
    else if !Admits(d, reading.value) then INVALID_DATA
    else OK
  }

  /** The checks of mizu_parameter_service_set_by_id before the setter is called. */
  function WriteStatus(d: Descriptor, value: Value): MizuStatus
    requires Valid(d)
  {
    if !d.writable then INVALID_STATE
    else if value.Type() != d.valueType then INVALID_ARGUMENT
    else if !Admits(d, value) then OUT_OF_RANGE
    else OK
  }

  /** A value that was read is passed on exactly when the owner gave it, of the right type and in range. */
  lemma {:induction false} ReadingDecides(d: Descriptor, reading: Reading)
    requires Valid(d)
    ensures reading.status != OK ==> ReadingStatus(d, reading) == reading.status
    ensures reading.status == OK ==> ReadingStatus(d, reading) in {OK, INVALID_DATA}
    ensures reading.status == OK ==>
      (ReadingStatus(d, reading) == OK <==>
        && reading.value.Type() == d.valueType
        && d.minimum.AsInt() <= reading.value.AsInt() <= d.maximum.AsInt())
  {
  }

  /** A value may be written exactly to a writable parameter of its type with bounds around it. */
  lemma {:induction false} WriteDecides(d: Descriptor, value: Value)
    requires Valid(d)
    ensures WriteStatus(d, value) == OK <==>
      && d.writable && value.Type() == d.valueType
      && d.minimum.AsInt() <= value.AsInt() <= d.maximum.AsInt()
    ensures !d.writable ==> WriteStatus(d, value) == INVALID_STATE
    ensures d.writable && value.Type() != d.valueType ==> WriteStatus(d, value) == INVALID_ARGUMENT
    ensures d.writable && value.Type() == d.valueType && WriteStatus(d, value) != OK ==>
      WriteStatus(d, value) == OUT_OF_RANGE
  {
  }
}
