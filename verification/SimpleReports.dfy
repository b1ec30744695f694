/** SimpleReport, one integer, and SimpleArrayReport, integers packed four to an element. */
module SimpleReports {
  import opened Machine
  import opened ReportTypes
  import Dimensions

  // ----- One slot, whoever holds it -----

  datatype SlotOp = Set(value: int64) | Increment(value: int64)

  function ApplySlot(v: int64, op: SlotOp): int64 {
    match op
    case Set(value) => value
    case Increment(value) => SaturatingAdd(v, value)
  }

  function RunSlot(start: int64, ops: seq<SlotOp>): int64 {
    if ops == [] then start else ApplySlot(RunSlot(start, ops[..|ops| - 1]), ops[|ops| - 1])
  }

  /** The value last set, or the initial one. */
  function Base(start: int64, ops: seq<SlotOp>): int64 {
    if ops == [] then start
    else if ops[|ops| - 1].Set? then ops[|ops| - 1].value
    else Base(start, ops[..|ops| - 1])
  }

  /** The increments made since then. */
  function SinceBase(ops: seq<SlotOp>): seq<int64> {
    if ops == [] || ops[|ops| - 1].Set? then []
    else SinceBase(ops[..|ops| - 1]) + [ops[|ops| - 1].value]
  }

  /** A slot forgets everything before its last SETVALUE and accumulates the increments since. */
  lemma {:induction false} SlotOfRun(start: int64, ops: seq<SlotOp>)
    ensures RunSlot(start, ops) == Accumulate(Base(start, ops), SinceBase(ops))
  {
    if ops != [] && ops[|ops| - 1].Increment? {
      var before := ops[..|ops| - 1];
      SlotOfRun(start, before);
      assert SinceBase(ops)[..|SinceBase(ops)| - 1] == SinceBase(before);
    }
  }

  // ----- SimpleReport -----

  class SimpleBuffer {
    var elem: Element<int64>

    ghost const channel: Channel
    ghost var history: seq<SlotOp>

    ghost predicate Valid()
      reads this
    {
      elem == InitElement(channel, FORMAT_SIMPLE, 1, 0, RunSlot(INVALID_INT_VALUE, history))
    }

    constructor Init(ch: Channel)
      ensures Valid() && channel == ch && history == []
    {
      elem := InitElement(ch, FORMAT_SIMPLE, 1, 0, INVALID_INT_VALUE);
      channel, history := ch, [];
    }

    method SetValue(newValue: int64)
      requires Valid()
      modifies this
      ensures Valid() && history == old(history) + [Set(newValue)]
      ensures elem == old(elem).(values := newValue)
    {
      elem := elem.(values := newValue);
      history := history + [Set(newValue)];
    }

    /** Adds through a temporary. */
    method IncrementValue(incrementBy: int64)
      requires Valid()
      modifies this
      ensures Valid() && history == old(history) + [Increment(incrementBy)]
      ensures elem == old(elem).(values := SaturatingAdd(old(elem.values), incrementBy))
    {
      var sum := WrapInt64(elem.values + incrementBy);
      if !FitsInt64(elem.values + incrementBy) {
        elem := elem.(values := INT64_MAX);
      } else {
        elem := elem.(values := sum);
      }
      assert (history + [Increment(incrementBy)])[..|history|] == history;
      history := history + [Increment(incrementBy)];
    }

    method UpdatePrep() returns (size2cpy: nat)
      requires Valid()
      ensures size2cpy == 64 == Dimensions.Size2Cpy(Dimensions.Report(Dimensions.Simple, 1))
    {
      size2cpy := ELEMENT_SIZE;
    }

    /** The increment is not checked; overflowing it is undefined. */
    method UpdateRes(action: uint32, nElements: int32) returns (r: Dimensions.Counter)
      requires Valid()
      ensures r == Dimensions.UpdateRes(Dimensions.Report(Dimensions.Simple, 1), action, nElements)
      ensures action != 1 && action != 2 ==> r == Dimensions.Counted(nElements)
      ensures action == 1 || action == 2 ==>
                r == if nElements == 0x7fff_ffff then Dimensions.Undefined else Dimensions.Counted(nElements + 1)
    {
      r := Dimensions.Counted(nElements);
      if action == Dimensions.GET_DIMENSIONS || action == Dimensions.COPY_CHANNEL_DATA {
        r := if nElements == INT_MAX then Dimensions.Undefined else Dimensions.Counted(nElements + 1);
      }
    }

    method GetValue() returns (r: int64)
      requires Valid()
      ensures r == Accumulate(Base(-0x8000_0000_0000_0000, history), SinceBase(history))
    {
      r := elem.values;
      SlotOfRun(INVALID_INT_VALUE, history);
    }
  }

  /** Every field of a SimpleReport in use: those of the channel for ever, and the value since INIT. */
  lemma {:induction false} SimpleReportsHistory(b: SimpleBuffer)
    requires b.Valid()
    ensures b.elem.providerId == b.channel.providerId && b.elem.channelId == b.channel.channelId
    ensures b.elem.channelType == ChannelType(1, 0, b.channel.categories, 1, 0) && b.elem.timestamp == 0
    ensures b.elem.values == Accumulate(Base(-0x8000_0000_0000_0000, b.history), SinceBase(b.history))
  {
    SlotOfRun(-0x8000_0000_0000_0000, b.history);
  }

  // ----- SimpleArrayReport -----

  type ArrayElement = Element<seq<int64>>

  /** Elements needed for nValues values, as SIMPLEARRAY_INIT computes them. */
  function ElementsFor(nValues: nat): nat {
    nValues / VALUES_PER_ELEMENT + (if nValues % VALUES_PER_ELEMENT != 0 then 1 else 0)
  }

  /** The nelements field is 16 bits wide, so every value has its slot exactly up to 262140 values. */
  lemma {:induction false} SlotsForValues(nValues: nat)
    ensures 4 * ElementsFor(nValues) >= nValues > 4 * (ElementsFor(nValues) - 1)
    ensures nValues <= 4 * (ElementsFor(nValues) % TWO16) <==> nValues <= 262140
  {
  }

  /** __SA_FINDREP's check. */
  predicate WriteAccepts(nelements: uint16, idx: uint32) {
    idx / VALUES_PER_ELEMENT < nelements
  }

  /** __SA_MAXINDEX as the comparison with an unsigned index sees it: -1 becomes UINT_MAX. */
  function MaxIndex(nelements: uint16): uint32 {
    (nelements * VALUES_PER_ELEMENT - 1) % TWO32
  }

  /** SIMPLEARRAY_GETVALUE's check, for an unsigned index. */
  predicate ReadAccepts(nelements: uint16, idx: uint32) {
    !(idx > MaxIndex(nelements) || idx < 0)
  }

  /** Reads and writes accept the same indices, those of the slots, exactly when nelements is not 0. */
  lemma {:induction false} AcceptsAgreeIff(nelements: uint16)
    ensures (forall idx: uint32 :: WriteAccepts(nelements, idx) <==> ReadAccepts(nelements, idx)) <==> nelements != 0
    ensures forall idx: uint32 :: WriteAccepts(nelements, idx) <==> idx < 4 * nelements
  {
    if nelements == 0 {
      assert ReadAccepts(0, 0) && !WriteAccepts(0, 0);
    }
  }

  datatype ArrayOp = At(idx: uint32, op: SlotOp)

  function ApplyFlat(flat: seq<int64>, a: ArrayOp): (r: seq<int64>)
    ensures |r| == |flat|
  {
    if a.idx < |flat| then flat[a.idx := ApplySlot(flat[a.idx], a.op)] else flat
  }

  function RunFlat(flat: seq<int64>, ops: seq<ArrayOp>): (r: seq<int64>)
    ensures |r| == |flat|
  {
    if ops == [] then flat else ApplyFlat(RunFlat(flat, ops[..|ops| - 1]), ops[|ops| - 1])
  }

  lemma {:induction false} RunFlatAppend(flat: seq<int64>, ops: seq<ArrayOp>, a: ArrayOp)
    ensures RunFlat(flat, ops + [a]) == ApplyFlat(RunFlat(flat, ops), a)
  {
  }

  /** What was done to slot i. */
  function OpsAt(ops: seq<ArrayOp>, i: nat): seq<SlotOp> {
    if ops == [] then []
    else if ops[|ops| - 1].idx == i then OpsAt(ops[..|ops| - 1], i) + [ops[|ops| - 1].op]
    else OpsAt(ops[..|ops| - 1], i)
  }

  /** Slots do not interfere: each ends as a SimpleReport that saw only its own operations. */
  lemma {:induction false} SlotsIndependent(flat: seq<int64>, ops: seq<ArrayOp>, i: nat)
    requires i < |flat|
    ensures RunFlat(flat, ops)[i] == RunSlot(flat[i], OpsAt(ops, i))
  {
    if ops != [] {
      var before := ops[..|ops| - 1];
      SlotsIndependent(flat, before, i);
      assert (OpsAt(before, i) + [ops[|ops| - 1].op])[..|OpsAt(before, i)|] == OpsAt(before, i);
    }
  }

  function IncrementsAt(ops: seq<ArrayOp>, i: nat): seq<int64> {
    SinceBase(OpsAt(ops, i))
  }

  lemma {:induction false} OnlyIncrements(ops: seq<ArrayOp>, i: nat, start: int64)
    requires forall k | 0 <= k < |ops| :: ops[k].op.Increment? && 0 <= ops[k].op.value
    ensures var own := OpsAt(ops, i);
            && (forall k | 0 <= k < |own| :: own[k].Increment? && 0 <= own[k].value)
            && |SinceBase(own)| == |own| && (forall k | 0 <= k < |own| :: SinceBase(own)[k] == own[k].value)
            && Base(start, own) == start
  {
    if ops != [] {
      var before := ops[..|ops| - 1];
      OnlyIncrements(before, i, start);
      if ops[|ops| - 1].idx == i {
        assert OpsAt(ops, i)[..|OpsAt(ops, i)| - 1] == OpsAt(before, i);
      }
    }
  }

  /** Any interleaving of nonnegative increments leaves each slot at its start plus the sum of its own
      increments, saturated once. */
  lemma {:induction false} IncrementRun(flat: seq<int64>, ops: seq<ArrayOp>, i: nat)
    requires i < |flat|
    requires forall k | 0 <= k < |ops| :: ops[k].op.Increment? && 0 <= ops[k].op.value
    ensures RunFlat(flat, ops)[i] == Min(INT64_MAX, flat[i] + Sum(IncrementsAt(ops, i)))
  {
    SlotsIndependent(flat, ops, i);
    OnlyIncrements(ops, i, flat[i]);
    SlotOfRun(flat[i], OpsAt(ops, i));
    AccumulateNonNegatives(flat[i], IncrementsAt(ops, i));
  }

  // ----- The packed buffer -----

  ghost predicate Packed(elem: seq<ArrayElement>) {
    && 1 <= |elem|
    && elem[0].channelType.nelements == |elem| % TWO16
    && forall k | 0 <= k < |elem| :: |elem[k].values| == VALUES_PER_ELEMENT
  }

  /** The slots that can be written: four for each of the nelements the field admits to. */
  function Flatten(elem: seq<ArrayElement>): (flat: seq<int64>)
    requires Packed(elem)
    ensures |flat| == 4 * elem[0].channelType.nelements
  {
    seq(4 * elem[0].channelType.nelements, i requires 0 <= i < 4 * elem[0].channelType.nelements =>
          elem[i / VALUES_PER_ELEMENT].values[i % VALUES_PER_ELEMENT])
  }

  /** Storing through the /4, %4 packing is storing in the flat sequence. */
  lemma {:induction false} StoreIsFlat(elem: seq<ArrayElement>, idx: uint32, v: int64)
    requires Packed(elem) && WriteAccepts(elem[0].channelType.nelements, idx)
    ensures var k := idx / VALUES_PER_ELEMENT;
            var e := elem[k].(values := elem[k].values[idx % VALUES_PER_ELEMENT := v]);
            && Packed(elem[k := e])
            && Flatten(elem[k := e]) == Flatten(elem)[idx := v]
  {
  }

  /** os_add_overflow with the slot itself as destination: the wrapped sum is stored first and
      overwritten on overflow. */
  method AddInPlace(values: seq<int64>, i: nat, value: int64) returns (r: seq<int64>)
    requires i < |values|
    ensures r == values[i := SaturatingAdd(values[i], value)]
  {
    var sum := values[i] + value;
    r := values[i := WrapInt64(sum)];
    if !FitsInt64(sum) {
      r := r[i := INT64_MAX];
    } else {
      WrapInt64OfFitting(sum);
    }
  }

  function InitArrayElement(ch: Channel, n: uint32, no: uint32): ArrayElement {
    InitElement(ch, FORMAT_SIMPLE_ARRAY, n % TWO16, no % TWO16,
                [INVALID_INT_VALUE, INVALID_INT_VALUE, INVALID_INT_VALUE, INVALID_INT_VALUE])
  }

  class ArrayBuffer {
    const elem: array<ArrayElement>

    ghost const channel: Channel
    ghost var history: seq<ArrayOp>

    ghost function Flat(): seq<int64>
      requires Packed(elem[..])
      reads elem
    {
      Flatten(elem[..])
    }

    /** Header fields are as INIT left them; the slots are what the history makes of invalid values, and
        those beyond nelements are invalid. */
    ghost predicate Valid()
      reads this, elem
    {
      && 1 <= elem.Length < TWO32
      && (forall k | 0 <= k < elem.Length ::
            elem[k] == InitArrayElement(channel, elem.Length, k).(values := elem[k].values))
      && Packed(elem[..])
      && Flat() == RunFlat(seq(4 * (elem.Length % TWO16), _ => INVALID_INT_VALUE), history)
      && forall k | elem.Length % TWO16 <= k < elem.Length ::
           elem[k].values == [INVALID_INT_VALUE, INVALID_INT_VALUE, INVALID_INT_VALUE, INVALID_INT_VALUE]
    }

    constructor Init(nValues: int32, ch: Channel)
      requires 1 <= nValues
      ensures Valid() && fresh(elem)
      ensures elem.Length == ElementsFor(nValues) && channel == ch && history == []
    {
      var nElems: uint32 := nValues / VALUES_PER_ELEMENT + (if nValues % VALUES_PER_ELEMENT != 0 then 1 else 0);
      var filled := FilledElement([FILL64, FILL64, FILL64, FILL64]);
      elem := new ArrayElement[nElems](_ => filled);
      channel, history := ch, [];
      new;
      var no: uint32 := 0;
      while no < nElems
        invariant 0 <= no <= nElems
        invariant forall k | 0 <= k < no :: elem[k] == InitArrayElement(ch, nElems, k)
        modifies elem
      {
        elem[no] := InitElement(ch, FORMAT_SIMPLE_ARRAY, nElems % TWO16, no % TWO16,
                                [INVALID_INT_VALUE, INVALID_INT_VALUE, INVALID_INT_VALUE, INVALID_INT_VALUE]);
        no := no + 1;
      }
      assert Packed(elem[..]);
      assert Flat() == seq(4 * (elem.Length % TWO16), _ => INVALID_INT_VALUE);
    }

    method SetValue(idx: uint32, newValue: int64)
      requires Valid()
      modifies this`history, elem
      ensures Valid() && history == old(history) + [At(idx, Set(newValue))]
      ensures Flat() == ApplyFlat(old(Flat()), At(idx, Set(newValue)))
      ensures forall k | elem.Length % TWO16 <= k < elem.Length :: elem[k] == old(elem[k])
    {
      ghost var e0 := elem[..];
      var elemIdx, valueIdx := idx / VALUES_PER_ELEMENT, idx % VALUES_PER_ELEMENT;
      if elemIdx < elem[0].channelType.nelements {
        StoreIsFlat(e0, idx, newValue);
        elem[elemIdx] := elem[elemIdx].(values := elem[elemIdx].values[valueIdx := newValue]);
        assert elem[..] == e0[elemIdx := elem[elemIdx]];
      }
      RunFlatAppend(seq(4 * (elem.Length % TWO16), _ => INVALID_INT_VALUE), history, At(idx, Set(newValue)));
      history := history + [At(idx, Set(newValue))];
    }

    method IncrementValue(idx: uint32, value: int64)
      requires Valid()
      modifies this`history, elem
      ensures Valid() && history == old(history) + [At(idx, Increment(value))]
      ensures Flat() == ApplyFlat(old(Flat()), At(idx, Increment(value)))
      ensures forall k | elem.Length % TWO16 <= k < elem.Length :: elem[k] == old(elem[k])
    {
      ghost var e0 := elem[..];
      var elemIdx, valueIdx := idx / VALUES_PER_ELEMENT, idx % VALUES_PER_ELEMENT;
      if elemIdx < elem[0].channelType.nelements {
        StoreIsFlat(e0, idx, SaturatingAdd(e0[elemIdx].values[valueIdx], value));
        var values := AddInPlace(elem[elemIdx].values, valueIdx, value);
        elem[elemIdx] := elem[elemIdx].(values := values);
        assert elem[..] == e0[elemIdx := elem[elemIdx]];
      }
      RunFlatAppend(seq(4 * (elem.Length % TWO16), _ => INVALID_INT_VALUE), history, At(idx, Increment(value)));
      history := history + [At(idx, Increment(value))];
    }

    /** With nelements 0 the check lets every index through, so the caller must stay inside the buffer. */
    method GetValue(idx: uint32) returns (r: int64)
      requires Valid()
      requires elem[0].channelType.nelements == 0 ==> idx / VALUES_PER_ELEMENT < elem.Length
      ensures elem[0].channelType.nelements != 0 ==>
                r == if idx < |Flat()| then Flat()[idx] else -0x8000_0000_0000_0000
      ensures elem[0].channelType.nelements == 0 ==>
                r == elem[idx / 4].values[idx % 4] == -0x8000_0000_0000_0000
    {
      if idx > MaxIndex(elem[0].channelType.nelements) || idx < 0 {
        r := INVALID_INT_VALUE;
      } else {
        r := elem[idx / VALUES_PER_ELEMENT].values[idx % VALUES_PER_ELEMENT];
      }
    }

    method UpdatePrep() returns (size2cpy: nat)
      requires Valid()
      ensures size2cpy == 64 * (elem.Length % 0x1_0000) == Dimensions.Size2Cpy(AsReport())
    {
      size2cpy := elem[0].channelType.nelements * ELEMENT_SIZE;
    }

    /** What the report counts for: only the elements that nelements admits to. */
    ghost function AsReport(): Dimensions.Report {
      Dimensions.Report(Dimensions.SimpleArray, elem.Length % TWO16)
    }

    method UpdateRes(action: uint32, nElements: int32) returns (r: Dimensions.Counter)
      requires Valid()
      ensures r == Dimensions.UpdateRes(AsReport(), action, nElements)
      ensures r == Dimensions.Counted(if action == 1 || action == 2
                                      then Min(0x7fff_ffff, nElements + elem.Length % 0x1_0000) else nElements)
    {
      r := Dimensions.Counted(nElements);
      if action == Dimensions.GET_DIMENSIONS || action == Dimensions.COPY_CHANNEL_DATA {
        var sum := nElements + elem[0].channelType.nelements;
        r := Dimensions.Counted(if INT_MAX < sum then INT_MAX else sum);
      }
    }
  }

  /** Every field of every element of an array in use: those of the channel for ever, and in each slot
      what its own operations made of the invalid value. */
  lemma {:induction false} ArrayReportsHistory(b: ArrayBuffer, k: nat, j: nat)
    requires b.Valid() && k < b.elem.Length && j < 4
    ensures b.elem[k].providerId == b.channel.providerId && b.elem[k].channelId == b.channel.channelId
    ensures b.elem[k].channelType
            == ChannelType(4, 0, b.channel.categories, b.elem.Length % 0x1_0000, ToInt16(k % 0x1_0000))
    ensures b.elem[k].timestamp == 0 && |b.elem[k].values| == 4
    ensures b.elem[k].values[j] ==
            var own := if k < b.elem.Length % 0x1_0000 then OpsAt(b.history, 4 * k + j) else [];
            Accumulate(Base(-0x8000_0000_0000_0000, own), SinceBase(own))
  {
    if k < b.elem.Length % TWO16 {
      var start := seq(4 * (b.elem.Length % TWO16), _ => INVALID_INT_VALUE);
      assert (4 * k + j) / 4 == k && (4 * k + j) % 4 == j;
      assert b.Flat()[4 * k + j] == b.elem[k].values[j];
      SlotsIndependent(start, b.history, 4 * k + j);
      SlotOfRun(-0x8000_0000_0000_0000, OpsAt(b.history, 4 * k + j));
    }
  }

  /** element_idx is the position of every element of an array exactly up to 32768 elements, however
      many there are. */
  lemma {:induction false} ElementIdxIsPositionIff(b: ArrayBuffer)
    requires b.Valid()
    ensures (forall k: nat | k < b.elem.Length :: b.elem[k].channelType.elementIdx == k) <==> b.elem.Length <= 0x8000
  {
    assert forall k: nat | k < b.elem.Length :: b.elem[k].channelType.elementIdx == ToInt16(k % TWO16);
    if 0x8000 < b.elem.Length {
      assert b.elem[0x8000].channelType.elementIdx == -0x8000;
    }
  }
}
