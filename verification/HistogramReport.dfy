/** HistogramReport: linear buckets filled by a first-match scan, with statistics per bucket. */
module HistogramReport {
  import opened Machine
  import opened ReportTypes
  import Dimensions

  datatype HistValues = HistValues(hits: uint64, min: int64, max: int64, sum: int64)

  type HistElement = Element<HistValues>

  /** IOHistReportInfo as a value. */
  datatype Info = Info(bucketWidth: int32, elem: seq<HistElement>)

  ghost predicate WellFormed(h: Info) {
    && 1 <= |h.elem| < TWO16
    && h.elem[0].channelType.nelements == |h.elem|
  }

  /** The upper bound of bucket `no` as the scan computes it: int times unsigned int is an unsigned
      32-bit product. */
  function Bound(bucketWidth: int32, no: uint16): uint32 {
    (bucketWidth * (no + 1)) % TWO32
  }

  /** The bucket a value is tallied in: the first, from `no` on, whose bound is not below it; n if none. */
  function FirstMatch(bucketWidth: int32, n: uint16, value: int64, no: uint16): (r: uint16)
    requires no <= n
    ensures no <= r <= n
    ensures forall k | no <= k < r :: Bound(bucketWidth, k) < value
    ensures r < n ==> value <= Bound(bucketWidth, r)
    decreases n - no
  {
    if no == n || value <= Bound(bucketWidth, no) then no else FirstMatch(bucketWidth, n, value, no + 1)
  }

  function Bucket(h: Info, value: int64): (b: uint16)
    requires WellFormed(h)
    ensures b <= |h.elem|
  {
    FirstMatch(h.bucketWidth, |h.elem|, value, 0)
  }

  /** A bucket's statistics after one more value. */
  function Record(v: HistValues, value: int64): HistValues {
    HistValues(
      Wrap64(v.hits + 1),
      if v.hits == 0 || value < v.min then value else v.min,
      if v.hits == 0 || (v.min <= value && v.max < value) then value else v.max,
      SaturatingAdd(v.sum, value))
  }

  function ApplyTally(h: Info, value: int64): (r: Info)
    requires WellFormed(h)
    ensures WellFormed(r) && |r.elem| == |h.elem| && r.bucketWidth == h.bucketWidth
  {
    var b := Bucket(h, value);
    if b < |h.elem| then h.(elem := h.elem[b := h.elem[b].(values := Record(h.elem[b].values, value))]) else h
  }

  function Run(h: Info, values: seq<int64>): (r: Info)
    requires WellFormed(h)
    ensures WellFormed(r) && |r.elem| == |h.elem| && r.bucketWidth == h.bucketWidth
  {
    if values == [] then h else ApplyTally(Run(h, values[..|values| - 1]), values[|values| - 1])
  }

  lemma {:induction false} RunAppend(h: Info, values: seq<int64>, value: int64)
    requires WellFormed(h)
    ensures Run(h, values + [value]) == ApplyTally(Run(h, values), value)
  {
  }

  function InitBucket(ch: Channel, n: uint16, no: uint16): HistElement {
    InitElement(ch, FORMAT_HISTOGRAM, n, no, HistValues(0, 0, 0, 0))
  }

  function InitInfo(ch: Channel, n: uint16, bktSize: uint32): (h: Info)
    requires 1 <= n
    ensures WellFormed(h)
  {
    Info(ToInt32(bktSize), seq(n, no requires 0 <= no < n => InitBucket(ch, n, no)))
  }

  /** The statements that update the matching bucket. */
  method UpdateBucket(before: HistValues, value: int64) returns (rep: HistValues)
    ensures rep == Record(before, value)
  {
    rep := before;
    if rep.hits == 0 {
      rep := rep.(min := value, max := value);
    } else if value < rep.min {
      rep := rep.(min := value);
    } else if value > rep.max {
      rep := rep.(max := value);
    }
    if !FitsInt64(rep.sum + value) {
      rep := rep.(sum := INT64_MAX);
    } else {
      rep := rep.(sum := rep.sum + value);
    }
    rep := rep.(hits := Wrap64(rep.hits + 1));
  }

  class Buffer {
    var bucketWidth: int32
    const elem: array<HistElement>

    ghost const channel: Channel
    ghost const bktSize: uint32
    // Every value tallied since INIT.
    ghost var history: seq<int64>

    ghost function View(): Info
      reads this, elem
    {
      Info(bucketWidth, elem[..])
    }

    ghost predicate Valid()
      reads this, elem
    {
      && 1 <= elem.Length < TWO16
      && View() == Run(InitInfo(channel, elem.Length, bktSize), history)
    }

    constructor Init(nbuckets: uint16, size: uint32, ch: Channel)
      requires 1 <= nbuckets
      ensures Valid() && fresh(elem)
      ensures elem.Length == nbuckets && bktSize == size && channel == ch && history == []
    {
      var filled := FilledElement(HistValues(FILL64, FILL64, FILL64, FILL64));
      elem := new HistElement[nbuckets](_ => filled);
      bucketWidth := ToInt32(size);
      channel, bktSize, history := ch, size, [];
      new;
      var no: uint16 := 0;
      while no < nbuckets
        invariant 0 <= no <= nbuckets
        invariant forall k | 0 <= k < no :: elem[k] == InitBucket(ch, nbuckets, k)
        modifies elem
      {
        elem[no] := InitElement(ch, FORMAT_HISTOGRAM, nbuckets, no, HistValues(0, 0, 0, 0));
        no := no + 1;
      }
      assert elem[..] == InitInfo(ch, nbuckets, size).elem;
    }

    method TallyValue(value: int64)
      requires Valid()
      modifies this`history, elem
      ensures Valid() && history == old(history) + [value]
      ensures View() == ApplyTally(old(View()), value)
    {
      ghost var e0 := elem[..];
      var no: uint16 := 0;
      while no < elem[0].channelType.nelements
        invariant 0 <= no <= |e0| && elem[..] == e0
        invariant FirstMatch(bucketWidth, |e0|, value, 0) == FirstMatch(bucketWidth, |e0|, value, no)
      {
        if value <= (bucketWidth * (no + 1)) % TWO32 {
          var rep := UpdateBucket(elem[no].values, value);
          elem[no] := elem[no].(values := rep);
          assert elem[..] == e0[no := elem[no]];
          break;
        }
        no := no + 1;
      }
      assert View() == ApplyTally(old(View()), value);
      RunAppend(InitInfo(channel, elem.Length, bktSize), history, value);
      history := history + [value];
    }

    method UpdatePrep() returns (size2cpy: nat)
      requires Valid()
      ensures size2cpy == 64 * elem.Length == Dimensions.Size2Cpy(AsReport())
    {
      size2cpy := elem[0].channelType.nelements * ELEMENT_SIZE;
    }

    /** What the report counts for in its driver's dimensions. */
    ghost function AsReport(): Dimensions.Report
      requires elem.Length < TWO16
    {
      Dimensions.Report(Dimensions.Histogram, elem.Length)
    }

    method UpdateRes(action: uint32, nElements: int32) returns (r: Dimensions.Counter)
      requires Valid()
      ensures r == Dimensions.UpdateRes(AsReport(), action, nElements)
      ensures r == Dimensions.Counted(if action == 1 || action == 2 then Min(0x7fff_ffff, nElements + elem.Length) else nElements)
    {
      r := Dimensions.Counted(nElements);
      if action == Dimensions.GET_DIMENSIONS || action == Dimensions.COPY_CHANNEL_DATA {
        var sum := nElements + elem[0].channelType.nelements;
        r := Dimensions.Counted(if INT_MAX < sum then INT_MAX else sum);
      }
    }
  }
}
