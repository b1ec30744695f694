/** The channel dimensions a driver reports: the UPDATERES macros add up elements, the UPDATEPREP
    macros the bytes to copy. */
module Dimensions {
  import opened Machine
  import opened ReportTypes

  datatype Kind = Simple | State | SimpleArray | Histogram

  /** An initialised report; a SimpleReport has one element. The nelements field of an array can be 0,
      when it was truncated to 16 bits. */
  datatype Report = Report(kind: Kind, nelements: uint16) {
    predicate Valid() {
      kind.Simple? ==> nelements == 1
    }
  }

  // The configure and update actions share their numbers: 1 is both kIOReportEnable and
  // kIOReportCopyChannelData, 2 both kIOReportGetDimensions and kIOReportTraceChannelData.
  const GET_DIMENSIONS: uint32 := 2
  const COPY_CHANNEL_DATA: uint32 := 1

  predicate Counts(action: uint32) {
    action == GET_DIMENSIONS || action == COPY_CHANNEL_DATA
  }

  /** The int behind `result`; Undefined once a signed overflow has happened. */
  datatype Counter = Counted(n: int32) | Undefined

  /** SIMPLEREPORT_UPDATERES increments without a check, the other kinds saturate. */
  function UpdateRes(r: Report, action: uint32, n: int32): Counter {
    if !Counts(action) then Counted(n)
    else if r.kind.Simple? then (if n < INT_MAX then Counted(n + 1) else Undefined)
    else if n + r.nelements <= INT_MAX then Counted(n + r.nelements)
    else Counted(INT_MAX)
  }

  function UpdateAll(rs: seq<Report>, action: uint32, start: int32): Counter {
    if rs == [] then Counted(start)
    else
      match UpdateAll(rs[..|rs| - 1], action, start)
      case Counted(n) => UpdateRes(rs[|rs| - 1], action, n)
      case Undefined => Undefined
  }

  /** size2cpy of the UPDATEPREP macros. */
  function Size2Cpy(r: Report): nat {
    if r.kind.Simple? then ELEMENT_SIZE else r.nelements * ELEMENT_SIZE
  }

  function TotalSize(rs: seq<Report>): nat {
    if rs == [] then 0 else TotalSize(rs[..|rs| - 1]) + Size2Cpy(rs[|rs| - 1])
  }

  function TotalElements(rs: seq<Report>): nat {
    if rs == [] then 0 else TotalElements(rs[..|rs| - 1]) + rs[|rs| - 1].nelements
  }

  /** Some SimpleReport is counted when the reports before it already fill the counter. */
  ghost predicate SimpleAtLimit(rs: seq<Report>, start: int32) {
    exists k | 0 <= k < |rs| :: rs[k].kind.Simple? && 0x7fff_ffff <= start + TotalElements(rs[..k])
  }

  lemma {:induction false} LimitOfList(rs: seq<Report>, start: int32)
    requires rs != []
    ensures var before, last := rs[..|rs| - 1], rs[|rs| - 1];
            SimpleAtLimit(rs, start) <==>
            SimpleAtLimit(before, start) || (last.kind.Simple? && 0x7fff_ffff <= start + TotalElements(before))
  {
    var before := rs[..|rs| - 1];
    assert forall k | 0 <= k < |before| :: before[k] == rs[k] && before[..k] == rs[..k];
  }

  /** What any list of reports leaves in the counter: the saturated total, unless a SimpleReport
      overflows it. */
  lemma {:induction false} CounterOfList(rs: seq<Report>, action: uint32, start: int32)
    requires (action == 1 || action == 2) && forall k | 0 <= k < |rs| :: rs[k].Valid()
    ensures UpdateAll(rs, action, start) ==
            if SimpleAtLimit(rs, start) then Undefined else Counted(Min(0x7fff_ffff, start + TotalElements(rs)))
  {
    if rs != [] {
      CounterOfList(rs[..|rs| - 1], action, start);
      LimitOfList(rs, start);
    }
  }

  lemma {:induction false} SizeOfList(rs: seq<Report>)
    requires forall k | 0 <= k < |rs| :: rs[k].Valid()
    ensures TotalSize(rs) == 64 * TotalElements(rs)
  {
    if rs != [] {
      SizeOfList(rs[..|rs| - 1]);
    }
  }

  lemma {:induction false} PrefixElements(rs: seq<Report>, k: nat)
    requires k <= |rs|
    ensures TotalElements(rs[..k]) <= TotalElements(rs)
    decreases |rs|
  {
    if k < |rs| {
      PrefixElements(rs[..|rs| - 1], k);
      assert rs[..|rs| - 1][..k] == rs[..k];
    } else {
      assert rs[..k] == rs;
    }
  }

  lemma {:induction false} LimitExceedsTotal(rs: seq<Report>, start: int32)
    requires SimpleAtLimit(rs, start) && forall k | 0 <= k < |rs| :: rs[k].Valid()
    ensures 0x7fff_ffff < start + TotalElements(rs)
  {
    var k :| 0 <= k < |rs| && rs[k].kind.Simple? && 0x7fff_ffff <= start + TotalElements(rs[..k]);
    assert rs[..k + 1][..k] == rs[..k];
    PrefixElements(rs, k + 1);
  }

  /** The elements counted are the elements copied, 64 bytes each, exactly while the true total fits
      in an int. */
  lemma {:induction false} DimensionsMatchIff(rs: seq<Report>, action: uint32, start: int32)
    requires (action == 1 || action == 2) && forall k | 0 <= k < |rs| :: rs[k].Valid()
    ensures (var c := UpdateAll(rs, action, start);
             c.Counted? && TotalSize(rs) == 64 * (c.n - start))
            <==> start + TotalElements(rs) <= 0x7fff_ffff
  {
    CounterOfList(rs, action, start);
    SizeOfList(rs);
    if SimpleAtLimit(rs, start) {
      LimitExceedsTotal(rs, start);
    }
  }

  /** Any other action leaves the counter alone. */
  lemma {:induction false} OtherActionsCountNothing(rs: seq<Report>, action: uint32, start: int32)
    requires action != 1 && action != 2
    ensures UpdateAll(rs, action, start) == Counted(start)
  {
    if rs != [] {
      OtherActionsCountNothing(rs[..|rs| - 1], action, start);
    }
  }

  /** Exactly the actions 1 and 2 move the counter, whatever the reports, as long as there is an element to
      count and room to count it. */
  lemma {:induction false} CountsIff(rs: seq<Report>, action: uint32, start: int32)
    requires 1 <= TotalElements(rs) && start < 0x7fff_ffff && forall k | 0 <= k < |rs| :: rs[k].Valid()
    ensures UpdateAll(rs, action, start) != Counted(start) <==> action == 1 || action == 2
  {
    if action == 1 || action == 2 {
      CounterOfList(rs, action, start);
    } else {
      OtherActionsCountNothing(rs, action, start);
    }
  }

  /** Without SimpleReports the counter is the saturated total, always. */
  lemma {:induction false} SaturatedTotal(rs: seq<Report>, action: uint32, start: int32)
    requires (action == 1 || action == 2) && forall k | 0 <= k < |rs| :: rs[k].Valid() && !rs[k].kind.Simple?
    ensures UpdateAll(rs, action, start) == Counted(Min(0x7fff_ffff, start + TotalElements(rs)))
  {
    CounterOfList(rs, action, start);
  }
}
