/** StateReport: residency accounting for a state machine, updated in place. */
module StateReport {
  import opened Machine
  import opened ReportTypes
  import Dimensions

  datatype StateValues = StateValues(stateId: uint64, intransitions: uint64, upticks: uint64, lastIntransition: uint64)

  type StateElement = Element<StateValues>

  /** IOStateReportInfo as a value. */
  datatype Info = Info(currState: uint16, updateTs: uint64, elem: seq<StateElement>)

  /** One use of a macro on an initialised buffer. */
  datatype Op =
    | SetStateId(idx: uint32, id: uint64)
    | SetState(idx: uint32, time: uint64)
    | UpdatePrep(time: uint64)

  // ----- What each macro does to the buffer -----

  /** What every macro relies on: elem[0] exists and says how many elements there are. */
  ghost predicate WellFormed(s: Info) {
    && 1 <= |s.elem| < TWO16
    && s.elem[0].channelType.nelements == |s.elem|
    && s.currState < |s.elem|
  }

  function AddTicks(e: StateElement, ticks: int): StateElement {
    e.(values := e.values.(upticks := Wrap64(e.values.upticks + ticks)))
  }

  function Enter(e: StateElement, time: uint64): StateElement {
    e.(timestamp := time, values := e.values.(intransitions := Wrap64(e.values.intransitions + 1)))
  }

  function ApplySetState(s: Info, idx: uint32, time: uint64): (r: Info)
    requires WellFormed(s)
  {
    if idx < s.elem[0].channelType.nelements then
      var left := if s.updateTs != 0
                  then s.elem[s.currState := AddTicks(s.elem[s.currState], time - s.updateTs)]
                  else s.elem;
      Info(idx, time, left[idx := Enter(left[idx], time)])
    else
      s
  }

  function ApplyUpdatePrep(s: Info, time: uint64): (r: Info)
    requires WellFormed(s)
  {
    if s.updateTs != 0 then
      var e := AddTicks(s.elem[s.currState], time - s.updateTs).(timestamp := time);
      Info(s.currState, time, s.elem[s.currState := e])
    else
      s
  }

  function ApplySetStateId(s: Info, idx: uint32, id: uint64): (r: Info)
    requires WellFormed(s)
  {
    if idx < s.elem[0].channelType.nelements then
      s.(elem := s.elem[idx := s.elem[idx].(values := s.elem[idx].values.(stateId := id))])
    else
      s
  }

  function Apply(s: Info, op: Op): (r: Info)
    requires WellFormed(s)
    ensures WellFormed(r) && |r.elem| == |s.elem|
  {
    match op
    case SetStateId(idx, id) => ApplySetStateId(s, idx, id)
    case SetState(idx, time) => ApplySetState(s, idx, time)
    case UpdatePrep(time) => ApplyUpdatePrep(s, time)
  }

  function Run(s: Info, ops: seq<Op>): (r: Info)
    requires WellFormed(s)
    ensures WellFormed(r) && |r.elem| == |s.elem|
  {
    if ops == [] then s else Apply(Run(s, ops[..|ops| - 1]), ops[|ops| - 1])
  }

  lemma {:induction false} RunAppend(s: Info, ops: seq<Op>, op: Op)
    requires WellFormed(s)
    ensures Run(s, ops + [op]) == Apply(Run(s, ops), op)
  {
  }

  function InitState(ch: Channel, n: uint16, no: uint16): StateElement {
    InitElement(ch, FORMAT_STATE, n, no, StateValues(no, 0, 0, 0))
  }

  function InitInfo(ch: Channel, n: uint16): (s: Info)
    requires 1 <= n
    ensures WellFormed(s)
  {
    Info(0, 0, seq(n, no requires 0 <= no < n => InitState(ch, n, no)))
  }

  // ----- The buffer itself -----

  /** upticks += ticks. */
  method CreditAt(elem: array<StateElement>, i: nat, ticks: int)
    requires i < elem.Length
    modifies elem
    ensures elem[..] == old(elem[..])[i := AddTicks(old(elem[i]), ticks)]
  {
    var rep := elem[i].values;
    elem[i] := elem[i].(values := rep.(upticks := Wrap64(rep.upticks + ticks)));
  }

  /** timestamp = time; intransitions++. */
  method EnterAt(elem: array<StateElement>, i: nat, time: uint64)
    requires i < elem.Length
    modifies elem
    ensures elem[..] == old(elem[..])[i := Enter(old(elem[i]), time)]
  {
    elem[i] := elem[i].(timestamp := time);
    var rep := elem[i].values;
    elem[i] := elem[i].(values := rep.(intransitions := Wrap64(rep.intransitions + 1)));
  }

  class Buffer {
    var currState: uint16
    var updateTs: uint64
    const elem: array<StateElement>

    ghost const channel: Channel
    // Every macro used on this buffer since INIT.
    ghost var history: seq<Op>

    ghost function View(): Info
      reads this, elem
    {
      Info(currState, updateTs, elem[..])
    }

    /** The buffer is what its history makes of a freshly initialised one. */
    ghost predicate Valid()
      reads this, elem
    {
      && 1 <= elem.Length < TWO16
      && View() == Run(InitInfo(channel, elem.Length), history)
    }

    constructor Init(nstates: uint16, ch: Channel)
      requires 1 <= nstates
      ensures Valid() && fresh(elem)
      ensures elem.Length == nstates && channel == ch && history == []
    {
      var filled := FilledElement(StateValues(FILL64, FILL64, FILL64, FILL64));
      elem := new StateElement[nstates](_ => filled);
      currState, updateTs := 0x2626, FILL64;
      channel, history := ch, [];
      new;
      var no: uint16 := 0;
      while no < nstates
        invariant 0 <= no <= nstates
        modifies elem
        invariant forall k | 0 <= k < no :: elem[k] == InitState(ch, nstates, k)
      {
        elem[no] := InitElement(ch, FORMAT_STATE, nstates, no, StateValues(no, 0, 0, 0));
        no := no + 1;
      }
      currState, updateTs := 0, 0;
      assert elem[..] == InitInfo(ch, nstates).elem;
    }

    method SetStateId(idx: uint32, id: uint64)
      requires Valid()
      modifies this`history, elem
      ensures Valid() && history == old(history) + [Op.SetStateId(idx, id)]
      ensures View() == ApplySetStateId(old(View()), idx, id)
    {
      ghost var e0 := elem[..];
      if idx < elem[0].channelType.nelements {
        elem[idx] := elem[idx].(values := elem[idx].values.(stateId := id));
        assert elem[..] == e0[idx := elem[idx]];
      }
      RunAppend(InitInfo(channel, elem.Length), history, Op.SetStateId(idx, id));
      history := history + [Op.SetStateId(idx, id)];
    }

    method SetState(newStateIdx: uint32, changeTime: uint64)
      requires Valid()
      modifies this, elem
      ensures Valid() && history == old(history) + [Op.SetState(newStateIdx, changeTime)]
      ensures View() == ApplySetState(old(View()), newStateIdx, changeTime)
    {
      if newStateIdx < elem[0].channelType.nelements {
        if updateTs != 0 {
          CreditAt(elem, currState, changeTime - updateTs);
        }
        EnterAt(elem, newStateIdx, changeTime);
        currState := newStateIdx;
        updateTs := changeTime;
      }
      assert View() == ApplySetState(old(View()), newStateIdx, changeTime);
      RunAppend(InitInfo(channel, elem.Length), history, Op.SetState(newStateIdx, changeTime));
      history := history + [Op.SetState(newStateIdx, changeTime)];
    }

    /** Also yields what is to be copied out: the number of bytes, starting at elem[0]. */
    method UpdatePrep(currentTime: uint64) returns (size2cpy: nat)
      requires Valid()
      modifies this, elem
      ensures Valid() && history == old(history) + [Op.UpdatePrep(currentTime)]
      ensures View() == ApplyUpdatePrep(old(View()), currentTime)
      ensures size2cpy == 64 * elem.Length == Dimensions.Size2Cpy(AsReport())
    {
      ghost var e0 := elem[..];
      size2cpy := elem[0].channelType.nelements * ELEMENT_SIZE;
      if updateTs != 0 {
        var e := elem[currState].(timestamp := currentTime);
        elem[currState] := e.(values := e.values.(upticks := Wrap64(e.values.upticks + (currentTime - updateTs))));
        assert elem[..] == e0[currState := elem[currState]];
        updateTs := currentTime;
      }
      RunAppend(InitInfo(channel, elem.Length), history, Op.UpdatePrep(currentTime));
      history := history + [Op.UpdatePrep(currentTime)];
    }

    /** What the report counts for in its driver's dimensions. */
    ghost function AsReport(): Dimensions.Report
      requires elem.Length < TWO16
    {
      Dimensions.Report(Dimensions.State, elem.Length)
    }

    method UpdateRes(action: uint32, nElements: int32) returns (r: Dimensions.Counter)
      requires Valid()
      ensures r == Dimensions.UpdateRes(AsReport(), action, nElements)
      ensures r == Dimensions.Counted(if action == 1 || action == 2 then Min(0x7fff_ffff, nElements + elem.Length) else nElements)
    {
      r := Dimensions.Counted(nElements);
      if action == Dimensions.GET_DIMENSIONS || action == Dimensions.COPY_CHANNEL_DATA {
        var sum := nElements + elem[0].channelType.nelements;
        r := Dimensions.Counted(if INT_MAX < sum then INT_MAX else sum);
      }
    }

    method GetTransitions(stateIdx: uint32) returns (r: uint64)
      requires Valid()
      ensures r == if stateIdx < elem.Length then View().elem[stateIdx].values.intransitions else 0x8000_0000_0000_0000
    {
      r := if stateIdx < elem[0].channelType.nelements then elem[stateIdx].values.intransitions else INVALID_VALUE;
    }

    method GetTicks(stateIdx: uint32) returns (r: uint64)
      requires Valid()
      ensures r == if stateIdx < elem.Length then View().elem[stateIdx].values.upticks else 0x8000_0000_0000_0000
    {
      r := if stateIdx < elem[0].channelType.nelements then elem[stateIdx].values.upticks else INVALID_VALUE;
    }
  }
}
