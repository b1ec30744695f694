/** What a StateReport says about the whole run of macros that led to it, read off the run alone. */
module StateTraces {
  import opened Machine
  import opened ReportTypes
  import opened StateReport

  // ----- Functions of the run (n is the number of states) -----

  predicate Enters(n: nat, op: Op) {
    op.SetState? && op.idx < n
  }

  function CurrentState(n: nat, ops: seq<Op>): nat {
    if ops == [] then 0
    else if Enters(n, ops[|ops| - 1]) then ops[|ops| - 1].idx
    else CurrentState(n, ops[..|ops| - 1])
  }

  /** Time up to which residency has been accounted for; 0 means the clock is stopped. */
  function Clock(n: nat, ops: seq<Op>): uint64
    decreases |ops|, 0
  {
    if ops == [] then 0
    else if Ticks(n, ops[..|ops| - 1], ops[|ops| - 1]) then ops[|ops| - 1].time
    else Clock(n, ops[..|ops| - 1])
  }

  /** Does op move the clock when it follows ops? A sample does so only while the clock runs. */
  predicate Ticks(n: nat, ops: seq<Op>, op: Op)
    decreases |ops|, 1
  {
    Enters(n, op) || (op.UpdatePrep? && Clock(n, ops) != 0)
  }

  function Entries(n: nat, ops: seq<Op>, i: nat): nat {
    if ops == [] then 0
    else Entries(n, ops[..|ops| - 1], i)
         + (if Enters(n, ops[|ops| - 1]) && ops[|ops| - 1].idx == i then 1 else 0)
  }

  function TotalEntries(n: nat, ops: seq<Op>): nat {
    if ops == [] then 0
    else TotalEntries(n, ops[..|ops| - 1]) + (if Enters(n, ops[|ops| - 1]) then 1 else 0)
  }

  /** Time of the last entry into state i, or of the last sample taken while i was current. */
  function Stamp(n: nat, ops: seq<Op>, i: nat): uint64 {
    if ops == [] then 0
    else
      var before, op := ops[..|ops| - 1], ops[|ops| - 1];
      if Enters(n, op) && op.idx == i then op.time
      else if op.UpdatePrep? && Clock(n, before) != 0 && CurrentState(n, before) == i then op.time
      else Stamp(n, before, i)
  }

  function LastId(ops: seq<Op>, i: uint16): uint64 {
    if ops == [] then i
    else if ops[|ops| - 1].SetStateId? && ops[|ops| - 1].idx == i then ops[|ops| - 1].id
    else LastId(ops[..|ops| - 1], i)
  }

  /** Sum of the times at which an entry started the stopped clock. */
  function StartTimes(n: nat, ops: seq<Op>): nat {
    if ops == [] then 0
    else
      var before, op := ops[..|ops| - 1], ops[|ops| - 1];
      StartTimes(n, before) + (if Enters(n, op) && Clock(n, before) == 0 then op.time else 0)
  }

  /** Time of the first entry; 0 when there is none. */
  function FirstEntry(n: nat, ops: seq<Op>): uint64 {
    if ops == [] then 0
    else if TotalEntries(n, ops[..|ops| - 1]) == 0 && Enters(n, ops[|ops| - 1]) then ops[|ops| - 1].time
    else FirstEntry(n, ops[..|ops| - 1])
  }

  datatype Occupant = Nobody | Occupied(state: nat)

  /** Which state was current at instant tau: the one entered last among the entries up to tau. */
  function StateAt(n: nat, ops: seq<Op>, tau: int): Occupant {
    if ops == [] then Nobody
    else if Enters(n, ops[|ops| - 1]) && ops[|ops| - 1].time <= tau then Occupied(ops[|ops| - 1].idx)
    else StateAt(n, ops[..|ops| - 1], tau)
  }

  /** The instants before `end` at which state i was current. */
  ghost function Instants(n: nat, ops: seq<Op>, i: nat, end: int): set<int> {
    set tau | 0 <= tau < end && StateAt(n, ops, tau) == Occupied(i)
  }

  /** Every time that moves the clock is nonzero. */
  predicate NonzeroTimes(n: nat, ops: seq<Op>) {
    ops == [] ||
    (NonzeroTimes(n, ops[..|ops| - 1]) &&
     (Ticks(n, ops[..|ops| - 1], ops[|ops| - 1]) ==> ops[|ops| - 1].time != 0))
  }

  /** ... and none of them lies before an earlier one. */
  predicate Chronological(n: nat, ops: seq<Op>) {
    ops == [] ||
    (Chronological(n, ops[..|ops| - 1]) &&
     (Ticks(n, ops[..|ops| - 1], ops[|ops| - 1]) ==>
        ops[|ops| - 1].time != 0 && Clock(n, ops[..|ops| - 1]) <= ops[|ops| - 1].time))
  }

  // ----- Every field of every reachable buffer -----

  lemma {:induction false} HeaderOfRun(ch: Channel, n: uint16, ops: seq<Op>)
    requires 1 <= n
    ensures var s := Run(InitInfo(ch, n), ops);
            s.currState == CurrentState(n, ops) && s.updateTs == Clock(n, ops)
  {
    if ops != [] {
      HeaderOfRun(ch, n, ops[..|ops| - 1]);
    }
  }

  /** What one macro does to the element of state i. */
  lemma {:induction false} ElementOfApply(s: Info, op: Op, i: nat)
    requires WellFormed(s) && i < |s.elem|
    ensures var e, r := s.elem[i], Apply(s, op).elem[i];
            var entered := Enters(|s.elem|, op) && op.idx == i;
            var sampled := op.UpdatePrep? && s.updateTs != 0 && s.currState == i;
            && r.providerId == e.providerId && r.channelId == e.channelId && r.channelType == e.channelType
            && r.timestamp == (if entered || sampled then op.time else e.timestamp)
            && r.values.stateId == (if op.SetStateId? && op.idx == i then op.id else e.values.stateId)
            && r.values.intransitions == (if entered then Wrap64(e.values.intransitions + 1) else e.values.intransitions)
            && r.values.lastIntransition == e.values.lastIntransition
            && r.values.upticks == (if s.updateTs != 0 && s.currState == i && (Enters(|s.elem|, op) || op.UpdatePrep?)
                                    then Wrap64(e.values.upticks + (op.time - s.updateTs)) else e.values.upticks)
  {
  }

  lemma {:induction false} WrapSuccessor(x: int)
    ensures Wrap64(Wrap64(x) + 1) == Wrap64(x + 1)
  {
  }

  /** Apart from upticks, each element of a reachable buffer is a closed function of the run. In
      particular last_intransition stays 0 for ever: no macro writes it after INIT. */
  lemma {:induction false} ElementOfRun(ch: Channel, n: uint16, ops: seq<Op>, i: uint16)
    requires i < n
    ensures var e := Run(InitInfo(ch, n), ops).elem[i];
            && e.providerId == ch.providerId && e.channelId == ch.channelId
            && e.channelType == ChannelType(2, 0, ch.categories, n, ToInt16(i))
            && e.timestamp == Stamp(n, ops, i)
            && e.values.stateId == LastId(ops, i)
            && e.values.intransitions == Wrap64(Entries(n, ops, i))
            && e.values.lastIntransition == 0
  {
    if ops != [] {
      var before, op := ops[..|ops| - 1], ops[|ops| - 1];
      ElementOfRun(ch, n, before, i);
      HeaderOfRun(ch, n, before);
      ElementOfApply(Run(InitInfo(ch, n), before), op, i);
      WrapSuccessor(Entries(n, before, i));
    }
  }

  /** After any run element_idx is the position of every element exactly up to 32768 states. */
  lemma {:induction false} ElementIdxIsPositionIff(ch: Channel, n: uint16, ops: seq<Op>)
    requires 1 <= n
    ensures (forall i: nat | i < n :: Run(InitInfo(ch, n), ops).elem[i].channelType.elementIdx == i) <==> n <= 0x8000
  {
    forall i: nat | i < n
      ensures Run(InitInfo(ch, n), ops).elem[i].channelType.elementIdx == ToInt16(i)
    {
      ElementOfRun(ch, n, ops, i);
    }
    if 0x8000 < n {
      assert Run(InitInfo(ch, n), ops).elem[0x8000].channelType.elementIdx == -0x8000;
    }
  }

  // ----- Conservation -----

  function Intransitions(s: Info): seq<int> {
    seq(|s.elem|, i requires 0 <= i < |s.elem| => s.elem[i].values.intransitions)
  }

  function Upticks(s: Info): seq<int> {
    seq(|s.elem|, i requires 0 <= i < |s.elem| => s.elem[i].values.upticks)
  }

  /** How one macro changes the total of transitions. */
  lemma {:induction false} IntransitionsOfApply(s: Info, op: Op)
    requires WellFormed(s)
    ensures Sum(Intransitions(Apply(s, op))) == Sum(Intransitions(s)) +
            (if Enters(|s.elem|, op)
             then Wrap64(Intransitions(s)[op.idx] + 1) - Intransitions(s)[op.idx]
             else 0)
  {
    var r, xs := Apply(s, op), Intransitions(s);
    forall i | 0 <= i < |s.elem|
      ensures Intransitions(r)[i] == if Enters(|s.elem|, op) && op.idx == i then Wrap64(xs[i] + 1) else xs[i]
    {
      ElementOfApply(s, op, i);
    }
    if Enters(|s.elem|, op) {
      assert Intransitions(r) == xs[op.idx := Wrap64(xs[op.idx] + 1)];
      SumUpdate(xs, op.idx, Wrap64(xs[op.idx] + 1));
    } else {
      assert Intransitions(r) == xs;
    }
  }

  /** ... and of ticks. */
  lemma {:induction false} UpticksOfApply(s: Info, op: Op)
    requires WellFormed(s)
    ensures Sum(Upticks(Apply(s, op))) == Sum(Upticks(s)) +
            (if (Enters(|s.elem|, op) || op.UpdatePrep?) && s.updateTs != 0
             then Wrap64(Upticks(s)[s.currState] + (op.time - s.updateTs)) - Upticks(s)[s.currState]
             else 0)
  {
    var r, ys := Apply(s, op), Upticks(s);
    forall i | 0 <= i < |s.elem|
      ensures Upticks(r)[i] == if s.updateTs != 0 && s.currState == i && (Enters(|s.elem|, op) || op.UpdatePrep?)
                               then Wrap64(ys[i] + (op.time - s.updateTs)) else ys[i]
    {
      ElementOfApply(s, op, i);
    }
    if (Enters(|s.elem|, op) || op.UpdatePrep?) && s.updateTs != 0 {
      var y := Wrap64(ys[s.currState] + (op.time - s.updateTs));
      assert Upticks(r) == ys[s.currState := y];
      SumUpdate(ys, s.currState, y);
    } else {
      assert Upticks(r) == ys;
    }
  }

  lemma {:induction false} SumOfInit(ch: Channel, n: uint16)
    requires 1 <= n
    ensures Sum(Intransitions(InitInfo(ch, n))) == 0 == Sum(Upticks(InitInfo(ch, n)))
  {
    SumOfZeros(Intransitions(InitInfo(ch, n)));
    SumOfZeros(Upticks(InitInfo(ch, n)));
  }

  lemma {:induction false} EntryStep(s: Info, op: Op, entries: nat)
    requires WellFormed(s) && Congruent64(Sum(Intransitions(s)), entries)
    requires entries < TWO64 ==> Sum(Intransitions(s)) == entries
    ensures var total := Sum(Intransitions(Apply(s, op)));
            var entries' := entries + (if Enters(|s.elem|, op) then 1 else 0);
            Congruent64(total, entries') && (entries' < TWO64 ==> total == entries')
  {
    IntransitionsOfApply(s, op);
    if Enters(|s.elem|, op) {
      var xs := Intransitions(s);
      TermBelowSum(xs, op.idx);
      CongruentReplace(Sum(xs), xs[op.idx], 1, entries);
    }
  }

  /** Every in-bounds SETSTATE is counted in exactly one state, and nothing else is counted. */
  lemma {:induction false} EntriesConserved(ch: Channel, n: uint16, ops: seq<Op>)
    requires 1 <= n
    ensures var total := Sum(Intransitions(Run(InitInfo(ch, n), ops)));
            && Congruent64(total, TotalEntries(n, ops))
            && (TotalEntries(n, ops) < TWO64 ==> total == TotalEntries(n, ops))
  {
    if ops == [] {
      SumOfInit(ch, n);
    } else {
      var before := ops[..|ops| - 1];
      EntriesConserved(ch, n, before);
      EntryStep(Run(InitInfo(ch, n), before), ops[|ops| - 1], TotalEntries(n, before));
    }
  }

  lemma {:induction false} TickStep(s: Info, op: Op, starts: int)
    requires WellFormed(s) && Congruent64(Sum(Upticks(s)), s.updateTs - starts)
    ensures var starts' := starts + (if Enters(|s.elem|, op) && s.updateTs == 0 then op.time else 0);
            Congruent64(Sum(Upticks(Apply(s, op))), Apply(s, op).updateTs - starts')
  {
    UpticksOfApply(s, op);
    if (Enters(|s.elem|, op) || op.UpdatePrep?) && s.updateTs != 0 {
      var xs := Upticks(s);
      CongruentReplace(Sum(xs), xs[s.currState], op.time - s.updateTs, s.updateTs - starts);
    }
  }

  /** For EVERY run, all residency together is the clock minus the times at which it was started. */
  lemma {:induction false} TicksConserved(ch: Channel, n: uint16, ops: seq<Op>)
    requires 1 <= n
    ensures Congruent64(Sum(Upticks(Run(InitInfo(ch, n), ops))), Clock(n, ops) - StartTimes(n, ops))
  {
    HeaderOfRun(ch, n, ops);
    if ops == [] {
      SumOfInit(ch, n);
    } else {
      var before := ops[..|ops| - 1];
      TicksConserved(ch, n, before);
      HeaderOfRun(ch, n, before);
      TickStep(Run(InitInfo(ch, n), before), ops[|ops| - 1], StartTimes(n, before));
    }
  }

  lemma {:induction false} SingleStart(n: nat, ops: seq<Op>)
    requires NonzeroTimes(n, ops)
    ensures Clock(n, ops) == 0 <==> TotalEntries(n, ops) == 0
    ensures StartTimes(n, ops) == FirstEntry(n, ops)
    ensures TotalEntries(n, ops) == 0 ==> FirstEntry(n, ops) == 0
  {
    if ops != [] {
      SingleStart(n, ops[..|ops| - 1]);
    }
  }

  /** When no time is zero, the residencies add up to the time since the first entry. */
  lemma {:induction false} TicksSinceFirstEntry(ch: Channel, n: uint16, ops: seq<Op>)
    requires 1 <= n && NonzeroTimes(n, ops)
    ensures Congruent64(Sum(Upticks(Run(InitInfo(ch, n), ops))), Clock(n, ops) - FirstEntry(n, ops))
  {
    TicksConserved(ch, n, ops);
    SingleStart(n, ops);
  }

  // ----- Residency -----

  lemma {:induction false} StateAtClock(n: nat, ops: seq<Op>, tau: int)
    requires Chronological(n, ops) && Clock(n, ops) <= tau
    ensures StateAt(n, ops, tau) == if Clock(n, ops) == 0 then Nobody else Occupied(CurrentState(n, ops))
  {
    if ops != [] {
      StateAtClock(n, ops[..|ops| - 1], tau);
    }
  }

  ghost function Interval(a: int, b: int): (r: set<int>)
    ensures forall tau :: tau in r <==> a <= tau < b
    ensures |r| == if a <= b then b - a else 0
    decreases b - a
  {
    if b <= a then {} else Interval(a, b - 1) + {b - 1}
  }

  /** One clock movement adds to the current state the instants since the previous one. */
  lemma {:induction false} InstantsGrow(n: nat, ops: seq<Op>, op: Op, i: nat)
    requires Chronological(n, ops) && Chronological(n, ops + [op]) && Ticks(n, ops, op)
    ensures Instants(n, ops + [op], i, op.time)
            == Instants(n, ops, i, Clock(n, ops))
               + (if Clock(n, ops) != 0 && i == CurrentState(n, ops)
                  then Interval(Clock(n, ops), op.time) else {})
  {
    var c := Clock(n, ops);
    assert (ops + [op])[..|ops|] == ops;
    forall tau | 0 <= tau < op.time
      ensures StateAt(n, ops + [op], tau) == StateAt(n, ops, tau)
      ensures c <= tau ==> StateAt(n, ops, tau) == if c == 0 then Nobody else Occupied(CurrentState(n, ops))
    {
      if c <= tau {
        StateAtClock(n, ops, tau);
      }
    }
  }

  /** The same in numbers, for any macro. */
  lemma {:induction false} InstantsCount(n: nat, ops: seq<Op>, op: Op, i: nat)
    requires Chronological(n, ops) && Chronological(n, ops + [op])
    ensures var c := Clock(n, ops);
            && |Instants(n, ops + [op], i, Clock(n, ops + [op]))|
               == |Instants(n, ops, i, c)|
                  + (if Ticks(n, ops, op) && c != 0 && i == CurrentState(n, ops) then op.time - c else 0)
            && |Instants(n, ops, i, c)| <= c
  {
    assert (ops + [op])[..|ops|] == ops;
    var c := Clock(n, ops);
    SubsetSize(Instants(n, ops, i, c), Interval(0, c));
    if Ticks(n, ops, op) {
      InstantsGrow(n, ops, op, i);
    } else {
      assert Instants(n, ops + [op], i, c) == Instants(n, ops, i, c);
    }
  }

  lemma {:induction false} SubsetSize(a: set<int>, b: set<int>)
    requires a <= b
    ensures |a| <= |b|
  {
    assert b == a + (b - a);
  }

  lemma {:induction false} WrapBelow(x: nat, c: nat, t: uint64)
    requires x <= c <= t
    ensures Wrap64(x + (t - c)) == x + (t - c)
  {
  }

  /** The ticks of state i are exactly the instants, up to the last time recorded, at which the run
      says i was current; so no counter of a chronological run ever wraps. */
  lemma {:induction false} Residency(ch: Channel, n: uint16, ops: seq<Op>, i: uint16)
    requires i < n && Chronological(n, ops)
    ensures Run(InitInfo(ch, n), ops).elem[i].values.upticks == |Instants(n, ops, i, Clock(n, ops))|
  {
    if ops == [] {
      assert Instants(n, ops, i, 0) == {};
    } else {
      var before, op := ops[..|ops| - 1], ops[|ops| - 1];
      assert ops == before + [op];
      Residency(ch, n, before, i);
      HeaderOfRun(ch, n, before);
      ElementOfApply(Run(InitInfo(ch, n), before), op, i);
      InstantsCount(n, before, op, i);
      if Ticks(n, before, op) && Clock(n, before) != 0 {
        WrapBelow(|Instants(n, before, i, Clock(n, before))|, Clock(n, before), op.time);
      }
    }
  }

  /** The same of any buffer in use: what it says of each state follows from its history. */
  lemma {:induction false} BufferReportsHistory(b: Buffer, i: uint16)
    requires b.Valid() && i < b.elem.Length
    ensures b.currState == CurrentState(b.elem.Length, b.history) < b.elem.Length
    ensures b.updateTs == Clock(b.elem.Length, b.history)
    ensures var e := b.elem[i];
            && e.providerId == b.channel.providerId && e.channelId == b.channel.channelId
            && e.channelType == ChannelType(2, 0, b.channel.categories, b.elem.Length, ToInt16(i))
            && e.timestamp == Stamp(b.elem.Length, b.history, i)
            && e.values.stateId == LastId(b.history, i)
            && e.values.intransitions == Wrap64(Entries(b.elem.Length, b.history, i))
            && e.values.lastIntransition == 0
    ensures Chronological(b.elem.Length, b.history) ==>
              b.elem[i].values.upticks
              == |Instants(b.elem.Length, b.history, i, Clock(b.elem.Length, b.history))|
  {
    var n: uint16 := b.elem.Length;
    assert b.elem[i] == b.View().elem[i];
    HeaderOfRun(b.channel, n, b.history);
    ElementOfRun(b.channel, n, b.history, i);
    if Chronological(n, b.history) {
      Residency(b.channel, n, b.history, i);
    }
  }
}
