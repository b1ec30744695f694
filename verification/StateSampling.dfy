/** Reading a StateReport out must not change what it reports: UPDATEPREP calls are invisible to the
    accounting, whatever the times. */
module StateSampling {
  import opened Machine
  import opened StateReport
  import opened StateTraces

  /** Equal but for the timestamps of the states in `stamps`. */
  ghost predicate SameReport(s: Info, r: Info, stamps: set<int>) {
    && s.currState == r.currState && s.updateTs == r.updateTs && |s.elem| == |r.elem|
    && (forall i | 0 <= i < |s.elem| :: SameElement(s.elem[i], r.elem[i], i in stamps))
    && (forall i | 0 <= i < |s.elem| :: s.elem[i].values.upticks == r.elem[i].values.upticks)
  }

  /** Equal but for the upticks and, if `stamp`, the timestamp. */
  predicate SameElement(e: StateElement, f: StateElement, stamp: bool) {
    e == f.(values := f.values.(upticks := e.values.upticks),
            timestamp := if stamp then e.timestamp else f.timestamp)
  }

  /** The current states of the two carry the same timestamp. */
  predicate StampsAgree(s: Info, r: Info)
    requires s.currState < |s.elem| == |r.elem|
  {
    s.elem[s.currState].timestamp == r.elem[s.currState].timestamp
  }

  /** s and r have credited the current state up to different times, but agree on what is still due:
      upticks less update_ts is the same number modulo 2^64. With the clock stopped nothing is due, and
      the current state's timestamps agree. */
  ghost predicate Lagging(s: Info, r: Info, stamps: set<int>) {
    && WellFormed(s) && WellFormed(r)
    && s.currState == r.currState && |s.elem| == |r.elem|
    && (s.updateTs == 0 <==> r.updateTs == 0)
    && (forall i | 0 <= i < |s.elem| :: SameElement(s.elem[i], r.elem[i], i in stamps))
    && (forall i | 0 <= i < |s.elem| && i != s.currState :: s.elem[i].values.upticks == r.elem[i].values.upticks)
    && Wrap64(s.elem[s.currState].values.upticks - s.updateTs)
       == Wrap64(r.elem[s.currState].values.upticks - r.updateTs)
    && (s.updateTs == 0 ==> StampsAgree(s, r))
  }

  predicate Settles(n: nat, op: Op) {
    Enters(n, op) || op.UpdatePrep?
  }

  /** Some later macro brings the accounting up to date. */
  predicate SettlesLater(n: nat, ops: seq<Op>) {
    exists i | 0 <= i < |ops| :: Settles(n, ops[i])
  }

  lemma {:induction false} WrapDue(a: int, t: int, b: int, u: int, v: int)
    requires Wrap64(a - t) == Wrap64(b - u)
    ensures Wrap64(a + (v - t)) == Wrap64(b + (v - u))
  {
  }

  lemma {:induction false} WrapCancel(a: uint64, b: uint64, t: int)
    requires Wrap64(a - t) == Wrap64(b - t)
    ensures a == b
  {
    assert (a - b) % TWO64 == 0;
  }

  lemma {:induction false} WrapAdvance(a: int, t: int, time: int)
    ensures Wrap64(Wrap64(a + (time - t)) - time) == Wrap64(a - t)
  {
  }

  /** What two lagging reports still agree on in element i once both have taken the same macro. */
  ghost predicate LagAt(s: Info, r: Info, stamp: bool, op: Op, i: nat)
    requires WellFormed(s) && WellFormed(r) && i < |s.elem| == |r.elem|
  {
    var e, f := Apply(s, op).elem[i], Apply(r, op).elem[i];
    var x, y := e.values.upticks, f.values.upticks;
    && SameElement(e, f, stamp)
    && (i != s.currState || s.updateTs == 0 || Settles(|s.elem|, op) ==> x == y)
    && (i == s.currState && !Settles(|s.elem|, op) ==> Wrap64(x - s.updateTs) == Wrap64(y - r.updateTs))
  }

  lemma {:induction false} LagElsewhere(s: Info, r: Info, stamps: set<int>, op: Op, i: nat)
    requires Lagging(s, r, stamps) && i < |s.elem| && i != s.currState
    ensures LagAt(s, r, i in stamps, op, i)
  {
    ElementOfApply(s, op, i);
    ElementOfApply(r, op, i);
    assert SameElement(s.elem[i], r.elem[i], i in stamps);
  }

  lemma {:induction false} LagAtCurrent(s: Info, r: Info, stamps: set<int>, op: Op)
    requires Lagging(s, r, stamps)
    ensures LagAt(s, r, s.currState in stamps, op, s.currState)
  {
    var i := s.currState;
    var a, b := s.elem[i].values.upticks, r.elem[i].values.upticks;
    ElementOfApply(s, op, i);
    ElementOfApply(r, op, i);
    assert SameElement(s.elem[i], r.elem[i], i in stamps);
    if s.updateTs == 0 {
      WrapCancel(a, b, 0);
    } else if Settles(|s.elem|, op) {
      WrapDue(a, s.updateTs, b, r.updateTs, op.time);
    }
  }

  /** A macro that moves the clock stamps the current state of both alike. */
  lemma {:induction false} StampStep(s: Info, r: Info, stamps: set<int>, op: Op)
    requires Lagging(s, r, stamps)
    ensures Apply(s, op).currState == Apply(r, op).currState
    ensures Settles(|s.elem|, op) || StampsAgree(s, r) ==> StampsAgree(Apply(s, op), Apply(r, op))
  {
    var c := Apply(s, op).currState;
    ElementOfApply(s, op, c);
    ElementOfApply(r, op, c);
  }

  /** Any macro applied to both keeps them lagging, and one that moves the clock settles them. */
  lemma {:induction false} LagStep(s: Info, r: Info, stamps: set<int>, op: Op)
    requires Lagging(s, r, stamps)
    ensures Lagging(Apply(s, op), Apply(r, op), stamps)
    ensures Settles(|s.elem|, op) || s.updateTs == r.updateTs ==> Apply(s, op).updateTs == Apply(r, op).updateTs
  {
    StampStep(s, r, stamps, op);
    forall i | 0 <= i < |s.elem|
      ensures LagAt(s, r, i in stamps, op, i)
    {
      if i == s.currState {
        LagAtCurrent(s, r, stamps, op);
      } else {
        LagElsewhere(s, r, stamps, op, i);
      }
    }
  }

  /** A sample taken on one side only leaves the two lagging, provided it does not stop the clock. */
  lemma {:induction false} SampleStep(s: Info, r: Info, stamps: set<int>, time: uint64)
    requires Lagging(s, r, stamps) && s.currState in stamps
    requires time != 0 || s.updateTs == 0
    ensures Lagging(Apply(s, UpdatePrep(time)), r, stamps)
  {
    WrapAdvance(s.elem[s.currState].values.upticks, s.updateTs, time);
    var s' := Apply(s, UpdatePrep(time));
    forall i | 0 <= i < |s.elem|
      ensures SameElement(s'.elem[i], r.elem[i], i in stamps)
    {
      ElementOfApply(s, UpdatePrep(time), i);
    }
  }

  /** Once the clocks and the current state's timestamps agree, only other states' timestamps differ. */
  lemma {:induction false} Settled(s: Info, r: Info, stamps: set<int>)
    requires Lagging(s, r, stamps) && s.updateTs == r.updateTs && StampsAgree(s, r)
    ensures SameReport(s, r, stamps - {r.currState as int})
  {
    WrapCancel(s.elem[s.currState].values.upticks, r.elem[s.currState].values.upticks, s.updateTs);
  }

  lemma {:induction false} LaggingItself(s: Info, stamps: set<int>)
    requires WellFormed(s)
    ensures Lagging(s, s, stamps)
  {
  }

  lemma {:induction false} LaggingMore(s: Info, r: Info, stamps: set<int>, more: set<int>)
    requires Lagging(s, r, stamps) && stamps <= more
    ensures Lagging(s, r, more)
  {
    forall i | 0 <= i < |s.elem|
      ensures SameElement(s.elem[i], r.elem[i], i in more)
    {
      assert SameElement(s.elem[i], r.elem[i], i in stamps);
    }
  }

  lemma {:induction false} SettlesLaterStep(n: nat, ops: seq<Op>)
    requires ops != []
    ensures SettlesLater(n, ops) <==> SettlesLater(n, ops[..|ops| - 1]) || Settles(n, ops[|ops| - 1])
  {
    var before := ops[..|ops| - 1];
    assert forall i | 0 <= i < |before| :: before[i] == ops[i];
  }

  lemma {:induction false} LagRun(s: Info, r: Info, stamps: set<int>, ops: seq<Op>)
    requires Lagging(s, r, stamps)
    ensures Lagging(Run(s, ops), Run(r, ops), stamps)
    ensures SettlesLater(|s.elem|, ops) ==>
              Run(s, ops).updateTs == Run(r, ops).updateTs && StampsAgree(Run(s, ops), Run(r, ops))
  {
    if ops != [] {
      var before, op := ops[..|ops| - 1], ops[|ops| - 1];
      LagRun(s, r, stamps, before);
      LagStep(Run(s, before), Run(r, before), stamps, op);
      StampStep(Run(s, before), Run(r, before), stamps, op);
      SettlesLaterStep(|s.elem|, ops);
    }
  }

  lemma {:induction false} RunConcat(s: Info, a: seq<Op>, b: seq<Op>)
    requires WellFormed(s)
    ensures Run(s, a + b) == Run(Run(s, a), b)
  {
    if b == [] {
      assert a + b == a;
    } else {
      assert (a + b)[..|a + b| - 1] == a + b[..|b| - 1];
      RunConcat(s, a, b[..|b| - 1]);
    }
  }

  /** Deleting from a run the sample between a and b changes nothing but, possibly, the timestamp of
      the state it sampled, and that only if the run has left this state for another. */
  ghost predicate Invisible(s: Info, a: seq<Op>, time: uint64, b: seq<Op>)
    requires WellFormed(s)
  {
    SameReport(Run(s, a + [UpdatePrep(time)] + b), Run(s, a + b),
               {Run(s, a).currState as int} - {Run(s, a + b).currState as int})
  }

  /** Deleting one sample from a run leaves the later report unchanged, except that the state it
      sampled may keep another timestamp once departed. */
  lemma {:induction false} SampleInvisible(s: Info, a: seq<Op>, time: uint64, b: seq<Op>)
    requires WellFormed(s)
    requires time != 0 || Run(s, a).updateTs == 0
    requires SettlesLater(|s.elem|, b)
    ensures Invisible(s, a, time, b)
  {
    var m := Run(s, a);
    var stamps := {m.currState as int};
    RunAppend(s, a, UpdatePrep(time));
    RunConcat(s, a + [UpdatePrep(time)], b);
    RunConcat(s, a, b);
    LaggingItself(m, stamps);
    SampleStep(m, m, stamps, time);
    LagRun(Apply(m, UpdatePrep(time)), m, stamps, b);
    Settled(Run(Apply(m, UpdatePrep(time)), b), Run(m, b), stamps);
  }

  lemma {:induction false} SameReportIsEqual(s: Info, r: Info)
    requires SameReport(s, r, {})
    ensures s == r
  {
    forall i | 0 <= i < |s.elem|
      ensures s.elem[i] == r.elem[i]
    {
      assert SameElement(s.elem[i], r.elem[i], i in {});
    }
  }

  /** While the sampled state is current, or is current again, the whole report is the same. */
  lemma {:induction false} SampleLeavesNoTrace(s: Info, a: seq<Op>, time: uint64, b: seq<Op>)
    requires WellFormed(s)
    requires time != 0 || Run(s, a).updateTs == 0
    requires SettlesLater(|s.elem|, b) && Run(s, a + b).currState == Run(s, a).currState
    ensures Run(s, a + [UpdatePrep(time)] + b) == Run(s, a + b)
  {
    SampleInvisible(s, a, time, b);
    assert {Run(s, a).currState as int} - {Run(s, a + b).currState as int} == {};
    SameReportIsEqual(Run(s, a + [UpdatePrep(time)] + b), Run(s, a + b));
  }

  /** A sample at time 0 stops the clock, and the next sample shows it. */
  lemma {:induction false} ZeroSampleVisible(s: Info, a: seq<Op>)
    requires WellFormed(s) && Run(s, a).updateTs != 0
    ensures Run(s, a + [UpdatePrep(0)] + [UpdatePrep(1)]).updateTs == 0
    ensures Run(s, a + [UpdatePrep(1)]).updateTs == 1
  {
    RunAppend(s, a, UpdatePrep(0));
    RunAppend(s, a + [UpdatePrep(0)], UpdatePrep(1));
    RunAppend(s, a, UpdatePrep(1));
  }

  /** The deleted sample is invisible to every continuation exactly when it does not stop a running
      clock, that is, when it was not taken at time 0. */
  lemma {:induction false} SampleInvisibleIff(s: Info, a: seq<Op>, time: uint64)
    requires WellFormed(s)
    ensures (forall b: seq<Op> | SettlesLater(|s.elem|, b) :: Invisible(s, a, time, b))
            <==> time != 0 || Run(s, a).updateTs == 0
  {
    if time != 0 || Run(s, a).updateTs == 0 {
      forall b: seq<Op> | SettlesLater(|s.elem|, b)
        ensures Invisible(s, a, time, b)
      {
        SampleInvisible(s, a, time, b);
      }
    } else {
      ZeroSampleVisible(s, a);
      var b := [UpdatePrep(1)];
      assert Settles(|s.elem|, b[0]);
      assert !Invisible(s, a, time, b);
    }
  }

  function WithoutSamples(ops: seq<Op>): seq<Op> {
    if ops == [] then []
    else if ops[|ops| - 1].UpdatePrep? then WithoutSamples(ops[..|ops| - 1])
    else WithoutSamples(ops[..|ops| - 1]) + [ops[|ops| - 1]]
  }

  /** The states that were current when a sample was taken. */
  ghost function SampledStates(s: Info, ops: seq<Op>): set<int>
    requires WellFormed(s)
  {
    if ops == [] then {}
    else
      var before := ops[..|ops| - 1];
      if ops[|ops| - 1].UpdatePrep? then SampledStates(s, before) + {Run(s, before).currState as int}
      else SampledStates(s, before)
  }

  lemma {:induction false} LagWithoutSamples(s: Info, ops: seq<Op>)
    requires WellFormed(s)
    requires forall i | 0 <= i < |ops| && ops[i].UpdatePrep? :: ops[i].time != 0
    ensures Lagging(Run(s, ops), Run(s, WithoutSamples(ops)), SampledStates(s, ops))
  {
    if ops == [] {
      LaggingItself(s, {});
    } else {
      var before, op := ops[..|ops| - 1], ops[|ops| - 1];
      LagWithoutSamples(s, before);
      var m, k := Run(s, before), Run(s, WithoutSamples(before));
      LaggingMore(m, k, SampledStates(s, before), SampledStates(s, ops));
      if op.UpdatePrep? {
        SampleStep(m, k, SampledStates(s, ops), op.time);
      } else {
        LagStep(m, k, SampledStates(s, ops), op);
        RunAppend(s, WithoutSamples(before), op);
      }
    }
  }

  /** Polling costs nothing: a run sampled at any nonzero times, in any order, ends with the same
      report as the run that was never sampled before its last clock movement, except for timestamps
      of states that were sampled and are no longer current. */
  lemma {:induction false} PollingInvisible(s: Info, ops: seq<Op>, last: Op)
    requires WellFormed(s) && Settles(|s.elem|, last)
    requires forall i | 0 <= i < |ops| && ops[i].UpdatePrep? :: ops[i].time != 0
    ensures var polled, unpolled := Run(s, ops + [last]), Run(s, WithoutSamples(ops) + [last]);
            SameReport(polled, unpolled, SampledStates(s, ops) - {unpolled.currState as int})
  {
    var m, k, stamps := Run(s, ops), Run(s, WithoutSamples(ops)), SampledStates(s, ops);
    LagWithoutSamples(s, ops);
    LagStep(m, k, stamps, last);
    StampStep(m, k, stamps, last);
    RunAppend(s, ops, last);
    RunAppend(s, WithoutSamples(ops), last);
    Settled(Apply(m, last), Apply(k, last), stamps);
  }
}
