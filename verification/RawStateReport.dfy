/** The STATEREPORT macros on the bytes of a buffer, proved to do what the typed model says. */
module RawStateReport {
  import opened Machine
  import opened Regions
  import opened ReportTypes
  import opened ReportBytes
  import opened RawElements
  import S = StateReport

  // curr_state at offset 0, six bytes of padding, update_ts at offset 8, elements from 16.
  const HEADER: nat := 16
  const CURR_STATE := Region(0, 2)
  const PADDING := Region(2, 6)
  const UPDATE_TS := Region(8, 8)

  const STATE_ID: int := VALUES
  const INTRANSITIONS: int := VALUES + 1
  const UPTICKS: int := VALUES + 2
  const LAST_INTRANSITION: int := VALUES + 3

  /** The field values of a typed element. */
  function ToRow(e: S.StateElement): (fs: seq<int>)
    ensures |fs| == FIELDS
  {
    SharedRow(e) + [e.values.stateId, e.values.intransitions, e.values.upticks, e.values.lastIntransition]
  }

  function ToRows(elem: seq<S.StateElement>): (rows: seq<seq<int>>)
    ensures |rows| == |elem| && forall i | 0 <= i < |rows| :: |rows[i]| == FIELDS
  {
    seq(|elem|, i requires 0 <= i < |elem| => ToRow(elem[i]))
  }

  predicate HoldsHeader(header: Memory, currState: uint16, updateTs: uint64) {
    |header| == HEADER && Decode(Read(header, CURR_STATE)) == currState && Decode(Read(header, UPDATE_TS)) == updateTs
  }

  /** The bytes hold exactly the report s, in a buffer of at least STATEREPORT_BUFSIZE bytes. */
  predicate Holds(mem: Memory, s: S.Info) {
    && HoldsRows(mem, HEADER, ToRows(s.elem))
    && HoldsHeader(Around(mem, HEADER, |s.elem|).0, s.currState, s.updateTs)
  }

  /** The bytes determine the report. */
  lemma {:induction false} HoldsOnlyOne(mem: Memory, s: S.Info, r: S.Info)
    requires Holds(mem, s) && Holds(mem, r) && |s.elem| == |r.elem|
    ensures s == r
  {
    forall i | 0 <= i < |s.elem|
      ensures s.elem[i] == r.elem[i]
    {
      assert ToRows(s.elem)[i] == ToRows(r.elem)[i];
      RowInjective(s.elem[i], r.elem[i]);
    }
  }

  lemma {:induction false} RowInjective(e: S.StateElement, d: S.StateElement)
    requires ToRow(e) == ToRow(d)
    ensures e == d
  {
    assert SharedRow(e) == ToRow(e)[..VALUES] && SharedRow(d) == ToRow(d)[..VALUES];
    SharedRowInjective(e, d);
    assert ToRow(e)[STATE_ID] == ToRow(d)[STATE_ID] && ToRow(e)[INTRANSITIONS] == ToRow(d)[INTRANSITIONS];
    assert ToRow(e)[UPTICKS] == ToRow(d)[UPTICKS] && ToRow(e)[LAST_INTRANSITION] == ToRow(d)[LAST_INTRANSITION];
  }

  /** The bytes that belong to no field: the padding and whatever lies behind the elements. */
  function Slack(mem: Memory, n: nat): (Memory, Memory)
    requires BufSize(HEADER, n) <= |mem|
  {
    (Read(Around(mem, HEADER, n).0, PADDING), Around(mem, HEADER, n).1)
  }

  // ----- Where everything lies -----

  /** Header fields, padding and element fields tile the STATEREPORT_BUFSIZE bytes of a buffer. */
  lemma {:induction false} BufferTiles(n: nat)
    ensures CURR_STATE.size == 2 && PADDING.size == 6 && UPDATE_TS.size == 8
    ensures BufSize(HEADER, n) == 16 + 64 * n
    ensures Tiles([CURR_STATE, PADDING, UPDATE_TS] + FieldRegions(HEADER, n), 0, BufSize(HEADER, n))
  {
    var header := [CURR_STATE, PADDING, UPDATE_TS];
    assert Adjacent(header, 0) && Adjacent(header, 1);
    FieldsTile(HEADER, n);
    TilesConcat(header, FieldRegions(HEADER, n), 0, HEADER, BufSize(HEADER, n));
  }

  /** An IOReportElement with IOStateReportValues, starting at `at`. */
  predicate ElementAt(mem: Memory, at: nat, e: S.StateElement)
    requires at + 64 <= |mem|
  {
    && SharedAt(mem, at, e)
    && ValuesAt(mem, at, e.values.stateId, e.values.intransitions, e.values.upticks, e.values.lastIntransition)
  }

  /** An IOStateReportInfo at the start of memory. */
  predicate InMemory(mem: Memory, s: S.Info) {
    && 16 + 64 * |s.elem| <= |mem|
    && Word(mem, 0, 2) == s.currState && Word(mem, 8, 8) == s.updateTs
    && forall i | 0 <= i < |s.elem| :: ElementAt(mem, 16 + 64 * i, s.elem[i])
  }

  lemma {:induction false} RowIff(mem: Memory, i: nat, e: S.StateElement)
    requires BufSize(HEADER, i + 1) <= |mem|
    ensures Row(mem, HEADER, i) == ToRow(e) <==> ElementAt(mem, 16 + 64 * i, e)
  {
    var v := e.values;
    RowAtIff(mem, HEADER, i, e, v.stateId, v.intransitions, v.upticks, v.lastIntransition);
  }

  lemma {:induction false} RowsIff(mem: Memory, elem: seq<S.StateElement>)
    requires BufSize(HEADER, |elem|) <= |mem|
    ensures HoldsRows(mem, HEADER, ToRows(elem)) <==>
            forall i | 0 <= i < |elem| :: ElementAt(mem, 16 + 64 * i, elem[i])
  {
    var rows := ToRows(elem);
    HoldsRowsIff(mem, HEADER, rows);
    forall i | 0 <= i < |elem|
      ensures Row(mem, HEADER, i) == rows[i] <==> ElementAt(mem, 16 + 64 * i, elem[i])
    {
      RowIff(mem, i, elem[i]);
    }
    if forall i | 0 <= i < |elem| :: ElementAt(mem, 16 + 64 * i, elem[i]) {
      assert forall i | 0 <= i < |elem| :: Row(mem, HEADER, i) == rows[i];
    } else {
      var i :| 0 <= i < |elem| && !ElementAt(mem, 16 + 64 * i, elem[i]);
      assert Row(mem, HEADER, i) != rows[i];
    }
  }

  lemma {:induction false} HeaderIff(mem: Memory, n: nat, currState: uint16, updateTs: uint64)
    requires BufSize(HEADER, n) <= |mem|
    ensures HoldsHeader(Around(mem, HEADER, n).0, currState, updateTs) <==>
            Word(mem, 0, 2) == currState && Word(mem, 8, 8) == updateTs
  {
    ReadWithin(mem, Region(0, HEADER), CURR_STATE);
    ReadWithin(mem, Region(0, HEADER), UPDATE_TS);
  }

  /** A buffer holds a report exactly when every field lies where the structs have it. */
  lemma {:induction false} HoldsIff(mem: Memory, s: S.Info)
    ensures Holds(mem, s) <==> InMemory(mem, s)
  {
    if 16 + 64 * |s.elem| <= |mem| {
      HeaderIff(mem, |s.elem|, s.currState, s.updateTs);
      RowsIff(mem, s.elem);
    }
  }

  /** What belongs to no field are bytes 2 to 7 and those from 16 + 64 n on. */
  lemma {:induction false} SlackIs(mem: Memory, n: nat)
    requires BufSize(HEADER, n) <= |mem|
    ensures 16 + 64 * n <= |mem| && Slack(mem, n) == (mem[2..8], mem[16 + 64 * n..])
  {
    AroundIs(mem, HEADER, n);
    ReadWithin(mem, Region(0, HEADER), PADDING);
  }

  // ----- One field at a time -----

  function WithWord(e: S.StateElement, f: int, v: uint64): S.StateElement {
    if f == TIMESTAMP then e.(timestamp := v)
    else if f == STATE_ID then e.(values := e.values.(stateId := v))
    else if f == INTRANSITIONS then e.(values := e.values.(intransitions := v))
    else if f == UPTICKS then e.(values := e.values.(upticks := v))
    else e.(values := e.values.(lastIntransition := v))
  }

  lemma {:induction false} WordStored(e: S.StateElement, f: int, v: uint64)
    requires TIMESTAMP <= f < FIELDS
    ensures ToRow(WithWord(e, f, v)) == ToRow(e)[f := v]
  {
  }

  lemma {:induction false} RowsOfUpdate(elem: seq<S.StateElement>, k: nat, e: S.StateElement)
    requires k < |elem|
    ensures ToRows(elem[k := e]) == ToRows(elem)[k := ToRow(e)]
  {
  }

  /** Storing a word of element k, which so far is e. */
  method StoreWord(buf: array<uint8>, ghost s: S.Info, k: nat, ghost e: S.StateElement, f: int, v: uint64)
    requires k < |s.elem| && Holds(buf[..], s.(elem := s.elem[k := e])) && TIMESTAMP <= f < FIELDS
    modifies buf
    ensures Holds(buf[..], s.(elem := s.elem[k := WithWord(e, f, v)]))
    ensures Slack(buf[..], |s.elem|) == old(Slack(buf[..], |s.elem|))
  {
    RowsOfUpdate(s.elem, k, e);
    RowsOfUpdate(s.elem, k, WithWord(e, f, v));
    WordStored(e, f, v);
    StoreInRow(buf, HEADER, ToRows(s.elem), ToRow(e), k, f, v);
  }

  method LoadWord(buf: array<uint8>, ghost s: S.Info, k: nat, f: int) returns (v: int)
    requires Holds(buf[..], s) && k < |s.elem| && 0 <= f < FIELDS
    ensures v == ToRow(s.elem[k])[f]
  {
    v := LoadField(buf, HEADER, ToRows(s.elem), k, f);
  }

  lemma {:induction false} HeaderWritten(header: Memory, s: S.Info, r: Region, v: nat)
    requires HoldsHeader(header, s.currState, s.updateTs)
    requires (r == CURR_STATE && v < TWO16) || (r == UPDATE_TS && v < TWO64)
    ensures var h := Write(header, r, Encode(v, r.size));
            && (if r == CURR_STATE then HoldsHeader(h, v, s.updateTs) else HoldsHeader(h, s.currState, v))
            && Read(h, PADDING) == Read(header, PADDING)
  {
    var bytes := Encode(v, r.size);
    FieldWidths();
    DecodeEncode(v, r.size);
    ReadBack(header, r, bytes);
    ReadElsewhere(header, r, bytes, if r == CURR_STATE then UPDATE_TS else CURR_STATE);
    ReadElsewhere(header, r, bytes, PADDING);
  }

  method StoreCurrState(buf: array<uint8>, ghost s: S.Info, v: uint16)
    requires Holds(buf[..], s)
    modifies buf
    ensures Holds(buf[..], s.(currState := v))
    ensures Slack(buf[..], |s.elem|) == old(Slack(buf[..], |s.elem|))
  {
    HeaderWritten(Around(buf[..], HEADER, |s.elem|).0, s, CURR_STATE, v);
    StoreHeader(buf, HEADER, ToRows(s.elem), CURR_STATE, v);
  }

  method StoreUpdateTs(buf: array<uint8>, ghost s: S.Info, v: uint64)
    requires Holds(buf[..], s)
    modifies buf
    ensures Holds(buf[..], s.(updateTs := v))
    ensures Slack(buf[..], |s.elem|) == old(Slack(buf[..], |s.elem|))
  {
    HeaderWritten(Around(buf[..], HEADER, |s.elem|).0, s, UPDATE_TS, v);
    StoreHeader(buf, HEADER, ToRows(s.elem), UPDATE_TS, v);
  }

  /** elem[0].channel_type.nelements, curr_state and update_ts. */
  method LoadHeader(buf: array<uint8>, ghost s: S.Info) returns (nelements: int, currState: int, updateTs: int)
    requires Holds(buf[..], s) && S.WellFormed(s)
    ensures nelements == |s.elem| && currState == s.currState && updateTs == s.updateTs
  {
    nelements := LoadWord(buf, s, 0, NELEMENTS);
    currState := LoadHeaderField(buf, HEADER, |s.elem|, CURR_STATE);
    updateTs := LoadHeaderField(buf, HEADER, |s.elem|, UPDATE_TS);
  }

  // ----- STATEREPORT_INIT -----

  /** The rows with the first `no` elements initialised. */
  function Initialised(rows: seq<seq<int>>, ch: Channel, no: uint16): (r: seq<seq<int>>)
    requires no <= |rows| < TWO16
    ensures |r| == |rows|
  {
    seq(|rows|, i requires 0 <= i < |rows| => if i < no then ToRow(S.InitState(ch, |rows|, i)) else rows[i])
  }

  method InitValues(buf: array<uint8>, ghost rows: seq<seq<int>>, ghost row: seq<int>, no: uint16)
    requires no < |rows| && HoldsRows(buf[..], HEADER, rows[no := row]) && |row| == FIELDS
    modifies buf
    ensures HoldsRows(buf[..], HEADER,
                      rows[no := row[STATE_ID := no][INTRANSITIONS := 0][UPTICKS := 0][LAST_INTRANSITION := 0]])
    ensures Around(buf[..], HEADER, |rows|) == old(Around(buf[..], HEADER, |rows|))
  {
    StoreInRow(buf, HEADER, rows, row, no, STATE_ID, no);
    ghost var r := row[STATE_ID := no];
    StoreInRow(buf, HEADER, rows, r, no, INTRANSITIONS, 0);
    r := r[INTRANSITIONS := 0];
    StoreInRow(buf, HEADER, rows, r, no, UPTICKS, 0);
    StoreInRow(buf, HEADER, rows, r[UPTICKS := 0], no, LAST_INTRANSITION, 0);
  }

  lemma {:induction false} RowBuilt(shared: seq<int>, tail: seq<int>, e: S.StateElement)
    requires shared == SharedRow(e) && |tail| == FIELDS - VALUES
    requires e.values == S.StateValues(e.values.stateId, 0, 0, 0)
    ensures (shared + tail)[STATE_ID := e.values.stateId][INTRANSITIONS := 0][UPTICKS := 0][LAST_INTRANSITION := 0]
            == ToRow(e)
  {
  }

  /** The body of the loop for element `no`, whatever the buffer held there. */
  method InitState(buf: array<uint8>, ghost rows: seq<seq<int>>, no: uint16, ch: Channel, n: uint16)
    requires HoldsRows(buf[..], HEADER, rows) && no < |rows| && |rows[no]| == FIELDS
    modifies buf
    ensures HoldsRows(buf[..], HEADER, rows[no := ToRow(S.InitState(ch, n, no))])
    ensures Around(buf[..], HEADER, |rows|) == old(Around(buf[..], HEADER, |rows|))
  {
    ghost var e := S.InitState(ch, n, no);
    InitShared(buf, HEADER, rows, no, ch, FORMAT_STATE, n, e.values);
    RowBuilt(SharedRow(e), rows[no][VALUES..], e);
    InitValues(buf, rows, SharedRow(e) + rows[no][VALUES..], no);
  }

  lemma {:induction false} HeaderReset(header: Memory)
    requires |header| == HEADER
    ensures var h := Write(Write(header, CURR_STATE, Encode(0, 2)), UPDATE_TS, Encode(0, 8));
            HoldsHeader(h, 0, 0) && Read(h, PADDING) == Read(header, PADDING)
  {
    var h := Write(header, CURR_STATE, Encode(0, 2));
    FieldWidths();
    DecodeEncode(0, 2);
    DecodeEncode(0, 8);
    ReadBack(header, CURR_STATE, Encode(0, 2));
    ReadBack(h, UPDATE_TS, Encode(0, 8));
    ReadElsewhere(h, UPDATE_TS, Encode(0, 8), CURR_STATE);
    ReadElsewhere(h, UPDATE_TS, Encode(0, 8), PADDING);
    ReadElsewhere(header, CURR_STATE, Encode(0, 2), PADDING);
  }

  /** The loop of STATEREPORT_INIT. */
  method InitElements(buf: array<uint8>, nstates: uint16, ch: Channel)
    requires 1 <= nstates && BufSize(HEADER, nstates) <= buf.Length
    modifies buf
    ensures HoldsRows(buf[..], HEADER, ToRows(S.InitInfo(ch, nstates).elem))
    ensures Around(buf[..], HEADER, nstates) == old(Around(buf[..], HEADER, nstates))
  {
    ghost var rows := Rows(buf[..], HEADER, nstates);
    forall i | 0 <= i < nstates
      ensures |rows[i]| == FIELDS
    {
      RowsAt(buf[..], HEADER, nstates, i);
    }
    assert Initialised(rows, ch, 0) == rows;
    var no: uint16 := 0;
    while no < nstates
      invariant 0 <= no <= nstates
      invariant HoldsRows(buf[..], HEADER, Initialised(rows, ch, no))
      invariant Around(buf[..], HEADER, nstates) == old(Around(buf[..], HEADER, nstates))
    {
      InitState(buf, Initialised(rows, ch, no), no, ch, nstates);
      assert Initialised(rows, ch, no + 1) == Initialised(rows, ch, no)[no := ToRow(S.InitState(ch, nstates, no))];
      no := no + 1;
    }
    assert Initialised(rows, ch, nstates) == ToRows(S.InitInfo(ch, nstates).elem);
  }

  /** The loop and the reset of the header. */
  method InitReport(buf: array<uint8>, nstates: uint16, ch: Channel)
    requires 1 <= nstates && BufSize(HEADER, nstates) <= buf.Length
    modifies buf
    ensures Holds(buf[..], S.InitInfo(ch, nstates))
    ensures Slack(buf[..], nstates) == old(Slack(buf[..], nstates))
  {
    ghost var around := Around(buf[..], HEADER, nstates);
    ghost var rows := ToRows(S.InitInfo(ch, nstates).elem);
    HeaderReset(around.0);
    InitElements(buf, nstates, ch);
    StoreHeader(buf, HEADER, rows, CURR_STATE, 0);
    StoreHeader(buf, HEADER, rows, UPDATE_TS, 0);
  }

  /** State number i of n as STATEREPORT_INIT writes it at address `at`. */
  predicate FreshAt(mem: Memory, at: nat, ch: Channel, n: uint16, i: int)
    requires at + 64 <= |mem|
  {
    && Word(mem, at, 8) == ch.providerId && Word(mem, at + 8, 8) == ch.channelId
    && Word(mem, at + 16, 1) == 2 && Word(mem, at + 17, 1) == 0 && Word(mem, at + 18, 2) == ch.categories
    && Word(mem, at + 20, 2) == n && Word(mem, at + 22, 2) == i && Word(mem, at + 24, 8) == 0
    && Word(mem, at + 32, 8) == i && Word(mem, at + 40, 8) == 0 && Word(mem, at + 48, 8) == 0 && Word(mem, at + 56, 8) == 0
  }

  /** A buffer as STATEREPORT_INIT leaves it: no state entered, no time recorded, every state fresh, and the
      fill byte wherever there is no field. */
  predicate Fresh(mem: Memory, n: uint16, ch: Channel) {
    && 16 + 64 * n <= |mem|
    && Word(mem, 0, 2) == 0 && Word(mem, 8, 8) == 0
    && (forall i | 0 <= i < n :: FreshAt(mem, 16 + 64 * i, ch, n, i))
    && (forall a | 0 <= a < |mem| && (2 <= a < 8 || 16 + 64 * n <= a) :: mem[a] == '&' as int)
  }

  lemma {:induction false} FreshState(mem: Memory, n: uint16, ch: Channel, i: uint16)
    requires i < n && InMemory(mem, S.InitInfo(ch, n))
    ensures FreshAt(mem, 16 + 64 * i, ch, n, i)
  {
    var e := S.InitState(ch, n, i);
    assert S.InitInfo(ch, n).elem[i] == e;
    assert SharedAt(mem, 16 + 64 * i, e) && ValuesAt(mem, 16 + 64 * i, i, 0, 0, 0);
  }

  lemma {:induction false} FreshBuffer(mem: Memory, n: uint16, ch: Channel)
    requires 1 <= n && Holds(mem, S.InitInfo(ch, n)) && Filled(Slack(mem, n).0) && Filled(Slack(mem, n).1)
    ensures Fresh(mem, n, ch)
  {
    HoldsIff(mem, S.InitInfo(ch, n));
    forall i | 0 <= i < n
      ensures FreshAt(mem, 16 + 64 * i, ch, n, i)
    {
      FreshState(mem, n, ch, i);
    }
    SlackIs(mem, n);
    SlackFilled(mem, n);
  }

  lemma {:induction false} SlackFilled(mem: Memory, n: nat)
    requires 16 + 64 * n <= |mem| && Filled(mem[2..8]) && Filled(mem[16 + 64 * n..])
    ensures forall a | 0 <= a < |mem| && (2 <= a < 8 || 16 + 64 * n <= a) :: mem[a] == '&' as int
  {
    forall a | 0 <= a < |mem| && (2 <= a < 8 || 16 + 64 * n <= a)
      ensures mem[a] == '&' as int
    {
      if 2 <= a < 8 {
        assert mem[2..8][a - 2] == mem[a];
      } else {
        assert mem[16 + 64 * n..][a - (16 + 64 * n)] == mem[a];
      }
    }
  }

  /** STATEREPORT_INIT. A buffer below STATEREPORT_BUFSIZE is left full of '&'. */
  method Init(buf: array<uint8>, nstates: uint16, ch: Channel) returns (ok: bool)
    requires 1 <= nstates
    modifies buf
    ensures ok <==> 16 + 64 * nstates <= buf.Length
    ensures ok ==> Holds(buf[..], S.InitInfo(ch, nstates)) && Fresh(buf[..], nstates, ch)
    ensures !ok ==> forall a | 0 <= a < buf.Length :: buf[a] == '&' as int
  {
    Fill(buf);
    ok := buf.Length >= BufSize(HEADER, nstates);
    if ok {
      SlackIs(buf[..], nstates);
      assert Filled(Slack(buf[..], nstates).0) && Filled(Slack(buf[..], nstates).1);
      InitReport(buf, nstates, ch);
      FreshBuffer(buf[..], nstates, ch);
    }
  }

  // ----- The other macros -----

  /** STATEREPORT_SETSTATEID. */
  method SetStateId(buf: array<uint8>, ghost s: S.Info, stateIdx: uint32, stateId: uint64)
    requires Holds(buf[..], s) && S.WellFormed(s)
    modifies buf
    ensures Holds(buf[..], S.ApplySetStateId(s, stateIdx, stateId))
    ensures Slack(buf[..], |s.elem|) == old(Slack(buf[..], |s.elem|))
  {
    var nelements, _, _ := LoadHeader(buf, s);
    if stateIdx < nelements {
      assert s.elem[stateIdx := s.elem[stateIdx]] == s.elem;
      StoreWord(buf, s, stateIdx, s.elem[stateIdx], STATE_ID, stateId);
    }
  }

  /** upticks += ticks. */
  method Credit(buf: array<uint8>, ghost s: S.Info, k: nat, ticks: int)
    requires Holds(buf[..], s) && k < |s.elem|
    modifies buf
    ensures Holds(buf[..], s.(elem := s.elem[k := S.AddTicks(s.elem[k], ticks)]))
    ensures Slack(buf[..], |s.elem|) == old(Slack(buf[..], |s.elem|))
  {
    var upticks := LoadWord(buf, s, k, UPTICKS);
    assert s.elem[k := s.elem[k]] == s.elem;
    StoreWord(buf, s, k, s.elem[k], UPTICKS, Wrap64(upticks + ticks));
  }

  /** timestamp = time; intransitions++. */
  method Enter(buf: array<uint8>, ghost s: S.Info, k: nat, time: uint64)
    requires Holds(buf[..], s) && k < |s.elem|
    modifies buf
    ensures Holds(buf[..], s.(elem := s.elem[k := S.Enter(s.elem[k], time)]))
    ensures Slack(buf[..], |s.elem|) == old(Slack(buf[..], |s.elem|))
  {
    assert s.elem[k := s.elem[k]] == s.elem;
    StoreWord(buf, s, k, s.elem[k], TIMESTAMP, time);
    ghost var e := s.elem[k].(timestamp := time);
    var intransitions := LoadWord(buf, s.(elem := s.elem[k := e]), k, INTRANSITIONS);
    StoreWord(buf, s, k, e, INTRANSITIONS, Wrap64(intransitions + 1));
  }

  /** timestamp = time; upticks += ticks. */
  method Sample(buf: array<uint8>, ghost s: S.Info, k: nat, time: uint64, ticks: int)
    requires Holds(buf[..], s) && k < |s.elem|
    modifies buf
    ensures Holds(buf[..], s.(elem := s.elem[k := S.AddTicks(s.elem[k], ticks).(timestamp := time)]))
    ensures Slack(buf[..], |s.elem|) == old(Slack(buf[..], |s.elem|))
  {
    assert s.elem[k := s.elem[k]] == s.elem;
    StoreWord(buf, s, k, s.elem[k], TIMESTAMP, time);
    ghost var e := s.elem[k].(timestamp := time);
    var upticks := LoadWord(buf, s.(elem := s.elem[k := e]), k, UPTICKS);
    StoreWord(buf, s, k, e, UPTICKS, Wrap64(upticks + ticks));
  }

  /** The state being left gets the ticks since the last update, if the clock runs. */
  function Credited(s: S.Info, time: uint64): (r: S.Info)
    requires S.WellFormed(s)
    ensures |r.elem| == |s.elem|
  {
    if s.updateTs != 0
    then s.(elem := s.elem[s.currState := S.AddTicks(s.elem[s.currState], time - s.updateTs)]) else s
  }

  method CreditIfRunning(buf: array<uint8>, ghost s: S.Info, currState: int, updateTs: int, time: uint64)
    requires Holds(buf[..], s) && S.WellFormed(s) && currState == s.currState && updateTs == s.updateTs
    modifies buf
    ensures Holds(buf[..], Credited(s, time))
    ensures Slack(buf[..], |s.elem|) == old(Slack(buf[..], |s.elem|))
  {
    if updateTs != 0 {
      Credit(buf, s, currState, time - updateTs);
    }
  }

  /** STATEREPORT_SETSTATE. */
  method SetState(buf: array<uint8>, ghost s: S.Info, newStateIdx: uint32, changeTime: uint64)
    requires Holds(buf[..], s) && S.WellFormed(s)
    modifies buf
    ensures Holds(buf[..], S.ApplySetState(s, newStateIdx, changeTime))
    ensures Slack(buf[..], |s.elem|) == old(Slack(buf[..], |s.elem|))
  {
    var nelements, currState, updateTs := LoadHeader(buf, s);
    if newStateIdx < nelements {
      ghost var s1 := Credited(s, changeTime);
      ghost var s2 := s1.(elem := s1.elem[newStateIdx := S.Enter(s1.elem[newStateIdx], changeTime)]);
      assert s2.(currState := newStateIdx, updateTs := changeTime) == S.ApplySetState(s, newStateIdx, changeTime);
      CreditIfRunning(buf, s, currState, updateTs, changeTime);
      Enter(buf, s1, newStateIdx, changeTime);
      StoreCurrState(buf, s2, newStateIdx);
      StoreUpdateTs(buf, s2.(currState := newStateIdx), changeTime);
    }
  }

  /** STATEREPORT_UPDATEPREP, with the range to copy out: exactly the elements. */
  method UpdatePrep(buf: array<uint8>, ghost s: S.Info, currentTime: uint64) returns (copied: Region)
    requires Holds(buf[..], s) && S.WellFormed(s)
    modifies buf
    ensures Holds(buf[..], S.ApplyUpdatePrep(s, currentTime))
    ensures Slack(buf[..], |s.elem|) == old(Slack(buf[..], |s.elem|))
    ensures copied == Region(16, 64 * |s.elem|)
  {
    var nelements, currState, updateTs := LoadHeader(buf, s);
    copied := Region(HEADER, nelements * ELEMENT_SIZE);
    if updateTs != 0 {
      Sample(buf, s, currState, currentTime, currentTime - updateTs);
      ghost var e := S.AddTicks(s.elem[currState], currentTime - updateTs).(timestamp := currentTime);
      StoreUpdateTs(buf, s.(elem := s.elem[currState := e]), currentTime);
    }
  }
}
