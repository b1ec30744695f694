/** The elements of a report buffer, read and written in place as rows of field values. */
module RawElements {
  import opened Machine
  import opened Regions
  import opened ReportTypes
  import opened ReportBytes

  function Row(mem: Memory, header: nat, i: nat): (fs: seq<int>)
    requires BufSize(header, i + 1) <= |mem|
    ensures |fs| == FIELDS
  {
    Fields(Read(mem, ElementRegion(header, i)))
  }

  /** One row of field values per element. */
  function Rows(mem: Memory, header: nat, n: nat): (rows: seq<seq<int>>)
    requires BufSize(header, n) <= |mem|
    ensures |rows| == n
  {
    if n == 0 then [] else Rows(mem, header, n - 1) + [Row(mem, header, n - 1)]
  }

  lemma {:induction false} RowsAt(mem: Memory, header: nat, n: nat, i: nat)
    requires BufSize(header, n) <= |mem| && i < n
    ensures Rows(mem, header, n)[i] == Row(mem, header, i)
  {
    if i < n - 1 {
      RowsAt(mem, header, n - 1, i);
    }
  }

  /** A buffer whose elements hold exactly these rows. */
  predicate HoldsRows(mem: Memory, header: nat, rows: seq<seq<int>>) {
    BufSize(header, |rows|) <= |mem| && Rows(mem, header, |rows|) == rows
  }

  lemma {:induction false} HoldsRowsIff(mem: Memory, header: nat, rows: seq<seq<int>>)
    requires BufSize(header, |rows|) <= |mem|
    ensures HoldsRows(mem, header, rows) <==> forall i | 0 <= i < |rows| :: Row(mem, header, i) == rows[i]
  {
    forall i | 0 <= i < |rows|
      ensures Rows(mem, header, |rows|)[i] == Row(mem, header, i)
    {
      RowsAt(mem, header, |rows|, i);
    }
  }

  /** Field f of element i is the number at its address. */
  lemma {:induction false} FieldOfRow(mem: Memory, header: nat, i: nat, f: int)
    requires BufSize(header, i + 1) <= |mem| && 0 <= f < FIELDS
    ensures FieldAt(header, i, f).End() <= |mem|
    ensures Row(mem, header, i)[f] == Word(mem, FieldAt(header, i, f).start, FieldSize(f))
  {
    ReadWithin(mem, ElementRegion(header, i), FieldRegion(f));
  }

  /** The bytes before and behind the elements. */
  function Around(mem: Memory, header: nat, n: nat): (Memory, Memory)
    requires BufSize(header, n) <= |mem|
  {
    (Read(mem, Region(0, header)), Read(mem, Region(BufSize(header, n), |mem| - BufSize(header, n))))
  }

  lemma {:induction false} AroundIs(mem: Memory, header: nat, n: nat)
    requires BufSize(header, n) <= |mem|
    ensures Around(mem, header, n) == (mem[..header], mem[header + 64 * n..])
  {
    assert mem[header + 64 * n..|mem|] == mem[header + 64 * n..];
  }

  // ----- Stores to elements -----

  lemma {:induction false} RowStored(mem: Memory, header: nat, n: nat, k: nat, f: int, v: nat, i: nat)
    requires BufSize(header, n) <= |mem| && k < n && i < n && 0 <= f < FIELDS && v < FieldLimit(f)
    ensures FieldAt(header, k, f).End() <= |mem|
    ensures var m := Write(mem, FieldAt(header, k, f), Encode(v, FieldSize(f)));
            Row(m, header, i) == if i == k then Row(mem, header, k)[f := v] else Row(mem, header, i)
  {
    var bytes := Encode(v, FieldSize(f));
    if i == k {
      WriteWithin(mem, ElementRegion(header, k), FieldRegion(f), bytes);
      FieldsOfStore(Read(mem, ElementRegion(header, k)), f, v);
    } else {
      ReadElsewhere(mem, FieldAt(header, k, f), bytes, ElementRegion(header, i));
    }
  }

  lemma {:induction false} RowsStored(mem: Memory, header: nat, n: nat, k: nat, f: int, v: nat)
    requires BufSize(header, n) <= |mem| && k < n && 0 <= f < FIELDS && v < FieldLimit(f)
    ensures FieldAt(header, k, f).End() <= |mem|
    ensures var m := Write(mem, FieldAt(header, k, f), Encode(v, FieldSize(f)));
            var rows := Rows(mem, header, n);
            |rows[k]| == FIELDS && Rows(m, header, n) == rows[k := rows[k][f := v]]
  {
    var m := Write(mem, FieldAt(header, k, f), Encode(v, FieldSize(f)));
    var rows := Rows(mem, header, n);
    RowsAt(mem, header, n, k);
    forall i | 0 <= i < n
      ensures Rows(m, header, n)[i] == rows[k := rows[k][f := v]][i]
    {
      RowsAt(mem, header, n, i);
      RowsAt(m, header, n, i);
      RowStored(mem, header, n, k, f, v, i);
    }
  }

  lemma {:induction false} AroundKept(mem: Memory, header: nat, n: nat, r: Region, bytes: Memory)
    requires header <= r.start && r.End() <= BufSize(header, n) <= |mem| && |bytes| == r.size
    ensures Around(Write(mem, r, bytes), header, n) == Around(mem, header, n)
  {
    ReadElsewhere(mem, r, bytes, Region(0, header));
    ReadElsewhere(mem, r, bytes, Region(BufSize(header, n), |mem| - BufSize(header, n)));
  }

  /** Assignment to field f of element k: that entry changes and nothing else in the buffer. */
  method StoreField(buf: array<uint8>, header: nat, ghost rows: seq<seq<int>>, k: nat, f: int, v: int)
    requires HoldsRows(buf[..], header, rows) && k < |rows| && |rows[k]| == FIELDS
    requires 0 <= f < FIELDS && 0 <= v < FieldLimit(f)
    modifies buf
    ensures HoldsRows(buf[..], header, rows[k := rows[k][f := v]])
    ensures Around(buf[..], header, |rows|) == old(Around(buf[..], header, |rows|))
  {
    RowsStored(buf[..], header, |rows|, k, f, v);
    AroundKept(buf[..], header, |rows|, FieldAt(header, k, f), Encode(v, FieldSize(f)));
    Store(buf, FieldAt(header, k, f), v);
  }

  method LoadField(buf: array<uint8>, header: nat, ghost rows: seq<seq<int>>, k: nat, f: int) returns (v: int)
    requires HoldsRows(buf[..], header, rows) && k < |rows| && |rows[k]| == FIELDS && 0 <= f < FIELDS
    ensures v == rows[k][f]
  {
    RowsAt(buf[..], header, |rows|, k);
    ReadWithin(buf[..], ElementRegion(header, k), FieldRegion(f));
    v := Decode(Read(buf[..], FieldAt(header, k, f)));
  }

  // ----- Stores to the header -----

  lemma {:induction false} RowsKept(mem: Memory, header: nat, n: nat, r: Region, bytes: Memory)
    requires r.End() <= header && BufSize(header, n) <= |mem| && |bytes| == r.size
    ensures Rows(Write(mem, r, bytes), header, n) == Rows(mem, header, n)
  {
    var m := Write(mem, r, bytes);
    forall i | 0 <= i < n
      ensures Rows(m, header, n)[i] == Rows(mem, header, n)[i]
    {
      RowsAt(mem, header, n, i);
      RowsAt(m, header, n, i);
      ReadElsewhere(mem, r, bytes, ElementRegion(header, i));
    }
  }

  lemma {:induction false} HeaderStored(mem: Memory, header: nat, n: nat, r: Region, bytes: Memory)
    requires r.End() <= header && BufSize(header, n) <= |mem| && |bytes| == r.size
    ensures var around := Around(mem, header, n);
            Around(Write(mem, r, bytes), header, n) == (Write(around.0, r, bytes), around.1)
  {
    WriteWithin(mem, Region(0, header), r, bytes);
    ReadElsewhere(mem, r, bytes, Region(BufSize(header, n), |mem| - BufSize(header, n)));
  }

  /** Assignment to a header field: no element changes. */
  method StoreHeader(buf: array<uint8>, header: nat, ghost rows: seq<seq<int>>, r: Region, v: nat)
    requires HoldsRows(buf[..], header, rows) && r.End() <= header
    modifies buf
    ensures HoldsRows(buf[..], header, rows)
    ensures var around := old(Around(buf[..], header, |rows|));
            Around(buf[..], header, |rows|) == (Write(around.0, r, Encode(v, r.size)), around.1)
  {
    RowsKept(buf[..], header, |rows|, r, Encode(v, r.size));
    HeaderStored(buf[..], header, |rows|, r, Encode(v, r.size));
    Store(buf, r, v);
  }

  method LoadHeaderField(buf: array<uint8>, header: nat, ghost n: nat, r: Region) returns (v: int)
    requires BufSize(header, n) <= buf.Length && r.End() <= header
    ensures v == Decode(Read(Around(buf[..], header, n).0, r))
  {
    ReadWithin(buf[..], Region(0, header), r);
    v := Decode(Read(buf[..], r));
  }

  // ----- Channel type and shared fields -----

  const PROVIDER_ID: int := 0
  const CHANNEL_ID: int := 1
  const REPORT_FORMAT: int := 2
  const RESERVED: int := 3
  const CATEGORIES: int := 4
  const ELEMENT_IDX: int := 6

  /** The eight fields every report kind shares, as an element stores them. */
  function SharedRow<V>(e: Element<V>): (fs: seq<int>)
    ensures |fs| == VALUES
  {
    [e.providerId, e.channelId, e.channelType.reportFormat, e.channelType.reserved, e.channelType.categories,
     e.channelType.nelements, e.channelType.elementIdx % TWO16, e.timestamp]
  }

  lemma {:induction false} SharedRowInjective<V>(e: Element<V>, d: Element<V>)
    requires SharedRow(e) == SharedRow(d)
    ensures e == d.(values := e.values)
  {
    var p, q := SharedRow(e), SharedRow(d);
    assert p[0] == q[0] && p[1] == q[1] && p[2] == q[2] && p[3] == q[3];
    assert p[4] == q[4] && p[5] == q[5] && p[6] == q[6] && p[7] == q[7];
  }

  /** The shared fields lie in memory as the structs lay them out, the element starting at `at`. */
  predicate SharedAt<V>(mem: Memory, at: nat, e: Element<V>)
    requires at + 64 <= |mem|
  {
    && Word(mem, at, 8) == e.providerId && Word(mem, at + 8, 8) == e.channelId
    && Word(mem, at + 16, 1) == e.channelType.reportFormat && Word(mem, at + 17, 1) == e.channelType.reserved
    && Word(mem, at + 18, 2) == e.channelType.categories && Word(mem, at + 20, 2) == e.channelType.nelements
    && Word(mem, at + 22, 2) == e.channelType.elementIdx % 0x1_0000 && Word(mem, at + 24, 8) == e.timestamp
  }

  /** The four words of values likewise. */
  predicate ValuesAt(mem: Memory, at: nat, v0: int, v1: int, v2: int, v3: int)
    requires at + 64 <= |mem|
  {
    Word(mem, at + 32, 8) == v0 && Word(mem, at + 40, 8) == v1 && Word(mem, at + 48, 8) == v2 && Word(mem, at + 56, 8) == v3
  }

  /** A row holds an element exactly when its fields lie in memory like that. */
  lemma {:induction false} RowAtIff<V>(mem: Memory, header: nat, i: nat, e: Element<V>, v0: int, v1: int, v2: int, v3: int)
    requires BufSize(header, i + 1) <= |mem|
    ensures Row(mem, header, i) == SharedRow(e) + [v0, v1, v2, v3]
            <==> SharedAt(mem, header + 64 * i, e) && ValuesAt(mem, header + 64 * i, v0, v1, v2, v3)
  {
    var row, want := Row(mem, header, i), SharedRow(e) + [v0, v1, v2, v3];
    SharedRowAt(mem, header, i, e);
    ValuesRowAt(mem, header, i, v0, v1, v2, v3);
    assert row == row[..VALUES] + row[VALUES..];
    assert want[..VALUES] == SharedRow(e) && want[VALUES..] == [v0, v1, v2, v3];
  }

  lemma {:induction false} SharedRowAt<V>(mem: Memory, header: nat, i: nat, e: Element<V>)
    requires BufSize(header, i + 1) <= |mem|
    ensures Row(mem, header, i)[..VALUES] == SharedRow(e) <==> SharedAt(mem, header + 64 * i, e)
  {
    var row, want := Row(mem, header, i), SharedRow(e);
    FieldOfRow(mem, header, i, 0);
    FieldOfRow(mem, header, i, 1);
    FieldOfRow(mem, header, i, 2);
    FieldOfRow(mem, header, i, 3);
    FieldOfRow(mem, header, i, 4);
    FieldOfRow(mem, header, i, 5);
    FieldOfRow(mem, header, i, 6);
    FieldOfRow(mem, header, i, 7);
    FirstEight(row, want);
  }

  lemma {:induction false} FirstEight(row: seq<int>, want: seq<int>)
    requires |row| == FIELDS && |want| == VALUES
    ensures row[..VALUES] == want <==>
            && row[0] == want[0] && row[1] == want[1] && row[2] == want[2] && row[3] == want[3]
            && row[4] == want[4] && row[5] == want[5] && row[6] == want[6] && row[7] == want[7]
  {
    if row[..VALUES] == want {
      assert forall f | 0 <= f < VALUES :: row[f] == row[..VALUES][f];
    }
  }

  lemma {:induction false} ValuesRowAt(mem: Memory, header: nat, i: nat, v0: int, v1: int, v2: int, v3: int)
    requires BufSize(header, i + 1) <= |mem|
    ensures Row(mem, header, i)[VALUES..] == [v0, v1, v2, v3] <==> ValuesAt(mem, header + 64 * i, v0, v1, v2, v3)
  {
    FieldOfRow(mem, header, i, 8);
    FieldOfRow(mem, header, i, 9);
    FieldOfRow(mem, header, i, 10);
    FieldOfRow(mem, header, i, 11);
    var last := Row(mem, header, i)[VALUES..];
    assert last == [last[0], last[1], last[2], last[3]];
  }

  /** The same for a row that is being built up. */
  method StoreInRow(buf: array<uint8>, header: nat, ghost rows: seq<seq<int>>, ghost row: seq<int>, k: nat, f: int, v: int)
    requires k < |rows| && HoldsRows(buf[..], header, rows[k := row]) && |row| == FIELDS
    requires 0 <= f < FIELDS && 0 <= v < FieldLimit(f)
    modifies buf
    ensures HoldsRows(buf[..], header, rows[k := row[f := v]])
    ensures Around(buf[..], header, |rows|) == old(Around(buf[..], header, |rows|))
  {
    UpdateTwice(rows, k, row, row[f := v]);
    StoreField(buf, header, rows[k := row], k, f, v);
  }

  /** A row after the first and the second half of the assignments to the shared fields. */
  function IdsSet(row: seq<int>, ch: Channel, format: uint8): (r: seq<int>)
    requires |row| == FIELDS
    ensures |r| == FIELDS
  {
    row[PROVIDER_ID := ch.providerId][CHANNEL_ID := ch.channelId][REPORT_FORMAT := format][RESERVED := 0]
  }

  function TypeSet(row: seq<int>, ch: Channel, nelements: uint16, no: uint16): (r: seq<int>)
    requires |row| == FIELDS
    ensures |r| == FIELDS
  {
    row[CATEGORIES := ch.categories][NELEMENTS := nelements][ELEMENT_IDX := no][TIMESTAMP := 0]
  }

  lemma {:induction false} SharedRowBuilt<V>(row: seq<int>, ch: Channel, format: uint8, nelements: uint16, no: uint16, values: V)
    requires |row| == FIELDS
    ensures TypeSet(IdsSet(row, ch, format), ch, nelements, no)
            == SharedRow(InitElement(ch, format, nelements, no, values)) + row[VALUES..]
  {
  }

  method InitIds(buf: array<uint8>, header: nat, ghost rows: seq<seq<int>>, ghost row: seq<int>, no: nat,
                 ch: Channel, format: uint8)
    requires no < |rows| && HoldsRows(buf[..], header, rows[no := row]) && |row| == FIELDS
    modifies buf
    ensures HoldsRows(buf[..], header, rows[no := IdsSet(row, ch, format)])
    ensures Around(buf[..], header, |rows|) == old(Around(buf[..], header, |rows|))
  {
    StoreInRow(buf, header, rows, row, no, PROVIDER_ID, ch.providerId);
    ghost var r := row[PROVIDER_ID := ch.providerId];
    StoreInRow(buf, header, rows, r, no, CHANNEL_ID, ch.channelId);
    r := r[CHANNEL_ID := ch.channelId];
    StoreInRow(buf, header, rows, r, no, REPORT_FORMAT, format);
    StoreInRow(buf, header, rows, r[REPORT_FORMAT := format], no, RESERVED, 0);
  }

  method InitType(buf: array<uint8>, header: nat, ghost rows: seq<seq<int>>, ghost row: seq<int>, no: uint16,
                  ch: Channel, nelements: uint16)
    requires no < |rows| && HoldsRows(buf[..], header, rows[no := row]) && |row| == FIELDS
    modifies buf
    ensures HoldsRows(buf[..], header, rows[no := TypeSet(row, ch, nelements, no)])
    ensures Around(buf[..], header, |rows|) == old(Around(buf[..], header, |rows|))
  {
    StoreInRow(buf, header, rows, row, no, CATEGORIES, ch.categories);
    ghost var r := row[CATEGORIES := ch.categories];
    StoreInRow(buf, header, rows, r, no, NELEMENTS, nelements);
    r := r[NELEMENTS := nelements];
    StoreInRow(buf, header, rows, r, no, ELEMENT_IDX, no);
    StoreInRow(buf, header, rows, r[ELEMENT_IDX := no], no, TIMESTAMP, 0);
  }

  /** The assignments to the shared fields that every INIT macro makes for element `no`. */
  method InitShared<V>(buf: array<uint8>, header: nat, ghost rows: seq<seq<int>>, no: uint16,
                       ch: Channel, format: uint8, nelements: uint16, ghost values: V)
    requires HoldsRows(buf[..], header, rows) && no < |rows| && |rows[no]| == FIELDS
    modifies buf
    ensures HoldsRows(buf[..], header,
                      rows[no := SharedRow(InitElement(ch, format, nelements, no, values)) + rows[no][VALUES..]])
    ensures Around(buf[..], header, |rows|) == old(Around(buf[..], header, |rows|))
  {
    assert rows[no := rows[no]] == rows;
    SharedRowBuilt(rows[no], ch, format, nelements, no, values);
    InitIds(buf, header, rows, rows[no], no, ch, format);
    InitType(buf, header, rows, IdsSet(rows[no], ch, format), no, ch, nelements);
  }

  predicate Filled(mem: Memory) {
    forall i | 0 <= i < |mem| :: mem[i] == '&' as int
  }

  /** memset of the whole buffer to '&'. */
  method Fill(buf: array<uint8>)
    modifies buf
    ensures forall i | 0 <= i < buf.Length :: buf[i] == '&' as int
  {
    forall i | 0 <= i < buf.Length {
      buf[i] := 0x26;
    }
  }
}
