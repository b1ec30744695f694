/** The HISTREPORT macros on the bytes of a buffer, signed words included, proved to do what the typed
    model says. */
module RawHistogramReport {
  import opened Machine
  import opened Regions
  import opened ReportTypes
  import opened ReportBytes
  import opened RawElements
  import H = HistogramReport

  // bucketWidth at offset 0, elements from 4.
  const HEADER: nat := 4
  const BUCKET_WIDTH := Region(0, 4)

  const HITS: int := VALUES
  const MIN: int := VALUES + 1
  const MAX: int := VALUES + 2
  const SUM: int := VALUES + 3

  /** The field values of a typed element; signed words in two's complement. */
  function ToRow(e: H.HistElement): (fs: seq<int>)
    ensures |fs| == FIELDS
  {
    SharedRow(e) + [e.values.hits, Wrap64(e.values.min), Wrap64(e.values.max), Wrap64(e.values.sum)]
  }

  function ToRows(elem: seq<H.HistElement>): (rows: seq<seq<int>>)
    ensures |rows| == |elem| && forall i | 0 <= i < |rows| :: |rows[i]| == FIELDS
  {
    seq(|elem|, i requires 0 <= i < |elem| => ToRow(elem[i]))
  }

  predicate HoldsHeader(header: Memory, bucketWidth: int32) {
    |header| == HEADER && Decode(Read(header, BUCKET_WIDTH)) == bucketWidth % TWO32
  }

  /** The bytes hold exactly the histogram h, in a buffer of at least HISTREPORT_BUFSIZE bytes. */
  predicate Holds(mem: Memory, h: H.Info) {
    HoldsRows(mem, HEADER, ToRows(h.elem)) && HoldsHeader(Around(mem, HEADER, |h.elem|).0, h.bucketWidth)
  }

  lemma {:induction false} SignedWord(x: int64)
    ensures WrapInt64(Wrap64(x)) == x
  {
  }

  lemma {:induction false} RowInjective(e: H.HistElement, d: H.HistElement)
    requires ToRow(e) == ToRow(d)
    ensures e == d
  {
    assert SharedRow(e) == ToRow(e)[..VALUES] && SharedRow(d) == ToRow(d)[..VALUES];
    SharedRowInjective(e, d);
    assert ToRow(e)[HITS] == ToRow(d)[HITS] && ToRow(e)[MIN] == ToRow(d)[MIN];
    assert ToRow(e)[MAX] == ToRow(d)[MAX] && ToRow(e)[SUM] == ToRow(d)[SUM];
    SignedWord(e.values.min);
    SignedWord(d.values.min);
    SignedWord(e.values.max);
    SignedWord(d.values.max);
    SignedWord(e.values.sum);
    SignedWord(d.values.sum);
  }

  /** The bytes determine the histogram. */
  lemma {:induction false} HoldsOnlyOne(mem: Memory, h: H.Info, g: H.Info)
    requires Holds(mem, h) && Holds(mem, g) && |h.elem| == |g.elem|
    ensures h == g
  {
    forall i | 0 <= i < |h.elem|
      ensures h.elem[i] == g.elem[i]
    {
      assert ToRows(h.elem)[i] == ToRows(g.elem)[i];
      RowInjective(h.elem[i], g.elem[i]);
    }
  }

  // ----- Where everything lies -----

  /** The width and the element fields tile the HISTREPORT_BUFSIZE bytes of a buffer. */
  lemma {:induction false} BufferTiles(n: nat)
    ensures BUCKET_WIDTH.size == 4 && BufSize(HEADER, n) == 4 + 64 * n
    ensures Tiles([BUCKET_WIDTH] + FieldRegions(HEADER, n), 0, BufSize(HEADER, n))
  {
    FieldsTile(HEADER, n);
    TilesConcat([BUCKET_WIDTH], FieldRegions(HEADER, n), 0, HEADER, BufSize(HEADER, n));
  }

  /** A signed number as the 64-bit word that stores it. */
  function TwosComplement(x: int64): int {
    if 0 <= x then x else x + 0x1_0000_0000_0000_0000
  }

  /** An IOReportElement with IOHistogramReportValues, starting at `at`. */
  predicate ElementAt(mem: Memory, at: nat, e: H.HistElement)
    requires at + 64 <= |mem|
  {
    && SharedAt(mem, at, e)
    && ValuesAt(mem, at, e.values.hits, TwosComplement(e.values.min), TwosComplement(e.values.max),
                TwosComplement(e.values.sum))
  }

  /** An IOHistReportInfo at the start of memory. */
  predicate InMemory(mem: Memory, h: H.Info) {
    && 4 + 64 * |h.elem| <= |mem|
    && Word(mem, 0, 4) == (if 0 <= h.bucketWidth then h.bucketWidth else h.bucketWidth + 0x1_0000_0000)
    && forall i | 0 <= i < |h.elem| :: ElementAt(mem, 4 + 64 * i, h.elem[i])
  }

  lemma {:induction false} SignedRow(e: H.HistElement)
    ensures ToRow(e) == SharedRow(e) + [e.values.hits, TwosComplement(e.values.min), TwosComplement(e.values.max),
                                        TwosComplement(e.values.sum)]
  {
  }

  lemma {:induction false} RowIff(mem: Memory, i: nat, e: H.HistElement)
    requires BufSize(HEADER, i + 1) <= |mem|
    ensures Row(mem, HEADER, i) == ToRow(e) <==> ElementAt(mem, 4 + 64 * i, e)
  {
    var v := e.values;
    SignedRow(e);
    RowAtIff(mem, HEADER, i, e, v.hits, TwosComplement(v.min), TwosComplement(v.max), TwosComplement(v.sum));
  }

  lemma {:induction false} RowsIff(mem: Memory, elem: seq<H.HistElement>)
    requires BufSize(HEADER, |elem|) <= |mem|
    ensures HoldsRows(mem, HEADER, ToRows(elem)) <==>
            forall i | 0 <= i < |elem| :: ElementAt(mem, 4 + 64 * i, elem[i])
  {
    var rows := ToRows(elem);
    HoldsRowsIff(mem, HEADER, rows);
    forall i | 0 <= i < |elem|
      ensures Row(mem, HEADER, i) == rows[i] <==> ElementAt(mem, 4 + 64 * i, elem[i])
    {
      RowIff(mem, i, elem[i]);
    }
    if forall i | 0 <= i < |elem| :: ElementAt(mem, 4 + 64 * i, elem[i]) {
      assert forall i | 0 <= i < |elem| :: Row(mem, HEADER, i) == rows[i];
    } else {
      var i :| 0 <= i < |elem| && !ElementAt(mem, 4 + 64 * i, elem[i]);
      assert Row(mem, HEADER, i) != rows[i];
    }
  }

  lemma {:induction false} HeaderBytes(mem: Memory, n: nat)
    requires BufSize(HEADER, n) <= |mem|
    ensures Read(Around(mem, HEADER, n).0, BUCKET_WIDTH) == mem[0..4]
  {
    ReadWithin(mem, Region(0, HEADER), BUCKET_WIDTH);
  }

  /** A buffer holds a histogram exactly when every field lies where the structs have it. */
  lemma {:induction false} HoldsIff(mem: Memory, h: H.Info)
    ensures Holds(mem, h) <==> InMemory(mem, h)
  {
    if 4 + 64 * |h.elem| <= |mem| {
      HeaderBytes(mem, |h.elem|);
      UnsignedReading(h.bucketWidth);
      RowsIff(mem, h.elem);
    }
  }

  // ----- HISTREPORT_INIT -----

  function Initialised(rows: seq<seq<int>>, ch: Channel, no: uint16): (r: seq<seq<int>>)
    requires no <= |rows| < TWO16
    ensures |r| == |rows|
  {
    seq(|rows|, i requires 0 <= i < |rows| => if i < no then ToRow(H.InitBucket(ch, |rows|, i)) else rows[i])
  }

  /** memset of the values to zero. */
  method InitValues(buf: array<uint8>, ghost rows: seq<seq<int>>, ghost row: seq<int>, no: uint16)
    requires no < |rows| && HoldsRows(buf[..], HEADER, rows[no := row]) && |row| == FIELDS
    modifies buf
    ensures HoldsRows(buf[..], HEADER, rows[no := row[HITS := 0][MIN := 0][MAX := 0][SUM := 0]])
    ensures Around(buf[..], HEADER, |rows|) == old(Around(buf[..], HEADER, |rows|))
  {
    StoreInRow(buf, HEADER, rows, row, no, HITS, 0);
    ghost var r := row[HITS := 0];
    StoreInRow(buf, HEADER, rows, r, no, MIN, 0);
    r := r[MIN := 0];
    StoreInRow(buf, HEADER, rows, r, no, MAX, 0);
    StoreInRow(buf, HEADER, rows, r[MAX := 0], no, SUM, 0);
  }

  lemma {:induction false} RowBuilt(shared: seq<int>, tail: seq<int>, e: H.HistElement)
    requires shared == SharedRow(e) && |tail| == FIELDS - VALUES && e.values == H.HistValues(0, 0, 0, 0)
    ensures (shared + tail)[HITS := 0][MIN := 0][MAX := 0][SUM := 0] == ToRow(e)
  {
  }

  /** The body of the loop for bucket `no`, whatever the buffer held there. */
  method InitBucket(buf: array<uint8>, ghost rows: seq<seq<int>>, no: uint16, ch: Channel, n: uint16)
    requires HoldsRows(buf[..], HEADER, rows) && no < |rows| && |rows[no]| == FIELDS
    modifies buf
    ensures HoldsRows(buf[..], HEADER, rows[no := ToRow(H.InitBucket(ch, n, no))])
    ensures Around(buf[..], HEADER, |rows|) == old(Around(buf[..], HEADER, |rows|))
  {
    ghost var e := H.InitBucket(ch, n, no);
    InitShared(buf, HEADER, rows, no, ch, FORMAT_HISTOGRAM, n, e.values);
    RowBuilt(SharedRow(e), rows[no][VALUES..], e);
    InitValues(buf, rows, SharedRow(e) + rows[no][VALUES..], no);
  }

  /** The loop of HISTREPORT_INIT. */
  method InitElements(buf: array<uint8>, nbuckets: uint16, size: uint32, ch: Channel)
    requires 1 <= nbuckets && BufSize(HEADER, nbuckets) <= buf.Length
    modifies buf
    ensures HoldsRows(buf[..], HEADER, ToRows(H.InitInfo(ch, nbuckets, size).elem))
    ensures Around(buf[..], HEADER, nbuckets) == old(Around(buf[..], HEADER, nbuckets))
  {
    ghost var rows := Rows(buf[..], HEADER, nbuckets);
    forall i | 0 <= i < nbuckets
      ensures |rows[i]| == FIELDS
    {
      RowsAt(buf[..], HEADER, nbuckets, i);
    }
    assert Initialised(rows, ch, 0) == rows;
    var no: uint16 := 0;
    while no < nbuckets
      invariant 0 <= no <= nbuckets
      invariant HoldsRows(buf[..], HEADER, Initialised(rows, ch, no))
      invariant Around(buf[..], HEADER, nbuckets) == old(Around(buf[..], HEADER, nbuckets))
    {
      InitBucket(buf, Initialised(rows, ch, no), no, ch, nbuckets);
      assert Initialised(rows, ch, no + 1) == Initialised(rows, ch, no)[no := ToRow(H.InitBucket(ch, nbuckets, no))];
      no := no + 1;
    }
    assert Initialised(rows, ch, nbuckets) == ToRows(H.InitInfo(ch, nbuckets, size).elem);
  }

  lemma {:induction false} HeaderSet(header: Memory, size: uint32)
    requires |header| == HEADER
    ensures HoldsHeader(Write(header, BUCKET_WIDTH, Encode(size, 4)), ToInt32(size))
  {
    FieldWidths();
    DecodeEncode(size, 4);
    ReadBack(header, BUCKET_WIDTH, Encode(size, 4));
    UnsignedReading(ToInt32(size));
  }

  /** The width and the loop. */
  method InitReport(buf: array<uint8>, nbuckets: uint16, size: uint32, ch: Channel)
    requires 1 <= nbuckets && BufSize(HEADER, nbuckets) <= buf.Length
    modifies buf
    ensures Holds(buf[..], H.InitInfo(ch, nbuckets, size))
    ensures buf[4 + 64 * nbuckets..] == old(buf[4 + 64 * nbuckets..])
  {
    HeaderSet(Around(buf[..], HEADER, nbuckets).0, size);
    AroundIs(buf[..], HEADER, nbuckets);
    StoreHeader(buf, HEADER, Rows(buf[..], HEADER, nbuckets), BUCKET_WIDTH, size);
    InitElements(buf, nbuckets, size, ch);
    AroundIs(buf[..], HEADER, nbuckets);
    assert buf[..][4 + 64 * nbuckets..] == buf[4 + 64 * nbuckets..];
  }

  /** Bucket number i of n as HISTREPORT_INIT writes it at address `at`. */
  predicate FreshAt(mem: Memory, at: nat, ch: Channel, n: uint16, i: int)
    requires at + 64 <= |mem|
  {
    && Word(mem, at, 8) == ch.providerId && Word(mem, at + 8, 8) == ch.channelId
    && Word(mem, at + 16, 1) == 3 && Word(mem, at + 17, 1) == 0 && Word(mem, at + 18, 2) == ch.categories
    && Word(mem, at + 20, 2) == n && Word(mem, at + 22, 2) == i && Word(mem, at + 24, 8) == 0
    && Word(mem, at + 32, 8) == 0 && Word(mem, at + 40, 8) == 0 && Word(mem, at + 48, 8) == 0 && Word(mem, at + 56, 8) == 0
  }

  /** A buffer as HISTREPORT_INIT leaves it: the width, fresh buckets, and the fill byte behind them. */
  predicate Fresh(mem: Memory, n: uint16, size: uint32, ch: Channel) {
    && 4 + 64 * n <= |mem|
    && Word(mem, 0, 4) == size
    && (forall i | 0 <= i < n :: FreshAt(mem, 4 + 64 * i, ch, n, i))
    && (forall a | 4 + 64 * n <= a < |mem| :: mem[a] == '&' as int)
  }

  lemma {:induction false} FreshBucket(mem: Memory, n: uint16, size: uint32, ch: Channel, i: uint16)
    requires i < n && InMemory(mem, H.InitInfo(ch, n, size))
    ensures FreshAt(mem, 4 + 64 * i, ch, n, i)
  {
    var e := H.InitBucket(ch, n, i);
    assert H.InitInfo(ch, n, size).elem[i] == e;
    assert SharedAt(mem, 4 + 64 * i, e) && ValuesAt(mem, 4 + 64 * i, 0, 0, 0, 0);
  }

  lemma {:induction false} FreshBuffer(mem: Memory, n: uint16, size: uint32, ch: Channel)
    requires 1 <= n && Holds(mem, H.InitInfo(ch, n, size)) && Filled(mem[4 + 64 * n..])
    ensures Fresh(mem, n, size, ch)
  {
    HoldsIff(mem, H.InitInfo(ch, n, size));
    forall i | 0 <= i < n
      ensures FreshAt(mem, 4 + 64 * i, ch, n, i)
    {
      FreshBucket(mem, n, size, ch, i);
    }
    assert forall a | 4 + 64 * n <= a < |mem| :: mem[a] == mem[4 + 64 * n..][a - (4 + 64 * n)];
  }

  /** HISTREPORT_INIT. A buffer below HISTREPORT_BUFSIZE is left full of '&'. */
  method Init(buf: array<uint8>, nbuckets: uint16, size: uint32, ch: Channel) returns (ok: bool)
    requires 1 <= nbuckets
    modifies buf
    ensures ok <==> 4 + 64 * nbuckets <= buf.Length
    ensures ok ==> Holds(buf[..], H.InitInfo(ch, nbuckets, size)) && Fresh(buf[..], nbuckets, size, ch)
    ensures !ok ==> forall a | 0 <= a < buf.Length :: buf[a] == '&' as int
  {
    Fill(buf);
    ok := buf.Length >= BufSize(HEADER, nbuckets);
    if ok {
      assert Filled(buf[4 + 64 * nbuckets..]);
      InitReport(buf, nbuckets, size, ch);
      assert buf[..][4 + 64 * nbuckets..] == buf[4 + 64 * nbuckets..];
      FreshBuffer(buf[..], nbuckets, size, ch);
    }
  }

  // ----- HISTREPORT_TALLYVALUE -----

  lemma {:induction false} RowsOfUpdate(elem: seq<H.HistElement>, k: nat, e: H.HistElement)
    requires k < |elem|
    ensures ToRows(elem[k := e]) == ToRows(elem)[k := ToRow(e)]
  {
  }

  function WithValues(e: H.HistElement, v: H.HistValues): H.HistElement {
    e.(values := v)
  }

  /** Storing one word of a bucket whose statistics so far are v, leaving them v'. */
  method StoreWord(buf: array<uint8>, ghost h: H.Info, k: nat, ghost v: H.HistValues, ghost v': H.HistValues,
                   f: int, x: int)
    requires k < |h.elem| && Holds(buf[..], h.(elem := h.elem[k := WithValues(h.elem[k], v)]))
    requires HITS <= f <= SUM
    requires f == HITS ==> 0 <= x < TWO64 && v' == v.(hits := x)
    requires f != HITS ==> FitsInt64(x)
    requires f == MIN ==> v' == v.(min := x)
    requires f == MAX ==> v' == v.(max := x)
    requires f == SUM ==> v' == v.(sum := x)
    modifies buf
    ensures Holds(buf[..], h.(elem := h.elem[k := WithValues(h.elem[k], v')]))
    ensures Around(buf[..], HEADER, |h.elem|) == old(Around(buf[..], HEADER, |h.elem|))
  {
    ghost var e, e' := WithValues(h.elem[k], v), WithValues(h.elem[k], v');
    RowsOfUpdate(h.elem, k, e);
    RowsOfUpdate(h.elem, k, e');
    assert ToRow(e') == ToRow(e)[f := Wrap64(x)];
    StoreInRow(buf, HEADER, ToRows(h.elem), ToRow(e), k, f, Wrap64(x));
  }

  /** The four statistics of bucket k. */
  method LoadBucket(buf: array<uint8>, ghost h: H.Info, k: nat) returns (v: H.HistValues)
    requires Holds(buf[..], h) && k < |h.elem|
    ensures v == h.elem[k].values
  {
    ghost var own := h.elem[k].values;
    SignedWord(own.min);
    SignedWord(own.max);
    SignedWord(own.sum);
    var hits := LoadField(buf, HEADER, ToRows(h.elem), k, HITS);
    var min := LoadField(buf, HEADER, ToRows(h.elem), k, MIN);
    var max := LoadField(buf, HEADER, ToRows(h.elem), k, MAX);
    var sum := LoadField(buf, HEADER, ToRows(h.elem), k, SUM);
    v := H.HistValues(hits, WrapInt64(min), WrapInt64(max), WrapInt64(sum));
  }

  /** The branches on hits, min and max. */
  method StoreExtremes(buf: array<uint8>, ghost h: H.Info, k: nat, v: H.HistValues, value: int64)
    returns (ghost w: H.HistValues)
    requires Holds(buf[..], h) && k < |h.elem| && v == h.elem[k].values
    modifies buf
    ensures w == H.Record(v, value).(hits := v.hits, sum := v.sum)
    ensures Holds(buf[..], h.(elem := h.elem[k := WithValues(h.elem[k], w)]))
    ensures Around(buf[..], HEADER, |h.elem|) == old(Around(buf[..], HEADER, |h.elem|))
  {
    assert h.elem[k := WithValues(h.elem[k], v)] == h.elem;
    w := v;
    if v.hits == 0 {
      StoreWord(buf, h, k, v, v.(max := value), MAX, value);
      StoreWord(buf, h, k, v.(max := value), v.(max := value, min := value), MIN, value);
      w := v.(max := value, min := value);
    } else if value < v.min {
      StoreWord(buf, h, k, v, v.(min := value), MIN, value);
      w := v.(min := value);
    } else if value > v.max {
      StoreWord(buf, h, k, v, v.(max := value), MAX, value);
      w := v.(max := value);
    }
  }

  /** The statements that update the matching bucket. */
  method UpdateBucket(buf: array<uint8>, ghost h: H.Info, k: nat, value: int64)
    requires Holds(buf[..], h) && k < |h.elem|
    modifies buf
    ensures Holds(buf[..], h.(elem := h.elem[k := WithValues(h.elem[k], H.Record(h.elem[k].values, value))]))
    ensures Around(buf[..], HEADER, |h.elem|) == old(Around(buf[..], HEADER, |h.elem|))
  {
    var v := LoadBucket(buf, h, k);
    ghost var w := StoreExtremes(buf, h, k, v, value);
    var sum := if FitsInt64(v.sum + value) then v.sum + value else INT64_MAX;
    StoreWord(buf, h, k, w, w.(sum := sum), SUM, sum);
    StoreWord(buf, h, k, w.(sum := sum), H.Record(v, value), HITS, Wrap64(v.hits + 1));
  }

  /** HISTREPORT_TALLYVALUE. */
  method TallyValue(buf: array<uint8>, ghost h: H.Info, value: int64)
    requires Holds(buf[..], h) && H.WellFormed(h)
    modifies buf
    ensures Holds(buf[..], H.ApplyTally(h, value))
    ensures Around(buf[..], HEADER, |h.elem|) == old(Around(buf[..], HEADER, |h.elem|))
  {
    ghost var n: uint16 := |h.elem|;
    var nelements := LoadField(buf, HEADER, ToRows(h.elem), 0, NELEMENTS);
    var width := LoadHeaderField(buf, HEADER, n, BUCKET_WIDTH);
    var no: int := 0;
    while no < nelements
      invariant 0 <= no <= n
      invariant Holds(buf[..], h)
      invariant Around(buf[..], HEADER, n) == old(Around(buf[..], HEADER, n))
      invariant H.FirstMatch(h.bucketWidth, n, value, 0) == H.FirstMatch(h.bucketWidth, n, value, no)
    {
      UnsignedWidth(h.bucketWidth, no + 1);
      if value <= (width * (no + 1)) % TWO32 {
        UpdateBucket(buf, h, no, value);
        return;
      }
      no := no + 1;
    }
  }

  /** The product is the same for the int and for its unsigned reading. */
  lemma {:induction false} UnsignedWidth(w: int32, k: nat)
    ensures ((w % TWO32) * k) % TWO32 == (w * k) % TWO32
  {
    UnsignedReading(w);
    if w < 0 {
      assert (w + TWO32) * k == w * k + k * TWO32;
      ModShift(w * k, k);
    }
  }
}
