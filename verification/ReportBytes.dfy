/** Report buffers as the raw bytes they are: little-endian fields at fixed offsets. */
module ReportBytes {
  import opened Machine
  import opened Regions
  import opened ReportTypes

  // ----- Little-endian numbers -----

  function Pow256(k: nat): nat
    ensures 1 <= Pow256(k)
  {
    if k == 0 then 1 else 256 * Pow256(k - 1)
  }

  function Encode(v: nat, size: nat): (b: Memory)
    ensures |b| == size
  {
    if size == 0 then [] else [v % 256] + Encode(v / 256, size - 1)
  }

  function Decode(b: Memory): nat {
    if b == [] then 0 else b[0] + 256 * Decode(b[1..])
  }

  lemma {:induction false} DecodeBound(b: Memory)
    ensures Decode(b) < Pow256(|b|)
  {
    if b != [] {
      DecodeBound(b[1..]);
    }
  }

  lemma {:induction false} DecodeEncode(v: nat, size: nat)
    requires v < Pow256(size)
    ensures Decode(Encode(v, size)) == v
    decreases size
  {
    if 0 < size {
      DecodeEncode(v / 256, size - 1);
      assert Encode(v, size)[1..] == Encode(v / 256, size - 1);
    }
  }

  lemma {:induction false} EncodeDecode(b: Memory)
    ensures Encode(Decode(b), |b|) == b
  {
    if b != [] {
      EncodeDecode(b[1..]);
      assert Decode(b) % 256 == b[0] && Decode(b) / 256 == Decode(b[1..]);
    }
  }

  lemma {:induction false} DivideTwice(v: nat, p: nat)
    requires 1 <= p
    ensures v / (256 * p) == (v / 256) / p
  {
    var q, r := (v / 256) / p, (v / 256) % p;
    assert v / 256 == p * q + r;
    assert v == (256 * p) * q + (256 * r + v % 256);
    DivisionUnique(v, 256 * p, q, 256 * r + v % 256);
  }

  /** Little-endian: byte j is worth 256 to the j. */
  lemma {:induction false} ByteOfEncode(v: nat, size: nat, j: nat)
    requires j < size
    ensures Encode(v, size)[j] == (v / Pow256(j)) % 256
    decreases size
  {
    if 0 < j {
      ByteOfEncode(v / 256, size - 1, j - 1);
      DivideTwice(v, Pow256(j - 1));
    }
  }

  lemma {:induction false} FieldWidths()
    ensures Pow256(1) == 0x100 && Pow256(2) == 0x1_0000 == TWO16
    ensures Pow256(4) == 0x1_0000_0000 == TWO32 && Pow256(8) == 0x1_0000_0000_0000_0000 == TWO64
  {
  }

  // ----- The fields of IOReportElement -----

  const FIELDS: int := 12

  // provider_id, channel_id, report_format, reserved, categories, nelements, element_idx, timestamp,
  // and the four words of values.
  const NELEMENTS: int := 5
  const TIMESTAMP: int := 7
  const VALUES: int := 8

  function FieldSize(f: int): nat {
    if f == 2 || f == 3 then 1 else if 4 <= f <= 6 then 2 else 8
  }

  /** The values a field can hold lie below this. */
  function FieldLimit(f: int): nat {
    if f == 2 || f == 3 then 0x100 else if 4 <= f <= 6 then TWO16 else TWO64
  }

  /** The struct is packed. */
  function FieldOffset(f: int): (o: nat)
    requires 0 <= f <= FIELDS
  {
    if f <= 2 then 8 * f else if f <= 4 then 14 + f else if f <= 7 then 2 * f + 10 else 8 * f - 32
  }

  /** Packed means that each field starts where the one before ends; together they are 64 bytes. */
  lemma {:induction false} FieldsPacked(f: int)
    requires 0 <= f < FIELDS
    ensures FieldOffset(f) + FieldSize(f) == FieldOffset(f + 1) <= ELEMENT_SIZE
    ensures FieldOffset(0) == 0 && FieldOffset(FIELDS) == ELEMENT_SIZE == 64
  {
  }

  function FieldRegion(f: int): (r: Region)
    requires 0 <= f < FIELDS
    ensures r.End() <= ELEMENT_SIZE
  {
    Region(FieldOffset(f), FieldSize(f))
  }

  /** Where each field of IOReportElement lies: provider_id, channel_id, report_format, reserved,
      categories, nelements, element_idx, timestamp, and the four words of values. */
  lemma {:induction false} FieldTable(f: int)
    requires 0 <= f < FIELDS
    ensures FIELDS == 12
    ensures FieldRegion(f) == [Region(0, 8), Region(8, 8), Region(16, 1), Region(17, 1), Region(18, 2), Region(20, 2),
                               Region(22, 2), Region(24, 8), Region(32, 8), Region(40, 8), Region(48, 8), Region(56, 8)][f]
  {
  }

  function Field(e: Memory, f: int): (v: nat)
    requires |e| == ELEMENT_SIZE && 0 <= f < FIELDS
    ensures v < FieldLimit(f)
  {
    FieldWidths();
    DecodeBound(Read(e, FieldRegion(f)));
    Decode(Read(e, FieldRegion(f)))
  }

  function StoreField(e: Memory, f: int, v: nat): (r: Memory)
    requires |e| == ELEMENT_SIZE && 0 <= f < FIELDS
    ensures |r| == ELEMENT_SIZE
  {
    Write(e, FieldRegion(f), Encode(v, FieldSize(f)))
  }

  /** Storing a field changes that field, to the value stored, and no other. */
  lemma {:induction false} FieldOfStore(e: Memory, f: int, v: nat, g: int)
    requires |e| == ELEMENT_SIZE && 0 <= f < FIELDS && 0 <= g < FIELDS && v < FieldLimit(f)
    ensures Field(StoreField(e, f, v), g) == if g == f then v else Field(e, g)
  {
    var bytes := Encode(v, FieldSize(f));
    if g == f {
      ReadBack(e, FieldRegion(f), bytes);
      FieldWidths();
      DecodeEncode(v, FieldSize(f));
    } else {
      ReadElsewhere(e, FieldRegion(f), bytes, FieldRegion(g));
    }
  }

  function Fields(e: Memory): (fs: seq<int>)
    requires |e| == ELEMENT_SIZE
    ensures Bounded(fs)
  {
    seq(FIELDS, f requires 0 <= f < FIELDS => Field(e, f))
  }

  /** One number per field, each within the field's width. */
  predicate Bounded(fs: seq<int>) {
    |fs| == FIELDS && forall f | 0 <= f < FIELDS :: 0 <= fs[f] < FieldLimit(f)
  }

  lemma {:induction false} FieldsOfStore(e: Memory, f: int, v: nat)
    requires |e| == ELEMENT_SIZE && 0 <= f < FIELDS && v < FieldLimit(f)
    ensures Fields(StoreField(e, f, v)) == Fields(e)[f := v]
  {
    forall g | 0 <= g < FIELDS
      ensures Fields(StoreField(e, f, v))[g] == Fields(e)[f := v][g]
    {
      FieldOfStore(e, f, v, g);
    }
  }

  // ----- Elements in a buffer whose header has `header` bytes -----

  function BufSize(header: nat, n: nat): nat {
    header + ELEMENT_SIZE * n
  }

  function ElementRegion(header: nat, i: nat): Region {
    Region(header + ELEMENT_SIZE * i, ELEMENT_SIZE)
  }

  /** The bytes of field f of element k. */
  function FieldAt(header: nat, k: nat, f: int): Region
    requires 0 <= f < FIELDS
  {
    Within(ElementRegion(header, k), FieldRegion(f))
  }

  function FieldRegions(header: nat, n: nat): seq<Region> {
    seq(FIELDS * n, r requires 0 <= r < FIELDS * n => FieldAt(header, r / FIELDS, r % FIELDS))
  }

  lemma {:induction false} FieldsAdjacent(header: nat, r: nat)
    ensures FieldAt(header, r / FIELDS, r % FIELDS).End() == FieldAt(header, (r + 1) / FIELDS, (r + 1) % FIELDS).start
  {
    FieldsPacked(r % FIELDS);
    if r % FIELDS == FIELDS - 1 {
      assert (r + 1) / FIELDS == r / FIELDS + 1 && (r + 1) % FIELDS == 0;
    } else {
      assert (r + 1) / FIELDS == r / FIELDS && (r + 1) % FIELDS == r % FIELDS + 1;
    }
  }

  /** The element region is tiled by the fields of the elements, in order: no two share a byte, and
      the bytes copied out are exactly theirs. */
  lemma {:induction false} FieldsTile(header: nat, n: nat)
    ensures Tiles(FieldRegions(header, n), header, BufSize(header, n))
  {
    var rs := FieldRegions(header, n);
    forall r | 0 <= r < |rs| - 1
      ensures Adjacent(rs, r)
    {
      FieldsAdjacent(header, r);
    }
    if 0 < n {
      var last := FIELDS * n - 1;
      assert last / FIELDS == n - 1 && last % FIELDS == FIELDS - 1;
      FieldsPacked(FIELDS - 1);
    }
  }

  /** The number of `size` bytes at an address. */
  function Word(mem: Memory, at: nat, size: nat): nat
    requires at + size <= |mem|
  {
    Decode(mem[at..at + size])
  }

  /** Assignment through a pointer to a field. */
  method Store(buf: array<uint8>, r: Region, v: nat)
    requires r.End() <= buf.Length
    modifies buf
    ensures buf[..] == Write(old(buf[..]), r, Encode(v, r.size))
  {
    var bytes := Encode(v, r.size);
    var i := 0;
    while i < r.size
      invariant 0 <= i <= r.size
      invariant buf[..] == old(buf[..r.start]) + bytes[..i] + old(buf[r.start + i..])
    {
      buf[r.start + i] := bytes[i];
      i := i + 1;
    }
  }
}
