/** Flat memory cut into adjacent regions, and what reading and writing through them means. */
module Regions {
  import opened Machine

  datatype Region = Region(start: nat, size: nat) {
    function End(): nat {
      start + size
    }
  }

  /** The regions follow one another without gap or overlap from `from` to `to`. */
  predicate Tiles(rs: seq<Region>, from: nat, to: nat) {
    if rs == [] then from == to
    else
      && rs[0].start == from && rs[|rs| - 1].End() == to
      && forall i | 0 <= i < |rs| - 1 :: Adjacent(rs, i)
  }

  predicate Adjacent(rs: seq<Region>, i: nat)
    requires i + 1 < |rs|
  {
    rs[i].End() == rs[i + 1].start
  }

  lemma {:induction false} TilesOrdered(rs: seq<Region>, from: nat, to: nat, i: nat, j: nat)
    requires Tiles(rs, from, to) && i < j < |rs|
    ensures rs[i].End() <= rs[j].start
    decreases j - i
  {
    assert Adjacent(rs, i);
    if i + 1 < j {
      TilesOrdered(rs, from, to, i + 1, j);
    }
  }

  lemma {:induction false} TilesWithin(rs: seq<Region>, from: nat, to: nat, i: nat)
    requires Tiles(rs, from, to) && i < |rs|
    ensures from <= rs[i].start && rs[i].End() <= to
  {
    if 0 < i {
      TilesOrdered(rs, from, to, 0, i);
    }
    if i < |rs| - 1 {
      TilesOrdered(rs, from, to, i, |rs| - 1);
    }
  }

  /** Every address of the tiled range lies in a region (in one only, by TilesOrdered). */
  lemma {:induction false} TilesCover(rs: seq<Region>, from: nat, to: nat, a: nat) returns (i: nat)
    requires Tiles(rs, from, to) && from <= a < to
    ensures i < |rs| && rs[i].start <= a < rs[i].End()
  {
    i := 0;
    while rs[i].End() <= a
      invariant i < |rs| && rs[i].start <= a
      decreases |rs| - i
    {
      assert i + 1 < |rs| ==> Adjacent(rs, i);
      i := i + 1;
    }
  }

  lemma {:induction false} TilesConcat(rs: seq<Region>, ss: seq<Region>, from: nat, mid: nat, to: nat)
    requires Tiles(rs, from, mid) && Tiles(ss, mid, to)
    ensures Tiles(rs + ss, from, to)
  {
    if rs == [] {
      assert rs + ss == ss;
    } else if ss == [] {
      assert rs + ss == rs;
    } else {
      forall i | 0 <= i < |rs + ss| - 1
        ensures Adjacent(rs + ss, i)
      {
        assert i < |rs| - 1 ==> Adjacent(rs, i);
        assert |rs| <= i ==> Adjacent(ss, i - |rs|);
      }
    }
  }

  /** A prefix of the regions tiles the range up to the next one. */
  lemma {:induction false} TilesPrefix(rs: seq<Region>, from: nat, to: nat, k: nat)
    requires Tiles(rs, from, to) && 0 < k < |rs|
    ensures Tiles(rs[..k], from, rs[k].start)
  {
    assert Adjacent(rs, k - 1);
    forall i | 0 <= i < k - 1
      ensures Adjacent(rs[..k], i)
    {
      assert Adjacent(rs, i);
    }
  }

  type Memory = seq<uint8>

  function Read(mem: Memory, r: Region): Memory
    requires r.End() <= |mem|
  {
    mem[r.start..r.End()]
  }

  function Write(mem: Memory, r: Region, bytes: Memory): (m: Memory)
    requires r.End() <= |mem| && |bytes| == r.size
    ensures |m| == |mem|
  {
    mem[..r.start] + bytes + mem[r.End()..]
  }

  lemma {:induction false} WriteAt(mem: Memory, r: Region, bytes: Memory, a: nat)
    requires r.End() <= |mem| && |bytes| == r.size && a < |mem|
    ensures Write(mem, r, bytes)[a] == if r.start <= a < r.End() then bytes[a - r.start] else mem[a]
  {
  }

  lemma {:induction false} ReadBack(mem: Memory, r: Region, bytes: Memory)
    requires r.End() <= |mem| && |bytes| == r.size
    ensures Read(Write(mem, r, bytes), r) == bytes
  {
  }

  lemma {:induction false} ReadElsewhere(mem: Memory, r: Region, bytes: Memory, q: Region)
    requires r.End() <= |mem| && |bytes| == r.size && q.End() <= |mem|
    requires r.End() <= q.start || q.End() <= r.start
    ensures Read(Write(mem, r, bytes), q) == Read(mem, q)
  {
  }

  /** The region q of region r, as a region of the whole. */
  function Within(r: Region, q: Region): Region {
    Region(r.start + q.start, q.size)
  }

  lemma {:induction false} ReadWithin(mem: Memory, r: Region, q: Region)
    requires r.End() <= |mem| && q.End() <= r.size
    ensures Read(mem, Within(r, q)) == Read(Read(mem, r), q)
  {
    assert forall a | 0 <= a < q.size :: Read(Read(mem, r), q)[a] == mem[r.start + q.start + a];
  }

  lemma {:induction false} WriteWithin(mem: Memory, r: Region, q: Region, bytes: Memory)
    requires r.End() <= |mem| && q.End() <= r.size && |bytes| == q.size
    ensures Read(Write(mem, Within(r, q), bytes), r) == Write(Read(mem, r), q, bytes)
  {
    var m, e := Write(mem, Within(r, q), bytes), Write(Read(mem, r), q, bytes);
    assert |Read(m, r)| == |e|;
    forall a | 0 <= a < r.size
      ensures Read(m, r)[a] == e[a]
    {
      WriteAt(mem, Within(r, q), bytes, r.start + a);
      WriteAt(Read(mem, r), q, bytes, a);
    }
  }

  /** A write through one region is read back through it and through no other. */
  lemma {:induction false} NonInterference(
    mem: Memory, rs: seq<Region>, from: nat, to: nat, i: nat, j: nat, bytes: Memory)
    requires Tiles(rs, from, to) && to <= |mem| && i < |rs| && j < |rs| && |bytes| == rs[i].size
    ensures rs[i].End() <= |mem| && rs[j].End() <= |mem|
    ensures Read(Write(mem, rs[i], bytes), rs[j]) == if i == j then bytes else Read(mem, rs[j])
  {
    TilesWithin(rs, from, to, i);
    TilesWithin(rs, from, to, j);
    if i < j {
      TilesOrdered(rs, from, to, i, j);
      ReadElsewhere(mem, rs[i], bytes, rs[j]);
    } else if j < i {
      TilesOrdered(rs, from, to, j, i);
      ReadElsewhere(mem, rs[i], bytes, rs[j]);
    } else {
      ReadBack(mem, rs[i], bytes);
    }
  }
}
