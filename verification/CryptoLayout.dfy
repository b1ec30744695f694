/** Layout of corecrypto contexts: sizes from one set of macros, addresses from another. */
module CryptoLayout {
  import opened Machine
  import opened Regions

  // ----- cc_pad_align -----

  function Pow2(k: nat): nat
    ensures 1 <= Pow2(k)
  {
    if k == 0 then 1 else 2 * Pow2(k - 1)
  }

  /** Bitwise and. */
  function BitAnd(x: nat, y: nat): nat {
    if x == 0 || y == 0 then 0
    else 2 * BitAnd(x / 2, y / 2) + (if x % 2 == 1 && y % 2 == 1 then 1 else 0)
  }

  lemma {:induction false} Pow2Ordered(j: nat, k: nat)
    requires j <= k
    ensures Pow2(j) <= Pow2(k)
    decreases k
  {
    if j < k {
      Pow2Ordered(j, k - 1);
    }
  }

  lemma {:induction false} ModHalf(x: nat, m: nat)
    requires 1 <= m
    ensures x % (2 * m) == 2 * ((x / 2) % m) + x % 2
  {
    var q, r := (x / 2) / m, (x / 2) % m;
    assert x / 2 == m * q + r;
    assert x == (2 * m) * q + (2 * r + x % 2);
    DivisionUnique(x, 2 * m, q, 2 * r + x % 2);
  }

  lemma {:induction false} MaskOfOnes(x: nat, w: nat)
    requires x < Pow2(w)
    ensures BitAnd(x, Pow2(w) - 1) == x
    decreases w
  {
    if 0 < w {
      var mask := Pow2(w) - 1;
      assert mask % 2 == 1 && mask / 2 == Pow2(w - 1) - 1;
      MaskOfOnes(x / 2, w - 1);
    }
  }

  /** And with the ones from bit k to bit w - 1 clears the low k bits. */
  lemma {:induction false} MaskClearsLowBits(x: nat, w: nat, k: nat)
    requires k <= w && x < Pow2(w)
    ensures Pow2(k) <= Pow2(w)
    ensures BitAnd(x, Pow2(w) - Pow2(k)) == x - x % Pow2(k)
    decreases w
  {
    Pow2Ordered(k, w);
    if k == 0 {
      MaskOfOnes(x, w);
    } else {
      MaskClearsLowBits(x / 2, w - 1, k - 1);
      MaskStep(x, Pow2(w - 1) - Pow2(k - 1), Pow2(k - 1));
      assert Pow2(w) - Pow2(k) == 2 * (Pow2(w - 1) - Pow2(k - 1));
    }
  }

  lemma {:induction false} MaskStep(x: nat, half: nat, m: nat)
    requires 1 <= m && BitAnd(x / 2, half) == x / 2 - (x / 2) % m
    ensures BitAnd(x, 2 * half) == x - x % (2 * m)
  {
    ModHalf(x, m);
    EvenMask(x, half);
  }

  lemma {:induction false} EvenMask(x: nat, half: nat)
    ensures BitAnd(x, 2 * half) == 2 * BitAnd(x / 2, half)
  {
  }

  /** (size + A - 1) & ~(A - 1) for the alignment A = 2^k, where size_t has w bits. */
  function PadAlign(size: nat, k: nat, w: nat): nat
    requires k < w
  {
    Pow2Ordered(k, w);
    BitAnd((size + Pow2(k) - 1) % Pow2(w), Pow2(w) - Pow2(k))
  }

  lemma {:induction false} RoundDown(y: nat, a: nat)
    requires 1 <= a
    ensures (y - y % a) % a == 0 && y - a < y - y % a <= y
  {
    assert y == a * (y / a) + y % a;
    DivisionUnique(y - y % a, a, y / a, 0);
  }

  /** A multiple of a that is above r - a is at least r, if r is one too. */
  lemma {:induction false} MultiplesApart(a: nat, z: nat, r: nat)
    requires 1 <= a && z % a == 0 && r % a == 0 && r - a < z
    ensures r <= z
  {
    var d := z / a - r / a;
    assert a * d == a * (z / a) - a * (r / a) == z - r;
    ScaledApart(a, d);
  }

  lemma {:induction false} PadAlignRounds(size: nat, k: nat, w: nat)
    requires k < w && size + Pow2(k) - 1 < Pow2(w)
    ensures var y := size + Pow2(k) - 1;
            PadAlign(size, k, w) == y - y % Pow2(k)
  {
    var y := size + Pow2(k) - 1;
    DivisionUnique(y, Pow2(w), 0, y);
    MaskClearsLowBits(y, w, k);
  }

  /** cc_pad_align yields the least multiple of the alignment that is not below its argument. */
  lemma {:induction false} PadAlignIsLeast(size: nat, k: nat, w: nat)
    requires k < w && size + Pow2(k) - 1 < Pow2(w)
    ensures var r := PadAlign(size, k, w);
            && r % Pow2(k) == 0 && size <= r < size + Pow2(k)
            && forall z: nat | z % Pow2(k) == 0 && size <= z :: r <= z
  {
    var a, r := Pow2(k), PadAlign(size, k, w);
    PadAlignRounds(size, k, w);
    RoundDown(size + a - 1, a);
    forall z: nat | z % a == 0 && size <= z
      ensures r <= z
    {
      MultiplesApart(a, z, r);
    }
  }

  // ----- Digest and HMAC contexts -----

  const SIZEOF_UINT64: nat := 8
  const SIZEOF_UINT: nat := 4

  function DigestCtxSize(stateSize: nat, blockSize: nat): nat {
    stateSize + SIZEOF_UINT64 + blockSize + SIZEOF_UINT
  }

  function HmacCtxSize(stateSize: nat, blockSize: nat, k: nat, w: nat): nat
    requires k < w
  {
    PadAlign(DigestCtxSize(stateSize, blockSize), k, w) + stateSize
  }

  // What the accessor macros address.
  function Nbits(): Region { Region(0, SIZEOF_UINT64) }
  function State(stateSize: nat): Region { Region(SIZEOF_UINT64, stateSize) }
  function Data(stateSize: nat, blockSize: nat): Region { Region(stateSize + SIZEOF_UINT64, blockSize) }
  function Num(stateSize: nat, blockSize: nat): Region { Region(stateSize + SIZEOF_UINT64 + blockSize, SIZEOF_UINT) }

  /** cchmac_ostate, the outer state. */
  function Ostate(stateSize: nat, blockSize: nat, k: nat, w: nat): Region
    requires k < w
  {
    Region(PadAlign(DigestCtxSize(stateSize, blockSize), k, w), stateSize)
  }

  /** The padding between the digest context and the outer state, which no accessor addresses. */
  function Padding(stateSize: nat, blockSize: nat, k: nat, w: nat): Region
    requires k < w && DigestCtxSize(stateSize, blockSize) <= Ostate(stateSize, blockSize, k, w).start
  {
    var size := DigestCtxSize(stateSize, blockSize);
    Region(size, Ostate(stateSize, blockSize, k, w).start - size)
  }

  /** The first 8 bytes are nbits, then come the state and the block, and num is the last 4 bytes. */
  lemma {:induction false} DigestTiling(stateSize: nat, blockSize: nat)
    ensures Tiles([Nbits(), State(stateSize), Data(stateSize, blockSize), Num(stateSize, blockSize)],
                  0, DigestCtxSize(stateSize, blockSize))
    ensures Nbits().size == 8 && State(stateSize).size == stateSize && Data(stateSize, blockSize).size == blockSize
    ensures Num(stateSize, blockSize).size == 4 && DigestCtxSize(stateSize, blockSize) == 8 + stateSize + blockSize + 4
  {
  }

  /** For every state and block size and alignment the accessors cut the context exactly into their
      fields. The outer state starts at the first aligned address behind the digest context and ends
      where the HMAC context does. */
  lemma {:induction false} HmacTiling(stateSize: nat, blockSize: nat, k: nat, w: nat)
    requires k < w && DigestCtxSize(stateSize, blockSize) + Pow2(k) - 1 < Pow2(w)
    ensures var ostate := Ostate(stateSize, blockSize, k, w);
            && ostate.size == stateSize && ostate.End() == HmacCtxSize(stateSize, blockSize, k, w)
            && ostate.start % Pow2(k) == 0
            && 0 <= ostate.start - (8 + stateSize + blockSize + 4) < Pow2(k)
    ensures Tiles([Nbits(), State(stateSize), Data(stateSize, blockSize), Num(stateSize, blockSize),
                   Padding(stateSize, blockSize, k, w), Ostate(stateSize, blockSize, k, w)],
                  0, HmacCtxSize(stateSize, blockSize, k, w))
  {
    PadAlignIsLeast(DigestCtxSize(stateSize, blockSize), k, w);
    var digest := [Nbits(), State(stateSize), Data(stateSize, blockSize), Num(stateSize, blockSize)];
    var behind := [Padding(stateSize, blockSize, k, w), Ostate(stateSize, blockSize, k, w)];
    DigestTiling(stateSize, blockSize);
    TilesConcat(digest, behind, 0, DigestCtxSize(stateSize, blockSize), HmacCtxSize(stateSize, blockSize, k, w));
    assert digest + behind == [digest[0], digest[1], digest[2], digest[3], behind[0], behind[1]];
  }

  /** So no write through one accessor changes what another reads. */
  lemma {:induction false} HmacNonInterference(
    stateSize: nat, blockSize: nat, k: nat, w: nat, mem: Memory, i: nat, j: nat, bytes: Memory)
    requires k < w && DigestCtxSize(stateSize, blockSize) + Pow2(k) - 1 < Pow2(w)
    ensures DigestCtxSize(stateSize, blockSize) <= Ostate(stateSize, blockSize, k, w).start
    ensures var rs := [Nbits(), State(stateSize), Data(stateSize, blockSize), Num(stateSize, blockSize),
                       Padding(stateSize, blockSize, k, w), Ostate(stateSize, blockSize, k, w)];
            HmacCtxSize(stateSize, blockSize, k, w) <= |mem| && i < 6 && j < 6 && |bytes| == rs[i].size ==>
              && rs[i].End() <= |mem| && rs[j].End() <= |mem|
              && Read(Write(mem, rs[i], bytes), rs[j]) == if i == j then bytes else Read(mem, rs[j])
  {
    HmacTiling(stateSize, blockSize, k, w);
    var rs := [Nbits(), State(stateSize), Data(stateSize, blockSize), Num(stateSize, blockSize),
               Padding(stateSize, blockSize, k, w), Ostate(stateSize, blockSize, k, w)];
    if HmacCtxSize(stateSize, blockSize, k, w) <= |mem| && i < 6 && j < 6 && |bytes| == rs[i].size {
      NonInterference(mem, rs, 0, HmacCtxSize(stateSize, blockSize, k, w), i, j, bytes);
    }
  }

  // ----- RSA contexts -----

  type UnitSize = u: int | u == 4 || u == 8 witness 8

  /** ccn_sizeof_n; a unit has 4 or 8 bytes. */
  function SizeofN(n: nat, unit: UnitSize): nat {
    if unit == 4 then 4 * n else 8 * n
  }

  /** ccn_nof_size: units of `unit` bytes needed for `size` bytes. */
  function UnitsFor(size: nat, unit: UnitSize): nat {
    if unit == 4 then (size + 3) / 4 else (size + 7) / 8
  }

  // The size macros, in terms of the units n = ccn_nof_size(nbytes) of the modulus and n/2 + 1 of a
  // prime. The header of a cczp has three fields; `header` is its size, where ccn[] starts.

  function PubCtxUnits(n: nat, unit: UnitSize, header: nat): nat {
    header + unit + 3 * SizeofN(n, unit)
  }

  function PrivCtxUnits(n: nat, zpN: nat, unit: UnitSize, header: nat): nat {
    SizeofN(n, unit) + (header + unit) * 2 + 7 * SizeofN(zpN, unit)
  }

  function PubCtxSize(nbytes: nat, unit: UnitSize, header: nat): nat {
    PubCtxUnits(UnitsFor(nbytes, unit), unit, header)
  }

  function FullCtxSize(nbytes: nat, unit: UnitSize, header: nat): nat {
    PubCtxSize(nbytes, unit, header)
    + PrivCtxUnits(UnitsFor(nbytes, unit), UnitsFor(nbytes, unit) / 2 + 1, unit, header)
  }

  // Byte offsets of the accessor macros; n is the size of the modulus in units, zpN that of a prime.
  function OffsetM(header: nat): nat { header }
  function OffsetE(n: nat, unit: UnitSize, header: nat): nat { header + SizeofN(2 * n + 1, unit) }
  function OffsetD(n: nat, unit: UnitSize, header: nat): nat { header + SizeofN(3 * n + 1, unit) }
  function OffsetZq(zp: nat, zpN: nat, unit: UnitSize, header: nat): nat { zp + header + SizeofN(2 * zpN + 1, unit) }
  function OffsetDp(zq: nat, zpN: nat, unit: UnitSize, header: nat): nat { zq + header + SizeofN(2 * zpN + 1, unit) }
  function OffsetDq(dp: nat, zpN: nat, unit: UnitSize): nat { dp + SizeofN(zpN, unit) }
  function OffsetQinv(dq: nat, zpN: nat, unit: UnitSize): nat { dq + SizeofN(zpN, unit) }

  /** Where everything lies for zp right behind d: the public key, then the private key. A cczp is
      followed by the number, its inverse word and its r2. */
  function RsaRegions(n: nat, zpN: nat, unit: UnitSize, header: nat): seq<Region> {
    var m, e, d := OffsetM(header), OffsetE(n, unit, header), OffsetD(n, unit, header);
    var zp := d + SizeofN(n, unit);
    var zq := OffsetZq(zp, zpN, unit, header);
    var dp := OffsetDp(zq, zpN, unit, header);
    var dq := OffsetDq(dp, zpN, unit);
    var full, half := SizeofN(n, unit), SizeofN(zpN, unit);
    [Region(0, header), Region(m, full), Region(m + full, unit), Region(m + full + unit, full), Region(e, full),
     Region(d, full),
     Region(zp, header), Region(zp + header, half), Region(zp + header + half, unit), Region(zp + header + half + unit, half),
     Region(zq, header), Region(zq + header, half), Region(zq + header + half, unit), Region(zq + header + half + unit, half),
     Region(dp, half), Region(dq, half), Region(OffsetQinv(dq, zpN, unit), half)]
  }

  /** ccn_nof_size is the least number of units that hold `size` bytes. */
  lemma {:induction false} UnitsForIsLeast(size: nat, unit: UnitSize)
    ensures SizeofN(UnitsFor(size, unit), unit) == UnitsFor(size, unit) * unit
    ensures size <= UnitsFor(size, unit) * unit < size + unit
  {
  }

  /** Which region is which, with its size: zm with m, its inverse word and r2; e; d; zp and zq, each with a
      prime, its inverse word and r2; dp, dq and qinv. */
  lemma {:induction false} RsaAccessors(n: nat, zpN: nat, unit: UnitSize, header: nat, i: nat)
    requires i < 17
    ensures var full, half := n * unit, zpN * unit;
            var rs := RsaRegions(n, zpN, unit, header);
            && |rs| == 17
            && rs[i].size == [header, full, unit, full, full, full, header, half, unit, half,
                              header, half, unit, half, half, half, half][i]
            && rs[1].start == OffsetM(header) && rs[4].start == OffsetE(n, unit, header)
            && rs[5].start == OffsetD(n, unit, header)
            && rs[10].start == OffsetZq(rs[6].start, zpN, unit, header)
            && rs[14].start == OffsetDp(rs[10].start, zpN, unit, header)
            && rs[15].start == OffsetDq(rs[14].start, zpN, unit)
            && rs[16].start == OffsetQinv(rs[15].start, zpN, unit)
  {
  }

  lemma {:induction false} RsaSizes(n: nat, zpN: nat, unit: UnitSize, header: nat)
    ensures var rs := RsaRegions(n, zpN, unit, header);
            && rs[5].start == PubCtxUnits(n, unit, header)
            && rs[16].End() == PubCtxUnits(n, unit, header) + PrivCtxUnits(n, zpN, unit, header)
  {
  }

  lemma {:induction false} RsaAdjacent(n: nat, zpN: nat, unit: UnitSize, header: nat, i: nat)
    requires i < 16
    ensures Adjacent(RsaRegions(n, zpN, unit, header), i)
  {
  }

  /** For every modulus size the accessor chain tiles exactly the bytes the size macro allocates, and
      the public key by itself is the tiled prefix before d. */
  lemma {:induction false} RsaTiling(nbytes: nat, n: nat, zpN: nat, unit: UnitSize, header: nat)
    requires n == UnitsFor(nbytes, unit) && zpN == n / 2 + 1
    ensures var rs := RsaRegions(n, zpN, unit, header);
            Tiles(rs, 0, FullCtxSize(nbytes, unit, header)) && Tiles(rs[..5], 0, PubCtxSize(nbytes, unit, header))
  {
    var rs := RsaRegions(n, zpN, unit, header);
    forall i | 0 <= i < 16
      ensures Adjacent(rs, i)
    {
      RsaAdjacent(n, zpN, unit, header, i);
    }
    RsaSizes(n, zpN, unit, header);
    TilesPrefix(rs, 0, rs[16].End(), 5);
  }
}
