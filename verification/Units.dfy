/** Packing of channel ids and units into 64 bits. */
module Units {

  type Byte = c: bv64 | c <= 0xff

  // ----- IOREPORT_MAKEID -----

  /** (uint64_t)(c): a char that is negative where char is signed fills the upper bits. */
  function Extend(c: Byte, signedChar: bool): bv64 {
    if signedChar && Negative(c) then 0xffff_ffff_ffff_ff00 | c else c
  }

  predicate Negative(c: Byte) {
    c & 0x80 != 0
  }

  /** The eight characters, the first one in the top byte. */
  function MakeId(a: Byte, b: Byte, c: Byte, d: Byte, e: Byte, f: Byte, g: Byte, h: Byte, signedChar: bool): bv64 {
    (Extend(a, signedChar) << 56) | (Extend(b, signedChar) << 48) | (Extend(c, signedChar) << 40)
    | (Extend(d, signedChar) << 32) | (Extend(e, signedChar) << 24) | (Extend(f, signedChar) << 16)
    | (Extend(g, signedChar) << 8) | Extend(h, signedChar)
  }

  /** The bytes of the id, top byte first, are the eight characters. */
  predicate Spells(id: bv64, a: Byte, b: Byte, c: Byte, d: Byte, e: Byte, f: Byte, g: Byte, h: Byte) {
    && (id >> 56) & 0xff == a && (id >> 48) & 0xff == b && (id >> 40) & 0xff == c && (id >> 32) & 0xff == d
    && (id >> 24) & 0xff == e && (id >> 16) & 0xff == f && (id >> 8) & 0xff == g && id & 0xff == h
  }

  /** A character survives unless a later one is negative and fills it with ones. */
  predicate Survives(c: Byte, laterNegative: bool) {
    laterNegative ==> c == 0xff
  }

  /** What is in the byte of a character: itself, or ones where a later character is negative and signed. */
  function Shown(c: bv64, laterNegative: bool): bv64 {
    if laterNegative then 0xff else c
  }

  /** Every byte of the id, for signed and unsigned characters: the first and second, ... */
  lemma {:induction false} TopBytesOfId(
    a: Byte, b: Byte, c: Byte, d: Byte, e: Byte, f: Byte, g: Byte, h: Byte, signedChar: bool)
    ensures var id := MakeId(a, b, c, d, e, f, g, h, signedChar);
            var b' := signedChar && (Negative(c) || Negative(d) || Negative(e) || Negative(f) || Negative(g) || Negative(h));
            var a' := b' || (signedChar && Negative(b));
            (id >> 56) & 0xff == Shown(a, a') && (id >> 48) & 0xff == Shown(b, b')
  {
  }

  /** ... the third and fourth, ... */
  lemma {:induction false} UpperBytesOfId(
    a: Byte, b: Byte, c: Byte, d: Byte, e: Byte, f: Byte, g: Byte, h: Byte, signedChar: bool)
    ensures var id := MakeId(a, b, c, d, e, f, g, h, signedChar);
            var d' := signedChar && (Negative(e) || Negative(f) || Negative(g) || Negative(h));
            var c' := d' || (signedChar && Negative(d));
            (id >> 40) & 0xff == Shown(c, c') && (id >> 32) & 0xff == Shown(d, d')
  {
  }

  /** ... the fifth and sixth, ... */
  lemma {:induction false} LowerBytesOfId(
    a: Byte, b: Byte, c: Byte, d: Byte, e: Byte, f: Byte, g: Byte, h: Byte, signedChar: bool)
    ensures var id := MakeId(a, b, c, d, e, f, g, h, signedChar);
            var f' := signedChar && (Negative(g) || Negative(h));
            var e' := f' || (signedChar && Negative(f));
            (id >> 24) & 0xff == Shown(e, e') && (id >> 16) & 0xff == Shown(f, f')
  {
  }

  /** ... and the last two. */
  lemma {:induction false} LastBytesOfId(
    a: Byte, b: Byte, c: Byte, d: Byte, e: Byte, f: Byte, g: Byte, h: Byte, signedChar: bool)
    ensures var id := MakeId(a, b, c, d, e, f, g, h, signedChar);
            (id >> 8) & 0xff == Shown(g, signedChar && Negative(h)) && id & 0xff == h
  {
  }

  /** With unsigned characters the id always spells the name back; with signed ones exactly when every
      character before a negative one survives being filled. */
  lemma {:induction false} IdSpellsNameIff(
    a: Byte, b: Byte, c: Byte, d: Byte, e: Byte, f: Byte, g: Byte, h: Byte, signedChar: bool)
    ensures Spells(MakeId(a, b, c, d, e, f, g, h, signedChar), a, b, c, d, e, f, g, h) <==>
            !signedChar ||
            (var g' := Negative(h); var f' := g' || Negative(g); var e' := f' || Negative(f);
             var d' := e' || Negative(e); var c' := d' || Negative(d); var b' := c' || Negative(c);
             var a' := b' || Negative(b);
             Survives(a, a') && Survives(b, b') && Survives(c, c') && Survives(d, d') && Survives(e, e')
             && Survives(f, f') && Survives(g, g'))
  {
  }

  // ----- __IOR_MAKEUNIT -----

  function MakeUnit(quantity: Byte, scale: bv64): bv64 {
    (quantity << 56) | scale
  }

  function GetQuantity(unit: bv64): bv64 {
    (unit >> 56) & 0xff
  }

  function GetScale(unit: bv64): bv64 {
    unit & 0x00ff_ffff_ffff_ffff
  }

  /** A long long from -126 to 128, in two's complement. */
  type Exponent = e: bv64 | 1 <= e + 127 <= 0xff

  /** kIOReportExpZeroOffset is added; an encoded exponent of 0 stands for unity. */
  function Bias(e: Exponent): Byte {
    e + 127
  }

  function Unbias(b: bv64): bv64 {
    b - 127
  }

  /** A scale: 31-bit constant or its reciprocal, decimal and binary exponent, cardinal. */
  function MakeScale(constant: bv64, oneOver: bool, si: Exponent, iec: Exponent, cardinal: Byte): bv64 {
    Combine(constant, oneOver, Bias(si), Bias(iec), cardinal)
  }

  function Combine(constant: bv64, oneOver: bool, si: Byte, iec: Byte, cardinal: Byte): bv64 {
    constant | (if oneOver then 1 << 31 else 0) | (si << 32) | (iec << 40) | (cardinal << 48)
  }

  // What the scale masks select.
  function ConstBits(scale: bv64): bv64 { scale & 0x0000_0000_7fff_ffff }
  function OneOverBit(scale: bv64): bv64 { scale & (1 << 31) }
  function SiBits(scale: bv64): bv64 { scale & 0x0000_00ff_0000_0000 }
  function IecBits(scale: bv64): bv64 { scale & 0x0000_ff00_0000_0000 }
  function CardinalBits(scale: bv64): bv64 { scale & 0x00ff_0000_0000_0000 }

  /** Quantity and scale come back exactly when the scale fits in 56 bits. */
  lemma {:induction false} UnitLosslessIff(quantity: Byte, scale: bv64)
    ensures GetQuantity(MakeUnit(quantity, scale)) == quantity && GetScale(MakeUnit(quantity, scale)) == scale
            <==> scale <= 0x00ff_ffff_ffff_ffff
  {
  }

  /** The masks partition the 56 bits of a scale: what they select, no two selections sharing a bit, makes
      up the whole scale and nothing of the quantity. */
  lemma {:induction false} MasksPartition(unit: bv64)
    ensures GetQuantity(unit) == unit >> 56
    ensures ConstBits(unit) == unit & 0x7fff_ffff && OneOverBit(unit) == unit & 0x8000_0000
    ensures SiBits(unit) == unit & 0xff_0000_0000 && IecBits(unit) == unit & 0xff00_0000_0000
    ensures CardinalBits(unit) == unit & 0xff_0000_0000_0000 && GetScale(unit) == unit & 0xff_ffff_ffff_ffff
    ensures ConstBits(unit) | OneOverBit(unit) | SiBits(unit) | IecBits(unit) | CardinalBits(unit) == GetScale(unit)
    ensures ConstBits(unit) & OneOverBit(unit) == 0 && (ConstBits(unit) | OneOverBit(unit)) & SiBits(unit) == 0
    ensures (ConstBits(unit) | OneOverBit(unit) | SiBits(unit)) & IecBits(unit) == 0
    ensures (ConstBits(unit) | OneOverBit(unit) | SiBits(unit) | IecBits(unit)) & CardinalBits(unit) == 0
  {
  }

  lemma {:induction false} CombineLossless(
    quantity: Byte, constant: bv64, oneOver: bool, si: Byte, iec: Byte, cardinal: Byte)
    requires constant <= 0x7fff_ffff
    ensures var unit := MakeUnit(quantity, Combine(constant, oneOver, si, iec, cardinal));
            && GetQuantity(unit) == quantity
            && ConstBits(unit) == constant && (OneOverBit(unit) != 0 <==> oneOver)
            && SiBits(unit) >> 32 == si && IecBits(unit) >> 40 == iec && CardinalBits(unit) >> 48 == cardinal
  {
  }

  /** The bias is 127, and it is removed again. */
  lemma {:induction false} BiasRoundTrip(e: Exponent)
    ensures Bias(e) - e == 127 && Unbias(Bias(e)) == e
  {
  }

  /** Every field packed into a unit is read back by its mask, exponents with their bias removed. */
  lemma {:induction false} ScaleLossless(
    quantity: Byte, constant: bv64, oneOver: bool, si: Exponent, iec: Exponent, cardinal: Byte)
    requires constant <= 0x7fff_ffff
    ensures var unit := MakeUnit(quantity, MakeScale(constant, oneOver, si, iec, cardinal));
            && GetQuantity(unit) == quantity
            && ConstBits(unit) == constant && (OneOverBit(unit) != 0 <==> oneOver)
            && Unbias(SiBits(unit) >> 32) == si && Unbias(IecBits(unit) >> 40) == iec
            && CardinalBits(unit) >> 48 == cardinal
  {
    CombineLossless(quantity, constant, oneOver, Bias(si), Bias(iec), cardinal);
    BiasRoundTrip(si);
    BiasRoundTrip(iec);
  }
}
