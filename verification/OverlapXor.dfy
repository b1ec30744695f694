/** cc_xor on buffers that may overlap: r, s and t are offsets into one memory. */
module OverlapXor {

  datatype Byte = Byte(bits: bv8) {
    function Xor(other: Byte): Byte {
      Byte(bits ^ other.bits)
    }
  }

  /** For each of the eight bits: it is set in z exactly when it is set in one of x and y only. */
  predicate BitsDiffer(z: bv8, x: bv8, y: bv8) {
    && (z & 1 != 0 <==> (x & 1 != 0) != (y & 1 != 0))
    && (z & 2 != 0 <==> (x & 2 != 0) != (y & 2 != 0))
    && (z & 4 != 0 <==> (x & 4 != 0) != (y & 4 != 0))
    && (z & 8 != 0 <==> (x & 8 != 0) != (y & 8 != 0))
    && (z & 16 != 0 <==> (x & 16 != 0) != (y & 16 != 0))
    && (z & 32 != 0 <==> (x & 32 != 0) != (y & 32 != 0))
    && (z & 64 != 0 <==> (x & 64 != 0) != (y & 64 != 0))
    && (z & 128 != 0 <==> (x & 128 != 0) != (y & 128 != 0))
  }

  predicate Differences(z: Byte, x: Byte, y: Byte) {
    BitsDiffer(z.bits, x.bits, y.bits)
  }

  /** A byte is the exclusive or exactly when each of its bits is. */
  lemma {:induction false} XorIff(z: Byte, x: Byte, y: Byte)
    ensures z == x.Xor(y) <==> Differences(z, x, y)
  {
    assert z == x.Xor(y) <==> z.bits == x.bits ^ y.bits;
    BitsIff(z.bits, x.bits, y.bits);
  }

  lemma {:induction false} BitsIff(z: bv8, x: bv8, y: bv8)
    ensures z == x ^ y <==> BitsDiffer(z, x, y)
  {
  }

  const ZERO := Byte(0)
  const ONE := Byte(1)

  predicate Fits(length: nat, size: nat, r: nat, s: nat, t: nat) {
    r + size <= length && s + size <= length && t + size <= length
  }

  /** The memory after the countdown loop has run from k down to 0. */
  function XorDown(m: seq<Byte>, k: nat, r: nat, s: nat, t: nat): (m': seq<Byte>)
    requires Fits(|m|, k, r, s, t)
    ensures |m'| == |m|
    decreases k
  {
    if k == 0 then m else XorDown(m[r + k - 1 := m[s + k - 1].Xor(m[t + k - 1])], k - 1, r, s, t)
  }

  method Xor(mem: array<Byte>, size: nat, r: nat, s: nat, t: nat)
    requires Fits(mem.Length, size, r, s, t)
    modifies mem
    ensures mem[..] == XorDown(old(mem[..]), size, r, s, t)
    ensures s == t || (Safe(size, r, s) && Safe(size, r, t)) ==> IsXor(old(mem[..]), mem[..], size, r, s, t)
  {
    var k := size;
    while k != 0
      invariant 0 <= k <= size
      invariant XorDown(old(mem[..]), size, r, s, t) == XorDown(mem[..], k, r, s, t)
    {
      k := k - 1;
      ghost var before := mem[..];
      mem[r + k] := mem[s + k].Xor(mem[t + k]);
      assert mem[..] == before[r + k := before[s + k].Xor(before[t + k])];
    }
    if s == t || (Safe(size, r, s) && Safe(size, r, t)) {
      SafeIsXor(old(mem[..]), size, r, s, t);
    }
  }

  /** m' is m with r replaced by the xor of the ORIGINAL s and t, bit by bit, and nothing else changed. */
  ghost predicate IsXor(m: seq<Byte>, m': seq<Byte>, size: nat, r: nat, s: nat, t: nat)
    requires Fits(|m|, size, r, s, t)
  {
    && |m'| == |m|
    && (forall a | r <= a < r + size :: Differences(m'[a], m[s + (a - r)], m[t + (a - r)]))
    && (forall a | 0 <= a < |m| && !(r <= a < r + size) :: m'[a] == m[a])
  }

  /** What the loop reads at address a when it computes byte i: the new value if already written. */
  function Seen(m: seq<Byte>, m': seq<Byte>, size: nat, r: nat, i: nat, a: nat): Byte
    requires |m| == |m'| && a < |m|
  {
    if r + i < a < r + size then m'[a] else m[a]
  }

  lemma {:induction false} XorDownFrame(m: seq<Byte>, k: nat, r: nat, s: nat, t: nat, a: nat)
    requires Fits(|m|, k, r, s, t) && a < |m| && !(r <= a < r + k)
    ensures XorDown(m, k, r, s, t)[a] == m[a]
    decreases k
  {
    if 0 < k {
      XorDownFrame(m[r + k - 1 := m[s + k - 1].Xor(m[t + k - 1])], k - 1, r, s, t, a);
    }
  }

  lemma {:induction false} XorDownByte(m: seq<Byte>, k: nat, r: nat, s: nat, t: nat, i: nat)
    requires Fits(|m|, k, r, s, t) && i < k
    ensures var m' := XorDown(m, k, r, s, t);
            m'[r + i] == Seen(m, m', k, r, i, s + i).Xor(Seen(m, m', k, r, i, t + i))
    decreases k
  {
    var v := m[s + k - 1].Xor(m[t + k - 1]);
    var m1 := m[r + k - 1 := v];
    var m' := XorDown(m1, k - 1, r, s, t);
    XorDownFrame(m1, k - 1, r, s, t, r + k - 1);
    if i < k - 1 {
      XorDownByte(m1, k - 1, r, s, t, i);
      SeenShift(m, m', k, r, i, s + i, v);
      SeenShift(m, m', k, r, i, t + i, v);
    }
  }

  /** For every overlap, each byte of r is the xor, bit by bit, of the two bytes the loop saw. */
  lemma {:induction false} XorDownAt(m: seq<Byte>, k: nat, r: nat, s: nat, t: nat, i: nat)
    requires Fits(|m|, k, r, s, t) && i < k
    ensures var m' := XorDown(m, k, r, s, t);
            Differences(m'[r + i], Seen(m, m', k, r, i, s + i), Seen(m, m', k, r, i, t + i))
  {
    var m' := XorDown(m, k, r, s, t);
    XorDownByte(m, k, r, s, t, i);
    XorIff(m'[r + i], Seen(m, m', k, r, i, s + i), Seen(m, m', k, r, i, t + i));
  }

  lemma {:induction false} SeenShift(m: seq<Byte>, m': seq<Byte>, k: nat, r: nat, i: nat, a: nat, v: Byte)
    requires |m| == |m'| && a < |m| && i + 1 < k && r + k <= |m| && m'[r + k - 1] == v
    ensures Seen(m[r + k - 1 := v], m', k - 1, r, i, a) == Seen(m, m', k, r, i, a)
  {
  }

  /** r starts at or above the source, or lies wholly below it. */
  predicate Safe(size: nat, r: nat, s: nat) {
    s <= r || r + size <= s
  }

  lemma {:induction false} SafeAt(m: seq<Byte>, size: nat, r: nat, s: nat, t: nat, i: nat)
    requires Fits(|m|, size, r, s, t) && i < size
    requires s == t || (Safe(size, r, s) && Safe(size, r, t))
    ensures XorDown(m, size, r, s, t)[r + i] == m[s + i].Xor(m[t + i])
  {
    XorDownByte(m, size, r, s, t, i);
    if s == t {
      XorSelf(Seen(m, XorDown(m, size, r, s, t), size, r, i, s + i));
      XorSelf(m[s + i]);
    }
  }

  lemma {:induction false} SafeIsXor(m: seq<Byte>, size: nat, r: nat, s: nat, t: nat)
    requires Fits(|m|, size, r, s, t)
    requires s == t || (Safe(size, r, s) && Safe(size, r, t))
    ensures IsXor(m, XorDown(m, size, r, s, t), size, r, s, t)
  {
    var m' := XorDown(m, size, r, s, t);
    forall a | r <= a < r + size
      ensures Differences(m'[a], m[s + (a - r)], m[t + (a - r)])
    {
      SafeAt(m, size, r, s, t, a - r);
      XorIff(m'[a], m[s + (a - r)], m[t + (a - r)]);
    }
    forall a | 0 <= a < |m| && !(r <= a < r + size)
      ensures m'[a] == m[a]
    {
      XorDownFrame(m, size, r, s, t, a);
    }
  }

  lemma {:induction false} XorSelf(x: Byte)
    ensures x.Xor(x) == ZERO
  {
  }

  /** A memory of zeros with a single 1. */
  function Spike(length: nat, at: nat): (m: seq<Byte>)
    ensures |m| == length
  {
    seq(length, a => if a == at then ONE else ZERO)
  }

  /** With r inside the lower of two different sources, the last byte is clobbered before it is read. */
  lemma {:induction false} UnsafeFails(length: nat, size: nat, r: nat, s: nat, t: nat)
    requires Fits(length, size, r, s, t) && !Safe(size, r, s) && s != t
    requires Safe(size, r, t) || s < t
    ensures var m := Spike(length, s + size - 1);
            !IsXor(m, XorDown(m, size, r, s, t), size, r, s, t)
            && !IsXor(m, XorDown(m, size, r, t, s), size, r, t, s)
  {
    var m := Spike(length, s + size - 1);
    var i := size - 1 - (s - r);
    XorDownByte(m, size, r, s, t, i);
    XorDownByte(m, size, r, t, s, i);
    XorDownByte(m, size, r, s, t, size - 1);
    XorDownByte(m, size, r, t, s, size - 1);
    var m1, m2 := XorDown(m, size, r, s, t), XorDown(m, size, r, t, s);
    assert s + i == r + size - 1 && r + i < s + i;
    assert m1[r + size - 1] == m[s + size - 1].Xor(m[t + size - 1]) == ONE;
    assert m2[r + size - 1] == m[t + size - 1].Xor(m[s + size - 1]) == ONE;
    assert m1[r + i] == ONE.Xor(m[t + i]) && m2[r + i] == m[t + i].Xor(ONE);
    assert m[s + i] == ZERO;
    XorOneDiffers(m[t + i]);
    XorIff(m1[r + i], m[s + i], m[t + i]);
    XorIff(m2[r + i], m[t + i], m[s + i]);
    assert m1[r + i] != m[s + i].Xor(m[t + i]) && m2[r + i] != m[t + i].Xor(m[s + i]);
  }

  lemma {:induction false} XorOneDiffers(x: Byte)
    ensures ONE.Xor(x) != ZERO.Xor(x) && x.Xor(ONE) != x.Xor(ZERO)
  {
  }

  /** cc_xor computes the xor of the original buffers, whatever they hold, exactly when the sources
      are one and the same or both are safe. */
  lemma {:induction false} XorCorrectIff(length: nat, size: nat, r: nat, s: nat, t: nat)
    requires Fits(length, size, r, s, t)
    ensures (forall m: seq<Byte> | |m| == length :: IsXor(m, XorDown(m, size, r, s, t), size, r, s, t))
            <==> s == t || (Safe(size, r, s) && Safe(size, r, t))
  {
    if s == t || (Safe(size, r, s) && Safe(size, r, t)) {
      forall m: seq<Byte> | |m| == length
        ensures IsXor(m, XorDown(m, size, r, s, t), size, r, s, t)
      {
        SafeIsXor(m, size, r, s, t);
      }
    } else if !Safe(size, r, s) && (Safe(size, r, t) || s < t) {
      UnsafeFails(length, size, r, s, t);
    } else {
      UnsafeFails(length, size, r, t, s);
    }
  }

  // ----- In place, twice -----

  function Twice(m: seq<Byte>, size: nat, r: nat, t: nat): seq<Byte>
    requires Fits(|m|, size, r, r, t)
  {
    XorDown(XorDown(m, size, r, r, t), size, r, r, t)
  }

  lemma {:induction false} TwiceRestores(m: seq<Byte>, size: nat, r: nat, t: nat)
    requires Fits(|m|, size, r, r, t) && (r + size <= t || t + size <= r)
    ensures Twice(m, size, r, t) == m
  {
    var m1 := XorDown(m, size, r, r, t);
    var m2 := Twice(m, size, r, t);
    forall a | 0 <= a < |m|
      ensures m2[a] == m[a]
    {
      if r <= a < r + size {
        var i := a - r;
        SafeAt(m, size, r, r, t, i);
        SafeAt(m1, size, r, r, t, i);
        XorDownFrame(m, size, r, r, t, t + i);
        assert m2[r + i] == m1[r + i].Xor(m1[t + i]) == m[r + i].Xor(m[t + i]).Xor(m[t + i]);
        XorTwice(m[r + i], m[t + i]);
      } else {
        XorDownFrame(m, size, r, r, t, a);
        XorDownFrame(m1, size, r, r, t, a);
      }
    }
  }

  lemma {:induction false} XorTwice(x: Byte, y: Byte)
    ensures x.Xor(y).Xor(y) == x
  {
  }

  /** t at or below r but reaching into it. */
  lemma {:induction false} TwiceFailsFromBelow(length: nat, size: nat, r: nat, t: nat)
    requires Fits(length, size, r, r, t) && t <= r < t + size
    ensures Twice(Spike(length, t), size, r, t) != Spike(length, t)
  {
    var m := Spike(length, t);
    var m1 := XorDown(m, size, r, r, t);
    var i := r - t;
    SafeAt(m, size, r, r, t, 0);
    SafeAt(m, size, r, r, t, i);
    SafeAt(m1, size, r, r, t, i);
    assert m1[r + 0] == m[r + 0].Xor(m[t + 0]);
    assert m1[r + i] == m[r + i].Xor(m[t + i]);
    assert Twice(m, size, r, t)[r + i] == m1[r + i].Xor(m1[t + i]);
    assert t + i == r;
  }

  /** r below t but reaching into it. */
  lemma {:induction false} TwiceFailsFromAbove(length: nat, size: nat, r: nat, t: nat)
    requires Fits(length, size, r, r, t) && r < t < r + size
    ensures var m := Spike(length, t + size - 1);
            Twice(m, size, r, t) != m
  {
    var m := Spike(length, t + size - 1);
    var m1 := XorDown(m, size, r, r, t);
    var m2 := Twice(m, size, r, t);
    var last, i := size - 1, size - 1 - (t - r);
    XorDownByte(m, size, r, r, t, last);
    XorDownByte(m, size, r, r, t, i);
    XorDownFrame(m, size, r, r, t, t + last);
    XorDownByte(m1, size, r, r, t, last);
    XorDownByte(m1, size, r, r, t, i);
    assert m1[t + last] == m[t + last] == ONE;
    assert m1[r + last] == m[r + last].Xor(m[t + last]) == ONE;
    assert t + i == r + last;
    assert m1[r + i] == m[r + i].Xor(m1[r + last]) == ONE;
    assert m2[r + last] == m1[r + last].Xor(m1[t + last]) == ZERO;
    assert m2[r + i] == m1[r + i].Xor(m2[r + last]) == ONE;
    assert m[r + i] == ZERO;
  }

  /** Xoring the same t into r twice restores every memory exactly when the two do not overlap. */
  lemma {:induction false} TwiceRestoresIff(length: nat, size: nat, r: nat, t: nat)
    requires Fits(length, size, r, r, t)
    ensures (forall m: seq<Byte> | |m| == length :: Twice(m, size, r, t) == m)
            <==> r + size <= t || t + size <= r
  {
    if r + size <= t || t + size <= r {
      forall m: seq<Byte> | |m| == length
        ensures Twice(m, size, r, t) == m
      {
        TwiceRestores(m, size, r, t);
      }
    } else if t <= r {
      TwiceFailsFromBelow(length, size, r, t);
    } else {
      TwiceFailsFromAbove(length, size, r, t);
    }
  }
}
