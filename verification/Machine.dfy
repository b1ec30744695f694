/** Fixed-width integers of the target machine and the arithmetic the reporting macros do on them. */
module Machine {

  const TWO16: int := 0x1_0000
  const TWO31: int := 0x8000_0000
  const TWO32: int := 0x1_0000_0000
  const TWO63: int := 0x8000_0000_0000_0000
  const TWO64: int := 0x1_0000_0000_0000_0000

  const INT_MAX: int := TWO31 - 1
  const INT64_MAX: int := TWO63 - 1
  const INT64_MIN: int := -TWO63

  type uint8 = x: int | 0 <= x < 0x100
  type uint16 = x: int | 0 <= x < TWO16
  type uint32 = x: int | 0 <= x < TWO32
  type uint64 = x: int | 0 <= x < TWO64
  type int16 = x: int | -0x8000 <= x < 0x8000
  type int32 = x: int | -TWO31 <= x < TWO31
  type int64 = x: int | -TWO63 <= x < TWO63

  /** Unsigned 64-bit arithmetic keeps the low 64 bits. */
  function Wrap64(x: int): uint64 {
    x % TWO64
  }

  /** Assignment of an unsigned 16-bit value to a signed 16-bit field. */
  function ToInt16(x: uint16): int16 {
    if x < 0x8000 then x else x - TWO16
  }

  /** Assignment of an unsigned 32-bit value to an int. */
  function ToInt32(x: uint32): int32 {
    if x < TWO31 then x else x - TWO32
  }

  predicate FitsInt64(x: int) {
    INT64_MIN <= x <= INT64_MAX
  }

  /** os_add_overflow followed by the macros' overflow branch: EVERY overflow, also a negative one,
      stores INT64_MAX. */
  function SaturatingAdd(a: int64, b: int64): int64 {
    if FitsInt64(a + b) then a + b else INT64_MAX
  }

  /** What os_add_overflow stores: the low 64 bits, read as a signed number. */
  function WrapInt64(x: int): int64 {
    var u := x % TWO64;
    if u < TWO63 then u else u - TWO64
  }

  lemma {:induction false} WrapInt64OfFitting(x: int)
    requires FitsInt64(x)
    ensures WrapInt64(x) == x
  {
  }

  lemma {:induction false} ScaledApart(m: int, d: int)
    requires 0 <= m
    ensures d == 0 || m * d <= -m || m <= m * d
  {
  }

  /** Quotient and remainder are the only ones. */
  lemma {:induction false} DivisionUnique(x: nat, m: nat, q: int, r: nat)
    requires 1 <= m && x == m * q + r && r < m
    ensures x / m == q && x % m == r
  {
    var d := x / m - q;
    assert m * d == m * (x / m) - m * q == r - x % m;
    ScaledApart(m, d);
  }

  lemma {:induction false} ModShift(x: int, k: int)
    ensures (x + k * TWO32) % TWO32 == x % TWO32
  {
  }

  /** An int and its unsigned reading. */
  lemma {:induction false} UnsignedReading(w: int32)
    ensures w % TWO32 == if w < 0 then w + TWO32 else w
  {
  }

  /** Two integers that are equal as unsigned 64-bit values. */
  predicate Congruent64(a: int, b: int) {
    (a - b) % TWO64 == 0
  }

  /** Adding d with wrap-around to one term of a total adds d to the total, as unsigned values. */
  lemma {:induction false} CongruentReplace(total: int, x: int, d: int, target: int)
    requires Congruent64(total, target)
    ensures Congruent64(total - x + Wrap64(x + d), target + d)
  {
  }

  lemma {:induction false} UpdateTwice<T>(xs: seq<T>, k: nat, a: T, b: T)
    requires k < |xs|
    ensures xs[k := a][k := b] == xs[k := b]
  {
  }

  function Min(a: int, b: int): int {
    if a <= b then a else b
  }

  /** Sum of a sequence of integers. */
  function Sum(xs: seq<int>): int {
    if xs == [] then 0 else Sum(xs[..|xs| - 1]) + xs[|xs| - 1]
  }

  lemma {:induction false} SumUpdate(xs: seq<int>, i: nat, x: int)
    requires i < |xs|
    ensures Sum(xs[i := x]) == Sum(xs) - xs[i] + x
  {
    var ys := xs[i := x];
    var last := |xs| - 1;
    if i == last {
      assert ys[..last] == xs[..last];
    } else {
      assert ys[..last] == xs[..last][i := x];
      SumUpdate(xs[..last], i, x);
    }
  }

  lemma {:induction false} SumConcat(xs: seq<int>, ys: seq<int>)
    ensures Sum(xs + ys) == Sum(xs) + Sum(ys)
  {
    if ys == [] {
      assert xs + ys == xs;
    } else {
      assert (xs + ys)[..|xs + ys| - 1] == xs + ys[..|ys| - 1];
      SumConcat(xs, ys[..|ys| - 1]);
    }
  }

  lemma {:induction false} SumNonNegative(xs: seq<int>)
    requires forall i | 0 <= i < |xs| :: 0 <= xs[i]
    ensures 0 <= Sum(xs)
  {
    if xs != [] {
      SumNonNegative(xs[..|xs| - 1]);
    }
  }

  lemma {:induction false} SumOfZeros(xs: seq<int>)
    requires forall i | 0 <= i < |xs| :: xs[i] == 0
    ensures Sum(xs) == 0
  {
    if xs != [] {
      SumOfZeros(xs[..|xs| - 1]);
    }
  }

  lemma {:induction false} TermBelowSum(xs: seq<int>, i: nat)
    requires i < |xs| && forall k | 0 <= k < |xs| :: 0 <= xs[k]
    ensures xs[i] <= Sum(xs)
  {
    SumNonNegative(xs[..|xs| - 1]);
    if i < |xs| - 1 {
      TermBelowSum(xs[..|xs| - 1], i);
    }
  }

  function RemoveAt(xs: seq<int>, i: nat): seq<int>
    requires i < |xs|
  {
    xs[..i] + xs[i + 1..]
  }

  /** Removing one element takes exactly that element off the sum ... */
  lemma {:induction false} SumRemove(xs: seq<int>, i: nat)
    requires i < |xs|
    ensures Sum(RemoveAt(xs, i)) == Sum(xs) - xs[i]
  {
    assert xs == xs[..i] + ([xs[i]] + xs[i + 1..]);
    SumConcat(xs[..i], [xs[i]] + xs[i + 1..]);
    SumConcat([xs[i]], xs[i + 1..]);
    SumConcat(xs[..i], xs[i + 1..]);
    assert Sum([xs[i]]) == xs[i];
  }

  /** ... and off the multiset. */
  lemma {:induction false} MultisetRemove(xs: seq<int>, i: nat)
    requires i < |xs|
    ensures multiset(RemoveAt(xs, i)) == multiset(xs) - multiset{xs[i]}
  {
    assert xs == xs[..i] + ([xs[i]] + xs[i + 1..]);
  }

  /** A sum depends only on the multiset of its terms. */
  lemma {:induction false} SumPermutation(xs: seq<int>, ys: seq<int>)
    requires multiset(xs) == multiset(ys)
    ensures Sum(xs) == Sum(ys)
    decreases |xs|
  {
    if xs == [] {
      assert |multiset(ys)| == |ys|;
    } else {
      assert xs[0] in multiset(ys);
      var i :| 0 <= i < |ys| && ys[i] == xs[0];
      MultisetRemove(xs, 0);
      MultisetRemove(ys, i);
      SumPermutation(RemoveAt(xs, 0), RemoveAt(ys, i));
      SumRemove(xs, 0);
      SumRemove(ys, i);
    }
  }

  // ----- Saturating accumulation -----

  /** A counter that starts at `start` and takes the increments one by one. */
  function Accumulate(start: int64, xs: seq<int64>): int64 {
    if xs == [] then start else SaturatingAdd(Accumulate(start, xs[..|xs| - 1]), xs[|xs| - 1])
  }

  /** One more increment is added exactly while the exact result fits, and leaves the largest value when
      it would be too large or too small. */
  lemma {:induction false} IncrementOfRun(start: int64, xs: seq<int64>, x: int64)
    ensures var exact := Accumulate(start, xs) + x;
            Accumulate(start, xs + [x]) ==
            if -0x8000_0000_0000_0000 <= exact <= 0x7fff_ffff_ffff_ffff then exact else 0x7fff_ffff_ffff_ffff
  {
    assert (xs + [x])[..|xs|] == xs;
  }

  /** Saturating step by step is saturating once, when no increment is negative. */
  lemma {:induction false} AccumulateNonNegatives(start: int64, xs: seq<int64>)
    requires forall i | 0 <= i < |xs| :: 0 <= xs[i]
    ensures Accumulate(start, xs) == Min(INT64_MAX, start + Sum(xs))
  {
    if xs != [] {
      AccumulateNonNegatives(start, xs[..|xs| - 1]);
      SumNonNegative(xs[..|xs| - 1]);
    }
  }

  lemma {:induction false} AccumulateExact(start: int64, xs: seq<int64>, k: nat)
    requires k <= |xs| && forall j | 0 <= j <= |xs| :: FitsInt64(start + Sum(xs[..j]))
    ensures Accumulate(start, xs[..k]) == start + Sum(xs[..k])
  {
    if 0 < k {
      AccumulateExact(start, xs, k - 1);
      assert xs[..k][..k - 1] == xs[..k - 1];
    }
  }

  /** With increments of either sign the counter is exact throughout exactly when no partial sum
      leaves int64. */
  lemma {:induction false} AccumulateExactIff(start: int64, xs: seq<int64>)
    ensures (forall k | 0 <= k <= |xs| :: Accumulate(start, xs[..k]) == start + Sum(xs[..k]))
            <==> (forall k | 0 <= k <= |xs| :: FitsInt64(start + Sum(xs[..k])))
  {
    if forall k | 0 <= k <= |xs| :: FitsInt64(start + Sum(xs[..k])) {
      forall k | 0 <= k <= |xs|
        ensures Accumulate(start, xs[..k]) == start + Sum(xs[..k])
      {
        AccumulateExact(start, xs, k);
      }
    }
  }

  // ----- Saturation in every order -----

  function Positives(xs: seq<int64>): seq<int64> {
    if xs == [] then []
    else Positives(xs[..|xs| - 1]) + (if 0 < xs[|xs| - 1] then [xs[|xs| - 1]] else [])
  }

  function NonPositives(xs: seq<int64>): seq<int64> {
    if xs == [] then []
    else NonPositives(xs[..|xs| - 1]) + (if xs[|xs| - 1] <= 0 then [xs[|xs| - 1]] else [])
  }

  /** No order of these increments can take a counter that starts at 0 out of int64. */
  predicate CannotOverflow(xs: seq<int64>) {
    Sum(Positives(xs)) <= INT64_MAX && INT64_MIN <= Sum(NonPositives(xs))
  }

  lemma {:induction false} PartsMultiset(xs: seq<int64>)
    ensures multiset(Positives(xs)) + multiset(NonPositives(xs)) == multiset(xs)
    ensures forall x | x in multiset(Positives(xs)) :: 0 < x
    ensures forall x | x in multiset(NonPositives(xs)) :: x <= 0
  {
    if xs != [] {
      PartsMultiset(xs[..|xs| - 1]);
      assert xs == xs[..|xs| - 1] + [xs[|xs| - 1]];
    }
  }

  /** The two parts, and so their sums, depend only on the multiset. */
  lemma {:induction false} PartsPermutation(xs: seq<int64>, ys: seq<int64>)
    requires multiset(xs) == multiset(ys)
    ensures Sum(Positives(xs)) == Sum(Positives(ys)) && Sum(NonPositives(xs)) == Sum(NonPositives(ys))
  {
    PartsAgree(xs, ys);
    SumPermutation(Positives(xs), Positives(ys));
    SumPermutation(NonPositives(xs), NonPositives(ys));
  }

  lemma {:induction false} PartsAgree(xs: seq<int64>, ys: seq<int64>)
    requires multiset(xs) == multiset(ys)
    ensures multiset(Positives(xs)) == multiset(Positives(ys))
    ensures multiset(NonPositives(xs)) == multiset(NonPositives(ys))
  {
    PartsMultiset(xs);
    PartsMultiset(ys);
    forall x: int64
      ensures multiset(Positives(xs))[x] == multiset(Positives(ys))[x]
      ensures multiset(NonPositives(xs))[x] == multiset(NonPositives(ys))[x]
    {
      assert multiset(xs)[x] == multiset(Positives(xs))[x] + multiset(NonPositives(xs))[x];
      assert multiset(ys)[x] == multiset(Positives(ys))[x] + multiset(NonPositives(ys))[x];
    }
  }

  /** Every partial sum lies between the sum of the non-positive and that of the positive terms. */
  lemma {:induction false} PartialSumBounds(xs: seq<int64>, k: nat)
    requires k <= |xs|
    ensures Sum(NonPositives(xs)) <= Sum(xs[..k]) <= Sum(Positives(xs))
    decreases |xs|
  {
    if xs != [] {
      var before, x := xs[..|xs| - 1], xs[|xs| - 1];
      SumConcat(Positives(before), if 0 < x then [x] else []);
      SumConcat(NonPositives(before), if x <= 0 then [x] else []);
      assert Sum([x]) == x;
      if k == |xs| {
        PartialSumBounds(before, |before|);
        assert xs[..k] == xs && before[..|before|] == before;
      } else {
        PartialSumBounds(before, k);
        assert before[..k] == xs[..k];
      }
    }
  }

  predicate ExactThroughout(xs: seq<int64>) {
    forall k | 0 <= k <= |xs| :: Accumulate(0, xs[..k]) == Sum(xs[..k])
  }

  lemma {:induction false} CannotOverflowExact(xs: seq<int64>)
    requires CannotOverflow(xs)
    ensures ExactThroughout(xs) && Accumulate(0, xs) == Sum(xs)
  {
    forall k | 0 <= k <= |xs|
      ensures FitsInt64(0 + Sum(xs[..k]))
    {
      PartialSumBounds(xs, k);
    }
    AccumulateExactIff(0, xs);
    assert xs[..|xs|] == xs;
  }

  lemma {:induction false} ExactFits(xs: seq<int64>, k: nat)
    requires k <= |xs|
    ensures ExactThroughout(xs) ==> FitsInt64(Sum(xs[..k]))
  {
    var v := Accumulate(0, xs[..k]);
    assert FitsInt64(v);
  }

  /** A counter is exact throughout in EVERY order of its increments exactly when the positive ones
      together and the negative ones together fit in int64. */
  lemma {:induction false} ExactInEveryOrderIff(xs: seq<int64>)
    ensures (forall ys: seq<int64> | multiset(ys) == multiset(xs) :: ExactThroughout(ys)) <==> CannotOverflow(xs)
  {
    var pos, neg := Positives(xs), NonPositives(xs);
    if CannotOverflow(xs) {
      forall ys: seq<int64> | multiset(ys) == multiset(xs)
        ensures ExactThroughout(ys)
      {
        PartsPermutation(xs, ys);
        CannotOverflowExact(ys);
      }
    } else {
      PartsMultiset(xs);
      PartialSumBounds(xs, 0);
      var up, down := pos + neg, neg + pos;
      assert multiset(up) == multiset(xs) == multiset(down);
      assert up[..|pos|] == pos && down[..|neg|] == neg;
      ExactFits(up, |pos|);
      ExactFits(down, |neg|);
    }
  }
}
