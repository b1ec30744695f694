/** What a HistogramReport says about all the values tallied into it. */
module HistogramTraces {
  import opened Machine
  import opened ReportTypes
  import opened HistogramReport

  // ----- Where a value goes -----

  /** The bucket a linear histogram should use: ceil(value / width) - 1, everything up to width in
      bucket 0, n for a value beyond the last bucket. */
  function LinearBucket(width: uint32, n: uint16, value: int64): int
    requires 1 <= width
  {
    if value <= width then 0 else if value <= width * n then (value + width - 1) / width - 1 else n
  }

  /** The signed field and the unsigned product cancel out. */
  lemma {:induction false} BoundOfWidth(width: uint32, no: uint16)
    requires no + 1 < TWO16
    ensures Bound(ToInt32(width), no) == (width * (no + 1)) % TWO32
  {
    if TWO31 <= width {
      assert ToInt32(width) * (no + 1) == width * (no + 1) + (-(no + 1)) * TWO32;
      ModShift(width * (no + 1), -(no + 1));
    }
  }

  lemma {:induction false} ProductMonotone(w: nat, a: int, b: int)
    requires a <= b
    ensures w * a <= w * b
  {
  }

  lemma {:induction false} ProductCancel(w: nat, a: int, b: int)
    requires w * a < w * b
    ensures a < b
  {
  }

  lemma {:induction false} LinearBucketBounds(width: uint32, n: uint16, value: int64)
    requires 1 <= width && 1 <= n && value <= width * n
    ensures var b := LinearBucket(width, n, value);
            0 <= b < n && value <= width * (b + 1) && (0 < b ==> width * b < value)
  {
  }

  /** Under the proviso the scan's bounds are the true multiples ... */
  lemma {:induction false} BoundsAreMultiples(width: uint32, n: uint16, k: uint16)
    requires k < n && width * n < TWO32
    ensures Bound(ToInt32(width), k) == width * (k + 1) <= width * n
  {
    ProductMonotone(width, k + 1, n);
    BoundOfWidth(width, k);
  }

  /** ... so it finds the linear bucket. */
  lemma {:induction false} ScanIsLinear(width: uint32, n: uint16, value: int64)
    requires 1 <= width && 1 <= n && width * n < TWO32
    ensures FirstMatch(ToInt32(width), n, value, 0) == LinearBucket(width, n, value)
  {
    var r := FirstMatch(ToInt32(width), n, value, 0);
    if r < n {
      BoundsAreMultiples(width, n, r);
    }
    if value <= width * n {
      LinearBucketBounds(width, n, value);
      var b: uint16 := LinearBucket(width, n, value);
      BoundsAreMultiples(width, n, b);
      if 0 < b {
        ProductCancel(width, b, r + 1);
      }
    } else {
      ProductMonotone(width, 1, n);
    }
  }

  /** The scan agrees with the linear histogram on every value exactly when the 32-bit bounds do not
      wrap around. */
  lemma {:induction false} ScanIsLinearIff(width: uint32, n: uint16)
    requires 1 <= width && 1 <= n
    ensures (forall value: int64 :: FirstMatch(ToInt32(width), n, value, 0) == LinearBucket(width, n, value))
            <==> width * n < TWO32
  {
    if width * n < TWO32 {
      forall value: int64
        ensures FirstMatch(ToInt32(width), n, value, 0) == LinearBucket(width, n, value)
      {
        ScanIsLinear(width, n, value);
      }
    } else {
      ProductMonotone(width, n, TWO16);
      var value: int64 := width * n;
      LinearBucketBounds(width, n, value);
      assert FirstMatch(ToInt32(width), n, value, 0) == n;
    }
  }

  /** The bound of bucket b, 32 bits wide. */
  function Limit(width: uint32, b: nat): nat {
    (width * (b + 1)) % 0x1_0000_0000
  }

  /** Bucket b is the first whose bound is not below the value. */
  predicate GoesTo(width: uint32, value: int64, b: nat) {
    value <= Limit(width, b) && forall k | 0 <= k < b :: Limit(width, k) < value
  }

  /** For every width, wrap-around or not, the scan on a histogram in use stops at that bucket, and at
      the end if there is none. */
  lemma {:induction false} BucketOfRun(ch: Channel, n: uint16, width: uint32, values: seq<int64>, value: int64)
    requires 1 <= n
    ensures var b := Bucket(Run(InitInfo(ch, n, width), values), value);
            && (b < n ==> GoesTo(width, value, b))
            && (b == n <==> forall k | 0 <= k < n :: Limit(width, k) < value)
  {
    var b := Bucket(Run(InitInfo(ch, n, width), values), value);
    forall k: uint16 | k < n
      ensures Limit(width, k) == Bound(ToInt32(width), k)
    {
      BoundOfWidth(width, k);
    }
  }

  /** One more tally changes that bucket and no other: one hit more, the value added to the sum unless
      this leaves int64 on either side, which stores 2^63 - 1. */
  lemma {:induction false} TallyOfRun(
    ch: Channel, n: uint16, width: uint32, values: seq<int64>, value: int64, b: uint16)
    requires b < n
    ensures var h := InitInfo(ch, n, width);
            var e, f := Run(h, values).elem[b], Run(h, values + [value]).elem[b];
            if GoesTo(width, value, b) then
              && f.values.hits == (e.values.hits + 1) % 0x1_0000_0000_0000_0000
              && var exact := e.values.sum + value;
                 f.values.sum == if -0x8000_0000_0000_0000 <= exact <= 0x7fff_ffff_ffff_ffff then exact
                                 else 0x7fff_ffff_ffff_ffff
            else
              f == e
  {
    var h := InitInfo(ch, n, width);
    RunAppend(h, values, value);
    BucketOfRun(ch, n, width, values, value);
  }

  // ----- Statistics -----

  /** The tallied values that went into bucket b, in order. */
  function Routed(h: Info, values: seq<int64>, b: uint16): seq<int64>
    requires WellFormed(h)
  {
    if values == [] then []
    else
      var before := Routed(h, values[..|values| - 1], b);
      if Bucket(h, values[|values| - 1]) == b then before + [values[|values| - 1]] else before
  }

  predicate IsMinimum(m: int, values: seq<int64>) {
    m in values && forall i | 0 <= i < |values| :: m <= values[i]
  }

  predicate IsMaximum(m: int, values: seq<int64>) {
    m in values && forall i | 0 <= i < |values| :: values[i] <= m
  }

  /** v is the summary of exactly these values. */
  predicate Summarises(v: HistValues, values: seq<int64>) {
    && v.hits == |values|
    && v.sum == Accumulate(0, values)
    && (values == [] ==> v.min == 0 == v.max)
    && (values != [] ==> IsMinimum(v.min, values) && IsMaximum(v.max, values))
  }

  lemma {:induction false} SummariseOneMore(v: HistValues, values: seq<int64>, value: int64)
    requires Summarises(v, values) && |values| + 1 < TWO64
    ensures Summarises(Record(v, value), values + [value])
  {
  }

  lemma {:induction false} RoutedLength(h: Info, values: seq<int64>, b: uint16)
    requires WellFormed(h)
    ensures |Routed(h, values, b)| <= |values|
  {
    if values != [] {
      RoutedLength(h, values[..|values| - 1], b);
    }
  }

  /** What an element says apart from its statistics, as INIT leaves it: provider and channel, the format
      of a histogram, the categories, the number of buckets, its own position, no timestamp. */
  predicate HeaderOf(e: HistElement, ch: Channel, n: uint16, b: uint16) {
    && e.providerId == ch.providerId && e.channelId == ch.channelId
    && e.channelType == ChannelType(3, 0, ch.categories, n, ToInt16(b))
    && e.timestamp == 0
  }

  /** No run changes any of it. */
  lemma {:induction false} HeaderOfRun(ch: Channel, n: uint16, size: uint32, values: seq<int64>, b: uint16)
    requires b < n
    ensures HeaderOf(Run(InitInfo(ch, n, size), values).elem[b], ch, n, b)
  {
    if values != [] {
      HeaderOfRun(ch, n, size, values[..|values| - 1], b);
    }
  }

  /** After any run of fewer than 2^64 tallies every bucket summarises exactly the values routed to
      it. */
  lemma {:induction false} Statistics(ch: Channel, n: uint16, size: uint32, values: seq<int64>, b: uint16)
    requires b < n && |values| < TWO64
    ensures var h := InitInfo(ch, n, size);
            var e := Run(h, values).elem[b];
            Summarises(e.values, Routed(h, values, b)) && HeaderOf(e, ch, n, b)
  {
    var h := InitInfo(ch, n, size);
    HeaderOfRun(ch, n, size, values, b);
    if values != [] {
      var before, value := values[..|values| - 1], values[|values| - 1];
      Statistics(ch, n, size, before, b);
      RoutedLength(h, before, b);
      assert Bucket(Run(h, before), value) == Bucket(h, value);
      if Bucket(h, value) == b {
        SummariseOneMore(Run(h, before).elem[b].values, Routed(h, before, b), value);
      }
    }
  }

  /** The same of any buffer in use. */
  lemma {:induction false} BufferStatistics(buf: Buffer, b: uint16)
    requires buf.Valid() && b < buf.elem.Length && |buf.history| < TWO64
    ensures Summarises(buf.elem[b].values,
                       Routed(InitInfo(buf.channel, buf.elem.Length, buf.bktSize), buf.history, b))
    ensures HeaderOf(buf.elem[b], buf.channel, buf.elem.Length, b)
  {
    assert buf.elem[b] == buf.View().elem[b];
    Statistics(buf.channel, buf.elem.Length, buf.bktSize, buf.history, b);
  }

  lemma {:induction false} RoutedMember(h: Info, values: seq<int64>, b: uint16, value: int64)
    requires WellFormed(h) && value in Routed(h, values, b)
    ensures value in values && Bucket(h, value) == b
  {
    if value != values[|values| - 1] || Bucket(h, value) != b {
      RoutedMember(h, values[..|values| - 1], b, value);
    }
  }

  lemma {:induction false} BucketEncloses(width: uint32, n: uint16, value: int64, b: uint16)
    requires 1 <= width && width * n < TWO32 && b < n && FirstMatch(ToInt32(width), n, value, 0) == b
    ensures value <= width * (b + 1) && (0 < b ==> width * b < value)
  {
    ScanIsLinear(width, n, value);
    if value <= width * n {
      LinearBucketBounds(width, n, value);
    }
  }

  /** element_idx is the position of every bucket exactly up to 32768 buckets. */
  lemma {:induction false} ElementIdxIsPositionIff(ch: Channel, n: uint16, size: uint32, values: seq<int64>)
    requires 1 <= n
    ensures (forall b: nat | b < n :: Run(InitInfo(ch, n, size), values).elem[b].channelType.elementIdx == b)
            <==> n <= 0x8000
  {
    forall b: nat | b < n
      ensures Run(InitInfo(ch, n, size), values).elem[b].channelType.elementIdx == ToInt16(b)
    {
      HeaderOfRun(ch, n, size, values, b);
    }
    if 0x8000 < n {
      assert Run(InitInfo(ch, n, size), values).elem[0x8000].channelType.elementIdx == -0x8000;
    }
  }

  // ----- The sum of a bucket -----

  /** Only bucket 0 takes values that are not positive. */
  lemma {:induction false} RoutedSign(h: Info, values: seq<int64>, b: uint16, i: nat)
    requires WellFormed(h) && b < |h.elem| && i < |Routed(h, values, b)|
    ensures Routed(h, values, b)[i] in values && (0 < b ==> 0 < Routed(h, values, b)[i])
  {
    var value := Routed(h, values, b)[i];
    RoutedMember(h, values, b, value);
    if 0 < b {
      assert Bound(h.bucketWidth, 0) < value;
    }
  }

  /** A bucket's sum is the exact sum of its values saturated once, unless bucket 0 took a negative
      value; and it is the exact sum whenever no order of its values can overflow. */
  lemma {:induction false} SumOfBucket(ch: Channel, n: uint16, size: uint32, values: seq<int64>, b: uint16)
    requires b < n && |values| < TWO64
    ensures var h := InitInfo(ch, n, size);
            var own := Routed(h, values, b);
            var sum := Run(h, values).elem[b].values.sum;
            && (0 < b || (forall i | 0 <= i < |own| :: 0 <= own[i]) ==> sum == Min(INT64_MAX, Sum(own)))
            && (CannotOverflow(own) ==> sum == Sum(own))
  {
    var h := InitInfo(ch, n, size);
    var own := Routed(h, values, b);
    Statistics(ch, n, size, values, b);
    if 0 < b {
      forall i | 0 <= i < |own|
        ensures 0 <= own[i]
      {
        RoutedSign(h, values, b, i);
      }
    }
    if forall i | 0 <= i < |own| :: 0 <= own[i] {
      AccumulateNonNegatives(0, own);
    }
    if CannotOverflow(own) {
      CannotOverflowExact(own);
    }
  }

  /** The accumulated sum after k tallies, when no partial sum so far has left int64. */
  lemma {:induction false} RoutedAccumulate(h: Info, values: seq<int64>, b: uint16, k: nat)
    requires WellFormed(h) && k <= |values|
    requires forall j | 0 <= j <= k :: FitsInt64(Sum(Routed(h, values[..j], b)))
    ensures Accumulate(0, Routed(h, values[..k], b)) == Sum(Routed(h, values[..k], b))
  {
    if 0 < k {
      assert values[..k][..k - 1] == values[..k - 1];
      RoutedAccumulate(h, values, b, k - 1);
      var own := Routed(h, values[..k], b);
      if Bucket(h, values[k - 1]) == b {
        assert own[..|own| - 1] == Routed(h, values[..k - 1], b);
      }
    }
  }

  /** Throughout a run a bucket's sum is the exact sum of its values so far, exactly when none of those
      sums leaves int64. */
  lemma {:induction false} SumExactIff(ch: Channel, n: uint16, size: uint32, values: seq<int64>, b: uint16)
    requires b < n && |values| < TWO64
    ensures var h := InitInfo(ch, n, size);
            (forall k | 0 <= k <= |values| ::
               Run(h, values[..k]).elem[b].values.sum == Sum(Routed(h, values[..k], b)))
            <==> (forall k | 0 <= k <= |values| :: FitsInt64(Sum(Routed(h, values[..k], b))))
  {
    var h := InitInfo(ch, n, size);
    forall k | 0 <= k <= |values|
      ensures Run(h, values[..k]).elem[b].values.sum == Accumulate(0, Routed(h, values[..k], b))
    {
      Statistics(ch, n, size, values[..k], b);
    }
    if forall k | 0 <= k <= |values| :: FitsInt64(Sum(Routed(h, values[..k], b))) {
      forall k | 0 <= k <= |values|
        ensures Accumulate(0, Routed(h, values[..k], b)) == Sum(Routed(h, values[..k], b))
      {
        RoutedAccumulate(h, values, b, k);
      }
    }
  }

  /** What the sum in a buffer in use is. */
  lemma {:induction false} BufferSum(buf: Buffer, b: uint16)
    requires buf.Valid() && b < buf.elem.Length && |buf.history| < TWO64
    ensures var h := InitInfo(buf.channel, buf.elem.Length, buf.bktSize);
            var own := Routed(h, buf.history, b);
            var sum := buf.elem[b].values.sum;
            && (0 < b || (forall i | 0 <= i < |own| :: 0 <= own[i]) ==> sum == Min(INT64_MAX, Sum(own)))
            && ((forall k | 0 <= k <= |buf.history| :: FitsInt64(Sum(Routed(h, buf.history[..k], b)))) ==>
                  sum == Sum(own))
            && (CannotOverflow(own) ==> sum == Sum(own))
  {
    assert buf.elem[b] == buf.View().elem[b];
    var n: uint16 := buf.elem.Length;
    SumOfBucket(buf.channel, n, buf.bktSize, buf.history, b);
    SumExactIff(buf.channel, n, buf.bktSize, buf.history, b);
    assert buf.history[..|buf.history|] == buf.history;
  }

  // ----- Bounds and hits -----

  /** Minimum and maximum of a bucket that was hit lie within the bucket's own bounds. */
  lemma {:induction false} BucketBounds(ch: Channel, n: uint16, width: uint32, values: seq<int64>, b: uint16)
    requires b < n && |values| < TWO64 && 1 <= width && width * n < TWO32
    ensures var v := Run(InitInfo(ch, n, width), values).elem[b].values;
            v.hits != 0 ==> v.min <= v.max <= width * (b + 1) && (0 < b ==> width * b < v.min)
  {
    var h := InitInfo(ch, n, width);
    var v := Run(h, values).elem[b].values;
    Statistics(ch, n, width, values, b);
    if v.hits != 0 {
      RoutedMember(h, values, b, v.min);
      RoutedMember(h, values, b, v.max);
      BucketEncloses(width, n, v.min, b);
      BucketEncloses(width, n, v.max, b);
    }
  }

  function Hits(h: Info): seq<int> {
    seq(|h.elem|, b requires 0 <= b < |h.elem| => h.elem[b].values.hits)
  }

  /** How many values do not exceed the limit. */
  function CountUpTo(values: seq<int64>, limit: int): nat {
    if values == [] then 0
    else CountUpTo(values[..|values| - 1], limit) + (if values[|values| - 1] <= limit then 1 else 0)
  }

  lemma {:induction false} CountBelowLength(values: seq<int64>, limit: int)
    ensures CountUpTo(values, limit) <= |values|
  {
    if values != [] {
      CountBelowLength(values[..|values| - 1], limit);
    }
  }

  lemma {:induction false} HitsOfUpdate(elem: seq<HistElement>, w: int32, b: nat, e: HistElement)
    requires b < |elem|
    ensures Hits(Info(w, elem[b := e])) == Hits(Info(w, elem))[b := e.values.hits]
  {
  }

  /** A tally adds one hit if there is a bucket for the value, and none otherwise. */
  lemma {:induction false} HitsOfTally(h: Info, value: int64)
    requires WellFormed(h) && Sum(Hits(h)) + 1 < TWO64
    ensures Sum(Hits(ApplyTally(h, value))) == Sum(Hits(h)) + (if Bucket(h, value) < |h.elem| then 1 else 0)
  {
    var b := Bucket(h, value);
    if b < |h.elem| {
      var e := h.elem[b].(values := Record(h.elem[b].values, value));
      assert ApplyTally(h, value) == Info(h.bucketWidth, h.elem[b := e]);
      HitsOfUpdate(h.elem, h.bucketWidth, b, e);
      HitBelowSum(h, b);
      SumUpdate(Hits(h), b, e.values.hits);
    }
  }

  lemma {:induction false} HitBelowSum(h: Info, b: nat)
    requires b < |h.elem|
    ensures h.elem[b].values.hits <= Sum(Hits(h))
  {
    TermBelowSum(Hits(h), b);
  }

  lemma {:induction false} HasBucketIff(width: uint32, n: uint16, value: int64)
    requires 1 <= width && 1 <= n && width * n < TWO32
    ensures FirstMatch(ToInt32(width), n, value, 0) < n <==> value <= width * n
  {
    ScanIsLinear(width, n, value);
    ProductMonotone(width, 1, n);
    if value <= width * n {
      LinearBucketBounds(width, n, value);
    }
  }

  /** Any scan bound that splits the values at `limit` counts exactly those up to it. */
  lemma {:induction false} HitsUpTo(h: Info, values: seq<int64>, limit: int)
    requires WellFormed(h) && |values| < TWO64
    requires forall b | 0 <= b < |h.elem| :: h.elem[b].values.hits == 0
    requires forall value: int64 :: Bucket(h, value) < |h.elem| <==> value <= limit
    ensures Sum(Hits(Run(h, values))) == CountUpTo(values, limit)
  {
    if values == [] {
      SumOfZeros(Hits(h));
    } else {
      var before, value := values[..|values| - 1], values[|values| - 1];
      HitsUpTo(h, before, limit);
      CountBelowLength(before, limit);
      HitsOfTally(Run(h, before), value);
      assert Bucket(Run(h, before), value) == Bucket(h, value);
    }
  }

  /** No value within range is lost or counted twice: all hits together are the values <= width * n. */
  lemma {:induction false} HitsConserved(ch: Channel, n: uint16, width: uint32, values: seq<int64>)
    requires 1 <= n && |values| < TWO64 && 1 <= width && width * n < TWO32
    ensures Sum(Hits(Run(InitInfo(ch, n, width), values))) == CountUpTo(values, width * n)
  {
    var h := InitInfo(ch, n, width);
    forall value: int64
      ensures Bucket(h, value) < |h.elem| <==> value <= width * n
    {
      HasBucketIff(width, n, value);
    }
    HitsUpTo(h, values, width * n);
  }

  // ----- Order -----

  lemma {:induction false} RoutedMultiset(h: Info, values: seq<int64>, b: uint16, value: int64)
    requires WellFormed(h)
    ensures multiset(Routed(h, values, b))[value] == if Bucket(h, value) == b then multiset(values)[value] else 0
  {
    if values != [] {
      assert values == values[..|values| - 1] + [values[|values| - 1]];
      RoutedMultiset(h, values[..|values| - 1], b, value);
    }
  }

  lemma {:induction false} RoutedPermutation(h: Info, xs: seq<int64>, ys: seq<int64>, b: uint16)
    requires WellFormed(h) && multiset(xs) == multiset(ys)
    ensures multiset(Routed(h, xs, b)) == multiset(Routed(h, ys, b))
  {
    forall value: int64
      ensures multiset(Routed(h, xs, b))[value] == multiset(Routed(h, ys, b))[value]
    {
      RoutedMultiset(h, xs, b, value);
      RoutedMultiset(h, ys, b, value);
    }
  }

  /** The summary of a bucket hardly depends on the order: hits, minimum and maximum never do. */
  lemma {:induction false} SummaryPermutation(v: HistValues, w: HistValues, xs: seq<int64>, ys: seq<int64>)
    requires Summarises(v, xs) && Summarises(w, ys) && multiset(xs) == multiset(ys)
    ensures v == w.(sum := v.sum)
  {
    assert |xs| == |multiset(xs)| == |multiset(ys)| == |ys|;
    assert forall x :: x in xs <==> x in multiset(xs);
    assert forall x :: x in ys <==> x in multiset(ys);
  }

  /** The sum does not either, if no value is negative or no order can overflow. */
  lemma {:induction false} AccumulatePermutation(xs: seq<int64>, ys: seq<int64>)
    requires multiset(xs) == multiset(ys)
    requires CannotOverflow(xs) || forall i | 0 <= i < |xs| :: 0 <= xs[i]
    ensures Accumulate(0, xs) == Accumulate(0, ys)
  {
    SumPermutation(xs, ys);
    if CannotOverflow(xs) {
      PartsPermutation(xs, ys);
      CannotOverflowExact(xs);
      CannotOverflowExact(ys);
    } else {
      assert forall i | 0 <= i < |ys| :: ys[i] in multiset(xs);
      AccumulateNonNegatives(0, xs);
      AccumulateNonNegatives(0, ys);
    }
  }

  /** Two runs over the same multiset of values, in any two orders, leave the same bucket; only the sum
      of bucket 0, which alone takes negative values, needs a condition: that its values be nonnegative
      or unable to overflow in any order. */
  lemma {:induction false} OrderIndependent(
    ch: Channel, n: uint16, size: uint32, xs: seq<int64>, ys: seq<int64>, b: uint16)
    requires b < n && |xs| < TWO64 && multiset(xs) == multiset(ys)
    ensures var h := InitInfo(ch, n, size);
            var e, f := Run(h, xs).elem[b], Run(h, ys).elem[b];
            var own := Routed(h, xs, b);
            && e == f.(values := f.values.(sum := e.values.sum))
            && (0 < b || CannotOverflow(own) || (forall i | 0 <= i < |own| :: 0 <= own[i]) ==> e == f)
  {
    var h := InitInfo(ch, n, size);
    assert |xs| == |multiset(xs)| == |multiset(ys)| == |ys|;
    Statistics(ch, n, size, xs, b);
    Statistics(ch, n, size, ys, b);
    RoutedPermutation(h, xs, ys, b);
    var own := Routed(h, xs, b);
    SummaryPermutation(Run(h, xs).elem[b].values, Run(h, ys).elem[b].values, own, Routed(h, ys, b));
    if 0 < b {
      forall i | 0 <= i < |own|
        ensures 0 <= own[i]
      {
        RoutedSign(h, xs, b, i);
      }
    }
    if CannotOverflow(own) || forall i | 0 <= i < |own| :: 0 <= own[i] {
      AccumulatePermutation(own, Routed(h, ys, b));
    }
  }

  // ----- Exactness in every order -----

  lemma {:induction false} RoutedConcat(h: Info, xs: seq<int64>, ys: seq<int64>, b: uint16)
    requires WellFormed(h)
    ensures Routed(h, xs + ys, b) == Routed(h, xs, b) + Routed(h, ys, b)
  {
    if ys == [] {
      assert xs + ys == xs;
    } else {
      assert (xs + ys)[..|xs + ys| - 1] == xs + ys[..|ys| - 1];
      RoutedConcat(h, xs, ys[..|ys| - 1], b);
    }
  }

  lemma {:induction false} RoutedAll(h: Info, xs: seq<int64>, b: uint16)
    requires WellFormed(h) && forall i | 0 <= i < |xs| :: Bucket(h, xs[i]) == b
    ensures Routed(h, xs, b) == xs
  {
    if xs != [] {
      RoutedAll(h, xs[..|xs| - 1], b);
    }
  }

  /** The tallied values that went elsewhere, in order. */
  function Elsewhere(h: Info, values: seq<int64>, b: uint16): seq<int64>
    requires WellFormed(h)
  {
    if values == [] then []
    else
      var before := Elsewhere(h, values[..|values| - 1], b);
      if Bucket(h, values[|values| - 1]) == b then before else before + [values[|values| - 1]]
  }

  lemma {:induction false} MultisetAppend(xs: seq<int64>, x: int64)
    ensures multiset(xs + [x]) == multiset(xs) + multiset{x}
  {
  }

  lemma {:induction false} SplitMultiset(h: Info, values: seq<int64>, b: uint16)
    requires WellFormed(h)
    ensures multiset(Routed(h, values, b)) + multiset(Elsewhere(h, values, b)) == multiset(values)
  {
    if values != [] {
      var before, value := values[..|values| - 1], values[|values| - 1];
      SplitMultiset(h, before, b);
      assert values == before + [value];
      MultisetAppend(before, value);
      MultisetAppend(Routed(h, before, b), value);
      MultisetAppend(Elsewhere(h, before, b), value);
    }
  }

  /** The sum of bucket b is the exact sum of its values at every point of the run. */
  ghost predicate SumExactThroughout(h: Info, values: seq<int64>, b: uint16)
    requires WellFormed(h) && b < |h.elem|
  {
    forall k | 0 <= k <= |values| :: Run(h, values[..k]).elem[b].values.sum == Sum(Routed(h, values[..k], b))
  }

  lemma {:induction false} CannotOverflowRun(ch: Channel, n: uint16, size: uint32, values: seq<int64>, b: uint16)
    requires b < n && |values| < TWO64 && CannotOverflow(Routed(InitInfo(ch, n, size), values, b))
    ensures SumExactThroughout(InitInfo(ch, n, size), values, b)
  {
    var h := InitInfo(ch, n, size);
    forall k | 0 <= k <= |values|
      ensures FitsInt64(Sum(Routed(h, values[..k], b)))
    {
      var own := Routed(h, values, b);
      assert values == values[..k] + values[k..];
      RoutedConcat(h, values[..k], values[k..], b);
      var j := |Routed(h, values[..k], b)|;
      assert own[..j] == Routed(h, values[..k], b);
      PartialSumBounds(own, j);
    }
    SumExactIff(ch, n, size, values, b);
  }

  /** If the values begin with `first`, all of them for bucket b, and the sum is exact throughout, then
      the sum of `first` fits. */
  lemma {:induction false} ExactRunFits(h: Info, first: seq<int64>, rest: seq<int64>, b: uint16)
    requires WellFormed(h) && b < |h.elem| && forall i | 0 <= i < |first| :: Bucket(h, first[i]) == b
    ensures SumExactThroughout(h, first + rest, b) ==> FitsInt64(Sum(first))
  {
    var sum := Run(h, first).elem[b].values.sum;
    assert FitsInt64(sum);
    assert (first + rest)[..|first|] == first;
    RoutedAll(h, first, b);
  }

  lemma {:induction false} OverflowUpFront(
    h: Info, xs: seq<int64>, first: seq<int64>, second: seq<int64>, other: seq<int64>, b: uint16)
    requires WellFormed(h) && b < |h.elem| && !FitsInt64(Sum(first))
    requires multiset(first) + multiset(second) == multiset(Routed(h, xs, b))
    requires multiset(Routed(h, xs, b)) + multiset(other) == multiset(xs)
    ensures exists ys: seq<int64> | multiset(ys) == multiset(xs) :: !SumExactThroughout(h, ys, b)
  {
    forall i | 0 <= i < |first|
      ensures Bucket(h, first[i]) == b
    {
      assert first[i] in multiset(Routed(h, xs, b));
      RoutedMember(h, xs, b, first[i]);
    }
    var ys := first + (second + other);
    assert multiset(ys) == multiset(first) + multiset(second) + multiset(other) == multiset(xs);
    ExactRunFits(h, first, second + other, b);
  }

  /** Otherwise one of two orders goes wrong: bucket b's positive values first, or its negative ones. */
  lemma {:induction false} OverflowInSomeOrder(h: Info, xs: seq<int64>, b: uint16)
    requires WellFormed(h) && b < |h.elem| && !CannotOverflow(Routed(h, xs, b))
    ensures exists ys: seq<int64> | multiset(ys) == multiset(xs) :: !SumExactThroughout(h, ys, b)
  {
    var own, other := Routed(h, xs, b), Elsewhere(h, xs, b);
    var pos, neg := Positives(own), NonPositives(own);
    SplitMultiset(h, xs, b);
    PartsMultiset(own);
    PartialSumBounds(own, 0);
    if INT64_MAX < Sum(pos) {
      OverflowUpFront(h, xs, pos, neg, other, b);
    } else {
      OverflowUpFront(h, xs, neg, pos, other, b);
    }
  }

  /** Over all orders of the same values a bucket's sum is exact throughout exactly when its positive
      values together and its negative ones together fit in int64. */
  lemma {:induction false} SumExactInEveryOrderIff(
    ch: Channel, n: uint16, size: uint32, xs: seq<int64>, b: uint16)
    requires b < n && |xs| < TWO64
    ensures var h := InitInfo(ch, n, size);
            (forall ys: seq<int64> | multiset(ys) == multiset(xs) :: SumExactThroughout(h, ys, b))
            <==> CannotOverflow(Routed(h, xs, b))
  {
    var h := InitInfo(ch, n, size);
    var own := Routed(h, xs, b);
    if CannotOverflow(own) {
      forall ys: seq<int64> | multiset(ys) == multiset(xs)
        ensures SumExactThroughout(h, ys, b)
      {
        assert |xs| == |multiset(xs)| == |multiset(ys)| == |ys|;
        RoutedPermutation(h, xs, ys, b);
        PartsPermutation(own, Routed(h, ys, b));
        CannotOverflowRun(ch, n, size, ys, b);
      }
    } else {
      OverflowInSomeOrder(h, xs, b);
    }
  }

  lemma {:induction false} RoutedToFirst(h: Info, values: seq<int64>)
    requires WellFormed(h) && forall i | 0 <= i < |values| :: values[i] <= 0
    ensures Routed(h, values, 0) == values
  {
    if values != [] {
      RoutedToFirst(h, values[..|values| - 1]);
      assert values[|values| - 1] <= Bound(h.bucketWidth, 0);
    }
  }

  lemma {:induction false} SumOfFirst(ch: Channel, n: uint16, size: uint32, values: seq<int64>)
    requires 1 <= n && |values| < TWO64 && forall i | 0 <= i < |values| :: values[i] <= 0
    ensures Run(InitInfo(ch, n, size), values).elem[0].values.sum == Accumulate(0, values)
  {
    Statistics(ch, n, size, values, 0);
    RoutedToFirst(InitInfo(ch, n, size), values);
  }

  /** The proviso is needed: a negative overflow also saturates to INT64_MAX, and then order shows. */
  lemma {:induction false} NegativeSumsDependOnOrder(ch: Channel, n: uint16, size: uint32)
    requires 1 <= n
    ensures var h := InitInfo(ch, n, size);
            && Run(h, [INT64_MIN, -1, -1]).elem[0].values.sum == INT64_MAX - 1
            && Run(h, [-1, -1, INT64_MIN]).elem[0].values.sum == INT64_MAX
  {
    SumOfFirst(ch, n, size, [INT64_MIN, -1, -1]);
    SumOfFirst(ch, n, size, [-1, -1, INT64_MIN]);
    AccumulateThree(INT64_MIN, -1, -1);
    AccumulateThree(-1, -1, INT64_MIN);
  }

  lemma {:induction false} AccumulateThree(a: int64, b: int64, c: int64)
    ensures Accumulate(0, [a, b, c]) == SaturatingAdd(SaturatingAdd(a, b), c)
  {
    assert [a, b, c][..2] == [a, b] && [a, b][..1] == [a];
    assert Accumulate(0, [a]) == a;
  }
}
