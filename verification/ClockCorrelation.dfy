/**
 Correlation of the profiling timestamp with a host clock: both are sampled in turn, the
 mean of each is taken from 64-bit sums of offsets, and the difference of the means
 later turns timestamps into times.
 */
module ClockCorrelation {
  import opened MachineWords

  datatype Timespec = Timespec(sec: int, nsec: int)

  function TimespecToNs(t: Timespec): uint64 {
    Wrap64(Wrap64(t.sec) * 1_000_000_000 + t.nsec)
  }

  /** A time as `clock_gettime` returns it, within the 64-bit nanoseconds. */
  predicate Normalized(t: Timespec) {
    0 <= t.sec && 0 <= t.nsec < 1_000_000_000 && t.sec * 1_000_000_000 + t.nsec < TWO_64
  }

  /** On such times the conversion keeps the order and loses nothing. */
  lemma ConversionKeepsOrder(t: Timespec, u: Timespec)
    requires Normalized(t) && Normalized(u)
    ensures TimespecToNs(t) < TimespecToNs(u) <==> t.sec < u.sec || (t.sec == u.sec && t.nsec < u.nsec)
    ensures t.sec == TimespecToNs(t) / 1_000_000_000 && t.nsec == TimespecToNs(t) % 1_000_000_000
  {
    NormalizedNs(t);
    NormalizedNs(u);
  }

  lemma NormalizedNs(t: Timespec)
    requires Normalized(t)
    ensures TimespecToNs(t) == t.sec * 1_000_000_000 + t.nsec
  {
  }

  function Sum(samples: seq<uint64>): nat {
    if samples == [] then 0 else Sum(samples[..|samples| - 1]) + samples[|samples| - 1]
  }

  /** The mean of the samples, rounded down. */
  function Mean(samples: seq<uint64>): nat
    requires samples != []
  {
    Sum(samples) / |samples|
  }

  /** The sum of the offsets from a base, without a word size. */
  function Offsets(samples: seq<uint64>, base: uint64): int {
    Sum(samples) - |samples| * base
  }

  // ---------------------------------------------------------------- division

  lemma DivShift(x: int, k: int, n: int)
    requires n > 0
    ensures (x + k * n) / n == x / n + k
  {
    var q, r := x / n, x % n;
    assert x + k * n == (q + k) * n + r;
    Quotient(x + k * n, n, q + k, r);
  }

  lemma DivMonotone(x: int, y: int, n: int)
    requires n > 0 && x <= y
    ensures x / n <= y / n
  {
    var q, r := x / n, x % n;
    var q', r' := y / n, y % n;
    assert x == q * n + r && y == q' * n + r';
    assert (q - q') * n <= r' - r;
    if q > q' {
      AtLeastOnce(q - q', n);
    }
  }

  lemma {:induction false} SumBounds(samples: seq<uint64>)
    ensures Sum(samples) <= |samples| * (TWO_64 - 1)
  {
    if samples != [] {
      SumBounds(samples[..|samples| - 1]);
    }
  }

  /** A mean of 64-bit values is a 64-bit value. */
  lemma MeanFits(samples: seq<uint64>)
    requires samples != []
    ensures Mean(samples) < TWO_64
  {
    SumBounds(samples);
    DivMonotone(Sum(samples), |samples| * (TWO_64 - 1), |samples|);
    DivShift(0, TWO_64 - 1, |samples|);
  }

  /** For -n <= q < n, dropping q whole words before dividing by n and coming back
      modulo one word loses nothing exactly when q is 0 or -n. */
  lemma WordsDropped(q: int, r: nat, n: int)
    requires 2 <= n < TWO_32 && -n <= q < n && r < TWO_64
    ensures var d := (q * TWO_64 + r) / n - r / n;
      d == 0 || d == -TWO_64 <==> q == 0 || q == -n
  {
    var s := q * TWO_64 + r;
    DivShift(r, 1, n);
    if q >= 1 {
      assert s >= r + n;
      DivMonotone(r + n, s, n);
    } else if q == -n {
      assert s == r + (-TWO_64) * n;
      DivShift(r, -TWO_64, n);
    } else if q < 0 {
      DivShift(r, -1, n);
      DivMonotone(s, r - n, n);
      assert s >= r + n + (-TWO_64) * n;
      DivShift(r + n, -TWO_64, n);
      DivMonotone(r + n + (-TWO_64) * n, s, n);
    }
  }

  function AllNs(tm: seq<Timespec>): (ns: seq<uint64>)
    ensures |ns| == |tm|
  {
    seq(|tm|, i requires 0 <= i < |tm| => TimespecToNs(tm[i]))
  }

  /** What the code computes for one clock: wrapped offsets, divided, base added. */
  function Computed(samples: seq<uint64>, base: uint64): uint64
    requires samples != []
  {
    Wrap64(Wrap64(Offsets(samples, base)) / |samples| + base)
  }

  /** For any samples and any base, the computed value is the mean exactly when the sum
      of offsets stays within one word, or below it by one word per sample. */
  lemma ComputedIsMeanIff(samples: seq<uint64>, base: uint64)
    requires 2 <= |samples| < TWO_32
    ensures Computed(samples, base) == Mean(samples) <==>
      Offsets(samples, base) / TWO_64 == 0 || Offsets(samples, base) / TWO_64 == -|samples|
  {
    var n := |samples|;
    var s := Offsets(samples, base);
    var q, r := s / TWO_64, s % TWO_64;
    SumBounds(samples);
    ProductMonotone(n, base, TWO_64 - 1);
    ProductMonotone(n, 0, base);
    OffsetWords(Sum(samples), n, n * base);
    DivShift(s, base, n);
    MeanFits(samples);
    DivMonotone(0, r, n);
    DivMonotone(r, TWO_64 - 1, n);
    DivMonotone(TWO_64 - 1, (TWO_64 - 1) * n, n);
    DivShift(0, TWO_64 - 1, n);
    WordsDropped(q, r, n);
    WrapEquals(r / n + base, Mean(samples));
  }

  lemma ProductMonotone(n: nat, a: int, b: int)
    requires a <= b
    ensures n * a <= n * b
  {
    assert n * b == n * a + n * (b - a);
  }

  lemma OffsetWords(sum: nat, n: int, product: nat)
    requires n >= 2 && sum <= n * (TWO_64 - 1) && product <= n * (TWO_64 - 1)
    ensures var q := (sum - product) / TWO_64; -n <= q < n
  {
  }

  lemma WrapEquals(a: nat, m: uint64)
    requires a < 2 * TWO_64
    ensures Wrap64(a) == m <==> a - m == 0 || a - m == TWO_64
  {
  }

  lemma {:induction false} FirstOffset(samples: seq<uint64>)
    requires samples != []
    ensures Offsets(samples, samples[0]) >= -(|samples| - 1) * (TWO_64 - 1)
  {
    if |samples| == 1 {
      assert Sum(samples) == Sum([]) + samples[0];
    } else {
      FirstOffset(samples[..|samples| - 1]);
      var n := |samples| - 1;
      assert Offsets(samples, samples[0]) == Offsets(samples[..n], samples[0]) + samples[n] - samples[0];
    }
  }

  /** Offsets from the first sample, as on the host clock: the computed value is the mean
      of the samples exactly when the offsets add up to a 64-bit value, so in particular
      for samples none earlier than the first whose offsets do not overflow. */
  lemma HostMeanIff(samples: seq<uint64>)
    requires 2 <= |samples| < TWO_32
    ensures Computed(samples, samples[0]) == Mean(samples) <==> 0 <= Offsets(samples, samples[0]) < TWO_64
  {
    var s := Offsets(samples, samples[0]);
    ComputedIsMeanIff(samples, samples[0]);
    FirstOffset(samples);
    var n := |samples|;
    assert s > -(n - 1) * TWO_64;
    DivShift(0, -(n - 1), TWO_64);
    DivMonotone(-(n - 1) * TWO_64, s, TWO_64);
  }

  lemma {:induction false} LateSamples(samples: seq<uint64>, base: uint64, span: nat)
    requires forall i :: 0 <= i < |samples| ==> base <= samples[i] <= base + span
    ensures 0 <= Offsets(samples, base) <= |samples| * span
  {
    if samples != [] {
      LateSamples(samples[..|samples| - 1], base, span);
    }
  }

  /** Samples none earlier than the first, with n times their span below 2^64. */
  lemma NoOverflow(samples: seq<uint64>, span: nat)
    requires 2 <= |samples| < TWO_32 && |samples| * span < TWO_64
    requires forall i :: 0 <= i < |samples| ==> samples[0] <= samples[i] <= samples[0] + span
    ensures Computed(samples, samples[0]) == Mean(samples)
  {
    LateSamples(samples, samples[0], span);
    HostMeanIff(samples);
  }

  /** Where a plain 64-bit sum fails, the offsets do not. */
  lemma PlainSumFails()
    ensures var samples := [0x8000_0000_0000_0000, 0x8000_0000_0000_0000];
      && Wrap64(Sum(samples)) / 2 != Mean(samples)
      && Computed(samples, samples[0]) == Mean(samples)
  {
    var samples: seq<uint64> := [0x8000_0000_0000_0000, 0x8000_0000_0000_0000];
    assert samples[..1] == [0x8000_0000_0000_0000] && samples[..1][..0] == [];
    NoOverflow(samples, 0);
  }

  // ----------------------------------------------------------------- the code

  /** Half the mean step between device samples. */
  function ErrorOf(ts: seq<uint64>): uint64
    requires 2 <= |ts| < TWO_32 && |ts| != 0x8000_0001
  {
    Subtract64(ts[|ts| - 1], ts[0]) / Wrap32(2 * (|ts| - 1))
  }

  /** The accumulating loop, over both clocks at once. */
  method Accumulate(ts: seq<uint64>, tm: seq<uint64>, tsBase: uint64, tmBase: uint64)
    returns (tsAccum: uint64, tmAccum: uint64)
    requires |ts| == |tm|
    ensures tsAccum == Wrap64(Offsets(ts, tsBase))
    ensures tmAccum == Wrap64(Offsets(tm, tmBase))
  {
    tsAccum, tmAccum := 0, 0;
    var i := 0;
    while i < |ts|
      invariant 0 <= i <= |ts|
      invariant tsAccum == Wrap64(Offsets(ts[..i], tsBase))
      invariant tmAccum == Wrap64(Offsets(tm[..i], tmBase))
    {
      OffsetsNext(ts, i, tsBase);
      OffsetsNext(tm, i, tmBase);
      AccumulateWraps(Offsets(ts[..i], tsBase), ts[i], tsBase);
      AccumulateWraps(Offsets(tm[..i], tmBase), tm[i], tmBase);
      tsAccum := Wrap64(tsAccum + Subtract64(ts[i], tsBase));
      tmAccum := Wrap64(tmAccum + Subtract64(tm[i], tmBase));
      i := i + 1;
    }
    assert ts[..i] == ts && tm[..i] == tm;
  }

  lemma OffsetsNext(samples: seq<uint64>, i: nat, base: uint64)
    requires i < |samples|
    ensures Offsets(samples[..i + 1], base) == Offsets(samples[..i], base) + (samples[i] - base)
  {
    assert samples[..i + 1][..i] == samples[..i];
    assert (i + 1) * base == i * base + base;
  }

  lemma AccumulateWraps(a: int, x: uint64, base: uint64)
    ensures Wrap64(Wrap64(a) + Subtract64(x, base)) == Wrap64(a + (x - base))
  {
  }

  /** The error is half the mean step, rounded down: 2 * (n - 1) of it fit between the first
      and the last sample, and no more. */
  lemma ErrorMeans(ts: seq<uint64>)
    requires 2 <= |ts| <= 0x8000_0000 && ts[0] <= ts[|ts| - 1]
    ensures var steps := 2 * (|ts| - 1); var span := ts[|ts| - 1] - ts[0];
      steps * ErrorOf(ts) <= span < steps * (ErrorOf(ts) + 1)
  {
    var steps, span := 2 * (|ts| - 1), ts[|ts| - 1] - ts[0];
    assert Wrap32(steps) == steps && Subtract64(ts[|ts| - 1], ts[0]) == span;
    assert span == steps * (span / steps) + span % steps;
    assert steps * (span / steps + 1) == steps * (span / steps) + steps;
  }

  /** `correlated_pair_ns` on the samples taken. The source divides by the number of
      steps and twice that number in 32 bits, so it needs at least two samples and not
      2^31 + 1 of them. `toNs` is the floating-point clock conversion. */
  method CorrelatedPair(ts: seq<uint64>, tm: seq<Timespec>, toNs: uint64 -> uint64)
    returns (timestampV: uint64, timeV: uint64, errorV: uint64)
    requires 2 <= |ts| < TWO_32 && |ts| != 0x8000_0001 && |tm| == |ts|
    ensures errorV == ErrorOf(ts)
    ensures |ts| <= 0x8000_0000 && ts[0] <= ts[|ts| - 1] ==>
      var steps := 2 * (|ts| - 1); steps * errorV <= ts[|ts| - 1] - ts[0] < steps * (errorV + 1)
    ensures timestampV == Wrap64(Computed(ts, toNs(ts[0])) + errorV)
    ensures var ns := AllNs(tm);
      && timeV == Computed(ns, ns[0])
      && (timeV == Mean(ns) <==> 0 <= Offsets(ns, ns[0]) < TWO_64)
  {
    var ns := AllNs(tm);
    var tsBase, tmBase := toNs(ts[0]), ns[0];
    errorV := ErrorOf(ts);
    var tsAccum, tmAccum := Accumulate(ts, ns, tsBase, tmBase);
    timestampV := Wrap64(tsAccum / |ts| + tsBase + errorV);
    timeV := Wrap64(tmAccum / |ns| + tmBase);
    WrapAddsRight(tsAccum / |ts| + tsBase, errorV);
    HostMeanIff(ns);
    if |ts| <= 0x8000_0000 && ts[0] <= ts[|ts| - 1] {
      ErrorMeans(ts);
    }
  }

  lemma WrapAddsRight(a: int, b: int)
    ensures Wrap64(Wrap64(a) + b) == Wrap64(a + b)
  {
  }

  /** When the 64-bit offsets of the samples from a base give their mean: the base is at
      most the mean and the offsets do not overflow, or the base is so high that they add
      up to minus one word for each sample. */
  predicate OffsetsFit(samples: seq<uint64>, base: uint64)
    requires samples != []
  {
    || (base <= Mean(samples) && Offsets(samples, base) < TWO_64)
    || Offsets(samples, base) < -(|samples| - 1) * TWO_64
  }

  /** The offsets from a base add up to nothing negative exactly when it is at most the mean. */
  lemma BaseAtMostMean(samples: seq<uint64>, base: uint64)
    requires samples != []
    ensures Offsets(samples, base) >= 0 <==> base <= Mean(samples)
  {
    var n := |samples|;
    var m, r := Mean(samples), Sum(samples) % n;
    assert Sum(samples) == m * n + r;
    if base <= m {
      ProductMonotone(n, base, m);
    } else {
      ProductMonotone(n, m + 1, base);
      assert n * (m + 1) == m * n + n;
    }
  }

  lemma QuotientIs(o: int, n: int)
    requires n >= 2 && -n * TWO_64 <= o
    ensures o / TWO_64 == 0 <==> 0 <= o < TWO_64
    ensures o / TWO_64 == -n <==> o < -(n - 1) * TWO_64
  {
  }

  /** For any samples and any base: the computed value is the mean exactly when they fit. */
  lemma MeanIffFit(samples: seq<uint64>, base: uint64)
    requires 2 <= |samples| < TWO_32
    ensures Computed(samples, base) == Mean(samples) <==> OffsetsFit(samples, base)
  {
    var n := |samples|;
    ComputedIsMeanIff(samples, base);
    BaseAtMostMean(samples, base);
    ProductMonotone(n, base, TWO_64);
    QuotientIs(Offsets(samples, base), n);
  }

  /** On the device side the base is the first sample converted to nanoseconds, while the
      samples stay in ticks. The value is the mean of the ticks plus the error exactly when
      the converted base fits the ticks; for a base of at most 2^63 that means exactly when
      it is not above their mean and the offsets do not overflow. */
  lemma DeviceMeanIff(ts: seq<uint64>, toNs: uint64 -> uint64, errorV: uint64)
    requires 2 <= |ts| < TWO_32
    ensures Wrap64(Computed(ts, toNs(ts[0])) + errorV) == Wrap64(Mean(ts) + errorV) <==> OffsetsFit(ts, toNs(ts[0]))
    ensures toNs(ts[0]) <= 0x8000_0000_0000_0000 ==>
      (OffsetsFit(ts, toNs(ts[0])) <==> toNs(ts[0]) <= Mean(ts) && Offsets(ts, toNs(ts[0])) < TWO_64)
  {
    MeanFits(ts);
    MeanIffFit(ts, toNs(ts[0]));
    WrapsAlike(Computed(ts, toNs(ts[0])), Mean(ts), errorV);
    if toNs(ts[0]) <= 0x8000_0000_0000_0000 {
      LowBase(ts, toNs(ts[0]));
    }
  }

  lemma WrapsAlike(a: uint64, b: uint64, errorV: uint64)
    ensures Wrap64(a + errorV) == Wrap64(b + errorV) <==> a == b
  {
  }

  /** A base of at most 2^63 cannot make the offsets fit from below. */
  lemma LowBase(ts: seq<uint64>, base: uint64)
    requires 2 <= |ts| && base <= 0x8000_0000_0000_0000
    ensures OffsetsFit(ts, base) <==> base <= Mean(ts) && Offsets(ts, base) < TWO_64
  {
    ProductMonotone(|ts|, base, 0x8000_0000_0000_0000);
    assert Offsets(ts, base) >= -(|ts| * 0x8000_0000_0000_0000);
  }

  /** A base above the mean fails: with ten nanoseconds to a tick, ticks 100 and 102 give
      2^63 + 101 instead of 101. */
  lemma DeviceMeanFails()
    ensures var ts: seq<uint64> := [100, 102]; var toNs := (x: uint64) => Wrap64(10 * x);
      && Mean(ts) == 101
      && Computed(ts, toNs(ts[0])) == 0x8000_0000_0000_0000 + 101
  {
    var ts: seq<uint64> := [100, 102];
    assert ts[..1] == [100] && ts[..1][..0] == [] && Sum(ts) == Sum([100]) + 102 && Sum([100]) == 100;
    assert Offsets(ts, 1000) == -1798;
  }

  /** The samples converted at so many nanoseconds to a tick. */
  function InNs(ts: seq<uint64>, factor: nat): (ns: seq<uint64>)
    ensures |ns| == |ts|
  {
    seq(|ts|, i requires 0 <= i < |ts| => Wrap64(factor * ts[i]))
  }

  lemma {:induction false} SumInNs(ts: seq<uint64>, factor: nat)
    requires forall i :: 0 <= i < |ts| ==> factor * ts[i] < TWO_64
    ensures Sum(InNs(ts, factor)) == factor * Sum(ts)
  {
    if ts != [] {
      var n := |ts| - 1;
      var ns := InNs(ts, factor);
      forall i | 0 <= i < |ts|
        ensures ns[i] == factor * ts[i]
      {
        ProductMonotone(factor, 0, ts[i]);
        WrapSmall64(factor * ts[i]);
      }
      SumInNs(ts[..n], factor);
      assert ns[..n] == InNs(ts[..n], factor);
      assert factor * Sum(ts) == factor * Sum(ts[..n]) + factor * ts[n];
    }
  }

  lemma WrapSmall64(x: int)
    requires 0 <= x < TWO_64
    ensures Wrap64(x) == x
  {
  }

  /** The ticks lie close together: none before the first, and all within `span` of it,
      which is less than the first. */
  predicate Close(ts: seq<uint64>, span: nat) {
    && 2 <= |ts| < TWO_32 && span < ts[0]
    && forall i :: 0 <= i < |ts| ==> ts[0] <= ts[i] <= ts[0] + span
  }

  /** Close ticks whose nanoseconds can be added up in 64 bits. */
  predicate ShortSampling(ts: seq<uint64>, factor: nat, span: nat) {
    Close(ts, span) && factor >= 1 && |ts| * (factor * (ts[0] + span)) < TWO_64
  }

  lemma SumBetween(ts: seq<uint64>, span: nat)
    requires Close(ts, span)
    ensures |ts| * ts[0] <= Sum(ts) <= |ts| * (ts[0] + span)
    ensures Sum(ts) < 2 * (|ts| * ts[0])
  {
    LateSamples(ts, ts[0], span);
    Between(|ts|, ts[0], span, Offsets(ts, ts[0]));
  }

  lemma Between(n: nat, first: nat, span: nat, o: int)
    requires n >= 1 && 0 <= o <= n * span && span < first
    ensures n * first + o <= n * (first + span)
    ensures n * first + o < 2 * (n * first)
  {
    assert n * (first + span) == n * first + n * span;
    ProductMonotone(n, span + 1, first);
    assert n * (span + 1) == n * span + n;
  }

  /** A value that n values of one scale stand above. */
  lemma ScaledBelow(n: nat, factor: nat, x: nat, top: nat)
    requires n >= 1 && x <= top && n * (factor * top) < TWO_64
    ensures 0 <= factor * x < TWO_64 && n * (factor * x) < TWO_64
  {
    ProductMonotone(factor, x, top);
    ProductMonotone(factor, 0, x);
    ProductMonotone(n, factor * x, factor * top);
    AtLeastOnce(n, factor * x);
  }

  lemma ScaledSum(n: nat, factor: nat, sum: nat, top: nat)
    requires sum <= n * top && n * (factor * top) < TWO_64
    ensures 0 <= factor * sum < TWO_64
  {
    ProductMonotone(factor, sum, n * top);
    ProductMonotone(factor, 0, sum);
    Regroup(factor, n, top);
    Regroup(n, factor, top);
    assert factor * n == n * factor;
    assert (factor * n) * top == factor * (top * n);
    assert (n * factor) * top == n * (top * factor);
    assert top * n == n * top && top * factor == factor * top;
  }

  /** What the assumption says of the conversion and of the sum. */
  lemma ShortBounds(ts: seq<uint64>, factor: nat, span: nat)
    requires ShortSampling(ts, factor, span)
    ensures 0 < factor * ts[0] < TWO_64 && |ts| * (factor * ts[0]) < TWO_64
    ensures |ts| * ts[0] <= Sum(ts) < 2 * (|ts| * ts[0])
    ensures 0 <= factor * Sum(ts) < TWO_64
    ensures forall i :: 0 <= i < |ts| ==> factor * ts[i] < TWO_64
  {
    var n, top := |ts|, ts[0] + span;
    SumBetween(ts, span);
    AtLeastOnce(factor, ts[0]);
    ScaledBelow(n, factor, ts[0], top);
    ScaledSum(n, factor, Sum(ts), top);
    forall i | 0 <= i < n
      ensures factor * ts[i] < TWO_64
    {
      ScaledBelow(n, factor, ts[i], top);
    }
  }

  /** With more than one nanosecond to a tick the sum of offsets wraps exactly once. */
  lemma WrapsOnce(ts: seq<uint64>, factor: nat, span: nat)
    requires ShortSampling(ts, factor, span) && factor >= 2
    ensures 0 <= factor * ts[0] < TWO_64
    ensures -TWO_64 < Offsets(ts, factor * ts[0]) < 0
    ensures Computed(ts, factor * ts[0]) == (Sum(ts) + TWO_64) / |ts|
  {
    var n, base := |ts|, factor * ts[0];
    ShortBounds(ts, factor, span);
    SumBelowTotal(ts, factor, span);
    TwiceFirst(n, factor, ts[0]);
    OneWord(Sum(ts), n, base, Offsets(ts, base));
  }

  lemma TwiceFirst(n: nat, factor: nat, first: nat)
    requires factor >= 2
    ensures 2 * (n * first) <= n * (factor * first)
  {
    ProductMonotone(first, 2, factor);
    ProductMonotone(n, first * 2, first * factor);
    assert n * (first * 2) == 2 * (n * first);
    assert first * factor == factor * first;
  }

  lemma OneWord(sum: nat, n: int, base: uint64, o: int)
    requires n >= 2 && sum < TWO_64 && o == sum - n * base && -TWO_64 < o < 0
    ensures Wrap64(Wrap64(o) / n + base) == (sum + TWO_64) / n
  {
    assert o + TWO_64 + base * n == sum + TWO_64;
    WrapSmall64(o + TWO_64);
    assert Wrap64(o) == o + TWO_64;
    DivShift(o + TWO_64, base, n);
    MeanOfTwoWords(sum + TWO_64, n);
    WrapSmall64((sum + TWO_64) / n);
  }

  lemma MeanOfTwoWords(x: int, n: int)
    requires n >= 2 && 0 <= x < 2 * TWO_64
    ensures 0 <= x / n < TWO_64
  {
    DivMonotone(x, 2 * TWO_64 - 1, n);
    DivMonotone(0, x, n);
    HalfOfTwo(n);
  }

  lemma HalfOfTwo(n: int)
    requires n >= 2
    ensures (2 * TWO_64 - 1) / n < TWO_64
  {
    var q := (2 * TWO_64 - 1) / n;
    DivMonotone(0, 2 * TWO_64 - 1, n);
    ProductMonotone(q, 2, n);
  }

  lemma SumBelowTotal(ts: seq<uint64>, factor: nat, span: nat)
    requires ShortSampling(ts, factor, span)
    ensures Sum(ts) < TWO_64
  {
    ShortBounds(ts, factor, span);
    ProductMonotone(Sum(ts), 1, factor);
  }

  lemma FactorOneRight(ts: seq<uint64>, span: nat)
    requires Close(ts, span) && Sum(ts) < TWO_64
    ensures Computed(ts, ts[0]) == Mean(ts)
  {
    LateSamples(ts, ts[0], span);
    SumBetween(ts, span);
    HostMeanIff(ts);
  }

  lemma HigherFactorWrong(ts: seq<uint64>, factor: nat, span: nat)
    requires ShortSampling(ts, factor, span) && factor >= 2
    ensures 0 <= factor * ts[0] < TWO_64
    ensures Computed(ts, factor * ts[0]) != Mean(ts)
    ensures 0 <= factor * Sum(ts) && Computed(ts, factor * ts[0]) != factor * Sum(ts) / |ts|
  {
    ShortBounds(ts, factor, span);
    WrapsOnce(ts, factor, span);
    FarAbove(Sum(ts), factor * Sum(ts), |ts|, ts[0]);
  }

  /** For a sampling shorter than the clock has been running, the device value is the mean
      of the ticks exactly when a tick is one nanosecond; and exactly then it is the mean in
      nanoseconds that it is documented to be. */
  lemma DeviceRightIffFactorOne(ts: seq<uint64>, factor: nat, span: nat)
    requires ShortSampling(ts, factor, span)
    ensures 0 <= factor * ts[0] < TWO_64
    ensures Computed(ts, factor * ts[0]) == Mean(ts) <==> factor == 1
    ensures Computed(ts, factor * ts[0]) == Mean(InNs(ts, factor)) <==> factor == 1
  {
    ShortBounds(ts, factor, span);
    SumInNs(ts, factor);
    if factor == 1 {
      SumBelowTotal(ts, factor, span);
      FactorOneRight(ts, span);
    } else {
      HigherFactorWrong(ts, factor, span);
    }
  }

  /** A sum that is one word larger has a larger quotient, also than a scaled sum below it. */
  lemma FarAbove(sum: nat, scaled: nat, n: int, first: nat)
    requires 2 <= n < TWO_32 && first >= 1 && n * first <= sum && scaled < TWO_64
    ensures (sum + TWO_64) / n > sum / n
    ensures (sum + TWO_64) / n > scaled / n
  {
    AtLeastOnce(first, n);
    DivShift(scaled, 1, n);
    DivMonotone(scaled + n, sum + TWO_64, n);
    DivShift(sum, 1, n);
    DivMonotone(sum + n, sum + TWO_64, n);
  }

  const TIME_ID_NUMBER := 5

  /** The shifts that `CorrelateTime` stores and `GetTimeVal` applies. */
  class TimeShifts {
    const timeShift: array<uint64>
    const timeError: array<uint64>

    ghost predicate Valid()
      reads this
    {
      timeShift.Length == TIME_ID_NUMBER && timeError.Length == TIME_ID_NUMBER && timeShift != timeError
    }

    constructor ()
      ensures Valid() && fresh(timeShift) && fresh(timeError)
    {
      timeShift := new uint64[TIME_ID_NUMBER];
      timeError := new uint64[TIME_ID_NUMBER];
    }

    /** Correlating a clock changes that clock's shift alone: it takes the device
        timestamp to the host time modulo 2^64, also when the difference is negative. */
    method CorrelateTime(timeId: nat, ts: seq<uint64>, tm: seq<Timespec>, toNs: uint64 -> uint64)
      requires Valid() && timeId < TIME_ID_NUMBER
      requires 2 <= |ts| < TWO_32 && |ts| != 0x8000_0001 && |tm| == |ts|
      modifies timeShift, timeError
      ensures var ns := AllNs(tm);
        Wrap64(Wrap64(Computed(ts, toNs(ts[0])) + ErrorOf(ts)) + timeShift[timeId]) == Computed(ns, ns[0])
      ensures timeError[timeId] == ErrorOf(ts)
      ensures |ts| <= 0x8000_0000 && ts[0] <= ts[|ts| - 1] ==>
        var steps := 2 * (|ts| - 1);
        steps * timeError[timeId] <= ts[|ts| - 1] - ts[0] < steps * (timeError[timeId] + 1)
      ensures forall j :: 0 <= j < TIME_ID_NUMBER && j != timeId ==>
        timeShift[j] == old(timeShift[j]) && timeError[j] == old(timeError[j])
    {
      var timestampV, timeV, errorV := CorrelatedPair(ts, tm, toNs);
      timeShift[timeId] := Subtract64(timeV, timestampV);
      timeError[timeId] := errorV;
      ShiftBack(timestampV, timeV);
    }

    /** A clock that is not in the table is refused; for the others time and timestamp are
        the stored shift apart. */
    method GetTimeVal(timeId: nat, timeStamp: uint64) returns (time: Option<uint64>)
      requires Valid()
      ensures time == None <==> timeId >= TIME_ID_NUMBER
      ensures time.Some? ==> Subtract64(time.value, timeStamp) == timeShift[timeId]
    {
      if timeId >= TIME_ID_NUMBER {
        return None;
      }
      time := Some(Wrap64(timeStamp + timeShift[timeId]));
      Apart(timeStamp, timeShift[timeId], time.value);
    }

    /** Correlate, then convert the mean device timestamp moved by d ticks. Where the host
        offsets fit, the answer is the host mean moved by d, modulo 2^64, exactly when the
        device offsets fit as well. */
    method CorrelateAndConvert(timeId: nat, ts: seq<uint64>, tm: seq<Timespec>, toNs: uint64 -> uint64, d: int)
      returns (time: Option<uint64>)
      requires Valid() && timeId < TIME_ID_NUMBER
      requires 2 <= |ts| < TWO_32 && |ts| != 0x8000_0001 && |tm| == |ts|
      modifies timeShift, timeError
      ensures var ns := AllNs(tm);
        0 <= Offsets(ns, ns[0]) < TWO_64 ==>
          (time == Some(Wrap64(Mean(ns) + d)) <==> OffsetsFit(ts, toNs(ts[0])))
    {
      CorrelateTime(timeId, ts, tm, toNs);
      ghost var ns := AllNs(tm);
      var stamp := Wrap64(Mean(ts) + ErrorOf(ts) + d);
      time := GetTimeVal(timeId, stamp);
      ConvertedMeanIff(ts, toNs, timeShift[timeId], d, ns, time.value);
    }
  }

  /** The stored shift takes the mean of the ticks plus the error, moved by d, to the host
      value moved by d exactly when the device offsets fit. */
  lemma ConvertedMeanIff(ts: seq<uint64>, toNs: uint64 -> uint64, shift: uint64, d: int, ns: seq<uint64>, time: uint64)
    requires 2 <= |ts| < TWO_32 && |ts| != 0x8000_0001 && |ns| == |ts|
    requires Wrap64(Wrap64(Computed(ts, toNs(ts[0])) + ErrorOf(ts)) + shift) == Computed(ns, ns[0])
    requires Subtract64(time, Wrap64(Mean(ts) + ErrorOf(ts) + d)) == shift
    ensures 0 <= Offsets(ns, ns[0]) < TWO_64 ==>
      (time == Wrap64(Mean(ns) + d) <==> OffsetsFit(ts, toNs(ts[0])))
  {
    HostMeanIff(ns);
    DeviceMeanIff(ts, toNs, ErrorOf(ts));
    MovedTimeIff(Mean(ts) + ErrorOf(ts), Computed(ts, toNs(ts[0])) + ErrorOf(ts), shift, d, Computed(ns, ns[0]), time);
  }

  lemma MovedTimeIff(u: int, v: int, shift: uint64, d: int, timeV: uint64, time: uint64)
    requires Wrap64(Wrap64(v) + shift) == timeV && Subtract64(time, Wrap64(u + d)) == shift
    ensures time == Wrap64(timeV + d) <==> Wrap64(v) == Wrap64(u)
  {
    Apart(Wrap64(u + d), shift, time);
    ConvertedIff(u, v, shift, d);
  }

  /** The shift that takes v to a time takes u, both moved by d, there exactly when u is v. */
  lemma ConvertedIff(u: int, v: int, shift: uint64, d: int)
    ensures Wrap64(Wrap64(u + d) + shift) == Wrap64(Wrap64(Wrap64(v) + shift) + d) <==> Wrap64(v) == Wrap64(u)
  {
    MovedBy(u, d, shift);
    MovedIff(Wrap64(u), Wrap64(v), shift);
    MovedIff(Wrap64(Wrap64(u) + shift), Wrap64(Wrap64(v) + shift), d % TWO_64);
    WrapAdds(Wrap64(Wrap64(u) + shift), d);
    WrapAdds(Wrap64(Wrap64(v) + shift), d);
  }

  lemma WrapAdds(a: int, d: int)
    ensures Wrap64(a + d % TWO_64) == Wrap64(a + d)
  {
  }

  lemma MovedIff(u: uint64, v: uint64, shift: uint64)
    ensures Wrap64(u + shift) == Wrap64(v + shift) <==> u == v
  {
  }

  /** `time` and `stamp` are `shift` apart. */
  lemma Apart(stamp: uint64, shift: uint64, time: uint64)
    ensures Subtract64(time, stamp) == shift <==> time == Wrap64(stamp + shift)
  {
  }

  /** Two timestamps converted with one shift: their distance stays, and the order stays
      exactly when the 64-bit wrap does not come between the two times. */
  lemma TimesKeepDistance(x: uint64, y: uint64, shift: uint64, u: uint64, v: uint64)
    requires Subtract64(u, x) == shift && Subtract64(v, y) == shift && x <= y
    ensures Subtract64(v, u) == y - x
    ensures u <= v <==> !(x + shift < TWO_64 <= y + shift)
  {
    Apart(x, shift, u);
    Apart(y, shift, v);
  }

  lemma ShiftBack(timestampV: uint64, timeV: uint64)
    ensures Wrap64(timestampV + Subtract64(timeV, timestampV)) == timeV
  {
  }

  lemma MovedBy(a: int, d: int, shift: int)
    ensures Wrap64(Wrap64(a + d) + shift) == Wrap64(Wrap64(Wrap64(a) + shift) + d)
  {
    WrapAddsRight(a + d, shift);
    WrapAddsRight(a, shift + d);
    WrapAddsRight(Wrap64(a) + shift, d);
  }
}
