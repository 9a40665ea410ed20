/** One row of the pheromone matrix: what a deposit and an evaporation do to it, and what any
    number of them amounts to. */
module Traces {
  import opened RealMath

  /** Success V, latency L, saturation S and capability fit C of a node. */
  datatype Row = Row(v: real, l: real, s: real, c: real)

  const BASELINE := Row(1.0, 0.1, 0.0, 1.0)

  /** The outcome of one inference, as deposited. */
  datatype Sample = Sample(latency: real, success: bool, activeLoad: int, capability: real)

  /** Which of the two optional columns evaporate. */
  datatype Flags = Flags(success: bool, capability: bool)

  function Clamp(x: real): real {
    if x < 0.0 then 0.0 else if x > 1.0 then 1.0 else x
  }

  /** Clamping gives the nearest point of [0, 1]. */
  lemma ClampIsNearest(x: real, y: real)
    requires 0.0 <= y <= 1.0
    ensures 0.0 <= Clamp(x) <= 1.0
    ensures Distance(Clamp(x), x) <= Distance(y, x)
  {
  }

  function Distance(a: real, b: real): real {
    if a < b then b - a else a - b
  }

  function SuccessValue(success: bool): real {
    if success then 1.0 else 0.0
  }

  /** Moving average with weight one half. */
  function Blend(previous: real, observed: real): real {
    0.5 * observed + 0.5 * previous
  }

  function DepositRow(row: Row, x: Sample, saturationScale: real): Row {
    Row(Blend(row.v, SuccessValue(x.success)),
        Blend(row.l, x.latency),
        x.activeLoad as real * saturationScale,
        Blend(row.c, Clamp(x.capability)))
  }

  /** Multiplies the decaying columns by `factor`. */
  function ScaleRow(row: Row, factor: real, flags: Flags): Row {
    Row(if flags.success then row.v * factor else row.v,
        row.l * factor,
        row.s * factor,
        if flags.capability then row.c * factor else row.c)
  }

  lemma ScaledColumns(row: Row, k: real, flags: Flags)
    ensures var row' := ScaleRow(row, k, flags);
            && row'.v == (if flags.success then row.v * k else row.v)
            && row'.l == row.l * k && row'.s == row.s * k
            && row'.c == (if flags.capability then row.c * k else row.c)
  {
  }

  function EvaporateRow(row: Row, rate: real, flags: Flags): Row {
    ScaleRow(row, 1.0 - rate, flags)
  }

  // ------------------------------------------------------------------ many deposits

  function DepositAll(row: Row, xs: seq<Sample>, saturationScale: real): Row {
    if xs == [] then row
    else DepositRow(DepositAll(row, xs[..|xs| - 1], saturationScale), xs[|xs| - 1], saturationScale)
  }

  /** The sum over the first k observations of 2^-(n-i) times the i-th. */
  function Kernel(observed: seq<real>, n: nat, k: nat): real
    requires k <= |observed| && k <= n
  {
    if k == 0 then 0.0 else Kernel(observed, n, k - 1) + Pow(0.5, n - (k - 1)) * observed[k - 1]
  }

  /** The closed form of a column after the observations: 2^-n x0 + sum of 2^-(n-i) xi. */
  function Smoothed(start: real, observed: seq<real>): real {
    Pow(0.5, |observed|) * start + Kernel(observed, |observed|, |observed|)
  }

  lemma {:induction false} KernelHalves(observed: seq<real>, more: seq<real>, n: nat, k: nat)
    requires k <= |observed| && k <= n && observed <= more
    ensures Kernel(more, n + 1, k) == 0.5 * Kernel(observed, n, k)
  {
    if k > 0 {
      KernelHalves(observed, more, n, k - 1);
      var p := Pow(0.5, n - (k - 1));
      assert Pow(0.5, n + 1 - (k - 1)) == 0.5 * p;
      assert 0.5 * p * observed[k - 1] == 0.5 * (p * observed[k - 1]);
    }
  }

  lemma SmoothedStep(start: real, observed: seq<real>, x: real)
    ensures Smoothed(start, observed + [x]) == Blend(Smoothed(start, observed), x)
  {
    var n, more := |observed|, observed + [x];
    KernelHalves(observed, more, n, n);
    assert Pow(0.5, 1) == 0.5 * Pow(0.5, 0);
    assert Kernel(more, n + 1, n + 1) == Kernel(more, n + 1, n) + Pow(0.5, 1) * x;
    assert Pow(0.5, n + 1) * start == 0.5 * (Pow(0.5, n) * start);
  }

  function Latencies(xs: seq<Sample>): seq<real> {
    seq(|xs|, i requires 0 <= i < |xs| => xs[i].latency)
  }

  function Successes(xs: seq<Sample>): seq<real> {
    seq(|xs|, i requires 0 <= i < |xs| => SuccessValue(xs[i].success))
  }

  function Capabilities(xs: seq<Sample>): seq<real> {
    seq(|xs|, i requires 0 <= i < |xs| => Clamp(xs[i].capability))
  }

  /** After any deposits without evaporation, V, L and C are the closed form of their observations
      and S is the last load. */
  lemma {:induction false} DepositsClosedForm(row: Row, xs: seq<Sample>, saturationScale: real)
    ensures var after := DepositAll(row, xs, saturationScale);
            && after.v == Smoothed(row.v, Successes(xs))
            && after.l == Smoothed(row.l, Latencies(xs))
            && after.c == Smoothed(row.c, Capabilities(xs))
            && (xs != [] ==> after.s == xs[|xs| - 1].activeLoad as real * saturationScale)
  {
    if xs != [] {
      var prefix, x := xs[..|xs| - 1], xs[|xs| - 1];
      DepositsClosedForm(row, prefix, saturationScale);
      SmoothedStep(row.v, Successes(prefix), SuccessValue(x.success));
      SmoothedStep(row.l, Latencies(prefix), x.latency);
      SmoothedStep(row.c, Capabilities(prefix), Clamp(x.capability));
      assert Successes(xs) == Successes(prefix) + [SuccessValue(x.success)];
      assert Latencies(xs) == Latencies(prefix) + [x.latency];
      assert Capabilities(xs) == Capabilities(prefix) + [Clamp(x.capability)];
    }
  }

  /** The closed form stays between the extremes of the start and the observations. */
  lemma {:induction false} SmoothedBetween(start: real, observed: seq<real>, lo: real, hi: real)
    requires lo <= start <= hi
    requires forall i :: 0 <= i < |observed| ==> lo <= observed[i] <= hi
    ensures lo <= Smoothed(start, observed) <= hi
  {
    if observed != [] {
      var prefix := observed[..|observed| - 1];
      SmoothedBetween(start, prefix, lo, hi);
      SmoothedStep(start, prefix, observed[|observed| - 1]);
      assert observed == prefix + [observed[|observed| - 1]];
    }
  }

  /** n identical observations shrink the error by exactly 2^-n. */
  lemma {:induction false} IdenticalObservations(start: real, x: real, observed: seq<real>)
    requires forall i :: 0 <= i < |observed| ==> observed[i] == x
    ensures Smoothed(start, observed) - x == Pow(0.5, |observed|) * (start - x)
  {
    if observed != [] {
      var prefix := observed[..|observed| - 1];
      IdenticalObservations(start, x, prefix);
      assert observed == prefix + [x];
      SmoothedStep(start, prefix, x);
      assert Pow(0.5, |observed|) * (start - x) == 0.5 * (Pow(0.5, |prefix|) * (start - x));
    }
  }

  // ------------------------------------------------------------------ many evaporations

  function EvaporateTimes(row: Row, rate: real, flags: Flags, n: nat): Row {
    if n == 0 then row else EvaporateRow(EvaporateTimes(row, rate, flags, n - 1), rate, flags)
  }

  lemma {:induction false} EvaporateTimesIsPower(row: Row, rate: real, flags: Flags, n: nat)
    ensures EvaporateTimes(row, rate, flags, n) == ScaleRow(row, Pow(1.0 - rate, n), flags)
  {
    hide ScaleRow;
    if n == 0 {
      ScaleByOne(row, flags);
    } else {
      EvaporateTimesIsPower(row, rate, flags, n - 1);
      var b := 1.0 - rate;
      var p := Pow(b, n - 1);
      assert Pow(b, n) == b * p;
      ScaleTwice(row, p, b, flags);
    }
  }

  lemma ScaleByOne(row: Row, flags: Flags)
    ensures ScaleRow(row, 1.0, flags) == row
  {
  }

  lemma ScaleTwice(row: Row, f: real, g: real, flags: Flags)
    ensures ScaleRow(ScaleRow(row, f, flags), g, flags) == ScaleRow(row, g * f, flags)
  {
    var fg := g * f;
    Regroup(row.v, f, g);
    Regroup(row.l, f, g);
    Regroup(row.s, f, g);
    Regroup(row.c, f, g);
  }

  lemma Regroup(x: real, f: real, g: real)
    ensures x * f * g == x * (g * f)
  {
  }

  /** n evaporations keep the latency between L0 (1 - n d) and L0 / (1 + n d). */
  lemma LatencyAfterEvaporations(row: Row, rate: real, flags: Flags, n: nat)
    requires 0.0 <= rate < 1.0 && row.l >= 0.0
    ensures var l := EvaporateTimes(row, rate, flags, n).l;
            && row.l * (1.0 - n as real * rate) <= l
            && l <= row.l / (1.0 + n as real * rate)
  {
    LatencyIsPower(row, rate, flags, n);
    BetweenPowers(row.l, EvaporateTimes(row, rate, flags, n).l, rate, n);
  }

  lemma LatencyIsPower(row: Row, rate: real, flags: Flags, n: nat)
    ensures EvaporateTimes(row, rate, flags, n).l == row.l * Pow(1.0 - rate, n)
  {
    EvaporateTimesIsPower(row, rate, flags, n);
  }

  lemma BetweenPowers(start: real, l: real, rate: real, n: nat)
    requires 0.0 <= rate < 1.0 && start >= 0.0 && l == start * Pow(1.0 - rate, n)
    ensures start * (1.0 - n as real * rate) <= l <= start / (1.0 + n as real * rate)
  {
    Bernoulli(rate, n);
    var decay := n as real * rate;
    assert decay >= 0.0;
    Sandwich(start, Pow(1.0 - rate, n), l, decay);
  }

  lemma Sandwich(l: real, p: real, scaled: real, decay: real)
    requires l >= 0.0 && decay >= 0.0 && p >= 1.0 - decay && p * (1.0 + decay) <= 1.0 && scaled == l * p
    ensures l * (1.0 - decay) <= scaled <= l / (1.0 + decay)
  {
    var k := 1.0 + decay;
    ScaleMonotone(1.0 - decay, p, l);
    ScaleMonotone(p * k, 1.0, l);
    assert l * p * k == l * (p * k);
    CompareQuotients(l * p, 1.0, l, k);
  }

  /** The deposit made for a worker whose heartbeat has expired. */
  const FAILURE := Sample(999.0, false, 0, 0.0)

  lemma AtLeastThreshold(l: real, k: real, threshold: real, base: real)
    requires base > 0.0 && threshold > 0.0 && l >= base && k >= threshold / base
    ensures l * k >= threshold
  {
    assert threshold / base > 0.0;
    assert threshold / base * base == threshold;
    ScaleMonotone(threshold / base, k, base);
    ScaleMonotone(base, l, k);
  }

  lemma AtMostThreshold(l: real, k: real, threshold: real)
    requires threshold > 0.0 && k > 0.0 && k >= l / threshold
    ensures l / k <= threshold
  {
    assert l / threshold * threshold == l;
    ScaleMonotone(l / threshold, k, threshold);
    CompareQuotients(l, k, threshold, 1.0);
  }

  /** When a latency between the two Bernoulli bounds is above and below a threshold. */
  lemma ThresholdCrossed(start: real, l: real, decay: real, threshold: real, base: real)
    requires 0.0 < base <= start && decay >= 0.0 && threshold > 0.0
    requires start * (1.0 - decay) <= l <= start / (1.0 + decay)
    ensures decay <= 1.0 - threshold / base ==> l >= threshold
    ensures 1.0 + decay >= start / threshold ==> l <= threshold
  {
    if 1.0 - decay >= threshold / base {
      AtLeastThreshold(start, 1.0 - decay, threshold, base);
    }
    if 1.0 + decay >= start / threshold {
      AtMostThreshold(start, 1.0 + decay, threshold);
    }
  }

  /** How long a pruned node keeps its penalty: its latency is still at least `threshold` after n
      ticks while n d <= 1 - threshold / 499.5, and at most `threshold` once 1 + n d reaches
      (499.5 + L / 2) / threshold. */
  lemma PenaltyDuration(row: Row, scale: real, rate: real, flags: Flags, n: nat, threshold: real)
    requires 0.0 <= rate < 1.0 && row.l >= 0.0 && threshold > 0.0
    ensures var pruned := DepositRow(row, FAILURE, scale);
            var l := EvaporateTimes(pruned, rate, flags, n).l;
            && pruned.l == 499.5 + row.l / 2.0
            && (n as real * rate <= 1.0 - threshold / 499.5 ==> l >= threshold)
            && (1.0 + n as real * rate >= (499.5 + row.l / 2.0) / threshold ==> l <= threshold)
  {
    hide EvaporateTimes;
    var pruned := DepositRow(row, FAILURE, scale);
    LatencyAfterEvaporations(pruned, rate, flags, n);
    ScaleMonotone(0.0, n as real, rate);
    ThresholdCrossed(pruned.l, EvaporateTimes(pruned, rate, flags, n).l, n as real * rate, threshold, 499.5);
  }
}
