/** The atomic sliding-window script of the rate limiter, over a counter map that never expires.

    The script works on floats; here it works on exact reals, and every proof goes through the
    same quantity multiplied by the window length, which is an integer. */
module SlidingWindow {

  /** Bucket index -> cost accumulated in that bucket. */
  type Buckets = map<int, int>

  datatype Reply = Reply(allowed: bool, usage: real, remaining: real, reset: int)

  datatype Call = Call(now: int, cost: int)

  function CountOf(counts: Buckets, bucket: int): int {
    if bucket in counts then counts[bucket] else 0
  }

  /** prev * (1 - fraction) + current, as the script computes it. */
  function Weighted(prev: int, current: int, now: int, window: int): real
    requires window > 0
  {
    var fraction := (now - now / window * window) as real / window as real;
    prev as real * (1.0 - fraction) + current as real
  }

  /** The reply of the script when it reads `prev` and `current` from the hash. */
  function ReplyTo(prev: int, current: int, now: int, window: int, limit: int, cost: int): Reply
    requires window > 0
  {
    var weighted := Weighted(prev, current, now, window);
    var reset := (now / window + 1) * window - now;
    if weighted + cost as real > limit as real then
      Reply(false, weighted, limit as real - weighted, reset)
    else
      var charged := Weighted(prev, current + cost, now, window);
      Reply(true, charged, limit as real - charged, reset)
  }

  function Answer(counts: Buckets, now: int, window: int, limit: int, cost: int): Reply
    requires window > 0
  {
    ReplyTo(CountOf(counts, now / window - 1), CountOf(counts, now / window), now, window, limit, cost)
  }

  predicate Admits(counts: Buckets, now: int, window: int, limit: int, cost: int)
    requires window > 0
  {
    Answer(counts, now, window, limit, cost).allowed
  }

  /** The hash after the script: an admitted call is charged to the current bucket, a refused one
      changes nothing. */
  function Charge(counts: Buckets, now: int, window: int, limit: int, cost: int): Buckets
    requires window > 0
  {
    if Admits(counts, now, window, limit, cost)
    then counts[now / window := CountOf(counts, now / window) + cost]
    else counts
  }

  /** Weighted usage times the window length. */
  function Scaled(counts: Buckets, now: int, window: int): int
    requires window > 0
  {
    CountOf(counts, now / window - 1) * (window - now % window) + CountOf(counts, now / window) * window
  }

  lemma WeightedTimesWindow(prev: int, current: int, now: int, window: int)
    requires window > 0
    ensures Weighted(prev, current, now, window) * window as real
            == (prev * (window - now % window) + current * window) as real
  {
    var w := window as real;
    var into := now - now / window * window;
    assert into == now % window;
    var fraction := into as real / w;
    assert fraction * w == into as real;
    assert (prev as real * (1.0 - fraction) + current as real) * w
        == prev as real * (w - fraction * w) + current as real * w;
    assert prev as real * (w - into as real) == (prev * (window - into)) as real;
    assert current as real * w == (current * window) as real;
  }

  lemma ScaleCompare(a: real, b: real, w: real)
    requires w > 0.0
    ensures a > b <==> a * w > b * w
  {
    if a > b { assert (a - b) * w > 0.0; } else { assert (b - a) * w >= 0.0; }
  }

  /** The script's float test decides exactly the integer inequality. */
  lemma AdmitsIffScaled(counts: Buckets, now: int, window: int, limit: int, cost: int)
    requires window > 0
    ensures Admits(counts, now, window, limit, cost)
            <==> Scaled(counts, now, window) + cost * window <= limit * window
  {
    hide Weighted;
    var prev, current := CountOf(counts, now / window - 1), CountOf(counts, now / window);
    WeightedTimesWindow(prev, current, now, window);
    FloatTest(Weighted(prev, current, now, window), Scaled(counts, now, window), window, limit, cost);
  }

  lemma FloatTest(weighted: real, scaled: int, window: int, limit: int, cost: int)
    requires window > 0 && weighted * window as real == scaled as real
    ensures weighted + cost as real > limit as real <==> scaled + cost * window > limit * window
  {
    var w := window as real;
    ScaleCompare(weighted + cost as real, limit as real, w);
    assert (weighted + cost as real) * w == weighted * w + cost as real * w;
    assert cost as real * w == (cost * window) as real;
    assert limit as real * w == (limit * window) as real;
  }

  // ------------------------------------------------------------------ runs of calls

  /** The counter map after a run of calls against one key with a fixed limit. */
  function Run(calls: seq<Call>, window: int, limit: int): Buckets
    requires window > 0
  {
    if calls == [] then map[]
    else
      var last := calls[|calls| - 1];
      Charge(Run(calls[..|calls| - 1], window, limit), last.now, window, limit, last.cost)
  }

  /** Total cost of the calls of the run that were admitted at a time in (after, upTo]. */
  function Admitted(calls: seq<Call>, window: int, limit: int, after: int, upTo: int): int
    requires window > 0
  {
    if calls == [] then 0
    else
      var prefix, last := calls[..|calls| - 1], calls[|calls| - 1];
      Admitted(prefix, window, limit, after, upTo)
      + (if after < last.now <= upTo && Admits(Run(prefix, window, limit), last.now, window, limit, last.cost)
         then last.cost else 0)
  }

  /** One more call. */
  lemma OneMoreCall(calls: seq<Call>, c: Call, window: int, limit: int, lo: int, hi: int)
    requires window > 0
    ensures Run(calls + [c], window, limit) == Charge(Run(calls, window, limit), c.now, window, limit, c.cost)
    ensures Admitted(calls + [c], window, limit, lo, hi) ==
            Admitted(calls, window, limit, lo, hi)
            + (if lo < c.now <= hi && Admits(Run(calls, window, limit), c.now, window, limit, c.cost)
               then c.cost else 0)
  {
    hide Admits;
    assert (calls + [c])[..|calls|] == calls;
  }

  ghost predicate ClockNeverRunsBack(calls: seq<Call>) {
    forall i, j :: 0 <= i < j < |calls| ==> calls[i].now <= calls[j].now
  }

  ghost predicate NonNegativeCosts(calls: seq<Call>) {
    forall i :: 0 <= i < |calls| ==> calls[i].cost >= 0
  }

  ghost predicate NoLaterThan(calls: seq<Call>, now: int) {
    forall i :: 0 <= i < |calls| ==> calls[i].now <= now
  }

  /** A run the two quotas can produce: monotone clock, no negative cost. */
  ghost predicate Proper(calls: seq<Call>) {
    ClockNeverRunsBack(calls) && NonNegativeCosts(calls)
  }

  /** A call that read the clock at n' and executes after one that read n: n' lies in an earlier bucket
      than n, less than a window before it. */
  predicate Overtaken(n: int, n': int, window: int)
    requires window > 0
  {
    n' / window < n / window && n - n' < window
  }

  /** Clock readings in the order of execution, none of them overtaken. */
  ghost predicate NoneOvertaken(readings: seq<int>, window: int)
    requires window > 0
  {
    forall i, j :: 0 <= i < j < |readings| ==> !Overtaken(readings[i], readings[j], window)
  }

  function Readings(calls: seq<Call>): seq<int> {
    seq(|calls|, i requires 0 <= i < |calls| => calls[i].now)
  }

  /** A clock that never runs back overtakes nothing. */
  lemma ForwardClock(calls: seq<Call>, window: int)
    requires window > 0 && ClockNeverRunsBack(calls)
    ensures NoneOvertaken(Readings(calls), window)
  {
    forall i, j | 0 <= i < j < |calls| ensures calls[i].now / window <= calls[j].now / window {
      DivisionMonotone(calls[i].now, calls[j].now, window);
    }
  }

  lemma {:induction false} AdmittedSplits(calls: seq<Call>, window: int, limit: int, lo: int, mid: int, hi: int)
    requires window > 0 && lo <= mid <= hi && NonNegativeCosts(calls)
    ensures Admitted(calls, window, limit, lo, hi)
            == Admitted(calls, window, limit, lo, mid) + Admitted(calls, window, limit, mid, hi)
    ensures Admitted(calls, window, limit, lo, mid) >= 0 && Admitted(calls, window, limit, mid, hi) >= 0
  {
    hide Admits;
    if calls != [] {
      AdmittedSplits(calls[..|calls| - 1], window, limit, lo, mid, hi);
    }
  }

  lemma {:induction false} NothingAdmitted(calls: seq<Call>, window: int, limit: int, lo: int, hi: int)
    requires window > 0 && forall i :: 0 <= i < |calls| ==> !(lo < calls[i].now <= hi)
    ensures Admitted(calls, window, limit, lo, hi) == 0
  {
    hide Admits;
    if calls != [] {
      NothingAdmitted(calls[..|calls| - 1], window, limit, lo, hi);
    }
  }

  /** A window within another one admits no more. */
  lemma AdmittedWithin(calls: seq<Call>, window: int, limit: int, lo: int, lo': int, hi': int, hi: int)
    requires window > 0 && lo <= lo' <= hi' <= hi && NonNegativeCosts(calls)
    ensures 0 <= Admitted(calls, window, limit, lo', hi') <= Admitted(calls, window, limit, lo, hi)
  {
    hide Admitted;
    AdmittedSplits(calls, window, limit, lo, lo', hi);
    AdmittedSplits(calls, window, limit, lo', hi', hi);
  }

  lemma TimesMonotone(a: int, b: int, w: int)
    requires w > 0
    ensures a <= b <==> a * w <= b * w
  {
    if a <= b { assert (b - a) * w >= 0; } else { assert (a - b) * w > 0; }
  }

  lemma Quotient(now: int, window: int, q: int, r: int)
    requires window > 0 && now == q * window + r && 0 <= r < window
    ensures now / window == q && now % window == r
  {
    var q', r' := now / window, now % window;
    assert now == q' * window + r';
    assert (q' - q) * window == r - r';
    TimesMonotone(q' - q, 0, window);
    TimesMonotone(q' - q, 1, window);
    TimesMonotone(1, q' - q, window);
    TimesMonotone(0, q' - q, window);
    TimesMonotone(q' - q, -1, window);
  }

  lemma BucketInterval(now: int, window: int, bucket: int)
    requires window > 0
    ensures now / window == bucket <==> bucket * window - 1 < now <= bucket * window + window - 1
    ensures now / window == bucket ==> now % window == now - bucket * window
  {
    if bucket * window - 1 < now <= bucket * window + window - 1 {
      Quotient(now, window, bucket, now - bucket * window);
    }
  }

  /** A stored counter is exactly the cost admitted while its bucket was current. */
  lemma {:induction false} CounterIsAdmittedCost(calls: seq<Call>, window: int, limit: int, bucket: int)
    requires window > 0
    ensures CountOf(Run(calls, window, limit), bucket)
            == Admitted(calls, window, limit, bucket * window - 1, bucket * window + window - 1)
  {
    hide Admits;
    if calls != [] {
      CounterIsAdmittedCost(calls[..|calls| - 1], window, limit, bucket);
      BucketInterval(calls[|calls| - 1].now, window, bucket);
    }
  }

  lemma CounterNonNegative(calls: seq<Call>, window: int, limit: int, bucket: int)
    requires window > 0 && NonNegativeCosts(calls)
    ensures CountOf(Run(calls, window, limit), bucket) >= 0
  {
    hide Admits;
    CounterIsAdmittedCost(calls, window, limit, bucket);
    AdmittedSplits(calls, window, limit, bucket * window - 1, bucket * window - 1, bucket * window + window - 1);
  }

  /** What admission says about the two counters it read. */
  lemma AdmissionBound(counts: Buckets, now: int, window: int, limit: int, cost: int)
    requires window > 0 && cost >= 0
    requires CountOf(counts, now / window - 1) >= 0
    requires Admits(counts, now, window, limit, cost)
    ensures CountOf(counts, now / window) + cost <= limit
    ensures CountOf(counts, now / window - 1) * (window - now % window)
            + (CountOf(counts, now / window) + cost) * window <= limit * window
  {
    AdmitsIffScaled(counts, now, window, limit, cost);
    var prev, charged := CountOf(counts, now / window - 1), CountOf(counts, now / window) + cost;
    assert (CountOf(counts, now / window) + cost) * window == CountOf(counts, now / window) * window + cost * window;
    assert prev * (window - now % window) >= 0;
    assert charged * window <= limit * window;
    TimesMonotone(charged, limit, window);
  }

  /** No bucket ever collects more than the limit. */
  lemma {:induction false} CounterWithinLimit(calls: seq<Call>, window: int, limit: int, bucket: int)
    requires window > 0 && limit >= 0 && NonNegativeCosts(calls)
    ensures 0 <= CountOf(Run(calls, window, limit), bucket) <= limit
  {
    hide Admits;
    CounterNonNegative(calls, window, limit, bucket);
    if calls != [] {
      var prefix, last := calls[..|calls| - 1], calls[|calls| - 1];
      CounterWithinLimit(prefix, window, limit, bucket);
      var counts := Run(prefix, window, limit);
      if Admits(counts, last.now, window, limit, last.cost) && bucket == last.now / window {
        CounterNonNegative(prefix, window, limit, bucket - 1);
        AdmissionBound(counts, last.now, window, limit, last.cost);
      }
    }
  }

  /** The step case of the window bound: what is admitted now, plus the whole previous bucket,
      at offset `into` of the current bucket. */
  lemma CarryOver(prev: int, charged: int, window: int, limit: int, into: int, offset: int)
    requires window > 0 && 0 <= prev <= limit && 0 <= into <= offset < window
    requires prev * (window - into) + charged * window <= limit * window
    ensures (charged + prev) * window <= limit * (window + offset)
  {
    assert prev * (window - into) == prev * window - prev * into;
    assert prev * into <= limit * offset by {
      assert (limit - prev) * into >= 0;
      assert limit * (offset - into) >= 0;
    }
    assert (charged + prev) * window == charged * window + prev * window;
    assert limit * (window + offset) == limit * window + limit * offset;
  }

  /** The first part of a window and its last call in the order of execution: nothing of the second
      part has executed, and the first part is within its bucket's counter. */
  lemma EndsInFirstPart(calls: seq<Call>, window: int, limit: int, t: int)
    requires window > 0 && limit >= 0 && NonNegativeCosts(calls) && NoneOvertaken(Readings(calls), window)
    requires calls != [] && t - window < calls[|calls| - 1].now < t / window * window
    ensures Admitted(calls, window, limit, t - window, t) <= limit
  {
    hide Admitted;
    var bucket, last := t / window, calls[|calls| - 1];
    var mid := bucket * window - 1;
    assert (bucket - 1) * window == bucket * window - window;
    BucketInterval(last.now, window, bucket - 1);
    forall i | 0 <= i < |calls| ensures !(mid < calls[i].now <= t) {
      BucketInterval(calls[i].now, window, bucket);
      assert i < |calls| - 1 ==> !Overtaken(Readings(calls)[i], Readings(calls)[|calls| - 1], window);
    }
    NothingAdmitted(calls, window, limit, mid, t);
    AdmittedSplits(calls, window, limit, t - window, mid, t);
    AdmittedWithin(calls, window, limit, mid - window, t - window, mid, mid);
    CounterIsAdmittedCost(calls, window, limit, bucket - 1);
    CounterWithinLimit(calls, window, limit, bucket - 1);
  }

  /** Two counters at offset `into` of a bucket, the current one charged, within the limit. */
  ghost predicate Fits(prev: int, charged: int, into: int, window: int, limit: int) {
    0 <= prev <= limit && prev * (window - into) + charged * window <= limit * window
  }

  lemma SecondPartBound(total: int, prev: int, charged: int, window: int, limit: int, into: int, offset: int)
    requires window > 0 && 0 <= into <= offset < window && Fits(prev, charged, into, window, limit)
    requires total <= charged + prev
    ensures total * window <= limit * (window + offset)
  {
    CarryOver(prev, charged, window, limit, into, offset);
    TimesMonotone(total, charged + prev, window);
  }

  /** What an admitted call in the second part says about the counters it read. */
  lemma ChargeFits(calls: seq<Call>, c: Call, window: int, limit: int, t: int)
    requires window > 0 && limit >= 0 && NonNegativeCosts(calls) && c.cost >= 0
    requires t / window * window <= c.now <= t && Admits(Run(calls, window, limit), c.now, window, limit, c.cost)
    ensures var counts := Run(calls, window, limit);
            Fits(CountOf(counts, t / window - 1), CountOf(counts, t / window) + c.cost, c.now % window, window, limit)
    ensures c.now % window <= t % window
  {
    hide Admits, Admitted, Run;
    BucketInterval(c.now, window, t / window);
    CounterWithinLimit(calls, window, limit, t / window - 1);
    AdmissionBound(Run(calls, window, limit), c.now, window, limit, c.cost);
  }

  /** The last call is charged in the second part: what the script read bounds both parts. */
  lemma EndsInSecondPart(calls: seq<Call>, c: Call, window: int, limit: int, t: int)
    requires window > 0 && limit >= 0 && NonNegativeCosts(calls) && c.cost >= 0
    requires t / window * window <= c.now <= t && Admits(Run(calls, window, limit), c.now, window, limit, c.cost)
    ensures (Admitted(calls, window, limit, t - window, t) + c.cost) * window <= limit * (window + t % window)
  {
    hide Admits, Admitted, Run, Fits;
    var counts := Run(calls, window, limit);
    var prev, charged := CountOf(counts, t / window - 1), CountOf(counts, t / window) + c.cost;
    PartsWithinCounters(calls, window, limit, t);
    ChargeFits(calls, c, window, limit, t);
    SecondPartBound(Admitted(calls, window, limit, t - window, t) + c.cost, prev, charged, window, limit,
                    c.now % window, t % window);
  }

  lemma PartsWithinCounters(calls: seq<Call>, window: int, limit: int, t: int)
    requires window > 0 && NonNegativeCosts(calls)
    ensures Admitted(calls, window, limit, t - window, t)
            <= CountOf(Run(calls, window, limit), t / window - 1) + CountOf(Run(calls, window, limit), t / window)
  {
    hide Admitted, Run;
    var bucket := t / window;
    var mid := bucket * window - 1;
    assert (bucket - 1) * window == bucket * window - window;
    assert mid < t <= mid + window;
    AdmittedSplits(calls, window, limit, t - window, mid, t);
    AdmittedWithin(calls, window, limit, mid - window, t - window, mid, mid);
    AdmittedWithin(calls, window, limit, mid, mid, t, mid + window);
    CounterIsAdmittedCost(calls, window, limit, bucket - 1);
    CounterIsAdmittedCost(calls, window, limit, bucket);
  }

  lemma WithinLimitIsWithinBound(total: int, window: int, limit: int, offset: int)
    requires window > 0 && limit >= 0 && 0 <= offset && total <= limit
    ensures total * window <= limit * (window + offset)
  {
    TimesMonotone(total, limit, window);
    assert limit * (window + offset) == limit * window + limit * offset;
    assert limit * offset >= 0;
  }

  lemma PrefixNotOvertaken(calls: seq<Call>, window: int)
    requires window > 0 && calls != [] && NoneOvertaken(Readings(calls), window)
    ensures NoneOvertaken(Readings(calls[..|calls| - 1]), window)
  {
    assert Readings(calls)[..|calls| - 1] == Readings(calls[..|calls| - 1]);
  }

  /** Main bound.  Over any run in which no call is overtaken, any window (t - W, t] of clock readings
      admits at most limit * (1 + (t mod W) / W). */
  lemma {:induction false} TwoBucketBound(calls: seq<Call>, window: int, limit: int, t: int)
    requires window > 0 && limit >= 0 && NonNegativeCosts(calls) && NoneOvertaken(Readings(calls), window)
    ensures Admitted(calls, window, limit, t - window, t) * window <= limit * (window + t % window)
  {
    hide Admits, NoneOvertaken;
    if calls == [] {
      WithinLimitIsWithinBound(0, window, limit, t % window);
    } else {
      var prefix, last := calls[..|calls| - 1], calls[|calls| - 1];
      PrefixNotOvertaken(calls, window);
      TwoBucketBound(prefix, window, limit, t);
      if t - window < last.now <= t && Admits(Run(prefix, window, limit), last.now, window, limit, last.cost) {
        if last.now < t / window * window {
          EndsInFirstPart(calls, window, limit, t);
          WithinLimitIsWithinBound(Admitted(calls, window, limit, t - window, t), window, limit, t % window);
        } else {
          EndsInSecondPart(prefix, last, window, limit, t);
        }
      }
    }
  }

  /** The same, and hence less than twice a positive limit; and at most the limit in a window that is one
      whole bucket, overtaken calls or not. */
  lemma WindowBound(calls: seq<Call>, window: int, limit: int, t: int)
    requires window > 0 && limit >= 0 && NonNegativeCosts(calls)
    ensures t % window == window - 1 ==> Admitted(calls, window, limit, t - window, t) <= limit
    ensures NoneOvertaken(Readings(calls), window) ==>
              && Admitted(calls, window, limit, t - window, t) * window <= limit * (window + t % window)
              && (limit > 0 ==> Admitted(calls, window, limit, t - window, t) < 2 * limit)
              && Admitted(calls, window, limit, t - window, t) <= MostInWindow(window, limit, t)
  {
    hide Admitted, NoneOvertaken;
    var total := Admitted(calls, window, limit, t - window, t);
    if t % window == window - 1 {
      CounterIsAdmittedCost(calls, window, limit, t / window);
      CounterWithinLimit(calls, window, limit, t / window);
    }
    if NoneOvertaken(Readings(calls), window) {
      TwoBucketBound(calls, window, limit, t);
      IntegerPart(total, limit, t % window, window);
      if limit > 0 { UnderTwice(total, limit, window, t % window); }
    }
  }

  lemma UnderTwice(total: int, limit: int, window: int, offset: int)
    requires limit > 0 && 0 <= offset < window && total * window <= limit * (window + offset)
    ensures total < 2 * limit
  {
    assert limit * (window - offset) > 0;
    assert limit * (window + offset) == 2 * limit * window - limit * (window - offset);
    TimesMonotone(2 * limit, total, window);
  }

  lemma AdmitsIntoEmptyBucket(counts: Buckets, window: int, limit: int, bucket: int, offset: int, cost: int)
    requires window > 0 && 0 <= offset < window && bucket !in counts
    requires CountOf(counts, bucket - 1) * (window - offset) + cost * window <= limit * window
    ensures (bucket * window + offset) / window == bucket
    ensures Admits(counts, bucket * window + offset, window, limit, cost)
  {
    var now := bucket * window + offset;
    Quotient(now, window, bucket, offset);
    AdmitsIffScaled(counts, now, window, limit, cost);
  }

  lemma WholePart(product: int, window: int, extra: int)
    requires window > 0 && product >= 0 && extra == product / window
    ensures 0 <= extra && extra * window <= product < (extra + 1) * window
    ensures extra == 0 <==> product < window
  {
    assert (extra + 1) * window == extra * window + window;
    TimesMonotone(0, extra + 1, window);
    TimesMonotone(1, extra, window);
  }

  lemma WholeShare(limit: int, offset: int, window: int, extra: int)
    requires limit >= 0 && 0 <= offset < window && extra == limit * offset / window
    ensures extra >= 0 && limit * (window - offset) + extra * window <= limit * window
    ensures limit * offset < (extra + 1) * window
    ensures extra == 0 <==> limit * offset < window
  {
    var product := limit * offset;
    assert product >= 0;
    WholePart(product, window, extra);
    assert limit * (window - offset) == limit * window - product;
  }

  /** The most a run can admit within the window (t - W, t]. */
  function MostInWindow(window: int, limit: int, t: int): int
    requires window > 0
  {
    if t % window == window - 1 then limit else limit + limit * (t % window) / window
  }

  ghost predicate UnitCosts(calls: seq<Call>) {
    forall i :: 0 <= i < |calls| ==> calls[i].cost == 1
  }

  /** Main result: MostInWindow is exact.  No run without overtaken calls admits more within the window
      that ends at t; and some run admits that much, with a forward clock and single units only, as the
      request quota charges. */
  lemma WindowMaximum(window: int, limit: int, t: int)
    requires window > 0 && limit >= 0
    ensures forall calls :: NonNegativeCosts(calls) && NoneOvertaken(Readings(calls), window) ==>
              Admitted(calls, window, limit, t - window, t) <= MostInWindow(window, limit, t)
    ensures exists calls :: ClockNeverRunsBack(calls) && UnitCosts(calls)
              && Admitted(calls, window, limit, t - window, t) == MostInWindow(window, limit, t)
  {
    hide Admits, Admitted, MostInWindow, NonNegativeCosts, NoneOvertaken, ClockNeverRunsBack, UnitCosts;
    forall calls | NonNegativeCosts(calls) && NoneOvertaken(Readings(calls), window)
      ensures Admitted(calls, window, limit, t - window, t) <= MostInWindow(window, limit, t)
    {
      WindowBound(calls, window, limit, t);
    }
    var calls := Filling(window, limit, t);
    assert ClockNeverRunsBack(calls) && UnitCosts(calls)
        && Admitted(calls, window, limit, t - window, t) == MostInWindow(window, limit, t);
  }

  lemma IntegerPart(total: int, limit: int, offset: int, window: int)
    requires limit >= 0 && 0 <= offset < window && total * window <= limit * (window + offset)
    ensures total <= limit + limit * offset / window
  {
    var extra := limit * offset / window;
    WholeShare(limit, offset, window, extra);
    assert limit * (window + offset) == limit * window + limit * offset;
    assert (limit + extra + 1) * window == limit * window + (extra + 1) * window;
    TimesMonotone(limit + extra + 1, total, window);
  }

  /** n single units at one time. */
  function Units(now: int, n: nat): seq<Call> {
    seq(n, i => Call(now, 1))
  }

  /** Units that fit are all admitted. */
  lemma {:induction false} UnitsAdmitted(calls: seq<Call>, now: int, n: nat, window: int, limit: int, lo: int, hi: int)
    requires window > 0 && Scaled(Run(calls, window, limit), now, window) + n * window <= limit * window
    ensures var counts := Run(calls, window, limit);
            Run(calls + Units(now, n), window, limit)
            == if n == 0 then counts else counts[now / window := CountOf(counts, now / window) + n]
    ensures Admitted(calls + Units(now, n), window, limit, lo, hi)
            == Admitted(calls, window, limit, lo, hi) + if lo < now <= hi then n else 0
  {
    hide Admits, Scaled, Run, Admitted;
    if n == 0 {
      assert calls + Units(now, 0) == calls;
    } else {
      var before := calls + Units(now, n - 1);
      assert calls + Units(now, n) == before + [Call(now, 1)];
      OneMoreUnit(n, window);
      UnitsAdmitted(calls, now, n - 1, window, limit, lo, hi);
      OneMoreCall(before, Call(now, 1), window, limit, lo, hi);
      UnitFits(Run(calls, window, limit), Run(before, window, limit), now, n - 1, window, limit);
    }
  }

  lemma OneMoreUnit(n: int, window: int)
    requires window > 0
    ensures n * window == (n - 1) * window + window
  {
  }

  lemma UnitFits(counts: Buckets, after: Buckets, now: int, n: nat, window: int, limit: int)
    requires window > 0 && Scaled(counts, now, window) + n * window + window <= limit * window
    requires after == if n == 0 then counts else counts[now / window := CountOf(counts, now / window) + n]
    ensures Admits(after, now, window, limit, 1)
  {
    hide Admits, Scaled;
    ScaledAfter(counts, now, window, n);
    AdmitsIffScaled(after, now, window, limit, 1);
  }

  lemma ScaledAfter(counts: Buckets, now: int, window: int, n: nat)
    requires window > 0
    ensures Scaled(counts[now / window := CountOf(counts, now / window) + n], now, window)
            == Scaled(counts, now, window) + n * window
  {
    var current := CountOf(counts, now / window);
    assert (current + n) * window == current * window + n * window;
  }

  /** A run that fills the window with units: the limit at the end of one bucket, and what fits into the
      next one at t; or, for a whole bucket, the limit at t. */
  lemma Filling(window: int, limit: int, t: int) returns (calls: seq<Call>)
    requires window > 0 && limit >= 0
    ensures ClockNeverRunsBack(calls) && UnitCosts(calls)
    ensures Admitted(calls, window, limit, t - window, t) == MostInWindow(window, limit, t)
  {
    hide Admits, Scaled, Run, Admitted, MostInWindow;
    var bucket, offset := t / window, t % window;
    var first := if offset == window - 1 then t else bucket * window - 1;
    assert t == bucket * window + offset && t - window < first <= t;
    FirstUnits(first, window, limit, t - window, t);
    calls := Units(first, limit);
    if offset == window - 1 {
      MostIs(window, limit, t);
    } else {
      BucketInterval(first, window, bucket - 1) by { assert (bucket - 1) * window == bucket * window - window; }
      SecondUnits(calls, window, limit, t);
      assert limit * offset / window >= 0;
      calls := calls + Units(t, limit * offset / window);
    }
  }

  lemma MostIs(window: int, limit: int, t: int)
    requires window > 0
    ensures MostInWindow(window, limit, t)
            == if t % window == window - 1 then limit else limit + limit * (t % window) / window
  {
  }

  lemma FirstUnits(now: int, window: int, limit: int, lo: int, hi: int)
    requires window > 0 && limit >= 0 && lo < now <= hi
    ensures Run(Units(now, limit), window, limit) == if limit == 0 then map[] else map[now / window := limit]
    ensures Admitted(Units(now, limit), window, limit, lo, hi) == limit
  {
    hide Admits, Scaled, Run, Admitted;
    EmptyScaled(now, window);
    assert [] + Units(now, limit) == Units(now, limit);
    NoCalls(window, limit, lo, hi);
    UnitsAdmitted([], now, limit, window, limit, lo, hi);
  }

  lemma SecondUnits(calls: seq<Call>, window: int, limit: int, t: int)
    requires window > 0 && limit >= 0 && t % window < window - 1
    requires Run(calls, window, limit) == if limit == 0 then map[] else map[t / window - 1 := limit]
    requires Admitted(calls, window, limit, t - window, t) == limit
    ensures var extra := limit * (t % window) / window;
            extra >= 0
            && Admitted(calls + Units(t, extra), window, limit, t - window, t) == MostInWindow(window, limit, t)
  {
    hide Admits, Scaled, Run, Admitted, MostInWindow;
    var extra := limit * (t % window) / window;
    WholeShare(limit, t % window, window, extra);
    FullBucketBefore(Run(calls, window, limit), t, window, limit);
    UnitsAdmitted(calls, t, extra, window, limit, t - window, t);
    MostIs(window, limit, t);
  }

  lemma NoCalls(window: int, limit: int, lo: int, hi: int)
    requires window > 0
    ensures Run([], window, limit) == map[] && Admitted([], window, limit, lo, hi) == 0
  {
  }

  lemma EmptyScaled(now: int, window: int)
    requires window > 0
    ensures Scaled(map[], now, window) == 0
  {
  }

  lemma FullBucketBefore(counts: Buckets, t: int, window: int, limit: int)
    requires window > 0
    requires CountOf(counts, t / window - 1) == limit && t / window !in counts
    ensures Scaled(counts, t, window) == limit * (window - t % window)
  {
  }

  lemma OneCallRun(call: Call, window: int, limit: int, after: int, upTo: int)
    requires window > 0 && Admits(map[], call.now, window, limit, call.cost)
    ensures Run([call], window, limit) == map[call.now / window := call.cost]
    ensures Admitted([call], window, limit, after, upTo) == if after < call.now <= upTo then call.cost else 0
  {
    hide Admits;
    assert [call][..0] == [];
    assert Run([call][..0], window, limit) == map[];
  }

  /** When the promised limit is kept: every run without overtaken calls stays within it in the window
      that ends at t if and only if the window is one whole bucket, or the part of the limit that belongs
      to the started bucket is less than one unit. */
  lemma LimitKeptIff(window: int, limit: int, t: int)
    requires window > 0 && limit >= 0
    ensures (forall calls :: NonNegativeCosts(calls) && NoneOvertaken(Readings(calls), window) ==>
               Admitted(calls, window, limit, t - window, t) <= limit)
            <==> t % window == window - 1 || limit * (t % window) < window
  {
    hide Admits, Admitted, NoneOvertaken;
    WindowMaximum(window, limit, t);
    WholeShare(limit, t % window, window, limit * (t % window) / window);
    var calls :| ClockNeverRunsBack(calls) && UnitCosts(calls)
      && Admitted(calls, window, limit, t - window, t) == MostInWindow(window, limit, t);
    ForwardClock(calls, window);
    assert NonNegativeCosts(calls);
  }

  // ------------------------------------------------------------------ overtaken calls

  /** No window of clock readings admits more than its maximum. */
  ghost predicate BoundKept(calls: seq<Call>, window: int, limit: int)
    requires window > 0
  {
    forall t :: Admitted(calls, window, limit, t - window, t) <= MostInWindow(window, limit, t)
  }

  /** The readings with cost `cost` at positions i and j and free calls elsewhere. */
  function Spikes(readings: seq<int>, i: nat, j: nat, cost: int): seq<Call> {
    seq(|readings|, k requires 0 <= k < |readings| => Call(readings[k], if k == i || k == j then cost else 0))
  }

  /** The counters hold the limit in the buckets of the spikes so far. */
  ghost predicate HoldsSpikes(counts: Buckets, b: int, b': int, limit: int, first: bool, second: bool) {
    forall x :: CountOf(counts, x) == (if first && x == b then limit else 0) + (if second && x == b' then limit else 0)
  }

  lemma FreeCall(counts: Buckets, now: int, window: int, limit: int, b: int, b': int, first: bool, second: bool)
    requires window > 0 && HoldsSpikes(counts, b, b', limit, first, second)
    ensures HoldsSpikes(Charge(counts, now, window, limit, 0), b, b', limit, first, second)
  {
    hide Admits;
    assert forall x :: CountOf(Charge(counts, now, window, limit, 0), x) == CountOf(counts, x);
  }

  lemma Spike(counts: Buckets, now: int, window: int, limit: int)
    requires window > 0 && CountOf(counts, now / window) == 0 && CountOf(counts, now / window - 1) == 0
    ensures Admits(counts, now, window, limit, limit)
    ensures forall x :: CountOf(Charge(counts, now, window, limit, limit), x)
                        == if x == now / window then limit else CountOf(counts, x)
  {
    hide Admits;
    EmptyUsage(counts, now, window, limit, limit);
  }

  /** An overtaken call belongs to the bucket before. */
  lemma OvertakenBucket(n: int, n': int, window: int)
    requires window > 0 && Overtaken(n, n', window)
    ensures n - window < n' < n && n' / window == n / window - 1
  {
    var b, b' := n / window, n' / window;
    BucketInterval(n, window, b);
    BucketInterval(n', window, b');
    TimesMonotone(b' + 1, b, window);
    if b' + 2 <= b { TimesMonotone(b' + 2, b, window); }
  }

  /** An overtaken call looks at two empty counters, so both spikes are admitted. */
  lemma {:induction false} SpikesAdmitted(readings: seq<int>, i: nat, j: nat, window: int, limit: int, m: nat)
    requires window > 0 && i < j < |readings| && m <= |readings| && Overtaken(readings[i], readings[j], window)
    ensures var n, n' := readings[i], readings[j];
            var calls := Spikes(readings, i, j, limit)[..m];
            && Admitted(calls, window, limit, n - window, n)
               == (if m > i then limit else 0) + (if m > j then limit else 0)
            && HoldsSpikes(Run(calls, window, limit), n / window, n' / window, limit, m > i, m > j)
  {
    hide Admits, Run, Admitted, Charge;
    var n, n', all := readings[i], readings[j], Spikes(readings, i, j, limit);
    OvertakenBucket(n, n', window);
    hide Overtaken;
    if m == 0 {
      NoCalls(window, limit, n - window, n);
    } else {
      var before, c := all[..m - 1], all[m - 1];
      assert all[..m] == before + [c];
      SpikesAdmitted(readings, i, j, window, limit, m - 1);
      OneMoreCall(before, c, window, limit, n - window, n);
      var counts := Run(before, window, limit);
      if m - 1 == i {
        Spike(counts, n, window, limit);
      } else if m - 1 == j {
        Spike(counts, n', window, limit);
      } else {
        FreeCall(counts, c.now, window, limit, n / window, n' / window, m > i, m > j);
      }
    }
  }

  lemma OvertakenBreaksTheBound(readings: seq<int>, i: nat, j: nat, window: int, limit: int)
    requires window > 0 && limit > 0 && i < j < |readings| && Overtaken(readings[i], readings[j], window)
    ensures var calls := Spikes(readings, i, j, limit);
            Readings(calls) == readings && NonNegativeCosts(calls) && !BoundKept(calls, window, limit)
  {
    hide Admitted, Run;
    var calls, t := Spikes(readings, i, j, limit), readings[i];
    SpikesAdmitted(readings, i, j, window, limit, |readings|);
    assert calls[..|readings|] == calls;
    ShareBelowLimit(window, limit, t);
    assert Admitted(calls, window, limit, t - window, t) == 2 * limit;
  }

  lemma ShareBelowLimit(window: int, limit: int, t: int)
    requires window > 0 && limit > 0
    ensures MostInWindow(window, limit, t) < 2 * limit
  {
    var offset := t % window;
    WholeShare(limit, offset, window, limit * offset / window);
    assert limit * offset < limit * window by { assert limit * (window - offset) > 0; }
    TimesMonotone(limit, limit * offset / window, window);
  }

  lemma {:induction false} NothingForNothing(calls: seq<Call>, window: int, lo: int, hi: int)
    requires window > 0 && NonNegativeCosts(calls)
    ensures Admitted(calls, window, 0, lo, hi) == 0
  {
    hide Admits;
    if calls != [] {
      var prefix, last := calls[..|calls| - 1], calls[|calls| - 1];
      NothingForNothing(prefix, window, lo, hi);
      CounterNonNegative(prefix, window, 0, last.now / window - 1);
      CounterNonNegative(prefix, window, 0, last.now / window);
      if Admits(Run(prefix, window, 0), last.now, window, 0, last.cost) {
        AdmissionBound(Run(prefix, window, 0), last.now, window, 0, last.cost);
      }
    }
  }

  /** Main result: what order of clock readings the bound needs.  Whatever the costs, every run with these
      readings keeps the bound in every window, if and only if none of them is overtaken.  Readings
      overtaken within a bucket, or by a whole window, do no harm. */
  lemma BoundKeptIff(readings: seq<int>, window: int, limit: int)
    requires window > 0 && limit >= 0
    ensures (forall calls :: Readings(calls) == readings && NonNegativeCosts(calls) ==> BoundKept(calls, window, limit))
            <==> limit == 0 || NoneOvertaken(readings, window)
  {
    hide Admitted;
    if limit == 0 {
      forall calls | NonNegativeCosts(calls) ensures BoundKept(calls, window, limit) {
        forall t ensures Admitted(calls, window, limit, t - window, t) <= MostInWindow(window, limit, t) {
          NothingForNothing(calls, window, t - window, t);
          WholeShare(limit, t % window, window, 0);
        }
      }
    } else if NoneOvertaken(readings, window) {
      forall calls | Readings(calls) == readings && NonNegativeCosts(calls) ensures BoundKept(calls, window, limit) {
        forall t ensures Admitted(calls, window, limit, t - window, t) <= MostInWindow(window, limit, t) {
          WindowBound(calls, window, limit, t);
        }
      }
    } else {
      var i, j :| 0 <= i < j < |readings| && Overtaken(readings[i], readings[j], window);
      OvertakenBreaksTheBound(readings, i, j, window, limit);
      var calls := Spikes(readings, i, j, limit);
      assert Readings(calls) == readings && NonNegativeCosts(calls) && !BoundKept(calls, window, limit);
    }
  }

  // ------------------------------------------------------------------ usage over time

  lemma RunKeysBounded(calls: seq<Call>, window: int, limit: int, now: int)
    requires window > 0 && NoLaterThan(calls, now)
    ensures forall b :: b in Run(calls, window, limit) ==> b <= now / window
  {
    hide Admits;
    if calls != [] {
      RunKeysBounded(calls[..|calls| - 1], window, limit, now);
      DivisionMonotone(calls[|calls| - 1].now, now, window);
    }
  }

  lemma DivisionMonotone(a: int, b: int, window: int)
    requires window > 0 && a <= b
    ensures a / window <= b / window
  {
    var p, q := a / window, b / window;
    BucketInterval(a, window, p);
    BucketInterval(b, window, q);
    TimesMonotone(q + 1, p, window);
  }

  /** While nothing is charged the weighted usage never rises, also across bucket boundaries. */
  lemma UsageNeverRises(counts: Buckets, window: int, t: int, t': int)
    requires window > 0 && t <= t'
    requires forall b :: b in counts ==> b <= t / window && counts[b] >= 0
    ensures 0 <= Scaled(counts, t', window) <= Scaled(counts, t, window)
  {
    var b, b' := t / window, t' / window;
    var prev, cur := CountOf(counts, b - 1), CountOf(counts, b);
    DivisionMonotone(t, t', window);
    UsageAtOffset(prev, cur, window, t % window, t % window);
    if b' == b {
      BucketInterval(t, window, b);
      BucketInterval(t', window, b);
      UsageAtOffset(prev, cur, window, t % window, t' % window);
    } else if b' == b + 1 {
      UsageAtOffset(cur, 0, window, 0, t' % window);
    }
  }

  lemma UsageAtOffset(prev: int, cur: int, window: int, into: int, into': int)
    requires window > 0 && prev >= 0 && cur >= 0 && 0 <= into <= into' < window
    ensures 0 <= prev * (window - into') + cur * window <= prev * (window - into) + cur * window
    ensures cur * window <= prev * (window - into) + cur * window
  {
    assert prev * (into' - into) >= 0 && prev * (window - into') >= 0 && cur * window >= 0;
    assert prev * (window - into) == prev * (window - into') + prev * (into' - into);
  }

  lemma RunIsClean(calls: seq<Call>, window: int, limit: int, now: int)
    requires window > 0 && NonNegativeCosts(calls) && NoLaterThan(calls, now)
    ensures forall b :: b in Run(calls, window, limit) ==> b <= now / window && Run(calls, window, limit)[b] >= 0
  {
    hide Admits;
    RunKeysBounded(calls, window, limit, now);
    forall b | b in Run(calls, window, limit) ensures Run(calls, window, limit)[b] >= 0 {
      CounterNonNegative(calls, window, limit, b);
    }
  }

  /** In every reachable state the weighted usage is within the limit. */
  lemma {:induction false} UsageWithinLimit(calls: seq<Call>, window: int, limit: int, t: int)
    requires window > 0 && limit >= 0 && Proper(calls) && NoLaterThan(calls, t)
    ensures 0 <= Scaled(Run(calls, window, limit), t, window) <= limit * window
  {
    hide Admits;
    RunIsClean(calls, window, limit, t);
    UsageNeverRises(Run(calls, window, limit), window, t, t);
    if calls == [] {
      assert limit * window >= 0;
    } else {
      var prefix, last := calls[..|calls| - 1], calls[|calls| - 1];
      var counts := Run(prefix, window, limit);
      assert NoLaterThan(prefix, last.now);
      if Admits(counts, last.now, window, limit, last.cost) {
        CounterNonNegative(prefix, window, limit, last.now / window - 1);
        AdmissionBound(counts, last.now, window, limit, last.cost);
      } else {
        UsageWithinLimit(prefix, window, limit, last.now);
      }
      assert Scaled(Run(calls, window, limit), last.now, window) <= limit * window;
      assert NoLaterThan(calls, last.now);
      RunIsClean(calls, window, limit, last.now);
      UsageNeverRises(Run(calls, window, limit), window, last.now, t);
    }
  }

  /** Every call of `later` is refused when issued after `calls`. */
  ghost predicate AllRefused(calls: seq<Call>, later: seq<Call>, window: int, limit: int)
    requires window > 0
  {
    forall i :: 0 <= i < |later| ==>
      !Admits(Run(calls + later[..i], window, limit), later[i].now, window, limit, later[i].cost)
  }

  lemma {:induction false} RefusedCallsChangeNothing(calls: seq<Call>, later: seq<Call>, window: int, limit: int)
    requires window > 0 && AllRefused(calls, later, window, limit)
    ensures Run(calls + later, window, limit) == Run(calls, window, limit)
  {
    hide Admits;
    if later == [] {
      assert calls + later == calls;
    } else {
      var n := |later| - 1;
      forall i | 0 <= i < n
        ensures !Admits(Run(calls + later[..n][..i], window, limit), later[..n][i].now, window, limit,
                        later[..n][i].cost)
      {
        assert later[..n][..i] == later[..i];
      }
      RefusedCallsChangeNothing(calls, later[..n], window, limit);
      assert (calls + later)[..|calls + later| - 1] == calls + later[..n];
      assert (calls + later)[|calls + later| - 1] == later[n];
      assert !Admits(Run(calls + later[..n], window, limit), later[n].now, window, limit, later[n].cost);
    }
  }

  /** A request that would be admitted at `t` is still admitted at any later time, as long as no
      other request was charged in between. */
  lemma AdmissibleStaysAdmissible(
    calls: seq<Call>, later: seq<Call>, window: int, limit: int, cost: int, t: int, t': int)
    requires window > 0 && NonNegativeCosts(calls) && NoLaterThan(calls, t) && t <= t'
    requires Admits(Run(calls, window, limit), t, window, limit, cost)
    requires AllRefused(calls, later, window, limit)
    ensures Admits(Run(calls + later, window, limit), t', window, limit, cost)
  {
    hide Admits;
    RefusedCallsChangeNothing(calls, later, window, limit);
    var counts := Run(calls, window, limit);
    RunIsClean(calls, window, limit, t);
    UsageNeverRises(counts, window, t, t');
    AdmitsIffScaled(counts, t, window, limit, cost);
    AdmitsIffScaled(counts, t', window, limit, cost);
  }

  lemma EmptyUsage(counts: Buckets, t: int, window: int, limit: int, cost: int)
    requires window > 0 && CountOf(counts, t / window) == 0 && CountOf(counts, t / window - 1) == 0
    ensures Admits(counts, t, window, limit, cost) <==> cost <= limit
  {
    hide Admits;
    AdmitsIffScaled(counts, t, window, limit, cost);
    TimesMonotone(cost, limit, window);
  }

  /** Two buckets after the last charge, whatever was refused since, the limiter has forgotten
      everything: exactly the costs within the limit are admitted. */
  lemma FullQuotaAfterTwoBuckets(
    calls: seq<Call>, refused: seq<Call>, window: int, limit: int, last: int, t: int, cost: int)
    requires window > 0 && NoLaterThan(calls, last) && AllRefused(calls, refused, window, limit)
    requires t / window >= last / window + 2
    ensures Admits(Run(calls + refused, window, limit), t, window, limit, cost) <==> cost <= limit
  {
    hide Admits;
    RefusedCallsChangeNothing(calls, refused, window, limit);
    RunKeysBounded(calls, window, limit, last);
    EmptyUsage(Run(calls, window, limit), t, window, limit, cost);
  }

  lemma NextBucket(now: int, window: int)
    requires window > 0
    ensures var reset := (now / window + 1) * window - now;
            1 <= reset <= window && (now + reset) / window == now / window + 1 && (now + reset) % window == 0
  {
    assert (now / window + 1) * window == now / window * window + window;
    Quotient((now / window + 1) * window, window, now / window + 1, 0);
  }

  lemma AdmitsAtBucketStart(counts: Buckets, next: int, window: int, limit: int, cost: int)
    requires window > 0 && next % window == 0 && next / window !in counts
    ensures Admits(counts, next, window, limit, cost) <==> CountOf(counts, next / window - 1) + cost <= limit
  {
    hide Admits;
    AdmitsIffScaled(counts, next, window, limit, cost);
    var left := CountOf(counts, next / window - 1);
    assert Scaled(counts, next, window) == left * window;
    assert left * window + cost * window == (left + cost) * window;
    TimesMonotone(left + cost, limit, window);
  }

  /** The `reset` of a reply (sent to clients as Retry-After) is the time to the next bucket, and
      is no promise: waiting exactly that long without another charge succeeds if and only if the
      request fits beside the whole count of the bucket just left. */
  lemma ResetIsNotAPromise(counts: Buckets, now: int, window: int, limit: int, cost: int)
    requires window > 0 && forall b :: b in counts ==> b <= now / window
    ensures var reset := Answer(counts, now, window, limit, cost).reset;
            && 1 <= reset <= window
            && (now + reset) / window == now / window + 1
            && (Admits(counts, now + reset, window, limit, cost)
                <==> CountOf(counts, now / window) + cost <= limit)
  {
    hide Admits, Weighted;
    var reset := Answer(counts, now, window, limit, cost).reset;
    assert reset == (now / window + 1) * window - now;
    NextBucket(now, window);
    AdmitsAtBucketStart(counts, now + reset, window, limit, cost);
  }

  /** So it happens: once the limit is spent at the start of a bucket, a request in the middle of it is
      refused, told to come back at the next bucket, and refused again then. */
  lemma RefusedAgainAfterReset(limit: int, cost: int)
    requires limit >= 0 && cost > 0
    ensures var counts := Run([Call(0, limit)], 60, limit);
            var reply := Answer(counts, 30, 60, limit, cost);
            && !reply.allowed && reply.reset == 30
            && !Admits(counts, 30 + reply.reset, 60, limit, cost)
  {
    hide Admits, Run;
    AdmitsIntoEmptyBucket(map[], 60, limit, 0, 0, limit);
    OneCallRun(Call(0, limit), 60, limit, 0, 0);
    var counts := Run([Call(0, limit)], 60, limit);
    assert counts == map[0 := limit];
    RefusedInTheMiddle(counts, limit, cost);
    ResetIsNotAPromise(counts, 30, 60, limit, cost);
  }

  lemma RefusedInTheMiddle(counts: Buckets, limit: int, cost: int)
    requires counts == map[0 := limit] && cost > 0
    ensures !Answer(counts, 30, 60, limit, cost).allowed && Answer(counts, 30, 60, limit, cost).reset == 30
  {
    hide Weighted;
    AdmitsIffScaled(counts, 30, 60, limit, cost);
  }

  /** What a reply reports: the weighted usage of the state the call leaves behind, the rest of the
      limit, and a refusal exactly when the cost exceeds that rest. */
  lemma ReplyReportsNewState(counts: Buckets, now: int, window: int, limit: int, cost: int)
    requires window > 0
    ensures var reply := Answer(counts, now, window, limit, cost);
            && reply.usage * window as real == Scaled(Charge(counts, now, window, limit, cost), now, window) as real
            && reply.remaining == limit as real - reply.usage
            && (!reply.allowed ==> cost as real > reply.remaining)
            && (reply.allowed ==> reply.remaining >= 0.0)
  {
    hide Weighted, ReplyTo, Scaled;
    var prev, current := CountOf(counts, now / window - 1), CountOf(counts, now / window);
    var counted := if Admits(counts, now, window, limit, cost) then current + cost else current;
    ReplyShape(prev, current, now, window, limit, cost);
    ChargedUsage(counts, now, window, cost);
    WeightedTimesWindow(prev, counted, now, window);
  }

  lemma ReplyShape(prev: int, current: int, now: int, window: int, limit: int, cost: int)
    requires window > 0
    ensures var reply := ReplyTo(prev, current, now, window, limit, cost);
            && reply.usage == Weighted(prev, if reply.allowed then current + cost else current, now, window)
            && reply.remaining == limit as real - reply.usage
            && (!reply.allowed ==> cost as real > reply.remaining)
            && (reply.allowed ==> reply.remaining >= 0.0)
  {
    hide Weighted;
    ChargeAdds(prev, current, cost, now, window);
  }

  lemma ChargedUsage(counts: Buckets, now: int, window: int, cost: int)
    requires window > 0
    ensures var prev, current := CountOf(counts, now / window - 1), CountOf(counts, now / window);
            && Scaled(counts, now, window) == prev * (window - now % window) + current * window
            && Scaled(counts[now / window := current + cost], now, window)
               == prev * (window - now % window) + (current + cost) * window
  {
  }

  lemma ChargeAdds(prev: int, current: int, cost: int, now: int, window: int)
    requires window > 0
    ensures Weighted(prev, current + cost, now, window) == Weighted(prev, current, now, window) + cost as real
  {
  }
}
