/** Runs of the deployed limiter.  The caller reads its own clock in whole seconds; keys expire on the
    server's millisecond clock.  As long as the two stay in step, key expiry and stale bucket fields
    are unobservable, so the window bound of the never-expiring map holds of the deployed one. */
module Expiry {
  import opened SlidingWindow
  import opened RateLimiter

  /** One script execution: the caller read `now`, the script runs at server time `ms`.  The limit may
      differ from call to call. */
  datatype Request = Request(now: int, ms: int, limit: int, cost: int)

  function StoredRun(requests: seq<Request>, window: int): Stored
    requires window > 0
  {
    if requests == [] then Missing
    else
      var r := requests[|requests| - 1];
      StoredAfter(StoredRun(requests[..|requests| - 1], window), r.ms, r.now, window, r.limit, r.cost)
  }

  /** The same run on a map that never expires. */
  function ForeverRun(requests: seq<Request>, window: int): Buckets
    requires window > 0
  {
    if requests == [] then map[]
    else
      var r := requests[|requests| - 1];
      Charge(ForeverRun(requests[..|requests| - 1], window), r.now, window, r.limit, r.cost)
  }

  /** A limiter that remembers two counters: of the bucket of the last charge and the one before. */
  datatype TwoCounters = TwoCounters(bucket: int, current: int, previous: int)

  function Roll(c: TwoCounters, bucket: int): TwoCounters {
    if bucket == c.bucket then c
    else if bucket == c.bucket + 1 then TwoCounters(bucket, 0, c.current)
    else TwoCounters(bucket, 0, 0)
  }

  function CounterAnswer(c: TwoCounters, r: Request, window: int): Reply
    requires window > 0
  {
    var rolled := Roll(c, r.now / window);
    ReplyTo(rolled.previous, rolled.current, r.now, window, r.limit, r.cost)
  }

  function CounterStep(c: TwoCounters, r: Request, window: int): TwoCounters
    requires window > 0
  {
    var rolled := Roll(c, r.now / window);
    if CounterAnswer(c, r, window).allowed then rolled.(current := rolled.current + r.cost) else c
  }

  function CounterRun(requests: seq<Request>, window: int): TwoCounters
    requires window > 0
  {
    if requests == [] then TwoCounters(0, 0, 0)
    else CounterStep(CounterRun(requests[..|requests| - 1], window), requests[|requests| - 1], window)
  }

  // ------------------------------------------------------------------ clocks in step

  /** Neither clock runs back, and a key written by `q` that has expired when `r` runs is two buckets
      old by the caller's clock too. */
  ghost predicate Follows(q: Request, r: Request, window: int)
    requires window > 0
  {
    q.now <= r.now && q.ms <= r.ms && (r.ms > q.ms + 2 * window * 1000 ==> r.now / window >= q.now / window + 2)
  }

  ghost predicate InStep(requests: seq<Request>, window: int)
    requires window > 0
  {
    forall i, j :: 0 <= i < j < |requests| ==> Follows(requests[i], requests[j], window)
  }

  /** One clock, or two clocks that differ by a constant number of seconds, are in step. */
  lemma SteadyClocksInStep(requests: seq<Request>, window: int, skew: int)
    requires window > 0
    requires forall i :: 0 <= i < |requests| ==> requests[i].now == requests[i].ms / 1000 + skew
    requires forall i, j :: 0 <= i < j < |requests| ==> requests[i].ms <= requests[j].ms
    ensures InStep(requests, window)
  {
    forall i, j | 0 <= i < j < |requests| ensures Follows(requests[i], requests[j], window) {
      var q, r := requests[i], requests[j];
      DivisionMonotone(q.ms, r.ms, 1000);
      if r.ms > q.ms + 2 * window * 1000 {
        assert r.now >= q.now + 2 * window;
        TwoBucketsLater(q.now, r.now, window);
      }
    }
  }

  lemma TwoBucketsLater(a: int, b: int, window: int)
    requires window > 0 && b >= a + 2 * window
    ensures b / window >= a / window + 2
  {
    var later := a + 2 * window;
    assert (a / window + 2) * window == a / window * window + 2 * window;
    Quotient(later, window, a / window + 2, a % window);
    DivisionMonotone(later, b, window);
  }

  // ------------------------------------------------------------------ expiry is unobservable

  /** The stored hash, the eternal map and the two counters, last charged by `q`. */
  ghost predicate Agree(stored: Stored, forever: Buckets, c: TwoCounters, q: Request, window: int)
    requires window > 0
  {
    && stored.Hash? && stored.expireAt == q.ms + 2 * window * 1000
    && c.bucket == q.now / window
    && (forall b :: b in stored.counts || b in forever ==> b <= c.bucket)
    && c.current == CountOf(stored.counts, c.bucket) == CountOf(forever, c.bucket)
    && c.previous == CountOf(stored.counts, c.bucket - 1) == CountOf(forever, c.bucket - 1)
  }

  /** At any later time the three read the same two counters, expired or not. */
  lemma SameReadings(stored: Stored, forever: Buckets, c: TwoCounters, q: Request, r: Request, window: int)
    requires window > 0 && Follows(q, r, window) && Agree(stored, forever, c, q, window)
    ensures var b := r.now / window;
            var rolled := Roll(c, b);
            && CountOf(Visible(stored, r.ms), b) == CountOf(forever, b) == rolled.current
            && CountOf(Visible(stored, r.ms), b - 1) == CountOf(forever, b - 1) == rolled.previous
  {
    DivisionMonotone(q.now, r.now, window);
  }

  /** What a script execution sees of the three, last charged by one of `requests` if at all. */
  ghost predicate Simulated(stored: Stored, forever: Buckets, c: TwoCounters, requests: seq<Request>, window: int)
    requires window > 0
  {
    || (stored == Missing && forever == map[] && c == TwoCounters(0, 0, 0))
    || exists i :: 0 <= i < |requests| && Agree(stored, forever, c, requests[i], window)
  }

  lemma SimulatedReadings(
    stored: Stored, forever: Buckets, c: TwoCounters, requests: seq<Request>, r: Request, window: int)
    requires window > 0 && InStep(requests + [r], window) && Simulated(stored, forever, c, requests, window)
    ensures var b := r.now / window;
            var rolled := Roll(c, b);
            && (forall x :: x in Visible(stored, r.ms) || x in forever ==> x <= b)
            && CountOf(Visible(stored, r.ms), b) == CountOf(forever, b) == rolled.current
            && CountOf(Visible(stored, r.ms), b - 1) == CountOf(forever, b - 1) == rolled.previous
  {
    if stored != Missing || forever != map[] || c != TwoCounters(0, 0, 0) {
      var i :| 0 <= i < |requests| && Agree(stored, forever, c, requests[i], window);
      var all := requests + [r];
      assert Follows(all[i], all[|requests|], window);
      SameReadings(stored, forever, c, requests[i], r, window);
      DivisionMonotone(requests[i].now, r.now, window);
    }
  }

  lemma SimulatedStep(
    stored: Stored, forever: Buckets, c: TwoCounters, requests: seq<Request>, r: Request, window: int)
    requires window > 0 && InStep(requests + [r], window) && Simulated(stored, forever, c, requests, window)
    ensures var seen := Answer(Visible(stored, r.ms), r.now, window, r.limit, r.cost);
            && seen == Answer(forever, r.now, window, r.limit, r.cost)
            && seen == CounterAnswer(c, r, window)
    ensures Simulated(StoredAfter(stored, r.ms, r.now, window, r.limit, r.cost),
                      Charge(forever, r.now, window, r.limit, r.cost), CounterStep(c, r, window),
                      requests + [r], window)
  {
    hide ReplyTo, Visible, InStep;
    SimulatedReadings(stored, forever, c, requests, r, window);
    var all := requests + [r];
    if CounterAnswer(c, r, window).allowed {
      assert all[|requests|] == r;
      assert Agree(StoredAfter(stored, r.ms, r.now, window, r.limit, r.cost),
                   Charge(forever, r.now, window, r.limit, r.cost), CounterStep(c, r, window), r, window);
    } else if stored != Missing || forever != map[] || c != TwoCounters(0, 0, 0) {
      var i :| 0 <= i < |requests| && Agree(stored, forever, c, requests[i], window);
      assert all[i] == requests[i];
    }
  }

  lemma PrefixInStep(requests: seq<Request>, window: int)
    requires window > 0 && requests != [] && InStep(requests, window)
    ensures InStep(requests[..|requests| - 1], window)
    ensures requests[..|requests| - 1] + [requests[|requests| - 1]] == requests
  {
  }

  lemma {:induction false} RunsSimulated(requests: seq<Request>, window: int)
    requires window > 0 && InStep(requests, window)
    ensures Simulated(StoredRun(requests, window), ForeverRun(requests, window), CounterRun(requests, window),
                      requests, window)
  {
    hide Simulated, InStep, StoredAfter, Charge, CounterStep;
    if requests == [] {
      assert Simulated(Missing, map[], TwoCounters(0, 0, 0), requests, window) by { StartSimulated(window); }
    } else {
      var prefix, r := requests[..|requests| - 1], requests[|requests| - 1];
      PrefixInStep(requests, window);
      RunsSimulated(prefix, window);
      SimulatedStep(StoredRun(prefix, window), ForeverRun(prefix, window), CounterRun(prefix, window),
                    prefix, r, window);
    }
  }

  lemma StartSimulated(window: int)
    requires window > 0
    ensures Simulated(Missing, map[], TwoCounters(0, 0, 0), [], window)
  {
  }

  /** Expiry and stale fields are unobservable: after any run, the stored hash with its time to live,
      the map that never expires and the two counters give the same reply to any next request. */
  lemma ExpiryUnobservable(requests: seq<Request>, r: Request, window: int)
    requires window > 0 && InStep(requests + [r], window)
    ensures var reply := Answer(Visible(StoredRun(requests, window), r.ms), r.now, window, r.limit, r.cost);
            && reply == Answer(ForeverRun(requests, window), r.now, window, r.limit, r.cost)
            && reply == CounterAnswer(CounterRun(requests, window), r, window)
  {
    hide Simulated, InStep, Answer, CounterAnswer;
    PrefixInStep(requests + [r], window);
    assert (requests + [r])[..|requests + [r]| - 1] == requests;
    RunsSimulated(requests, window);
    SimulatedStep(StoredRun(requests, window), ForeverRun(requests, window), CounterRun(requests, window),
                  requests, r, window);
  }

  // ------------------------------------------------------------------ the bound, deployed

  /** Cost the deployed key admits at clock readings in (after, upTo]. */
  function StoredAdmitted(requests: seq<Request>, window: int, after: int, upTo: int): int
    requires window > 0
  {
    if requests == [] then 0
    else
      var prefix, r := requests[..|requests| - 1], requests[|requests| - 1];
      StoredAdmitted(prefix, window, after, upTo)
      + (if after < r.now <= upTo && Admits(Visible(StoredRun(prefix, window), r.ms), r.now, window, r.limit, r.cost)
         then r.cost else 0)
  }

  /** One more execution. */
  lemma OneMoreRequest(requests: seq<Request>, r: Request, window: int, after: int, upTo: int)
    requires window > 0
    ensures StoredRun(requests + [r], window)
            == StoredAfter(StoredRun(requests, window), r.ms, r.now, window, r.limit, r.cost)
    ensures StoredAdmitted(requests + [r], window, after, upTo) ==
            StoredAdmitted(requests, window, after, upTo)
            + (if after < r.now <= upTo
                  && Admits(Visible(StoredRun(requests, window), r.ms), r.now, window, r.limit, r.cost)
               then r.cost else 0)
  {
    hide Admits, StoredAfter, Visible;
    assert (requests + [r])[..|requests|] == requests;
  }

  function ReadingsOf(requests: seq<Request>): seq<int> {
    seq(|requests|, i requires 0 <= i < |requests| => requests[i].now)
  }

  /** Fixed limit, no negative cost. */
  ghost predicate LimitedBy(requests: seq<Request>, limit: int) {
    forall i :: 0 <= i < |requests| ==> requests[i].limit == limit && requests[i].cost >= 0
  }

  /** The server's clock does not run back, and a key expires only a window or more behind the caller's
      clock. */
  ghost predicate Timely(requests: seq<Request>, window: int) {
    forall i, j :: 0 <= i < j < |requests| ==>
      && requests[i].ms <= requests[j].ms
      && (requests[j].ms > requests[i].ms + 2 * window * 1000 ==> requests[j].now - requests[i].now >= window)
  }

  /** Scripts that run within a whole window after their caller read the clock, in milliseconds `readAt`
      and up to a constant skew, are timely, in whatever order the clock was read. */
  lemma DelayedScriptsAreTimely(requests: seq<Request>, readAt: seq<int>, window: int, skew: int)
    requires window > 0 && |readAt| == |requests|
    requires forall i :: 0 <= i < |requests| ==>
               requests[i].now == readAt[i] / 1000 + skew && readAt[i] <= requests[i].ms <= readAt[i] + window * 1000
    requires forall i, j :: 0 <= i < j < |requests| ==> requests[i].ms <= requests[j].ms
    ensures Timely(requests, window)
  {
    forall i, j | 0 <= i < j < |requests| && requests[j].ms > requests[i].ms + 2 * window * 1000
      ensures requests[j].now - requests[i].now >= window
    {
      assert readAt[j] >= readAt[i] + window * 1000;
      DivisionMonotone(readAt[i] + window * 1000, readAt[j], 1000);
    }
  }

  /** A delay shorter than a window cannot break the bound, but it can be seen: two milliseconds after its
      caller read 119, a script no longer finds the charge made at 0. */
  lemma DelayShowsExpiry()
    ensures var key := StoredRun([Request(0, 0, 60, 60)], 60);
            && Visible(key, 119999) == map[0 := 60] && Visible(key, 120001) == map[]
            && Answer(map[0 := 60], 119, 60, 60, 60) != Answer(map[], 119, 60, 60, 60)
  {
    hide Answer, StoredAfter;
    assert [Request(0, 0, 60, 60)][..0] == [];
    FirstExecution(0, 0, 60, 60, 60);
    EmptyUsage(map[], 119, 60, 60, 60);
    StillCounts();
  }

  lemma StillCounts()
    ensures !Answer(map[0 := 60], 119, 60, 60, 60).allowed
  {
    hide Answer;
    AdmitsIffScaled(map[0 := 60], 119, 60, 60, 60);
  }

  /** The part of a window that lies in one bucket is still on the key at time `ms`. */
  ghost predicate InSight(requests: seq<Request>, window: int, after: int, upTo: int, bucket: int, ms: int)
    requires window > 0
  {
    forall i :: 0 <= i < |requests| ==>
      && requests[i].ms <= ms
      && (after < requests[i].now <= upTo ==>
            requests[i].now / window == bucket && ms <= requests[i].ms + 2 * window * 1000)
  }

  ghost predicate ServerClock(requests: seq<Request>) {
    forall i, j :: 0 <= i < j < |requests| ==> requests[i].ms <= requests[j].ms
  }

  lemma {:induction false} NoReadings(requests: seq<Request>, window: int, after: int, upTo: int)
    requires window > 0 && forall i :: 0 <= i < |requests| ==> !(after < requests[i].now <= upTo)
    ensures StoredAdmitted(requests, window, after, upTo) == 0
  {
    hide Admits, Visible, StoredRun;
    if requests != [] {
      NoReadings(requests[..|requests| - 1], window, after, upTo);
    }
  }

  lemma {:induction false} StoredSplits(requests: seq<Request>, window: int, lo: int, mid: int, hi: int)
    requires window > 0 && lo <= mid <= hi
    ensures StoredAdmitted(requests, window, lo, hi)
            == StoredAdmitted(requests, window, lo, mid) + StoredAdmitted(requests, window, mid, hi)
  {
    hide Admits, Visible, StoredRun;
    if requests != [] {
      StoredSplits(requests[..|requests| - 1], window, lo, mid, hi);
    }
  }

  /** No counter of the key passes the limit, whatever the clocks do. */
  lemma {:induction false} StoredWithinLimit(requests: seq<Request>, window: int, limit: int, ms: int, bucket: int)
    requires window > 0 && limit >= 0 && LimitedBy(requests, limit)
    ensures 0 <= CountOf(Visible(StoredRun(requests, window), ms), bucket) <= limit
  {
    hide Admits, Answer;
    if requests != [] {
      var prefix, r := requests[..|requests| - 1], requests[|requests| - 1];
      StoredWithinLimit(prefix, window, limit, ms, bucket);
      StoredWithinLimit(prefix, window, limit, r.ms, bucket);
      StoredWithinLimit(prefix, window, limit, r.ms, r.now / window - 1);
      var seen := Visible(StoredRun(prefix, window), r.ms);
      if Admits(seen, r.now, window, limit, r.cost) {
        AdmissionBound(seen, r.now, window, limit, r.cost);
      }
    }
  }

  /** Whatever was admitted in that part is counted on the key. */
  lemma {:induction false} NothingLost(
    requests: seq<Request>, window: int, limit: int, after: int, upTo: int, bucket: int, ms: int)
    requires window > 0 && limit >= 0 && LimitedBy(requests, limit) && ServerClock(requests)
    requires InSight(requests, window, after, upTo, bucket, ms)
    ensures StoredAdmitted(requests, window, after, upTo) <= CountOf(Visible(StoredRun(requests, window), ms), bucket)
  {
    hide Admits, StoredRun, StoredAdmitted;
    if requests == [] {
      NoRequests(window, after, upTo);
    } else {
      var prefix, r := requests[..|requests| - 1], requests[|requests| - 1];
      assert prefix + [r] == requests;
      OneMoreRequest(prefix, r, window, after, upTo);
      if ms > r.ms + 2 * window * 1000 {
        NoReadings(requests, window, after, upTo);
        StoredWithinLimit(requests, window, limit, ms, bucket);
      } else {
        NothingLost(prefix, window, limit, after, upTo, bucket, r.ms);
        NothingLost(prefix, window, limit, after, upTo, bucket, ms);
      }
    }
  }

  lemma NoRequests(window: int, after: int, upTo: int)
    requires window > 0
    ensures StoredRun([], window) == Missing && StoredAdmitted([], window, after, upTo) == 0
  {
  }

  /** In a timely run everything within a window of the last reading, in one bucket, is in sight. */
  lemma LastSees(requests: seq<Request>, window: int, after: int, upTo: int, bucket: int, n: nat)
    requires window > 0 && requests != [] && Timely(requests, window) && n <= |requests|
    requires requests[|requests| - 1].now < after + 1 + window
    requires bucket * window - 1 <= after && upTo <= bucket * window + window - 1
    ensures ServerClock(requests[..n])
    ensures InSight(requests[..n], window, after, upTo, bucket, requests[|requests| - 1].ms)
  {
    var last := requests[|requests| - 1];
    forall i | 0 <= i < n && after < requests[i].now <= upTo
      ensures requests[i].now / window == bucket && last.ms <= requests[i].ms + 2 * window * 1000
    {
      BucketInterval(requests[i].now, window, bucket);
    }
  }

  /** The last execution falls in the first part of the window: nothing of the second part has run. */
  lemma LastInFirstPart(requests: seq<Request>, window: int, limit: int, t: int)
    requires window > 0 && limit >= 0 && LimitedBy(requests, limit)
    requires Timely(requests, window) && NoneOvertaken(ReadingsOf(requests), window)
    requires requests != [] && t - window < requests[|requests| - 1].now < t / window * window
    ensures StoredAdmitted(requests, window, t - window, t) <= limit
  {
    hide StoredAdmitted, StoredRun, Visible, Timely;
    var bucket, last := t / window, requests[|requests| - 1];
    var mid := bucket * window - 1;
    assert (bucket - 1) * window == bucket * window - window;
    BucketInterval(last.now, window, bucket - 1);
    forall i | 0 <= i < |requests| ensures !(mid < requests[i].now <= t) {
      BucketInterval(requests[i].now, window, bucket);
      assert i < |requests| - 1 ==> !Overtaken(ReadingsOf(requests)[i], ReadingsOf(requests)[|requests| - 1], window);
    }
    NoReadings(requests, window, mid, t);
    StoredSplits(requests, window, t - window, mid, t);
    LastSees(requests, window, t - window, mid, bucket - 1, |requests|);
    assert requests[..|requests|] == requests;
    NothingLost(requests, window, limit, t - window, mid, bucket - 1, last.ms);
    StoredWithinLimit(requests, window, limit, last.ms, bucket - 1);
  }

  /** The last execution is charged in the second part: both parts are in the counters it read. */
  lemma LastInSecondPart(requests: seq<Request>, window: int, limit: int, t: int)
    requires window > 0 && limit >= 0 && LimitedBy(requests, limit) && Timely(requests, window)
    requires requests != [] && t / window * window <= requests[|requests| - 1].now <= t
    requires var prefix, r := requests[..|requests| - 1], requests[|requests| - 1];
             Admits(Visible(StoredRun(prefix, window), r.ms), r.now, window, limit, r.cost)
    ensures var prefix, r := requests[..|requests| - 1], requests[|requests| - 1];
            (StoredAdmitted(prefix, window, t - window, t) + r.cost) * window <= limit * (window + t % window)
  {
    hide Admits, StoredAdmitted, StoredRun, Visible, Fits;
    var prefix, r := requests[..|requests| - 1], requests[|requests| - 1];
    var seen := Visible(StoredRun(prefix, window), r.ms);
    var prev, charged := CountOf(seen, t / window - 1), CountOf(seen, t / window) + r.cost;
    PartsOnKey(requests, window, limit, t);
    StoredWithinLimit(prefix, window, limit, r.ms, t / window - 1);
    SeenFits(seen, r.now, window, limit, r.cost, t);
    SecondPartBound(StoredAdmitted(prefix, window, t - window, t) + r.cost, prev, charged, window, limit,
                    r.now % window, t % window);
  }

  lemma PartsOnKey(requests: seq<Request>, window: int, limit: int, t: int)
    requires window > 0 && limit >= 0 && LimitedBy(requests, limit) && Timely(requests, window)
    requires requests != [] && t / window * window <= requests[|requests| - 1].now <= t
    ensures var prefix, r := requests[..|requests| - 1], requests[|requests| - 1];
            var seen := Visible(StoredRun(prefix, window), r.ms);
            StoredAdmitted(prefix, window, t - window, t) <= CountOf(seen, t / window - 1) + CountOf(seen, t / window)
  {
    hide StoredAdmitted, StoredRun, Visible, Timely, InSight;
    var prefix, r := requests[..|requests| - 1], requests[|requests| - 1];
    var bucket := t / window;
    var mid := bucket * window - 1;
    assert (bucket - 1) * window == bucket * window - window;
    StoredSplits(prefix, window, t - window, mid, t);
    LastSees(requests, window, t - window, mid, bucket - 1, |requests| - 1);
    LastSees(requests, window, mid, t, bucket, |requests| - 1);
    NothingLost(prefix, window, limit, t - window, mid, bucket - 1, r.ms);
    NothingLost(prefix, window, limit, mid, t, bucket, r.ms);
  }

  lemma SeenFits(seen: Buckets, now: int, window: int, limit: int, cost: int, t: int)
    requires window > 0 && cost >= 0 && 0 <= CountOf(seen, t / window - 1) <= limit
    requires t / window * window <= now <= t && Admits(seen, now, window, limit, cost)
    ensures Fits(CountOf(seen, t / window - 1), CountOf(seen, t / window) + cost, now % window, window, limit)
    ensures now % window <= t % window
  {
    hide Admits;
    BucketInterval(now, window, t / window);
    AdmissionBound(seen, now, window, limit, cost);
  }

  lemma PrefixTimely(requests: seq<Request>, window: int)
    requires window > 0 && requests != [] && Timely(requests, window) && NoneOvertaken(ReadingsOf(requests), window)
    ensures var prefix := requests[..|requests| - 1];
            Timely(prefix, window) && NoneOvertaken(ReadingsOf(prefix), window)
  {
    assert ReadingsOf(requests)[..|requests| - 1] == ReadingsOf(requests[..|requests| - 1]);
  }

  /** The window bound for the key as stored, expiry included, for scripts that run late and out of order
      as long as no reading is overtaken. */
  lemma {:induction false} DeployedTwoBucketBound(requests: seq<Request>, window: int, limit: int, t: int)
    requires window > 0 && limit >= 0 && LimitedBy(requests, limit)
    requires Timely(requests, window) && NoneOvertaken(ReadingsOf(requests), window)
    ensures StoredAdmitted(requests, window, t - window, t) * window <= limit * (window + t % window)
  {
    hide Admits, Visible, StoredRun, Timely, NoneOvertaken;
    if requests == [] {
      WithinLimitIsWithinBound(0, window, limit, t % window);
    } else {
      var prefix, r := requests[..|requests| - 1], requests[|requests| - 1];
      PrefixTimely(requests, window);
      DeployedTwoBucketBound(prefix, window, limit, t);
      if t - window < r.now <= t && Admits(Visible(StoredRun(prefix, window), r.ms), r.now, window, limit, r.cost) {
        if r.now < t / window * window {
          LastInFirstPart(requests, window, limit, t);
          WithinLimitIsWithinBound(StoredAdmitted(requests, window, t - window, t), window, limit, t % window);
        } else {
          LastInSecondPart(requests, window, limit, t);
        }
      }
    }
  }

  lemma {:induction false} WholeBucketBound(requests: seq<Request>, window: int, limit: int, t: int)
    requires window > 0 && limit >= 0 && LimitedBy(requests, limit) && Timely(requests, window)
    requires t % window == window - 1
    ensures StoredAdmitted(requests, window, t - window, t) <= limit
  {
    hide Admits, Visible, StoredRun, Timely;
    if requests != [] {
      var prefix, r := requests[..|requests| - 1], requests[|requests| - 1];
      assert Timely(prefix, window) by { TimelyPrefix(requests, window); }
      WholeBucketBound(prefix, window, limit, t);
      if t - window < r.now <= t {
        var bucket := t / window;
        assert t == bucket * window + window - 1;
        LastSees(requests, window, t - window, t, bucket, |requests|);
        assert requests[..|requests|] == requests;
        NothingLost(requests, window, limit, t - window, t, bucket, r.ms);
        StoredWithinLimit(requests, window, limit, r.ms, bucket);
      }
    }
  }

  lemma TimelyPrefix(requests: seq<Request>, window: int)
    requires window > 0 && requests != [] && Timely(requests, window)
    ensures Timely(requests[..|requests| - 1], window)
  {
  }

  /** Main result.  In a timely run without overtaken readings the key as stored admits at most
      limit * (1 + (t mod W) / W) within any window (t - W, t], rounded down, and at most the limit in a
      whole bucket: the exact maximum of the map that never expires. */
  lemma DeployedWindowBound(requests: seq<Request>, window: int, limit: int, t: int)
    requires window > 0 && limit >= 0 && LimitedBy(requests, limit)
    requires Timely(requests, window) && NoneOvertaken(ReadingsOf(requests), window)
    ensures StoredAdmitted(requests, window, t - window, t) * window <= limit * (window + t % window)
    ensures StoredAdmitted(requests, window, t - window, t) <= MostInWindow(window, limit, t)
  {
    hide StoredAdmitted, Timely, NoneOvertaken;
    DeployedTwoBucketBound(requests, window, limit, t);
    IntegerPart(StoredAdmitted(requests, window, t - window, t), limit, t % window, window);
    if t % window == window - 1 {
      WholeBucketBound(requests, window, limit, t);
    }
  }

  // ------------------------------------------------------------------ what a refusal leaves behind

  /** The script's guard: weighted usage and cost together pass the limit. */
  predicate Over(key: Stored, ms: int, now: int, window: int, limit: int, cost: int)
    requires window > 0
  {
    Scaled(Visible(key, ms), now, window) + cost * window > limit * window
  }

  /** A free call in the millisecond of the last charge rewrites what is there. */
  predicate LeavesNoTrace(key: Stored, ms: int, now: int, window: int, cost: int)
    requires window > 0
  {
    cost == 0 && key.Hash? && key.expireAt == ms + 2 * window * 1000 && now / window in key.counts
  }

  /** A script execution leaves the key as it was exactly when usage and cost pass the limit, or the
      call is free and the key was charged in the same bucket and millisecond. */
  lemma UntouchedIff(key: Stored, ms: int, now: int, window: int, limit: int, cost: int)
    requires window > 0
    ensures StoredAfter(key, ms, now, window, limit, cost) == key
            <==> Over(key, ms, now, window, limit, cost) || LeavesNoTrace(key, ms, now, window, cost)
  {
    hide Admits, Scaled;
    var seen, b := Visible(key, ms), now / window;
    AdmitsIffScaled(seen, now, window, limit, cost);
    if Admits(seen, now, window, limit, cost) {
      var after := StoredAfter(key, ms, now, window, limit, cost);
      assert after.counts == seen[b := CountOf(seen, b) + cost] && after.expireAt == ms + 2 * window * 1000;
      assert CountOf(after.counts, b) == CountOf(seen, b) + cost && b in after.counts;
      if LeavesNoTrace(key, ms, now, window, cost) {
        assert after.counts == seen;
      }
    }
  }

  /** "A rejected request never mutates state" holds of a whole request exactly when the usage and
      cost pass the limit on both keys, free calls aside: a request refused by one quota is still
      charged to the other.  The two scripts run at server times `ms` and `ms'`. */
  lemma RejectedRequestIsFreeIffBothRefuse(
    rpm: Stored, tpm: Stored, now: int, ms: int, ms': int, window: int, tenant: Tenant, cost: int)
    requires window > 0
    ensures (&& StoredAfter(rpm, ms, now, window, tenant.rpmLimit, 1) == rpm
             && StoredAfter(tpm, ms', now, window, tenant.tpmLimit, cost) == tpm)
            <==> (&& Over(rpm, ms, now, window, tenant.rpmLimit, 1)
                  && (Over(tpm, ms', now, window, tenant.tpmLimit, cost) || LeavesNoTrace(tpm, ms', now, window, cost)))
  {
    UntouchedIff(rpm, ms, now, window, tenant.rpmLimit, 1);
    UntouchedIff(tpm, ms', now, window, tenant.tpmLimit, cost);
  }

  /** The first charge of a key. */
  lemma FirstExecution(ms: int, now: int, window: int, limit: int, cost: int)
    requires window > 0
    ensures Answer(Visible(Missing, ms), now, window, limit, cost).allowed <==> cost <= limit
    ensures StoredAfter(Missing, ms, now, window, limit, cost) ==
            if cost <= limit then Hash(map[now / window := cost], ms + 2 * window * 1000) else Missing
  {
    hide Answer;
    EmptyUsage(map[], now, window, limit, cost);
  }

  /** So it happens: the first request of a tenant, with more tokens than its quota, is refused and
      charged to the request quota. */
  lemma ChargedThoughRefused(tenant: Tenant, cost: int)
    requires tenant.rpmLimit >= 1 && cost > tenant.tpmLimit
    ensures !Answer(Visible(Missing, 0), 0, 60, tenant.tpmLimit, cost).allowed
    ensures StoredAfter(Missing, 0, 0, 60, tenant.tpmLimit, cost) == Missing
    ensures StoredAfter(Missing, 0, 0, 60, tenant.rpmLimit, 1) == Hash(map[0 := 1], 120000)
  {
    hide Answer, StoredAfter;
    FirstExecution(0, 0, 60, tenant.tpmLimit, cost);
    FirstExecution(0, 0, 60, tenant.rpmLimit, 1);
  }
}
