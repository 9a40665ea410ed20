/** The admission gate as a whole: concurrent requests of any tenants on one shared key space.  Each
    request runs two scripts, and the scripts of different requests interleave freely. */
module Quotas {
  import opened SlidingWindow
  import opened RateLimiter
  import opened Expiry

  const WINDOW: int := 60

  /** A request of a tenant, and the caller's clock when it was checked. */
  datatype Check = Check(tenant: string, tokens: int, now: int)

  /** One script execution: which request, which quota, and the server time. */
  datatype Execution = Execution(request: nat, d: Dimension, ms: int)

  /** The limits of each tenant, fixed over the run. */
  type Limits = string -> (int, int)

  type Keys = map<string, Stored>

  function KeyOf(keys: Keys, name: string): Stored {
    if name in keys then keys[name] else Missing
  }

  function LimitOf(limits: Limits, tenant: string, d: Dimension): int {
    match d case Rpm => limits(tenant).0 case Tpm => limits(tenant).1
  }

  function CostOf(c: Check, d: Dimension): int {
    match d case Rpm => 1 case Tpm => c.tokens
  }

  /** The script of one dimension, on the shared keys. */
  function Charged(keys: Keys, c: Check, d: Dimension, ms: int, limits: Limits): Keys {
    var name := KeyName(c.tenant, d);
    keys[name := StoredAfter(KeyOf(keys, name), ms, c.now, WINDOW, LimitOf(limits, c.tenant, d), CostOf(c, d))]
  }

  predicate Admitting(keys: Keys, c: Check, d: Dimension, ms: int, limits: Limits) {
    Admits(Visible(KeyOf(keys, KeyName(c.tenant, d)), ms), c.now, WINDOW, LimitOf(limits, c.tenant, d), CostOf(c, d))
  }

  // ------------------------------------------------------------------ the running limiter

  /** Two stores that no script can tell apart. */
  ghost predicate Alike(a: Keys, b: Keys) {
    forall name :: KeyOf(a, name) == KeyOf(b, name)
  }

  /** The limiter's script execution is one step of this model. */
  method Execute(limiter: Limiter, c: Check, d: Dimension, ms: int, limits: Limits) returns (allowed: bool)
    modifies limiter
    ensures allowed <==> Admitting(old(limiter.keys), c, d, ms, limits)
    ensures Alike(limiter.keys, Charged(old(limiter.keys), c, d, ms, limits))
  {
    hide StoredAfter, Answer, Visible, KeyName;
    ghost var before := limiter.keys;
    var name := KeyName(c.tenant, d);
    assert limiter.Key(name) == KeyOf(before, name);
    var reply := limiter.EvalWindow(name, ms, c.now, WINDOW, LimitOf(limits, c.tenant, d), CostOf(c, d));
    forall other ensures KeyOf(limiter.keys, other) == KeyOf(Charged(before, c, d, ms, limits), other) {
      assert KeyOf(limiter.keys, other) == limiter.Key(other);
    }
    return reply.allowed;
  }

  /** An undisturbed request: both scripts in sequence, allowed when both admit. */
  method Serve(limiter: Limiter, c: Check, ms: int, ms': int, limits: Limits) returns (info: Info)
    modifies limiter
    ensures var keys := old(limiter.keys);
            var between := Charged(keys, c, Rpm, ms, limits);
            && (info.allowed <==> Admitting(keys, c, Rpm, ms, limits) && Admitting(between, c, Tpm, ms', limits))
            && Alike(limiter.keys, Charged(between, c, Tpm, ms', limits))
  {
    hide StoredAfter, KeyName, Answer, Visible;
    ghost var before := limiter.keys;
    OneKeyAtATime(before, c, Rpm, ms, limits, c.tenant, Tpm);
    KeyNamesDistinct(c.tenant, c.tenant, Rpm, Tpm);
    assert KeyOf(before, KeyName(c.tenant, Rpm)) == limiter.Key(KeyName(c.tenant, Rpm));
    assert KeyOf(before, KeyName(c.tenant, Tpm)) == limiter.Key(KeyName(c.tenant, Tpm));
    info := limiter.CheckRateLimits(Tenant(c.tenant, limits(c.tenant).0, limits(c.tenant).1), c.tokens, c.now, ms, ms');
    ghost var after := Charged(Charged(before, c, Rpm, ms, limits), c, Tpm, ms', limits);
    forall name ensures KeyOf(limiter.keys, name) == KeyOf(after, name) {
      assert KeyOf(limiter.keys, name) == limiter.Key(name);
    }
  }

  // ------------------------------------------------------------------ interleaved runs

  predicate InRange(checks: seq<Check>, run: seq<Execution>) {
    forall i :: 0 <= i < |run| ==> run[i].request < |checks|
  }

  function AfterAll(checks: seq<Check>, run: seq<Execution>, limits: Limits): Keys
    requires InRange(checks, run)
  {
    if run == [] then map[]
    else
      var e := run[|run| - 1];
      Charged(AfterAll(checks, run[..|run| - 1], limits), checks[e.request], e.d, e.ms, limits)
  }

  /** The i-th execution admits its request. */
  predicate AdmittedAt(checks: seq<Check>, run: seq<Execution>, i: nat, limits: Limits)
    requires InRange(checks, run) && i < |run|
  {
    Admitting(AfterAll(checks, run[..i], limits), checks[run[i].request], run[i].d, run[i].ms, limits)
  }

  ghost predicate AdmittedBy(checks: seq<Check>, run: seq<Execution>, limits: Limits, k: nat, d: Dimension)
    requires InRange(checks, run)
  {
    exists i :: 0 <= i < |run| && run[i].request == k && run[i].d == d && AdmittedAt(checks, run, i, limits)
  }

  /** Request k got through: both of its scripts admitted it. */
  ghost predicate Passed(checks: seq<Check>, run: seq<Execution>, limits: Limits, k: nat)
    requires InRange(checks, run)
  {
    AdmittedBy(checks, run, limits, k, Rpm) && AdmittedBy(checks, run, limits, k, Tpm)
  }

  predicate Concerns(c: Check, tenant: string, after: int, upTo: int) {
    c.tenant == tenant && after < c.now <= upTo
  }

  /** Cost in dimension d of the tenant's requests among the first n that were made in (after, upTo]
      and got through. */
  ghost function PassedCost(
    checks: seq<Check>, run: seq<Execution>, limits: Limits, n: nat, tenant: string, d: Dimension,
    after: int, upTo: int): int
    requires InRange(checks, run) && n <= |checks|
  {
    if n == 0 then 0
    else
      PassedCost(checks, run, limits, n - 1, tenant, d, after, upTo)
      + (if Concerns(checks[n - 1], tenant, after, upTo) && Passed(checks, run, limits, n - 1)
         then CostOf(checks[n - 1], d) else 0)
  }

  // ------------------------------------------------------------------ one key at a time

  /** The script executions on one key. */
  function Projection(
    checks: seq<Check>, run: seq<Execution>, limits: Limits, tenant: string, d: Dimension): seq<Request>
    requires InRange(checks, run)
  {
    if run == [] then []
    else
      var e := run[|run| - 1];
      var c := checks[e.request];
      Projection(checks, run[..|run| - 1], limits, tenant, d)
      + (if c.tenant == tenant && e.d == d
         then [Request(c.now, e.ms, LimitOf(limits, tenant, d), CostOf(c, d))] else [])
  }

  lemma OneKeyAtATime(keys: Keys, c: Check, d: Dimension, ms: int, limits: Limits, tenant: string, e: Dimension)
    ensures KeyOf(Charged(keys, c, d, ms, limits), KeyName(tenant, e)) ==
            if tenant == c.tenant && e == d
            then StoredAfter(KeyOf(keys, KeyName(tenant, e)), ms, c.now, WINDOW,
                             LimitOf(limits, tenant, d), CostOf(c, d))
            else KeyOf(keys, KeyName(tenant, e))
  {
    hide StoredAfter, KeyName;
    KeyNamesDistinct(tenant, c.tenant, e, d);
  }

  /** Each key holds what it would hold if its own executions were the only ones. */
  lemma {:induction false} KeysAreIndependent(
    checks: seq<Check>, run: seq<Execution>, limits: Limits, tenant: string, d: Dimension)
    requires InRange(checks, run)
    ensures KeyOf(AfterAll(checks, run, limits), KeyName(tenant, d))
            == StoredRun(Projection(checks, run, limits, tenant, d), WINDOW)
  {
    hide StoredAfter, KeyName, KeyOf, Charged;
    if run == [] {
      assert KeyOf(map[], KeyName(tenant, d)) == Missing by { NoKeys(KeyName(tenant, d)); }
    } else {
      var prefix, e := run[..|run| - 1], run[|run| - 1];
      var c := checks[e.request];
      KeysAreIndependent(checks, prefix, limits, tenant, d);
      OneKeyAtATime(AfterAll(checks, prefix, limits), c, e.d, e.ms, limits, tenant, d);
      if c.tenant == tenant && e.d == d {
        OneMoreRequest(Projection(checks, prefix, limits, tenant, d),
                       Request(c.now, e.ms, LimitOf(limits, tenant, d), CostOf(c, d)), WINDOW, 0, 0);
      } else {
        assert Projection(checks, run, limits, tenant, d) == Projection(checks, prefix, limits, tenant, d);
      }
    }
  }

  lemma NoKeys(name: string)
    ensures KeyOf(map[], name) == Missing
  {
  }

  // ------------------------------------------------------------------ the bound

  /** What the executions of request k in dimension d were charged. */
  function ChargedTo(checks: seq<Check>, run: seq<Execution>, limits: Limits, k: nat, d: Dimension): int
    requires InRange(checks, run)
  {
    if run == [] then 0
    else
      var e := run[|run| - 1];
      ChargedTo(checks, run[..|run| - 1], limits, k, d)
      + (if e.request == k && e.d == d && AdmittedAt(checks, run, |run| - 1, limits)
         then CostOf(checks[e.request], d) else 0)
  }

  function ChargedToFirst(
    checks: seq<Check>, run: seq<Execution>, limits: Limits, n: nat, tenant: string, d: Dimension,
    after: int, upTo: int): int
    requires InRange(checks, run) && n <= |checks|
  {
    if n == 0 then 0
    else
      ChargedToFirst(checks, run, limits, n - 1, tenant, d, after, upTo)
      + (if Concerns(checks[n - 1], tenant, after, upTo) then ChargedTo(checks, run, limits, n - 1, d) else 0)
  }

  ghost predicate NonNegativeTokens(checks: seq<Check>) {
    forall k :: 0 <= k < |checks| ==> checks[k].tokens >= 0
  }

  /** A request that some execution admitted was charged at least its cost. */
  lemma {:induction false} AdmittedIsCharged(
    checks: seq<Check>, run: seq<Execution>, limits: Limits, k: nat, d: Dimension)
    requires InRange(checks, run) && NonNegativeTokens(checks) && k < |checks|
    ensures ChargedTo(checks, run, limits, k, d) >= 0
    ensures AdmittedBy(checks, run, limits, k, d) ==> ChargedTo(checks, run, limits, k, d) >= CostOf(checks[k], d)
  {
    hide Admitting, AfterAll;
    if run != [] {
      var prefix := run[..|run| - 1];
      AdmittedIsCharged(checks, prefix, limits, k, d);
      if AdmittedBy(checks, run, limits, k, d) {
        var i :| 0 <= i < |run| && run[i].request == k && run[i].d == d && AdmittedAt(checks, run, i, limits);
        if i < |prefix| {
          assert prefix[..i] == run[..i];
          assert AdmittedAt(checks, prefix, i, limits);
        }
      }
    }
  }

  lemma {:induction false} PassedWithinCharged(
    checks: seq<Check>, run: seq<Execution>, limits: Limits, n: nat, tenant: string, d: Dimension,
    after: int, upTo: int)
    requires InRange(checks, run) && NonNegativeTokens(checks) && n <= |checks|
    ensures PassedCost(checks, run, limits, n, tenant, d, after, upTo)
            <= ChargedToFirst(checks, run, limits, n, tenant, d, after, upTo)
  {
    hide AdmittedBy, ChargedTo;
    if n > 0 {
      PassedWithinCharged(checks, run, limits, n - 1, tenant, d, after, upTo);
      AdmittedIsCharged(checks, run, limits, n - 1, d);
    }
  }

  /** One more execution adds its charge to one request. */
  lemma {:induction false} ChargedToFirstStep(
    checks: seq<Check>, run: seq<Execution>, limits: Limits, n: nat, tenant: string, d: Dimension,
    after: int, upTo: int)
    requires InRange(checks, run) && n <= |checks| && run != []
    ensures var e := run[|run| - 1];
            ChargedToFirst(checks, run, limits, n, tenant, d, after, upTo) ==
            ChargedToFirst(checks, run[..|run| - 1], limits, n, tenant, d, after, upTo)
            + (if e.request < n && e.d == d && Concerns(checks[e.request], tenant, after, upTo)
                  && AdmittedAt(checks, run, |run| - 1, limits)
               then CostOf(checks[e.request], d) else 0)
  {
    hide AdmittedAt;
    if n > 0 {
      ChargedToFirstStep(checks, run, limits, n - 1, tenant, d, after, upTo);
    }
  }

  lemma {:induction false} NothingCharged(
    checks: seq<Check>, limits: Limits, n: nat, tenant: string, d: Dimension, after: int, upTo: int)
    requires n <= |checks|
    ensures ChargedToFirst(checks, [], limits, n, tenant, d, after, upTo) == 0
  {
    if n > 0 {
      NothingCharged(checks, limits, n - 1, tenant, d, after, upTo);
    }
  }

  /** One more execution adds its charge to what the tenant's key admitted. */
  lemma KeyAdmissionStep(
    checks: seq<Check>, run: seq<Execution>, limits: Limits, tenant: string, d: Dimension, after: int, upTo: int)
    requires InRange(checks, run) && run != []
    ensures var e := run[|run| - 1];
            StoredAdmitted(Projection(checks, run, limits, tenant, d), WINDOW, after, upTo) ==
            StoredAdmitted(Projection(checks, run[..|run| - 1], limits, tenant, d), WINDOW, after, upTo)
            + (if e.d == d && Concerns(checks[e.request], tenant, after, upTo)
                  && AdmittedAt(checks, run, |run| - 1, limits)
               then CostOf(checks[e.request], d) else 0)
  {
    hide Admits, StoredRun, StoredAdmitted, AfterAll, Visible, KeyOf, KeyName;
    var prefix, e := run[..|run| - 1], run[|run| - 1];
    var c := checks[e.request];
    var before := Projection(checks, prefix, limits, tenant, d);
    if c.tenant == tenant && e.d == d {
      KeysAreIndependent(checks, prefix, limits, tenant, d);
      OneMoreRequest(before, Request(c.now, e.ms, LimitOf(limits, tenant, d), CostOf(c, d)), WINDOW, after, upTo);
    } else {
      assert Projection(checks, run, limits, tenant, d) == before;
    }
  }

  /** Summed over the requests, the charges of one dimension are what the tenant's key admitted. */
  lemma {:induction false} ChargesAreAdmissions(
    checks: seq<Check>, run: seq<Execution>, limits: Limits, tenant: string, d: Dimension, after: int, upTo: int)
    requires InRange(checks, run)
    ensures ChargedToFirst(checks, run, limits, |checks|, tenant, d, after, upTo)
            == StoredAdmitted(Projection(checks, run, limits, tenant, d), WINDOW, after, upTo)
  {
    hide ChargedToFirst, AdmittedAt, Concerns;
    if run == [] {
      NothingCharged(checks, limits, |checks|, tenant, d, after, upTo);
    } else {
      ChargesAreAdmissions(checks, run[..|run| - 1], limits, tenant, d, after, upTo);
      ChargedToFirstStep(checks, run, limits, |checks|, tenant, d, after, upTo);
      KeyAdmissionStep(checks, run, limits, tenant, d, after, upTo);
    }
  }

  lemma {:induction false} ProjectionIsLimited(
    checks: seq<Check>, run: seq<Execution>, limits: Limits, tenant: string, d: Dimension)
    requires InRange(checks, run) && NonNegativeTokens(checks)
    ensures LimitedBy(Projection(checks, run, limits, tenant, d), LimitOf(limits, tenant, d))
  {
    if run != [] {
      ProjectionIsLimited(checks, run[..|run| - 1], limits, tenant, d);
    }
  }

  /** Main result.  However the scripts of concurrent requests of any tenants interleave, as long as none
      is overtaken on the tenant's own key or runs more than a window late: the requests of the tenant
      made within a window (t - 60, t] that pass the gate number at most rpm (1 + (t mod 60) / 60), and
      their tokens at most tpm (1 + (t mod 60) / 60); rpm and tpm when the window is a whole minute
      bucket. */
  lemma GateBound(checks: seq<Check>, run: seq<Execution>, limits: Limits, tenant: string, d: Dimension, t: int)
    requires InRange(checks, run) && NonNegativeTokens(checks) && LimitOf(limits, tenant, d) >= 0
    requires var requests := Projection(checks, run, limits, tenant, d);
             Timely(requests, WINDOW) && NoneOvertaken(ReadingsOf(requests), WINDOW)
    ensures PassedCost(checks, run, limits, |checks|, tenant, d, t - WINDOW, t)
            <= MostInWindow(WINDOW, LimitOf(limits, tenant, d), t)
  {
    hide MostInWindow, Projection, Timely, NoneOvertaken, LimitedBy;
    PassedWithinCharged(checks, run, limits, |checks|, tenant, d, t - WINDOW, t);
    ChargesAreAdmissions(checks, run, limits, tenant, d, t - WINDOW, t);
    ProjectionIsLimited(checks, run, limits, tenant, d);
    DeployedWindowBound(Projection(checks, run, limits, tenant, d), WINDOW, LimitOf(limits, tenant, d), t);
  }
}
