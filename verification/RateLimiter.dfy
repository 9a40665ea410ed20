/** The limiter as it runs: each quota is a Redis hash with a time to live, and a request is checked
    against two of them.  The hash is shown to behave like a map that never expires, and like a
    limiter that keeps two counters only. */
module RateLimiter {
  import opened SlidingWindow

  /** A key of the Redis server: missing, or a hash that disappears once the server's
      millisecond clock is past `expireAt`. */
  datatype Stored = Missing | Hash(counts: Buckets, expireAt: int)

  /** What a script sees of the key at server time `ms`. */
  function Visible(key: Stored, ms: int): Buckets {
    if key.Hash? && ms <= key.expireAt then key.counts else map[]
  }

  /** The key after the script.  EXPIRE is issued by admitted calls only. */
  function StoredAfter(key: Stored, ms: int, now: int, window: int, limit: int, cost: int): Stored
    requires window > 0
  {
    var seen := Visible(key, ms);
    if Admits(seen, now, window, limit, cost)
    then Hash(Charge(seen, now, window, limit, cost), ms + 2 * window * 1000)
    else key
  }

  // ------------------------------------------------------------------ the request check

  datatype Tenant = Tenant(id: string, rpmLimit: int, tpmLimit: int)

  datatype Dimension = Rpm | Tpm

  function Suffix(d: Dimension): string {
    match d case Rpm => ":rpm" case Tpm => ":tpm"
  }

  function KeyName(tenant: string, d: Dimension): string {
    "ratelimit:" + tenant + Suffix(d)
  }

  /** Quotas never share a key, whatever characters the tenant ids contain. */
  lemma KeyNamesDistinct(a: string, b: string, d: Dimension, e: Dimension)
    ensures KeyName(a, d) == KeyName(b, e) ==> a == b && d == e
  {
    if KeyName(a, d) == KeyName(b, e) {
      var k := KeyName(a, d);
      assert |a| == |b|;
      assert a == k[10..10 + |a|];
      assert b == k[10..10 + |b|];
      assert k[|k| - 3] == (if d.Rpm? then 'r' else 't');
      assert k[|k| - 3] == (if e.Rpm? then 'r' else 't');
    }
  }

  datatype Info = Info(allowed: bool, limit: int, remaining: real, reset: int, rpm: Reply, tpm: Reply)

  /** The reply of the dimension that is reported to the client, with its limit. */
  ghost predicate Reports(info: Info, reply: Reply, limit: int) {
    info.limit == limit && info.remaining == reply.remaining && info.reset == reply.reset
  }

  lemma RefusalLeavesLess(counts: Buckets, now: int, window: int, limit: int, cost: int)
    requires window > 0
    ensures var reply := Answer(counts, now, window, limit, cost);
            !reply.allowed ==> reply.remaining < cost as real
  {
    hide Scaled;
    ReplyReportsNewState(counts, now, window, limit, cost);
  }

  class Limiter {
    const WINDOW_SECONDS: int := 60

    /** The rate-limit keys of the Redis server. */
    var keys: map<string, Stored>

    constructor ()
      ensures keys == map[]
    {
      keys := map[];
    }

    function Key(name: string): Stored
      reads this
    {
      if name in keys then keys[name] else Missing
    }

    /** One execution of the script: replies from what is visible and writes at most this key. */
    method EvalWindow(name: string, ms: int, now: int, window: int, limit: int, cost: int) returns (reply: Reply)
      requires window > 0
      modifies this
      ensures reply == Answer(Visible(old(Key(name)), ms), now, window, limit, cost)
      ensures Key(name) == StoredAfter(old(Key(name)), ms, now, window, limit, cost)
      ensures forall other :: other != name ==> Key(other) == old(Key(other))
      ensures !reply.allowed ==> keys == old(keys)
    {
      var seen := Visible(Key(name), ms);
      var bucket := now / window;
      var current, prev := CountOf(seen, bucket), CountOf(seen, bucket - 1);
      var weighted := Weighted(prev, current, now, window);
      var reset := (bucket + 1) * window - now;
      if weighted + cost as real > limit as real {
        return Reply(false, weighted, limit as real - weighted, reset);
      }
      current := current + cost;
      keys := keys[name := Hash(seen[bucket := current], ms + window * 2 * 1000)];
      weighted := Weighted(prev, current, now, window);
      return Reply(true, weighted, limit as real - weighted, reset);
    }

    /** Checks a request against both quotas.  `ms` and `ms'` are the server times of the two
        script executions.  Both are always evaluated: the request is allowed when both admit it,
        and a dimension that admits it is charged even when the other refuses. */
    method CheckRateLimits(tenant: Tenant, promptTokenCost: int, now: int, ms: int, ms': int) returns (info: Info)
      modifies this
      ensures info.rpm
              == Answer(Visible(old(Key(KeyName(tenant.id, Rpm))), ms), now, WINDOW_SECONDS, tenant.rpmLimit, 1)
      ensures info.tpm
              == Answer(Visible(old(Key(KeyName(tenant.id, Tpm))), ms'), now, WINDOW_SECONDS, tenant.tpmLimit,
                        promptTokenCost)
      ensures info.allowed <==> info.rpm.allowed && info.tpm.allowed
      ensures Key(KeyName(tenant.id, Rpm))
              == StoredAfter(old(Key(KeyName(tenant.id, Rpm))), ms, now, WINDOW_SECONDS, tenant.rpmLimit, 1)
      ensures Key(KeyName(tenant.id, Tpm))
              == StoredAfter(old(Key(KeyName(tenant.id, Tpm))), ms', now, WINDOW_SECONDS, tenant.tpmLimit,
                             promptTokenCost)
      ensures forall name :: name != KeyName(tenant.id, Rpm) && name != KeyName(tenant.id, Tpm)
                ==> Key(name) == old(Key(name))
      ensures info.allowed ==>
                && info.remaining == (if info.rpm.remaining < info.tpm.remaining
                                      then info.rpm.remaining else info.tpm.remaining)
                && (info.rpm.remaining == info.remaining ==> Reports(info, info.rpm, tenant.rpmLimit))
                && (info.rpm.remaining != info.remaining ==> Reports(info, info.tpm, tenant.tpmLimit))
      ensures !info.rpm.allowed ==> Reports(info, info.rpm, tenant.rpmLimit) && info.remaining < 1.0
      ensures info.rpm.allowed && !info.tpm.allowed ==>
                Reports(info, info.tpm, tenant.tpmLimit) && info.remaining < promptTokenCost as real
      ensures (!info.rpm.allowed && !info.tpm.allowed) ==> keys == old(keys)
    {
      hide StoredAfter, Visible, KeyName;
      KeyNamesDistinct(tenant.id, tenant.id, Rpm, Tpm);
      RefusalLeavesLess(Visible(Key(KeyName(tenant.id, Rpm)), ms), now, WINDOW_SECONDS, tenant.rpmLimit, 1);
      RefusalLeavesLess(Visible(Key(KeyName(tenant.id, Tpm)), ms'), now, WINDOW_SECONDS, tenant.tpmLimit,
                        promptTokenCost);
      var rpm := EvalWindow(KeyName(tenant.id, Rpm), ms, now, WINDOW_SECONDS, tenant.rpmLimit, 1);
      var tpm := EvalWindow(KeyName(tenant.id, Tpm), ms', now, WINDOW_SECONDS, tenant.tpmLimit, promptTokenCost);
      var limit, remaining, reset := tenant.tpmLimit, tpm.remaining, tpm.reset;
      if !rpm.allowed {
        limit, remaining, reset := tenant.rpmLimit, rpm.remaining, rpm.reset;
      } else if !tpm.allowed {
        limit, remaining, reset := tenant.tpmLimit, tpm.remaining, tpm.reset;
      } else if rpm.remaining <= tpm.remaining {
        limit, remaining, reset := tenant.rpmLimit, rpm.remaining, rpm.reset;
      }
      info := Info(rpm.allowed && tpm.allowed, limit, remaining, reset, rpm, tpm);
    }
  }
}
