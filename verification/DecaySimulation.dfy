/** The two backends side by side.  Without background evaporation the lazy decay of the Redis script
    simulates the eager decay of the in-memory field exactly; with it, as deployed, the Redis traces
    decay at least as much, and strictly more as soon as one deposit comes late. */
module DecaySimulation {
  import opened RealMath
  import opened Traces
  import opened FieldValue
  import opened RedisField
  import opened OverlappingEvaporation

  // ------------------------------------------------------------------ lazy simulates eager

  /** A decay interval elapses, or a node gets a deposit (at the start of the current interval). */
  datatype Moment = Tick | Arrive(id: NodeId, x: Sample)

  /** The in-memory field, ticked every interval; the Redis server, never ticked; intervals so far. */
  datatype Pair = Pair(eager: Field, lazy: Server, ticks: nat)

  function Now(start: real, ticks: nat, cfg: Config): real {
    start + ticks as real * cfg.interval
  }

  function Advance(pow: Power, p: Pair, m: Moment, start: real, cfg: Config): (p': Pair)
    requires cfg.interval != 0.0 && Shaped(p.eager)
    ensures Shaped(p'.eager) && p'.eager.ids == p.eager.ids
  {
    match m
    case Tick => Pair(Apply(p.eager, Evaporate(cfg.rate), cfg.scale, cfg.flags), p.lazy, p.ticks + 1)
    case Arrive(id, x) =>
      if id in p.eager.ids then
        Pair(Apply(p.eager, FieldValue.Deposit(id, x), cfg.scale, cfg.flags),
             p.lazy[id := DepositScript(pow, Fetch(p.lazy, id), x, Now(start, p.ticks, cfg), cfg)],
             p.ticks)
      else p
  }

  function AdvanceAll(pow: Power, p: Pair, ms: seq<Moment>, start: real, cfg: Config): (p': Pair)
    requires cfg.interval != 0.0 && Shaped(p.eager)
    ensures Shaped(p'.eager) && p'.eager.ids == p.eager.ids
  {
    if ms == [] then p
    else Advance(pow, AdvanceAll(pow, p, ms[..|ms| - 1], start, cfg), ms[|ms| - 1], start, cfg)
  }

  /** The hash was last written at the start of interval k, and decaying its row by the whole
      intervals since then gives the eager row. */
  ghost predicate Lags(row: Row, h: NodeHash, k: nat, ticks: nat, start: real, cfg: Config) {
    && k <= ticks
    && h.ts == Some(Now(start, k, cfg))
    && row == ScaleRow(RowOf(h), Pow(1.0 - cfg.rate, ticks - k), cfg.flags)
  }

  ghost predicate Simulates(p: Pair, start: real, cfg: Config)
    requires Shaped(p.eager)
  {
    forall id :: id in p.eager.ids ==>
      exists k: nat :: Lags(RowFor(p.eager, id), Fetch(p.lazy, id), k, p.ticks, start, cfg)
  }

  lemma WholeSteps(h: NodeHash, k: nat, ticks: nat, start: real, cfg: Config)
    requires cfg.interval > 0.0 && k <= ticks && h.ts == Some(Now(start, k, cfg))
    ensures Steps(h, Now(start, ticks, cfg), cfg.interval) == (ticks - k) as real
  {
    var n := (ticks - k) as real;
    assert ticks as real == k as real + n;
    assert Now(start, ticks, cfg) - Now(start, k, cfg) == n * cfg.interval;
    QuotientUnique(n * cfg.interval, cfg.interval, n);
  }

  lemma LagsAfterTick(row: Row, h: NodeHash, k: nat, ticks: nat, start: real, cfg: Config)
    requires Lags(row, h, k, ticks, start, cfg)
    ensures Lags(EvaporateRow(row, cfg.rate, cfg.flags), h, k, ticks + 1, start, cfg)
  {
    var n := ticks - k;
    OneMoreTick(row, RowOf(h), n, cfg.rate, cfg.flags);
    assert ticks + 1 - k == n + 1;
  }

  lemma OneMoreTick(row: Row, base: Row, n: nat, rate: real, flags: Flags)
    requires row == ScaleRow(base, Pow(1.0 - rate, n), flags)
    ensures EvaporateRow(row, rate, flags) == ScaleRow(base, Pow(1.0 - rate, n + 1), flags)
  {
    var p, q := Pow(1.0 - rate, n), Pow(1.0 - rate, n + 1);
    assert q == (1.0 - rate) * p;
    ScaleTwice(base, p, 1.0 - rate, flags);
  }

  lemma LagsAfterDeposit(pow: Power, row: Row, h: NodeHash, k: nat, ticks: nat, x: Sample, start: real, cfg: Config)
    requires PowLaws(pow) && ProperConfig(cfg) && Lags(row, h, k, ticks, start, cfg)
    ensures Lags(DepositRow(row, x, cfg.scale), DepositScript(pow, h, x, Now(start, ticks, cfg), cfg),
                 ticks, ticks, start, cfg)
  {
    WholeSteps(h, k, ticks, start, cfg);
    WholePower(pow, 1.0 - cfg.rate, ticks - k);
    var after := DepositScript(pow, h, x, Now(start, ticks, cfg), cfg);
    assert RowOf(after) == DepositRow(row, x, cfg.scale);
    ScaleByOne(RowOf(after), cfg.flags);
  }

  /** One moment, for one node. */
  lemma AdvanceLags(pow: Power, p: Pair, m: Moment, start: real, cfg: Config, id: NodeId, k: nat)
    requires PowLaws(pow) && ProperConfig(cfg) && Shaped(p.eager) && id in p.eager.ids
    requires Lags(RowFor(p.eager, id), Fetch(p.lazy, id), k, p.ticks, start, cfg)
    ensures var p' := Advance(pow, p, m, start, cfg);
            exists k': nat :: Lags(RowFor(p'.eager, id), Fetch(p'.lazy, id), k', p'.ticks, start, cfg)
  {
    hide PowLaws, Lags, RowFor, DepositScript, DepositRow, EvaporateRow, DepositAt, EvaporateAll;
    var p' := Advance(pow, p, m, start, cfg);
    var row, h := RowFor(p.eager, id), Fetch(p.lazy, id);
    match m {
      case Tick =>
        EngineOnMemory(p.eager, cfg, id);
        LagsAfterTick(row, h, k, p.ticks, start, cfg);
        assert Lags(RowFor(p'.eager, id), Fetch(p'.lazy, id), k, p'.ticks, start, cfg);
      case Arrive(target, x) =>
        if target in p.eager.ids { DepositRows(p.eager, target, x, cfg.scale, id); }
        if id == target {
          LagsAfterDeposit(pow, row, h, k, p.ticks, x, start, cfg);
          assert Lags(RowFor(p'.eager, id), Fetch(p'.lazy, id), p.ticks, p'.ticks, start, cfg);
        } else {
          assert Lags(RowFor(p'.eager, id), Fetch(p'.lazy, id), k, p'.ticks, start, cfg);
        }
    }
  }

  lemma AdvanceSimulates(pow: Power, p: Pair, m: Moment, start: real, cfg: Config)
    requires PowLaws(pow) && ProperConfig(cfg) && Shaped(p.eager) && Simulates(p, start, cfg)
    ensures Simulates(Advance(pow, p, m, start, cfg), start, cfg)
  {
    hide PowLaws, Lags;
    forall id | id in p.eager.ids
      ensures var p' := Advance(pow, p, m, start, cfg);
              exists k: nat :: Lags(RowFor(p'.eager, id), Fetch(p'.lazy, id), k, p'.ticks, start, cfg)
    {
      var k: nat :| Lags(RowFor(p.eager, id), Fetch(p.lazy, id), k, p.ticks, start, cfg);
      AdvanceLags(pow, p, m, start, cfg, id, k);
    }
  }

  lemma {:induction false} RunSimulates(pow: Power, p: Pair, ms: seq<Moment>, start: real, cfg: Config)
    requires PowLaws(pow) && ProperConfig(cfg) && Shaped(p.eager) && Simulates(p, start, cfg)
    ensures Simulates(AdvanceAll(pow, p, ms, start, cfg), start, cfg)
  {
    if ms != [] {
      RunSimulates(pow, p, ms[..|ms| - 1], start, cfg);
      AdvanceSimulates(pow, AdvanceAll(pow, p, ms[..|ms| - 1], start, cfg), ms[|ms| - 1], start, cfg);
    }
  }

  /** Both backends hold the same rows and every hash was written at `start`. */
  ghost predicate SameStart(f: Field, server: Server, start: real)
    requires Shaped(f)
  {
    forall id :: id in f.ids ==>
      RowFor(f, id) == RowOf(Fetch(server, id)) && Fetch(server, id).ts == Some(start)
  }

  lemma StartSimulates(f: Field, server: Server, start: real, cfg: Config)
    requires Shaped(f) && SameStart(f, server, start)
    ensures Simulates(Pair(f, server, 0), start, cfg)
  {
    hide RowFor, ScaleRow;
    forall id | id in f.ids ensures Lags(RowFor(f, id), Fetch(server, id), 0, 0, start, cfg) {
      assert 0 as real * cfg.interval == 0.0;
      ScaleByOne(RowFor(f, id), cfg.flags);
    }
  }

  /** The row is that of the hash, decayed by (1 - d)^(time since its `ts` / interval). */
  ghost predicate DecayedSince(pow: Power, row: Row, h: NodeHash, now: real, cfg: Config)
    requires cfg.interval != 0.0
  {
    && h.ts.Some? && h.ts.value <= now
    && row == ScaleRow(RowOf(h), pow(1.0 - cfg.rate, (now - h.ts.value) / cfg.interval), cfg.flags)
  }

  /** Main result.  Over any run of ticks and deposits, each in-memory row is the Redis row scaled by
      (1 - d)^(intervals since its `ts`), column by column and for every setting of the two flags. */
  lemma LazySimulatesEager(pow: Power, f: Field, server: Server, ms: seq<Moment>, start: real, cfg: Config, id: NodeId)
    requires PowLaws(pow) && ProperConfig(cfg) && Shaped(f) && SameStart(f, server, start) && id in f.ids
    ensures var p := AdvanceAll(pow, Pair(f, server, 0), ms, start, cfg);
            DecayedSince(pow, RowFor(p.eager, id), Fetch(p.lazy, id), start + p.ticks as real * cfg.interval, cfg)
  {
    hide PowLaws, RowFor, AdvanceAll, Lags, DecayedSince;
    StartSimulates(f, server, start, cfg);
    RunSimulates(pow, Pair(f, server, 0), ms, start, cfg);
    var p := AdvanceAll(pow, Pair(f, server, 0), ms, start, cfg);
    var k: nat :| Lags(RowFor(p.eager, id), Fetch(p.lazy, id), k, p.ticks, start, cfg);
    LagFactor(pow, RowFor(p.eager, id), Fetch(p.lazy, id), k, p.ticks, start, cfg);
  }

  lemma LagFactor(pow: Power, row: Row, h: NodeHash, k: nat, ticks: nat, start: real, cfg: Config)
    requires PowLaws(pow) && ProperConfig(cfg) && Lags(row, h, k, ticks, start, cfg)
    ensures DecayedSince(pow, row, h, start + ticks as real * cfg.interval, cfg)
  {
    hide PowLaws, ScaleRow;
    LagTime(h, k, ticks, start, cfg);
    WholePower(pow, 1.0 - cfg.rate, ticks - k);
  }

  lemma IntervalsAdd(m: real, n: real, interval: real)
    ensures (m + n) * interval == m * interval + n * interval
  {
  }

  lemma LagTime(h: NodeHash, k: nat, ticks: nat, start: real, cfg: Config)
    requires cfg.interval > 0.0 && k <= ticks && h.ts == Some(Now(start, k, cfg))
    ensures h.ts.value <= start + ticks as real * cfg.interval
    ensures (start + ticks as real * cfg.interval - h.ts.value) / cfg.interval == (ticks - k) as real
  {
    var n := (ticks - k) as real;
    assert ticks as real == k as real + n;
    ScaleMonotone(0.0, n, cfg.interval);
    IntervalsAdd(k as real, n, cfg.interval);
    var elapsed := n * cfg.interval;
    assert start + ticks as real * cfg.interval - h.ts.value == elapsed;
    QuotientUnique(elapsed, cfg.interval, n);
  }

  // ------------------------------------------------------------------ with the background engine

  /** The background engine evaporates both fields, or a node gets a deposit; `now` is arbitrary. */
  datatype Deployed = Engine(now: real) | Serve(id: NodeId, x: Sample, now: real)

  datatype Twin = Twin(memory: Field, redis: Server)

  /** One evaporation with nothing between its two pipelines. */
  function EvaporateServer(server: Server, ids: seq<NodeId>, now: real, cfg: Config): Server {
    WriteAll(server, ids, ReadAll(server, ids), cfg.rate, cfg.flags, now)
  }

  function Perform(pow: Power, t: Twin, e: Deployed, cfg: Config): (t': Twin)
    requires cfg.interval != 0.0 && Shaped(t.memory)
    ensures Shaped(t'.memory) && t'.memory.ids == t.memory.ids
  {
    match e
    case Engine(now) =>
      Twin(Apply(t.memory, Evaporate(cfg.rate), cfg.scale, cfg.flags),
           EvaporateServer(t.redis, t.memory.ids, now, cfg))
    case Serve(id, x, now) =>
      if id in t.memory.ids then
        Twin(Apply(t.memory, FieldValue.Deposit(id, x), cfg.scale, cfg.flags),
             t.redis[id := DepositScript(pow, Fetch(t.redis, id), x, now, cfg)])
      else t
  }

  function PerformAll(pow: Power, t: Twin, es: seq<Deployed>, cfg: Config): (t': Twin)
    requires cfg.interval != 0.0 && Shaped(t.memory)
    ensures Shaped(t'.memory) && t'.memory.ids == t.memory.ids
  {
    if es == [] then t
    else Perform(pow, PerformAll(pow, t, es[..|es| - 1], cfg), es[|es| - 1], cfg)
  }

  /** The time of the latest engine tick or deposit on the node, or `first`. */
  function LastWrite(es: seq<Deployed>, id: NodeId, first: real): real {
    if es == [] then first
    else
      match es[|es| - 1]
      case Engine(now) => now
      case Serve(target, _, now) => if target == id then now else LastWrite(es[..|es| - 1], id, first)
  }

  /** No deposit on the node comes after the latest earlier tick or deposit. */
  ghost predicate NeverLate(es: seq<Deployed>, id: NodeId, first: real) {
    es != [] ==>
      var prefix, e := es[..|es| - 1], es[|es| - 1];
      && NeverLate(prefix, id, first)
      && (e.Serve? && e.id == id ==> e.now <= LastWrite(prefix, id, first))
  }

  /** One event on the Redis row of a node last written at `last`: a tick evaporates it, a deposit decays
      it by the time since and blends the observation in. */
  function RedisEffect(pow: Power, row: Row, e: Deployed, id: NodeId, last: real, cfg: Config): Row
    requires cfg.interval != 0.0
  {
    match e
    case Engine(_) => EvaporateRow(row, cfg.rate, cfg.flags)
    case Serve(target, x, now) =>
      if target == id
      then DepositRow(ScaleRow(row, pow(1.0 - cfg.rate, Elapsed(last, now) / cfg.interval), cfg.flags), x, cfg.scale)
      else row
  }

  /** The Redis row of a node from the event times alone. */
  function RedisRow(pow: Power, row: Row, es: seq<Deployed>, id: NodeId, first: real, cfg: Config): Row
    requires cfg.interval != 0.0
  {
    if es == [] then row
    else
      var prefix := es[..|es| - 1];
      RedisEffect(pow, RedisRow(pow, row, prefix, id, first, cfg), es[|es| - 1], id, LastWrite(prefix, id, first), cfg)
  }

  ghost predicate SaneSamples(es: seq<Deployed>) {
    forall i :: 0 <= i < |es| && es[i].Serve? ==> es[i].x.latency >= 0.0 && es[i].x.activeLoad >= 0
  }

  /** Redis row `r` against memory row `m`: V, L and C at most, S equal; `equal` says that the rows
      agree; with `positive` the latencies are positive, and differ strictly unless `equal`. */
  ghost predicate Below(r: Row, m: Row, equal: bool, positive: bool) {
    && 0.0 <= r.v <= m.v && 0.0 <= r.l <= m.l && 0.0 <= r.c <= m.c && r.s == m.s
    && (equal ==> r == m)
    && (positive ==> r.l > 0.0 && (!equal ==> r.l < m.l))
  }

  lemma ScaledOrder(a: real, b: real, k: real)
    requires 0.0 <= a <= b && k > 0.0
    ensures 0.0 <= a * k <= b * k
    ensures a > 0.0 ==> a * k > 0.0
    ensures a < b ==> a * k < b * k
  {
    ScaleMonotone(a, b, k);
    ScaleMonotone(0.0, a, k);
    if a > 0.0 { ScaleStrict(0.0, a, k); }
    if a < b { ScaleStrict(a, b, k); }
  }

  /** One column of both rows, scaled if it decays. */
  lemma ColumnBelow(a: real, b: real, k: real, decays: bool, a': real, b': real)
    requires 0.0 <= a <= b && k > 0.0
    requires a' == (if decays then a * k else a) && b' == if decays then b * k else b
    ensures 0.0 <= a' <= b'
    ensures a > 0.0 ==> a' > 0.0
    ensures a < b ==> a' < b'
  {
    ScaledOrder(a, b, k);
  }

  lemma ScaleBelow(r: Row, m: Row, equal: bool, positive: bool, k: real, flags: Flags)
    requires Below(r, m, equal, positive) && k > 0.0
    ensures Below(ScaleRow(r, k, flags), ScaleRow(m, k, flags), equal, positive)
  {
    hide ScaleRow;
    var r', m' := ScaleRow(r, k, flags), ScaleRow(m, k, flags);
    ScaledColumns(r, k, flags);
    ScaledColumns(m, k, flags);
    ColumnBelow(r.v, m.v, k, flags.success, r'.v, m'.v);
    ColumnBelow(r.l, m.l, k, true, r'.l, m'.l);
    ColumnBelow(r.c, m.c, k, flags.capability, r'.c, m'.c);
  }

  /** A decayed column against one that is not smaller to begin with. */
  lemma DecayedBelow(a: real, b: real, k: real, decays: bool, a': real)
    requires 0.0 <= a <= b && 0.0 < k <= 1.0 && a' == if decays then a * k else a
    ensures 0.0 <= a' <= b
    ensures a > 0.0 ==> a' > 0.0 && ((decays && k < 1.0) || a < b ==> a' < b)
  {
    Shrinks(a, k);
    if a > 0.0 { ShrinksStrictly(a, k); }
  }

  lemma LazyBelow(r: Row, m: Row, equal: bool, positive: bool, factor: real, flags: Flags)
    requires Below(r, m, equal, positive) && 0.0 < factor <= 1.0
    ensures var d := ScaleRow(r, factor, flags);
            && 0.0 <= d.v <= m.v && 0.0 <= d.l <= m.l && 0.0 <= d.c <= m.c
            && (factor == 1.0 ==> d == r)
            && (positive ==> d.l > 0.0 && (factor < 1.0 || !equal ==> d.l < m.l))
  {
    hide ScaleRow;
    var d := ScaleRow(r, factor, flags);
    ScaledColumns(r, factor, flags);
    DecayedBelow(r.v, m.v, factor, flags.success, d.v);
    DecayedBelow(r.l, m.l, factor, true, d.l);
    DecayedBelow(r.c, m.c, factor, flags.capability, d.c);
    if factor == 1.0 { ScaleByOne(r, flags); }
  }

  /** The same observation on top of both. */
  lemma BlendBelow(d: Row, m: Row, equal: bool, positive: bool, x: Sample, scale: real)
    requires 0.0 <= d.v <= m.v && 0.0 <= d.l <= m.l && 0.0 <= d.c <= m.c && x.latency >= 0.0
    requires (equal ==> d == m) && (positive ==> d.l > 0.0 && (!equal ==> d.l < m.l))
    ensures Below(DepositRow(d, x, scale), DepositRow(m, x, scale), equal, positive)
  {
  }

  lemma ServeBelow(pow: Power, h: NodeHash, m: Row, equal: bool, positive: bool, x: Sample, now: real, cfg: Config)
    requires PowLaws(pow) && ProperConfig(cfg) && Below(RowOf(h), m, equal, positive)
    requires x.latency >= 0.0
    ensures Below(RowOf(DepositScript(pow, h, x, now, cfg)), DepositRow(m, x, cfg.scale),
                  equal && (cfg.rate == 0.0 || now <= Or(h.ts, 0.0)), positive)
  {
    hide ScaleRow, DepositRow, Steps;
    var steps := Steps(h, now, cfg.interval);
    var factor := pow(1.0 - cfg.rate, steps);
    var onTime := cfg.rate == 0.0 || now <= Or(h.ts, 0.0);
    FactorIsOneIff(pow, h, now, cfg);
    LazyBelow(RowOf(h), m, equal, positive, factor, cfg.flags);
    var d := ScaleRow(RowOf(h), factor, cfg.flags);
    BlendBelow(d, m, equal && onTime, positive, x, cfg.scale);
    ScriptReads(pow, h, x, now, cfg);
  }

  lemma ScriptReads(pow: Power, h: NodeHash, x: Sample, now: real, cfg: Config)
    requires cfg.interval != 0.0
    ensures RowOf(DepositScript(pow, h, x, now, cfg)) ==
            DepositRow(ScaleRow(RowOf(h), pow(1.0 - cfg.rate, Steps(h, now, cfg.interval)), cfg.flags), x, cfg.scale)
  {
    hide ScaleRow, DepositRow;
  }

  lemma FactorIsOneIff(pow: Power, h: NodeHash, now: real, cfg: Config)
    requires PowLaws(pow) && ProperConfig(cfg)
    ensures var factor := pow(1.0 - cfg.rate, Steps(h, now, cfg.interval));
            && 0.0 < factor <= 1.0
            && (factor == 1.0 <==> cfg.rate == 0.0 || now <= Or(h.ts, 0.0))
  {
    var b, elapsed := 1.0 - cfg.rate, now - Or(h.ts, 0.0);
    var steps := Steps(h, now, cfg.interval);
    CompareQuotients(elapsed, cfg.interval, 0.0, 1.0);
    CompareQuotients(0.0, 1.0, elapsed, cfg.interval);
    assert steps > 0.0 <==> elapsed > 0.0;
    assert At(b, steps, 0.0);
  }

  // ------------------------------------------------------------------ whole runs, as deployed

  ghost predicate TwinBelow(t: Twin, id: NodeId, equal: bool, positive: bool)
    requires Shaped(t.memory)
  {
    id in t.memory.ids && Below(RowOf(Fetch(t.redis, id)), RowFor(t.memory, id), equal, positive)
  }

  lemma EngineOnRedis(server: Server, ids: seq<NodeId>, now: real, cfg: Config, i: nat)
    requires Distinct(ids) && i < |ids|
    ensures RowOf(Fetch(EvaporateServer(server, ids, now, cfg), ids[i]))
            == EvaporateRow(RowOf(Fetch(server, ids[i])), cfg.rate, cfg.flags)
  {
    WriteAllEffect(server, ids, ReadAll(server, ids), cfg.rate, cfg.flags, now);
  }

  lemma EngineOnMemory(f: Field, cfg: Config, id: NodeId)
    requires Shaped(f) && id in f.ids && ValidRate(cfg.rate)
    ensures RowFor(Apply(f, Evaporate(cfg.rate), cfg.scale, cfg.flags), id)
            == EvaporateRow(RowFor(f, id), cfg.rate, cfg.flags)
  {
  }

  /** Both engines turn the rows of `id` into their evaporated rows. */
  lemma EngineRows(pow: Power, t: Twin, now: real, cfg: Config, id: NodeId)
    requires ProperConfig(cfg) && Shaped(t.memory) && Distinct(t.memory.ids) && id in t.memory.ids
    ensures var t' := Perform(pow, t, Engine(now), cfg);
            && RowOf(Fetch(t'.redis, id)) == EvaporateRow(RowOf(Fetch(t.redis, id)), cfg.rate, cfg.flags)
            && RowFor(t'.memory, id) == EvaporateRow(RowFor(t.memory, id), cfg.rate, cfg.flags)
  {
    EngineOnRedis(t.redis, t.memory.ids, now, cfg, Enumerate(t.memory.ids)[id]);
    EngineOnMemory(t.memory, cfg, id);
  }

  lemma EvaporatedBelow(r: Row, m: Row, r': Row, m': Row, equal: bool, positive: bool, rate: real, flags: Flags)
    requires Below(r, m, equal, positive) && ValidRate(rate)
    requires r' == EvaporateRow(r, rate, flags) && m' == EvaporateRow(m, rate, flags)
    ensures Below(r', m', equal, positive)
  {
    hide ScaleRow, Below;
    var k := 1.0 - rate;
    assert r' == ScaleRow(r, k, flags) && m' == ScaleRow(m, k, flags);
    ScaleBelow(r, m, equal, positive, k, flags);
  }

  lemma EngineBelow(pow: Power, t: Twin, now: real, cfg: Config, id: NodeId, equal: bool, positive: bool)
    requires ProperConfig(cfg) && Shaped(t.memory) && Distinct(t.memory.ids) && TwinBelow(t, id, equal, positive)
    ensures TwinBelow(Perform(pow, t, Engine(now), cfg), id, equal, positive)
  {
    hide EvaporateRow, Below, RowOf, RowFor;
    var t' := Perform(pow, t, Engine(now), cfg);
    EngineRows(pow, t, now, cfg, id);
    EvaporatedBelow(RowOf(Fetch(t.redis, id)), RowFor(t.memory, id), RowOf(Fetch(t'.redis, id)), RowFor(t'.memory, id),
                    equal, positive, cfg.rate, cfg.flags);
  }

  /** A deposit on one node, seen from the same and from any other node. */
  lemma DepositRows(f: Field, target: NodeId, x: Sample, scale: real, id: NodeId)
    requires Shaped(f) && target in f.ids && id in f.ids
    ensures var f' := DepositAt(f, target, x, scale);
            && Shaped(f') && f'.ids == f.ids
            && RowFor(f', id) == if id == target then DepositRow(RowFor(f, id), x, scale) else RowFor(f, id)
  {
    hide DepositRow;
    if id != target {
      assert f.ids[Enumerate(f.ids)[id]] != f.ids[Enumerate(f.ids)[target]];
    }
  }

  lemma PerformBelow(pow: Power, t: Twin, e: Deployed, cfg: Config, id: NodeId, equal: bool, positive: bool)
    requires PowLaws(pow) && ProperConfig(cfg) && Shaped(t.memory) && Distinct(t.memory.ids)
    requires TwinBelow(t, id, equal, positive) && (e.Serve? ==> e.x.latency >= 0.0)
    ensures var onTime := cfg.rate == 0.0 || (e.Serve? && e.id == id ==> e.now <= Or(Fetch(t.redis, id).ts, 0.0));
            TwinBelow(Perform(pow, t, e, cfg), id, equal && onTime, positive)
  {
    hide DepositRow, DepositScript, RowOf, RowFor, DepositAt;
    match e
    case Engine(now) =>
      EngineBelow(pow, t, now, cfg, id, equal, positive);
    case Serve(target, x, now) =>
      if target in t.memory.ids {
        DepositRows(t.memory, target, x, cfg.scale, id);
        if target == id {
          ServeBelow(pow, Fetch(t.redis, id), RowFor(t.memory, id), equal, positive, x, now, cfg);
        }
      }
  }

  /** The stored timestamp is the time of the latest write. */
  lemma {:induction false} StampIsLastWrite(pow: Power, t: Twin, es: seq<Deployed>, cfg: Config, id: NodeId)
    requires PowLaws(pow) && ProperConfig(cfg) && Shaped(t.memory) && Distinct(t.memory.ids) && id in t.memory.ids
    ensures Or(Fetch(PerformAll(pow, t, es, cfg).redis, id).ts, 0.0)
            == LastWrite(es, id, Or(Fetch(t.redis, id).ts, 0.0))
  {
    hide DepositScript, WriteAll, PowLaws, Distinct;
    if es != [] {
      var prefix, e := es[..|es| - 1], es[|es| - 1];
      StampIsLastWrite(pow, t, prefix, cfg, id);
      var before := PerformAll(pow, t, prefix, cfg);
      match e
      case Engine(now) =>
        WriteStamps(before.redis, before.memory.ids, ReadAll(before.redis, before.memory.ids), cfg.rate, cfg.flags,
                    now);
      case Serve(target, x, now) =>
        ScriptDecaysByElapsedTime(pow, Fetch(before.redis, id), x, now, cfg);
    }
  }

  lemma RedisStep(pow: Power, t: Twin, e: Deployed, cfg: Config, id: NodeId)
    requires PowLaws(pow) && ProperConfig(cfg) && Shaped(t.memory) && Distinct(t.memory.ids) && id in t.memory.ids
    ensures var h := Fetch(t.redis, id);
            RowOf(Fetch(Perform(pow, t, e, cfg).redis, id)) == RedisEffect(pow, RowOf(h), e, id, Or(h.ts, 0.0), cfg)
  {
    hide DepositRow, ScaleRow, EvaporateRow, DepositScript, RowOf, PowLaws, WriteAll, Distinct;
    match e
    case Engine(now) => EngineRows(pow, t, now, cfg, id);
    case Serve(target, x, now) =>
      if target == id { ScriptRow(pow, Fetch(t.redis, id), x, now, cfg); }
  }

  /** Main result.  Over any run of ticks and deposits at any times, the Redis row is the one computed from
      the event times alone: every deposit decays by the time since the latest write of either kind. */
  lemma {:induction false} RedisRowFollowsEventTimes(pow: Power, t: Twin, es: seq<Deployed>, cfg: Config, id: NodeId)
    requires PowLaws(pow) && ProperConfig(cfg) && Shaped(t.memory) && Distinct(t.memory.ids) && id in t.memory.ids
    ensures var h := Fetch(t.redis, id);
            RowOf(Fetch(PerformAll(pow, t, es, cfg).redis, id)) == RedisRow(pow, RowOf(h), es, id, Or(h.ts, 0.0), cfg)
  {
    hide RowOf, PowLaws, Distinct, Perform, RedisEffect, LastWrite, Fetch;
    if es != [] {
      var prefix, e := es[..|es| - 1], es[|es| - 1];
      RedisRowFollowsEventTimes(pow, t, prefix, cfg, id);
      StampIsLastWrite(pow, t, prefix, cfg, id);
      RedisStep(pow, PerformAll(pow, t, prefix, cfg), e, cfg, id);
    }
  }

  /** On whole intervals the factor of a deposit is (1 - d)^n, n counted from the latest tick or deposit. */
  lemma WholeIntervalFactor(pow: Power, es: seq<Deployed>, id: NodeId, first: real, n: nat, now: real, cfg: Config)
    requires PowLaws(pow) && ProperConfig(cfg) && now == LastWrite(es, id, first) + n as real * cfg.interval
    ensures pow(1.0 - cfg.rate, Elapsed(LastWrite(es, id, first), now) / cfg.interval) == Pow(1.0 - cfg.rate, n)
  {
    hide PowLaws;
    var elapsed := n as real * cfg.interval;
    ScaleMonotone(0.0, n as real, cfg.interval);
    QuotientUnique(elapsed, cfg.interval, n as real);
    WholePower(pow, 1.0 - cfg.rate, n);
  }

  lemma {:induction false} RunBelow(
    pow: Power, t: Twin, es: seq<Deployed>, cfg: Config, id: NodeId, positive: bool)
    requires PowLaws(pow) && ProperConfig(cfg) && Shaped(t.memory) && Distinct(t.memory.ids)
    requires TwinBelow(t, id, true, positive) && SaneSamples(es)
    ensures TwinBelow(PerformAll(pow, t, es, cfg), id,
                      cfg.rate == 0.0 || NeverLate(es, id, Or(Fetch(t.redis, id).ts, 0.0)), positive)
  {
    hide Below, Perform, PowLaws;
    if es != [] {
      var prefix, e, first := es[..|es| - 1], es[|es| - 1], Or(Fetch(t.redis, id).ts, 0.0);
      RunBelow(pow, t, prefix, cfg, id, positive);
      StampIsLastWrite(pow, t, prefix, cfg, id);
      PerformBelow(pow, PerformAll(pow, t, prefix, cfg), e, cfg, id, cfg.rate == 0.0 || NeverLate(prefix, id, first),
                   positive);
    }
  }

  /** Main result.  With the engine ticking both backends and the same deposits, from equal rows, the
      Redis V, L and C never exceed the in-memory ones and S is equal.  If the latency is positive to
      begin with, the rows agree if and only if the rate is zero or no deposit on the node was late,
      and so do the latencies alone: evaporation and lazy decay add up instead of excluding each
      other. */
  lemma {:induction false} DeployedDecaysAtLeastAsMuch(pow: Power, t: Twin, es: seq<Deployed>, cfg: Config, id: NodeId)
    requires PowLaws(pow) && ProperConfig(cfg) && Shaped(t.memory) && Distinct(t.memory.ids) && SaneSamples(es)
    requires id in t.memory.ids && RowOf(Fetch(t.redis, id)) == RowFor(t.memory, id)
    requires RowFor(t.memory, id).v >= 0.0 && RowFor(t.memory, id).l >= 0.0 && RowFor(t.memory, id).c >= 0.0
    ensures var after := PerformAll(pow, t, es, cfg);
            var r, m := RowOf(Fetch(after.redis, id)), RowFor(after.memory, id);
            var inTime := cfg.rate == 0.0 || NeverLate(es, id, Or(Fetch(t.redis, id).ts, 0.0));
            && r.v <= m.v && r.l <= m.l && r.c <= m.c && r.s == m.s
            && (inTime ==> r == m)
            && (RowFor(t.memory, id).l > 0.0 ==> (r == m <==> inTime) && (r.l == m.l <==> inTime))
  {
    hide NeverLate, PerformAll;
    RunBelow(pow, t, es, cfg, id, RowFor(t.memory, id).l > 0.0);
  }

  /** So it happens: one deposit, one interval after the hash was written, separates the backends. */
  lemma OneLateDeposit(pow: Power, flags: Flags, x: Sample)
    requires PowLaws(pow)
    ensures var cfg := Config(0.5, 1.0, 1.0, flags);
            var twin := Twin(Field(["n"], [BASELINE]), map["n" := Baseline(0.0)]);
            var after := Perform(pow, twin, Serve("n", x, 1.0), cfg);
            && "n" in twin.memory.ids && "n" in after.memory.ids
            && RowOf(Fetch(twin.redis, "n")) == RowFor(twin.memory, "n")
            && RowFor(after.memory, "n").l - RowOf(Fetch(after.redis, "n")).l == 0.025
  {
    hide PowLaws, DepositScript, DepositRow, RowFor;
    var cfg := Config(0.5, 1.0, 1.0, flags);
    var f := Field(["n"], [BASELINE]);
    assert f.ids[0] == "n" && "n" in f.ids;
    HalvedLatency(pow, x, cfg);
    DepositRows(f, "n", x, 1.0, "n");
    OnlyRow(f, "n");
    ObservedLatency(BASELINE, x, 1.0);
  }

  lemma OnlyRow(f: Field, id: NodeId)
    requires f.ids == [id] && |f.rows| == 1
    ensures RowFor(f, id) == f.rows[0]
  {
  }

  lemma ObservedLatency(row: Row, x: Sample, scale: real)
    ensures DepositRow(row, x, scale).l == 0.5 * x.latency + 0.5 * row.l
  {
  }

  lemma PowOne(pow: Power, b: real)
    requires PowLaws(pow) && 0.0 < b <= 1.0
    ensures pow(b, 1.0) == b
  {
    assert At(b, 1.0, 0.0);
  }

  lemma OneInterval(pow: Power, h: NodeHash, rate: real)
    requires PowLaws(pow) && 0.0 <= rate < 1.0 && h.ts == Some(0.0)
    ensures pow(1.0 - rate, Steps(h, 1.0, 1.0)) == 1.0 - rate
  {
    assert Steps(h, 1.0, 1.0) == 1.0;
    PowOne(pow, 1.0 - rate);
  }

  lemma HalvedLatency(pow: Power, x: Sample, cfg: Config)
    requires PowLaws(pow) && cfg == Config(0.5, 1.0, 1.0, cfg.flags)
    ensures RowOf(DepositScript(pow, Baseline(0.0), x, 1.0, cfg)).l == 0.5 * x.latency + 0.025
  {
    hide PowLaws, DepositScript, DepositRow, ScaleRow, Steps;
    var h := Baseline(0.0);
    OneInterval(pow, h, 0.5);
    ScriptReads(pow, h, x, 1.0, cfg);
    var scaled := ScaleRow(RowOf(h), 0.5, cfg.flags);
    Halved(RowOf(h), cfg.flags);
    ObservedLatency(scaled, x, cfg.scale);
  }

  lemma Halved(row: Row, flags: Flags)
    ensures ScaleRow(row, 0.5, flags).l == 0.5 * row.l
  {
  }
}
