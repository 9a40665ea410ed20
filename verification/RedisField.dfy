/** The Redis backend as a state machine: hashes on one server, any number of router replicas, and
    the atomic steps their coroutines take between two awaits.  Real powers are a parameter,
    constrained by the laws of `PowLaws`. */
module RedisField {
  import opened RealMath
  import opened Traces
  import opened FieldValue

  /** The hash of a node.  Every field may be absent: HSET creates a key with the fields it is
      given only. */
  datatype NodeHash = NodeHash(v: Option<real>, l: Option<real>, s: Option<real>, c: Option<real>, ts: Option<real>)

  const NO_KEY := NodeHash(None, None, None, None, None)

  type Server = map<NodeId, NodeHash>

  function Fetch(server: Server, id: NodeId): NodeHash {
    if id in server then server[id] else NO_KEY
  }

  /** The four traces as every reader takes them, with the baseline for what is absent. */
  function RowOf(h: NodeHash): Row {
    Row(Or(h.v, 1.0), Or(h.l, 0.1), Or(h.s, 0.0), Or(h.c, 1.0))
  }

  function Baseline(now: real): NodeHash {
    NodeHash(Some(1.0), Some(0.1), Some(0.0), Some(1.0), Some(now))
  }

  datatype Config = Config(rate: real, interval: real, scale: real, flags: Flags)

  ghost predicate ProperConfig(cfg: Config) {
    0.0 <= cfg.rate < 1.0 && cfg.interval > 0.0 && cfg.scale >= 0.0
  }

  // ------------------------------------------------------------------ real powers

  type Power = (real, real) -> real

  /** Names an instance of a law. */
  predicate At(b: real, x: real, y: real) { true }

  /** What is used of math.pow(b, x) for 0 < b <= 1 and x >= 0. */
  ghost predicate PowLaws(pow: Power) {
    forall b, x, y {:trigger At(b, x, y)} :: 0.0 < b <= 1.0 && x >= 0.0 && y >= 0.0 ==>
      && pow(b, 0.0) == 1.0 && pow(b, 1.0) == b
      && pow(b, x + y) == pow(b, x) * pow(b, y)
      && 0.0 < pow(b, x) <= 1.0
      && (b < 1.0 && x > 0.0 ==> pow(b, x) < 1.0)
      && pow(1.0, x) == 1.0
  }

  /** On whole exponents the real power is repeated multiplication. */
  lemma {:induction false} WholePower(pow: Power, b: real, n: nat)
    requires PowLaws(pow) && 0.0 < b <= 1.0
    ensures pow(b, n as real) == Pow(b, n)
  {
    if n == 0 {
      assert At(b, 0.0, 0.0);
    } else {
      WholePower(pow, b, n - 1);
      assert At(b, 1.0, (n - 1) as real);
      assert 1.0 + (n - 1) as real == n as real;
    }
  }

  // ------------------------------------------------------------------ scripts and pipelines

  /** The number of intervals the deposit script decays by. */
  function Steps(h: NodeHash, now: real, interval: real): real
    requires interval != 0.0
  {
    var steps := (now - Or(h.ts, 0.0)) / interval;
    if steps < 0.0 then 0.0 else steps
  }

  /** The deposit script: lazy decay for the time since `ts`, then the moving averages. */
  function DepositScript(pow: Power, h: NodeHash, x: Sample, now: real, cfg: Config): NodeHash
    requires cfg.interval != 0.0
  {
    var factor := pow(1.0 - cfg.rate, Steps(h, now, cfg.interval));
    var row := DepositRow(ScaleRow(RowOf(h), factor, cfg.flags), x, cfg.scale);
    NodeHash(Some(row.v), Some(row.l), Some(row.s), Some(row.c), Some(now))
  }

  /** The first pipeline of an evaporation. */
  function ReadAll(server: Server, ids: seq<NodeId>): seq<NodeHash> {
    seq(|ids|, i requires 0 <= i < |ids| => Fetch(server, ids[i]))
  }

  /** What the second pipeline sets on a hash, given what the first one read. */
  function Evaporated(current: NodeHash, read: NodeHash, rate: real, flags: Flags, now: real): NodeHash {
    var row := EvaporateRow(RowOf(read), rate, flags);
    NodeHash(if flags.success then Some(row.v) else current.v, Some(row.l), Some(row.s),
             if flags.capability then Some(row.c) else current.c, Some(now))
  }

  /** The second pipeline: node ids are paired with the readings by position. */
  function WriteAll(
    server: Server, ids: seq<NodeId>, readings: seq<NodeHash>, rate: real, flags: Flags, now: real): Server
    decreases ids
  {
    if ids == [] || readings == [] then server
    else
      WriteAll(server[ids[0] := Evaporated(Fetch(server, ids[0]), readings[0], rate, flags, now)],
               ids[1..], readings[1..], rate, flags, now)
  }

  function InitAll(server: Server, ids: seq<NodeId>, now: real): Server {
    map id | id in server.Keys + (set i | 0 <= i < |ids| :: ids[i]) ::
      if id in ids then Baseline(now) else server[id]
  }

  function Restored(h: NodeHash, t: Saved, now: real): NodeHash {
    if t == Saved(None, None, None, None) then h
    else NodeHash(if t.v.Some? then t.v else h.v, if t.l.Some? then t.l else h.l,
                  if t.s.Some? then t.s else h.s, if t.c.Some? then t.c else h.c, Some(now))
  }

  function RestoreAll(server: Server, ids: seq<NodeId>, metrics: map<NodeId, Saved>, now: real): Server {
    map id | id in server.Keys + metrics.Keys
             && (id in server || (id in ids && metrics[id] != Saved(None, None, None, None))) ::
      if id in ids && id in metrics then Restored(Fetch(server, id), metrics[id], now) else server[id]
  }

  // ------------------------------------------------------------------ the interleaved machine

  /** An evaporation between its two pipelines. */
  datatype Reading = Reading(replica: int, hashes: seq<NodeHash>)

  datatype State = State(server: Server, lists: map<int, seq<NodeId>>, inFlight: map<int, Reading>)

  /** Atomic steps.  `op` names one call of apply_evaporation; timestamps are arbitrary. */
  datatype Event =
    | Initialise(replica: int, now: real)
    | Deposit(replica: int, id: NodeId, x: Sample, now: real)
    | EvaporationRead(op: int, replica: int, rate: real)
    | EvaporationWrite(op: int, rate: real, now: real)
    | AppendLocal(replica: int, id: NodeId)
    | CreateHash(id: NodeId, now: real)
    | DeleteHash(id: NodeId)
    | DropLocal(replica: int, id: NodeId)
    | Hydrate(replica: int, metrics: map<NodeId, Saved>, now: real)

  function ListOf(st: State, replica: int): seq<NodeId> {
    if replica in st.lists then st.lists[replica] else []
  }

  function Step(pow: Power, st: State, e: Event, cfg: Config): State
    requires cfg.interval != 0.0
  {
    match e
    case Initialise(r, now) => st.(server := InitAll(st.server, ListOf(st, r), now))
    case Deposit(r, id, x, now) =>
      if id in ListOf(st, r)
      then st.(server := st.server[id := DepositScript(pow, Fetch(st.server, id), x, now, cfg)])
      else st
    case EvaporationRead(op, r, rate) =>
      if ValidRate(rate)
      then st.(inFlight := st.inFlight[op := Reading(r, ReadAll(st.server, ListOf(st, r)))])
      else st
    case EvaporationWrite(op, rate, now) =>
      if op in st.inFlight && ValidRate(rate) then
        var reading := st.inFlight[op];
        st.(server := WriteAll(st.server, ListOf(st, reading.replica), reading.hashes, rate, cfg.flags, now),
            inFlight := st.inFlight - {op})
      else st
    case AppendLocal(r, id) =>
      if id in ListOf(st, r) then st else st.(lists := st.lists[r := ListOf(st, r) + [id]])
    case CreateHash(id, now) => st.(server := st.server[id := Baseline(now)])
    case DeleteHash(id) => st.(server := st.server - {id})
    case DropLocal(r, id) =>
      var ids := ListOf(st, r);
      if id in ids then st.(lists := st.lists[r := Without(ids, Enumerate(ids)[id])]) else st
    case Hydrate(r, metrics, now) => st.(server := RestoreAll(st.server, ListOf(st, r), metrics, now))
  }

  function Run(pow: Power, st: State, events: seq<Event>, cfg: Config): State
    requires cfg.interval != 0.0
  {
    if events == [] then st
    else Step(pow, Run(pow, st, events[..|events| - 1], cfg), events[|events| - 1], cfg)
  }

  ghost predicate ListsDistinct(st: State) {
    forall r :: r in st.lists ==> Distinct(st.lists[r])
  }

  /** In every interleaving no replica lists a node twice. */
  lemma {:induction false} ListsStayDistinct(pow: Power, st: State, events: seq<Event>, cfg: Config)
    requires cfg.interval != 0.0 && ListsDistinct(st)
    ensures ListsDistinct(Run(pow, st, events, cfg))
  {
    hide Step;
    if events != [] {
      ListsStayDistinct(pow, st, events[..|events| - 1], cfg);
      StepKeepsLists(pow, Run(pow, st, events[..|events| - 1], cfg), events[|events| - 1], cfg);
    }
  }

  lemma StepKeepsLists(pow: Power, st: State, e: Event, cfg: Config)
    requires cfg.interval != 0.0 && ListsDistinct(st)
    ensures ListsDistinct(Step(pow, st, e, cfg))
  {
    hide Distinct;
    var lists := Step(pow, st, e, cfg).lists;
    match e
    case AppendLocal(r, id) =>
      if id !in ListOf(st, r) {
        AppendedDistinct(ListOf(st, r), id) by { EmptyDistinct(); }
        assert lists == st.lists[r := ListOf(st, r) + [id]];
      }
    case DropLocal(r, id) =>
      var ids := ListOf(st, r);
      if id in ids {
        WithoutMembers(ids, Enumerate(ids)[id]);
        assert lists == st.lists[r := Without(ids, Enumerate(ids)[id])];
      }
    case _ => assert lists == st.lists;
  }

  lemma EmptyDistinct()
    ensures Distinct([])
  {
  }

  lemma AppendedDistinct(ids: seq<NodeId>, id: NodeId)
    requires Distinct(ids) && id !in ids
    ensures Distinct(ids + [id])
  {
  }

  // ------------------------------------------------------------------ what the script computes

  /** Time that has passed since `since`; a clock that ran back counts as no time. */
  function Elapsed(since: real, now: real): real {
    if now > since then now - since else 0.0
  }

  lemma PowZero(pow: Power, b: real)
    requires PowLaws(pow) && 0.0 < b <= 1.0
    ensures pow(b, 0.0) == 1.0
  {
    assert At(b, 0.0, 0.0);
  }

  lemma StepsAreElapsed(h: NodeHash, now: real, interval: real)
    requires interval > 0.0
    ensures Steps(h, now, interval) == Elapsed(Or(h.ts, 0.0), now) / interval
  {
    var elapsed := now - Or(h.ts, 0.0);
    var q := elapsed / interval;
    assert q * interval == elapsed;
    if q < 0.0 { ScaleStrict(q, 0.0, interval); } else { ScaleMonotone(0.0, q, interval); }
  }

  /** The deposit script, for any times: with the hash last written at `since`, the decaying columns
      shrink by (1 - d)^(elapsed / interval), whole or not, before the observation is blended in; a
      timestamp that is not later than `since` decays nothing; and the hash is stamped with `now`. */
  lemma ScriptDecaysByElapsedTime(pow: Power, h: NodeHash, x: Sample, now: real, cfg: Config)
    requires PowLaws(pow) && ProperConfig(cfg)
    ensures var since, after := Or(h.ts, 0.0), DepositScript(pow, h, x, now, cfg);
            && after.ts == Some(now)
            && (now >= since ==>
                  var factor := pow(1.0 - cfg.rate, (now - since) / cfg.interval);
                  RowOf(after) == DepositRow(ScaleRow(RowOf(h), factor, cfg.flags), x, cfg.scale))
            && (now <= since ==> RowOf(after) == DepositRow(RowOf(h), x, cfg.scale))
  {
    hide DepositRow, ScaleRow, PowLaws, Steps;
    StepsAreElapsed(h, now, cfg.interval);
    PowZero(pow, 1.0 - cfg.rate);
    ScaleByOne(RowOf(h), cfg.flags);
  }

  lemma ScriptRow(pow: Power, h: NodeHash, x: Sample, now: real, cfg: Config)
    requires PowLaws(pow) && ProperConfig(cfg)
    ensures DepositScript(pow, h, x, now, cfg).ts == Some(now)
    ensures RowOf(DepositScript(pow, h, x, now, cfg)) ==
            DepositRow(ScaleRow(RowOf(h), pow(1.0 - cfg.rate, Elapsed(Or(h.ts, 0.0), now) / cfg.interval), cfg.flags),
                       x, cfg.scale)
  {
    hide PowLaws, ScaleRow, DepositRow, Steps;
    StepsAreElapsed(h, now, cfg.interval);
  }

  lemma QuotientsAdd(a: real, c: real, k: real)
    requires k > 0.0
    ensures (a + c) / k == a / k + c / k
  {
    var p, q := a / k, c / k;
    assert p * k == a && q * k == c;
    QuotientUnique(a + c, k, p + q);
  }

  lemma QuotientNonNegative(a: real, k: real)
    requires a >= 0.0 && k > 0.0
    ensures a / k >= 0.0
  {
    var q := a / k;
    assert q * k == a;
    if q < 0.0 { ScaleStrict(q, 0.0, k); }
  }

  /** Decay composes: over a and then over c it is decay over a + c, for any lengths of time. */
  lemma DecayComposes(pow: Power, row: Row, a: real, c: real, cfg: Config)
    requires PowLaws(pow) && ProperConfig(cfg) && a >= 0.0 && c >= 0.0
    ensures var b := 1.0 - cfg.rate;
            ScaleRow(ScaleRow(row, pow(b, a / cfg.interval), cfg.flags), pow(b, c / cfg.interval), cfg.flags)
            == ScaleRow(row, pow(b, (a + c) / cfg.interval), cfg.flags)
  {
    hide ScaleRow, PowLaws;
    var b := 1.0 - cfg.rate;
    var f, g, both := pow(b, a / cfg.interval), pow(b, c / cfg.interval), pow(b, (a + c) / cfg.interval);
    PowerComposes(pow, b, a, c, cfg.interval);
    ScaleBoth(row, f, g, both, cfg.flags);
  }

  lemma ScaleBoth(row: Row, f: real, g: real, both: real, flags: Flags)
    requires both == g * f
    ensures ScaleRow(ScaleRow(row, f, flags), g, flags) == ScaleRow(row, both, flags)
  {
    hide ScaleRow;
    ScaleTwice(row, f, g, flags);
  }

  lemma PowerComposes(pow: Power, b: real, a: real, c: real, k: real)
    requires PowLaws(pow) && 0.0 < b <= 1.0 && a >= 0.0 && c >= 0.0 && k > 0.0
    ensures pow(b, (a + c) / k) == pow(b, c / k) * pow(b, a / k)
  {
    QuotientNonNegative(a, k);
    QuotientNonNegative(c, k);
    QuotientsAdd(c, a, k);
    assert a + c == c + a;
    PowerOfSum(pow, b, c / k, a / k);
  }

  lemma PowerOfSum(pow: Power, b: real, x: real, y: real)
    requires PowLaws(pow) && 0.0 < b <= 1.0 && x >= 0.0 && y >= 0.0
    ensures pow(b, x + y) == pow(b, x) * pow(b, y)
  {
    assert At(b, x, y);
  }

  // ------------------------------------------------------------------ range invariant

  ghost predicate RowInRange(row: Row, peak: real) {
    0.0 <= row.v <= 1.0 && 0.0 <= row.c <= 1.0 && 0.0 <= row.l <= peak && row.s >= 0.0
  }

  ghost predicate HashInRange(h: NodeHash, peak: real) {
    && (h.v.Some? ==> 0.0 <= h.v.value <= 1.0)
    && (h.c.Some? ==> 0.0 <= h.c.value <= 1.0)
    && (h.l.Some? ==> 0.0 <= h.l.value <= peak)
    && (h.s.Some? ==> h.s.value >= 0.0)
  }

  ghost predicate ServerInRange(server: Server, peak: real) {
    forall id :: id in server ==> HashInRange(server[id], peak)
  }

  ghost predicate HashesInRange(hashes: seq<NodeHash>, peak: real) {
    forall i :: 0 <= i < |hashes| ==> HashInRange(hashes[i], peak)
  }

  ghost predicate SavedInRange(metrics: map<NodeId, Saved>, peak: real) {
    forall id :: id in metrics ==>
      var t := metrics[id]; HashInRange(NodeHash(t.v, t.l, t.s, t.c, None), peak)
  }

  ghost predicate StateInRange(st: State, peak: real) {
    && ServerInRange(st.server, peak)
    && (forall op :: op in st.inFlight ==> HashesInRange(st.inFlight[op].hashes, peak))
  }

  /** Inputs are sane; timestamps, ids, interleaving and membership changes are not constrained. */
  ghost predicate EventInRange(e: Event, peak: real) {
    match e
    case Deposit(_, _, x, _) => 0.0 <= x.latency <= peak && x.activeLoad >= 0
    case Hydrate(_, metrics, _) => SavedInRange(metrics, peak)
    case _ => true
  }

  lemma RowOfInRange(h: NodeHash, peak: real)
    requires HashInRange(h, peak) && peak >= 0.1
    ensures RowInRange(RowOf(h), peak)
  {
  }

  lemma ScaleInRange(row: Row, factor: real, flags: Flags, peak: real)
    requires RowInRange(row, peak) && 0.0 <= factor <= 1.0
    ensures RowInRange(ScaleRow(row, factor, flags), peak)
  {
    CellsInRange(row.v, row.l, row.s, row.c, factor, peak);
  }

  lemma CellsInRange(v: real, l: real, s: real, c: real, factor: real, peak: real)
    requires 0.0 <= v <= 1.0 && 0.0 <= l <= peak && 0.0 <= s && 0.0 <= c <= 1.0 && 0.0 <= factor <= 1.0
    ensures 0.0 <= v * factor <= 1.0 && 0.0 <= l * factor <= peak && 0.0 <= s * factor && 0.0 <= c * factor <= 1.0
  {
    Shrinks(v, factor);
    Shrinks(l, factor);
    Shrinks(s, factor);
    Shrinks(c, factor);
  }

  lemma DepositInRange(row: Row, x: Sample, scale: real, peak: real)
    requires RowInRange(row, peak) && 0.0 <= x.latency <= peak && x.activeLoad >= 0 && scale >= 0.0
    ensures RowInRange(DepositRow(row, x, scale), peak)
  {
    ScaleMonotone(0.0, x.activeLoad as real, scale);
  }

  lemma ScriptInRange(pow: Power, h: NodeHash, x: Sample, now: real, cfg: Config, peak: real)
    requires PowLaws(pow) && ProperConfig(cfg) && peak >= 0.1 && HashInRange(h, peak)
    requires 0.0 <= x.latency <= peak && x.activeLoad >= 0
    ensures HashInRange(DepositScript(pow, h, x, now, cfg), peak)
  {
    var steps := Steps(h, now, cfg.interval);
    assert At(1.0 - cfg.rate, steps, 0.0);
    var factor := pow(1.0 - cfg.rate, steps);
    RowOfInRange(h, peak);
    ScaleInRange(RowOf(h), factor, cfg.flags, peak);
    DepositInRange(ScaleRow(RowOf(h), factor, cfg.flags), x, cfg.scale, peak);
  }

  lemma {:induction false} WriteInRange(
    server: Server, ids: seq<NodeId>, readings: seq<NodeHash>, rate: real, flags: Flags, now: real, peak: real)
    requires peak >= 0.1 && ValidRate(rate)
    requires ServerInRange(server, peak)
    requires HashesInRange(readings, peak)
    ensures ServerInRange(WriteAll(server, ids, readings, rate, flags, now), peak)
    decreases ids
  {
    if ids != [] && readings != [] {
      var written := Evaporated(Fetch(server, ids[0]), readings[0], rate, flags, now);
      RowOfInRange(readings[0], peak);
      ScaleInRange(RowOf(readings[0]), 1.0 - rate, flags, peak);
      assert HashInRange(written, peak);
      WriteInRange(server[ids[0] := written], ids[1..], readings[1..], rate, flags, now, peak);
      assert WriteAll(server, ids, readings, rate, flags, now)
          == WriteAll(server[ids[0] := written], ids[1..], readings[1..], rate, flags, now);
    }
  }

  lemma InitialiseInRange(server: Server, ids: seq<NodeId>, now: real, peak: real)
    requires ServerInRange(server, peak) && peak >= 0.1
    ensures ServerInRange(InitAll(server, ids, now), peak)
  {
  }

  lemma RestoreInRange(server: Server, ids: seq<NodeId>, metrics: map<NodeId, Saved>, now: real, peak: real)
    requires ServerInRange(server, peak) && SavedInRange(metrics, peak)
    ensures ServerInRange(RestoreAll(server, ids, metrics, now), peak)
  {
    forall id | id in RestoreAll(server, ids, metrics, now)
      ensures HashInRange(RestoreAll(server, ids, metrics, now)[id], peak)
    {
      assert HashInRange(Fetch(server, id), peak);
    }
  }

  lemma ReadInRange(server: Server, ids: seq<NodeId>, peak: real)
    requires ServerInRange(server, peak)
    ensures HashesInRange(ReadAll(server, ids), peak)
  {
  }

  lemma StepInRange(pow: Power, st: State, e: Event, cfg: Config, peak: real)
    requires PowLaws(pow) && ProperConfig(cfg) && peak >= 0.1
    requires StateInRange(st, peak) && EventInRange(e, peak)
    ensures StateInRange(Step(pow, st, e, cfg), peak)
  {
    hide PowLaws, DepositScript, HashInRange, WriteAll, InitAll, RestoreAll, ReadAll, SavedInRange, Enumerate;
    match e {
      case Initialise(r, now) => InitialiseInRange(st.server, ListOf(st, r), now, peak);
      case Deposit(r, id, x, now) =>
        assert HashInRange(Fetch(st.server, id), peak) by { FetchInRange(st.server, id, peak); }
        ScriptInRange(pow, Fetch(st.server, id), x, now, cfg, peak);
      case EvaporationRead(_, r, _) => ReadInRange(st.server, ListOf(st, r), peak);
      case EvaporationWrite(op, rate, now) =>
        if op in st.inFlight && ValidRate(rate) {
          var reading := st.inFlight[op];
          WriteInRange(st.server, ListOf(st, reading.replica), reading.hashes, rate, cfg.flags, now, peak);
        }
      case CreateHash(id, now) => BaselineInRange(now, peak);
      case Hydrate(r, metrics, now) => RestoreInRange(st.server, ListOf(st, r), metrics, now, peak);
      case AppendLocal(_, _) =>
      case DeleteHash(_) =>
      case DropLocal(_, _) =>
    }
  }

  lemma FetchInRange(server: Server, id: NodeId, peak: real)
    requires ServerInRange(server, peak)
    ensures HashInRange(Fetch(server, id), peak)
  {
  }

  lemma BaselineInRange(now: real, peak: real)
    requires peak >= 0.1
    ensures HashInRange(Baseline(now), peak)
  {
  }

  /** `peak` bounds 0.1 and every latency the run deposits or hydrates. */
  ghost predicate IsPeak(events: seq<Event>, peak: real) {
    && peak >= 0.1
    && forall i :: 0 <= i < |events| ==> EventInRange(events[i], peak)
  }

  /** In every interleaving of deposits with any timestamps, two-phase evaporations, hydrations,
      initialisations and membership changes, V and C stay in [0, 1], L and S stay non-negative, and
      L never exceeds `peak`, any bound on 0.1 and the latencies ever deposited or hydrated.  Every
      reader then sees rows in that range. */
  lemma {:induction false} RangeInvariant(pow: Power, st: State, events: seq<Event>, cfg: Config, peak: real)
    requires PowLaws(pow) && ProperConfig(cfg) && IsPeak(events, peak) && StateInRange(st, peak)
    ensures StateInRange(Run(pow, st, events, cfg), peak)
    ensures forall id :: RowInRange(RowOf(Fetch(Run(pow, st, events, cfg).server, id)), peak)
  {
    if events != [] {
      RangeInvariant(pow, st, events[..|events| - 1], cfg, peak);
      StepInRange(pow, Run(pow, st, events[..|events| - 1], cfg), events[|events| - 1], cfg, peak);
    }
  }
}
