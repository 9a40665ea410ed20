/** The two backends implement one interface: driven by one replica, operation by operation, the
    Redis field keeps the node list of the in-memory field and never exceeds its traces; and it holds
    the same rows as long as no deposit is late. */
module BackendAgreement {
  import opened Traces
  import opened FieldValue
  import opened RedisField
  import opened OverlappingEvaporation
  import opened DecaySimulation

  /** The replica's list is the field's, and every node's hash reads as its row. */
  ghost predicate Mirror(st: State, replica: int, f: Field) {
    && Shaped(f) && Distinct(f.ids) && ListOf(st, replica) == f.ids
    && forall i :: 0 <= i < |f.ids| ==> RowOf(Fetch(st.server, f.ids[i])) == f.rows[i]
  }

  /** One operation of the replica with nothing in between its atomic steps. */
  function Alone(pow: Power, st: State, replica: int, op: Op, now: real, cfg: Config): State
    requires cfg.interval != 0.0
  {
    match op
    case Add(id) =>
      if id in ListOf(st, replica) then st
      else Step(pow, Step(pow, st, AppendLocal(replica, id), cfg), CreateHash(id, now), cfg)
    case Remove(id) =>
      if id !in ListOf(st, replica) then st
      else Step(pow, Step(pow, st, DeleteHash(id), cfg), DropLocal(replica, id), cfg)
    case Deposit(id, x) => Step(pow, st, Event.Deposit(replica, id, x, now), cfg)
    case Evaporate(rate) =>
      Step(pow, Step(pow, st, EvaporationRead(0, replica, rate), cfg), EvaporationWrite(0, rate, now), cfg)
    case Restore(metrics) => Step(pow, st, Event.Hydrate(replica, metrics, now), cfg)
  }

  /** A deposit finds no time elapsed since the hash was written, or there is no decay. */
  ghost predicate OnTime(st: State, op: Op, now: real, cfg: Config) {
    op.Deposit? ==> cfg.rate == 0.0 || now <= Or(Fetch(st.server, op.id).ts, 0.0)
  }

  lemma DepositAgrees(pow: Power, h: NodeHash, x: Sample, now: real, cfg: Config)
    requires PowLaws(pow) && ProperConfig(cfg) && (cfg.rate == 0.0 || now <= Or(h.ts, 0.0))
    ensures RowOf(DepositScript(pow, h, x, now, cfg)) == DepositRow(RowOf(h), x, cfg.scale)
  {
    FactorIsOneIff(pow, h, now, cfg);
    ScaleByOne(RowOf(h), cfg.flags);
  }

  lemma RestoredReads(h: NodeHash, t: Saved, now: real)
    ensures RowOf(Restored(h, t, now)) == Overlay(RowOf(h), t)
  {
  }

  /** After a removal, what is kept of the list, the matrix and the server was there before, at a
      common position. */
  lemma KeptAt(pow: Power, st: State, replica: int, f: Field, id: NodeId, now: real, cfg: Config, j: nat)
    returns (i: nat)
    requires cfg.interval != 0.0 && Shaped(f) && Distinct(f.ids) && ListOf(st, replica) == f.ids && id in f.ids
    requires j < |RemoveNode(f, id).ids|
    ensures var f', st' := RemoveNode(f, id), Alone(pow, st, replica, Remove(id), now, cfg);
            && Shaped(f') && i < |f.ids| && f'.ids[j] == f.ids[i] && f'.rows[j] == f.rows[i]
            && Fetch(st'.server, f'.ids[j]) == Fetch(st.server, f.ids[i])
  {
    hide Enumerate, Distinct;
    var k := Enumerate(f.ids)[id];
    WithoutMembers(f.ids, k);
    WithoutAt(f.ids, k);
    WithoutAt(f.rows, k);
    i := if j < k then j else j + 1;
    assert Without(f.ids, k)[j] in Without(f.ids, k);
  }

  lemma RemovedList(pow: Power, st: State, replica: int, f: Field, id: NodeId, now: real, cfg: Config)
    requires cfg.interval != 0.0 && Shaped(f) && Distinct(f.ids) && ListOf(st, replica) == f.ids && id in f.ids
    ensures var f', st' := RemoveNode(f, id), Alone(pow, st, replica, Remove(id), now, cfg);
            Shaped(f') && Distinct(f'.ids) && ListOf(st', replica) == f'.ids
  {
    hide Enumerate, Distinct;
    WithoutMembers(f.ids, Enumerate(f.ids)[id]);
  }

  lemma RemoveAgrees(pow: Power, st: State, replica: int, f: Field, id: NodeId, now: real, cfg: Config)
    requires cfg.interval != 0.0 && Mirror(st, replica, f) && id in f.ids
    ensures Mirror(Alone(pow, st, replica, Remove(id), now, cfg), replica, RemoveNode(f, id))
  {
    hide Distinct, RowOf, RemoveNode, Alone;
    RemovedList(pow, st, replica, f, id, now, cfg);
    var f', st' := RemoveNode(f, id), Alone(pow, st, replica, Remove(id), now, cfg);
    forall j | 0 <= j < |f'.ids| ensures RowOf(Fetch(st'.server, f'.ids[j])) == f'.rows[j] {
      var i := KeptAt(pow, st, replica, f, id, now, cfg, j);
    }
  }

  lemma EvaporationAgrees(pow: Power, st: State, replica: int, f: Field, rate: real, now: real, cfg: Config)
    requires cfg.interval != 0.0 && Mirror(st, replica, f) && ValidRate(rate)
    ensures Mirror(Alone(pow, st, replica, Evaporate(rate), now, cfg), replica, EvaporateAll(f, rate, cfg.flags))
  {
    var readings := ReadAll(st.server, f.ids);
    WriteAllEffect(st.server, f.ids, readings, rate, cfg.flags, now);
    var st' := Alone(pow, st, replica, Evaporate(rate), now, cfg);
    assert st'.server == WriteAll(st.server, f.ids, readings, rate, cfg.flags, now);
    forall i | 0 <= i < |f.ids| ensures RowOf(Fetch(st'.server, f.ids[i])) == EvaporateRow(f.rows[i], rate, cfg.flags) {
      assert RowOf(readings[i]) == f.rows[i];
      EvaporatedReads(Fetch(st.server, f.ids[i]), rate, cfg.flags, now);
    }
  }

  lemma EvaporatedReads(h: NodeHash, rate: real, flags: Flags, now: real)
    ensures RowOf(Evaporated(h, h, rate, flags, now)) == EvaporateRow(RowOf(h), rate, flags)
  {
  }

  lemma RestoreAgrees(
    pow: Power, st: State, replica: int, f: Field, metrics: map<NodeId, Saved>, now: real, cfg: Config)
    requires cfg.interval != 0.0 && Mirror(st, replica, f)
    ensures Mirror(Alone(pow, st, replica, Restore(metrics), now, cfg), replica, FieldValue.Hydrate(f, metrics))
  {
    hide Enumerate, Overlay, RowOf;
    var st' := Alone(pow, st, replica, Restore(metrics), now, cfg);
    forall i | 0 <= i < |f.ids|
      ensures RowOf(Fetch(st'.server, f.ids[i])) == HydrateRow(f, metrics, i)
    {
      IndexInvertsList(f.ids, i);
      var id := f.ids[i];
      if id in metrics {
        RestoredReads(Fetch(st.server, id), metrics[id], now);
        assert Fetch(st'.server, id) == Restored(Fetch(st.server, id), metrics[id], now);
      } else {
        assert Fetch(st'.server, id) == Fetch(st.server, id);
      }
    }
  }

  lemma DepositMirrored(pow: Power, st: State, replica: int, f: Field, id: NodeId, x: Sample, now: real, cfg: Config)
    requires PowLaws(pow) && ProperConfig(cfg) && Mirror(st, replica, f) && OnTime(st, Op.Deposit(id, x), now, cfg)
    requires id in f.ids
    ensures Mirror(Alone(pow, st, replica, Op.Deposit(id, x), now, cfg), replica, DepositAt(f, id, x, cfg.scale))
  {
    hide DepositRow, DepositScript, RowOf, PowLaws, Enumerate;
    var k := Enumerate(f.ids)[id];
    var st' := Alone(pow, st, replica, Op.Deposit(id, x), now, cfg);
    var f' := DepositAt(f, id, x, cfg.scale);
    assert f'.ids == f.ids && f'.rows == f.rows[k := DepositRow(f.rows[k], x, cfg.scale)];
    assert st'.server == st.server[id := DepositScript(pow, Fetch(st.server, id), x, now, cfg)];
    forall j | 0 <= j < |f.ids| ensures RowOf(Fetch(st'.server, f.ids[j])) == f'.rows[j] {
      if j == k {
        DepositAgrees(pow, Fetch(st.server, id), x, now, cfg);
      } else {
        assert f.ids[j] != f.ids[k];
        assert Fetch(st'.server, f.ids[j]) == Fetch(st.server, f.ids[j]);
      }
    }
  }

  /** One operation. */
  lemma OperationAgrees(pow: Power, st: State, replica: int, f: Field, op: Op, now: real, cfg: Config)
    requires PowLaws(pow) && ProperConfig(cfg) && Mirror(st, replica, f)
    requires op.Deposit? && op.id in f.ids ==> OnTime(st, op, now, cfg)
    ensures Mirror(Alone(pow, st, replica, op, now, cfg), replica, Apply(f, op, cfg.scale, cfg.flags))
  {
    match op
    case Add(id) =>
    case Remove(id) => if id in f.ids { RemoveAgrees(pow, st, replica, f, id, now, cfg); }
    case Deposit(id, x) => if id in f.ids { DepositMirrored(pow, st, replica, f, id, x, now, cfg); }
    case Evaporate(rate) => if ValidRate(rate) { EvaporationAgrees(pow, st, replica, f, rate, now, cfg); }
    case Restore(metrics) => RestoreAgrees(pow, st, replica, f, metrics, now, cfg);
  }

  datatype Timed = Timed(op: Op, now: real)

  function AllAlone(pow: Power, st: State, replica: int, ops: seq<Timed>, cfg: Config): State
    requires cfg.interval != 0.0
  {
    if ops == [] then st
    else
      var last := ops[|ops| - 1];
      Alone(pow, AllAlone(pow, st, replica, ops[..|ops| - 1], cfg), replica, last.op, last.now, cfg)
  }

  // ------------------------------------------------------------------ lateness from the operations alone

  /** The time of the latest write to each node. */
  type Stamps = map<NodeId, real>

  function StampOf(stamps: Stamps, id: NodeId): real {
    if id in stamps then stamps[id] else 0.0
  }

  /** What an operation at `now` writes to, with `ids` listed: an added node, a deposit's node, every listed
      node at an evaporation, and the listed nodes a snapshot has traces for.  A removal forgets. */
  function Stamped(stamps: Stamps, ids: seq<NodeId>, op: Op, now: real): Stamps {
    match op
    case Add(id) => if id in ids then stamps else stamps[id := now]
    case Remove(id) => if id in ids then stamps - {id} else stamps
    case Deposit(id, _) => if id in ids then stamps[id := now] else stamps
    case Evaporate(rate) => if ValidRate(rate) then AllStamped(stamps, (set id | id in ids), now) else stamps
    case Restore(metrics) =>
      AllStamped(stamps, (set id | id in ids && id in metrics && metrics[id] != Saved(None, None, None, None)), now)
  }

  function AllStamped(stamps: Stamps, written: set<NodeId>, now: real): Stamps {
    map id | id in stamps.Keys + written :: if id in written then now else stamps[id]
  }

  function StampsAfter(stamps: Stamps, f: Field, ops: seq<Timed>, cfg: Config): Stamps
    requires Shaped(f)
  {
    if ops == [] then stamps
    else
      var prefix, last := ops[..|ops| - 1], ops[|ops| - 1];
      Stamped(StampsAfter(stamps, f, prefix, cfg), ApplyAll(f, OpsOf(prefix), cfg.scale, cfg.flags).ids,
              last.op, last.now)
  }

  /** No deposit comes after the latest earlier write to its node, or there is no decay. */
  ghost predicate AllOnTime(stamps: Stamps, f: Field, ops: seq<Timed>, cfg: Config)
    requires Shaped(f)
  {
    ops != [] ==>
      var prefix, last := ops[..|ops| - 1], ops[|ops| - 1];
      && AllOnTime(stamps, f, prefix, cfg)
      && (last.op.Deposit? ==>
            cfg.rate == 0.0 || last.now <= StampOf(StampsAfter(stamps, f, prefix, cfg), last.op.id))
  }

  /** The server's timestamps of the listed nodes are the stamps. */
  ghost predicate Clocked(server: Server, ids: seq<NodeId>, stamps: Stamps) {
    forall id :: id in ids ==> Or(Fetch(server, id).ts, 0.0) == StampOf(stamps, id)
  }

  lemma StampedRemoval(
    pow: Power, st: State, replica: int, f: Field, stamps: Stamps, id: NodeId, now: real, cfg: Config)
    requires cfg.interval != 0.0 && Shaped(f) && Distinct(f.ids) && ListOf(st, replica) == f.ids && id in f.ids
    requires Clocked(st.server, f.ids, stamps)
    ensures Clocked(Alone(pow, st, replica, Remove(id), now, cfg).server, RemoveNode(f, id).ids, stamps - {id})
  {
    hide Distinct, Enumerate;
    WithoutMembers(f.ids, Enumerate(f.ids)[id]);
  }

  lemma StampedDeposit(
    pow: Power, st: State, replica: int, ids: seq<NodeId>, stamps: Stamps, id: NodeId, x: Sample, now: real,
    cfg: Config)
    requires PowLaws(pow) && ProperConfig(cfg) && ListOf(st, replica) == ids && id in ids
    requires Clocked(st.server, ids, stamps)
    ensures Clocked(Alone(pow, st, replica, Op.Deposit(id, x), now, cfg).server, ids, stamps[id := now])
  {
    hide PowLaws, DepositScript;
    ScriptRow(pow, Fetch(st.server, id), x, now, cfg);
  }

  lemma StampedEvaporation(
    pow: Power, st: State, replica: int, ids: seq<NodeId>, stamps: Stamps, rate: real, now: real, cfg: Config)
    requires cfg.interval != 0.0 && Distinct(ids) && ListOf(st, replica) == ids && ValidRate(rate)
    requires Clocked(st.server, ids, stamps)
    ensures Clocked(Alone(pow, st, replica, Evaporate(rate), now, cfg).server, ids,
                    AllStamped(stamps, (set id | id in ids), now))
  {
    hide WriteAll, Distinct;
    WriteStamps(st.server, ids, ReadAll(st.server, ids), rate, cfg.flags, now);
    assert Alone(pow, st, replica, Evaporate(rate), now, cfg).server
        == WriteAll(st.server, ids, ReadAll(st.server, ids), rate, cfg.flags, now);
  }

  lemma StampedRestoration(
    server: Server, ids: seq<NodeId>, stamps: Stamps, metrics: map<NodeId, Saved>, now: real)
    requires Clocked(server, ids, stamps)
    ensures Clocked(RestoreAll(server, ids, metrics, now), ids, Stamped(stamps, ids, Restore(metrics), now))
  {
    hide RestoreAll, Restored;
    forall id | id in ids
      ensures Or(Fetch(RestoreAll(server, ids, metrics, now), id).ts, 0.0)
              == StampOf(Stamped(stamps, ids, Restore(metrics), now), id)
    {
      RestoredFetch(server, ids, metrics, now, id);
      if id in metrics { RestoredStamp(Fetch(server, id), metrics[id], now); }
    }
  }

  lemma StampedAlone(
    pow: Power, st: State, replica: int, f: Field, stamps: Stamps, op: Op, now: real, cfg: Config)
    requires PowLaws(pow) && ProperConfig(cfg) && Shaped(f) && Distinct(f.ids) && ListOf(st, replica) == f.ids
    requires Clocked(st.server, f.ids, stamps)
    ensures Clocked(Alone(pow, st, replica, op, now, cfg).server, Apply(f, op, cfg.scale, cfg.flags).ids,
                    Stamped(stamps, f.ids, op, now))
  {
    match op
    case Add(id) =>
      hide PowLaws, Distinct;
    case Remove(id) =>
      hide PowLaws, Clocked, RemoveNode;
      if id in f.ids { StampedRemoval(pow, st, replica, f, stamps, id, now, cfg); } else { AbsentRemoval(f, id); }
    case Deposit(id, x) =>
      hide Clocked, DepositRow, DepositScript;
      if id in f.ids { StampedDeposit(pow, st, replica, f.ids, stamps, id, x, now, cfg); }
    case Evaporate(rate) =>
      hide PowLaws, Clocked, WriteAll, AllStamped;
      if ValidRate(rate) { StampedEvaporation(pow, st, replica, f.ids, stamps, rate, now, cfg); }
    case Restore(metrics) =>
      hide PowLaws, Clocked, RestoreAll, AllStamped;
      StampedRestoration(st.server, f.ids, stamps, metrics, now);
  }

  lemma RestoredStamp(h: NodeHash, t: Saved, now: real)
    ensures Restored(h, t, now).ts == if t == Saved(None, None, None, None) then h.ts else Some(now)
  {
  }

  function OpsOf(ops: seq<Timed>): seq<Op> {
    seq(|ops|, i requires 0 <= i < |ops| => ops[i].op)
  }

  /** Main result.  Over every sequence of adds, removals, timely deposits, evaporations and
      hydrations, the Redis backend keeps the node list and the rows of the in-memory backend; a deposit
      is timely if it comes no later than the latest earlier operation that wrote to its node. */
  lemma {:induction false} BackendsAgree(
    pow: Power, st: State, replica: int, f: Field, stamps: Stamps, ops: seq<Timed>, cfg: Config)
    requires PowLaws(pow) && ProperConfig(cfg) && Mirror(st, replica, f) && Clocked(st.server, f.ids, stamps)
    requires AllOnTime(stamps, f, ops, cfg)
    ensures var end := AllAlone(pow, st, replica, ops, cfg);
            var field := ApplyAll(f, OpsOf(ops), cfg.scale, cfg.flags);
            Mirror(end, replica, field) && Clocked(end.server, field.ids, StampsAfter(stamps, f, ops, cfg))
  {
    hide Alone, Apply, PowLaws, Clocked, Stamped, Distinct;
    if ops == [] {
      assert OpsOf(ops) == [];
    } else {
      var prefix, last := ops[..|ops| - 1], ops[|ops| - 1];
      BackendsAgree(pow, st, replica, f, stamps, prefix, cfg);
      assert OpsOf(ops)[..|ops| - 1] == OpsOf(prefix);
      var before, field := AllAlone(pow, st, replica, prefix, cfg), ApplyAll(f, OpsOf(prefix), cfg.scale, cfg.flags);
      ClockedIsOnTime(before, replica, field, StampsAfter(stamps, f, prefix, cfg), last.op, last.now, cfg);
      OperationAgrees(pow, before, replica, field, last.op, last.now, cfg);
      StampedAlone(pow, before, replica, field, StampsAfter(stamps, f, prefix, cfg), last.op, last.now, cfg);
    }
  }

  lemma ClockedIsOnTime(st: State, replica: int, f: Field, stamps: Stamps, op: Op, now: real, cfg: Config)
    requires Mirror(st, replica, f) && Clocked(st.server, f.ids, stamps)
    requires op.Deposit? ==> cfg.rate == 0.0 || now <= StampOf(stamps, op.id)
    ensures op.Deposit? && op.id in f.ids ==> OnTime(st, op, now, cfg)
  {
  }

  lemma MirrorShaped(st: State, replica: int, f: Field)
    requires Mirror(st, replica, f)
    ensures Shaped(f)
  {
  }

  // ------------------------------------------------------------------ late deposits too

  /** The replica's list is the field's, and every node's V, L and C are at most those of its row. */
  ghost predicate Dominated(st: State, replica: int, f: Field) {
    && Shaped(f) && Distinct(f.ids) && ListOf(st, replica) == f.ids
    && forall i :: 0 <= i < |f.ids| ==> AtMost(RowOf(Fetch(st.server, f.ids[i])), f.rows[i])
  }

  ghost predicate AtMost(r: Row, m: Row) {
    Below(r, m, false, false)
  }

  ghost predicate SaneOp(op: Op) {
    match op
    case Deposit(_, x) => x.latency >= 0.0
    case Restore(metrics) => forall id :: id in metrics ==> SaneSaved(metrics[id])
    case _ => true
  }

  ghost predicate SaneSaved(t: Saved) {
    Or(t.v, 0.0) >= 0.0 && Or(t.l, 0.0) >= 0.0 && Or(t.c, 0.0) >= 0.0
  }

  lemma DepositDominated(pow: Power, st: State, replica: int, f: Field, id: NodeId, x: Sample, now: real, cfg: Config)
    requires PowLaws(pow) && ProperConfig(cfg) && Dominated(st, replica, f) && x.latency >= 0.0 && id in f.ids
    ensures Dominated(Alone(pow, st, replica, Op.Deposit(id, x), now, cfg), replica, DepositAt(f, id, x, cfg.scale))
  {
    hide DepositRow, DepositScript, RowOf, PowLaws, Enumerate, Below;
    var k := Enumerate(f.ids)[id];
    var st' := Alone(pow, st, replica, Op.Deposit(id, x), now, cfg);
    var f' := DepositAt(f, id, x, cfg.scale);
    assert f'.ids == f.ids && f'.rows == f.rows[k := DepositRow(f.rows[k], x, cfg.scale)];
    assert st'.server == st.server[id := DepositScript(pow, Fetch(st.server, id), x, now, cfg)];
    forall j | 0 <= j < |f.ids| ensures AtMost(RowOf(Fetch(st'.server, f.ids[j])), f'.rows[j]) {
      if j == k {
        ServeBelow(pow, Fetch(st.server, id), f.rows[k], false, false, x, now, cfg);
      } else {
        assert f.ids[j] != f.ids[k];
        assert Fetch(st'.server, f.ids[j]) == Fetch(st.server, f.ids[j]);
      }
    }
  }

  lemma RemovalDominated(pow: Power, st: State, replica: int, f: Field, id: NodeId, now: real, cfg: Config)
    requires cfg.interval != 0.0 && Dominated(st, replica, f) && id in f.ids
    ensures Dominated(Alone(pow, st, replica, Remove(id), now, cfg), replica, RemoveNode(f, id))
  {
    hide Distinct, RowOf, AtMost, RemoveNode, Alone;
    RemovedList(pow, st, replica, f, id, now, cfg);
    var f', st' := RemoveNode(f, id), Alone(pow, st, replica, Remove(id), now, cfg);
    forall j | 0 <= j < |f'.ids| ensures AtMost(RowOf(Fetch(st'.server, f'.ids[j])), f'.rows[j]) {
      var i := KeptAt(pow, st, replica, f, id, now, cfg, j);
    }
  }

  lemma EvaporationDominated(pow: Power, st: State, replica: int, f: Field, rate: real, now: real, cfg: Config)
    requires cfg.interval != 0.0 && Dominated(st, replica, f) && ValidRate(rate)
    ensures Dominated(Alone(pow, st, replica, Evaporate(rate), now, cfg), replica, EvaporateAll(f, rate, cfg.flags))
  {
    hide AtMost, RowOf, EvaporateRow, Evaporated;
    var readings := ReadAll(st.server, f.ids);
    WriteAllEffect(st.server, f.ids, readings, rate, cfg.flags, now);
    var st' := Alone(pow, st, replica, Evaporate(rate), now, cfg);
    assert st'.server == WriteAll(st.server, f.ids, readings, rate, cfg.flags, now);
    forall i | 0 <= i < |f.ids|
      ensures AtMost(RowOf(Fetch(st'.server, f.ids[i])), EvaporateRow(f.rows[i], rate, cfg.flags))
    {
      EvaporatedReads(Fetch(st.server, f.ids[i]), rate, cfg.flags, now);
      EvaporatedAtMost(RowOf(Fetch(st.server, f.ids[i])), f.rows[i], rate, cfg.flags);
    }
  }

  lemma EvaporatedAtMost(r: Row, m: Row, rate: real, flags: Flags)
    requires AtMost(r, m) && ValidRate(rate)
    ensures AtMost(EvaporateRow(r, rate, flags), EvaporateRow(m, rate, flags))
  {
    hide EvaporateRow;
    EvaporatedBelow(r, m, EvaporateRow(r, rate, flags), EvaporateRow(m, rate, flags), false, false, rate, flags);
  }

  lemma RestorationDominated(
    pow: Power, st: State, replica: int, f: Field, metrics: map<NodeId, Saved>, now: real, cfg: Config)
    requires cfg.interval != 0.0 && Dominated(st, replica, f) && SaneOp(Restore(metrics))
    ensures Dominated(Alone(pow, st, replica, Restore(metrics), now, cfg), replica, FieldValue.Hydrate(f, metrics))
  {
    hide Enumerate, Overlay, RowOf, AtMost, SaneSaved, Restored;
    var st' := Alone(pow, st, replica, Restore(metrics), now, cfg);
    forall i | 0 <= i < |f.ids| ensures AtMost(RowOf(Fetch(st'.server, f.ids[i])), HydrateRow(f, metrics, i)) {
      IndexInvertsList(f.ids, i);
      var id := f.ids[i];
      RestoredFetch(st.server, f.ids, metrics, now, id);
      if id in metrics {
        RestoredReads(Fetch(st.server, id), metrics[id], now);
        OverlayAtMost(RowOf(Fetch(st.server, id)), f.rows[i], metrics[id]);
      }
    }
  }

  /** A hydration writes to the listed nodes that the snapshot knows, and to no other key. */
  lemma RestoredFetch(server: Server, ids: seq<NodeId>, metrics: map<NodeId, Saved>, now: real, id: NodeId)
    ensures Fetch(RestoreAll(server, ids, metrics, now), id) ==
            if id in ids && id in metrics then Restored(Fetch(server, id), metrics[id], now) else Fetch(server, id)
  {
  }

  lemma OverlayAtMost(r: Row, m: Row, t: Saved)
    requires AtMost(r, m) && SaneSaved(t)
    ensures AtMost(Overlay(r, t), Overlay(m, t))
  {
  }

  lemma AddedDominated(pow: Power, st: State, replica: int, f: Field, id: NodeId, now: real, cfg: Config)
    requires cfg.interval != 0.0 && Dominated(st, replica, f)
    ensures Dominated(Alone(pow, st, replica, Add(id), now, cfg), replica, AddNode(f, id))
  {
  }

  lemma OperationDominated(pow: Power, st: State, replica: int, f: Field, op: Op, now: real, cfg: Config)
    requires PowLaws(pow) && ProperConfig(cfg) && Dominated(st, replica, f) && SaneOp(op)
    ensures Dominated(Alone(pow, st, replica, op, now, cfg), replica, Apply(f, op, cfg.scale, cfg.flags))
  {
    hide AtMost, PowLaws, AddNode, RemoveNode, DepositAt, EvaporateAll, FieldValue.Hydrate;
    match op
    case Add(id) => AddedDominated(pow, st, replica, f, id, now, cfg);
    case Remove(id) =>
      if id in f.ids { RemovalDominated(pow, st, replica, f, id, now, cfg); } else { AbsentRemoval(f, id); }
    case Deposit(id, x) => if id in f.ids { DepositDominated(pow, st, replica, f, id, x, now, cfg); }
    case Evaporate(rate) => if ValidRate(rate) { EvaporationDominated(pow, st, replica, f, rate, now, cfg); }
    case Restore(metrics) => RestorationDominated(pow, st, replica, f, metrics, now, cfg);
  }

  lemma AbsentRemoval(f: Field, id: NodeId)
    requires Shaped(f) && id !in f.ids
    ensures RemoveNode(f, id) == f
  {
  }

  /** Main result.  Over every sequence of adds, removals, deposits at any times, evaporations and
      hydrations, the Redis backend keeps the node list of the in-memory backend, its V, L and C never
      exceed the in-memory ones, and its S is equal. */
  lemma {:induction false} RedisNeverAbove(
    pow: Power, st: State, replica: int, f: Field, ops: seq<Timed>, cfg: Config)
    requires PowLaws(pow) && ProperConfig(cfg) && Dominated(st, replica, f)
    requires forall i :: 0 <= i < |ops| ==> SaneOp(ops[i].op)
    ensures Shaped(f)
    ensures Dominated(AllAlone(pow, st, replica, ops, cfg), replica, ApplyAll(f, OpsOf(ops), cfg.scale, cfg.flags))
  {
    hide Dominated, Alone, Apply, PowLaws, SaneOp;
    DominatedShaped(st, replica, f);
    if ops != [] {
      var prefix, last := ops[..|ops| - 1], ops[|ops| - 1];
      RedisNeverAbove(pow, st, replica, f, prefix, cfg);
      assert OpsOf(ops)[..|ops| - 1] == OpsOf(prefix);
      OperationDominated(pow, AllAlone(pow, st, replica, prefix, cfg), replica,
                         ApplyAll(f, OpsOf(prefix), cfg.scale, cfg.flags), last.op, last.now, cfg);
    }
  }

  lemma DominatedShaped(st: State, replica: int, f: Field)
    requires Dominated(st, replica, f)
    ensures Shaped(f)
  {
  }

  /** No operation of a replica touches the key of a node it does not list, except adding that node: a
      deposit on such a node raises KeyError and a snapshot's traces for it are skipped. */
  lemma UnlistedUntouched(pow: Power, st: State, replica: int, op: Op, now: real, cfg: Config, id: NodeId)
    requires cfg.interval != 0.0 && Distinct(ListOf(st, replica)) && id !in ListOf(st, replica) && op != Add(id)
    ensures Fetch(Alone(pow, st, replica, op, now, cfg).server, id) == Fetch(st.server, id)
  {
    hide Enumerate, DepositScript, RestoreAll, WriteAll;
    var ids := ListOf(st, replica);
    match op
    case Evaporate(rate) =>
      WriteAllEffect(st.server, ids, ReadAll(st.server, ids), rate, cfg.flags, now);
      if ValidRate(rate) {
        assert Alone(pow, st, replica, op, now, cfg).server
            == WriteAll(st.server, ids, ReadAll(st.server, ids), rate, cfg.flags, now);
      }
    case Restore(metrics) => RestoredFetch(st.server, ids, metrics, now, id);
    case _ =>
  }

  /** A removal deletes the hash for every replica, which then read the baseline again; an addition
      stores it; neither touches another key. */
  lemma MembershipOnServer(pow: Power, st: State, replica: int, id: NodeId, other: NodeId, now: real, cfg: Config)
    requires cfg.interval != 0.0 && other != id
    ensures var removed := Alone(pow, st, replica, Remove(id), now, cfg).server;
            && (id in ListOf(st, replica) ==> id !in removed && RowOf(Fetch(removed, id)) == Row(1.0, 0.1, 0.0, 1.0))
            && Fetch(removed, other) == Fetch(st.server, other)
    ensures var added := Alone(pow, st, replica, Add(id), now, cfg).server;
            && (id !in ListOf(st, replica) ==>
                  RowOf(Fetch(added, id)) == Row(1.0, 0.1, 0.0, 1.0) && Fetch(added, id).ts == Some(now))
            && Fetch(added, other) == Fetch(st.server, other)
  {
    hide Enumerate;
  }

  /** A replica that initialises resets every hash of its nodes to the baseline, whatever other
      replicas had stored, and touches no other key. */
  lemma InitialiseResets(pow: Power, st: State, replica: int, now: real, cfg: Config, id: NodeId)
    requires cfg.interval != 0.0
    ensures var after := Step(pow, st, Initialise(replica, now), cfg).server;
            if id in ListOf(st, replica)
            then RowOf(Fetch(after, id)) == BASELINE && Fetch(after, id).ts == Some(now)
            else Fetch(after, id) == Fetch(st.server, id)
  {
    var ids := ListOf(st, replica);
    if id in ids {
      assert id in (set i | 0 <= i < |ids| :: ids[i]);
    }
  }
}
