/** Snapshots of the field, and the two unreliable stores they are kept in. */
module Checkpointing {
  import opened Traces
  import opened FieldValue
  import opened InMemory

  /** The part of a snapshot that is restored, and when it was taken. */
  datatype Checkpoint = Checkpoint(timestamp: real, metrics: map<NodeId, Saved>)

  // ------------------------------------------------------------------ snapshot and hydrate

  function MetricsOf(f: Field): map<NodeId, Saved>
    requires Shaped(f)
  {
    map id | id in f.ids :: Full(f.rows[Enumerate(f.ids)[id]])
  }

  /** The loop over the node list, row by row. */
  method CollectMetrics(nodeIds: seq<NodeId>, state: array2<real>) returns (metrics: map<NodeId, Saved>)
    requires state.Length0 == |nodeIds| && state.Length1 == 4
    ensures metrics == MetricsOf(Field(nodeIds,
                         seq(|nodeIds|, i requires 0 <= i < |nodeIds| reads state =>
                           Row(state[i, 0], state[i, 1], state[i, 2], state[i, 3]))))
  {
    metrics := map[];
    ghost var rows := seq(|nodeIds|, i requires 0 <= i < |nodeIds| reads state =>
      Row(state[i, 0], state[i, 1], state[i, 2], state[i, 3]));
    for i := 0 to |nodeIds|
      invariant metrics == MetricsOf(Field(nodeIds[..i], rows[..i]))
    {
      MetricsStep(nodeIds, rows, i);
      metrics := metrics[nodeIds[i] :=
        Saved(Some(state[i, 0]), Some(state[i, 1]), Some(state[i, 2]), Some(state[i, 3]))];
    }
    assert nodeIds[..|nodeIds|] == nodeIds && rows[..|nodeIds|] == rows;
  }

  lemma MetricsStep(ids: seq<NodeId>, rows: seq<Row>, i: nat)
    requires |ids| == |rows| && i < |ids|
    ensures MetricsOf(Field(ids[..i + 1], rows[..i + 1]))
            == MetricsOf(Field(ids[..i], rows[..i]))[ids[i] := Full(rows[i])]
  {
    assert ids[..i + 1][..i] == ids[..i];
    assert ids[..i + 1] == ids[..i] + [ids[i]];
  }

  /** Hydrating with a field's own snapshot gives the target the source's rows on the shared nodes,
      leaves every other row and the node list alone, and doing it again changes nothing. */
  lemma SnapshotRoundTrip(source: Field, target: Field)
    requires Shaped(source) && Shaped(target) && Distinct(target.ids)
    ensures var after := Hydrate(target, MetricsOf(source));
            && after.ids == target.ids && |after.rows| == |target.rows|
            && (forall i :: 0 <= i < |target.ids| && target.ids[i] in source.ids ==>
                  after.rows[i] == source.rows[Enumerate(source.ids)[target.ids[i]]])
            && (forall i :: 0 <= i < |target.ids| && target.ids[i] !in source.ids ==> after.rows[i] == target.rows[i])
            && Hydrate(after, MetricsOf(source)) == after
  {
    hide Enumerate, Overlay, Full;
    HydrateTwice(target, MetricsOf(source));
    forall i | 0 <= i < |target.ids| {
      RestoredRow(source, target, i);
    }
  }

  lemma RestoredRow(source: Field, target: Field, i: nat)
    requires Shaped(source) && Shaped(target) && Distinct(target.ids) && i < |target.ids|
    ensures HydrateRow(target, MetricsOf(source), i) ==
            if target.ids[i] in source.ids then source.rows[Enumerate(source.ids)[target.ids[i]]] else target.rows[i]
  {
    IndexInvertsList(target.ids, i);
  }

  /** Hydration is idempotent, for any snapshot, partial rows included. */
  lemma HydrateTwice(f: Field, metrics: map<NodeId, Saved>)
    requires Shaped(f)
    ensures Hydrate(Hydrate(f, metrics), metrics) == Hydrate(f, metrics)
  {
    hide Enumerate;
    var once := Hydrate(f, metrics);
    assert Hydrate(once, metrics).rows == once.rows;
  }

  /** create_snapshot on the in-memory backend. */
  method CreateSnapshot(source: MemoryField) returns (metrics: map<NodeId, Saved>)
    requires source.Valid()
    ensures metrics == MetricsOf(source.Value())
    ensures metrics == map[] <==> source.nodeIds == []
  {
    var state := source.GetStateVector();
    metrics := CollectMetrics(source.nodeIds, state);
    var n := |source.nodeIds|;
    assert seq(n, i requires 0 <= i < n reads state =>
        Row(state[i, 0], state[i, 1], state[i, 2], state[i, 3])) == source.rows;
    assert source.nodeIds != [] ==> source.nodeIds[0] in metrics;
  }

  /** A whole restore through the running backends: it fails exactly when the source had no nodes,
      since a snapshot object without nodes is not readable; otherwise it reports the shared nodes. */
  method SnapshotAndHydrate(source: MemoryField, target: MemoryField) returns (r: Outcome<nat>)
    requires source.Valid() && target.Valid()
    modifies target.state, target`rows
    ensures target.Valid()
    ensures r.Raised? <==> old(source.nodeIds) == []
    ensures r.Raised? ==> target.Value() == old(target.Value())
    ensures r.Done? ==> target.Value() == Hydrate(old(target.Value()), MetricsOf(old(source.Value())))
    ensures r.Done? ==> r.value == |MetricsOf(old(source.Value())).Keys * target.nodeIndex.Keys|
  {
    hide MetricsOf, Hydrate, Enumerate;
    var metrics := CreateSnapshot(source);
    r := target.HydrateFromSnapshot(Matrix(metrics));
  }

  // ------------------------------------------------------------------ stores

  /** snapshot_latest.json: missing, cut short by a failed write, or whole. */
  datatype File = Absent | Torn | Whole(c: Checkpoint)

  /** How far the disk half of a save gets. */
  datatype DiskRun = MkdirFails | OpenFails | WriteFails | ArchiveFails | DiskDone

  /** How far the Redis half gets.  A reply may be lost after SET took effect. */
  datatype RedisRun = NoClient | SetFails | SetReplyLost | XaddFails | RedisDone

  datatype Stores = Stores(disk: File, redis: Option<Checkpoint>)

  datatype Save = Save(c: Checkpoint, disk: DiskRun, redis: RedisRun)

  const EMPTY := Stores(Absent, None)

  predicate ReachesRedis(s: Save) {
    s.redis.SetReplyLost? || s.redis.XaddFails? || s.redis.RedisDone?
  }

  predicate ReachesDisk(s: Save) {
    s.disk.ArchiveFails? || s.disk.DiskDone?
  }

  function Saving(st: Stores, s: Save): Stores {
    Stores(if ReachesDisk(s) then Whole(s.c) else if s.disk.WriteFails? then Torn else st.disk,
           if ReachesRedis(s) then Some(s.c) else st.redis)
  }

  /** Redis first when it can be read and holds something, then the file. */
  function Load(st: Stores, redisReadable: bool, diskReadable: bool): Option<Checkpoint> {
    if redisReadable && st.redis.Some? then st.redis
    else if diskReadable && st.disk.Whole? then Some(st.disk.c)
    else None
  }

  /** The stores and the best-effort operations on them. */
  class CheckpointStore {
    var disk: File
    var redis: Option<Checkpoint>

    ghost function Value(): Stores
      reads this
    {
      Stores(disk, redis)
    }

    constructor ()
      ensures Value() == EMPTY
    {
      disk, redis := Absent, None;
    }

    method SaveToDisk(c: Checkpoint, run: DiskRun) returns (ok: bool)
      modifies this`disk
      ensures ok <==> run == DiskDone
      ensures disk == match run
                      case MkdirFails => old(disk)
                      case OpenFails => old(disk)
                      case WriteFails => Torn
                      case ArchiveFails => Whole(c)
                      case DiskDone => Whole(c)
      ensures Value() == Saving(old(Value()), Save(c, run, NoClient))
    {
      match run
      case MkdirFails => return false;
      case OpenFails => return false;
      case WriteFails => disk := Torn; return false;
      case ArchiveFails => disk := Whole(c); return false;
      case DiskDone => disk := Whole(c); return true;
    }

    method SaveToRedis(c: Checkpoint, run: RedisRun) returns (ok: bool)
      modifies this`redis
      ensures ok <==> run == RedisDone
      ensures redis == if run == NoClient || run == SetFails then old(redis) else Some(c)
      ensures Value() == Saving(old(Value()), Save(c, OpenFails, run))
    {
      match run
      case NoClient => return false;
      case SetFails => return false;
      case SetReplyLost => redis := Some(c); return false;
      case XaddFails => redis := Some(c); return false;
      case RedisDone => redis := Some(c); return true;
    }

    /** A failure of one store never keeps the other from being written; the location reported is
        the file exactly when both disk writes went through. */
    method SaveCheckpoint(s: Save) returns (location: string)
      modifies this
      ensures Value() == Saving(old(Value()), s)
      ensures location == if s.disk == DiskDone then "snapshot_latest.json" else "stigmergic:matrix:checkpoint:latest"
    {
      var diskOk := SaveToDisk(s.c, s.disk);
      var redisOk := SaveToRedis(s.c, s.redis);
      location := if diskOk then "snapshot_latest.json" else "stigmergic:matrix:checkpoint:latest";
    }

    method LoadLatestCheckpoint(redisReadable: bool, diskReadable: bool) returns (c: Option<Checkpoint>)
      ensures c == Load(Value(), redisReadable, diskReadable)
    {
      if redisReadable && redis.Some? {
        return redis;
      }
      if disk != Absent && diskReadable && disk.Whole? {
        return Some(disk.c);
      }
      return None;
    }
  }

  // ------------------------------------------------------------------ runs of saves

  function After(saves: seq<Save>): Stores {
    if saves == [] then EMPTY else Saving(After(saves[..|saves| - 1]), saves[|saves| - 1])
  }

  /** `i` is the last save that reached Redis. */
  ghost predicate LastInRedis(saves: seq<Save>, i: nat) {
    i < |saves| && ReachesRedis(saves[i]) && forall j :: i < j < |saves| ==> !ReachesRedis(saves[j])
  }

  /** `i` is the last save that touched the file. */
  ghost predicate LastOnDisk(saves: seq<Save>, i: nat) {
    && i < |saves| && (ReachesDisk(saves[i]) || saves[i].disk.WriteFails?)
    && forall j :: i < j < |saves| ==> !ReachesDisk(saves[j]) && !saves[j].disk.WriteFails?
  }

  /** Redis holds the last snapshot that reached it. */
  lemma {:induction false} RedisHoldsLast(saves: seq<Save>)
    ensures var redis := After(saves).redis;
            && (forall i: nat :: LastInRedis(saves, i) ==> redis == Some(saves[i].c))
            && (redis.Some? ==> exists i: nat :: LastInRedis(saves, i))
  {
    if saves != [] {
      var prefix, s := saves[..|saves| - 1], saves[|saves| - 1];
      RedisHoldsLast(prefix);
      if ReachesRedis(s) {
        assert LastInRedis(saves, |prefix|);
      } else {
        forall i: nat | LastInRedis(saves, i) ensures LastInRedis(prefix, i) {}
        if After(prefix).redis.Some? {
          var i: nat :| LastInRedis(prefix, i);
          assert LastInRedis(saves, i);
        }
      }
    }
  }

  /** The file is what the last write left of it. */
  lemma {:induction false} DiskHoldsLast(saves: seq<Save>)
    ensures var disk := After(saves).disk;
            && (forall i: nat :: LastOnDisk(saves, i) ==>
                  disk == if ReachesDisk(saves[i]) then Whole(saves[i].c) else Torn)
            && (disk != Absent ==> exists i: nat :: LastOnDisk(saves, i))
  {
    if saves != [] {
      var prefix, s := saves[..|saves| - 1], saves[|saves| - 1];
      DiskHoldsLast(prefix);
      if ReachesDisk(s) || s.disk.WriteFails? {
        assert LastOnDisk(saves, |prefix|);
      } else {
        forall i: nat | LastOnDisk(saves, i) ensures LastOnDisk(prefix, i) {}
        if After(prefix).disk != Absent {
          var i: nat :| LastOnDisk(prefix, i);
          assert LastOnDisk(saves, i);
        }
      }
    }
  }

  /** Under any failures, load returns nothing or a snapshot that some earlier save wrote. */
  lemma {:induction false} LoadReturnsSomeSave(saves: seq<Save>, redisReadable: bool, diskReadable: bool)
    ensures var c := Load(After(saves), redisReadable, diskReadable);
            c.Some? ==> exists i :: 0 <= i < |saves| && saves[i].c == c.value
  {
    RedisHoldsLast(saves);
    DiskHoldsLast(saves);
    var st := After(saves);
    if redisReadable && st.redis.Some? {
      var i: nat :| LastInRedis(saves, i);
      assert saves[i].c == st.redis.value;
    } else if diskReadable && st.disk.Whole? {
      var i: nat :| LastOnDisk(saves, i);
      assert saves[i].c == st.disk.c;
    }
  }

  /** When exactly the newest snapshot comes back: Redis can be read and the newest save got through to
      it, be it without a reply or without its history entry; or Redis never took a save or cannot be
      read, and the newest save wrote the whole file on a readable disk.  In particular, a newest save
      that reached only the disk is hidden by any older one that Redis still holds. */
  lemma NewestLoadedIff(saves: seq<Save>, redisReadable: bool, diskReadable: bool)
    requires saves != []
    requires forall i :: 0 <= i < |saves| - 1 ==> saves[i].c != saves[|saves| - 1].c
    ensures var newest := saves[|saves| - 1];
            Load(After(saves), redisReadable, diskReadable) == Some(newest.c) <==>
            (|| (redisReadable && newest.redis in {SetReplyLost, XaddFails, RedisDone})
             || (diskReadable && newest.disk in {ArchiveFails, DiskDone}
                 && (redisReadable ==> forall i :: 0 <= i < |saves| ==> saves[i].redis in {NoClient, SetFails})))
  {
    var newest, st := saves[|saves| - 1], After(saves);
    RedisHoldsLast(saves);
    DiskHoldsLast(saves);
    if st.redis.Some? {
      var i: nat :| LastInRedis(saves, i);
      assert st.redis == Some(saves[i].c);
      assert i == |saves| - 1 <==> ReachesRedis(newest);
    } else {
      NothingInRedis(saves);
    }
    if st.disk != Absent {
      var i: nat :| LastOnDisk(saves, i);
      assert i == |saves| - 1 <==> ReachesDisk(newest) || newest.disk.WriteFails?;
    }
  }

  /** So it happens: a first save reaches both stores, a second one only the disk; with both stores
      readable, load returns the first. */
  lemma OlderHidesNewer(older: Checkpoint, newer: Checkpoint)
    ensures var saves := [Save(older, DiskDone, RedisDone), Save(newer, DiskDone, SetFails)];
            && Load(After(saves), true, true) == Some(older)
            && Load(After(saves), false, true) == Some(newer)
  {
    var saves := [Save(older, DiskDone, RedisDone), Save(newer, DiskDone, SetFails)];
    assert saves[..1] == [saves[0]] && [saves[0]][..0] == [];
    assert After([saves[0]]) == Stores(Whole(older), Some(older));
  }

  lemma {:induction false} NothingInRedis(saves: seq<Save>)
    requires After(saves).redis.None?
    ensures forall i :: 0 <= i < |saves| ==> !ReachesRedis(saves[i])
  {
    if saves != [] {
      NothingInRedis(saves[..|saves| - 1]);
    }
  }
}
