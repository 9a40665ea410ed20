/** Two-phase evaporations of several replicas, interleaved in any way.  With fixed membership and
    no deposits the whole field is evaporated `Depth` times, where the depth of a write is one more
    than that of the state its read saw. */
module OverlappingEvaporation {
  import opened RealMath
  import opened Traces
  import opened FieldValue
  import opened RedisField

  /** Every evaporation has one identifier: it reads once, and later writes once. */
  ghost predicate OneCallEach(events: seq<Event>) {
    && (forall i, j :: 0 <= i < j < |events| && events[i].EvaporationRead? && events[j].EvaporationRead?
          ==> events[i].op != events[j].op)
    && (forall i, j :: 0 <= i < j < |events| && events[i].EvaporationWrite? && events[j].EvaporationWrite?
          ==> events[i].op != events[j].op)
    && (forall j :: 0 <= j < |events| && events[j].EvaporationWrite?
          ==> exists i :: 0 <= i < j && IsReadOf(events, i, events[j].op))
  }

  /** Evaporations of one rate and nothing else. */
  ghost predicate EvaporationsOnly(events: seq<Event>, rate: real) {
    && (forall i :: 0 <= i < |events| ==>
          match events[i]
          case EvaporationRead(_, _, r) => r == rate
          case EvaporationWrite(_, r, _) => r == rate
          case _ => false)
    && OneCallEach(events)
  }

  ghost predicate IsReadOf(events: seq<Event>, i: nat, op: int)
    requires i < |events|
  {
    events[i].EvaporationRead? && events[i].op == op
  }

  /** No write falls between another operation's read and its write. */
  ghost predicate NoneOverlap(events: seq<Event>) {
    forall i, k, j :: 0 <= i < k < j < |events| && events[j].EvaporationWrite? && IsReadOf(events, i, events[j].op)
      ==> !events[k].EvaporationWrite?
  }

  function Writes(events: seq<Event>): nat {
    if events == [] then 0
    else Writes(events[..|events| - 1]) + (if events[|events| - 1].EvaporationWrite? then 1 else 0)
  }

  /** Decay depth of the stored field, and of what each operation in flight has read. */
  datatype Depths = Depths(stored: nat, seen: map<int, nat>)

  function DepthRun(events: seq<Event>): Depths {
    if events == [] then Depths(0, map[])
    else
      var d := DepthRun(events[..|events| - 1]);
      match events[|events| - 1]
      case EvaporationRead(op, _, _) => d.(seen := d.seen[op := d.stored])
      case EvaporationWrite(op, _, _) => if op in d.seen then d.(stored := d.seen[op] + 1) else d
      case _ => d
  }

  function Depth(events: seq<Event>): nat {
    DepthRun(events).stored
  }

  // ------------------------------------------------------------------ depth arithmetic

  lemma PrefixEvaporates(events: seq<Event>, rate: real)
    requires EvaporationsOnly(events, rate) && events != []
    ensures EvaporationsOnly(events[..|events| - 1], rate)
  {
    var prefix := events[..|events| - 1];
    forall j | 0 <= j < |prefix| && prefix[j].EvaporationWrite?
      ensures exists i :: 0 <= i < j && IsReadOf(prefix, i, prefix[j].op)
    {
      var i :| 0 <= i < j && IsReadOf(events, i, events[j].op);
      assert IsReadOf(prefix, i, prefix[j].op);
    }
  }

  /** Some write comes after the read of `op`. */
  ghost predicate Stale(events: seq<Event>, op: int) {
    exists i, k :: 0 <= i < k < |events| && IsReadOf(events, i, op) && events[k].EvaporationWrite?
  }

  lemma StaleGrows(events: seq<Event>, op: int)
    requires events != []
    requires Stale(events[..|events| - 1], op)
    ensures Stale(events, op)
  {
    var prefix := events[..|events| - 1];
    var i, k :| 0 <= i < k < |prefix| && IsReadOf(prefix, i, op) && prefix[k].EvaporationWrite?;
    assert IsReadOf(events, i, op) && events[k].EvaporationWrite?;
  }

  ghost predicate HasRead(events: seq<Event>, op: int) {
    exists i :: 0 <= i < |events| && IsReadOf(events, i, op)
  }

  /** What an operation has seen is the current depth until the next write, and strictly fewer
      writes than there are now after it. */
  lemma {:induction false} SeenDepth(events: seq<Event>, rate: real, op: int)
    requires EvaporationsOnly(events, rate)
    ensures op in DepthRun(events).seen <==> HasRead(events, op)
    ensures HasRead(events, op) && !Stale(events, op) ==> DepthRun(events).seen[op] == Depth(events)
    ensures HasRead(events, op) && Stale(events, op) ==> DepthRun(events).seen[op] < Writes(events)
    ensures Depth(events) <= Writes(events)
  {
    if events != [] {
      var prefix, e := events[..|events| - 1], events[|events| - 1];
      PrefixEvaporates(events, rate);
      SeenDepth(prefix, rate, op);
      if HasRead(prefix, op) {
        var i :| 0 <= i < |prefix| && IsReadOf(prefix, i, op);
        assert IsReadOf(events, i, op);
        if e.EvaporationWrite? {
          assert Stale(events, op);
          SeenDepth(prefix, rate, e.op);
        } else if Stale(prefix, op) {
          StaleGrows(events, op);
        }
      } else if e.EvaporationRead? && e.op == op {
        assert IsReadOf(events, |prefix|, op);
      } else if HasRead(events, op) {
        var i :| 0 <= i < |events| && IsReadOf(events, i, op);
        assert i < |prefix|;
        assert IsReadOf(prefix, i, op);
      }
      if e.EvaporationWrite? {
        WriterHasRead(events, rate);
        SeenDepth(prefix, rate, e.op);
      }
    }
  }

  lemma WriterHasRead(events: seq<Event>, rate: real)
    requires EvaporationsOnly(events, rate) && events != [] && events[|events| - 1].EvaporationWrite?
    ensures HasRead(events[..|events| - 1], events[|events| - 1].op)
  {
    var prefix, e := events[..|events| - 1], events[|events| - 1];
    var i :| 0 <= i < |prefix| && IsReadOf(events, i, e.op);
    assert IsReadOf(prefix, i, e.op);
  }

  lemma OverlapGrows(events: seq<Event>, rate: real)
    requires EvaporationsOnly(events, rate) && events != []
    ensures var prefix, e := events[..|events| - 1], events[|events| - 1];
            NoneOverlap(events) <==> NoneOverlap(prefix) && (e.EvaporationWrite? ==> !Stale(prefix, e.op))
  {
    var prefix, e := events[..|events| - 1], events[|events| - 1];
    if NoneOverlap(events) {
      forall i, k, j | 0 <= i < k < j < |prefix| && prefix[j].EvaporationWrite? && IsReadOf(prefix, i, prefix[j].op)
        ensures !prefix[k].EvaporationWrite?
      {
        assert IsReadOf(events, i, events[j].op);
      }
      if e.EvaporationWrite? {
        forall i, k | 0 <= i < k < |prefix| && IsReadOf(prefix, i, e.op) ensures !prefix[k].EvaporationWrite? {
          assert IsReadOf(events, i, events[|prefix|].op);
        }
      }
    } else if NoneOverlap(prefix) {
      var i, k, j :| 0 <= i < k < j < |events| && events[j].EvaporationWrite? && IsReadOf(events, i, events[j].op)
        && events[k].EvaporationWrite?;
      if j < |prefix| {
        assert IsReadOf(prefix, i, prefix[j].op);
      } else {
        assert IsReadOf(prefix, i, e.op) && prefix[k].EvaporationWrite?;
      }
    }
  }

  /** Once a write has completed the field has been evaporated at least once and at most as often
      as there were writes; and exactly that often if and only if no two evaporations overlapped. */
  lemma {:induction false} DepthBounds(events: seq<Event>, rate: real)
    requires EvaporationsOnly(events, rate)
    ensures Depth(events) <= Writes(events)
    ensures Writes(events) > 0 ==> Depth(events) >= 1
    ensures Depth(events) == Writes(events) <==> NoneOverlap(events)
  {
    if events != [] {
      var prefix, e := events[..|events| - 1], events[|events| - 1];
      PrefixEvaporates(events, rate);
      DepthBounds(prefix, rate);
      OverlapGrows(events, rate);
      if e.EvaporationWrite? {
        WriterHasRead(events, rate);
        SeenDepth(prefix, rate, e.op);
      }
    }
  }

  // ------------------------------------------------------------------ the field itself

  /** The stored rows of `ids` are `rows` evaporated n times. */
  ghost predicate EvaporatedTo(server: Server, ids: seq<NodeId>, rows: seq<Row>, rate: real, flags: Flags, n: nat)
    requires |ids| == |rows|
  {
    forall i :: 0 <= i < |ids| ==> RowOf(Fetch(server, ids[i])) == EvaporateTimes(rows[i], rate, flags, n)
  }

  ghost predicate ReadAs(hashes: seq<NodeHash>, rows: seq<Row>, rate: real, flags: Flags, n: nat) {
    && |hashes| == |rows|
    && forall i :: 0 <= i < |rows| ==> RowOf(hashes[i]) == EvaporateTimes(rows[i], rate, flags, n)
  }

  /** The columns that do not decay never change, so a stale reading agrees with the store on them. */
  lemma WriteBack(current: NodeHash, read: NodeHash, row: Row, rate: real, flags: Flags, m: nat, n: nat, now: real)
    requires RowOf(read) == EvaporateTimes(row, rate, flags, n)
    requires RowOf(current) == EvaporateTimes(row, rate, flags, m)
    ensures RowOf(Evaporated(current, read, rate, flags, now)) == EvaporateTimes(row, rate, flags, n + 1)
  {
    Undecayed(row, rate, flags, m);
    Undecayed(row, rate, flags, n);
  }

  lemma {:induction false} Undecayed(row: Row, rate: real, flags: Flags, n: nat)
    ensures !flags.success ==> EvaporateTimes(row, rate, flags, n).v == row.v
    ensures !flags.capability ==> EvaporateTimes(row, rate, flags, n).c == row.c
  {
    if n > 0 { Undecayed(row, rate, flags, n - 1); }
  }

  lemma {:induction false} WriteAllEffect(
    server: Server, ids: seq<NodeId>, readings: seq<NodeHash>, rate: real, flags: Flags, now: real)
    requires Distinct(ids) && |ids| == |readings|
    ensures var after := WriteAll(server, ids, readings, rate, flags, now);
            && (forall i :: 0 <= i < |ids| ==>
                  Fetch(after, ids[i]) == Evaporated(Fetch(server, ids[i]), readings[i], rate, flags, now))
            && (forall id :: id !in ids ==> Fetch(after, id) == Fetch(server, id))
    decreases ids
  {
    if ids != [] {
      var server' := server[ids[0] := Evaporated(Fetch(server, ids[0]), readings[0], rate, flags, now)];
      WriteAllEffect(server', ids[1..], readings[1..], rate, flags, now);
      assert WriteAll(server, ids, readings, rate, flags, now)
          == WriteAll(server', ids[1..], readings[1..], rate, flags, now);
      assert ids[0] !in ids[1..];
      var after := WriteAll(server, ids, readings, rate, flags, now);
      forall i | 0 <= i < |ids|
        ensures Fetch(after, ids[i]) == Evaporated(Fetch(server, ids[i]), readings[i], rate, flags, now)
      {
        if i > 0 {
          assert ids[i] == ids[1..][i - 1] && ids[i] != ids[0];
        }
      }
    }
  }

  /** A completed write stamps every listed node with its time, and no other. */
  lemma WriteStamps(server: Server, ids: seq<NodeId>, readings: seq<NodeHash>, rate: real, flags: Flags, now: real)
    requires Distinct(ids) && |ids| == |readings|
    ensures var after := WriteAll(server, ids, readings, rate, flags, now);
            forall id :: Fetch(after, id).ts == if id in ids then Some(now) else Fetch(server, id).ts
  {
    WriteAllEffect(server, ids, readings, rate, flags, now);
    var after := WriteAll(server, ids, readings, rate, flags, now);
    forall id ensures Fetch(after, id).ts == if id in ids then Some(now) else Fetch(server, id).ts {
      if id in ids {
        var i :| 0 <= i < |ids| && ids[i] == id;
        assert Fetch(after, ids[i]) == Evaporated(Fetch(server, ids[i]), readings[i], rate, flags, now);
      }
    }
  }

  /** A removal between the two phases shifts the readings: from the removed position on, every node gets
      the latency that was read of its predecessor in the old list. */
  lemma RemovalShiftsRows(server: Server, ids: seq<NodeId>, k: nat, i: nat, rate: real, flags: Flags, now: real)
    requires Distinct(ids) && k < |ids| && i < |ids| - 1
    ensures var live, readings := Without(ids, k), ReadAll(server, ids);
            var after := WriteAll(server, live, readings, rate, flags, now);
            && live[i] == ids[if i < k then i else i + 1]
            && RowOf(Fetch(after, live[i])).l == RowOf(Fetch(server, ids[i])).l * (1.0 - rate)
  {
    hide Distinct, ScaleRow;
    var live, readings := Without(ids, k), ReadAll(server, ids);
    WithoutAt(ids, k);
    WithoutMembers(ids, k);
    ExtraReadingsUnused(server, live, readings, rate, flags, now);
    WriteAllEffect(server, live, readings[..|live|], rate, flags, now);
    var factor := 1.0 - rate;
    ScaledColumns(RowOf(readings[i]), factor, flags);
  }

  lemma {:induction false} ExtraReadingsUnused(
    server: Server, ids: seq<NodeId>, readings: seq<NodeHash>, rate: real, flags: Flags, now: real)
    requires |ids| <= |readings|
    ensures WriteAll(server, ids, readings, rate, flags, now)
            == WriteAll(server, ids, readings[..|ids|], rate, flags, now)
    decreases ids
  {
    hide Evaporated;
    if ids != [] {
      var server' := server[ids[0] := Evaporated(Fetch(server, ids[0]), readings[0], rate, flags, now)];
      ExtraReadingsUnused(server', ids[1..], readings[1..], rate, flags, now);
      assert readings[..|ids|][1..] == readings[1..][..|ids| - 1];
    }
  }

  /** Every replica that evaporates tracks the nodes `ids`. */
  ghost predicate FixedMembership(start: State, events: seq<Event>, ids: seq<NodeId>) {
    && Distinct(ids)
    && forall i :: 0 <= i < |events| && events[i].EvaporationRead? ==> ListOf(start, events[i].replica) == ids
  }

  function StoredRows(server: Server, ids: seq<NodeId>): seq<Row> {
    seq(|ids|, i requires 0 <= i < |ids| => RowOf(Fetch(server, ids[i])))
  }

  ghost predicate HasWritten(events: seq<Event>, op: int) {
    exists i :: 0 <= i < |events| && events[i].EvaporationWrite? && events[i].op == op
  }

  /** The state of a run of evaporations: lists untouched, store and readings at their depths, and
      in flight exactly the operations that have read and not written. */
  ghost predicate AtDepths(st: State, start: State, events: seq<Event>, ids: seq<NodeId>, rows: seq<Row>, cfg: Config)
    requires |ids| == |rows|
  {
    var d := DepthRun(events);
    && st.lists == start.lists
    && EvaporatedTo(st.server, ids, rows, cfg.rate, cfg.flags, d.stored)
    && (forall op :: op in d.seen && !HasWritten(events, op) ==> op in st.inFlight)
    && (forall op :: op in st.inFlight ==>
          && op in d.seen
          && ListOf(start, st.inFlight[op].replica) == ids
          && ReadAs(st.inFlight[op].hashes, rows, cfg.rate, cfg.flags, d.seen[op]))
  }

  lemma WrittenGrows(events: seq<Event>, op: int)
    requires events != []
    ensures HasWritten(events[..|events| - 1], op) ==> HasWritten(events, op)
    ensures events[|events| - 1].EvaporationWrite? && events[|events| - 1].op == op ==> HasWritten(events, op)
  {
    var prefix := events[..|events| - 1];
    if HasWritten(prefix, op) {
      var i :| 0 <= i < |prefix| && prefix[i].EvaporationWrite? && prefix[i].op == op;
      assert events[i].EvaporationWrite? && events[i].op == op;
    }
  }

  lemma ReadStep(pow: Power, st: State, start: State, events: seq<Event>, ids: seq<NodeId>, rows: seq<Row>, cfg: Config)
    requires cfg.interval != 0.0 && ValidRate(cfg.rate) && |ids| == |rows|
    requires EvaporationsOnly(events, cfg.rate) && FixedMembership(start, events, ids)
    requires events != [] && events[|events| - 1].EvaporationRead?
    requires AtDepths(st, start, events[..|events| - 1], ids, rows, cfg)
    ensures AtDepths(Step(pow, st, events[|events| - 1], cfg), start, events, ids, rows, cfg)
  {
    var prefix, e := events[..|events| - 1], events[|events| - 1];
    var st' := Step(pow, st, e, cfg);
    assert ListOf(st, e.replica) == ids;
    assert ReadAs(st'.inFlight[e.op].hashes, rows, cfg.rate, cfg.flags, DepthRun(prefix).stored);
    forall op | op in DepthRun(events).seen && !HasWritten(events, op) ensures op in st'.inFlight {
      WrittenGrows(events, op);
    }
  }

  lemma WrittenRows(
    server: Server, ids: seq<NodeId>, hashes: seq<NodeHash>, rows: seq<Row>, rate: real, flags: Flags, now: real,
    m: nat, n: nat)
    requires Distinct(ids) && |ids| == |rows|
    requires EvaporatedTo(server, ids, rows, rate, flags, m) && ReadAs(hashes, rows, rate, flags, n)
    ensures EvaporatedTo(WriteAll(server, ids, hashes, rate, flags, now), ids, rows, rate, flags, n + 1)
  {
    hide EvaporateTimes, RowOf, Evaporated, WriteAll, Distinct;
    WriteAllEffect(server, ids, hashes, rate, flags, now);
    forall i | 0 <= i < |ids|
      ensures RowOf(Fetch(WriteAll(server, ids, hashes, rate, flags, now), ids[i]))
              == EvaporateTimes(rows[i], rate, flags, n + 1)
    {
      WriteBack(Fetch(server, ids[i]), hashes[i], rows[i], rate, flags, m, n, now);
    }
  }

  lemma WriteStep(
    pow: Power, st: State, start: State, events: seq<Event>, ids: seq<NodeId>, rows: seq<Row>, cfg: Config)
    requires cfg.interval != 0.0 && ValidRate(cfg.rate) && |ids| == |rows|
    requires EvaporationsOnly(events, cfg.rate) && FixedMembership(start, events, ids)
    requires events != [] && events[|events| - 1].EvaporationWrite?
    requires AtDepths(st, start, events[..|events| - 1], ids, rows, cfg)
    ensures AtDepths(Step(pow, st, events[|events| - 1], cfg), start, events, ids, rows, cfg)
  {
    hide EvaporatedTo, ReadAs, HasWritten, HasRead, WriteAll, Distinct, Stale;
    var prefix, e := events[..|events| - 1], events[|events| - 1];
    WriterInFlight(events, cfg.rate);
    var reading, d := st.inFlight[e.op], DepthRun(prefix);
    WrittenRows(st.server, ids, reading.hashes, rows, cfg.rate, cfg.flags, e.now, d.stored, d.seen[e.op]);
    forall op | op in DepthRun(events).seen && !HasWritten(events, op)
      ensures op in d.seen && op != e.op && !HasWritten(prefix, op)
    {
      WrittenGrows(events, op);
    }
  }

  lemma WriterInFlight(events: seq<Event>, rate: real)
    requires EvaporationsOnly(events, rate) && events != [] && events[|events| - 1].EvaporationWrite?
    ensures var prefix, e := events[..|events| - 1], events[|events| - 1];
            e.op in DepthRun(prefix).seen && !HasWritten(prefix, e.op)
  {
    var prefix, e := events[..|events| - 1], events[|events| - 1];
    PrefixEvaporates(events, rate);
    WriterHasRead(events, rate);
    SeenDepth(prefix, rate, e.op);
  }

  lemma {:induction false} RunAtDepths(pow: Power, start: State, events: seq<Event>, ids: seq<NodeId>, cfg: Config)
    requires cfg.interval != 0.0 && ValidRate(cfg.rate) && start.inFlight == map[]
    requires EvaporationsOnly(events, cfg.rate) && FixedMembership(start, events, ids)
    ensures AtDepths(Run(pow, start, events, cfg), start, events, ids, StoredRows(start.server, ids), cfg)
  {
    if events != [] {
      var prefix := events[..|events| - 1];
      PrefixEvaporates(events, cfg.rate);
      RunAtDepths(pow, start, prefix, ids, cfg);
      if events[|events| - 1].EvaporationRead? {
        ReadStep(pow, Run(pow, start, prefix, cfg), start, events, ids, StoredRows(start.server, ids), cfg);
      } else {
        WriteStep(pow, Run(pow, start, prefix, cfg), start, events, ids, StoredRows(start.server, ids), cfg);
      }
    }
  }

  /** The rows of `ids` scaled by one factor. */
  ghost predicate ScaledFrom(server: Server, start: Server, ids: seq<NodeId>, factor: real, flags: Flags) {
    forall i :: 0 <= i < |ids| ==>
      RowOf(Fetch(server, ids[i])) == ScaleRow(RowOf(Fetch(start, ids[i])), factor, flags)
  }

  lemma ScaledByPower(server: Server, start: Server, ids: seq<NodeId>, rate: real, flags: Flags, n: nat)
    requires EvaporatedTo(server, ids, StoredRows(start, ids), rate, flags, n)
    ensures ScaledFrom(server, start, ids, Pow(1.0 - rate, n), flags)
  {
    var factor := Pow(1.0 - rate, n);
    forall i | 0 <= i < |ids|
      ensures RowOf(Fetch(server, ids[i])) == ScaleRow(RowOf(Fetch(start, ids[i])), factor, flags)
    {
      EvaporateTimesIsPower(StoredRows(start, ids)[i], rate, flags, n);
    }
  }

  lemma StoredAtDepth(pow: Power, start: State, events: seq<Event>, ids: seq<NodeId>, cfg: Config)
    requires cfg.interval != 0.0 && ValidRate(cfg.rate) && start.inFlight == map[]
    requires EvaporationsOnly(events, cfg.rate) && FixedMembership(start, events, ids)
    ensures EvaporatedTo(Run(pow, start, events, cfg).server, ids, StoredRows(start.server, ids), cfg.rate, cfg.flags,
                         Depth(events))
  {
    RunAtDepths(pow, start, events, ids, cfg);
  }

  /** Main result.  After any interleaving of evaporations, every stored row is its first value
      evaporated j times: each decaying column is x0 (1 - d)^j.  One j serves the whole field; it is
      at least 1 once a write has completed, at most the number of completed writes, and equal to it
      if and only if no two evaporations overlapped. */
  lemma InterleavedEvaporations(pow: Power, start: State, events: seq<Event>, ids: seq<NodeId>, cfg: Config)
    requires cfg.interval != 0.0 && ValidRate(cfg.rate) && start.inFlight == map[]
    requires EvaporationsOnly(events, cfg.rate) && FixedMembership(start, events, ids)
    ensures var j, writes := Depth(events), Writes(events);
            && j <= writes && (writes > 0 ==> j >= 1) && (j == writes <==> NoneOverlap(events))
            && ScaledFrom(Run(pow, start, events, cfg).server, start.server, ids, Pow(1.0 - cfg.rate, j), cfg.flags)
  {
    StoredAtDepth(pow, start, events, ids, cfg);
    DepthBounds(events, cfg.rate);
    ScaledByPower(Run(pow, start, events, cfg).server, start.server, ids, cfg.rate, cfg.flags, Depth(events));
  }
}
