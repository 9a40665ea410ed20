/** Deposits that interleave with two-phase evaporations.  A write puts back what its read saw, so the
    decaying columns of a node forget every deposit in between; the history of a row says which effects
    are left in it. */
module LostDeposits {
  import opened RealMath
  import opened Traces
  import opened FieldValue
  import opened RedisField
  import opened OverlappingEvaporation

  /** What a deposit, with its lazy decay factor, or a write does to a row. */
  datatype Effect = Deposited(factor: real, x: Sample) | Decayed

  /** The effect of the event at position `at`. */
  datatype Mark = Mark(at: nat, effect: Effect)

  /** The marks left in the decaying columns of the stored row and of what each evaporation in flight has
      read; all deposits on the node; and the time of the latest write to it. */
  datatype History = History(stored: seq<Mark>, seen: map<int, seq<Mark>>, deposits: seq<Mark>, stamp: real)

  /** The history of a node last written at `first`, from the events alone. */
  function HistoryOf(pow: Power, first: real, events: seq<Event>, id: NodeId, cfg: Config): History
    requires cfg.interval != 0.0
  {
    if events == [] then History([], map[], [], first)
    else
      var n := |events| - 1;
      Extended(pow, HistoryOf(pow, first, events[..n], id, cfg), n, events[n], id, cfg)
  }

  function Extended(pow: Power, h: History, n: nat, e: Event, id: NodeId, cfg: Config): History
    requires cfg.interval != 0.0
  {
    match e
    case Deposit(_, target, x, now) =>
      if target == id
      then
        var m := Mark(n, Deposited(pow(1.0 - cfg.rate, Elapsed(h.stamp, now) / cfg.interval), x));
        h.(stored := h.stored + [m], deposits := h.deposits + [m], stamp := now)
      else h
    case EvaporationRead(op, _, _) => h.(seen := h.seen[op := h.stored])
    case EvaporationWrite(op, _, now) =>
      if op in h.seen
      then h.(stored := h.seen[op] + [Mark(n, Decayed)], seen := h.seen - {op}, stamp := now) else h
    case _ => h
  }

  /** The effects, one after the other. */
  function Replay(row: Row, marks: seq<Mark>, cfg: Config): Row {
    if marks == [] then row
    else
      Applied(Replay(row, marks[..|marks| - 1], cfg), marks[|marks| - 1].effect, cfg)
  }

  function Applied(row: Row, e: Effect, cfg: Config): Row {
    match e
    case Deposited(factor, x) => DepositRow(ScaleRow(row, factor, cfg.flags), x, cfg.scale)
    case Decayed => EvaporateRow(row, cfg.rate, cfg.flags)
  }

  /** Deposits and evaporations of one rate, by replicas that all track `ids`. */
  ghost predicate DepositsAndEvaporations(start: State, events: seq<Event>, ids: seq<NodeId>, rate: real) {
    forall i :: 0 <= i < |events| ==>
      match events[i]
      case Deposit(replica, _, _, _) => ListOf(start, replica) == ids
      case EvaporationRead(_, replica, r) => r == rate && ListOf(start, replica) == ids
      case EvaporationWrite(_, r, _) => r == rate
      case _ => false
  }

  // ------------------------------------------------------------------ what the row is

  /** On the columns that evaporate, r is the replay of the marks. */
  ghost predicate DecayingBy(r: Row, base: Row, marks: seq<Mark>, cfg: Config) {
    var q := Replay(base, marks, cfg);
    && r.l == q.l && r.s == q.s
    && (cfg.flags.success ==> r.v == q.v) && (cfg.flags.capability ==> r.c == q.c)
  }

  /** On the columns that do not, r is the replay of all deposits. */
  ghost predicate LastingBy(r: Row, base: Row, deposits: seq<Mark>, cfg: Config) {
    var q := Replay(base, deposits, cfg);
    (!cfg.flags.success ==> r.v == q.v) && (!cfg.flags.capability ==> r.c == q.c)
  }

  lemma ReplayOneMore(base: Row, marks: seq<Mark>, m: Mark, cfg: Config)
    ensures Replay(base, marks + [m], cfg) == Applied(Replay(base, marks, cfg), m.effect, cfg)
  {
    hide Applied;
    assert (marks + [m])[..|marks|] == marks;
  }

  lemma DepositKeepsHistory(
    r: Row, base: Row, marks: seq<Mark>, deposits: seq<Mark>, n: nat, factor: real, x: Sample, cfg: Config)
    requires DecayingBy(r, base, marks, cfg) && LastingBy(r, base, deposits, cfg)
    ensures var r', m := DepositRow(ScaleRow(r, factor, cfg.flags), x, cfg.scale), Mark(n, Deposited(factor, x));
            DecayingBy(r', base, marks + [m], cfg) && LastingBy(r', base, deposits + [m], cfg)
  {
    hide Replay, ScaleRow;
    var m := Mark(n, Deposited(factor, x));
    ReplayOneMore(base, marks, m, cfg);
    ReplayOneMore(base, deposits, m, cfg);
    ScaledColumns(r, factor, cfg.flags);
    ScaledColumns(Replay(base, marks, cfg), factor, cfg.flags);
    ScaledColumns(Replay(base, deposits, cfg), factor, cfg.flags);
  }

  lemma WriteKeepsHistory(
    current: NodeHash, read: NodeHash, base: Row, marks: seq<Mark>, deposits: seq<Mark>, n: nat, now: real, cfg: Config)
    requires DecayingBy(RowOf(read), base, marks, cfg) && LastingBy(RowOf(current), base, deposits, cfg)
    ensures var r' := RowOf(Evaporated(current, read, cfg.rate, cfg.flags, now));
            DecayingBy(r', base, marks + [Mark(n, Decayed)], cfg) && LastingBy(r', base, deposits, cfg)
  {
    hide Replay, ScaleRow;
    ReplayOneMore(base, marks, Mark(n, Decayed), cfg);
    var factor := 1.0 - cfg.rate;
    ScaledColumns(RowOf(read), factor, cfg.flags);
    ScaledColumns(Replay(base, marks, cfg), factor, cfg.flags);
  }

  /** State and history of the node at position p of `ids` fit together. */
  ghost predicate Tracks(st: State, start: State, h: History, ids: seq<NodeId>, p: nat, base: Row, cfg: Config)
    requires p < |ids|
  {
    && st.lists == start.lists && st.inFlight.Keys == h.seen.Keys
    && Or(Fetch(st.server, ids[p]).ts, 0.0) == h.stamp
    && DecayingBy(RowOf(Fetch(st.server, ids[p])), base, h.stored, cfg)
    && LastingBy(RowOf(Fetch(st.server, ids[p])), base, h.deposits, cfg)
    && forall op :: op in st.inFlight ==> TracksReading(st.inFlight[op], start, h.seen[op], ids, p, base, cfg)
  }

  ghost predicate TracksReading(
    reading: Reading, start: State, marks: seq<Mark>, ids: seq<NodeId>, p: nat, base: Row, cfg: Config)
    requires p < |ids|
  {
    && ListOf(start, reading.replica) == ids && |reading.hashes| == |ids|
    && DecayingBy(RowOf(reading.hashes[p]), base, marks, cfg)
  }

  lemma TracksDeposit(
    pow: Power, st: State, start: State, h: History, n: nat, e: Event, ids: seq<NodeId>, p: nat, base: Row, cfg: Config)
    requires PowLaws(pow) && ProperConfig(cfg) && p < |ids| && e.Deposit? && ListOf(start, e.replica) == ids
    requires Tracks(st, start, h, ids, p, base, cfg)
    ensures Tracks(Step(pow, st, e, cfg), start, Extended(pow, h, n, e, ids[p], cfg), ids, p, base, cfg)
  {
    hide PowLaws, DecayingBy, LastingBy, TracksReading, ScaleRow, DepositRow, Steps;
    assert ListOf(st, e.replica) == ids && ids[p] in ids;
    if e.id == ids[p] {
      var hash := Fetch(st.server, ids[p]);
      var factor := pow(1.0 - cfg.rate, Elapsed(h.stamp, e.now) / cfg.interval);
      DepositKeepsHistory(RowOf(hash), base, h.stored, h.deposits, n, factor, e.x, cfg);
      ScriptRow(pow, hash, e.x, e.now, cfg);
      assert Fetch(Step(pow, st, e, cfg).server, ids[p]) == DepositScript(pow, hash, e.x, e.now, cfg);
    } else {
      assert Fetch(Step(pow, st, e, cfg).server, ids[p]) == Fetch(st.server, ids[p]);
    }
  }

  lemma TracksRead(
    pow: Power, st: State, start: State, h: History, n: nat, e: Event, ids: seq<NodeId>, p: nat, base: Row, cfg: Config)
    requires cfg.interval != 0.0 && ValidRate(cfg.rate) && p < |ids|
    requires e.EvaporationRead? && e.rate == cfg.rate && ListOf(start, e.replica) == ids
    requires Tracks(st, start, h, ids, p, base, cfg)
    ensures Tracks(Step(pow, st, e, cfg), start, Extended(pow, h, n, e, ids[p], cfg), ids, p, base, cfg)
  {
    hide DecayingBy, LastingBy, RowOf;
    var st' := Step(pow, st, e, cfg);
    assert ListOf(st, e.replica) == ids;
    assert st'.inFlight == st.inFlight[e.op := Reading(e.replica, ReadAll(st.server, ids))];
  }

  lemma TracksWrite(
    pow: Power, st: State, start: State, h: History, n: nat, e: Event, ids: seq<NodeId>, p: nat, base: Row, cfg: Config)
    requires cfg.interval != 0.0 && ValidRate(cfg.rate) && p < |ids| && Distinct(ids)
    requires e.EvaporationWrite? && e.rate == cfg.rate
    requires Tracks(st, start, h, ids, p, base, cfg)
    ensures Tracks(Step(pow, st, e, cfg), start, Extended(pow, h, n, e, ids[p], cfg), ids, p, base, cfg)
  {
    hide DecayingBy, LastingBy, RowOf, Evaporated, WriteAll, Distinct;
    if e.op in st.inFlight {
      var reading := st.inFlight[e.op];
      assert TracksReading(reading, start, h.seen[e.op], ids, p, base, cfg);
      WriteAllEffect(st.server, ids, reading.hashes, cfg.rate, cfg.flags, e.now);
      WriteStamps(st.server, ids, reading.hashes, cfg.rate, cfg.flags, e.now);
      WriteKeepsHistory(Fetch(st.server, ids[p]), reading.hashes[p], base, h.seen[e.op], h.deposits, n, e.now, cfg);
      assert ListOf(st, reading.replica) == ids;
    }
  }

  lemma PrefixOfRun(start: State, events: seq<Event>, ids: seq<NodeId>, rate: real)
    requires DepositsAndEvaporations(start, events, ids, rate) && events != []
    ensures DepositsAndEvaporations(start, events[..|events| - 1], ids, rate)
  {
  }

  lemma {:induction false} RunTracks(
    pow: Power, start: State, events: seq<Event>, ids: seq<NodeId>, p: nat, cfg: Config)
    requires PowLaws(pow) && ProperConfig(cfg) && Distinct(ids) && p < |ids| && start.inFlight == map[]
    requires DepositsAndEvaporations(start, events, ids, cfg.rate)
    ensures var first := Or(Fetch(start.server, ids[p]).ts, 0.0);
            Tracks(Run(pow, start, events, cfg), start, HistoryOf(pow, first, events, ids[p], cfg), ids, p,
                   RowOf(Fetch(start.server, ids[p])), cfg)
  {
    hide PowLaws, Distinct, Step, Extended, RowOf;
    var first := Or(Fetch(start.server, ids[p]).ts, 0.0);
    if events == [] {
      StartTracks(start, ids, p, cfg);
    } else {
      hide Tracks;
      var n, e := |events| - 1, events[|events| - 1];
      var st, h := Run(pow, start, events[..n], cfg), HistoryOf(pow, first, events[..n], ids[p], cfg);
      var base := RowOf(Fetch(start.server, ids[p]));
      PrefixOfRun(start, events, ids, cfg.rate);
      RunTracks(pow, start, events[..n], ids, p, cfg);
      match e
      case Deposit(_, _, _, _) => TracksDeposit(pow, st, start, h, n, e, ids, p, base, cfg);
      case EvaporationRead(_, _, _) => TracksRead(pow, st, start, h, n, e, ids, p, base, cfg);
      case EvaporationWrite(_, _, _) => TracksWrite(pow, st, start, h, n, e, ids, p, base, cfg);
    }
  }

  lemma StartTracks(start: State, ids: seq<NodeId>, p: nat, cfg: Config)
    requires p < |ids| && start.inFlight == map[]
    ensures var h := Fetch(start.server, ids[p]);
            Tracks(start, start, History([], map[], [], Or(h.ts, 0.0)), ids, p, RowOf(h), cfg)
  {
  }

  /** Main result.  After any interleaving of deposits and two-phase evaporations, the decaying columns of
      a stored row are its first value with the effects left in its history, in order, and the others are
      its first value with all deposits.  The history, lazy decay included, is a function of the events:
      a deposit decays by the time since the latest deposit or write. */
  lemma RowIsItsHistory(pow: Power, start: State, events: seq<Event>, ids: seq<NodeId>, p: nat, cfg: Config)
    requires PowLaws(pow) && ProperConfig(cfg) && Distinct(ids) && p < |ids| && start.inFlight == map[]
    requires DepositsAndEvaporations(start, events, ids, cfg.rate)
    ensures var h := HistoryOf(pow, Or(Fetch(start.server, ids[p]).ts, 0.0), events, ids[p], cfg);
            var base := RowOf(Fetch(start.server, ids[p]));
            var hash := Fetch(Run(pow, start, events, cfg).server, ids[p]);
            var row, left, all := RowOf(hash), Replay(base, h.stored, cfg), Replay(base, h.deposits, cfg);
            && Or(hash.ts, 0.0) == h.stamp
            && row.l == left.l && row.s == left.s
            && row.v == (if cfg.flags.success then left.v else all.v)
            && row.c == (if cfg.flags.capability then left.c else all.c)
  {
    hide PowLaws, Replay, Run, HistoryOf, DepositsAndEvaporations, RowOf;
    RunTracks(pow, start, events, ids, p, cfg);
  }

  // ------------------------------------------------------------------ which deposits are left

  /** The effect of event k is left in the history. */
  ghost predicate Marked(marks: seq<Mark>, k: nat) {
    exists m :: m in marks && m.at == k
  }

  /** Some evaporation reads before event k and writes after it. */
  ghost predicate Straddled(events: seq<Event>, k: nat) {
    exists i, j :: 0 <= i < k < j < |events| && events[j].EvaporationWrite? && IsReadOf(events, i, events[j].op)
  }

  lemma PrefixOneCallEach(events: seq<Event>, n: nat)
    requires OneCallEach(events) && n <= |events|
    ensures OneCallEach(events[..n])
  {
    var prefix := events[..n];
    forall j | 0 <= j < n && prefix[j].EvaporationWrite?
      ensures exists i :: 0 <= i < j && IsReadOf(prefix, i, prefix[j].op)
    {
      var i :| 0 <= i < j && IsReadOf(events, i, events[j].op);
      assert IsReadOf(prefix, i, prefix[j].op);
    }
  }

  /** What an operation in flight has seen is the history at its read. */
  lemma {:induction false} SeenAtRead(pow: Power, first: real, events: seq<Event>, i: nat, id: NodeId, cfg: Config)
    requires cfg.interval != 0.0 && i < |events| && events[i].EvaporationRead?
    requires forall k :: i < k < |events| && (events[k].EvaporationRead? || events[k].EvaporationWrite?) ==>
               events[k].op != events[i].op
    ensures var h := HistoryOf(pow, first, events, id, cfg);
            events[i].op in h.seen && h.seen[events[i].op] == HistoryOf(pow, first, events[..i], id, cfg).stored
  {
    var n := |events| - 1;
    if i < n {
      SeenAtRead(pow, first, events[..n], i, id, cfg);
      assert events[..n][..i] == events[..i];
    }
  }

  /** A write puts the history back to where its read found it, and adds one evaporation. */
  lemma WriteRestores(pow: Power, first: real, events: seq<Event>, i: nat, id: NodeId, cfg: Config)
    requires cfg.interval != 0.0 && OneCallEach(events) && i < |events| - 1
    requires events[|events| - 1].EvaporationWrite? && IsReadOf(events, i, events[|events| - 1].op)
    ensures HistoryOf(pow, first, events, id, cfg).stored
            == HistoryOf(pow, first, events[..i], id, cfg).stored + [Mark(|events| - 1, Decayed)]
  {
    var n := |events| - 1;
    assert events[..n][..i] == events[..i];
    SeenAtRead(pow, first, events[..n], i, id, cfg);
  }

  lemma {:induction false} OnlyThePast(pow: Power, first: real, events: seq<Event>, id: NodeId, cfg: Config)
    requires cfg.interval != 0.0
    ensures var h := HistoryOf(pow, first, events, id, cfg);
            && (forall m :: m in h.stored ==> m.at < |events|)
            && (forall op, m :: op in h.seen && m in h.seen[op] ==> m.at < |events|)
  {
    if events != [] {
      OnlyThePast(pow, first, events[..|events| - 1], id, cfg);
    }
  }

  lemma MarkedOneMore(marks: seq<Mark>, m: Mark, k: nat)
    ensures Marked(marks + [m], k) <==> Marked(marks, k) || m.at == k
  {
    if Marked(marks, k) {
      var x :| x in marks && x.at == k;
      assert x in marks + [m];
    }
    if m.at == k { assert m in marks + [m]; }
  }

  /** An event that is no write leaves the marks there are. */
  lemma OthersAppend(pow: Power, first: real, events: seq<Event>, id: NodeId, cfg: Config, k: nat)
    requires cfg.interval != 0.0 && events != [] && !events[|events| - 1].EvaporationWrite? && k < |events| - 1
    ensures Marked(HistoryOf(pow, first, events, id, cfg).stored, k)
            <==> Marked(HistoryOf(pow, first, events[..|events| - 1], id, cfg).stored, k)
  {
    hide Marked;
    var n := |events| - 1;
    var before := HistoryOf(pow, first, events[..n], id, cfg).stored;
    var after := HistoryOf(pow, first, events, id, cfg).stored;
    if after != before {
      MarkedOneMore(before, after[|after| - 1], k);
    }
  }

  ghost predicate DepositOn(events: seq<Event>, k: nat, id: NodeId) {
    k < |events| && events[k].Deposit? && events[k].id == id
  }

  lemma JustDeposited(pow: Power, first: real, events: seq<Event>, id: NodeId, cfg: Config)
    requires cfg.interval != 0.0 && events != [] && DepositOn(events, |events| - 1, id)
    ensures Marked(HistoryOf(pow, first, events, id, cfg).stored, |events| - 1)
  {
    var marks := HistoryOf(pow, first, events, id, cfg).stored;
    assert marks[|marks| - 1].at == |events| - 1;
  }

  lemma PrefixNotStraddled(events: seq<Event>, n: nat, k: nat)
    requires n <= |events| && Straddled(events[..n], k)
    ensures Straddled(events, k)
  {
    var i, j :| 0 <= i < k < j < n && events[..n][j].EvaporationWrite? && IsReadOf(events[..n], i, events[..n][j].op);
    assert IsReadOf(events, i, events[j].op);
  }

  /** A deposit that no evaporation straddles is left in the row, however the evaporations overlap. */
  lemma {:induction false} UnstraddledDepositLasts(
    pow: Power, first: real, events: seq<Event>, k: nat, id: NodeId, cfg: Config)
    requires cfg.interval != 0.0 && OneCallEach(events) && DepositOn(events, k, id) && !Straddled(events, k)
    ensures Marked(HistoryOf(pow, first, events, id, cfg).stored, k)
    decreases |events|, 0
  {
    hide HistoryOf, Marked, Straddled, OneCallEach;
    var n := |events| - 1;
    if n == k {
      JustDeposited(pow, first, events, id, cfg);
    } else if events[n].EvaporationWrite? {
      var i := ReadBefore(events, n);
      assert i > k by { StraddledBy(events, i, n, k); }
      WriteRestores(pow, first, events, i, id, cfg);
      EarlierLasts(pow, first, events, i, k, id, cfg);
      MarkedOneMore(HistoryOf(pow, first, events[..i], id, cfg).stored, Mark(n, Decayed), k);
    } else {
      EarlierLasts(pow, first, events, n, k, id, cfg);
      OthersAppend(pow, first, events, id, cfg, k);
    }
  }

  lemma EarlierLasts(pow: Power, first: real, events: seq<Event>, n: nat, k: nat, id: NodeId, cfg: Config)
    requires cfg.interval != 0.0 && OneCallEach(events) && DepositOn(events, k, id) && !Straddled(events, k)
    requires k < n < |events|
    ensures Marked(HistoryOf(pow, first, events[..n], id, cfg).stored, k)
    decreases n, 1
  {
    hide HistoryOf, Marked, OneCallEach;
    PrefixOneCallEach(events, n);
    if Straddled(events[..n], k) { PrefixNotStraddled(events, n, k); }
    UnstraddledDepositLasts(pow, first, events[..n], k, id, cfg);
  }

  lemma ReadBefore(events: seq<Event>, j: nat) returns (i: nat)
    requires OneCallEach(events) && j < |events| && events[j].EvaporationWrite?
    ensures i < j && IsReadOf(events, i, events[j].op)
  {
    i :| 0 <= i < j && IsReadOf(events, i, events[j].op);
  }

  lemma StraddledBy(events: seq<Event>, i: nat, j: nat, k: nat)
    requires k < j < |events| && i < j && events[j].EvaporationWrite? && IsReadOf(events, i, events[j].op)
    requires events[k].Deposit?
    ensures i < k ==> Straddled(events, k)
    ensures i != k
  {
  }

  /** Among evaporations that do not overlap each other, a straddled deposit is gone for good. */
  lemma {:induction false} StraddledDepositIsLost(
    pow: Power, first: real, events: seq<Event>, k: nat, id: NodeId, cfg: Config)
    requires cfg.interval != 0.0 && OneCallEach(events) && NoneOverlap(events)
    requires DepositOn(events, k, id) && Straddled(events, k)
    ensures !Marked(HistoryOf(pow, first, events, id, cfg).stored, k)
    decreases |events|, 0
  {
    hide HistoryOf, OneCallEach;
    var n := |events| - 1;
    var i, j :| 0 <= i < k < j < |events| && events[j].EvaporationWrite? && IsReadOf(events, i, events[j].op);
    if events[n].EvaporationWrite? {
      var r := ReadBefore(events, n);
      WriteRestores(pow, first, events, r, id, cfg);
      OnlyThePast(pow, first, events[..r], id, cfg);
      if r > k {
        ReadOnce(events, i, r, j, n);
        assert j < r;
        EarlierLost(pow, first, events, r, i, j, k, id, cfg);
      }
    } else {
      EarlierLost(pow, first, events, n, i, j, k, id, cfg);
      OthersAppend(pow, first, events, id, cfg, k);
    }
  }

  /** Two reads of one operation are one. */
  lemma ReadOnce(events: seq<Event>, i: nat, r: nat, j: nat, n: nat)
    requires OneCallEach(events) && i < r < |events| && j <= n < |events|
    requires events[j].EvaporationWrite? && events[n].EvaporationWrite?
    requires IsReadOf(events, i, events[j].op) && IsReadOf(events, r, events[n].op)
    ensures j < n
  {
  }

  lemma EarlierLost(
    pow: Power, first: real, events: seq<Event>, n: nat, i: nat, j: nat, k: nat, id: NodeId, cfg: Config)
    requires cfg.interval != 0.0 && OneCallEach(events) && NoneOverlap(events) && DepositOn(events, k, id)
    requires i < k < j < |events| && events[j].EvaporationWrite? && IsReadOf(events, i, events[j].op)
    requires j < n < |events|
    ensures !Marked(HistoryOf(pow, first, events[..n], id, cfg).stored, k)
    decreases n, 1
  {
    hide HistoryOf, Marked;
    PrefixOneCallEach(events, n);
    var prefix := events[..n];
    assert IsReadOf(prefix, i, prefix[j].op);
    forall a, b, c | 0 <= a < b < c < n && prefix[c].EvaporationWrite? && IsReadOf(prefix, a, prefix[c].op)
      ensures !prefix[b].EvaporationWrite?
    {
      assert IsReadOf(events, a, events[c].op);
    }
    StraddledDepositIsLost(pow, first, prefix, k, id, cfg);
  }

  /** Main result.  When evaporations do not overlap each other, a deposit is left in the decaying columns
      if and only if no evaporation reads before it and writes after it. */
  lemma DepositLastsIff(pow: Power, first: real, events: seq<Event>, k: nat, id: NodeId, cfg: Config)
    requires cfg.interval != 0.0 && OneCallEach(events) && NoneOverlap(events) && DepositOn(events, k, id)
    ensures Marked(HistoryOf(pow, first, events, id, cfg).stored, k) <==> !Straddled(events, k)
  {
    hide HistoryOf, Marked, OneCallEach, NoneOverlap;
    if Straddled(events, k) {
      StraddledDepositIsLost(pow, first, events, k, id, cfg);
    } else {
      UnstraddledDepositLasts(pow, first, events, k, id, cfg);
    }
  }

  /** So it happens: with both flags on, read, deposit, write leaves the evaporated row from before the
      deposit. */
  lemma DepositErased(
    pow: Power, start: State, id: NodeId, replica: int, other: int, x: Sample, now: real, later: real, cfg: Config)
    requires cfg.interval != 0.0 && ValidRate(cfg.rate) && cfg.flags == Flags(true, true)
    requires ListOf(start, replica) == [id] && ListOf(start, other) == [id] && start.inFlight == map[]
    ensures var reading := Step(pow, start, EvaporationRead(0, replica, cfg.rate), cfg);
            var deposited := Step(pow, reading, Event.Deposit(other, id, x, now), cfg);
            var written := Step(pow, deposited, EvaporationWrite(0, cfg.rate, later), cfg);
            RowOf(Fetch(written.server, id)) == EvaporateRow(RowOf(Fetch(start.server, id)), cfg.rate, cfg.flags)
  {
    hide EvaporateRow, DepositScript;
    var reading := Step(pow, start, EvaporationRead(0, replica, cfg.rate), cfg);
    var deposited := Step(pow, reading, Event.Deposit(other, id, x, now), cfg);
    assert deposited.inFlight[0] == Reading(replica, ReadAll(start.server, [id]));
    WriteAllEffect(deposited.server, [id], ReadAll(start.server, [id]), cfg.rate, cfg.flags, later);
    WrittenBack(Fetch(deposited.server, id), Fetch(start.server, id), cfg.rate, later);
    assert [id][0] == id;
  }

  lemma WrittenBack(current: NodeHash, read: NodeHash, rate: real, now: real)
    ensures RowOf(Evaporated(current, read, rate, Flags(true, true), now))
            == EvaporateRow(RowOf(read), rate, Flags(true, true))
  {
  }
}
