/** Worker registration, heartbeats with a time to live, and pruning. */
module Registry {
  import opened Traces
  import opened FieldValue
  import opened InMemory

  datatype Info = Info(tags: seq<string>, lastHeartbeat: int)

  /** The registry with the field it feeds and the heartbeat keys of the Redis server; `beats` maps a
      node to the expiry time of its key.  Redis drops a key once its clock is past that time. */
  datatype Registered = Registered(field: Field, known: map<NodeId, Info>, beats: map<NodeId, int>)

  predicate Alive(beats: map<NodeId, int>, id: NodeId, now: int) {
    id in beats && now <= beats[id]
  }

  function Register(r: Registered, id: NodeId, tags: seq<string>, now: int, ttl: int): Registered {
    Registered(AddNode(r.field, id), r.known[id := Info(tags, now)], r.beats[id := now + ttl])
  }

  function Heartbeat(r: Registered, id: NodeId, now: int, ttl: int): Registered {
    if id in r.known
    then r.(known := r.known[id := r.known[id].(lastHeartbeat := now)], beats := r.beats[id := now + ttl])
    else r
  }

  /** One iteration of a scan: a known node whose key is gone gets the failure deposit and is
      forgotten. */
  function Probe(r: Registered, id: NodeId, now: int, scale: real): Registered
    requires Shaped(r.field)
  {
    if id in r.known && id in r.field.ids && !Alive(r.beats, id, now)
    then r.(field := DepositAt(r.field, id, FAILURE, scale), known := r.known - {id})
    else r
  }

  // ------------------------------------------------------------------ runs

  datatype Event =
    | Registers(id: NodeId, tags: seq<string>, now: int)
    | Beats(id: NodeId, now: int)
    | Probes(id: NodeId, now: int)

  function Step(r: Registered, e: Event, ttl: int, scale: real): (r': Registered)
    requires Shaped(r.field)
    ensures Shaped(r'.field)
  {
    match e
    case Registers(id, tags, now) => Register(r, id, tags, now, ttl)
    case Beats(id, now) => Heartbeat(r, id, now, ttl)
    case Probes(id, now) => Probe(r, id, now, scale)
  }

  function Run(r: Registered, events: seq<Event>, ttl: int, scale: real): (r': Registered)
    requires Shaped(r.field)
    ensures Shaped(r'.field)
  {
    if events == [] then r
    else Step(Run(r, events[..|events| - 1], ttl, scale), events[|events| - 1], ttl, scale)
  }

  /** Known nodes are nodes of the field, and no node has two rows. */
  ghost predicate Sound(r: Registered) {
    Shaped(r.field) && Distinct(r.field.ids) && forall id :: id in r.known ==> id in r.field.ids
  }

  lemma {:induction false} KnownNodesAreFieldNodes(r: Registered, events: seq<Event>, ttl: int, scale: real)
    requires Sound(r)
    ensures Sound(Run(r, events, ttl, scale))
  {
    if events != [] {
      KnownNodesAreFieldNodes(r, events[..|events| - 1], ttl, scale);
    }
  }

  ghost predicate IsBeat(e: Event, id: NodeId) {
    !e.Probes? && e.id == id
  }

  ghost predicate ClockForward(events: seq<Event>) {
    forall i, j :: 0 <= i < j < |events| ==> events[i].now <= events[j].now
  }

  /** Every probe of the node comes less than `ttl` after some earlier beat of it. */
  ghost predicate WithinTtl(events: seq<Event>, id: NodeId, ttl: int) {
    forall k :: 0 <= k < |events| && events[k] == Probes(id, events[k].now) ==>
      exists j :: 0 <= j < k && IsBeat(events[j], id) && events[k].now < events[j].now + ttl
  }

  lemma PrefixWithinTtl(events: seq<Event>, id: NodeId, ttl: int)
    requires WithinTtl(events, id, ttl) && events != []
    ensures WithinTtl(events[..|events| - 1], id, ttl)
  {
    var prefix := events[..|events| - 1];
    forall k | 0 <= k < |prefix| && prefix[k] == Probes(id, prefix[k].now)
      ensures exists j :: 0 <= j < k && IsBeat(prefix[j], id) && prefix[k].now < prefix[j].now + ttl
    {
      assert events[k] == Probes(id, events[k].now);
      var j :| 0 <= j < k && IsBeat(events[j], id) && events[k].now < events[j].now + ttl;
      assert IsBeat(prefix[j], id);
    }
  }

  /** Consecutive beats of the node less than `ttl` apart, from the first event to the last. */
  ghost predicate BeatsOften(events: seq<Event>, id: NodeId, ttl: int) {
    && events != [] && IsBeat(events[0], id) && IsBeat(events[|events| - 1], id)
    && forall i :: 0 <= i < |events| - 1 && IsBeat(events[i], id) ==>
         exists j :: i < j < |events| && IsBeat(events[j], id) && events[j].now < events[i].now + ttl
                     && forall k :: i < k < j ==> !IsBeat(events[k], id)
  }

  lemma {:induction false} LastBeatBefore(events: seq<Event>, id: NodeId, k: nat) returns (i: nat)
    requires events != [] && IsBeat(events[0], id) && 0 < k < |events|
    ensures i < k && IsBeat(events[i], id) && forall m :: i < m < k ==> !IsBeat(events[m], id)
  {
    i := k - 1;
    while !IsBeat(events[i], id)
      invariant i < k && forall m :: i < m < k ==> !IsBeat(events[m], id)
      decreases i
    {
      i := i - 1;
    }
  }

  /** The node's key outlives each of its beats by `ttl`. */
  ghost predicate KeyOutlives(r: Registered, events: seq<Event>, id: NodeId, ttl: int) {
    forall j :: 0 <= j < |events| && IsBeat(events[j], id) ==> id in r.beats && r.beats[id] >= events[j].now + ttl
  }

  lemma KeyOutlivesStep(r: Registered, events: seq<Event>, id: NodeId, ttl: int, scale: real)
    requires Shaped(r.field) && id in r.known && events != [] && ClockForward(events)
    requires KeyOutlives(r, events[..|events| - 1], id, ttl)
    ensures KeyOutlives(Step(r, events[|events| - 1], ttl, scale), events, id, ttl)
  {
    var prefix, e := events[..|events| - 1], events[|events| - 1];
    forall j | 0 <= j < |events| && IsBeat(events[j], id)
      ensures id in Step(r, e, ttl, scale).beats && Step(r, e, ttl, scale).beats[id] >= events[j].now + ttl
    {
      if j < |prefix| {
        assert IsBeat(prefix[j], id);
      }
    }
  }

  /** An event that does not prune the node keeps it known and leaves its row alone. */
  lemma StepKeeps(r: Registered, e: Event, id: NodeId, ttl: int, scale: real)
    requires Sound(r) && id in r.known
    requires e.Probes? && e.id == id ==> Alive(r.beats, id, e.now)
    ensures var r' := Step(r, e, ttl, scale);
            id in r'.known && id in r'.field.ids && RowFor(r'.field, id) == RowFor(r.field, id)
  {
    if e.Registers? && e.id !in r.field.ids {
      assert AddNode(r.field, e.id).ids[..|r.field.ids|] == r.field.ids;
    }
  }

  /** After a registration, while every probe of the node comes within `ttl` of a beat, the node
      stays known and no failure reaches its row. */
  lemma {:induction false} AttendedNodeKept(
    start: Registered, first: Event, events: seq<Event>, id: NodeId, ttl: int, scale: real)
    requires Sound(start) && id in start.known && KeyOutlives(start, [first], id, ttl)
    requires ClockForward([first] + events) && WithinTtl([first] + events, id, ttl)
    ensures var r' := Run(start, events, ttl, scale);
            && Sound(r') && id in r'.known && KeyOutlives(r', [first] + events, id, ttl)
            && RowFor(r'.field, id) == RowFor(start.field, id)
  {
    hide KeyOutlives, WithinTtl, RowFor, Distinct, Step, Alive;
    var all := [first] + events;
    if events == [] {
      assert all == [first];
    } else {
      var prefix, e := events[..|events| - 1], events[|events| - 1];
      var part, before := [first] + prefix, Run(start, prefix, ttl, scale);
      assert all[..|all| - 1] == part && all[|all| - 1] == e;
      PrefixWithinTtl(all, id, ttl);
      assert ClockForward(part) by {
        assert forall i :: 0 <= i < |part| ==> part[i] == all[i];
      }
      AttendedNodeKept(start, first, prefix, id, ttl, scale);
      if e.Probes? && e.id == id {
        ProbeFindsKey(before, all, id, ttl);
      }
      KnownNodesAreFieldNodes(start, events, ttl, scale);
      StepKeeps(before, e, id, ttl, scale);
      KeyOutlivesStep(before, all, id, ttl, scale);
    }
  }

  lemma ProbeFindsKey(r: Registered, events: seq<Event>, id: NodeId, ttl: int)
    requires events != [] && WithinTtl(events, id, ttl) && KeyOutlives(r, events[..|events| - 1], id, ttl)
    requires events[|events| - 1].Probes? && events[|events| - 1].id == id
    ensures Alive(r.beats, id, events[|events| - 1].now)
  {
    var k := |events| - 1;
    assert events[k] == Probes(id, events[k].now);
    var j :| 0 <= j < k && IsBeat(events[j], id) && events[k].now < events[j].now + ttl;
    assert IsBeat(events[..k][j], id);
  }

  /** Main result.  A worker that registers and then beats less than the TTL apart is never pruned:
      it is known after every such stretch of events, whatever else happens in between, and no
      failure was deposited on it. */
  lemma RegularHeartbeatsNeverPruned(
    r: Registered, events: seq<Event>, id: NodeId, tags: seq<string>, now: int, ttl: int, scale: real)
    requires Sound(r) && ttl > 0 && ClockForward([Registers(id, tags, now)] + events)
    requires BeatsOften([Registers(id, tags, now)] + events, id, ttl)
    ensures var start := Register(r, id, tags, now, ttl);
            var r' := Run(start, events, ttl, scale);
            && id in start.field.ids && id in r'.known && id in r'.field.ids
            && RowFor(r'.field, id) == RowFor(start.field, id)
  {
    var first := Registers(id, tags, now);
    OftenIsWithinTtl([first] + events, id, ttl);
    KnownNodesAreFieldNodes(r, [first], ttl, scale);
    assert [first][..0] == [] && Run(r, [first], ttl, scale) == Register(r, id, tags, now, ttl);
    AttendedNodeKept(Register(r, id, tags, now, ttl), first, events, id, ttl, scale);
  }

  lemma BeatsOftenEnds(events: seq<Event>, id: NodeId, ttl: int)
    requires BeatsOften(events, id, ttl)
    ensures events != [] && IsBeat(events[0], id) && IsBeat(events[|events| - 1], id)
  {
  }

  lemma NextBeat(events: seq<Event>, id: NodeId, ttl: int, i: nat) returns (j: nat)
    requires BeatsOften(events, id, ttl) && i < |events| - 1 && IsBeat(events[i], id)
    ensures i < j < |events| && IsBeat(events[j], id) && events[j].now < events[i].now + ttl
    ensures forall m :: i < m < j ==> !IsBeat(events[m], id)
  {
    j :| i < j < |events| && IsBeat(events[j], id) && events[j].now < events[i].now + ttl
         && forall m :: i < m < j ==> !IsBeat(events[m], id);
  }

  lemma OftenIsWithinTtl(events: seq<Event>, id: NodeId, ttl: int)
    requires ClockForward(events) && BeatsOften(events, id, ttl)
    ensures WithinTtl(events, id, ttl)
  {
    hide BeatsOften;
    BeatsOftenEnds(events, id, ttl);
    forall k | 0 <= k < |events| && events[k] == Probes(id, events[k].now)
      ensures exists j :: 0 <= j < k && IsBeat(events[j], id) && events[k].now < events[j].now + ttl
    {
      assert k > 0;
      var i := LastBeatBefore(events, id, k);
      var j := NextBeat(events, id, ttl, i);
      assert j > k;
      assert events[k].now <= events[j].now;
    }
  }

  // ------------------------------------------------------------------ entries and keys

  /** Every known node has a key, set to expire `ttl` after the beat its entry records. */
  ghost predicate EntriesMatchKeys(r: Registered, ttl: int) {
    forall id :: id in r.known ==> id in r.beats && r.beats[id] == r.known[id].lastHeartbeat + ttl
  }

  /** Over every run, entries and keys record the same beat. */
  lemma {:induction false} EntriesFollowKeys(r: Registered, events: seq<Event>, ttl: int, scale: real)
    requires Shaped(r.field) && EntriesMatchKeys(r, ttl)
    ensures EntriesMatchKeys(Run(r, events, ttl, scale), ttl)
  {
    hide DepositAt, AddNode;
    if events != [] {
      EntriesFollowKeys(r, events[..|events| - 1], ttl, scale);
    }
  }

  /** A known node's tags are those it registered with last. */
  lemma {:induction false} TagsOfLastRegistration(
    r: Registered, id: NodeId, tags: seq<string>, now: int, events: seq<Event>, ttl: int, scale: real)
    requires Shaped(r.field)
    requires forall i :: 0 <= i < |events| ==> !(events[i].Registers? && events[i].id == id)
    ensures var end := Run(Register(r, id, tags, now, ttl), events, ttl, scale);
            id in end.known ==> end.known[id].tags == tags
  {
    hide DepositAt, AddNode;
    if events != [] {
      TagsOfLastRegistration(r, id, tags, now, events[..|events| - 1], ttl, scale);
    }
  }

  // ------------------------------------------------------------------ detection

  /** The time of the node's last beat that counted, if it is known. */
  ghost predicate LastBeatAt(r: Registered, id: NodeId, last: int, ttl: int) {
    id in r.known && id in r.beats && r.beats[id] == last + ttl
  }

  /** Up to the expiry of its key nothing about the node happens but scans finding the key. */
  ghost predicate QuietUntil(events: seq<Event>, id: NodeId, expiry: int) {
    forall i :: 0 <= i < |events| && events[i].id == id ==> events[i].Probes? && events[i].now <= expiry
  }

  /** The node's place in the registry: its row, whether it is known, and its key. */
  ghost predicate SameNode(r: Registered, r': Registered, id: NodeId)
    requires Shaped(r.field) && Shaped(r'.field)
  {
    && id in r.field.ids && id in r'.field.ids && RowFor(r'.field, id) == RowFor(r.field, id)
    && (id in r'.known <==> id in r.known) && (id in r'.beats <==> id in r.beats)
    && (id in r.beats ==> r'.beats[id] == r.beats[id])
  }

  /** The event is about another node, or finds the node's key, or finds the node forgotten and does
      not register it. */
  ghost predicate Harmless(r: Registered, e: Event, id: NodeId) {
    e.id == id ==> if id in r.known then e.Probes? && Alive(r.beats, id, e.now) else !e.Registers?
  }

  lemma AddKeepsRow(f: Field, id: NodeId, added: NodeId)
    requires Shaped(f) && id in f.ids
    ensures var f' := AddNode(f, added);
            id in f'.ids && RowFor(f', id) == RowFor(f, id)
  {
    if added !in f.ids {
      assert AddNode(f, added).ids[..|f.ids|] == f.ids;
    }
  }

  lemma DepositKeepsRow(f: Field, id: NodeId, other: NodeId, x: Sample, scale: real)
    requires Shaped(f) && id in f.ids && other in f.ids && id != other
    ensures var f' := DepositAt(f, other, x, scale);
            Shaped(f') && id in f'.ids && RowFor(f', id) == RowFor(f, id)
  {
    hide DepositRow;
    assert f.ids[Enumerate(f.ids)[other]] != f.ids[Enumerate(f.ids)[id]];
  }

  lemma HarmlessEvent(r: Registered, e: Event, id: NodeId, ttl: int, scale: real)
    requires Sound(r) && id in r.field.ids && Harmless(r, e, id)
    ensures SameNode(r, Step(r, e, ttl, scale), id)
  {
    hide RowFor, AddNode, DepositAt, Distinct;
    match e
    case Registers(target, _, _) => AddKeepsRow(r.field, id, target);
    case Beats(_, _) =>
    case Probes(target, _) =>
      if target != id && target in r.field.ids { DepositKeepsRow(r.field, id, target, FAILURE, scale); }
  }

  lemma {:induction false} QuietKeeps(r: Registered, events: seq<Event>, id: NodeId, last: int, ttl: int, scale: real)
    requires Sound(r) && LastBeatAt(r, id, last, ttl) && QuietUntil(events, id, last + ttl)
    ensures Sound(Run(r, events, ttl, scale)) && SameNode(r, Run(r, events, ttl, scale), id)
  {
    hide Distinct, RowFor, Step;
    KnownNodesAreFieldNodes(r, events, ttl, scale);
    if events != [] {
      QuietKeeps(r, events[..|events| - 1], id, last, ttl, scale);
      HarmlessEvent(Run(r, events[..|events| - 1], ttl, scale), events[|events| - 1], id, ttl, scale);
    }
  }

  lemma {:induction false} ForgottenKeeps(r: Registered, events: seq<Event>, id: NodeId, ttl: int, scale: real)
    requires Sound(r) && id in r.field.ids && id !in r.known
    requires forall i :: 0 <= i < |events| ==> !(events[i].Registers? && events[i].id == id)
    ensures Sound(Run(r, events, ttl, scale)) && SameNode(r, Run(r, events, ttl, scale), id)
  {
    hide Distinct, RowFor, Step;
    KnownNodesAreFieldNodes(r, events, ttl, scale);
    if events != [] {
      ForgottenKeeps(r, events[..|events| - 1], id, ttl, scale);
      HarmlessEvent(Run(r, events[..|events| - 1], ttl, scale), events[|events| - 1], id, ttl, scale);
    }
  }

  /** Main result.  After a last beat at `last`, any events about other nodes and any number of probes
      that found the key, a probe prunes the node if and only if its key has expired.  The pruned node
      gets exactly one failure deposit, and through any later events (late heartbeats and probes
      included) it stays unknown and its row untouched until it registers again. */
  lemma SilentWorkerPrunedOnce(
    r: Registered, before: seq<Event>, later: seq<Event>, id: NodeId, last: int, now: int, ttl: int, scale: real)
    requires Sound(r) && LastBeatAt(r, id, last, ttl) && QuietUntil(before, id, last + ttl)
    requires forall i :: 0 <= i < |later| ==> !(later[i].Registers? && later[i].id == id)
    ensures var quiet := Run(r, before, ttl, scale);
            var probed := Step(quiet, Probes(id, now), ttl, scale);
            && SameNode(r, quiet, id)
            && (id !in probed.known <==> now > last + ttl)
            && (now > last + ttl ==>
                  var end := Run(probed, later, ttl, scale);
                  && id !in end.known && id in end.field.ids && Distinct(end.field.ids)
                  && RowFor(end.field, id) == DepositRow(RowFor(r.field, id), FAILURE, scale))
  {
    hide Distinct, DepositRow, RowFor, Run;
    QuietKeeps(r, before, id, last, ttl, scale);
    var quiet := Run(r, before, ttl, scale);
    var probed := Step(quiet, Probes(id, now), ttl, scale);
    if now > last + ttl {
      assert id in quiet.known && id in quiet.field.ids && !Alive(quiet.beats, id, now);
      ProbePrunes(quiet, id, now, ttl, scale);
      ForgottenKeeps(probed, later, id, ttl, scale);
    }
  }

  lemma ProbePrunes(r: Registered, id: NodeId, now: int, ttl: int, scale: real)
    requires Sound(r) && id in r.known && !Alive(r.beats, id, now)
    ensures var probed := Step(r, Probes(id, now), ttl, scale);
            && Sound(probed) && id !in probed.known && id in probed.field.ids
            && RowFor(probed.field, id) == DepositRow(RowFor(r.field, id), FAILURE, scale)
  {
  }

  // ------------------------------------------------------------------ scans

  /** When a scan looks at each node. */
  type Clock = NodeId -> int

  /** A scan that has yet to look at the nodes in `todo`. */
  function ScannedExcept(r: Registered, todo: set<NodeId>, at: Clock, scale: real): (r': Registered)
    requires Shaped(r.field)
    ensures Shaped(r'.field)
  {
    Registered(
      r.field.(rows := seq(|r.field.rows|, i requires 0 <= i < |r.field.rows| => ScannedRow(r, todo, i, at, scale))),
      map id | id in r.known && (id in todo || Alive(r.beats, id, at(id))) :: r.known[id],
      r.beats)
  }

  function ScannedRow(r: Registered, todo: set<NodeId>, i: nat, at: Clock, scale: real): Row
    requires Shaped(r.field) && i < |r.field.rows|
  {
    var id := r.field.ids[i];
    if id in r.known && id !in todo && !Alive(r.beats, id, at(id))
    then DepositRow(r.field.rows[i], FAILURE, scale)
    else r.field.rows[i]
  }

  /** A whole scan: every known node without a key gets one failure deposit and is forgotten, the
      others are untouched. */
  function Scanned(r: Registered, at: Clock, scale: real): Registered
    requires Shaped(r.field)
  {
    ScannedExcept(r, {}, at, scale)
  }

  /** Looking at one more node changes its row and no other. */
  lemma ScannedRowStep(r: Registered, todo: set<NodeId>, k: nat, i: nat, at: Clock, scale: real)
    requires Sound(r) && k < |r.field.ids| && i < |r.field.ids| && r.field.ids[k] in todo && r.field.ids[k] in r.known
    ensures ScannedRow(r, todo - {r.field.ids[k]}, i, at, scale) ==
            if i == k && !Alive(r.beats, r.field.ids[k], at(r.field.ids[k]))
            then DepositRow(ScannedRow(r, todo, i, at, scale), FAILURE, scale)
            else ScannedRow(r, todo, i, at, scale)
  {
    hide DepositRow;
    if i != k {
      assert r.field.ids[i] != r.field.ids[k];
    }
  }

  lemma ScanOneField(r: Registered, todo: set<NodeId>, id: NodeId, at: Clock, scale: real)
    requires Sound(r) && id in todo && id in r.known
    ensures ScannedExcept(r, todo - {id}, at, scale).field.rows ==
            var rows, k := ScannedExcept(r, todo, at, scale).field.rows, Enumerate(r.field.ids)[id];
            if Alive(r.beats, id, at(id)) then rows else rows[k := DepositRow(rows[k], FAILURE, scale)]
  {
    hide DepositRow, ScannedRow, Distinct, Alive;
    var k := Enumerate(r.field.ids)[id];
    forall i | 0 <= i < |r.field.rows| {
      ScannedRowStep(r, todo, k, i, at, scale);
    }
  }

  lemma ScanOneKnown(r: Registered, todo: set<NodeId>, id: NodeId, at: Clock, scale: real)
    requires Shaped(r.field) && id in todo && id in r.known
    ensures ScannedExcept(r, todo - {id}, at, scale).known ==
            var known := ScannedExcept(r, todo, at, scale).known;
            if Alive(r.beats, id, at(id)) then known else known - {id}
  {
    hide DepositRow, ScannedRow, Distinct, Alive;
  }

  lemma ScanOneMore(r: Registered, todo: set<NodeId>, id: NodeId, at: Clock, scale: real)
    requires Sound(r) && id in todo && id in r.known
    ensures ScannedExcept(r, todo - {id}, at, scale) == Probe(ScannedExcept(r, todo, at, scale), id, at(id), scale)
  {
    hide DepositRow, ScannedRow, Distinct, Alive;
    ScanOneField(r, todo, id, at, scale);
    ScanOneKnown(r, todo, id, at, scale);
    assert id in ScannedExcept(r, todo, at, scale).known;
  }

  lemma ScanBegins(r: Registered, at: Clock, scale: real)
    requires Shaped(r.field)
    ensures ScannedExcept(r, r.known.Keys, at, scale) == r
  {
    var s := ScannedExcept(r, r.known.Keys, at, scale);
    assert s.known == r.known;
    assert s.field.rows == r.field.rows;
  }

  function ProbesOf(order: seq<NodeId>, at: Clock): seq<Event> {
    seq(|order|, i requires 0 <= i < |order| => Probes(order[i], at(order[i])))
  }

  lemma LastInOrder(order: seq<NodeId>, ids: set<NodeId>)
    requires order != [] && Distinct(order) && forall id :: id in order <==> id in ids
    ensures var last, rest := order[|order| - 1], order[..|order| - 1];
            && last in ids && Distinct(rest) && forall id :: id in rest <==> id in ids - {last}
  {
    var last, rest := order[|order| - 1], order[..|order| - 1];
    assert last in order;
    assert order == rest + [last];
    forall id ensures id in rest <==> id in ids - {last} {
      assert id in order <==> id in rest || id == last;
      if id in rest {
        var i :| 0 <= i < |rest| && rest[i] == id;
        assert order[i] == id && order[|order| - 1] == last;
      }
    }
  }

  /** A scan is a run of probes, one for each known node in any order, each at its own time; so what
      is proved of runs covers scans. */
  lemma {:induction false} ScanIsRunOfProbes(
    r: Registered, order: seq<NodeId>, todo: set<NodeId>, at: Clock, ttl: int, scale: real)
    requires Sound(r) && Distinct(order) && todo <= r.known.Keys
    requires forall id :: id in order <==> id in r.known.Keys - todo
    ensures Run(r, ProbesOf(order, at), ttl, scale) == ScannedExcept(r, todo, at, scale)
  {
    hide Distinct, Probe, ScannedExcept;
    if order == [] {
      assert r.known.Keys - todo == {} by {
        assert forall id :: id in r.known.Keys - todo ==> id in order;
      }
      assert forall id :: id in r.known.Keys ==> id in r.known.Keys - todo || id in todo;
      assert todo == r.known.Keys;
      ScanBegins(r, at, scale);
    } else {
      var last, rest := order[|order| - 1], order[..|order| - 1];
      LastInOrder(order, r.known.Keys - todo);
      assert r.known.Keys - todo - {last} == r.known.Keys - (todo + {last});
      assert ProbesOf(order, at)[..|order| - 1] == ProbesOf(rest, at);
      ScanIsRunOfProbes(r, rest, todo + {last}, at, ttl, scale);
      ScanOneMore(r, todo + {last}, last, at, scale);
      assert todo + {last} - {last} == todo;
    }
  }

  // ------------------------------------------------------------------ runs with whole scans

  /** What the registry does: a registration, a heartbeat or a probe, or a whole scan. */
  datatype Act = Single(e: Event) | Scan(at: Clock)

  function Perform(r: Registered, a: Act, ttl: int, scale: real): (r': Registered)
    requires Shaped(r.field)
    ensures Shaped(r'.field)
  {
    match a
    case Single(e) => Step(r, e, ttl, scale)
    case Scan(at) => Scanned(r, at, scale)
  }

  function PerformAll(r: Registered, acts: seq<Act>, ttl: int, scale: real): (r': Registered)
    requires Shaped(r.field)
    ensures Shaped(r'.field)
  {
    if acts == [] then r
    else Perform(PerformAll(r, acts[..|acts| - 1], ttl, scale), acts[|acts| - 1], ttl, scale)
  }

  /** A scan's effect on one node. */
  lemma ScanOnNode(r: Registered, id: NodeId, at: Clock, scale: real)
    requires Sound(r) && id in r.field.ids
    ensures var r' := Scanned(r, at, scale);
            && Sound(r') && r'.field.ids == r.field.ids && r'.beats == r.beats
            && (id in r'.known <==> id in r.known && Alive(r.beats, id, at(id)))
            && RowFor(r'.field, id) == if id in r.known && !Alive(r.beats, id, at(id))
                                       then DepositRow(RowFor(r.field, id), FAILURE, scale) else RowFor(r.field, id)
  {
    hide DepositRow, Distinct, Alive;
  }

  /** Until the key expires: no event about the node, and every scan finds the key. */
  ghost predicate QuietActs(acts: seq<Act>, id: NodeId, expiry: int) {
    forall i :: 0 <= i < |acts| ==>
      match acts[i]
      case Single(e) => e.id == id ==> e.Probes? && e.now <= expiry
      case Scan(at) => at(id) <= expiry
  }

  ghost predicate NeverRegistered(acts: seq<Act>, id: NodeId) {
    forall i :: 0 <= i < |acts| && acts[i].Single? ==> !(acts[i].e.Registers? && acts[i].e.id == id)
  }

  lemma HarmlessAct(r: Registered, a: Act, id: NodeId, ttl: int, scale: real)
    requires Sound(r) && id in r.field.ids
    requires match a
             case Single(e) => Harmless(r, e, id)
             case Scan(at) => id in r.known ==> Alive(r.beats, id, at(id))
    ensures Sound(Perform(r, a, ttl, scale)) && SameNode(r, Perform(r, a, ttl, scale), id)
  {
    match a
    case Single(e) =>
      HarmlessEvent(r, e, id, ttl, scale);
      assert [e][..0] == [] && Run(r, [e], ttl, scale) == Step(r, e, ttl, scale);
      KnownNodesAreFieldNodes(r, [e], ttl, scale);
    case Scan(at) => ScanOnNode(r, id, at, scale);
  }

  lemma {:induction false} QuietActsKeep(r: Registered, acts: seq<Act>, id: NodeId, last: int, ttl: int, scale: real)
    requires Sound(r) && LastBeatAt(r, id, last, ttl) && QuietActs(acts, id, last + ttl)
    ensures Sound(PerformAll(r, acts, ttl, scale)) && SameNode(r, PerformAll(r, acts, ttl, scale), id)
  {
    hide Distinct, RowFor, Perform;
    if acts != [] {
      QuietActsKeep(r, acts[..|acts| - 1], id, last, ttl, scale);
      HarmlessAct(PerformAll(r, acts[..|acts| - 1], ttl, scale), acts[|acts| - 1], id, ttl, scale);
    }
  }

  lemma {:induction false} ForgottenActsKeep(r: Registered, acts: seq<Act>, id: NodeId, ttl: int, scale: real)
    requires Sound(r) && id in r.field.ids && id !in r.known && NeverRegistered(acts, id)
    ensures Sound(PerformAll(r, acts, ttl, scale)) && SameNode(r, PerformAll(r, acts, ttl, scale), id)
  {
    hide Distinct, RowFor, Perform;
    if acts != [] {
      ForgottenActsKeep(r, acts[..|acts| - 1], id, ttl, scale);
      HarmlessAct(PerformAll(r, acts[..|acts| - 1], ttl, scale), acts[|acts| - 1], id, ttl, scale);
    }
  }

  /** Main result.  A worker whose last beat was at `last` survives every scan that looks at it up to
      last + ttl; the first scan after that prunes it with exactly one failure deposit, and it then
      stays unknown, its row untouched, through any scans and late heartbeats until it registers
      again. */
  lemma FirstLateScanPrunes(
    r: Registered, before: seq<Act>, at: Clock, later: seq<Act>, id: NodeId, last: int, ttl: int, scale: real)
    requires Sound(r) && LastBeatAt(r, id, last, ttl) && QuietActs(before, id, last + ttl)
    requires at(id) > last + ttl && NeverRegistered(later, id)
    ensures var quiet := PerformAll(r, before, ttl, scale);
            var end := PerformAll(Scanned(quiet, at, scale), later, ttl, scale);
            && SameNode(r, quiet, id) && id in quiet.known
            && Sound(end) && id in end.field.ids && id !in end.known
            && RowFor(end.field, id) == DepositRow(RowFor(r.field, id), FAILURE, scale)
  {
    hide Distinct, DepositRow, RowFor, PerformAll, Scanned;
    QuietActsKeep(r, before, id, last, ttl, scale);
    var quiet := PerformAll(r, before, ttl, scale);
    ScanOnNode(quiet, id, at, scale);
    ForgottenActsKeep(Scanned(quiet, at, scale), later, id, ttl, scale);
  }

  lemma ProbeSound(r: Registered, id: NodeId, now: int, scale: real)
    requires Sound(r)
    ensures Sound(Probe(r, id, now, scale))
  {
  }

  // ------------------------------------------------------------------ the class

  class WorkerRegistry {
    const field: MemoryField
    const heartbeatTtl: int
    var known: map<NodeId, Info>
    /** The heartbeat keys of the Redis server. */
    var beats: map<NodeId, int>

    ghost predicate Valid()
      reads this, field, field.state
    {
      field.Valid() && Sound(Value())
    }

    ghost function Value(): Registered
      reads this, field
    {
      Registered(field.Value(), known, beats)
    }

    constructor (field: MemoryField, ttl: int)
      requires field.Valid() && Distinct(field.nodeIds)
      ensures Valid() && this.field == field && heartbeatTtl == ttl && known == map[] && beats == map[]
    {
      this.field := field;
      heartbeatTtl := ttl;
      known := map[];
      beats := map[];
    }

    method RegisterWorker(id: NodeId, tags: seq<string>, now: int)
      requires Valid()
      modifies this, field
      ensures Valid() && (field.state == old(field.state) || fresh(field.state))
      ensures Value() == Register(old(Value()), id, tags, now, heartbeatTtl)
    {
      beats := beats[id := now + heartbeatTtl];
      known := known[id := Info(tags, now)];
      if id !in field.nodeIds {
        field.Add(id);
      }
    }

    method SendHeartbeat(id: NodeId, now: int)
      requires Valid()
      modifies this
      ensures Valid() && Value() == Heartbeat(old(Value()), id, now, heartbeatTtl)
    {
      hide Distinct;
      if id !in known {
        return;
      }
      beats := beats[id := now + heartbeatTtl];
      known := known[id := known[id].(lastHeartbeat := now)];
    }

    /** Checks one node of a scan. */
    method ProbeNode(id: NodeId, now: int)
      requires Valid() && id in known
      modifies this, field.state, field`rows
      ensures Valid() && Value() == Probe(old(Value()), id, now, field.saturationScale)
    {
      hide Distinct, DepositRow, Enumerate;
      ghost var before := Value();
      ProbeSound(before, id, now, field.saturationScale);
      var present := id in beats && now <= beats[id];
      if !present {
        var deposited := field.DepositTrace(id, Sample(999.0, false, 0, 0.0));
        known := known - {id};
      }
    }

    /** Scans the nodes known at the start, in any order, each at its own time. */
    method PruneUnhealthyWorkers(at: Clock)
      requires Valid()
      modifies this, field.state, field`rows
      ensures Valid() && Value() == Scanned(old(Value()), at, field.saturationScale)
    {
      ghost var before := Value();
      var todo := known.Keys;
      ScanBegins(before, at, field.saturationScale);
      while todo != {}
        invariant Valid() && todo <= before.known.Keys && todo <= known.Keys
        invariant Value() == ScannedExcept(before, todo, at, field.saturationScale)
        decreases todo
      {
        var id :| id in todo;
        ScanOneMore(before, todo, id, at, field.saturationScale);
        ProbeNode(id, at(id));
        todo := todo - {id};
      }
    }
  }
}
