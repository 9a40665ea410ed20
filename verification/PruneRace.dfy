/** Pruning is three steps with waits in between: find the key missing, deposit the failure, forget the
    node.  Registrations, heartbeats and other nodes' steps interleave with them. */
module PruneRace {
  import opened Traces
  import opened FieldValue
  import opened Registry

  /** How far the pruning of a node has come. */
  datatype Stage = KeyMissing | FailureDeposited

  datatype Split = Split(r: Registered, pruning: map<NodeId, Stage>)

  datatype Move =
    | Whole(e: Event)
    | Looks(id: NodeId, now: int)
    | Deposits(id: NodeId)
    | Forgets(id: NodeId)

  function Take(s: Split, m: Move, ttl: int, scale: real): (s': Split)
    requires Shaped(s.r.field)
    ensures Shaped(s'.r.field)
  {
    match m
    case Whole(e) => s.(r := Step(s.r, e, ttl, scale))
    case Looks(id, now) =>
      if id in s.r.known && id !in s.pruning && !Alive(s.r.beats, id, now)
      then s.(pruning := s.pruning[id := KeyMissing]) else s
    case Deposits(id) =>
      if id in s.pruning && s.pruning[id] == KeyMissing && id in s.r.field.ids
      then Split(s.r.(field := DepositAt(s.r.field, id, FAILURE, scale)), s.pruning[id := FailureDeposited]) else s
    case Forgets(id) =>
      if id in s.pruning && s.pruning[id] == FailureDeposited
      then Split(s.r.(known := s.r.known - {id}), s.pruning - {id}) else s
  }

  function TakeAll(s: Split, moves: seq<Move>, ttl: int, scale: real): (s': Split)
    requires Shaped(s.r.field)
    ensures Shaped(s'.r.field)
  {
    if moves == [] then s
    else Take(TakeAll(s, moves[..|moves| - 1], ttl, scale), moves[|moves| - 1], ttl, scale)
  }

  /** Undisturbed, the three steps are the probe of the registry. */
  lemma ThreeStepsAreAProbe(s: Split, id: NodeId, now: int, ttl: int, scale: real)
    requires Sound(s.r) && id !in s.pruning
    ensures var s1 := Take(s, Looks(id, now), ttl, scale);
            var s3 := Take(Take(s1, Deposits(id), ttl, scale), Forgets(id), ttl, scale);
            s3 == s.(r := Probe(s.r, id, now, scale))
  {
    hide DepositAt, Distinct;
    var s1 := Take(s, Looks(id, now), ttl, scale);
    if id in s.r.known && !Alive(s.r.beats, id, now) {
      assert s.pruning[id := KeyMissing][id := FailureDeposited] - {id} == s.pruning;
    } else {
      assert s1 == s;
    }
  }

  lemma TakeSound(s: Split, m: Move, ttl: int, scale: real)
    requires Sound(s.r)
    ensures Sound(Take(s, m, ttl, scale).r)
  {
    match m
    case Whole(e) =>
      assert [e][..0] == [] && Run(s.r, [e], ttl, scale) == Step(s.r, e, ttl, scale);
      KnownNodesAreFieldNodes(s.r, [e], ttl, scale);
    case Looks(_, _) =>
    case Deposits(_) =>
    case Forgets(_) =>
  }

  // ------------------------------------------------------------------ a worker that beats

  /** The time of the node's last beat in the run, or `first`. */
  function LastBeat(moves: seq<Move>, id: NodeId, first: int): int {
    if moves == [] then first
    else
      match moves[|moves| - 1]
      case Whole(e) => if !e.Probes? && e.id == id then e.now else LastBeat(moves[..|moves| - 1], id, first)
      case _ => LastBeat(moves[..|moves| - 1], id, first)
  }

  /** The scan looks for the node's key no later than `ttl` after its last beat. */
  ghost predicate BeatsInTime(moves: seq<Move>, id: NodeId, first: int, ttl: int) {
    forall i :: 0 <= i < |moves| ==>
      match moves[i]
      case Whole(e) => e.Probes? && e.id == id ==> e.now <= LastBeat(moves[..i], id, first) + ttl
      case Looks(other, now) => other == id ==> now <= LastBeat(moves[..i], id, first) + ttl
      case _ => true
  }

  /** The node is known, untouched, not being pruned, and its key expires `ttl` after its last beat. */
  ghost predicate Kept(s: Split, row: Row, id: NodeId, last: int, ttl: int)
    requires Shaped(s.r.field)
  {
    && id !in s.pruning && id in s.r.known && id in s.r.field.ids && RowFor(s.r.field, id) == row
    && id in s.r.beats && s.r.beats[id] == last + ttl
  }

  lemma KeptByMove(s: Split, row: Row, id: NodeId, last: int, m: Move, ttl: int, scale: real)
    requires Sound(s.r) && Kept(s, row, id, last, ttl)
    requires match m
             case Whole(e) => e.Probes? && e.id == id ==> e.now <= last + ttl
             case Looks(other, now) => other == id ==> now <= last + ttl
             case _ => true
    ensures Kept(Take(s, m, ttl, scale), row, id, LastBeat([m], id, last), ttl)
  {
    hide RowFor, DepositAt, AddNode, Distinct;
    assert [m][..0] == [];
    match m
    case Whole(e) =>
      if !e.Probes? && e.id == id {
        if e.Registers? { AddKeepsRow(s.r.field, id, id); }
      } else {
        HarmlessEvent(s.r, e, id, ttl, scale);
      }
    case Looks(_, _) =>
    case Deposits(other) =>
      if other != id && other in s.r.field.ids { DepositKeepsRow(s.r.field, id, other, FAILURE, scale); }
    case Forgets(_) =>
  }

  lemma LastBeatStep(moves: seq<Move>, id: NodeId, first: int)
    requires moves != []
    ensures LastBeat(moves, id, first)
            == LastBeat([moves[|moves| - 1]], id, LastBeat(moves[..|moves| - 1], id, first))
  {
    assert [moves[|moves| - 1]][..0] == [];
  }

  lemma PrefixInTime(moves: seq<Move>, id: NodeId, first: int, ttl: int)
    requires moves != [] && BeatsInTime(moves, id, first, ttl)
    ensures BeatsInTime(moves[..|moves| - 1], id, first, ttl)
  {
    var prefix := moves[..|moves| - 1];
    assert forall i :: 0 <= i < |prefix| ==> prefix[i] == moves[i] && prefix[..i] == moves[..i];
  }

  lemma {:induction false} KeptByRun(
    s: Split, row: Row, moves: seq<Move>, id: NodeId, first: int, ttl: int, scale: real)
    requires Sound(s.r) && Kept(s, row, id, first, ttl) && BeatsInTime(moves, id, first, ttl)
    ensures var s' := TakeAll(s, moves, ttl, scale);
            Sound(s'.r) && Kept(s', row, id, LastBeat(moves, id, first), ttl)
  {
    hide Kept, Take, Distinct;
    if moves != [] {
      var prefix, m := moves[..|moves| - 1], moves[|moves| - 1];
      PrefixInTime(moves, id, first, ttl);
      KeptByRun(s, row, prefix, id, first, ttl, scale);
      var before := TakeAll(s, prefix, ttl, scale);
      KeptByMove(before, row, id, LastBeat(prefix, id, first), m, ttl, scale);
      TakeSound(before, m, ttl, scale);
      LastBeatStep(moves, id, first);
    }
  }

  /** Main result.  A worker that registers while no pruning of it is under way, and whose key is looked
      for no later than the TTL after its last beat, stays known and its row untouched, in every
      interleaving with the steps of the scan. */
  lemma BeatingWorkerNeverPruned(
    s: Split, id: NodeId, tags: seq<string>, now: int, moves: seq<Move>, ttl: int, scale: real)
    requires Sound(s.r) && id !in s.pruning && BeatsInTime(moves, id, now, ttl)
    ensures var start := Take(s, Whole(Registers(id, tags, now)), ttl, scale);
            var s' := TakeAll(start, moves, ttl, scale);
            && id in start.r.field.ids && id in s'.r.known && id in s'.r.field.ids
            && RowFor(s'.r.field, id) == RowFor(start.r.field, id)
  {
    hide RowFor, Take;
    var start := Take(s, Whole(Registers(id, tags, now)), ttl, scale);
    TakeSound(s, Whole(Registers(id, tags, now)), ttl, scale);
    Registration(s, id, tags, now, ttl, scale);
    KeptByRun(start, RowFor(start.r.field, id), moves, id, now, ttl, scale);
  }

  lemma Registration(s: Split, id: NodeId, tags: seq<string>, now: int, ttl: int, scale: real)
    requires Shaped(s.r.field)
    ensures var start := Take(s, Whole(Registers(id, tags, now)), ttl, scale);
            && start.pruning == s.pruning && id in start.r.known && id in start.r.field.ids
            && id in start.r.beats && start.r.beats[id] == now + ttl
  {
  }

  ghost predicate NoOtherRegistration(moves: seq<Move>, id: NodeId) {
    forall i :: 0 <= i < |moves| && moves[i].Whole? ==> !(moves[i].e.Registers? && moves[i].e.id == id)
  }

  lemma {:induction false} PruningGoesOn(s: Split, moves: seq<Move>, id: NodeId, ttl: int, scale: real)
    requires Shaped(s.r.field) && id in s.pruning && NoOtherRegistration(moves, id)
    ensures var s' := TakeAll(s, moves, ttl, scale);
            id in s'.pruning || id !in s'.r.known
  {
    hide DepositAt, AddNode;
    if moves != [] {
      PruningGoesOn(s, moves[..|moves| - 1], id, ttl, scale);
    }
  }

  /** Main result: the proviso is exact.  Whatever interleaves, once the scan is done with the node a
      worker that registered and beats in time is known if and only if no pruning of it was under way
      when it registered. */
  lemma RegistrationSurvivesIff(
    s: Split, id: NodeId, tags: seq<string>, now: int, moves: seq<Move>, ttl: int, scale: real)
    requires Sound(s.r) && BeatsInTime(moves, id, now, ttl) && NoOtherRegistration(moves, id)
    ensures var end := TakeAll(Take(s, Whole(Registers(id, tags, now)), ttl, scale), moves, ttl, scale);
            id !in end.pruning ==> (id in end.r.known <==> id !in s.pruning)
  {
    hide Take, NoOtherRegistration;
    var start := Take(s, Whole(Registers(id, tags, now)), ttl, scale);
    Registration(s, id, tags, now, ttl, scale);
    if id in s.pruning {
      PruningGoesOn(start, moves, id, ttl, scale);
    } else {
      BeatingWorkerNeverPruned(s, id, tags, now, moves, ttl, scale);
    }
  }

  /** Nothing looks for the node's key again. */
  ghost predicate NoSecondLook(moves: seq<Move>, id: NodeId) {
    forall i :: 0 <= i < |moves| ==>
      match moves[i]
      case Whole(e) => !(e.Probes? && e.id == id)
      case Looks(other, _) => other != id
      case _ => true
  }

  /** How far the pruning of the node got, and what its row then is. */
  ghost predicate OneFailure(s: Split, id: NodeId, row: Row, scale: real)
    requires Shaped(s.r.field)
  {
    && id in s.r.field.ids
    && RowFor(s.r.field, id) ==
       if id in s.pruning && s.pruning[id] == KeyMissing then row else DepositRow(row, FAILURE, scale)
  }

  /** In every interleaving a pruning deposits exactly one failure: none before its deposit, one after it,
      and by the time the node is forgotten it is there. */
  lemma {:induction false} PruningDepositsOnce(s: Split, moves: seq<Move>, id: NodeId, ttl: int, scale: real)
    requires Sound(s.r) && id in s.r.field.ids && id in s.pruning && s.pruning[id] == KeyMissing
    requires NoSecondLook(moves, id)
    ensures var s' := TakeAll(s, moves, ttl, scale);
            Sound(s'.r) && OneFailure(s', id, RowFor(s.r.field, id), scale)
  {
    hide RowFor, Take, DepositRow, Distinct;
    if moves != [] {
      var prefix, m := moves[..|moves| - 1], moves[|moves| - 1];
      PruningDepositsOnce(s, prefix, id, ttl, scale);
      var before := TakeAll(s, prefix, ttl, scale);
      TakeSound(before, m, ttl, scale);
      OneFailureStep(before, m, id, RowFor(s.r.field, id), ttl, scale);
    }
  }

  lemma OneFailureStep(s: Split, m: Move, id: NodeId, row: Row, ttl: int, scale: real)
    requires Sound(s.r) && OneFailure(s, id, row, scale)
    requires match m
             case Whole(e) => !(e.Probes? && e.id == id)
             case Looks(other, _) => other != id
             case _ => true
    ensures OneFailure(Take(s, m, ttl, scale), id, row, scale)
  {
    hide RowFor, DepositAt, AddNode, Distinct, DepositRow;
    match m
    case Whole(e) =>
      match e {
        case Registers(other, _, _) => AddKeepsRow(s.r.field, id, other);
        case Beats(_, _) =>
        case Probes(_, _) => HarmlessEvent(s.r, e, id, ttl, scale);
      }
    case Looks(_, _) =>
    case Deposits(other) =>
      if other == id { DepositsOnRow(s.r.field, id, scale); }
      else if other in s.r.field.ids { DepositKeepsRow(s.r.field, id, other, FAILURE, scale); }
    case Forgets(_) =>
  }

  lemma DepositsOnRow(f: Field, id: NodeId, scale: real)
    requires Shaped(f) && id in f.ids
    ensures var f' := DepositAt(f, id, FAILURE, scale);
            Shaped(f') && id in f'.ids && RowFor(f', id) == DepositRow(RowFor(f, id), FAILURE, scale)
  {
    hide DepositRow;
  }

  /** So it happens: a known worker whose key has expired is looked for, registers, and is forgotten, its
      fresh key notwithstanding. */
  lemma LostRegistration(s: Split, id: NodeId, tags: seq<string>, now: int, ttl: int, scale: real)
    requires Sound(s.r) && id in s.r.known && id !in s.pruning && !Alive(s.r.beats, id, now) && ttl >= 0
    ensures var looked := Take(s, Looks(id, now), ttl, scale);
            var back := Take(looked, Whole(Registers(id, tags, now)), ttl, scale);
            var end := Take(Take(back, Deposits(id), ttl, scale), Forgets(id), ttl, scale);
            && id in looked.pruning && Alive(back.r.beats, id, now)
            && Alive(end.r.beats, id, now) && id !in end.r.known
  {
    hide DepositAt, Distinct;
  }
}
