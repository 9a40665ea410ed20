/** In-flight accounting of a worker whose requests interleave at every await. */
module WorkerLoad {

  /** The atomic steps of one request: entry (a stream counts as served there), a successful call of
      an inference, a streamed chunk, and the finally block that every outcome runs through. */
  datatype Event =
    | Enter(request: nat, streaming: bool)
    | Served(request: nat)
    | Chunk(request: nat)
    | Leave(request: nat)

  /** The requests in flight after the events. */
  function InFlight(events: seq<Event>): set<nat> {
    if events == [] then {}
    else
      var before := InFlight(events[..|events| - 1]);
      match events[|events| - 1]
      case Enter(r, _) => before + {r}
      case Leave(r) => before - {r}
      case _ => before
  }

  /** Any interleaving in which a request enters once and only acts while in flight. */
  ghost predicate Interleaving(events: seq<Event>) {
    events != [] ==>
      var prefix, e := events[..|events| - 1], events[|events| - 1];
      Interleaving(prefix) && (e.Enter? <==> e.request !in InFlight(prefix))
  }

  function NotNegative(n: int): int {
    if n < 0 then 0 else n
  }

  datatype Node = Node(activeLoad: int, requestsServed: int)

  function Step(n: Node, e: Event): Node {
    match e
    case Enter(_, streaming) => Node(n.activeLoad + 1, if streaming then n.requestsServed + 1 else n.requestsServed)
    case Served(_) => n.(requestsServed := n.requestsServed + 1)
    case Chunk(_) => n
    case Leave(_) => n.(activeLoad := n.activeLoad - 1)
  }

  function Run(events: seq<Event>): Node {
    if events == [] then Node(0, 0) else Step(Run(events[..|events| - 1]), events[|events| - 1])
  }

  /** The load a chunk or a finished request reports. */
  function Reported(n: Node, e: Event): int
    requires e.Chunk? || e.Leave?
  {
    if e.Chunk? then NotNegative(n.activeLoad - 1) else NotNegative(Step(n, e).activeLoad)
  }

  /** In every interleaving the counter is the number of requests in flight, zero at quiescence, and
      a report counts the other requests in flight; the clamp at zero never acts. */
  lemma {:induction false} LoadCountsRequests(events: seq<Event>)
    requires Interleaving(events)
    ensures Run(events).activeLoad == |InFlight(events)|
    ensures events != [] && (events[|events| - 1].Chunk? || events[|events| - 1].Leave?) ==>
              var prefix, e := events[..|events| - 1], events[|events| - 1];
              && Reported(Run(prefix), e) == |InFlight(prefix) - {e.request}|
              && Reported(Run(prefix), e) == Run(prefix).activeLoad - 1
  {
    if events != [] {
      LoadCountsRequests(events[..|events| - 1]);
      var before, e := InFlight(events[..|events| - 1]), events[|events| - 1];
      if e.Enter? {
        assert |before + {e.request}| == |before| + 1;
      } else {
        assert |before - {e.request}| == |before| - 1;
      }
    }
  }

  /** Requests that were counted as served: streams that entered, and inferences that got a result. */
  function Counted(events: seq<Event>): set<nat> {
    if events == [] then {}
    else
      var before := Counted(events[..|events| - 1]);
      match events[|events| - 1]
      case Enter(r, true) => before + {r}
      case Served(r) => before + {r}
      case _ => before
  }

  /** No stream enters twice, and no request is counted twice. */
  ghost predicate CountedOnce(events: seq<Event>) {
    events != [] ==>
      var prefix, e := events[..|events| - 1], events[|events| - 1];
      CountedOnce(prefix) && (e.Served? || (e.Enter? && e.streaming) ==> e.request !in Counted(prefix))
  }

  /** The served counter is the number of requests counted, whatever failed and however steps interleave. */
  lemma {:induction false} ServedCountsRequests(events: seq<Event>)
    requires CountedOnce(events)
    ensures Run(events).requestsServed == |Counted(events)|
  {
    if events != [] {
      ServedCountsRequests(events[..|events| - 1]);
    }
  }

  /** A worker node with the history of its steps. */
  class WorkerNode {
    var activeLoad: int
    var requestsServed: int
    ghost var events: seq<Event>

    ghost predicate Valid()
      reads this
    {
      Interleaving(events) && Run(events) == Node(activeLoad, requestsServed)
    }

    constructor ()
      ensures Valid() && events == []
    {
      activeLoad, requestsServed, events := 0, 0, [];
    }

    method Enter(ghost request: nat, streaming: bool) returns (startLoad: int)
      requires Valid() && request !in InFlight(events)
      modifies this
      ensures Valid() && events == old(events) + [Event.Enter(request, streaming)]
      ensures startLoad == |InFlight(events)|
    {
      activeLoad := activeLoad + 1;
      startLoad := activeLoad;
      if streaming {
        requestsServed := requestsServed + 1;
      }
      events := events + [Event.Enter(request, streaming)];
      assert events[..|events| - 1] == old(events);
      LoadCountsRequests(events);
    }

    method CountServed(ghost request: nat)
      requires Valid() && request in InFlight(events)
      modifies this
      ensures Valid() && events == old(events) + [Served(request)]
    {
      requestsServed := requestsServed + 1;
      events := events + [Served(request)];
      assert events[..|events| - 1] == old(events);
    }

    method YieldChunk(ghost request: nat) returns (reported: int)
      requires Valid() && request in InFlight(events)
      modifies this`events
      ensures Valid() && events == old(events) + [Chunk(request)]
      ensures reported == |InFlight(old(events)) - {request}|
    {
      reported := if 0 > activeLoad - 1 then 0 else activeLoad - 1;
      events := events + [Chunk(request)];
      assert events[..|events| - 1] == old(events);
      LoadCountsRequests(events);
    }

    method Leave(ghost request: nat) returns (reported: int)
      requires Valid() && request in InFlight(events)
      modifies this
      ensures Valid() && events == old(events) + [Event.Leave(request)]
      ensures reported == |InFlight(events)|
    {
      activeLoad := activeLoad - 1;
      reported := if 0 > activeLoad then 0 else activeLoad;
      events := events + [Event.Leave(request)];
      assert events[..|events| - 1] == old(events);
      LoadCountsRequests(events);
    }
  }
}
