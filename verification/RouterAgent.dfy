/** The router as it runs: sample a worker from the live field, execute, deposit the outcome. */
module RouterAgent {
  import opened RealMath
  import opened Traces
  import opened FieldValue
  import opened InMemory
  import opened Router
  import opened Governance

  datatype Worker = Worker(id: NodeId, tags: seq<string>)

  /** What executing a worker gave: a result, or an exception. */
  datatype Execution = Result(latency: real, success: bool, activeLoad: int) | Exception

  function SampleOf(e: Execution, capabilityMatch: real): Sample {
    match e
    case Result(latency, success, load) => Sample(latency, success, load, capabilityMatch)
    case Exception => RaisedSample(capabilityMatch)
  }

  /** Row i belongs to the i-th worker; the two orders are taken to be equal. */
  function NodesOf(rows: seq<Row>, workers: seq<Worker>): seq<Node>
    requires |rows| == |workers|
  {
    seq(|rows|, i requires 0 <= i < |rows| => Node(rows[i], workers[i].tags))
  }

  ghost predicate SaneExecution(e: Execution) {
    e.Result? ==> e.latency >= 0.0 && e.activeLoad >= 0
  }

  lemma DepositNonNegative(row: Row, e: Execution, capabilityMatch: real, scale: real)
    requires NonNegative(row) && SaneExecution(e) && scale >= 0.0
    ensures NonNegative(DepositRow(row, SampleOf(e, capabilityMatch), scale))
  {
    ScaleMonotone(0.0, SampleOf(e, capabilityMatch).activeLoad as real, scale);
  }

  lemma SelectionDistributes(exp: Exponential, w: Weights, nodes: seq<Node>, context: Context, temperature: real)
    requires ExpLaws(exp) && temperature > 0.0 && nodes != [] && Sane(w, nodes, context)
    ensures var p := Selection(exp, w, nodes, context, temperature);
            |p| == |nodes| && Sum(p) == 1.0
  {
    hide Probabilities, BoostedScore;
    AllScored(w, nodes, context);
    ProbabilitiesDistribute(exp, BoostedScores(w, nodes, context), temperature);
  }

  /** The position the draw falls on. */
  function Drawn(
    exp: Exponential, w: Weights, nodes: seq<Node>, context: Context, temperature: real, u: real): (i: nat)
    requires ExpLaws(exp) && temperature > 0.0 && nodes != [] && Sane(w, nodes, context) && 0.0 <= u < 1.0
    ensures i < |nodes|
  {
    SelectionDistributes(exp, w, nodes, context, temperature);
    Chosen(Selection(exp, w, nodes, context, temperature), u)
  }

  /** Every worker is drawn on a slice of [0, 1) as long as its selection probability, and on no other. */
  lemma AnyWorkerCanBeDrawn(
    exp: Exponential, w: Weights, nodes: seq<Node>, context: Context, temperature: real, u: real, i: nat)
    requires ExpLaws(exp) && temperature > 0.0 && Sane(w, nodes, context) && 0.0 <= u < 1.0 && i < |nodes|
    ensures var p := Selection(exp, w, nodes, context, temperature);
            && |p| == |nodes| && p[i] > 0.0 && p[i] == Sum(p[..i + 1]) - Sum(p[..i])
            && 0.0 <= Sum(p[..i]) && Sum(p[..i + 1]) <= 1.0
            && (Drawn(exp, w, nodes, context, temperature, u) == i <==> Sum(p[..i]) <= u < Sum(p[..i + 1]))
  {
    hide Probabilities, BoostedScore, Sum;
    AllScored(w, nodes, context);
    DrawnWithItsProbability(exp, BoostedScores(w, nodes, context), temperature, u, i);
  }

  lemma RecordedRow(row: Row, e: Execution, m: real, scale: real)
    requires 0.0 <= m <= 1.0
    ensures var after := DepositRow(row, SampleOf(e, m), scale);
            && (e.Result? ==>
                  after == Row(0.5 * (if e.success then 1.0 else 0.0) + 0.5 * row.v, 0.5 * e.latency + 0.5 * row.l,
                               e.activeLoad as real * scale, 0.5 * m + 0.5 * row.c))
            && (e.Exception? ==> after == Row(0.5 * row.v, 0.5 * row.l, 0.0, 0.5 * m + 0.5 * row.c))
  {
  }

  lemma MatchInUnit(tags: seq<string>, context: Context)
    requires NonNegativeContext(context)
    ensures 0.0 <= CapabilityMatch(tags, context) <= 1.0
  {
    if tags != [] { MatchMonotone(tags, tags, context); }
  }

  /** The odds of two workers, from their own rows and their own tags. */
  lemma WorkerOdds(
    exp: Exponential, w: Weights, rows: seq<Row>, workers: seq<Worker>, context: Context, temperature: real,
    i: nat, j: nat)
    requires ExpLaws(exp) && temperature > 0.0 && |rows| == |workers| && i < |rows| && j < |rows|
    requires NonNegativeWeights(w) && NonNegativeContext(context)
    requires forall k :: 0 <= k < |rows| ==> NonNegative(rows[k])
    ensures Sane(w, NodesOf(rows, workers), context)
    ensures var p := Selection(exp, w, NodesOf(rows, workers), context, temperature);
            |p| == |rows| && p[i] * exp(Written(w, Node(rows[j], workers[j].tags), context) / temperature)
                             == p[j] * exp(Written(w, Node(rows[i], workers[i].tags), context) / temperature)
  {
    hide ExpLaws, Written, Selection;
    SelectionOdds(exp, w, NodesOf(rows, workers), context, temperature, i, j);
  }

  class Agent {
    const field: MemoryField
    const workers: seq<Worker>
    const weights: Weights
    const temperature: real

    ghost predicate Valid()
      reads this, field, field.state
    {
      && field.Valid() && field.saturationScale >= 0.0 && temperature > 0.0 && NonNegativeWeights(weights)
      && |workers| == |field.nodeIds| && Distinct(field.nodeIds)
      && (forall i :: 0 <= i < |workers| ==> workers[i].id == field.nodeIds[i])
      && (forall i :: 0 <= i < |field.rows| ==> NonNegative(field.rows[i]))
    }

    constructor (field: MemoryField, workers: seq<Worker>, weights: Weights, temperature: real)
      requires field.Valid() && field.saturationScale >= 0.0 && temperature > 0.0 && NonNegativeWeights(weights)
      requires |workers| == |field.nodeIds| && Distinct(field.nodeIds)
      requires forall i :: 0 <= i < |workers| ==> workers[i].id == field.nodeIds[i]
      requires forall i :: 0 <= i < |field.rows| ==> NonNegative(field.rows[i])
      ensures Valid() && this.field == field && this.workers == workers
      ensures this.weights == weights && this.temperature == temperature
    {
      this.field := field;
      this.workers := workers;
      this.weights := weights;
      this.temperature := temperature;
    }

    /** Draws with the uniform number `u`; an empty field has no largest score. */
    method SampleWorker(exp: Exponential, context: Context, override: map<string, real>, u: real)
      returns (r: Outcome<nat>)
      requires Valid() && ExpLaws(exp) && NonNegativeContext(context) && 0.0 <= u < 1.0
      requires NonNegativeWeights(Resolve(weights, override))
      ensures r.Raised? <==> workers == []
      ensures r.Done? ==>
                && r.value < |workers|
                && r.value == Drawn(exp, Resolve(weights, override), NodesOf(field.rows, workers), context,
                                    temperature, u)
    {
      if workers == [] {
        return Raised(ValueError);
      }
      var state := field.GetStateVector();
      var n := |workers|;
      var rows := seq(n, i requires 0 <= i < n reads state =>
        Row(state[i, 0], state[i, 1], state[i, 2], state[i, 3]));
      assert rows == field.rows;
      var nodes := NodesOf(rows, workers);
      var w := Resolve(weights, override);
      SelectionDistributes(exp, w, nodes, context, temperature);
      var probs := Selection(exp, w, nodes, context, temperature);
      return Done(Chosen(probs, u));
    }

    /** Routes one request.  `executions` holds what each worker would return; exactly one trace is
        deposited, on the chosen worker, with the capability match of the request. */
    method Route(
      exp: Exponential, context: Context, override: map<string, real>, u: real, executions: seq<Execution>)
      returns (r: Outcome<nat>)
      requires Valid() && ExpLaws(exp) && NonNegativeContext(context) && |executions| == |workers| && 0.0 <= u < 1.0
      requires NonNegativeWeights(Resolve(weights, override))
      modifies field.state, field`rows
      ensures field.Valid() && ((forall e :: e in executions ==> SaneExecution(e)) ==> Valid())
      ensures r.Raised? <==> workers == []
      ensures r.Raised? ==> field.Value() == old(field.Value())
      ensures r.Done? ==>
                && r.value < |workers|
                && r.value == Drawn(exp, Resolve(weights, override), NodesOf(old(field.rows), workers), context,
                                    temperature, u)
                && field.nodeIds == old(field.nodeIds) && |field.rows| == |old(field.rows)| == |workers|
                && (forall j :: 0 <= j < |workers| && j != r.value ==> field.rows[j] == old(field.rows)[j])
                && var e, before := executions[r.value], old(field.rows)[r.value];
                   var m := CapabilityMatch(workers[r.value].tags, context);
                   && (e.Result? ==>
                         field.rows[r.value] == Row(0.5 * (if e.success then 1.0 else 0.0) + 0.5 * before.v,
                                                    0.5 * e.latency + 0.5 * before.l,
                                                    e.activeLoad as real * field.saturationScale,
                                                    0.5 * m + 0.5 * before.c))
                   && (e.Exception? ==>
                         field.rows[r.value] == Row(0.5 * before.v, 0.5 * before.l, 0.0, 0.5 * m + 0.5 * before.c))
    {
      hide Selection, CapabilityMatch, Drawn, Distinct, ExpLaws;
      var sampled := SampleWorker(exp, context, override, u);
      if sampled.Raised? {
        return Raised(sampled.error);
      }
      var worker := workers[sampled.value];
      var capMatch := CapabilityMatch(worker.tags, context);
      assert executions[sampled.value] in executions;
      MatchInUnit(worker.tags, context);
      Record(sampled.value, executions[sampled.value], capMatch);
      return Done(sampled.value);
    }

    /** Deposits the outcome of the i-th worker. */
    method Record(i: nat, e: Execution, m: real)
      requires Valid() && i < |workers| && 0.0 <= m <= 1.0
      modifies field.state, field`rows
      ensures field.Valid() && (SaneExecution(e) ==> Valid())
      ensures field.nodeIds == old(field.nodeIds) && |field.rows| == |old(field.rows)| == |workers|
      ensures forall j :: 0 <= j < |workers| && j != i ==> field.rows[j] == old(field.rows)[j]
      ensures var before := old(field.rows)[i];
              && (e.Result? ==>
                    field.rows[i] == Row(0.5 * (if e.success then 1.0 else 0.0) + 0.5 * before.v,
                                         0.5 * e.latency + 0.5 * before.l, e.activeLoad as real * field.saturationScale,
                                         0.5 * m + 0.5 * before.c))
              && (e.Exception? ==>
                    field.rows[i] == Row(0.5 * before.v, 0.5 * before.l, 0.0, 0.5 * m + 0.5 * before.c))
    {
      hide DepositRow, Enumerate, Distinct;
      RecordedRow(field.rows[i], e, m, field.saturationScale);
      var id := workers[i].id;
      assert field.nodeIds[i] == id;
      IndexInvertsList(field.nodeIds, i);
      var deposited := field.DepositTrace(id, SampleOf(e, m));
      if SaneExecution(e) {
        DepositNonNegative(old(field.rows)[i], e, m, field.saturationScale);
      }
    }
  }
}
