/** What pruning does to the selection: registry, field, score and softmax together. */
module Pruning {
  import opened RealMath
  import opened Traces
  import opened Router

  /** What pruning weighs in favour of the node: the load it erases against 999 seconds of latency. */
  function PruningGain(w: Weights, row: Row): real {
    Attraction(w, row) * (w.gamma * row.s - 999.0 * w.beta - EPS)
    + EPS * (Resistance(w, row) + w.gamma * row.s - 999.0 * w.beta)
  }

  lemma PrunedParts(w: Weights, row: Row, scale: real)
    ensures var pruned := DepositRow(row, FAILURE, scale);
            && pruned == Row(0.5 * row.v, 499.5 + 0.5 * row.l, 0.0, 0.5 * row.c)
            && Attraction(w, pruned) == 0.5 * Attraction(w, row)
            && Resistance(w, pruned) == 499.5 * w.beta + 0.5 * (Resistance(w, row) - w.gamma * row.s)
  {
    assert w.alpha * (0.5 * row.v) == 0.5 * (w.alpha * row.v);
    assert w.delta * (0.5 * row.c) == 0.5 * (w.delta * row.c);
    assert w.beta * (499.5 + 0.5 * row.l) == 499.5 * w.beta + 0.5 * (w.beta * row.l);
  }

  /** n, d: attraction and resistance; s: its load part; b: the weight of latency. */
  lemma PruningGap(n: real, d: real, s: real, b: real)
    ensures (0.5 * n + EPS) * (d + EPS) > (n + EPS) * (499.5 * b + 0.5 * (d - s) + EPS)
            <==> n * (s - 999.0 * b - EPS) + EPS * (d + s - 999.0 * b) > 0.0
  {
    var gap := (0.5 * n + EPS) * (d + EPS) - (n + EPS) * (499.5 * b + 0.5 * (d - s) + EPS);
    assert gap == 0.5 * (n * (s - 999.0 * b - EPS) + EPS * (d + s - 999.0 * b));
  }

  /** The failure deposit raises a score if and only if PruningGain is positive. */
  lemma PrunedScoreRisesIff(w: Weights, row: Row, scale: real)
    requires NonNegativeWeights(w) && NonNegative(row)
    ensures var pruned := DepositRow(row, FAILURE, scale);
            && NonNegative(pruned)
            && Resistance(w, row) + EPS > 0.0 && Resistance(w, pruned) + EPS > 0.0
            && (Score(w, pruned) > Score(w, row) <==> PruningGain(w, row) > 0.0)
  {
    hide Score, Attraction, Resistance;
    PrunedParts(w, row, scale);
    ScoreRisesIff(w, row, DepositRow(row, FAILURE, scale));
    PruningGap(Attraction(w, row), Resistance(w, row), w.gamma * row.s, w.beta);
  }

  /** Main result.  Unless it is the only node, pruning a node raises the probability of selecting it
      if and only if its gain is positive and the request does not rule it out; otherwise no other
      node loses by it. */
  lemma PruningRepels(
    exp: Exponential, w: Weights, nodes: seq<Node>, i: nat, context: Context, temperature: real, scale: real)
    requires ExpLaws(exp) && temperature > 0.0 && i < |nodes| && Sane(w, nodes, context)
    ensures var pruned := nodes[i := Node(DepositRow(nodes[i].row, FAILURE, scale), nodes[i].tags)];
            && Sane(w, pruned, context)
            && var before := Selection(exp, w, nodes, context, temperature);
               var after := Selection(exp, w, pruned, context, temperature);
               && |before| == |after| == |nodes|
               && (after[i] > before[i]
                   <==> |nodes| >= 2 && PruningGain(w, nodes[i].row) > 0.0
                        && (context == [] || CapabilityMatch(nodes[i].tags, context) > 0.0))
               && (PruningGain(w, nodes[i].row) <= 0.0 ==>
                     forall j :: 0 <= j < |nodes| && j != i ==> after[j] >= before[j])
  {
    hide Selection, Score, CapabilityMatch, PruningGain, DepositRow, Attraction, Resistance;
    PrunedScoreRisesIff(w, nodes[i].row, scale);
    RowChangeMovesSelection(exp, w, nodes, i, DepositRow(nodes[i].row, FAILURE, scale), context, temperature);
    SelectionLength(exp, w, nodes, context, temperature);
  }

  /** A node whose weighted load stays below 499.5 times the weight of latency never gains. */
  lemma OrdinaryLoadNeverGains(w: Weights, row: Row)
    requires NonNegativeWeights(w) && NonNegative(row)
    requires w.gamma * row.s <= w.beta * (499.5 - row.l / 2.0)
    ensures PruningGain(w, row) <= 0.0
  {
    hide Attraction;
    PartsNonNegative(w, row);
    ScaleMonotone(0.0, row.s, w.gamma);
    ScaleMonotone(0.0, row.l, w.beta);
    var s, l, p := w.gamma * row.s, w.beta * row.l, 999.0 * w.beta;
    assert w.beta * (499.5 - row.l / 2.0) == 0.5 * p - 0.5 * l;
    ScaleMonotone(s - p - EPS, 0.0, Attraction(w, row));
  }

  /** So it happens: under the default weights a fresh node loaded with twenty thousand requests gains by
      being pruned, and in a router configured to ignore latency one with a single request does. */
  lemma PruningCanAttract(scale: real)
    ensures Gains(DEFAULT_WEIGHTS, BASELINE.(s := 2000.0), scale)
    ensures Gains(Weights(1.0, 0.0, 1.5, 1.5), BASELINE.(s := 0.1), scale)
  {
    hide Score;
    PrunedScoreRisesIff(DEFAULT_WEIGHTS, BASELINE.(s := 2000.0), scale);
    PrunedScoreRisesIff(Weights(1.0, 0.0, 1.5, 1.5), BASELINE.(s := 0.1), scale);
  }

  ghost predicate Gains(w: Weights, row: Row, scale: real) {
    var pruned := DepositRow(row, FAILURE, scale);
    && Resistance(w, row) + EPS > 0.0 && Resistance(w, pruned) + EPS > 0.0
    && Score(w, pruned) > Score(w, row)
  }

  /** A pruned node keeps its place in the field, and with both flags on evaporation brings a score
      below one back up, tick by tick, without passing one: the exclusion wears off. */
  lemma ExclusionWearsOff(w: Weights, row: Row, scale: real, rate: real, m: nat, n: nat)
    requires NonNegativeWeights(w) && NonNegative(row) && 0.0 <= rate < 1.0
    ensures var pruned := DepositRow(row, FAILURE, scale);
            var sooner := EvaporateTimes(pruned, rate, Flags(true, true), m);
            var later := EvaporateTimes(sooner, rate, Flags(true, true), n);
            && NonNegative(pruned) && NonNegative(sooner) && NonNegative(later)
            && Resistance(w, pruned) + EPS > 0.0 && Resistance(w, sooner) + EPS > 0.0
            && Resistance(w, later) + EPS > 0.0
            && (Score(w, pruned) <= 1.0 ==> Score(w, pruned) <= Score(w, sooner) <= Score(w, later) <= 1.0)
  {
    hide Score, Attraction, Resistance, EvaporateTimes;
    var pruned := DepositRow(row, FAILURE, scale);
    EvaporationMovesScores(w, pruned, rate, Flags(true, true), m);
    EvaporationMovesScores(w, EvaporateTimes(pruned, rate, Flags(true, true), m), rate, Flags(true, true), n);
  }
}
