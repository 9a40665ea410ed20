/** Scoring, capability boost and Boltzmann selection. */
module Router {
  import opened RealMath
  import opened Traces

  datatype Weights = Weights(alpha: real, beta: real, gamma: real, delta: real)

  const EPS: real := 0.00001

  function Attraction(w: Weights, row: Row): real {
    w.alpha * row.v + w.delta * row.c
  }

  function Resistance(w: Weights, row: Row): real {
    w.beta * row.l + w.gamma * row.s
  }

  /** (alpha V + delta C + eps) / (beta L + gamma S + eps). */
  function Score(w: Weights, row: Row): real
    requires Resistance(w, row) + EPS != 0.0
  {
    (Attraction(w, row) + EPS) / (Resistance(w, row) + EPS)
  }

  ghost predicate NonNegativeWeights(w: Weights) {
    w.alpha >= 0.0 && w.beta >= 0.0 && w.gamma >= 0.0 && w.delta >= 0.0
  }

  ghost predicate NonNegative(row: Row) {
    row.v >= 0.0 && row.l >= 0.0 && row.s >= 0.0 && row.c >= 0.0
  }

  lemma PartsNonNegative(w: Weights, row: Row)
    requires NonNegativeWeights(w) && NonNegative(row)
    ensures Attraction(w, row) >= 0.0 && Resistance(w, row) >= 0.0
  {
    ScaleMonotone(0.0, row.v, w.alpha);
    ScaleMonotone(0.0, row.c, w.delta);
    ScaleMonotone(0.0, row.l, w.beta);
    ScaleMonotone(0.0, row.s, w.gamma);
  }

  lemma QuotientPositive(a: real, b: real)
    requires a > 0.0 && b > 0.0
    ensures a / b > 0.0
  {
    CompareQuotients(0.0, 1.0, a, b);
  }

  lemma ScorePositive(w: Weights, row: Row)
    requires NonNegativeWeights(w) && NonNegative(row)
    ensures Resistance(w, row) + EPS > 0.0 && Score(w, row) > 0.0
  {
    PartsNonNegative(w, row);
    QuotientPositive(Attraction(w, row) + EPS, Resistance(w, row) + EPS);
  }

  // ------------------------------------------------------------------ a better node

  /** At least as successful and capable, at most as slow and loaded. */
  ghost predicate Better(better: Row, row: Row) {
    better.v >= row.v && better.c >= row.c && better.l <= row.l && better.s <= row.s
  }

  lemma BetterParts(w: Weights, better: Row, row: Row)
    requires NonNegativeWeights(w) && Better(better, row)
    ensures Attraction(w, better) >= Attraction(w, row) && Resistance(w, better) <= Resistance(w, row)
  {
    ScaleMonotone(row.v, better.v, w.alpha);
    ScaleMonotone(row.c, better.c, w.delta);
    ScaleMonotone(better.l, row.l, w.beta);
    ScaleMonotone(better.s, row.s, w.gamma);
  }

  lemma QuotientMonotone(a: real, b: real, a': real, b': real)
    requires 0.0 <= a <= a' && 0.0 < b' <= b
    ensures a / b <= a' / b'
  {
    ScaleMonotone(a, a', b');
    ScaleMonotone(b', b, a');
    CompareQuotients(a, b, a', b');
  }

  lemma BetterScore(w: Weights, better: Row, row: Row)
    requires NonNegativeWeights(w) && NonNegative(row) && NonNegative(better) && Better(better, row)
    ensures Resistance(w, row) + EPS > 0.0 && Resistance(w, better) + EPS > 0.0
    ensures Score(w, better) >= Score(w, row)
  {
    PartsNonNegative(w, row);
    PartsNonNegative(w, better);
    BetterParts(w, better, row);
    QuotientMonotone(Attraction(w, row) + EPS, Resistance(w, row) + EPS,
                     Attraction(w, better) + EPS, Resistance(w, better) + EPS);
  }

  // ------------------------------------------------------------------ capability match

  /** The context dictionary in iteration order. */
  type Context = seq<(string, real)>

  function Total(context: Context): real {
    if context == [] then 0.0 else Total(context[..|context| - 1]) + context[|context| - 1].1
  }

  function Matched(tags: seq<string>, context: Context): real {
    if context == [] then 0.0
    else Matched(tags, context[..|context| - 1])
         + (if context[|context| - 1].0 in tags then context[|context| - 1].1 else 0.0)
  }

  function CapabilityMatch(tags: seq<string>, context: Context): real {
    if context == [] || tags == [] then 0.5
    else if Total(context) <= 0.0 then 0.5
    else
      var share := Matched(tags, context) / Total(context);
      if share < 1.0 then share else 1.0
  }

  ghost predicate NonNegativeContext(context: Context) {
    forall i :: 0 <= i < |context| ==> context[i].1 >= 0.0
  }

  ghost predicate Superset(more: seq<string>, tags: seq<string>) {
    forall t :: t in tags ==> t in more
  }

  lemma {:induction false} MatchedMonotone(tags: seq<string>, more: seq<string>, context: Context)
    requires NonNegativeContext(context) && Superset(more, tags)
    ensures 0.0 <= Matched(tags, context) <= Matched(more, context) <= Total(context)
  {
    if context != [] {
      MatchedMonotone(tags, more, context[..|context| - 1]);
    }
  }

  /** The match lies in [0, 1] and never falls when a node that has tags gets more of them. */
  lemma MatchMonotone(tags: seq<string>, more: seq<string>, context: Context)
    requires NonNegativeContext(context) && tags != [] && Superset(more, tags)
    ensures 0.0 <= CapabilityMatch(tags, context) <= CapabilityMatch(more, context) <= 1.0
  {
    MatchedMonotone(tags, more, context);
    assert tags[0] in more;
    if Total(context) > 0.0 {
      var total := Total(context);
      CompareQuotients(0.0, 1.0, Matched(tags, context), total);
      CompareQuotients(Matched(tags, context), total, Matched(more, context), total);
      ScaleMonotone(Matched(tags, context), Matched(more, context), total);
    }
  }

  function WeightsOf(context: Context): seq<real> {
    seq(|context|, i requires 0 <= i < |context| => context[i].1)
  }

  function MatchedWeights(tags: seq<string>, context: Context): seq<real> {
    seq(|context|, i requires 0 <= i < |context| => if context[i].0 in tags then context[i].1 else 0.0)
  }

  lemma {:induction false} SharesAreSums(tags: seq<string>, context: Context)
    ensures Total(context) == Sum(WeightsOf(context)) && Matched(tags, context) == Sum(MatchedWeights(tags, context))
  {
    if context != [] {
      var prefix := context[..|context| - 1];
      SharesAreSums(tags, prefix);
      assert WeightsOf(context)[..|prefix|] == WeightsOf(prefix);
      assert MatchedWeights(tags, context)[..|prefix|] == MatchedWeights(tags, prefix);
    }
  }

  /** The match is the neutral 0.5 without a context, without tags or without positive weight; otherwise it
      is the matched part of the weight, at most one. */
  lemma MatchIs(tags: seq<string>, context: Context)
    ensures var total, matched := Sum(WeightsOf(context)), Sum(MatchedWeights(tags, context));
            var m := CapabilityMatch(tags, context);
            && (context == [] || tags == [] || total <= 0.0 ==> m == 0.5)
            && (context != [] && tags != [] && total > 0.0 ==>
                  && (matched <= total ==> m * total == matched)
                  && (matched >= total ==> m == 1.0))
  {
    hide Sum;
    SharesAreSums(tags, context);
    var total, matched := Total(context), Matched(tags, context);
    if total > 0.0 {
      CompareQuotients(matched, total, 1.0, 1.0);
      CompareQuotients(1.0, 1.0, matched, total);
    }
  }

  /** Declaring first tags: an untagged node gets the neutral 0.5, and loses by declaring tags if and
      only if the tags cover less than half of what the request weighs.  So the match is not
      monotone in the tags, as it is for a node that has some. */
  lemma FirstTagCanHurt(more: seq<string>, context: Context)
    requires more != []
    ensures CapabilityMatch(more, context) < CapabilityMatch([], context)
            <==> Total(context) > 0.0 && 2.0 * Matched(more, context) < Total(context)
  {
    if Total(context) > 0.0 {
      CompareQuotients(Matched(more, context), Total(context), 1.0, 2.0);
    }
  }

  /** So it happens: the request asks for "fast", the node declares "slow". */
  lemma FirstTagHurts()
    ensures Superset(["slow"], [])
    ensures CapabilityMatch(["slow"], [("fast", 1.0)]) < CapabilityMatch([], [("fast", 1.0)])
  {
    var context: Context := [("fast", 1.0)];
    assert context[..0] == [];
    assert Total(context) == 1.0;
    assert Matched(["slow"], context) == 0.0;
    FirstTagCanHurt(["slow"], context);
  }

  // ------------------------------------------------------------------ softmax

  type Exponential = real -> real

  /** Names an instance of a law. */
  predicate For(x: real, y: real) { true }

  ghost predicate ExpLaws(exp: Exponential) {
    && exp(0.0) == 1.0
    && (forall x, y {:trigger For(x, y)} ::
          && exp(x) > 0.0
          && exp(x + y) == exp(x) * exp(y)
          && (x < y ==> exp(x) < exp(y)))
  }

  function Sum(xs: seq<real>): real {
    if xs == [] then 0.0 else Sum(xs[..|xs| - 1]) + xs[|xs| - 1]
  }

  function Largest(xs: seq<real>): real
    requires xs != []
  {
    if |xs| == 1 then xs[0]
    else
      var m := Largest(xs[..|xs| - 1]);
      if m < xs[|xs| - 1] then xs[|xs| - 1] else m
  }

  function Scale(xs: seq<real>, temperature: real): seq<real>
    requires temperature != 0.0
  {
    seq(|xs|, i requires 0 <= i < |xs| => xs[i] / temperature)
  }

  function Exponentials(exp: Exponential, scaled: seq<real>, shift: real): seq<real> {
    seq(|scaled|, i requires 0 <= i < |scaled| => exp(scaled[i] - shift))
  }

  function Normalised(xs: seq<real>): seq<real>
    requires Sum(xs) != 0.0
  {
    seq(|xs|, i requires 0 <= i < |xs| => xs[i] / Sum(xs))
  }

  lemma {:induction false} SumPositive(xs: seq<real>)
    requires forall i :: 0 <= i < |xs| ==> xs[i] > 0.0
    ensures Sum(xs) >= 0.0 && (xs != [] ==> Sum(xs) > 0.0)
    ensures forall i :: 0 <= i < |xs| ==> xs[i] <= Sum(xs)
  {
    if xs != [] { SumPositive(xs[..|xs| - 1]); }
  }

  lemma ExponentialsPositive(exp: Exponential, scaled: seq<real>, shift: real)
    requires ExpLaws(exp)
    ensures var es := Exponentials(exp, scaled, shift);
            (forall i :: 0 <= i < |es| ==> es[i] > 0.0) && (scaled != [] ==> Sum(es) > 0.0)
  {
    var es := Exponentials(exp, scaled, shift);
    forall i | 0 <= i < |es| ensures es[i] > 0.0 {
      assert For(scaled[i] - shift, 0.0);
    }
    SumPositive(es);
  }

  /** compute_probabilities: the largest scaled score is subtracted before exponentiation. */
  function Probabilities(exp: Exponential, scores: seq<real>, temperature: real): seq<real>
    requires ExpLaws(exp) && temperature > 0.0 && scores != []
  {
    var scaled := Scale(scores, temperature);
    ExponentialsPositive(exp, scaled, Largest(scaled));
    Normalised(Exponentials(exp, scaled, Largest(scaled)))
  }

  lemma {:induction false} SumScaled(xs: seq<real>, ys: seq<real>, k: real)
    requires |xs| == |ys| && forall i :: 0 <= i < |xs| ==> ys[i] == xs[i] * k
    ensures Sum(ys) == Sum(xs) * k
  {
    if xs != [] {
      SumScaled(xs[..|xs| - 1], ys[..|ys| - 1], k);
    }
  }

  lemma SameRatio(x: real, total: real, k: real, y: real, total': real)
    requires total > 0.0 && k > 0.0 && y == x * k && total' == total * k
    ensures total' > 0.0 && y / total' == x / total
  {
    ScaleStrict(0.0, total, k);
    var q := x / total;
    assert q * total == x;
    assert q * total' == (q * total) * k;
    QuotientUnique(y, total', q);
  }

  /** The stabilising shift does not change the distribution. */
  lemma ShiftInvariant(exp: Exponential, scaled: seq<real>, shift: real)
    requires ExpLaws(exp) && scaled != []
    ensures Sum(Exponentials(exp, scaled, shift)) > 0.0 && Sum(Exponentials(exp, scaled, 0.0)) > 0.0
    ensures Normalised(Exponentials(exp, scaled, shift)) == Normalised(Exponentials(exp, scaled, 0.0))
  {
    var shifted, plain := Exponentials(exp, scaled, shift), Exponentials(exp, scaled, 0.0);
    ExponentialsPositive(exp, scaled, shift);
    ExponentialsPositive(exp, scaled, 0.0);
    assert exp(-shift) > 0.0 by { assert For(-shift, 0.0); }
    ShiftIsFactor(exp, scaled, shift);
    SameShares(plain, shifted, exp(-shift));
  }

  lemma ShiftIsFactor(exp: Exponential, scaled: seq<real>, shift: real)
    requires ExpLaws(exp)
    ensures forall i :: 0 <= i < |scaled| ==>
              Exponentials(exp, scaled, shift)[i] == Exponentials(exp, scaled, 0.0)[i] * exp(-shift)
  {
    forall i | 0 <= i < |scaled|
      ensures Exponentials(exp, scaled, shift)[i] == Exponentials(exp, scaled, 0.0)[i] * exp(-shift)
    {
      assert For(scaled[i], -shift);
      assert scaled[i] - shift == scaled[i] + -shift && scaled[i] - 0.0 == scaled[i];
    }
  }

  lemma SameShares(xs: seq<real>, ys: seq<real>, k: real)
    requires |xs| == |ys| && Sum(xs) > 0.0 && k > 0.0
    requires forall i :: 0 <= i < |xs| ==> ys[i] == xs[i] * k
    ensures Sum(ys) > 0.0 && Normalised(ys) == Normalised(xs)
  {
    hide Sum;
    SumScaled(xs, ys, k);
    ScaleStrict(0.0, Sum(xs), k);
    forall i | 0 <= i < |xs| ensures Normalised(ys)[i] == Normalised(xs)[i] {
      SameRatio(xs[i], Sum(xs), k, ys[i], Sum(ys));
    }
  }

  lemma {:induction false} SumAfterUpdate(xs: seq<real>, i: nat, y: real)
    requires i < |xs|
    ensures Sum(xs[i := y]) == Sum(xs) - xs[i] + y
  {
    if i < |xs| - 1 {
      SumAfterUpdate(xs[..|xs| - 1], i, y);
      assert xs[i := y][..|xs| - 1] == xs[..|xs| - 1][i := y];
    } else {
      assert xs[i := y][..|xs| - 1] == xs[..|xs| - 1];
    }
  }

  /** Raising one weight of a normalised sum raises its share and lowers every other one. */
  lemma ShareMoves(xs: seq<real>, i: nat, y: real)
    requires i < |xs| && (forall k :: 0 <= k < |xs| ==> xs[k] > 0.0) && y >= xs[i]
    ensures Sum(xs) > 0.0 && Sum(xs[i := y]) > 0.0
    ensures var before, after := Normalised(xs), Normalised(xs[i := y]);
            after[i] >= before[i] && forall j :: 0 <= j < |xs| && j != i ==> after[j] <= before[j]
  {
    SumPositive(xs);
    SumAfterUpdate(xs, i, y);
    var total, total' := Sum(xs), Sum(xs[i := y]);
    ShareGrows(xs[i], y, total);
    forall j | 0 <= j < |xs| && j != i ensures xs[j] / total' <= xs[j] / total {
      QuotientMonotone(xs[j], total', xs[j], total);
    }
  }

  lemma ShareGrows(x: real, y: real, total: real)
    requires 0.0 < x <= y && x <= total
    ensures total - x + y > 0.0 && x / total <= y / (total - x + y)
  {
    var rest := total - x;
    ScaleMonotone(x, y, rest);
    assert x * (rest + y) == x * rest + x * y;
    assert y * total == y * rest + y * x;
    CompareQuotients(x, total, y, rest + y);
  }

  lemma ExpMonotone(exp: Exponential, x: real, y: real)
    requires ExpLaws(exp) && x <= y
    ensures exp(x) <= exp(y)
  {
    assert For(x, y);
  }

  /** Raising one score never lowers its probability and never raises another one. */
  lemma ProbabilityMonotone(exp: Exponential, scores: seq<real>, i: nat, s: real, temperature: real)
    requires ExpLaws(exp) && temperature > 0.0 && i < |scores| && s >= scores[i]
    ensures var before := Probabilities(exp, scores, temperature);
            var after := Probabilities(exp, scores[i := s], temperature);
            after[i] >= before[i] && forall j :: 0 <= j < |scores| && j != i ==> after[j] <= before[j]
  {
    var scaled, scaled' := Scale(scores, temperature), Scale(scores[i := s], temperature);
    ShiftInvariant(exp, scaled, Largest(scaled));
    ShiftInvariant(exp, scaled', Largest(scaled'));
    CompareQuotients(scores[i], temperature, s, temperature);
    ScaleMonotone(scores[i], s, temperature);
    ExpMonotone(exp, scaled[i] - 0.0, scaled'[i] - 0.0);
    var es := Exponentials(exp, scaled, 0.0);
    assert Exponentials(exp, scaled', 0.0) == es[i := exp(scaled'[i] - 0.0)];
    ExponentialsPositive(exp, scaled, 0.0);
    ShareMoves(es, i, exp(scaled'[i] - 0.0));
  }

  lemma ShareGrowsStrictly(x: real, y: real, total: real)
    requires 0.0 < x < y && x < total
    ensures x / total < y / (total - x + y)
  {
    var rest := total - x;
    ScaleStrict(x, y, rest);
    assert x * (rest + y) == x * rest + x * y;
    assert y * total == y * rest + y * x;
    CompareQuotients(x, total, y, rest + y);
  }

  lemma {:induction false} PartOfSum(xs: seq<real>, i: nat)
    requires i < |xs| && |xs| >= 2 && forall k :: 0 <= k < |xs| ==> xs[k] > 0.0
    ensures xs[i] < Sum(xs)
  {
    var prefix := xs[..|xs| - 1];
    SumPositive(prefix);
    if i < |prefix| { assert prefix[i] <= Sum(prefix); }
  }

  lemma StrictShare(xs: seq<real>, i: nat, y: real)
    requires i < |xs| && |xs| >= 2 && (forall k :: 0 <= k < |xs| ==> xs[k] > 0.0) && y > xs[i]
    ensures Sum(xs) > 0.0 && Sum(xs[i := y]) > 0.0
    ensures Normalised(xs[i := y])[i] > Normalised(xs)[i]
  {
    hide Sum;
    SumPositive(xs);
    SumAfterUpdate(xs, i, y);
    PartOfSum(xs, i);
    ShareGrowsStrictly(xs[i], y, Sum(xs));
  }

  /** Raising one score strictly raises its probability, unless it is the only one. */
  lemma StrictProbability(exp: Exponential, scores: seq<real>, i: nat, s: real, temperature: real)
    requires ExpLaws(exp) && temperature > 0.0 && i < |scores| && |scores| >= 2 && s > scores[i]
    ensures Probabilities(exp, scores[i := s], temperature)[i] > Probabilities(exp, scores, temperature)[i]
  {
    hide Sum, Largest;
    var scaled, scaled' := Scale(scores, temperature), Scale(scores[i := s], temperature);
    ShiftInvariant(exp, scaled, Largest(scaled));
    ShiftInvariant(exp, scaled', Largest(scaled'));
    CompareQuotients(scores[i], temperature, s, temperature);
    ScaleStrict(scores[i], s, temperature);
    assert For(scaled[i] - 0.0, scaled'[i] - 0.0);
    var es := Exponentials(exp, scaled, 0.0);
    assert Exponentials(exp, scaled', 0.0) == es[i := exp(scaled'[i] - 0.0)];
    ExponentialsPositive(exp, scaled, 0.0);
    StrictShare(es, i, exp(scaled'[i] - 0.0));
  }

  lemma {:induction false} SumDivided(xs: seq<real>, ys: seq<real>, total: real)
    requires total != 0.0 && |xs| == |ys| && forall i :: 0 <= i < |xs| ==> ys[i] == xs[i] / total
    ensures Sum(ys) == Sum(xs) / total
  {
    if xs != [] {
      SumDivided(xs[..|xs| - 1], ys[..|ys| - 1], total);
      QuotientAdds(Sum(xs[..|xs| - 1]), xs[|xs| - 1], total);
    }
  }

  lemma QuotientAdds(a: real, b: real, total: real)
    requires total != 0.0
    ensures a / total + b / total == (a + b) / total
  {
    var p, q := a / total, b / total;
    assert p * total == a && q * total == b;
    QuotientUnique(a + b, total, p + q);
  }

  /** The probabilities are positive and sum to one: every node can be drawn. */
  lemma ProbabilitiesDistribute(exp: Exponential, scores: seq<real>, temperature: real)
    requires ExpLaws(exp) && temperature > 0.0 && scores != []
    ensures var p := Probabilities(exp, scores, temperature);
            |p| == |scores| && Sum(p) == 1.0 && forall i :: 0 <= i < |p| ==> 0.0 < p[i] <= 1.0
  {
    var scaled := Scale(scores, temperature);
    ExponentialsPositive(exp, scaled, Largest(scaled));
    SharesDistribute(Exponentials(exp, scaled, Largest(scaled)));
  }

  lemma SharesDistribute(es: seq<real>)
    requires es != [] && forall i :: 0 <= i < |es| ==> es[i] > 0.0
    ensures Sum(es) > 0.0
    ensures var p := Normalised(es);
            |p| == |es| && Sum(p) == 1.0 && forall i :: 0 <= i < |p| ==> 0.0 < p[i] <= 1.0
  {
    hide Sum;
    SumPositive(es);
    var p, total := Normalised(es), Sum(es);
    SumDivided(es, p, total);
    QuotientUnique(total, total, 1.0);
    forall i | 0 <= i < |p| ensures p[i] > 0.0 {
      QuotientPositive(es[i], total);
    }
    SumPositive(p);
  }

  lemma OnlyNode(exp: Exponential, scores: seq<real>, temperature: real)
    requires ExpLaws(exp) && temperature > 0.0 && |scores| == 1
    ensures Probabilities(exp, scores, temperature) == [1.0]
  {
    hide Probabilities;
    ProbabilitiesDistribute(exp, scores, temperature);
    var p := Probabilities(exp, scores, temperature);
    assert Sum(p) == Sum(p[..0]) + p[0];
  }

  /** A probability rises if and only if its score does, unless it is the only one; and then no
      other one rises. */
  lemma ProbabilityFollowsScore(exp: Exponential, scores: seq<real>, i: nat, s: real, temperature: real)
    requires ExpLaws(exp) && temperature > 0.0 && i < |scores|
    ensures var before := Probabilities(exp, scores, temperature);
            var after := Probabilities(exp, scores[i := s], temperature);
            && |before| == |after| == |scores|
            && (after[i] > before[i] <==> |scores| >= 2 && s > scores[i])
            && (after[i] < before[i] <==> |scores| >= 2 && s < scores[i])
            && (s >= scores[i] ==> forall j :: 0 <= j < |scores| && j != i ==> after[j] <= before[j])
            && (s <= scores[i] ==> forall j :: 0 <= j < |scores| && j != i ==> after[j] >= before[j])
  {
    hide Probabilities;
    var changed := scores[i := s];
    assert changed[i := scores[i]] == scores;
    ProbabilitiesDistribute(exp, scores, temperature);
    ProbabilitiesDistribute(exp, changed, temperature);
    if s >= scores[i] { ProbabilityMonotone(exp, scores, i, s, temperature); }
    if s <= scores[i] { ProbabilityMonotone(exp, changed, i, scores[i], temperature); }
    if |scores| == 1 {
      OnlyNode(exp, scores, temperature);
      OnlyNode(exp, changed, temperature);
    } else if s > scores[i] {
      StrictProbability(exp, scores, i, s, temperature);
    } else if s < scores[i] {
      StrictProbability(exp, changed, i, scores[i], temperature);
    }
  }

  // ------------------------------------------------------------------ the Boltzmann law

  /** The probabilities without the shift. */
  lemma Unshifted(exp: Exponential, scores: seq<real>, temperature: real, shift: real)
    requires ExpLaws(exp) && temperature > 0.0 && scores != []
    ensures Sum(Exponentials(exp, Scale(scores, temperature), shift)) > 0.0
    ensures Probabilities(exp, scores, temperature) == Normalised(Exponentials(exp, Scale(scores, temperature), shift))
  {
    hide Sum, Largest, ExpLaws;
    var scaled := Scale(scores, temperature);
    ShiftInvariant(exp, scaled, Largest(scaled));
    ShiftInvariant(exp, scaled, shift);
  }

  lemma SwapQuotients(a: real, b: real, total: real)
    requires total > 0.0
    ensures a / total * b == b / total * a
  {
    var p, q := a / total, b / total;
    assert p * total == a && q * total == b;
    assert p * b == p * (q * total) && q * a == q * (p * total);
  }

  /** The Boltzmann law: probabilities are as exp(score / temperature).  With their sum one it determines
      them. */
  lemma BoltzmannRatio(exp: Exponential, scores: seq<real>, temperature: real, i: nat, j: nat)
    requires ExpLaws(exp) && temperature > 0.0 && i < |scores| && j < |scores|
    ensures var p := Probabilities(exp, scores, temperature);
            |p| == |scores| && p[i] * exp(scores[j] / temperature) == p[j] * exp(scores[i] / temperature)
  {
    hide Probabilities, Sum, ExpLaws;
    Unshifted(exp, scores, temperature, 0.0);
    var es := Exponentials(exp, Scale(scores, temperature), 0.0);
    var a, b := scores[i] / temperature, scores[j] / temperature;
    assert a - 0.0 == a && b - 0.0 == b;
    assert es[i] == exp(a) && es[j] == exp(b);
    SwapQuotients(exp(a), exp(b), Sum(es));
  }

  lemma {:induction false} SumMonotone(xs: seq<real>, ys: seq<real>)
    requires |xs| == |ys| && forall k :: 0 <= k < |xs| ==> xs[k] <= ys[k]
    ensures Sum(xs) <= Sum(ys)
  {
    if xs != [] { SumMonotone(xs[..|xs| - 1], ys[..|ys| - 1]); }
  }

  /** Dividing a gap by less makes it wider. */
  lemma WiderGap(s: real, best: real, cool: real, warm: real)
    requires s <= best && 0.0 < cool <= warm
    ensures s / cool - best / cool <= s / warm - best / warm
  {
    var gap := s - best;
    QuotientDifference(s, best, cool);
    QuotientDifference(s, best, warm);
    ScaleMonotone(cool, warm, best - s);
    CompareQuotients(gap, cool, gap, warm);
  }

  lemma QuotientDifference(a: real, b: real, k: real)
    requires k > 0.0
    ensures (a - b) / k == a / k - b / k
  {
    var p, q := a / k, b / k;
    assert p * k == a && q * k == b;
    QuotientUnique(a - b, k, p - q);
  }

  /** A lower temperature never lowers the probability of a best node. */
  lemma CoolerFavoursBest(exp: Exponential, scores: seq<real>, i: nat, cool: real, warm: real)
    requires ExpLaws(exp) && 0.0 < cool <= warm && i < |scores|
    requires forall j :: 0 <= j < |scores| ==> scores[j] <= scores[i]
    ensures |Probabilities(exp, scores, cool)| == |Probabilities(exp, scores, warm)| == |scores|
    ensures Probabilities(exp, scores, cool)[i] >= Probabilities(exp, scores, warm)[i]
  {
    hide Probabilities, Sum, ExpLaws;
    var a, b := Scale(scores, cool), Scale(scores, warm);
    Unshifted(exp, scores, cool, a[i]);
    Unshifted(exp, scores, warm, b[i]);
    var xs, ys := Exponentials(exp, a, a[i]), Exponentials(exp, b, b[i]);
    forall j | 0 <= j < |scores| ensures xs[j] <= ys[j] {
      WiderGap(scores[j], scores[i], cool, warm);
      ExpMonotone(exp, a[j] - a[i], b[j] - b[i]);
    }
    SumMonotone(xs, ys);
    assert xs[i] == 1.0 && ys[i] == 1.0 by { ExpZero(exp); }
    QuotientMonotone(1.0, Sum(ys), 1.0, Sum(xs));
  }

  lemma ExpZero(exp: Exponential)
    requires ExpLaws(exp)
    ensures exp(0.0) == 1.0
  {
  }

  // ------------------------------------------------------------------ the draw

  /** The position a uniform draw u in [0, 1) falls on: the one whose slice of the running sum holds u. */
  function Chosen(p: seq<real>, u: real): (i: nat)
    requires p != [] && 0.0 <= u < Sum(p)
    ensures i < |p| && InSlice(p, u, i)
  {
    assert p[..|p|] == p;
    if u >= Sum(p[..|p| - 1]) then
      assert p[..|p| - 1 + 1] == p;
      |p| - 1
    else
      var i := Chosen(p[..|p| - 1], u);
      assert p[..|p| - 1][..i] == p[..i] && p[..|p| - 1][..i + 1] == p[..i + 1];
      i
  }

  predicate InSlice(p: seq<real>, u: real, i: nat)
    requires i < |p|
  {
    Sum(p[..i]) <= u < Sum(p[..i + 1])
  }

  lemma {:induction false} RunningSum(p: seq<real>, i: nat, j: nat)
    requires i <= j <= |p| && forall k :: 0 <= k < |p| ==> p[k] >= 0.0
    ensures Sum(p[..i]) <= Sum(p[..j])
  {
    if i < j {
      RunningSum(p, i, j - 1);
      assert p[..j][..j - 1] == p[..j - 1];
    }
  }

  lemma SliceLength(p: seq<real>, i: nat)
    requires i < |p|
    ensures Sum(p[..i + 1]) == Sum(p[..i]) + p[i]
  {
    assert p[..i + 1][..i] == p[..i];
  }

  /** The slices do not overlap. */
  lemma OneSlice(p: seq<real>, u: real, i: nat, j: nat)
    requires i < |p| && j < |p| && (forall k :: 0 <= k < |p| ==> p[k] >= 0.0)
    requires InSlice(p, u, i) && InSlice(p, u, j)
    ensures i == j
  {
    hide Sum;
    if j < i { RunningSum(p, j + 1, i); }
    if i < j { RunningSum(p, i + 1, j); }
  }

  /** Every position is drawn on exactly one slice of [0, 1), and the slice is as long as its probability:
      each can be drawn, and with the probability computed. */
  lemma DrawnWithItsProbability(exp: Exponential, scores: seq<real>, temperature: real, u: real, i: nat)
    requires ExpLaws(exp) && temperature > 0.0 && i < |scores| && 0.0 <= u < 1.0
    ensures var p := Probabilities(exp, scores, temperature);
            && |p| == |scores| && Sum(p) == 1.0
            && (Chosen(p, u) == i <==> InSlice(p, u, i))
            && Sum(p[..i + 1]) - Sum(p[..i]) == p[i] > 0.0
            && 0.0 <= Sum(p[..i]) && Sum(p[..i + 1]) <= 1.0
  {
    hide Probabilities, Sum, InSlice;
    ProbabilitiesDistribute(exp, scores, temperature);
    var p := Probabilities(exp, scores, temperature);
    SliceLength(p, i);
    assert p[..|p|] == p && Sum(p[..0]) == 0.0 by { NothingSummed(); }
    RunningSum(p, 0, i);
    RunningSum(p, i + 1, |p|);
    if InSlice(p, u, i) { OneSlice(p, u, Chosen(p, u), i); }
  }

  lemma NothingSummed()
    ensures Sum([]) == 0.0
  {
  }

  // ------------------------------------------------------------------ the whole selection

  /** A worker's row in the matrix and the tags it declares. */
  datatype Node = Node(row: Row, tags: seq<string>)

  ghost predicate Sane(w: Weights, nodes: seq<Node>, context: Context) {
    NonNegativeWeights(w) && NonNegativeContext(context) && forall i :: 0 <= i < |nodes| ==> NonNegative(nodes[i].row)
  }

  /** A node's score as it enters the softmax: boosted by the capability match if there is a
      context. */
  function BoostedScore(w: Weights, node: Node, context: Context): real
    requires Resistance(w, node.row) + EPS != 0.0
  {
    if context == [] then Score(w, node.row)
    else Score(w, node.row) * CapabilityMatch(node.tags, context)
  }

  function BoostedScores(w: Weights, nodes: seq<Node>, context: Context): seq<real>
    requires forall i :: 0 <= i < |nodes| ==> Resistance(w, nodes[i].row) + EPS != 0.0
  {
    seq(|nodes|, i requires 0 <= i < |nodes| => BoostedScore(w, nodes[i], context))
  }

  lemma AllScored(w: Weights, nodes: seq<Node>, context: Context)
    requires Sane(w, nodes, context)
    ensures forall i :: 0 <= i < |nodes| ==> Resistance(w, nodes[i].row) + EPS > 0.0
  {
    forall i | 0 <= i < |nodes| ensures Resistance(w, nodes[i].row) + EPS > 0.0 {
      PartsNonNegative(w, nodes[i].row);
    }
  }

  function Selection(exp: Exponential, w: Weights, nodes: seq<Node>, context: Context, temperature: real): seq<real>
    requires ExpLaws(exp) && temperature > 0.0 && nodes != [] && Sane(w, nodes, context)
  {
    AllScored(w, nodes, context);
    Probabilities(exp, BoostedScores(w, nodes, context), temperature)
  }

  /** Main result: the odds of any two nodes, written out.  A node's weight is the exponential of its score
      over the temperature, the score boosted by the capability match if the request has a context. */
  lemma SelectionOdds(
    exp: Exponential, w: Weights, nodes: seq<Node>, context: Context, temperature: real, i: nat, j: nat)
    requires ExpLaws(exp) && temperature > 0.0 && i < |nodes| && j < |nodes| && Sane(w, nodes, context)
    ensures var p := Selection(exp, w, nodes, context, temperature);
            |p| == |nodes| && p[i] * exp(Written(w, nodes[j], context) / temperature)
                              == p[j] * exp(Written(w, nodes[i], context) / temperature)
  {
    hide Probabilities, ExpLaws, CapabilityMatch, Attraction, Resistance;
    AllScored(w, nodes, context);
    WrittenIsBoosted(w, nodes[i], context);
    WrittenIsBoosted(w, nodes[j], context);
    BoltzmannRatio(exp, BoostedScores(w, nodes, context), temperature, i, j);
  }

  /** The boosted score of a node in full. */
  function Written(w: Weights, node: Node, context: Context): real {
    var row, m := node.row, if context == [] then 1.0 else CapabilityMatch(node.tags, context);
    var resistance := w.beta * row.l + w.gamma * row.s + 0.00001;
    if resistance == 0.0 then 0.0 else (w.alpha * row.v + w.delta * row.c + 0.00001) / resistance * m
  }

  lemma WrittenIsBoosted(w: Weights, node: Node, context: Context)
    requires Resistance(w, node.row) + EPS > 0.0
    ensures BoostedScore(w, node, context) == Written(w, node, context)
  {
    hide CapabilityMatch;
  }

  lemma BoostMonotone(w: Weights, node: Node, better: Node, context: Context)
    requires NonNegativeWeights(w) && NonNegativeContext(context)
    requires NonNegative(node.row) && NonNegative(better.row) && Better(better.row, node.row)
    requires better.tags == node.tags || (node.tags != [] && Superset(better.tags, node.tags))
    ensures Resistance(w, node.row) + EPS > 0.0 && Resistance(w, better.row) + EPS > 0.0
    ensures BoostedScore(w, better, context) >= BoostedScore(w, node, context)
  {
    hide Attraction, Resistance, Score, Total, Matched, CapabilityMatch;
    BetterScore(w, better.row, node.row);
    ScorePositive(w, node.row);
    if context != [] {
      BetterMatch(node.tags, better.tags, context);
      ProductMonotone(Score(w, node.row), Score(w, better.row),
                      CapabilityMatch(node.tags, context), CapabilityMatch(better.tags, context));
    }
  }

  lemma BetterMatch(tags: seq<string>, more: seq<string>, context: Context)
    requires NonNegativeContext(context)
    requires more == tags || (tags != [] && Superset(more, tags))
    ensures 0.0 <= CapabilityMatch(tags, context) <= CapabilityMatch(more, context)
  {
    if tags != [] {
      MatchMonotone(tags, more, context);
    }
  }

  lemma ProductMonotone(a: real, b: real, m: real, n: real)
    requires 0.0 <= a <= b && 0.0 <= m <= n
    ensures a * m <= b * n
  {
    ScaleMonotone(a, b, m);
    ScaleMonotone(m, n, b);
  }

  /** Main result.  Improving one node, with everything else fixed, never lowers the probability of
      selecting it and never raises that of any other node. */
  lemma ImprovementAttracts(
    exp: Exponential, w: Weights, nodes: seq<Node>, i: nat, better: Node, context: Context, temperature: real)
    requires ExpLaws(exp) && temperature > 0.0 && i < |nodes| && Sane(w, nodes, context) && NonNegative(better.row)
    requires Better(better.row, nodes[i].row)
    requires better.tags == nodes[i].tags || (nodes[i].tags != [] && Superset(better.tags, nodes[i].tags))
    ensures Sane(w, nodes[i := better], context)
    ensures var before := Selection(exp, w, nodes, context, temperature);
            var after := Selection(exp, w, nodes[i := better], context, temperature);
            after[i] >= before[i] && forall j :: 0 <= j < |nodes| && j != i ==> after[j] <= before[j]
  {
    AllScored(w, nodes, context);
    AllScored(w, nodes[i := better], context);
    BoostMonotone(w, nodes[i], better, context);
    var scores := BoostedScores(w, nodes, context);
    assert BoostedScores(w, nodes[i := better], context) == scores[i := BoostedScore(w, better, context)];
    ProbabilityMonotone(exp, scores, i, BoostedScore(w, better, context), temperature);
  }

  /** The probabilities after the change of one score, against those before. */
  ghost predicate Moved(before: seq<real>, after: seq<real>, i: nat, up: bool, down: bool) {
    && i < |before| == |after|
    && (after[i] > before[i] <==> |before| >= 2 && up)
    && (after[i] < before[i] <==> |before| >= 2 && down)
    && (!down ==> forall j :: 0 <= j < |before| && j != i ==> after[j] <= before[j])
    && (!up ==> forall j :: 0 <= j < |before| && j != i ==> after[j] >= before[j])
  }

  /** Replacing one node: unless it is the only one, its probability moves exactly as its boosted
      score, and the others move the other way. */
  lemma SelectionFollowsScore(
    exp: Exponential, w: Weights, nodes: seq<Node>, i: nat, node: Node, context: Context, temperature: real)
    requires ExpLaws(exp) && temperature > 0.0 && i < |nodes| && Sane(w, nodes, context) && NonNegative(node.row)
    ensures Sane(w, nodes[i := node], context)
    ensures Resistance(w, nodes[i].row) + EPS > 0.0 && Resistance(w, node.row) + EPS > 0.0
    ensures Moved(Selection(exp, w, nodes, context, temperature),
                  Selection(exp, w, nodes[i := node], context, temperature), i,
                  BoostedScore(w, node, context) > BoostedScore(w, nodes[i], context),
                  BoostedScore(w, node, context) < BoostedScore(w, nodes[i], context))
  {
    hide Probabilities, BoostedScore;
    AllScored(w, nodes, context);
    AllScored(w, nodes[i := node], context);
    var scores := BoostedScores(w, nodes, context);
    assert nodes[i := node][i] == node;
    assert BoostedScores(w, nodes[i := node], context) == scores[i := BoostedScore(w, node, context)];
    ProbabilityFollowsScore(exp, scores, i, BoostedScore(w, node, context), temperature);
  }

  /** Declaring first tags lowers a node's selection probability, unless it is the only node, exactly
      when they cover less than half of the request. */
  lemma FirstTagRepels(
    exp: Exponential, w: Weights, nodes: seq<Node>, i: nat, more: seq<string>, context: Context, temperature: real)
    requires ExpLaws(exp) && temperature > 0.0 && i < |nodes| && Sane(w, nodes, context)
    requires nodes[i].tags == [] && more != []
    ensures Sane(w, nodes[i := Node(nodes[i].row, more)], context)
    ensures Selection(exp, w, nodes[i := Node(nodes[i].row, more)], context, temperature)[i]
            < Selection(exp, w, nodes, context, temperature)[i]
            <==> |nodes| >= 2 && Total(context) > 0.0 && 2.0 * Matched(more, context) < Total(context)
  {
    hide Selection, Score, CapabilityMatch, Total, Matched;
    SelectionFollowsScore(exp, w, nodes, i, Node(nodes[i].row, more), context, temperature);
    SelectionLength(exp, w, nodes, context, temperature);
    ScorePositive(w, nodes[i].row);
    FirstTagCanHurt(more, context);
    CompareBoosts(Score(w, nodes[i].row), CapabilityMatch(more, context), CapabilityMatch([], context));
    TotalOfNothing();
  }

  lemma SelectionLength(exp: Exponential, w: Weights, nodes: seq<Node>, context: Context, temperature: real)
    requires ExpLaws(exp) && temperature > 0.0 && nodes != [] && Sane(w, nodes, context)
    ensures |Selection(exp, w, nodes, context, temperature)| == |nodes|
  {
  }

  lemma TotalOfNothing()
    ensures Total([]) == 0.0
  {
  }

  lemma CompareBoosts(score: real, m: real, n: real)
    requires score > 0.0
    ensures score * m < score * n <==> m < n
  {
    if m < n { ScaleStrict(m, n, score); } else { ScaleMonotone(n, m, score); }
  }

  /** A node whose row changes and whose tags do not: selection moves as its score does, unless the
      request rules the node out. */
  lemma RowChangeMovesSelection(
    exp: Exponential, w: Weights, nodes: seq<Node>, i: nat, row: Row, context: Context, temperature: real)
    requires ExpLaws(exp) && temperature > 0.0 && i < |nodes| && Sane(w, nodes, context) && NonNegative(row)
    ensures Sane(w, nodes[i := Node(row, nodes[i].tags)], context)
    ensures Resistance(w, nodes[i].row) + EPS > 0.0 && Resistance(w, row) + EPS > 0.0
    ensures var counts := context == [] || CapabilityMatch(nodes[i].tags, context) > 0.0;
            Moved(Selection(exp, w, nodes, context, temperature),
                  Selection(exp, w, nodes[i := Node(row, nodes[i].tags)], context, temperature), i,
                  counts && Score(w, row) > Score(w, nodes[i].row), counts && Score(w, row) < Score(w, nodes[i].row))
  {
    hide Selection, Score, CapabilityMatch, Attraction, Resistance, Moved;
    var node := Node(row, nodes[i].tags);
    SelectionFollowsScore(exp, w, nodes, i, node, context, temperature);
    BoostsCompare(w, nodes[i], row, context);
    var counts := context == [] || CapabilityMatch(nodes[i].tags, context) > 0.0;
    assert (BoostedScore(w, node, context) > BoostedScore(w, nodes[i], context))
        == (counts && Score(w, row) > Score(w, nodes[i].row));
    assert (BoostedScore(w, node, context) < BoostedScore(w, nodes[i], context))
        == (counts && Score(w, row) < Score(w, nodes[i].row));
  }

  /** With the tags unchanged, boosted scores compare as scores, unless the match is zero. */
  lemma BoostsCompare(w: Weights, node: Node, row: Row, context: Context)
    requires NonNegativeContext(context)
    requires Resistance(w, node.row) + EPS > 0.0 && Resistance(w, row) + EPS > 0.0
    ensures var counts := context == [] || CapabilityMatch(node.tags, context) > 0.0;
            var before, after := BoostedScore(w, node, context), BoostedScore(w, Node(row, node.tags), context);
            && (after > before <==> counts && Score(w, row) > Score(w, node.row))
            && (after < before <==> counts && Score(w, row) < Score(w, node.row))
  {
    hide Score, CapabilityMatch, Attraction, Resistance;
    var m := CapabilityMatch(node.tags, context);
    BetterMatch(node.tags, node.tags, context);
    if m > 0.0 {
      CompareBoosts(m, Score(w, node.row), Score(w, row));
      CompareBoosts(m, Score(w, row), Score(w, node.row));
    } else {
      assert Score(w, row) * m == 0.0 && Score(w, node.row) * m == 0.0;
    }
  }

  // ------------------------------------------------------------------ evaporation and scores

  /** Shrinking numerator and denominator alike moves a quotient towards 1 and not past it. */
  lemma TowardsOne(n: real, d: real, f: real)
    requires n >= 0.0 && d >= 0.0 && 0.0 < f <= 1.0
    ensures n * f >= 0.0 && d * f >= 0.0
    ensures var before, after := (n + EPS) / (d + EPS), (n * f + EPS) / (d * f + EPS);
            && (before >= 1.0 ==> 1.0 <= after <= before)
            && (before <= 1.0 ==> before <= after <= 1.0)
  {
    var n', d' := n * f, d * f;
    Shrinks(n, f);
    Shrinks(d, f);
    Proportional(n, d, f);
    CrossGap(n, d, n', d');
    if n <= d { ShrinkingGap(n, d, f); }
    if n >= d { ShrinkingGap(d, n, f); }
    CompareMoved(n + EPS, d + EPS, n' + EPS, d' + EPS);
  }

  lemma Proportional(n: real, d: real, f: real)
    ensures n * f * d == n * (d * f)
  {
  }

  lemma ShrinkingGap(a: real, b: real, f: real)
    requires a <= b && 0.0 <= f <= 1.0
    ensures 0.0 <= b * f - a * f
    ensures b * f - a * f <= b - a
  {
    var d := b - a;
    Shrinks(d, f);
    assert d * f == b * f - a * f;
  }

  lemma CrossGap(n: real, d: real, n': real, d': real)
    requires n' * d == n * d'
    ensures (n' + EPS) * (d + EPS) - (n + EPS) * (d' + EPS) == EPS * ((d - n) - (d' - n'))
  {
  }

  lemma CompareMoved(n: real, d: real, n': real, d': real)
    requires d > 0.0 && d' > 0.0
    requires n <= d ==> n' <= d' && n' * d >= n * d'
    requires n >= d ==> n' >= d' && n' * d <= n * d'
    ensures n / d >= 1.0 ==> 1.0 <= n' / d' <= n / d
    ensures n / d <= 1.0 ==> n / d <= n' / d' <= 1.0
  {
    AgainstOne(n, d);
    AgainstOne(n', d');
    CompareQuotients(n', d', n, d);
    CompareQuotients(n, d, n', d');
  }

  lemma AgainstOne(n: real, d: real)
    requires d > 0.0
    ensures (n / d >= 1.0 <==> n >= d) && (n / d <= 1.0 <==> n <= d)
  {
    CompareQuotients(n, d, 1.0, 1.0);
    CompareQuotients(1.0, 1.0, n, d);
  }

  lemma PartsAfterScaling(w: Weights, row: Row, f: real, flags: Flags)
    ensures Resistance(w, ScaleRow(row, f, flags)) == Resistance(w, row) * f
    ensures flags == Flags(true, true) ==> Attraction(w, ScaleRow(row, f, flags)) == Attraction(w, row) * f
    ensures flags == Flags(false, false) ==> Attraction(w, ScaleRow(row, f, flags)) == Attraction(w, row)
  {
    Distribute(w.beta, row.l, w.gamma, row.s, f);
    Distribute(w.alpha, row.v, w.delta, row.c, f);
  }

  lemma Distribute(a: real, x: real, b: real, y: real, f: real)
    ensures a * (x * f) + b * (y * f) == (a * x + b * y) * f
  {
    assert a * (x * f) == a * x * f;
    assert b * (y * f) == b * y * f;
  }

  /** Any number of evaporations: with both flags on the score moves towards 1 and never past it;
      with both off it never falls; it always stays positive. */
  lemma EvaporationMovesScores(w: Weights, row: Row, rate: real, flags: Flags, n: nat)
    requires NonNegativeWeights(w) && NonNegative(row) && 0.0 <= rate < 1.0
    ensures var later := EvaporateTimes(row, rate, flags, n);
            && NonNegative(later)
            && Resistance(w, row) + EPS > 0.0 && Resistance(w, later) + EPS > 0.0
            && ScoresMoved(Score(w, row), Score(w, later), flags)
  {
    hide Score, Attraction, Resistance, ScaleRow, EvaporateTimes, Pow, ScoresMoved;
    EvaporateTimesIsPower(row, rate, flags, n);
    PowInUnit(1.0 - rate, n);
    ScaledScores(w, row, Pow(1.0 - rate, n), flags);
  }

  /** The effect on a score of multiplying its row by f. */
  ghost predicate ScoresMoved(before: real, after: real, flags: Flags) {
    && after > 0.0
    && (flags == Flags(true, true) ==>
          && (before >= 1.0 ==> 1.0 <= after <= before)
          && (before <= 1.0 ==> before <= after <= 1.0))
    && (flags == Flags(false, false) ==> after >= before)
  }

  lemma ScaledScores(w: Weights, row: Row, f: real, flags: Flags)
    requires NonNegativeWeights(w) && NonNegative(row) && 0.0 < f <= 1.0
    ensures var later := ScaleRow(row, f, flags);
            && NonNegative(later)
            && Resistance(w, row) + EPS > 0.0 && Resistance(w, later) + EPS > 0.0
            && ScoresMoved(Score(w, row), Score(w, later), flags)
  {
    hide Attraction, Resistance, ScaleRow;
    var later := ScaleRow(row, f, flags);
    ScaledNonNegative(row, f, flags);
    PartsNonNegative(w, row);
    PartsNonNegative(w, later);
    ScorePositive(w, later);
    PartsAfterScaling(w, row, f, flags);
    PartsMoved(Attraction(w, row), Resistance(w, row), Attraction(w, later), Resistance(w, later), f, flags);
  }

  lemma PartsMoved(n: real, d: real, n': real, d': real, f: real, flags: Flags)
    requires n >= 0.0 && d >= 0.0 && n' >= 0.0 && 0.0 < f <= 1.0 && d' == d * f
    requires flags == Flags(true, true) ==> n' == n * f
    requires flags == Flags(false, false) ==> n' == n
    ensures d' >= 0.0 && ScoresMoved((n + EPS) / (d + EPS), (n' + EPS) / (d' + EPS), flags)
  {
    Shrinks(d, f);
    QuotientPositive(n' + EPS, d' + EPS);
    if flags == Flags(true, true) {
      TowardsOne(n, d, f);
    } else if flags == Flags(false, false) {
      Thinner(n, d, f);
    }
  }

  lemma ScaledNonNegative(row: Row, f: real, flags: Flags)
    requires NonNegative(row) && 0.0 < f <= 1.0
    ensures NonNegative(ScaleRow(row, f, flags))
  {
    Shrinks(row.v, f);
    Shrinks(row.l, f);
    Shrinks(row.s, f);
    Shrinks(row.c, f);
  }

  lemma Thinner(n: real, d: real, f: real)
    requires n >= 0.0 && d >= 0.0 && 0.0 < f <= 1.0
    ensures d * f >= 0.0 && (n + EPS) / (d + EPS) <= (n + EPS) / (d * f + EPS)
  {
    Shrinks(d, f);
    QuotientMonotone(n + EPS, d + EPS, n + EPS, d * f + EPS);
  }

  // ------------------------------------------------------------------ deposits that raise a score

  /** A deposit turns attraction n and resistance d into n' and d': the score rises if and only if
      (n' + eps)(d + eps) > (n + eps)(d' + eps). */
  lemma ScoreRisesIff(w: Weights, row: Row, row': Row)
    requires NonNegativeWeights(w) && NonNegative(row) && NonNegative(row')
    ensures Resistance(w, row) + EPS > 0.0 && Resistance(w, row') + EPS > 0.0
    ensures Score(w, row') > Score(w, row) <==>
            (Attraction(w, row') + EPS) * (Resistance(w, row) + EPS)
            > (Attraction(w, row) + EPS) * (Resistance(w, row') + EPS)
  {
    hide Attraction, Resistance;
    PartsNonNegative(w, row);
    PartsNonNegative(w, row');
    CompareQuotients(Attraction(w, row) + EPS, Resistance(w, row) + EPS,
                     Attraction(w, row') + EPS, Resistance(w, row') + EPS);
  }

  /** What `route` deposits when the worker raised: no latency, no load, no success. */
  function RaisedSample(capabilityMatch: real): Sample {
    Sample(0.0, false, 0, capabilityMatch)
  }

  /** What an exception weighs in favour of the node: the load it erases, the match it is credited
      with, and the halved latency, against the smoothing constant. */
  function RaisingGain(w: Weights, row: Row, credit: real): real {
    Attraction(w, row) * (w.gamma * row.s - EPS) + w.delta * credit * (Resistance(w, row) + EPS)
    + EPS * (Resistance(w, row) + w.gamma * row.s)
  }

  lemma RaisedParts(w: Weights, row: Row, capabilityMatch: real, scale: real)
    ensures var after := DepositRow(row, RaisedSample(capabilityMatch), scale);
            && Attraction(w, after) == 0.5 * Attraction(w, row) + 0.5 * (w.delta * Clamp(capabilityMatch))
            && Resistance(w, after) == 0.5 * (Resistance(w, row) - w.gamma * row.s)
  {
    var credit := Clamp(capabilityMatch);
    var after := DepositRow(row, RaisedSample(capabilityMatch), scale);
    assert after == Row(0.5 * row.v, 0.5 * row.l, 0.0, 0.5 * credit + 0.5 * row.c);
    assert w.alpha * (0.5 * row.v) == 0.5 * (w.alpha * row.v);
    assert w.beta * (0.5 * row.l) == 0.5 * (w.beta * row.l);
    HalfAndHalf(w.delta, credit, row.c);
  }

  lemma HalfAndHalf(k: real, x: real, y: real)
    ensures k * (0.5 * x + 0.5 * y) == 0.5 * (k * x) + 0.5 * (k * y)
  {
  }

  /** n, d: attraction and resistance; s: its load part; k: the credit's weight. */
  lemma RaisingGap(n: real, d: real, s: real, k: real)
    ensures (0.5 * n + 0.5 * k + EPS) * (d + EPS) > (n + EPS) * (0.5 * (d - s) + EPS)
            <==> n * (s - EPS) + k * (d + EPS) + EPS * (d + s) > 0.0
  {
    var gap := (0.5 * n + 0.5 * k + EPS) * (d + EPS) - (n + EPS) * (0.5 * (d - s) + EPS);
    assert gap == 0.5 * (n * (s - EPS) + k * (d + EPS) + EPS * (d + s));
  }

  /** A raising worker is recorded as infinitely fast and idle.  An exception raises the node's score
      if and only if RaisingGain is positive, for every row, match and weights. */
  lemma RaisingWorkerGainsScore(w: Weights, row: Row, capabilityMatch: real, scale: real)
    requires NonNegativeWeights(w) && NonNegative(row)
    ensures var after := DepositRow(row, RaisedSample(capabilityMatch), scale);
            && NonNegative(after)
            && Resistance(w, row) + EPS > 0.0 && Resistance(w, after) + EPS > 0.0
            && (Score(w, after) > Score(w, row) <==> RaisingGain(w, row, Clamp(capabilityMatch)) > 0.0)
  {
    hide Score, Attraction, Resistance;
    var after := DepositRow(row, RaisedSample(capabilityMatch), scale);
    ScoreRisesIff(w, row, after);
    RaisedParts(w, row, capabilityMatch, scale);
    RaisingGap(Attraction(w, row), Resistance(w, row), w.gamma * row.s, w.delta * Clamp(capabilityMatch));
  }

  /** So only a node with next to no load and latency is punished: an exception always raises the
      score of one whose load counts at least eps, or whose weighted match and latency outweigh eps
      times its attraction. */
  lemma RaisingAlmostAlwaysGains(w: Weights, row: Row, credit: real)
    requires NonNegativeWeights(w) && NonNegative(row) && credit >= 0.0
    requires w.gamma * row.s >= EPS || w.delta * credit * (Resistance(w, row) + EPS) > Attraction(w, row) * EPS
    ensures RaisingGain(w, row, credit) > 0.0
  {
    hide Attraction, Resistance;
    PartsNonNegative(w, row);
    ScaleMonotone(0.0, row.s, w.gamma);
    ScaleMonotone(0.0, row.l, w.beta);
    ResistanceParts(w, row);
    GainPositive(Attraction(w, row), Resistance(w, row), w.gamma * row.s, w.delta * credit) by {
      ScaleMonotone(0.0, credit, w.delta);
    }
  }

  lemma ResistanceParts(w: Weights, row: Row)
    requires w.beta >= 0.0 && row.l >= 0.0
    ensures Resistance(w, row) >= w.gamma * row.s
  {
    ScaleMonotone(0.0, row.l, w.beta);
  }

  lemma GainPositive(n: real, d: real, s: real, k: real)
    requires n >= 0.0 && d >= s >= 0.0 && k >= 0.0 && (s >= EPS || k * (d + EPS) > n * EPS)
    ensures n * (s - EPS) + k * (d + EPS) + EPS * (d + s) > 0.0
  {
    assert k * (d + EPS) >= 0.0 && n * s >= 0.0;
    assert n * (s - EPS) == n * s - n * EPS;
    if s >= EPS { assert n * (s - EPS) >= 0.0; }
  }

  const DEFAULT_WEIGHTS := Weights(1.0, 2.0, 1.5, 1.5)

  /** So it happens to a new node under the default weights: an exception in a call without context
      raises its score. */
  lemma FreshNodeGainsByRaising(scale: real)
    ensures var after := DepositRow(BASELINE, RaisedSample(CapabilityMatch([], [])), scale);
            && Resistance(DEFAULT_WEIGHTS, BASELINE) + EPS > 0.0 && Resistance(DEFAULT_WEIGHTS, after) + EPS > 0.0
            && Score(DEFAULT_WEIGHTS, after) > Score(DEFAULT_WEIGHTS, BASELINE)
  {
    hide Score;
    RaisingWorkerGainsScore(DEFAULT_WEIGHTS, BASELINE, 0.5, scale);
  }

  /** Main result.  Unless it is the only node, a node that raises is more likely to be selected
      afterwards if and only if its gain is positive and the request does not rule it out; every
      other node is then at most as likely as before. */
  lemma RaisingAttracts(
    exp: Exponential, w: Weights, nodes: seq<Node>, i: nat, context: Context, temperature: real, scale: real)
    requires ExpLaws(exp) && temperature > 0.0 && i < |nodes| && Sane(w, nodes, context)
    ensures var m := CapabilityMatch(nodes[i].tags, context);
            var raised := nodes[i := Node(DepositRow(nodes[i].row, RaisedSample(m), scale), nodes[i].tags)];
            && Sane(w, raised, context)
            && var before := Selection(exp, w, nodes, context, temperature);
               var after := Selection(exp, w, raised, context, temperature);
               && |before| == |after| == |nodes|
               && (after[i] > before[i]
                   <==> |nodes| >= 2 && RaisingGain(w, nodes[i].row, Clamp(m)) > 0.0 && (context == [] || m > 0.0))
               && (RaisingGain(w, nodes[i].row, Clamp(m)) > 0.0 ==>
                     forall j :: 0 <= j < |nodes| && j != i ==> after[j] <= before[j])
  {
    hide Selection, Score, CapabilityMatch, RaisingGain, DepositRow, Attraction, Resistance;
    var m := CapabilityMatch(nodes[i].tags, context);
    RaisingWorkerGainsScore(w, nodes[i].row, m, scale);
    RowChangeMovesSelection(exp, w, nodes, i, DepositRow(nodes[i].row, RaisedSample(m), scale), context, temperature);
    SelectionLength(exp, w, nodes, context, temperature);
  }
}
