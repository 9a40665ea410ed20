/** Tenant tiers biasing the routing weights, and which nodes the bias favours. */
module Governance {
  import opened RealMath
  import opened Traces
  import opened FieldValue
  import opened Router

  const KEYS: seq<string> := ["alpha", "beta", "gamma", "delta"]

  /** A missing, empty or unknown tier counts as "pro". */
  function NormalizeTier(tier: Option<string>): string {
    if tier.None? || tier.value == "" then "pro"
    else if tier.value != "free" && tier.value != "pro" && tier.value != "enterprise" then "pro"
    else tier.value
  }

  function Multipliers(tier: string): map<string, real> {
    if tier == "enterprise" then map["beta" := 1.5, "alpha" := 1.2]
    else if tier == "free" then map["delta" := 2.0, "gamma" := 2.0]
    else map[]
  }

  function Multiplier(tier: string, key: string): real {
    if key in Multipliers(tier) then Multipliers(tier)[key] else 1.0
  }

  function Biased(tier: Option<string>, weights: map<string, real>): map<string, real> {
    map key | key in weights ::
      if key in KEYS then weights[key] * Multiplier(NormalizeTier(tier), key) else weights[key]
  }

  /** Scales a copy of the weights, key by key; the caller's dictionary is a value and keeps its
      entries, keys outside the four pass through. */
  method ApplyGovernanceBias(tier: Option<string>, weights: map<string, real>) returns (biased: map<string, real>)
    ensures biased == Biased(tier, weights)
  {
    hide Multipliers, NormalizeTier;
    var multipliers := Multipliers(NormalizeTier(tier));
    biased := weights;
    for i := 0 to |KEYS|
      invariant biased.Keys == weights.Keys
      invariant forall key :: key in weights ==>
        biased[key] == if key in KEYS[..i] then weights[key] * Multiplier(NormalizeTier(tier), key) else weights[key]
    {
      var key := KEYS[i];
      assert key !in KEYS[..i];
      if key in biased {
        biased := biased[key := biased[key] * (if key in multipliers then multipliers[key] else 1.0)];
      }
    }
    assert KEYS[..|KEYS|] == KEYS;
    assert biased.Keys == Biased(tier, weights).Keys;
    forall key | key in weights ensures biased[key] == Biased(tier, weights)[key] {
    }
  }

  // ------------------------------------------------------------------ weights of one request

  function Get(override: map<string, real>, key: string, default: real): real {
    if key in override then override[key] else default
  }

  /** Per-request overrides take precedence over the router's own weights. */
  function Resolve(base: Weights, override: map<string, real>): Weights {
    Weights(Get(override, "alpha", base.alpha), Get(override, "beta", base.beta),
            Get(override, "gamma", base.gamma), Get(override, "delta", base.delta))
  }

  function AsDictionary(w: Weights): map<string, real> {
    map["alpha" := w.alpha, "beta" := w.beta, "gamma" := w.gamma, "delta" := w.delta]
  }

  /** The weights a request of the tier is routed with. */
  function TierWeights(tier: Option<string>, base: Weights): Weights {
    Resolve(base, Biased(tier, AsDictionary(base)))
  }

  /** Without an override the router's own weights count, a full one replaces them, and of two overrides
      the later one wins key by key. */
  lemma OverridesCompose(base: Weights, w: Weights, m: map<string, real>, n: map<string, real>)
    ensures Resolve(base, map[]) == base
    ensures Resolve(base, AsDictionary(w)) == w
    ensures Resolve(Resolve(base, m), n) == Resolve(base, m + n)
  {
  }

  /** The bias of every key of any dictionary. */
  lemma BiasIsKeywise(tier: Option<string>, weights: map<string, real>, key: string)
    ensures Biased(tier, weights).Keys == weights.Keys
    ensures key in weights ==>
              Biased(tier, weights)[key] == weights[key] *
                (if tier == Some("enterprise") && key == "beta" then 1.5
                 else if tier == Some("enterprise") && key == "alpha" then 1.2
                 else if tier == Some("free") && (key == "delta" || key == "gamma") then 2.0
                 else 1.0)
  {
  }

  /** The weights each tier is routed with; every other tier is routed with the base weights. */
  lemma TierWeightsAre(tier: Option<string>, base: Weights)
    ensures TierWeights(tier, base) ==
            if tier == Some("enterprise") then Weights(base.alpha * 1.2, base.beta * 1.5, base.gamma, base.delta)
            else if tier == Some("free") then Weights(base.alpha, base.beta, base.gamma * 2.0, base.delta * 2.0)
            else base
  {
  }

  /** Pro and unknown tiers route exactly as the unbiased router does. */
  lemma OtherTiersUnbiased(tier: Option<string>, base: Weights, row: Row)
    requires tier != Some("enterprise") && tier != Some("free") && Resistance(base, row) + EPS != 0.0
    ensures TierWeights(tier, base) == base
    ensures Score(TierWeights(tier, base), row) == Score(base, row)
  {
    TierWeightsAre(tier, base);
  }

  // ------------------------------------------------------------------ whom the bias favours

  /** Multiplying the differing part of two sums by m >= 1 pulls their quotient apart. */
  lemma Steeper(a: real, b: real, k: real, m: real)
    requires 0.0 <= a <= b && k > 0.0 && m >= 1.0
    ensures a + k > 0.0 && m * a + k > 0.0
    ensures (b + k) / (a + k) <= (m * b + k) / (m * a + k)
  {
    ScaleMonotone(0.0, a, m);
    CompareQuotients(b + k, a + k, m * b + k, m * a + k);
    var gap := (m * b + k) * (a + k) - (b + k) * (m * a + k);
    SteeperGap(a, b, k, m);
    ScaleMonotone(0.0, b - a, (m - 1.0) * k) by { ScaleMonotone(0.0, m - 1.0, k); }
  }

  lemma SteeperGap(a: real, b: real, k: real, m: real)
    ensures (m * b + k) * (a + k) - (b + k) * (m * a + k) == (b - a) * ((m - 1.0) * k)
  {
    assert m * b * a == b * (m * a);
  }

  /** How many times more attractive `a` is than `b`. */
  function Preference(w: Weights, a: Row, b: Row): real
    requires NonNegativeWeights(w) && NonNegative(a) && NonNegative(b)
  {
    ScorePositive(w, a);
    ScorePositive(w, b);
    Score(w, a) / Score(w, b)
  }

  lemma SameNumerator(n: real, d: real, e: real)
    requires n > 0.0 && d > 0.0 && e > 0.0
    ensures n / e > 0.0 && (n / d) / (n / e) == e / d
  {
    QuotientPositive(n, e);
    var p, q := n / d, n / e;
    assert p * d == n && q * e == n;
    var r := e / d;
    assert r * d == e;
    assert (r * q) * d == (p * d) by {
      assert (r * q) * d == (r * d) * q;
      assert e * q == n;
    }
    SameFactor(r * q, p, d);
    QuotientUnique(p, q, r);
  }

  lemma SameFactor(x: real, y: real, d: real)
    requires d > 0.0 && x * d == y * d
    ensures x == y
  {
    if x < y { ScaleStrict(x, y, d); } else if y < x { ScaleStrict(y, x, d); }
  }

  lemma SameDenominator(m: real, n: real, d: real)
    requires m > 0.0 && n > 0.0 && d > 0.0
    ensures n / d > 0.0 && (m / d) / (n / d) == m / n
  {
    QuotientPositive(n, d);
    var p, q, r := m / d, n / d, m / n;
    assert p * d == m && q * d == n && r * n == m;
    assert (r * q) * d == r * (q * d);
    SameFactor(r * q, p, d);
    QuotientUnique(p, q, r);
  }

  /** Nodes that attract alike are preferred by their resistances only, and conversely. */
  lemma PreferenceAre(w: Weights, a: Row, b: Row)
    requires NonNegativeWeights(w) && NonNegative(a) && NonNegative(b)
    ensures Attraction(w, a) == Attraction(w, b) ==>
              Resistance(w, a) >= 0.0 && Preference(w, a, b) == (Resistance(w, b) + EPS) / (Resistance(w, a) + EPS)
    ensures Resistance(w, a) == Resistance(w, b) ==>
              Attraction(w, b) >= 0.0 && Preference(w, a, b) == (Attraction(w, a) + EPS) / (Attraction(w, b) + EPS)
  {
    hide Attraction, Resistance;
    PartsNonNegative(w, a);
    PartsNonNegative(w, b);
    if Attraction(w, a) == Attraction(w, b) {
      SameNumerator(Attraction(w, a) + EPS, Resistance(w, a) + EPS, Resistance(w, b) + EPS);
    }
    if Resistance(w, a) == Resistance(w, b) {
      SameDenominator(Attraction(w, a) + EPS, Attraction(w, b) + EPS, Resistance(w, a) + EPS);
    }
  }

  lemma BiasNonNegative(tier: Option<string>, base: Weights)
    requires NonNegativeWeights(base)
    ensures NonNegativeWeights(TierWeights(tier, base))
  {
    TierWeightsAre(tier, base);
  }

  /** The common arithmetic: weight `k`, raised to k' = k m, on a column with values lo <= hi beside
      a fixed rest. */
  lemma SteerBy(k: real, k': real, lo: real, hi: real, rest: real, m: real, p: real, p': real)
    requires k >= 0.0 && 0.0 <= lo <= hi && rest >= 0.0 && m >= 1.0 && k' == k * m
    requires k * lo + rest + EPS != 0.0 && p == (k * hi + rest + EPS) / (k * lo + rest + EPS)
    requires k' * lo + rest + EPS != 0.0 && p' == (k' * hi + rest + EPS) / (k' * lo + rest + EPS)
    ensures p <= p'
  {
    ScaleMonotone(0.0, lo, k);
    ScaleMonotone(lo, hi, k);
    Steeper(k * lo, k * hi, rest + EPS, m);
    assert m * (k * lo) == k' * lo && m * (k * hi) == k' * hi;
  }

  lemma ResistanceDecides(w: Weights, good: Row, bad: Row)
    requires NonNegativeWeights(w) && NonNegative(good) && NonNegative(bad) && good.v == bad.v && good.c == bad.c
    ensures Resistance(w, good) >= 0.0
    ensures Preference(w, good, bad) == (Resistance(w, bad) + EPS) / (Resistance(w, good) + EPS)
  {
    PreferenceAre(w, good, bad);
  }

  lemma AttractionDecides(w: Weights, good: Row, bad: Row)
    requires NonNegativeWeights(w) && NonNegative(good) && NonNegative(bad) && good.l == bad.l && good.s == bad.s
    ensures Attraction(w, bad) >= 0.0
    ensures Preference(w, good, bad) == (Attraction(w, good) + EPS) / (Attraction(w, bad) + EPS)
  {
    PreferenceAre(w, good, bad);
  }

  lemma LatencyPreference(w: Weights, good: Row, bad: Row)
    requires NonNegativeWeights(w) && NonNegative(good) && NonNegative(bad) && good == bad.(l := good.l)
    ensures var rest := w.gamma * bad.s;
            && rest >= 0.0 && w.beta * good.l + rest + EPS > 0.0
            && Preference(w, good, bad) == (w.beta * bad.l + rest + EPS) / (w.beta * good.l + rest + EPS)
  {
    ScaleMonotone(0.0, bad.s, w.gamma);
    ScaleMonotone(0.0, good.l, w.beta);
    ResistanceDecides(w, good, bad);
  }

  lemma LatencyBias(base: Weights, w: Weights, good: Row, bad: Row, m: real)
    requires NonNegativeWeights(base) && NonNegativeWeights(w) && NonNegative(good) && NonNegative(bad) && m >= 1.0
    requires w.beta == base.beta * m && w.gamma == base.gamma
    requires good.l <= bad.l && good == bad.(l := good.l)
    ensures Preference(w, good, bad) >= Preference(base, good, bad)
  {
    hide Preference;
    LatencyPreference(base, good, bad);
    LatencyPreference(w, good, bad);
    SteerBy(base.beta, w.beta, good.l, bad.l, base.gamma * bad.s, m,
            Preference(base, good, bad), Preference(w, good, bad));
  }

  lemma SaturationPreference(w: Weights, good: Row, bad: Row)
    requires NonNegativeWeights(w) && NonNegative(good) && NonNegative(bad) && good == bad.(s := good.s)
    ensures var rest := w.beta * bad.l;
            && rest >= 0.0 && w.gamma * good.s + rest + EPS > 0.0
            && Preference(w, good, bad) == (w.gamma * bad.s + rest + EPS) / (w.gamma * good.s + rest + EPS)
  {
    ScaleMonotone(0.0, bad.l, w.beta);
    ScaleMonotone(0.0, good.s, w.gamma);
    ResistanceDecides(w, good, bad);
  }

  lemma SaturationBias(base: Weights, w: Weights, good: Row, bad: Row, m: real)
    requires NonNegativeWeights(base) && NonNegativeWeights(w) && NonNegative(good) && NonNegative(bad) && m >= 1.0
    requires w.gamma == base.gamma * m && w.beta == base.beta
    requires good.s <= bad.s && good == bad.(s := good.s)
    ensures Preference(w, good, bad) >= Preference(base, good, bad)
  {
    hide Preference;
    SaturationPreference(base, good, bad);
    SaturationPreference(w, good, bad);
    SteerBy(base.gamma, w.gamma, good.s, bad.s, base.beta * bad.l, m,
            Preference(base, good, bad), Preference(w, good, bad));
  }

  lemma SuccessPreference(w: Weights, good: Row, bad: Row)
    requires NonNegativeWeights(w) && NonNegative(good) && NonNegative(bad) && good == bad.(v := good.v)
    ensures var rest := w.delta * bad.c;
            && rest >= 0.0 && w.alpha * bad.v + rest + EPS > 0.0
            && Preference(w, good, bad) == (w.alpha * good.v + rest + EPS) / (w.alpha * bad.v + rest + EPS)
  {
    ScaleMonotone(0.0, bad.c, w.delta);
    ScaleMonotone(0.0, bad.v, w.alpha);
    AttractionDecides(w, good, bad);
  }

  lemma SuccessBias(base: Weights, w: Weights, good: Row, bad: Row, m: real)
    requires NonNegativeWeights(base) && NonNegativeWeights(w) && NonNegative(good) && NonNegative(bad) && m >= 1.0
    requires w.alpha == base.alpha * m && w.delta == base.delta
    requires good.v >= bad.v && good == bad.(v := good.v)
    ensures Preference(w, good, bad) >= Preference(base, good, bad)
  {
    hide Preference;
    SuccessPreference(base, good, bad);
    SuccessPreference(w, good, bad);
    SteerBy(base.alpha, w.alpha, bad.v, good.v, base.delta * bad.c, m,
            Preference(base, good, bad), Preference(w, good, bad));
  }

  lemma CapabilityPreference(w: Weights, good: Row, bad: Row)
    requires NonNegativeWeights(w) && NonNegative(good) && NonNegative(bad) && good == bad.(c := good.c)
    ensures var rest := w.alpha * bad.v;
            && rest >= 0.0 && w.delta * bad.c + rest + EPS > 0.0
            && Preference(w, good, bad) == (w.delta * good.c + rest + EPS) / (w.delta * bad.c + rest + EPS)
  {
    ScaleMonotone(0.0, bad.v, w.alpha);
    ScaleMonotone(0.0, bad.c, w.delta);
    AttractionDecides(w, good, bad);
  }

  lemma CapabilityBias(base: Weights, w: Weights, good: Row, bad: Row, m: real)
    requires NonNegativeWeights(base) && NonNegativeWeights(w) && NonNegative(good) && NonNegative(bad) && m >= 1.0
    requires w.delta == base.delta * m && w.alpha == base.alpha
    requires good.c >= bad.c && good == bad.(c := good.c)
    ensures Preference(w, good, bad) >= Preference(base, good, bad)
  {
    hide Preference;
    CapabilityPreference(base, good, bad);
    CapabilityPreference(w, good, bad);
    SteerBy(base.delta, w.delta, bad.c, good.c, base.alpha * bad.v, m,
            Preference(base, good, bad), Preference(w, good, bad));
  }

  /** Enterprise tenants prefer the faster of two nodes that differ in latency only, and the more
      successful of two that differ in success only, at least as much as the base weights do. */
  lemma EnterpriseSteers(base: Weights, good: Row, bad: Row)
    requires NonNegativeWeights(base) && NonNegative(good) && NonNegative(bad)
    requires (good.l <= bad.l && good == bad.(l := good.l)) || (good.v >= bad.v && good == bad.(v := good.v))
    ensures NonNegativeWeights(TierWeights(Some("enterprise"), base))
    ensures Preference(TierWeights(Some("enterprise"), base), good, bad) >= Preference(base, good, bad)
  {
    hide Preference;
    var w := TierWeights(Some("enterprise"), base);
    TierWeightsAre(Some("enterprise"), base);
    BiasNonNegative(Some("enterprise"), base);
    if good.l <= bad.l && good == bad.(l := good.l) {
      LatencyBias(base, w, good, bad, 1.5);
    } else {
      SuccessBias(base, w, good, bad, 1.2);
    }
  }

  /** Free tenants prefer the less loaded of two nodes that differ in saturation only, and the more
      capable of two that differ in capability only, at least as much as the base weights do. */
  lemma FreeSteers(base: Weights, good: Row, bad: Row)
    requires NonNegativeWeights(base) && NonNegative(good) && NonNegative(bad)
    requires (good.s <= bad.s && good == bad.(s := good.s)) || (good.c >= bad.c && good == bad.(c := good.c))
    ensures NonNegativeWeights(TierWeights(Some("free"), base))
    ensures Preference(TierWeights(Some("free"), base), good, bad) >= Preference(base, good, bad)
  {
    hide Preference;
    var w := TierWeights(Some("free"), base);
    TierWeightsAre(Some("free"), base);
    BiasNonNegative(Some("free"), base);
    if good.s <= bad.s && good == bad.(s := good.s) {
      SaturationBias(base, w, good, bad, 2.0);
    } else {
      CapabilityBias(base, w, good, bad, 2.0);
    }
  }
}
