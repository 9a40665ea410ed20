# Stigmergic mesh router: a verified model

The router keeps four traces per worker (success V, latency L, saturation S, capability fit C),
lets them evaporate, turns them into scores and draws workers from a softmax over the scores. This
project models that loop and the gate in front of it, and proves what holds over whole runs:

- `SlidingWindow.dfy`, `RateLimiter.dfy`, `Expiry.dfy`, `Quotas.dfy`: the Redis script of the rate
  limiter, the two-quota request check, the stored hash with its time to live, and the whole gate
  under requests of many tenants.
- `Traces.dfy`, `Field.dfy`, `InMemoryField.dfy`: one matrix row, the field as a value, and the
  in-memory backend as a class that updates list, index and matrix in place.
- `RedisField.dfy`, `OverlappingEvaporation.dfy`, `LostDeposits.dfy`, `DecaySimulation.dfy`,
  `BackendAgreement.dfy`: the Redis backend as a state machine over the atomic steps of any number of
  replicas, overlapping two-phase evaporations, deposits that fall between their two phases, and the
  two backends compared over runs, for one row and for the field.
- `Router.dfy`, `Governance.dfy`, `RouterAgent.dfy`: scores, capability boost, softmax, tenant bias
  and the routing step on a live field.
- `Registry.dfy`, `PruneRace.dfy`, `Checkpointing.dfy`, `WorkerLoad.dfy`: heartbeats and pruning, the
  steps of a pruning interleaved with registrations, snapshots in unreliable stores, in-flight
  counters.
- `Pruning.dfy`: what pruning a worker does to the selection, across registry, field and softmax.
- `RealMath.dfy`: powers and quotients.

## How the model reads the code

- Floats are exact reals; limiter quantities are integers and reals. The limiter proofs use the
  weighted usage times the window length, an integer.
- `math.pow` with a non-integer exponent and `np.exp` are function parameters with the laws
  `RedisField.PowLaws` and `Router.ExpLaws` (positivity, exponent addition, monotonicity); on whole
  exponents the power is proved to be repeated multiplication.
- A Redis key is gone once the server clock is past its expiry time. Clocks, random draws, inference
  outcomes and store failures are parameters. Each Lua script, transaction pipeline and critical
  section is one atomic step.
- Methods of mutable objects are classes, proved against functions on values; the lemmas are about
  those functions and about runs of them.

## Where the code differs from its own documentation

The model follows the code.

- api/rate_limiter.py:12-13 says a rejected request never mutates state. A request refused by one
  quota is still charged to the other; it leaves both keys alone exactly when usage and cost pass
  the limit on both, free calls aside (`Expiry.RejectedRequestIsFreeIffBothRefuse`; it happens in
  `Expiry.ChargedThoughRefused`).
- `reset`, sent as Retry-After, is the time to the next bucket and promises no admission
  (`SlidingWindow.ResetIsNotAPromise` has the exact condition; `SlidingWindow.RefusedAgainAfterReset`
  is a request refused twice).
- api/rate_limiter.py:22-24 promises a true sliding average. A window can admit more than the limit:
  `SlidingWindow.WindowMaximum` has the exact maximum of every window, and `SlidingWindow.LimitKeptIff`
  says when it is the limit itself. The clock is read before the scripts run, so a request can be
  overtaken; `SlidingWindow.BoundKeptIff` has the exact orders of readings under which the bound holds.
- core/memory_field.py:521-523 says double decay is prevented. Engine ticks and lazy decay both
  apply; `DecaySimulation.DeployedDecaysAtLeastAsMuch` says exactly when that shows, and
  `DecaySimulation.OneLateDeposit` is a run where it does.
- core/memory_field.py:487 says deposits are atomic. Evaporation has two phases, and a deposit in
  between is erased from the decaying columns (`LostDeposits.DepositErased`); `LostDeposits.RowIsItsHistory` says what every row
  is after any interleaving, and `LostDeposits.DepositLastsIff` which deposits are left.
- core/worker_registry.py:10-11 says the latency of a pruned worker becomes infinite. It becomes
  499.5 + L/2 and evaporates (`Traces.PenaltyDuration`), and pruning can even raise a node's selection
  probability (`Pruning.PruningRepels` has the exact condition, `Pruning.PruningCanAttract` an input).
- core/worker_registry.py:155 says workers whose TTL has expired are pruned. One that registers again
  while the scan is pruning it is forgotten with a fresh key (`PruneRace.RegistrationSurvivesIff` has
  the exact condition, `PruneRace.LostRegistration` a run); this needs a deposit that waits, as the
  Redis backend's does.
- core/router_agent.py:238-245 records a raising worker as having latency 0 and no load; that makes
  most failing nodes more attractive (`Router.RaisingAttracts` has the exact condition,
  `Router.FreshNodeGainsByRaising` an input).
- core/router_agent.py:127-138 gives an untagged node a neutral match, so that a first tag can lower
  it (`Router.FirstTagRepels` has the exact condition, `Router.FirstTagHurts` an input).
- core/checkpointing.py:205 says load returns the most recent snapshot. An older one in Redis hides
  a newer one on disk (`Checkpointing.NewestLoadedIff`, `Checkpointing.OlderHidesNewer`). The snapshot
  of an empty field cannot be hydrated at all (`Checkpointing.SnapshotAndHydrate`).
- README.md:73 and README.md:151-153 give a linear score and other tier multipliers than
  core/router_agent.py:105-107 and api/governance.py:31-41.

## Model

| member | source | states |
|---|---|---|
| SlidingWindow.AdmitsIffScaled | api/rate_limiter.py:52-73 | the script's floating test is an exact integer inequality between weighted usage, cost and limit |
| SlidingWindow.CounterIsAdmittedCost | api/rate_limiter.py:58-76 | after any run a stored counter is exactly the cost admitted while its bucket was current |
| SlidingWindow.CounterWithinLimit | api/rate_limiter.py:68-76 | no bucket ever collects more than the limit |
| SlidingWindow.WindowBound | api/rate_limiter.py:52-81 | over every run without overtaken calls, any window (t-W, t] admits at most limit (1 + (t mod W)/W), under twice a positive limit; a whole bucket admits at most the limit in any order |
| SlidingWindow.WindowMaximum | api/rate_limiter.py:52-81 | for every t the most any run admits in (t-W, t]: the limit for a whole bucket, else limit + limit (t mod W)/W rounded down; no run without overtaken calls exceeds it and some run of single units on a forward clock reaches it |
| SlidingWindow.LimitKeptIff | api/rate_limiter.py:22-24 | every run without overtaken calls keeps the promised limit in the window ending at t if and only if the window is one whole bucket or limit (t mod W) < W |
| SlidingWindow.BoundKeptIff | api/rate_limiter.py:52-81 | for a sequence of clock readings in order of execution, every run with these readings keeps the bound in every window, whatever the costs, if and only if the limit is zero or no reading is overtaken: executed after one from a later bucket less than a window ahead |
| SlidingWindow.ForwardClock | api/rate_limiter.py:176-185 | a clock that never runs back overtakes nothing |
| SlidingWindow.UsageNeverRises | api/rate_limiter.py:53-68 | while nothing is charged weighted usage never rises, also across bucket boundaries |
| SlidingWindow.UsageWithinLimit | api/rate_limiter.py:53-81 | weighted usage is within the limit in every reachable state at every later time |
| SlidingWindow.RefusedCallsChangeNothing | api/rate_limiter.py:70-73 | any number of refused calls leaves the counters as they were |
| SlidingWindow.AdmissibleStaysAdmissible | api/rate_limiter.py:53-81 | an admissible request stays admissible until another one is charged |
| SlidingWindow.FullQuotaAfterTwoBuckets | api/rate_limiter.py:53-65 | two buckets after the last charge, refusals since then aside, exactly the costs within the limit are admitted |
| SlidingWindow.ResetIsNotAPromise | api/rate_limiter.py:71-72 | reset is the distance to the next bucket; waiting it out succeeds if and only if the cost fits beside the whole current count |
| SlidingWindow.RefusedAgainAfterReset | api/rate_limiter.py:71-72 | a refused request that is refused again after exactly its reset |
| SlidingWindow.ReplyReportsNewState | api/rate_limiter.py:67-81 | the usage and remaining quota in a reply are those of the state the call leaves behind |
| RateLimiter.KeyNamesDistinct | api/rate_limiter.py:177-178 | quotas of different tenants or dimensions never share a key |
| RateLimiter.Limiter.EvalWindow | api/rate_limiter.py:45-82 | one script run: its reply, the new key, every other key untouched, nothing written on refusal |
| RateLimiter.Limiter.CheckRateLimits | api/rate_limiter.py:150-228 | both quotas always evaluated and charged on their own, allowed if and only if both admit, other tenants untouched; an allowed request reports the smaller remainder, a refused one a dimension that refused it, with less left than the request costs |
| Expiry.SteadyClocksInStep | api/rate_limiter.py:75-77 | readings taken as the script runs, up to a constant skew, never let a key expire before it is two buckets old |
| Expiry.DelayShowsExpiry | api/rate_limiter.py:75-77 | a script two milliseconds late sees an expired key that its reading still counts |
| Expiry.DelayedScriptsAreTimely | api/rate_limiter.py:176-185 | scripts that run up to a whole window after their caller read the clock lose nothing a window can see |
| Expiry.ExpiryUnobservable | api/rate_limiter.py:53-65 | hash with expiry, eternal map and two-counter limiter give the same reply to any next request after any run with any limits, clocks in step |
| Expiry.DeployedWindowBound | api/rate_limiter.py:52-81 | the window bound, and its exact integer form, hold of the stored key with its time to live, for delayed scripts in any order without overtaken readings |
| Expiry.UntouchedIff | api/rate_limiter.py:70-77 | a script run leaves the key as it was exactly when usage and cost pass the limit, or a free call repeats the last charge's bucket and millisecond |
| Expiry.RejectedRequestIsFreeIffBothRefuse | api/rate_limiter.py:180-185 | a request leaves both keys alone exactly when usage and cost pass the limit on both, free calls aside, at any two server times |
| Expiry.ChargedThoughRefused | api/rate_limiter.py:180-185 | a first request refused for its tokens is charged to the request quota |
| Quotas.Execute | api/rate_limiter.py:105-145 | the limiter's script execution is one step of the gate: its reply and every key |
| Quotas.Serve | api/rate_limiter.py:150-228 | an undisturbed request is two steps of the gate, allowed if and only if both admit, every key accounted for |
| Quotas.KeysAreIndependent | api/rate_limiter.py:177-185 | after any interleaving of the scripts of concurrent requests each key holds what it would hold if its own executions were the only ones |
| Quotas.GateBound | api/rate_limiter.py:150-228 | however concurrent requests interleave, as long as none is overtaken on the tenant's key or runs over a window late, in any 60-second window a tenant gets at most rpm (1 + (t mod 60)/60) requests and tpm (1 + (t mod 60)/60) tokens through, and no more than the quota in a whole minute bucket |
| Traces.DepositsClosedForm | core/memory_field.py:193-208 | after any deposits V, L, C are 2^-n x0 plus the 2^-(n-i) weighted observations and S is the last load |
| Traces.SmoothedBetween | core/memory_field.py:198-208 | a column stays between the extremes of its start and its observations |
| Traces.IdenticalObservations | core/memory_field.py:198-208 | n identical observations leave exactly 2^-n of the error |
| Traces.ClampIsNearest | core/memory_field.py:205-208 | the clamped capability is the nearest value in [0, 1] |
| Traces.EvaporateTimesIsPower | core/memory_field.py:219-225 | n evaporations scale the decaying columns by (1-d)^n and leave the others |
| Traces.LatencyAfterEvaporations | core/memory_field.py:217-225 | L0 (1 - n d) <= L <= L0 / (1 + n d) after n evaporations |
| Traces.PenaltyDuration | core/worker_registry.py:161-175 | bounds from both sides on how many ticks the pruning penalty keeps the latency above a threshold |
| FieldValue.IndexInvertsList | core/memory_field.py:140-143 | over distinct ids the index dictionary inverts the node list |
| FieldValue.OverlayByTrace | core/memory_field.py:269-281 | a trace the snapshot holds replaces the node's, one it lacks leaves it |
| FieldValue.StepRefines | core/memory_field.py:193-282 | add, remove, deposit, evaporate and hydrate do on list, index and matrix what they do on an ordered map |
| FieldValue.RunRefines | core/memory_field.py:140-282 | the same over every sequence of operations, with ids distinct and the index consistent throughout |
| FieldValue.AddThenRemove | core/memory_field.py:227-254 | adding a fresh id and removing it restores the field |
| InMemory.MemoryField.constructor | core/memory_field.py:115-163 | every row is the baseline or a copy of the caller's row, the index enumerates the ids |
| InMemory.MemoryField.Create | core/memory_field.py:149-157 | ValueError exactly for a matrix of the wrong shape, otherwise the constructed field |
| InMemory.MemoryField.GetStateVector | core/memory_field.py:174-177 | returns a fresh copy of the rows |
| InMemory.MemoryField.DepositTrace | core/memory_field.py:179-208 | updates the one row in place, KeyError exactly for an unknown node |
| InMemory.MemoryField.ApplyEvaporation | core/memory_field.py:210-225 | scales the columns the flags select in place, ValueError exactly for a rate outside [0, 1) |
| InMemory.MemoryField.Add | core/memory_field.py:227-242 | appends a baseline row unless the node exists |
| InMemory.MemoryField.Remove | core/memory_field.py:244-254 | deletes the row, keeps the others in order, rebuilds the index |
| InMemory.MemoryField.HydrateFromSnapshot | core/memory_field.py:256-282 | overwrites the traces present for known nodes and returns how many nodes were known; fails exactly on a snapshot object without nodes |
| RedisField.WholePower | core/memory_field.py:340-343 | the script's power is repeated multiplication on whole steps |
| RedisField.ScriptDecaysByElapsedTime | core/memory_field.py:330-370 | for any times: decay by (1-d)^(elapsed/interval), whole or not, then the blend; none when the timestamp is not later; the hash is stamped with the deposit's time |
| RedisField.DecayComposes | core/memory_field.py:338-351 | decay over a and then over c is decay over a + c, for any lengths of time |
| RedisField.ListsStayDistinct | core/memory_field.py:549-580 | in every interleaving no replica lists a node twice |
| RedisField.ScriptInRange | core/memory_field.py:330-370 | a deposit with any timestamp keeps a hash in range |
| RedisField.RangeInvariant | core/memory_field.py:330-607 | in every interleaving of deposits, two-phase evaporations, hydrations, initialisations and membership changes all traces stay in range and L below the largest latency seen |
| OverlappingEvaporation.DepthBounds | core/memory_field.py:529-547 | decay depth is at least 1 once a write completed, at most the number of writes, equal if and only if no evaporations overlap |
| OverlappingEvaporation.WriteStamps | core/memory_field.py:532-547 | a completed write stamps every listed node with its time, and no other |
| OverlappingEvaporation.RemovalShiftsRows | core/memory_field.py:529-547 | after a removal between the two phases every later node gets the latency read of its predecessor |
| OverlappingEvaporation.InterleavedEvaporations | core/memory_field.py:529-547 | after any interleaving of evaporations every stored row is its first value scaled by (1-d)^j for one j with those bounds |
| LostDeposits.RowIsItsHistory | core/memory_field.py:330-547 | after any interleaving of deposits and two-phase evaporations, a row's decaying columns are its first value with the effects left in its history, in order, and its other columns are its first value with all deposits; the history, lazy decay included, is a function of the event times |
| LostDeposits.WriteRestores | core/memory_field.py:532-547 | a write puts the history back to where its read found it and adds one evaporation |
| LostDeposits.UnstraddledDepositLasts | core/memory_field.py:529-547 | a deposit that no evaporation straddles is left, however evaporations overlap |
| LostDeposits.DepositLastsIff | core/memory_field.py:529-547 | when evaporations do not overlap each other, a deposit is left if and only if none reads before it and writes after it |
| LostDeposits.DepositErased | core/memory_field.py:529-547 | read, deposit, write leaves the evaporated row from before the deposit |
| DecaySimulation.LazySimulatesEager | core/memory_field.py:330-370 | over any run the in-memory row is the Redis row scaled by (1-d)^((now - ts)/interval), all columns, all flags |
| DecaySimulation.RedisRowFollowsEventTimes | core/memory_field.py:330-547 | over any run of ticks and deposits at any times the Redis row is computed from the event times alone, each deposit decaying by the time since the latest tick or deposit |
| DecaySimulation.WholeIntervalFactor | core/memory_field.py:340-343 | on whole intervals that factor is (1-d)^n, n counted from the latest write of either kind |
| DecaySimulation.StampIsLastWrite | core/memory_field.py:532-547 | the stored timestamp is the time of the latest tick or deposit |
| DecaySimulation.DeployedDecaysAtLeastAsMuch | core/memory_field.py:338-366 | with the engine running, Redis V, L, C never exceed the in-memory ones and S is equal; from a positive latency rows agree if and only if d = 0 or no deposit came after the latest earlier tick or deposit |
| DecaySimulation.OneLateDeposit | core/memory_field.py:338-366 | one deposit an interval late separates the backends |
| BackendAgreement.OperationAgrees | core/memory_field.py:478-607 | one add, removal, deposit, evaporation or hydration keeps both backends' node lists and rows equal, if a deposit is not late |
| BackendAgreement.BackendsAgree | core/memory_field.py:478-607 | over every sequence of those operations, each deposit no later than the latest earlier operation that wrote to its node, one replica's Redis field reads as the in-memory field and its timestamps are the operation times |
| BackendAgreement.RedisNeverAbove | core/memory_field.py:478-607 | over every sequence with deposits at any times, node lists stay equal, Redis V, L and C never exceed the in-memory ones and S is equal |
| BackendAgreement.UnlistedUntouched | core/memory_field.py:478-607 | no operation touches the key of a node the replica does not list, except adding it |
| BackendAgreement.MembershipOnServer | core/memory_field.py:549-580 | a removal deletes the hash for every replica, which then read the baseline; an addition stores it; no other key changes |
| BackendAgreement.InitialiseResets | core/memory_field.py:437-445 | a replica that initialises resets the shared hashes of its nodes to the baseline and touches no other |
| Router.BetterScore | core/router_agent.py:95-107 | a node at least as good in every trace scores at least as high |
| Router.MatchMonotone | core/router_agent.py:124-138 | the capability match is in [0, 1] and never falls when a tagged node gets more tags |
| Router.MatchIs | core/router_agent.py:124-138 | 0.5 without context, tags or positive weight, otherwise the matched part of the weight, at most one |
| Router.FirstTagCanHurt | core/router_agent.py:124-138 | declaring first tags lowers the match if and only if they cover less than half of a positive request |
| Router.FirstTagRepels | core/router_agent.py:181-196 | and lowers the node's selection probability under exactly that condition, unless it is the only node |
| Router.FirstTagHurts | core/router_agent.py:124-138 | a request and a tag where it does |
| Router.ShiftInvariant | core/router_agent.py:156-159 | subtracting the maximum does not change the distribution |
| Router.ProbabilityMonotone | core/router_agent.py:156-159 | raising one score never lowers its probability nor raises another one |
| Router.ProbabilityFollowsScore | core/router_agent.py:156-159 | among two or more nodes a probability rises or falls strictly if and only if its score does |
| Router.ProbabilitiesDistribute | core/router_agent.py:156-159 | probabilities are positive and sum to one |
| Router.BoltzmannRatio | core/router_agent.py:156-159 | probabilities are to each other as exp(score / temperature) |
| Router.CoolerFavoursBest | core/router_agent.py:156-159 | a lower temperature never lowers the probability of a best node |
| Router.SelectionOdds | core/router_agent.py:95-107 | the odds of two nodes from the score formula, the capability boost and the temperature, written out |
| Router.ImprovementAttracts | core/router_agent.py:181-196 | improving one node through traces or tags never lowers its selection probability nor raises another one, scoring, boost and softmax composed |
| Router.EvaporationMovesScores | core/memory_field.py:219-225 | under any number of ticks scores stay positive, move towards 1 and not past it with both flags on, never fall with both off |
| Router.RaisingWorkerGainsScore | core/router_agent.py:234-255 | for every row, match and weights, an exception raises the score if and only if A (gamma S - eps) + delta m (R + eps) + eps (R + gamma S) > 0, with A and R the two sides of the score |
| Router.RaisingAlmostAlwaysGains | core/router_agent.py:234-255 | that is so whenever the load counts at least eps, or match and latency outweigh eps times the attraction |
| Router.RaisingAttracts | core/router_agent.py:234-255 | a raising node is more likely to be selected afterwards if and only if that gain is positive, it is not the only node and the request does not rule it out |
| Router.FreshNodeGainsByRaising | core/router_agent.py:234-255 | a new node under the default weights gains by raising |
| Governance.ApplyGovernanceBias | api/governance.py:73-79 | a copy of the weights with the tier's multipliers on the four keys, other keys passed through |
| Governance.OverridesCompose | core/router_agent.py:97-100 | no override leaves the router's weights, a full one replaces them, a later one wins key by key |
| Governance.BiasIsKeywise | api/governance.py:31-79 | the factor of every key for every tier, other keys unchanged, no key added or dropped |
| Governance.TierWeightsAre | api/governance.py:31-49 | the weights each tier is routed with, through the per-request override |
| Governance.OtherTiersUnbiased | api/governance.py:39-49 | pro, missing and unknown tiers leave every score as it is |
| Governance.EnterpriseSteers | api/governance.py:34-34 | enterprise prefers lower latency and higher success at least as much as the base weights |
| Governance.FreeSteers | api/governance.py:38-38 | free prefers lower saturation and higher capability at least as much as the base weights |
| RouterAgent.WorkerOdds | core/router_agent.py:181-196 | the odds of two workers from their own rows and their own tags |
| RouterAgent.AnyWorkerCanBeDrawn | core/router_agent.py:193-197 | every worker is drawn on a slice of [0, 1) exactly as long as its selection probability, and on no other |
| RouterAgent.Agent.SampleWorker | core/router_agent.py:161-197 | the worker on whose slice the uniform draw falls, fails exactly when there is none |
| RouterAgent.Agent.Route | core/router_agent.py:199-257 | only the drawn worker's row changes: a result blends its success, latency and match in and sets its load, an exception halves V and L, clears S and blends the match in |
| Registry.KnownNodesAreFieldNodes | core/worker_registry.py:69-107 | over every run known nodes are field nodes and no node has two rows |
| Registry.EntriesFollowKeys | core/worker_registry.py:88-118 | over every run a known node's key expires the TTL after the beat its entry records |
| Registry.TagsOfLastRegistration | core/worker_registry.py:94-98 | a known node's tags are those of its last registration |
| Registry.RegularHeartbeatsNeverPruned | core/worker_registry.py:109-118 | a worker beating less than the TTL apart is never pruned and gets no failure deposit |
| Registry.SilentWorkerPrunedOnce | core/worker_registry.py:161-175 | after any probes that found the key, a probe prunes if and only if the key has expired; exactly one failure deposit; unknown until it registers again |
| Registry.FirstLateScanPrunes | core/worker_registry.py:154-175 | a silent worker survives every scan up to its expiry and is pruned by the first scan after it, with exactly one failure deposit, and stays unknown through later scans and heartbeats |
| Registry.ScanIsRunOfProbes | core/worker_registry.py:161-175 | a scan is a run of probes of the known nodes in any order, each at its own time |
| Registry.WorkerRegistry.RegisterWorker | core/worker_registry.py:69-107 | sets the heartbeat key and the entry, adds a row unless there is one |
| Registry.WorkerRegistry.SendHeartbeat | core/worker_registry.py:109-118 | refreshes a known node's key, ignores an unknown one |
| Registry.WorkerRegistry.PruneUnhealthyWorkers | core/worker_registry.py:154-175 | every known node without a key gets one failure deposit and is forgotten, all others are untouched |
| PruneRace.ThreeStepsAreAProbe | core/worker_registry.py:161-175 | finding the key missing, depositing and forgetting, undisturbed, are one probe |
| PruneRace.PruningDepositsOnce | core/worker_registry.py:161-175 | in every interleaving a pruning deposits exactly one failure, before the node is forgotten |
| PruneRace.BeatingWorkerNeverPruned | core/worker_registry.py:161-175 | in every interleaving with the steps of the scan, a worker that registers while it is not being pruned and beats in time stays known and untouched |
| PruneRace.RegistrationSurvivesIff | core/worker_registry.py:69-175 | in every interleaving, once the scan is done with the node, a worker that registered and beats in time is known if and only if no pruning of it was under way when it registered |
| PruneRace.LostRegistration | core/worker_registry.py:161-175 | a known worker that comes back between the look and the deposit is forgotten with a fresh key |
| Pruning.PrunedScoreRisesIff | core/worker_registry.py:161-175 | the failure deposit raises a score if and only if A (gamma S - 999 beta - eps) + eps (R + gamma S - 999 beta) > 0 |
| Pruning.PruningRepels | core/worker_registry.py:161-175 | pruning raises the node's selection probability if and only if that gain is positive, it is not the only node and the request does not rule it out; otherwise no other node loses |
| Pruning.OrdinaryLoadNeverGains | core/worker_registry.py:161-175 | a load term gamma S of at most beta (499.5 - L/2) excludes a gain |
| Pruning.PruningCanAttract | core/worker_registry.py:161-175 | an overloaded node under the default weights, and a busy one in a router configured to ignore latency, gain by being pruned |
| Pruning.ExclusionWearsOff | core/worker_registry.py:154-175 | a pruned node stays in the field and with both flags on its score climbs back towards one, tick by tick |
| Checkpointing.CreateSnapshot | core/checkpointing.py:113-138 | the snapshot holds every node's four traces and is empty exactly for an empty field |
| Checkpointing.SnapshotRoundTrip | core/memory_field.py:256-282 | hydrating gives the source's rows on shared nodes, leaves other rows alone, and is idempotent |
| Checkpointing.HydrateTwice | core/memory_field.py:269-281 | hydration is idempotent for any snapshot |
| Checkpointing.SnapshotAndHydrate | core/checkpointing.py:113-138 | the whole restore, counting shared nodes; fails exactly when the source has no nodes |
| Checkpointing.CheckpointStore.SaveCheckpoint | core/checkpointing.py:154-200 | one store's failure never blocks the other; the location names the file exactly when both disk writes went through |
| Checkpointing.CheckpointStore.LoadLatestCheckpoint | core/checkpointing.py:204-226 | Redis first, then the file, else nothing |
| Checkpointing.LoadReturnsSomeSave | core/checkpointing.py:204-226 | under any failures load returns nothing or a snapshot an earlier save wrote |
| Checkpointing.NewestLoadedIff | core/checkpointing.py:154-226 | exactly when the newest snapshot is returned, by the outcomes of the saves |
| Checkpointing.OlderHidesNewer | core/checkpointing.py:209-226 | an older save in Redis hides a newer one on disk |
| WorkerLoad.LoadCountsRequests | core/worker_node.py:138-165 | in every interleaving the counter is the number of requests in flight, reports count the others, the clamp never acts |
| WorkerLoad.ServedCountsRequests | core/worker_node.py:138-181 | the served counter is the number of streams that entered and inferences that got a result |
| WorkerLoad.WorkerNode.Enter | core/worker_node.py:178-181 | entry raises the counter; the start load counts the request itself |
| WorkerLoad.WorkerNode.YieldChunk | core/worker_node.py:194-203 | a chunk reports the other requests in flight |
| WorkerLoad.WorkerNode.Leave | core/worker_node.py:160-163 | the finally block lowers the counter and reports what remains |

## Left out

- HTTP server, request models, SSE formatting and stream deposits: glue around the core.
- API keys and bearer parsing: library calls and single-branch checks.
- Metrics, dashboard, CLI, benchmarks, simulation and deployment files: presentation and I/O.
- vLLM and Ollama clients: only the load counter steps are kept, outcomes are arbitrary.
- Floating-point rounding, truncation of Lua replies to integers, and Lua's conversion of stored strings.
- A repeated script execution when EVALSHA fails after it ran: one execution per call is modelled.
- Expiry.SteadyClocksInStep: needs readings taken as the script runs; with a delay, expiry can be seen in a reply (`Expiry.DelayShowsExpiry`), though not in the window bound.
- Expiry.ExpiryUnobservable: the same; Expiry.DeployedWindowBound is the statement for delayed scripts.
- Discovery through Pub/Sub: the listener filters out every message it receives, so it has no effect.
- Entropy of a snapshot, archive files and the Redis history stream: nothing reads them back.
- Registry.WorkerRegistry.SendHeartbeat: one step, while the source waits between its test and its write and raises KeyError for a node forgotten in between.
- Registry.WorkerRegistry.PruneUnhealthyWorkers: one call runs undisturbed, each node looked at at its own time; the steps of a pruning are interleaved with other events in `PruneRace`, on values.
- OverlappingEvaporation.InterleavedEvaporations: node lists are fixed, since the code pairs readings with the live list by position; changing membership is covered by RedisField.RangeInvariant.
- LostDeposits.RowIsItsHistory: node lists are fixed here too.
- RouterAgent.Agent.SampleWorker: workers and field rows are taken to be in the same order, which the code assumes when it boosts scores.
- RouterAgent.Agent.Route: the same order of workers and rows.
- BackendAgreement.BackendsAgree: needs deposits that find no time elapsed, which a moving clock and a positive rate exclude; BackendAgreement.RedisNeverAbove is the statement without it.
- BackendAgreement.OperationAgrees: the same; and the two hydrations' returned counts, which differ (the Redis one skips nodes with no trace in the snapshot), are not compared.
- DecaySimulation.DeployedDecaysAtLeastAsMuch: from a latency of zero, which only a snapshot can set, one direction of the agreement is proved.
- Quotas.GateBound: limits do not change for a tenant during the run; overtaken requests are excluded, as SlidingWindow.BoundKeptIff shows they must be.
- Asyncio locks: their critical sections contain no await, so they are atomic steps.
