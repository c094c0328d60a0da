# Binomial option pricing, modelled in Dafny

The system is a small option-pricing library. An option carries:

- a strike K;
- a time to maturity T;
- a volatility sigma;
- a risk-free rate r;
- for the knock-out classes, a barrier B.

Each option class defines an exercise value `getExerciseValue(s, t)`. The
classes are European call and put, American call and put, knock-out call and
put, a compound call on a European call, a reloadable call and an extendible
call.

One generic engine, `Option::getBinomialTreeValue(s, N, contDivYield)`, values
any of them on a recombining binomial lattice of depth N:

1. It derives the up factor, the down factor, the risk-neutral probability and
   the one-step discount from T, sigma, r and an optional dividend yield.
2. It fills a buffer of N + 1 values with the exercise values at maturity.
3. It walks back layer by layer. At each node it overwrites the buffer with the
   discounted expectation of the two successor values, floored at the node's
   exercise value (early exercise).

`getValue` prices American-family and knock-out options on a 250-step lattice.
European-family options use the closed-form Black-Scholes value.

The model is written over `real` in five modules:

- `Numbers`: positive spots, lattice times, `std::max`, integer powers and
  small arithmetic facts.
- `Contracts`: the option classes as one datatype. It also holds the external
  numerical routines (`exp`, `sqrt`, the Black-Scholes formulas, nested
  lattice pricing) as function values.
- `Payoffs`: every `getExerciseValue` and the barrier test.
- `Lattice`: the engine, written twice:
  - functionally, layer by layer (`Layer`, `TreeValue`);
  - as the source runs it, on one array overwritten in place
    (`BinomialTreeValue`, `SweepInPlace`).

  It is proved that both give the same value.
- `Valuation`: the lattice parameters, `getBinomialTreeValue` with its error
  cases, `getBlackScholesValue`, `getValue`, and the comparisons between option
  classes that the lattice implies.

Time is measured in lattice layers. Layer j of an N-step lattice lies at
calendar time j * T / N, and "at maturity" means layer N. This replaces the
source's exact floating-point comparison `t == T`, which holds only in the
maturity layer, where the engine passes T itself.

Two results depend on different assumptions:

- Non-negativity of the lattice value needs no bound on the probabilities.
  Every node is floored at its exercise value, and the exercise values are
  non-negative.
- Monotonicity in the exercise function (American at least European,
  knock-out at most vanilla) needs a risk-neutral lattice: 0 <= p0 <= 1 and a
  positive discount. `Valuation.RiskNeutralIffNoArbitrage` shows when the
  derived p0 lies in [0, 1].

The model follows the code, including where it departs from what the names
suggest:

- A depth of 0 is accepted, although the lattice is meant for positive depths.
  It yields the exercise value at maturity.
- The knock-out classes' closed-form value is the vanilla Black-Scholes value.
  It ignores the barrier.
- The knock-out barrier is checked against the maturity spots only.

## Model

| member | source | states |
|---|---|---|
| Numbers.Elapsed | Options/Options/option.cpp:32-34 | the running time of the backward loop at layer j of N is T - (N - j) * deltaT with deltaT = T / N, i.e. T after no step back and one deltaT less per layer; it is T at the maturity layer, 0 at the root, and within [0, T] |
| Lattice.Recombining | Options/Options/option.cpp:33-41 | node (i, j) has spot s * up^(2i - j); its up successor (i + 1, j + 1) is its spot times up and its down successor (i, j + 1) is its spot times down = 1 / up, so the buffer indices i and i + 1 read the right successors |
| Lattice.NodeValue | Options/Options/option.cpp:39-45 | a node's value is at least its exercise value and at least its discounted expectation, and it is one of the two (early-exercise floor) |
| Lattice.Terminal | Options/Options/option.cpp:15-30 | the maturity layer has N + 1 entries |
| Numbers.PowByMoves | Options/Options/option.cpp:29-37 | u^(ups - downs), the factor `pow(up, 2i - j)` applies, equals the product of ups factors u and downs factors 1 / u taken one move at a time |
| Lattice.NodeSpotByMoves | Options/Options/option.cpp:28-37 | the closed-form spot s * up^(2i - j) of node i in layer j is the spot reached from s by j - i down moves and i up moves |
| Lattice.MaturityLayer | Options/Options/option.cpp:27-30 | the maturity layer has N + 1 entries, and entry i is the exercise value at maturity of the spot reached from s by i up moves and N - i down moves |
| Lattice.Layer | Options/Options/option.cpp:33-47 | layer j has j + 1 nodes, none below the exercise value of its node |
| Lattice.TreeValue | Options/Options/option.cpp:48-50 | the returned root value is never below immediate exercise at the root; at depth 0 it is the exercise value at maturity |
| Lattice.NodesNonNegative | Options/Options/option.cpp:25-50 | with non-negative exercise values every node and the root value are non-negative, whatever p0 and the discount are |
| Lattice.ContinuationMonotone | Options/Options/option.cpp:41 | with 0 <= p0 <= 1 and a positive discount, the discounted expectation is monotone in both successor values |
| Lattice.LayerMonotone | Options/Options/option.cpp:27-46 | a pointwise larger exercise function gives a pointwise larger layer, at every layer |
| Lattice.TreeValueMonotone | Options/Options/option.cpp:27-50 | a pointwise larger exercise function gives a root value at least as large |
| Lattice.LayerAgreement | Options/Options/option.cpp:27-46 | the engine observes the exercise function only at lattice nodes: two functions that agree on every node give identical layers |
| Lattice.NoEarlyExercise | Options/Options/option.cpp:43-45 | on a risk-neutral lattice, a non-negative payoff that is zero before maturity never triggers the floor: each earlier node is exactly its discounted expectation |
| Lattice.Sweep | Options/Options/option.cpp:36-46 | one pass of the inner loop over the shared buffer writes only indices i..j; index k becomes the node value computed from the old entries k + 1 and k; entries below i and above j are unchanged |
| Lattice.SweepIsStep | Options/Options/option.cpp:33-46 | if the buffer's first j + 2 entries hold layer j + 1, a full pass leaves layer j in its first j + 1 entries |
| Lattice.Buffer | Options/Options/option.cpp:33-47 | after the outer loop finishes layer j, the buffer holds layer j in indices 0..j, and index k > j holds the last node written in layer k |
| Lattice.SweepInPlace | Options/Options/option.cpp:36-46 | the inner loop over i = 0..j leaves the array equal to the functional sweep of its former contents: entry k <= j is the node value from the old entries k + 1 and k, the rest is untouched |
| Lattice.FillMaturity | Options/Options/option.cpp:27-30 | the first loop leaves the array of N + 1 values equal to the maturity layer |
| Lattice.BinomialTreeValue | Options/Options/option.cpp:14-51 | the in-place computation on an array of N + 1 values returns exactly the functional lattice value, which is at least the exercise value at the root |
| Payoffs.BarrierRule | Options/Options/option.cpp:89-98 | with K != B, the barrier is breached iff the spot lies strictly on the other side of B from K; with K == B, iff s > B; s == B is never breached |
| Payoffs.AmericanCallExercise | Options/Options/option.cpp:127-129 | the American call pays the intrinsic value: non-negative, at least s - K, and equal to 0 or s - K |
| Payoffs.AmericanPutExercise | Options/Options/option.cpp:131-133 | the American put pays the intrinsic value: non-negative, at least K - s, and equal to 0 or K - s |
| Payoffs.AmericanExerciseIgnoresTime | Options/Options/option.h:139-160 | American call and put exercise values are the same at every time |
| Payoffs.EuropeanCallExercise | Options/Options/option.cpp:175-180 | the European call pays 0 off maturity and the intrinsic call value at maturity, so it is between 0 and the American call's value |
| Payoffs.EuropeanPutExercise | Options/Options/option.cpp:182-187 | the European put pays 0 off maturity and the intrinsic put value at maturity, so it is between 0 and the American put's value |
| Payoffs.KnockOutCallExercise | Options/Options/option.cpp:233-241 | the knock-out call pays 0 when the barrier is breached and the European call's value otherwise, so it is between 0 and the European value |
| Payoffs.KnockOutPutExercise | Options/Options/option.cpp:247-255 | the knock-out put pays 0 when the barrier is breached and the European put's value otherwise, so it is between 0 and the European value |
| Payoffs.CompoundExercise | Options/Options/option.cpp:189-205 | the compound call pays 0 before maturity; at maturity it pays max(0, V - K), where V is the 30-step lattice value of a European call struck at 90 with remaining life 6/12 - T; it is never negative |
| Payoffs.ReloadableExercise | Options/Options/option.cpp:136-150 | at maturity the reloadable call pays the call part max(0, s - K); before maturity it pays K / s new calls more, each worth the 100-step lattice value of a call with strike K and remaining life T - t |
| Payoffs.ExtendibleExercise | Options/Options/option.cpp:159-168 | the extendible call pays at least s - K and at least the closed-form value of the call with strike K + 1, and it pays one of the two |
| Payoffs.ExerciseNonNegative | Options/Options/option.cpp:127-205 | every class's exercise value is non-negative, provided a reloadable call's strike is non-negative |
| Payoffs.WorthlessBeforeMaturity | Options/Options/option.h:58-101 | European, compound and knock-out options pay nothing before maturity |
| Payoffs.AmericanDominatesEuropean | Options/Options/option.cpp:127-187 | an American call or put pays at least the European one with the same terms, at every spot and time |
| Payoffs.VanillaDominatesKnockOut | Options/Options/option.cpp:233-255 | a knock-out call or put pays at most the European one with the same terms, at every spot and time |
| Payoffs.ExoticCallsDominateAmerican | Options/Options/option.cpp:136-168 | the reloadable and extendible calls pay at least the American call, given a non-negative strike |
| Valuation.Growth | Options/Options/option.cpp:20-24 | the sentinel yield -1 selects the no-dividend growth exp(r dt); any other yield q gives exp((r - q) dt); a zero yield agrees with the sentinel |
| Valuation.Derive | Options/Options/option.cpp:16-25 | the parameters exist iff T > 0 and the up factor is not 1; if they exist, up = exp(sigma sqrt(dt)), the discount is exp(-r dt) > 0, and p0 * up + p1 * down equals the one-step growth |
| Valuation.RiskNeutralIffNoArbitrage | Options/Options/option.cpp:20-25 | for up > 1, the derived p0 is a probability iff down <= growth <= up |
| Valuation.Price | Options/Options/option.cpp:14-30 | a non-positive spot or a negative depth is rejected; depth 0 gives the exercise value at maturity; a positive depth succeeds iff the parameters exist; a value is never below immediate exercise at the root |
| Valuation.BinomialPrice | Options/Options/option.cpp:14-51 | the in-place engine with parameter derivation and error cases returns exactly the functional lattice price |
| Valuation.PriceNonNegative | Options/Options/option.cpp:25-50 | every lattice price is non-negative, provided a reloadable call's strike is non-negative |
| Valuation.DominatedPrice | Options/Options/option.cpp:27-46 | on a risk-neutral lattice, a contract that pays at least as much everywhere has a lattice price at least as large |
| Valuation.AmericanAtLeastEuropean | Options/Options/option.cpp:39-45 | on a risk-neutral lattice, the American call and put are worth at least the European ones |
| Valuation.KnockOutAtMostVanilla | Options/Options/option.cpp:233-255 | on a risk-neutral lattice, the knock-out call and put are worth at most the European ones |
| Valuation.ExoticCallsAtLeastAmerican | Options/Options/option.cpp:136-168 | on a risk-neutral lattice, the reloadable and extendible calls are worth at least the American call |
| Valuation.UnbreachedKnockOutIsVanilla | Options/Options/option.cpp:233-255 | if no maturity spot of the lattice breaches the barrier, the knock-out price equals the European price |
| Valuation.NeverExercisedEarly | Options/Options/option.cpp:43-45 | on a risk-neutral lattice, European, compound and knock-out options are never exercised early: each node before maturity is its discounted expectation |
| Valuation.AnalyticValue | Options/Options/option.cpp:170-259 | the closed form fails iff the spot is non-positive or the class is compound, reloadable or extendible; the failure is an unsupported operation exactly for those three classes, whatever the spot, and an invalid argument otherwise |
| Valuation.AnalyticIgnoresBarrier | Options/Options/option.cpp:243-259 | the knock-out closed form equals the European and American closed forms of the same terms |
| Valuation.Value | Options/Options/option.cpp:70-87 | European-family options take the closed form; American-family and knock-out options take a 250-step lattice with the no-dividend sentinel; only the compound call is unsupported, at every spot |

## Left out

- The Black-Scholes formulas, with `getd1`, `getd2` and `normalCDF`: floating-point `log`, `erfc` and `exp` numerics. The model takes the call and put formulas as function values, `Externals.callFormula` and `Externals.putFormula`.
- The values of `exp` and `sqrt`: they are function values `Externals.exp` and `Externals.sqrt`. The only fact assumed is that `exp` is positive, and its type carries that fact.
- Externals.callFormula, Externals.putFormula and Externals.nestedTreeValue: their results are typed non-negative. This is the one fact the model uses about them. The closed forms are non-negative in exact arithmetic. `Lattice.NodesNonNegative` proves the same of a nested European call's lattice value.
- Nested pricing. The compound and reloadable payoffs price a fresh European call on its own lattice. The model reads that value from `Externals.nestedTreeValue`, applied to the nested contract, spot and depth. Exercise values therefore stay total real functions, and there is no recursion between the payoffs and the engine.
- `pow(up, 2i - j)`: modelled by an exact integer power of the up factor.
- Floating-point rounding, `inf` and `NaN`: everything is over exact reals. The running time `t -= deltaT` is replaced by the layer index, and `Numbers.Elapsed` gives its calendar time.
- Valuation.Price: rejects a non-positive spot as an invalid argument. The source would go on with it. A reloadable payoff then divides by the spot, and the closed form takes `log(s / K)`.
- Valuation.Derive: T <= 0, or an up factor equal to its reciprocal, is an invalid argument. In the source these produce division by zero or NaN.
- Valuation.Price: a negative depth is an invalid argument. In the source, N = -1 sizes an empty vector and `treeValues[0]` then reads past its end, which is undefined behaviour; N <= -2 makes the vector constructor throw `std::length_error`.
- Valuation.AnalyticValue: the call and put classes reject a spot s <= 0 as an invalid argument. The source's closed forms give finite values at s = 0, 0 for the call and K * exp(-rT) for the put, and NaN for s < 0. The compound, reloadable and extendible classes are unsupported at every spot, as in the source.
- 32-bit `int` overflow: `N + 1` at Options/Options/option.cpp:15 and `2 * i - j` at line 37 are computed in unbounded integers. In the source the first overflows at N = 2^31 - 1 and the second once N exceeds about 2^30.
- The `throw` and the console message with the -1 return of the unsupported closed forms: modelled as `Err(UnsupportedOperation)`.
- The constructors: they only store their arguments into the `Terms` and `Style` of a `Contract`.
- `main.cpp`: an example driver with console output only.
- The source's two writes of a buffer cell per node: collapsed into one write of the larger value. The in-place method is proved equal to the functional layers, so it does not change the result.
