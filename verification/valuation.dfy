/** Pricing entry points: the lattice parameters derived from a contract's
    terms, the lattice value of a contract (`getBinomialTreeValue`), its
    closed-form value (`getBlackScholesValue`) and its default value
    (`getValue`), with the comparisons between classes they imply. */
module Valuation {
  import opened Numbers
  import opened Contracts
  import opened Payoffs
  import Lattice

  datatype Failure = InvalidArgument | UnsupportedOperation

  datatype Result<T> = Ok(value: T) | Err(failure: Failure)

  /** The default dividend-yield argument, a sentinel for "no dividend". */
  const NoDividend: real := -1.0

  /** Depth of the lattice on which American-family and knock-out options
      are valued by default. */
  const DefaultDepth: nat := 250

  /** Gross risk-free growth over one step of length dt, net of a continuous
      dividend yield q unless q is the sentinel. A zero yield and the
      sentinel agree. */
  function Growth(ext: Externals, rate: real, q: real, dt: real): (g: real)
    ensures q == NoDividend || q == 0.0 ==> g == ext.exp(rate * dt)
    ensures q != NoDividend ==> g == ext.exp((rate - q) * dt)
  {
    if q == NoDividend then ext.exp(rate * dt)
    else
      var exponent := (rate - q) * dt;
      assert q == 0.0 ==> exponent == rate * dt;
      ext.exp(exponent)
  }

  /** Length of one step of an n-step lattice over the contract's life. */
  function StepLength(terms: Terms, n: nat): real
    requires n > 0
  {
    terms.maturity / n as real
  }

  /** Up factor exp(sigma * sqrt(dt)) of an n-step lattice. */
  function StepUp(terms: Terms, ext: Externals, n: nat): real
    requires n > 0
  {
    ext.exp(terms.sigma * ext.sqrt(StepLength(terms, n)))
  }

  /** One-step discount factor exp(-r * dt) of an n-step lattice. */
  function StepDiscount(terms: Terms, ext: Externals, n: nat): real
    requires n > 0
  {
    ext.exp(-terms.rate * StepLength(terms, n))
  }

  /** The per-step lattice parameters: up factor, risk-neutral up
      probability and discount factor exp(-r dt). The derivation fails when
      the time to maturity is not positive or when the up and down factors
      coincide, where `getBinomialTreeValue` divides by zero or takes the
      square root of a negative number. The probability makes the expected one-step growth
      of the spot the risk-free growth. */
  function Derive(terms: Terms, ext: Externals, n: nat, q: real): (r: Result<Lattice.Params>)
    requires n > 0
    ensures r.Err? <==> terms.maturity <= 0.0 || StepUp(terms, ext, n) == 1.0
    ensures r.Err? ==> r.failure == InvalidArgument
    ensures r.Ok? ==> r.value.Valid() && r.value.up == StepUp(terms, ext, n)
    ensures r.Ok? ==> r.value.disc == StepDiscount(terms, ext, n) > 0.0
    ensures r.Ok? ==>
      r.value.p0 * r.value.up + r.value.P1() * r.value.Down() == Growth(ext, terms.rate, q, StepLength(terms, n))
  {
    var dt := StepLength(terms, n);
    var up := StepUp(terms, ext, n);
    var down := 1.0 / up;
    SelfReciprocal(up);
    if terms.maturity <= 0.0 || up == down then
      Err(InvalidArgument)
    else
      var g := Growth(ext, terms.rate, q, dt);
      var p0 := (g - down) / (up - down);
      WeightedAverage(up, down, g);
      var disc := StepDiscount(terms, ext, n);
      assert disc > 0.0;
      Ok(Lattice.Params(up, p0, disc))
  }

  /** When the up factor exceeds one, the derived probability lies in
      [0, 1] exactly when the risk-free growth lies between the down and
      the up factor (no arbitrage). */
  lemma RiskNeutralIffNoArbitrage(terms: Terms, ext: Externals, n: nat, q: real)
    requires n > 0 && terms.maturity > 0.0 && StepUp(terms, ext, n) > 1.0
    ensures var lat := Derive(terms, ext, n, q).value;
      lat.RiskNeutral() <==>
        lat.Down() <= Growth(ext, terms.rate, q, StepLength(terms, n)) <= lat.up
  {
    var lat := Derive(terms, ext, n, q).value;
    var up := lat.up;
    var down := 1.0 / up;
    assert down < 1.0 by {
      MulMonotone(down, 1.0, up);
    }
    WeightBounds(up, down, Growth(ext, terms.rate, q, StepLength(terms, n)));
  }

  /** The lattice parameters of an n-step lattice exist and form a
      risk-neutral distribution. */
  predicate RiskNeutralAt(terms: Terms, ext: Externals, n: nat, q: real)
  {
    && n > 0
    && Derive(terms, ext, n, q).Ok?
    && Derive(terms, ext, n, q).value.RiskNeutral()
  }

  /** `getBinomialTreeValue(s, n, q)`: the value of the contract on an
      n-step lattice rooted at spot s. A non-positive spot or a negative
      depth is rejected; depth 0 is the exercise value at maturity; a
      successful value is never below immediate exercise at the root. */
  function Price(c: Contract, ext: Externals, s: real, n: int, q: real): (r: Result<real>)
    ensures s <= 0.0 || n < 0 ==> r == Err(InvalidArgument)
    ensures n == 0 && s > 0.0 ==> r == Ok(ExerciseValue(c, ext, s, Moment(0, 0)))
    ensures n > 0 && s > 0.0 ==> (r.Ok? <==> Derive(c.terms, ext, n, q).Ok?)
    ensures r.Ok? ==> s > 0.0 && n >= 0 && r.value >= ExerciseValue(c, ext, s, Moment(0, n))
  {
    if s <= 0.0 || n < 0 then Err(InvalidArgument)
    else if n == 0 then Ok(ExerciseValue(c, ext, s, Moment(0, 0)))
    else
      match Derive(c.terms, ext, n, q)
      case Err(f) => Err(f)
      case Ok(lat) => Ok(Lattice.TreeValue(lat, Payoff(c, ext), s, n))
  }

  /** The same valuation run on the in-place buffer of the engine. */
  method BinomialPrice(c: Contract, ext: Externals, s: real, n: int, q: real) returns (r: Result<real>)
    ensures r == Price(c, ext, s, n, q)
  {
    if s <= 0.0 || n < 0 {
      return Err(InvalidArgument);
    }
    if n == 0 {
      return Ok(ExerciseValue(c, ext, s, Moment(0, 0)));
    }
    var params := Derive(c.terms, ext, n, q);
    if params.Err? {
      return Err(params.failure);
    }
    var v := Lattice.BinomialTreeValue(params.value, Payoff(c, ext), s, n);
    r := Ok(v);
  }

  /** With non-negative exercise values the lattice value is non-negative. */
  lemma PriceNonNegative(c: Contract, ext: Externals, s: real, n: int, q: real)
    requires NonNegativeSetting(c)
    ensures Price(c, ext, s, n, q).Ok? ==> Price(c, ext, s, n, q).value >= 0.0
  {
    if Price(c, ext, s, n, q).Ok? {
      ExerciseNonNegative(c, ext, s, Moment(0, n));
    }
  }

  /** On a risk-neutral lattice a contract that pays at least as much on
      exercise everywhere is worth at least as much. */
  lemma DominatedPrice(hi: Contract, lo: Contract, ext: Externals, s: Spot, n: nat, q: real)
    requires hi.terms == lo.terms && RiskNeutralAt(hi.terms, ext, n, q)
    requires Dominates(hi, lo, ext)
    ensures Price(lo, ext, s, n, q).Ok? && Price(hi, ext, s, n, q).Ok?
    ensures Price(lo, ext, s, n, q).value <= Price(hi, ext, s, n, q).value
  {
    var lat := Derive(hi.terms, ext, n, q).value;
    Lattice.TreeValueMonotone(lat, Payoff(lo, ext), Payoff(hi, ext), s, n);
  }

  /** An American call or put is worth at least the European one. */
  lemma AmericanAtLeastEuropean(terms: Terms, ext: Externals, s: Spot, n: nat, q: real)
    requires RiskNeutralAt(terms, ext, n, q)
    ensures Price(Contract(terms, EuropeanCall), ext, s, n, q).value
         <= Price(Contract(terms, AmericanCall), ext, s, n, q).value
    ensures Price(Contract(terms, EuropeanPut), ext, s, n, q).value
         <= Price(Contract(terms, AmericanPut), ext, s, n, q).value
  {
    AmericanDominatesEuropean(terms, ext);
    DominatedPrice(Contract(terms, AmericanCall), Contract(terms, EuropeanCall), ext, s, n, q);
    DominatedPrice(Contract(terms, AmericanPut), Contract(terms, EuropeanPut), ext, s, n, q);
  }

  /** A knock-out call or put is worth at most the European one. */
  lemma KnockOutAtMostVanilla(terms: Terms, barrier: real, ext: Externals, s: Spot, n: nat, q: real)
    requires RiskNeutralAt(terms, ext, n, q)
    ensures Price(Contract(terms, KnockOutCall(barrier)), ext, s, n, q).value
         <= Price(Contract(terms, EuropeanCall), ext, s, n, q).value
    ensures Price(Contract(terms, KnockOutPut(barrier)), ext, s, n, q).value
         <= Price(Contract(terms, EuropeanPut), ext, s, n, q).value
  {
    VanillaDominatesKnockOut(terms, barrier, ext);
    DominatedPrice(Contract(terms, EuropeanCall), Contract(terms, KnockOutCall(barrier)), ext, s, n, q);
    DominatedPrice(Contract(terms, EuropeanPut), Contract(terms, KnockOutPut(barrier)), ext, s, n, q);
  }

  /** Reloadable and extendible calls are worth at least the American call. */
  lemma ExoticCallsAtLeastAmerican(terms: Terms, ext: Externals, s: Spot, n: nat, q: real)
    requires RiskNeutralAt(terms, ext, n, q)
    requires terms.strike >= 0.0
    ensures Price(Contract(terms, AmericanCall), ext, s, n, q).value
         <= Price(Contract(terms, ReloadableCall), ext, s, n, q).value
    ensures Price(Contract(terms, AmericanCall), ext, s, n, q).value
         <= Price(Contract(terms, ExtendibleCall), ext, s, n, q).value
  {
    ExoticCallsDominateAmerican(terms, ext);
    DominatedPrice(Contract(terms, ReloadableCall), Contract(terms, AmericanCall), ext, s, n, q);
    DominatedPrice(Contract(terms, ExtendibleCall), Contract(terms, AmericanCall), ext, s, n, q);
  }

  /** If no spot of the maturity layer is across the barrier, the knock-out
      option is worth exactly the European one: the barrier never binds. */
  lemma UnbreachedKnockOutIsVanilla(terms: Terms, barrier: real, ext: Externals, s: Spot, n: nat, q: real)
    requires n > 0 && Derive(terms, ext, n, q).Ok?
    requires forall i :: 0 <= i <= n ==>
      !IsAcrossBarrier(terms.strike, barrier, Lattice.NodeSpot(s, Derive(terms, ext, n, q).value, i, n))
    ensures Price(Contract(terms, KnockOutCall(barrier)), ext, s, n, q)
         == Price(Contract(terms, EuropeanCall), ext, s, n, q)
    ensures Price(Contract(terms, KnockOutPut(barrier)), ext, s, n, q)
         == Price(Contract(terms, EuropeanPut), ext, s, n, q)
  {
    var lat := Derive(terms, ext, n, q).value;
    Lattice.LayerAgreement(lat, Payoff(Contract(terms, KnockOutCall(barrier)), ext),
      Payoff(Contract(terms, EuropeanCall), ext), s, n, 0);
    Lattice.LayerAgreement(lat, Payoff(Contract(terms, KnockOutPut(barrier)), ext),
      Payoff(Contract(terms, EuropeanPut), ext), s, n, 0);
  }

  /** European, compound and knock-out options are never exercised early on
      a risk-neutral lattice: below maturity each node is the discounted
      expectation of its successors. */
  lemma NeverExercisedEarly(c: Contract, ext: Externals, s: Spot, n: nat, q: real, j: nat)
    requires PaysOnlyAtMaturity(c.style) && NonNegativeSetting(c)
    requires RiskNeutralAt(c.terms, ext, n, q) && j < n
    ensures var lat := Derive(c.terms, ext, n, q).value;
      var layer := Lattice.Layer(lat, Payoff(c, ext), s, n, j);
      var next := Lattice.Layer(lat, Payoff(c, ext), s, n, j + 1);
      forall i :: 0 <= i <= j ==> layer[i] == Lattice.Continuation(lat, next[i + 1], next[i])
  {
    var lat := Derive(c.terms, ext, n, q).value;
    PayoffNonNegative(c, ext);
    WorthlessBeforeMaturity(c, ext);
    Lattice.NoEarlyExercise(lat, Payoff(c, ext), s, n, j);
  }

  /** `getBlackScholesValue`: the closed-form value. Calls and puts use the
      call and put formulas at a positive spot; the compound, reloadable and
      extendible classes do not support it at any spot. */
  function AnalyticValue(c: Contract, ext: Externals, s: real): (r: Result<real>)
    ensures r.Err? <==>
      s <= 0.0 || c.style.CompoundEuropeanCall? || c.style.ReloadableCall? || c.style.ExtendibleCall?
    ensures r.Err? ==>
      (r.failure == UnsupportedOperation <==>
        c.style.CompoundEuropeanCall? || c.style.ReloadableCall? || c.style.ExtendibleCall?)
  {
    match c.style
    case CompoundEuropeanCall | ReloadableCall | ExtendibleCall => Err(UnsupportedOperation)
    case EuropeanCall | AmericanCall | KnockOutCall(_) =>
      if s <= 0.0 then Err(InvalidArgument) else Ok(ext.callFormula(c.terms, s))
    case EuropeanPut | AmericanPut | KnockOutPut(_) =>
      if s <= 0.0 then Err(InvalidArgument) else Ok(ext.putFormula(c.terms, s))
  }

  /** The closed form of a knock-out option ignores the barrier: it is the
      European (and American) formula of the same terms. */
  lemma AnalyticIgnoresBarrier(terms: Terms, barrier: real, ext: Externals, s: real)
    ensures AnalyticValue(Contract(terms, KnockOutCall(barrier)), ext, s)
         == AnalyticValue(Contract(terms, EuropeanCall), ext, s)
         == AnalyticValue(Contract(terms, AmericanCall), ext, s)
    ensures AnalyticValue(Contract(terms, KnockOutPut(barrier)), ext, s)
         == AnalyticValue(Contract(terms, EuropeanPut), ext, s)
         == AnalyticValue(Contract(terms, AmericanPut), ext, s)
  {
  }

  /** `getValue`: European-family options use the closed form; American-
      family and knock-out options use a 250-step lattice without dividend.
      Of all classes only the compound call has no default value, at any
      spot. */
  function Value(c: Contract, ext: Externals, s: real): (r: Result<real>)
    ensures FamilyOf(c.style) == EuropeanFamily ==> r == AnalyticValue(c, ext, s)
    ensures FamilyOf(c.style) != EuropeanFamily ==> r == Price(c, ext, s, DefaultDepth, NoDividend)
    ensures r == Err(UnsupportedOperation) <==> c.style.CompoundEuropeanCall?
  {
    match FamilyOf(c.style)
    case EuropeanFamily => AnalyticValue(c, ext, s)
    case AmericanFamily | KnockOutFamily => Price(c, ext, s, DefaultDepth, NoDividend)
  }
}
