/** Exercise values (`getExerciseValue`) of every option class, and the
    barrier test of the knock-out options.

    Time is the lattice time of `Numbers.Time`: "at maturity" is the last
    layer, where `getExerciseValue` compares the running time with T. */
module Payoffs {
  import opened Numbers
  import opened Contracts

  /** A down-and-out option (strike above the barrier) is knocked out below
      the barrier; any other knock-out option is knocked out above it. */
  function IsAcrossBarrier(strike: real, barrier: real, s: real): bool
  {
    if strike > barrier then s < barrier else s > barrier
  }

  /** The barrier is breached exactly when the spot lies strictly on the
      other side of the barrier from the strike; a strike on the barrier
      makes an up-and-out option, and a spot on the barrier is never across. */
  lemma BarrierRule(strike: real, barrier: real, s: real)
    ensures strike != barrier ==>
      (IsAcrossBarrier(strike, barrier, s) <==> (s - barrier) * (strike - barrier) < 0.0)
    ensures strike == barrier ==> (IsAcrossBarrier(strike, barrier, s) <==> s > barrier)
    ensures !IsAcrossBarrier(strike, barrier, barrier)
  {
    if strike != barrier {
      ProductSign(s - barrier, strike - barrier);
    }
  }

  /** Exercise value of an American call: the intrinsic value max(0, s - K),
      whatever the time. */
  function AmericanCallExercise(strike: real, s: Spot, t: Time): (r: real)
    ensures r >= 0.0 && r >= s - strike
    ensures r == 0.0 || r == s - strike
  {
    Max(0.0, s - strike)
  }

  /** Exercise value of an American put: the intrinsic value max(0, K - s),
      whatever the time. */
  function AmericanPutExercise(strike: real, s: Spot, t: Time): (r: real)
    ensures r >= 0.0 && r >= strike - s
    ensures r == 0.0 || r == strike - s
  {
    Max(0.0, strike - s)
  }

  /** American exercise values do not depend on the time of exercise. */
  lemma AmericanExerciseIgnoresTime(strike: real, s: Spot, t: Time, t': Time)
    ensures AmericanCallExercise(strike, s, t) == AmericanCallExercise(strike, s, t')
    ensures AmericanPutExercise(strike, s, t) == AmericanPutExercise(strike, s, t')
  {
  }

  /** Exercise value of a European call: worthless before maturity, the
      American (intrinsic) value at maturity. */
  function EuropeanCallExercise(strike: real, s: Spot, t: Time): (r: real)
    ensures 0.0 <= r <= AmericanCallExercise(strike, s, t)
    ensures !t.AtMaturity() ==> r == 0.0
    ensures t.AtMaturity() ==> r == AmericanCallExercise(strike, s, t)
  {
    if !t.AtMaturity() then 0.0 else Max(0.0, s - strike)
  }

  /** Exercise value of a European put: worthless before maturity, the
      American (intrinsic) value at maturity. */
  function EuropeanPutExercise(strike: real, s: Spot, t: Time): (r: real)
    ensures 0.0 <= r <= AmericanPutExercise(strike, s, t)
    ensures !t.AtMaturity() ==> r == 0.0
    ensures t.AtMaturity() ==> r == AmericanPutExercise(strike, s, t)
  {
    if !t.AtMaturity() then 0.0 else Max(0.0, strike - s)
  }

  /** Exercise value of a knock-out call: the European call's, except that a
      breached barrier makes it worthless. */
  function KnockOutCallExercise(strike: real, barrier: real, s: Spot, t: Time): (r: real)
    ensures 0.0 <= r <= EuropeanCallExercise(strike, s, t)
    ensures IsAcrossBarrier(strike, barrier, s) ==> r == 0.0
    ensures !IsAcrossBarrier(strike, barrier, s) ==> r == EuropeanCallExercise(strike, s, t)
  {
    if !t.AtMaturity() then 0.0
    else if IsAcrossBarrier(strike, barrier, s) then 0.0
    else Max(0.0, s - strike)
  }

  /** Exercise value of a knock-out put: the European put's, except that a
      breached barrier makes it worthless. */
  function KnockOutPutExercise(strike: real, barrier: real, s: Spot, t: Time): (r: real)
    ensures 0.0 <= r <= EuropeanPutExercise(strike, s, t)
    ensures IsAcrossBarrier(strike, barrier, s) ==> r == 0.0
    ensures !IsAcrossBarrier(strike, barrier, s) ==> r == EuropeanPutExercise(strike, s, t)
  {
    if !t.AtMaturity() then 0.0
    else if IsAcrossBarrier(strike, barrier, s) then 0.0
    else Max(0.0, strike - s)
  }

  /** The compound option's underlying: a European call struck at 90 that
      expires 6/12 of a year from now, priced on a 30-step lattice. */
  const UnderlyingStrike: real := 90.0
  const UnderlyingExpiry: real := 6.0 / 12.0
  const UnderlyingDepth: nat := 30

  /** The underlying call as the compound option builds it at its maturity:
      its remaining life is the underlying expiry less T. */
  function CompoundUnderlying(terms: Terms): Contract
  {
    Contract(Terms(UnderlyingStrike, UnderlyingExpiry - terms.maturity, terms.sigma, terms.rate), EuropeanCall)
  }

  /** Exercise value of a compound call on a European call: worthless
      before maturity; at maturity the right to buy the underlying call for
      K, worth max(0, V - K) where V is the underlying call's lattice value. */
  function CompoundExercise(terms: Terms, ext: Externals, s: Spot, t: Time): (r: real)
    ensures r >= 0.0
    ensures !t.AtMaturity() ==> r == 0.0
    ensures t.AtMaturity() ==>
      var v := ext.nestedTreeValue(CompoundUnderlying(terms), s, UnderlyingDepth);
      r >= v - terms.strike && (r == 0.0 || r == v - terms.strike)
  {
    if !t.AtMaturity() then 0.0
    else
      var v := ext.nestedTreeValue(CompoundUnderlying(terms), s, UnderlyingDepth);
      Max(0.0, v - terms.strike)
  }

  /** Depth of the lattice that prices the calls a reloadable option hands out. */
  const ReloadDepth: nat := 100

  /** The call a reloadable option hands out when exercised at time t: same
      strike, volatility and rate, expiring when the original does. */
  function ReloadedCall(terms: Terms, t: Time): Contract
  {
    Contract(Terms(terms.strike, terms.maturity - Elapsed(terms.maturity, t), terms.sigma, terms.rate), EuropeanCall)
  }

  /** Exercise value of a reloadable call: the call payoff max(0, s - K);
      before maturity also K / s new calls, as many as the shares it takes
      to pay the strike, each worth its 100-step lattice value. */
  function ReloadableExercise(terms: Terms, ext: Externals, s: Spot, t: Time): (r: real)
    ensures t.AtMaturity() ==> r == AmericanCallExercise(terms.strike, s, t)
    ensures !t.AtMaturity() ==>
      r - AmericanCallExercise(terms.strike, s, t)
        == (terms.strike / s) * ext.nestedTreeValue(ReloadedCall(terms, t), s, ReloadDepth)
  {
    var callPart := Max(0.0, s - terms.strike);
    if t.AtMaturity() then callPart
    else
      var newOptions := terms.strike / s;
      var newCall := ext.nestedTreeValue(ReloadedCall(terms, t), s, ReloadDepth);
      newOptions * newCall + callPart
  }

  /** The call an extendible call may be extended into: strike K + 1, same
      maturity, volatility and rate. */
  function ExtendedCall(terms: Terms): Terms
  {
    Terms(terms.strike + 1.0, terms.maturity, terms.sigma, terms.rate)
  }

  /** Exercise value of an extendible call: the better of exercising now,
      s - K, and extending into the call of `ExtendedCall`, valued by the
      Black-Scholes formula. */
  function ExtendibleExercise(terms: Terms, ext: Externals, s: Spot, t: Time): (r: real)
    ensures r >= s - terms.strike && r >= ext.callFormula(ExtendedCall(terms), s)
    ensures r == s - terms.strike || r == ext.callFormula(ExtendedCall(terms), s)
  {
    Max(s - terms.strike, ext.callFormula(ExtendedCall(terms), s))
  }

  /** `getExerciseValue`, dispatched on the option class. */
  function ExerciseValue(c: Contract, ext: Externals, s: Spot, t: Time): real
  {
    var k := c.terms.strike;
    match c.style
    case EuropeanCall => EuropeanCallExercise(k, s, t)
    case EuropeanPut => EuropeanPutExercise(k, s, t)
    case CompoundEuropeanCall => CompoundExercise(c.terms, ext, s, t)
    case AmericanCall => AmericanCallExercise(k, s, t)
    case AmericanPut => AmericanPutExercise(k, s, t)
    case ReloadableCall => ReloadableExercise(c.terms, ext, s, t)
    case ExtendibleCall => ExtendibleExercise(c.terms, ext, s, t)
    case KnockOutCall(b) => KnockOutCallExercise(k, b, s, t)
    case KnockOutPut(b) => KnockOutPutExercise(k, b, s, t)
  }

  /** The exercise-value function the lattice engine calls back into. */
  function Payoff(c: Contract, ext: Externals): (Spot, Time) -> real
  {
    (x: Spot, t: Time) => ExerciseValue(c, ext, x, t)
  }

  /** The condition under which a class's exercise value is never
      negative: a reloadable call pays K / s new calls, so its strike must
      not be negative. */
  predicate NonNegativeSetting(c: Contract)
  {
    c.style.ReloadableCall? ==> c.terms.strike >= 0.0
  }

  /** Every exercise value is non-negative. */
  lemma ExerciseNonNegative(c: Contract, ext: Externals, s: Spot, t: Time)
    requires NonNegativeSetting(c)
    ensures ExerciseValue(c, ext, s, t) >= 0.0
  {
    if c.style.ReloadableCall? && !t.AtMaturity() {
      var v := ext.nestedTreeValue(ReloadedCall(c.terms, t), s, ReloadDepth);
      assert v >= 0.0;
      assert c.terms.strike / s >= 0.0;
      MulMonotone(c.terms.strike / s, 0.0, v);
    } else if c.style.ExtendibleCall? {
      assert ext.callFormula(ExtendedCall(c.terms), s) >= 0.0;
    }
  }

  /** The lattice callback is non-negative everywhere. */
  lemma PayoffNonNegative(c: Contract, ext: Externals)
    requires NonNegativeSetting(c)
    ensures forall x: Spot, t: Time :: Payoff(c, ext)(x, t) >= 0.0
  {
    forall x: Spot, t: Time
      ensures Payoff(c, ext)(x, t) >= 0.0
    {
      ExerciseNonNegative(c, ext, x, t);
    }
  }

  /** Classes that are worthless before maturity. */
  predicate PaysOnlyAtMaturity(style: Style)
  {
    style.EuropeanCall? || style.EuropeanPut? || style.CompoundEuropeanCall?
    || style.KnockOutCall? || style.KnockOutPut?
  }

  /** European, compound and knock-out options have no value before maturity. */
  lemma WorthlessBeforeMaturity(c: Contract, ext: Externals)
    requires PaysOnlyAtMaturity(c.style)
    ensures forall x: Spot, t: Time :: !t.AtMaturity() ==> Payoff(c, ext)(x, t) == 0.0
  {
  }

  /** `hi` pays at least as much as `lo` on exercise, at every spot and time. */
  ghost predicate Dominates(hi: Contract, lo: Contract, ext: Externals)
  {
    forall x: Spot, t: Time :: Payoff(lo, ext)(x, t) <= Payoff(hi, ext)(x, t)
  }

  /** An American option pays at least what the European one with the same
      terms pays. */
  lemma AmericanDominatesEuropean(terms: Terms, ext: Externals)
    ensures Dominates(Contract(terms, AmericanCall), Contract(terms, EuropeanCall), ext)
    ensures Dominates(Contract(terms, AmericanPut), Contract(terms, EuropeanPut), ext)
  {
  }

  /** A knock-out option pays at most what the European one with the same
      terms pays. */
  lemma VanillaDominatesKnockOut(terms: Terms, barrier: real, ext: Externals)
    ensures Dominates(Contract(terms, EuropeanCall), Contract(terms, KnockOutCall(barrier)), ext)
    ensures Dominates(Contract(terms, EuropeanPut), Contract(terms, KnockOutPut(barrier)), ext)
  {
  }

  /** With a non-negative strike, the reloadable and the
      extendible calls pay at least what the American call pays. */
  lemma ExoticCallsDominateAmerican(terms: Terms, ext: Externals)
    requires terms.strike >= 0.0
    ensures Dominates(Contract(terms, ReloadableCall), Contract(terms, AmericanCall), ext)
    ensures Dominates(Contract(terms, ExtendibleCall), Contract(terms, AmericanCall), ext)
  {
    forall x: Spot, t: Time
      ensures ExerciseValue(Contract(terms, AmericanCall), ext, x, t)
           <= ExerciseValue(Contract(terms, ReloadableCall), ext, x, t)
      ensures ExerciseValue(Contract(terms, AmericanCall), ext, x, t)
           <= ExerciseValue(Contract(terms, ExtendibleCall), ext, x, t)
    {
      ExerciseNonNegative(Contract(terms, ReloadableCall), ext, x, t);
      if !t.AtMaturity() {
        var v := ext.nestedTreeValue(ReloadedCall(terms, t), x, ReloadDepth);
        MulMonotone(terms.strike / x, 0.0, v);
      }
      assert ext.callFormula(ExtendedCall(terms), x) >= 0.0;
    }
  }
}
