/** The option classes of the library as one tagged variant.

    Every option carries a strike, a time to maturity, a volatility and a
    risk-free rate; the class decides the exercise rule and, through the
    family it derives from, how its value is computed by default. The
    numerical routines the classes lean on (`exp`, `sqrt`, the closed-form
    Black-Scholes value, and the lattice value of a nested contract) are
    given to the model as function values. */
module Contracts {
  import opened Numbers

  /** Strike K, time to maturity T in years, annualised volatility sigma and
      risk-free rate r. */
  datatype Terms = Terms(strike: real, maturity: real, sigma: real, rate: real)

  /** The concrete option classes. */
  datatype Style =
    | EuropeanCall
    | EuropeanPut
    | CompoundEuropeanCall
    | AmericanCall
    | AmericanPut
    | ReloadableCall
    | ExtendibleCall
    | KnockOutCall(barrier: real)
    | KnockOutPut(barrier: real)

  /** The second level of the class hierarchy: which base class a style
      derives from. */
  datatype Family = EuropeanFamily | AmericanFamily | KnockOutFamily

  function FamilyOf(style: Style): Family
  {
    match style
    case EuropeanCall | EuropeanPut | CompoundEuropeanCall => EuropeanFamily
    case AmericanCall | AmericanPut | ReloadableCall | ExtendibleCall => AmericanFamily
    case KnockOutCall(_) | KnockOutPut(_) => KnockOutFamily
  }

  datatype Contract = Contract(terms: Terms, style: Style)

  /** Routines outside the modelled core, taken as given:
      `exp` and `sqrt` from the C library; the Black-Scholes call and put
      values of a contract's terms at a spot; and the lattice value, at a
      spot and a depth, of a freshly built nested contract. Their types
      carry the one fact the model uses about each: the exponential is
      positive and option values are not negative. */
  datatype Externals = Externals(
    exp: real -> Positive,
    sqrt: real -> real,
    callFormula: (Terms, Spot) -> NonNegative,
    putFormula: (Terms, Spot) -> NonNegative,
    nestedTreeValue: (Contract, Spot, nat) -> NonNegative)
}
