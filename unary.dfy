/**
 * The rewrite rules of the unary nodes: one `normalize()` step of
 * RegExpOption, RegExpPlus, RegExpStar, RegExpPower and
 * RegExpPowerRange. Each function takes the node's raw argument (and
 * exponents) and returns the replacement the first matching rule
 * assigns to `_normalForm`, or None when no rule fires. Arguments are
 * never normalised first.
 */
module UnaryRules {
  import opened JavaInt
  import opened Wrappers
  import opened RegExps

  /** `X?` with X = x: rules [OP:E], [OP:O], [OP:P], [OP:S], [OP:R0], [OP:R1]. */
  function StepOption(x: RegExp): (r: Option<RegExp>)
    ensures r.None? <==> x.Symbol? || x.Power? || IsBinary(x) || (x.Range? && x.lower != 0 && x.lower != 1)
    ensures r.Some? ==> Size(r.value) <= Size(x)
  {
    match x
    case Empty => Some(Empty)
    case Optional(_) => Some(x)
    case Plus(y) => Some(Star(y))
    case Star(_) => Some(x)
    case Range(y, lo, hi) =>
      if lo == 0 then Some(x)
      else if lo == 1 then Some(Range(y, 0, hi))
      else None
    case _ => None
  }

  /** `X+` with X = x: rules [PL:E], [PL:O], [PL:P], [PL:S]. */
  function StepPlus(x: RegExp): (r: Option<RegExp>)
    ensures r.None? <==> x.Symbol? || x.Power? || x.Range? || IsBinary(x)
    ensures r.Some? ==> Size(r.value) <= Size(x)
  {
    match x
    case Empty => Some(Empty)
    case Optional(y) => Some(Star(y))
    case Plus(_) => Some(x)
    case Star(_) => Some(x)
    case _ => None
  }

  /** `X*` with X = x: rules [ST:E], [ST:O], [ST:P], [ST:S]. */
  function StepStar(x: RegExp): (r: Option<RegExp>)
    ensures r.None? <==> x.Symbol? || x.Power? || x.Range? || IsBinary(x)
    ensures r.Some? ==> Size(r.value) <= Size(x)
  {
    match x
    case Empty => Some(Empty)
    case Optional(y) => Some(Star(y))
    case Plus(y) => Some(Star(y))
    case Star(_) => Some(x)
    case _ => None
  }

  /**
   * `X^n` with X = x: rules [PW:E], [PW:0], [PW:1], then by the kind
   * of x [PW:O], [PW:P], [PW:S], [PW:N], [PW:R]; exponents combine
   * with the saturating `times`.
   */
  function StepPower(x: RegExp, n: int32): (r: Option<RegExp>)
    ensures r.None? <==> !x.Empty? && n >= 2 && (x.Symbol? || IsBinary(x))
    ensures r.Some? ==> Size(r.value) <= Size(x)
  {
    if x.Empty? then Some(Empty)
    else if n <= 0 then Some(Empty)
    else if n == 1 then Some(x)
    else match x
      case Optional(y) => Some(Range(y, 0, n))
      case Plus(y) => Some(Range(y, n, OMEGA))
      case Star(_) => Some(x)
      case Power(y, m) => Some(Power(y, BoundTimes(m, n)))
      case Range(y, lo, hi) => Some(Range(y, BoundTimes(lo, n), BoundTimes(hi, n)))
      case _ => None
  }

  /**
   * `X_lo^hi` with X = x: rules [PR:E], [PR:00], [PR:01], [PR:0_],
   * [PR:1_], [PR:__], [PR:-n], [PR:m-], [PR:mm], then by the kind of x
   * [PR:O], [PR:P], [PR:S]. The [PR:m-] branch (upper bound negative)
   * is dead: every such range is caught by an earlier rule, which the
   * `assert false` there proves.
   */
  function StepRange(x: RegExp, lo: int32, hi: int32): (r: Option<RegExp>)
    ensures r.None? <==>
      !x.Empty? && 0 <= lo < hi && !(lo == 0 && (hi == 1 || hi == OMEGA)) && !(lo == 1 && hi == OMEGA)
      && !(x.Optional? || x.Plus? || x.Star?)
    ensures r.Some? ==> Size(r.value) <= 1 + Size(x)
  {
    if x.Empty? then Some(Empty)
    else if lo == 0 && hi <= 0 then Some(Empty)
    else if lo == 0 && hi == 1 then Some(Optional(x))
    else if lo == 0 && hi == OMEGA then Some(Star(x))
    else if lo == 1 && hi == OMEGA then Some(Plus(x))
    else if lo > hi then Some(Empty)
    else if lo < 0 then Some(Range(x, 0, hi))
    else if hi < 0 then assert false; Some(Empty)
    else if lo == hi then Some(Power(x, lo))
    else match x
      case Optional(y) => Some(Range(y, 0, hi))
      case Plus(y) => Some(Range(y, lo, OMEGA))
      case Star(_) => Some(x)
      case _ => None
  }

  /** The Option rules, instantiated. */
  lemma OptionRules(x: RegExp, n: int32)
    ensures StepOption(Empty) == Some(Empty)
    ensures StepOption(Optional(x)) == Some(Optional(x))
    ensures StepOption(Plus(x)) == Some(Star(x))
    ensures StepOption(Star(x)) == Some(Star(x))
    ensures StepOption(Range(x, 0, n)) == Some(Range(x, 0, n))
    ensures StepOption(Range(x, 1, n)) == Some(Range(x, 0, n))
  {
  }

  /** The Plus and Star rules, instantiated. */
  lemma PlusStarRules(x: RegExp)
    ensures StepPlus(Empty) == Some(Empty) && StepStar(Empty) == Some(Empty)
    ensures StepPlus(Optional(x)) == Some(Star(x)) && StepStar(Optional(x)) == Some(Star(x))
    ensures StepPlus(Plus(x)) == Some(Plus(x)) && StepStar(Plus(x)) == Some(Star(x))
    ensures StepPlus(Star(x)) == Some(Star(x)) && StepStar(Star(x)) == Some(Star(x))
  {
  }

  /** The Power rules on an argument that is not EMPTY, for an exponent of at least 2. */
  lemma PowerRules(x: RegExp, n: int32, m: int32, lo: int32, hi: int32)
    requires !x.Empty? && n >= 2
    ensures StepPower(Empty, n) == Some(Empty) && StepPower(x, 0) == Some(Empty) && StepPower(x, 1) == Some(x)
    ensures StepPower(Optional(x), n) == Some(Range(x, 0, n))
    ensures StepPower(Plus(x), n) == Some(Range(x, n, OMEGA))
    ensures StepPower(Star(x), n) == Some(Star(x))
    ensures StepPower(Power(x, m), n) == Some(Power(x, BoundTimes(m, n)))
    ensures StepPower(Range(x, lo, hi), n) == Some(Range(x, BoundTimes(lo, n), BoundTimes(hi, n)))
  {
  }

  /** Raising an unbounded range to a positive power keeps it unbounded: `(X_m~)^n` is `X_(m*n)~`. */
  lemma {:induction false} PowerOfUnboundedRange(x: RegExp, lo: int32, n: int32)
    requires n >= 2
    ensures StepPower(Range(x, lo, OMEGA), n).Some?
    ensures StepPower(Range(x, lo, OMEGA), n).value.upper == OMEGA
  {
    BoundTimesPositive(OMEGA, n);
  }

  /** The PowerRange rules with the bounds the source tests. */
  lemma RangeRules(x: RegExp, lo: int32, hi: int32)
    requires !x.Empty?
    ensures StepRange(Empty, lo, hi) == Some(Empty)
    ensures hi <= 0 ==> StepRange(x, 0, hi) == Some(Empty)
    ensures StepRange(x, 0, 1) == Some(Optional(x))
    ensures StepRange(x, 0, OMEGA) == Some(Star(x))
    ensures StepRange(x, 1, OMEGA) == Some(Plus(x))
    ensures lo != 0 && !(lo == 1 && hi == OMEGA) && lo > hi ==> StepRange(x, lo, hi) == Some(Empty)
    ensures lo < 0 <= hi ==> StepRange(x, lo, hi) == Some(Range(x, 0, hi))
    ensures 1 < lo < OMEGA ==> StepRange(x, lo, lo) == Some(Power(x, lo))
  {
  }

  /** On a range with proper bounds (0 <= lo < hi, not 0..1, 0..OMEGA or 1..OMEGA) the kind of X decides. */
  lemma RangeOverUnaryRules(x: RegExp, lo: int32, hi: int32)
    requires 0 <= lo < hi && !(lo == 0 && (hi == 1 || hi == OMEGA)) && !(lo == 1 && hi == OMEGA)
    ensures StepRange(Optional(x), lo, hi) == Some(Range(x, 0, hi))
    ensures StepRange(Plus(x), lo, hi) == Some(Range(x, lo, OMEGA))
    ensures StepRange(Star(x), lo, hi) == Some(Star(x))
  {
  }
}
