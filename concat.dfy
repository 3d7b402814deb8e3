/**
 * The rewrite rules of RegExpConcat.normalize(): the EMPTY rules,
 * associativity, distribution over Choice, then the flat matching-pair
 * rules on (left, right) and the nested ones on (left, right.left) when
 * right is itself a Concat. Bounds combine with the saturating `plus`.
 */
module ConcatRules {
  import opened JavaInt
  import opened Wrappers
  import opened RegExps
  import opened Matching

  /**
   * The flat rules [CO:XX1] ... [CO:RR1]: the replacement of l.r for
   * the code of (l, r). OO, PP and SS are listed as in the source,
   * although DiagonalNeverReturned shows they are never selected.
   */
  function FlatRule(l: RegExp, r: RegExp, code: PairCode): (e: RegExp)
    requires code == MatchingPairCode(l, r) && code.Match?
    ensures code.row == X && code.col == X ==> e == Power(l, 2)
    ensures code.row != X && code.col == X ==> e.Range? || e.Plus? || e.Power?
  {
    match code
    case Match(X, X) => Power(l, 2)
    case Match(X, O) => Range(l, 1, 2)
    case Match(X, P) => Range(l, 2, OMEGA)
    case Match(X, S) => Plus(l)
    case Match(X, N) => Power(l, BoundPlus(r.power, 1))
    case Match(X, R) => Range(l, BoundPlus(r.lower, 1), BoundPlus(r.upper, 1))
    case Match(O, X) => Range(r, 1, 2)
    case Match(O, O) => Range(l.arg, 0, 2)
    case Match(O, P) => r
    case Match(O, S) => r
    case Match(O, N) => Range(l.arg, r.power, BoundPlus(r.power, 1))
    case Match(O, R) => Range(l.arg, r.lower, BoundPlus(r.upper, 1))
    case Match(P, X) => Range(r, 2, OMEGA)
    case Match(P, O) => l
    case Match(P, P) => Range(l.arg, 2, OMEGA)
    case Match(P, S) => l
    case Match(P, N) => Range(l.arg, BoundPlus(r.power, 1), OMEGA)
    case Match(P, R) => Range(l.arg, BoundPlus(r.lower, 1), OMEGA)
    case Match(S, X) => Plus(r)
    case Match(S, O) => l
    case Match(S, P) => r
    case Match(S, S) => l
    case Match(S, N) => Range(l.arg, r.power, OMEGA)
    case Match(S, R) => Range(l.arg, r.lower, OMEGA)
    case Match(N, X) => Power(r, BoundPlus(l.power, 1))
    case Match(N, O) => Range(l.arg, l.power, BoundPlus(l.power, 1))
    case Match(N, P) => Range(l.arg, BoundPlus(l.power, 1), OMEGA)
    case Match(N, S) => Range(l.arg, l.power, OMEGA)
    case Match(N, N) => Power(l.arg, BoundPlus(l.power, r.power))
    case Match(N, R) => Range(l.arg, BoundPlus(l.power, r.lower), BoundPlus(l.power, r.upper))
    case Match(R, X) => Range(r, BoundPlus(l.lower, 1), BoundPlus(l.upper, 1))
    case Match(R, O) => Range(l.arg, l.lower, BoundPlus(l.upper, 1))
    case Match(R, P) => Range(l.arg, BoundPlus(l.lower, 1), OMEGA)
    case Match(R, S) => Range(l.arg, l.lower, OMEGA)
    case Match(R, N) => Range(l.arg, BoundPlus(l.lower, r.power), BoundPlus(l.upper, r.power))
    case Match(R, R) => Range(l.arg, BoundPlus(l.lower, r.lower), BoundPlus(l.upper, r.upper))
  }

  /**
   * The nested rules [CO:XX2] ... [CO:RR2] on l.(a.y): the replacement
   * for the code of (l, a), written out case by case as in the source.
   */
  function NestedRule(l: RegExp, r: RegExp, code: PairCode): (e: RegExp)
    requires r.Concat? && code == MatchingPairCode(l, r.left) && code.Match?
    ensures e.Concat?
  {
    var a := r.left;
    var y := r.right;
    match code
    case Match(X, X) => Concat(Power(l, 2), y)
    case Match(X, O) => Concat(Range(l, 1, 2), y)
    case Match(X, P) => Concat(Range(l, 2, OMEGA), y)
    case Match(X, S) => Concat(Plus(l), y)
    case Match(X, N) => Concat(Power(l, BoundPlus(a.power, 1)), y)
    case Match(X, R) => Concat(Range(l, BoundPlus(a.lower, 1), BoundPlus(a.upper, 1)), y)
    case Match(O, X) => Concat(Range(a, 1, 2), y)
    case Match(O, O) => Concat(Range(l.arg, 0, 2), y)
    case Match(O, P) => r
    case Match(O, S) => r
    case Match(O, N) => Concat(Range(l.arg, a.power, BoundPlus(a.power, 1)), y)
    case Match(O, R) => Concat(Range(l.arg, a.lower, BoundPlus(a.upper, 1)), y)
    case Match(P, X) => Concat(Range(a, 2, OMEGA), y)
    case Match(P, O) => Concat(l, y)
    case Match(P, P) => Concat(Range(l.arg, 2, OMEGA), y)
    case Match(P, S) => Concat(Plus(l.arg), y)
    case Match(P, N) => Concat(Range(l.arg, BoundPlus(a.power, 1), OMEGA), y)
    case Match(P, R) => Concat(Range(l.arg, BoundPlus(a.lower, 1), OMEGA), y)
    case Match(S, X) => Concat(Plus(a), y)
    case Match(S, O) => Concat(l, y)
    case Match(S, P) => r
    case Match(S, S) => r
    case Match(S, N) => Concat(Range(l.arg, a.power, OMEGA), y)
    case Match(S, R) => Concat(Range(l.arg, a.lower, OMEGA), y)
    case Match(N, X) => Concat(Power(a, BoundPlus(l.power, 1)), y)
    case Match(N, O) => Concat(Range(l.arg, l.power, BoundPlus(l.power, 1)), y)
    case Match(N, P) => Concat(Range(l.arg, BoundPlus(l.power, 1), OMEGA), y)
    case Match(N, S) => Concat(Range(l.arg, l.power, OMEGA), y)
    case Match(N, N) => Concat(Power(l.arg, BoundPlus(l.power, a.power)), y)
    case Match(N, R) => Concat(Range(l.arg, BoundPlus(l.power, a.lower), BoundPlus(l.power, a.upper)), y)
    case Match(R, X) => Concat(Range(a, BoundPlus(l.lower, 1), BoundPlus(l.upper, 1)), y)
    case Match(R, O) => Concat(Range(l.arg, l.lower, BoundPlus(l.upper, 1)), y)
    case Match(R, P) => Concat(Range(l.arg, BoundPlus(l.lower, 1), OMEGA), y)
    case Match(R, S) => Concat(Range(l.arg, l.lower, OMEGA), y)
    case Match(R, N) => Concat(Range(l.arg, BoundPlus(l.lower, a.power), BoundPlus(l.upper, a.power)), y)
    case Match(R, R) => Concat(Range(l.arg, BoundPlus(l.lower, a.lower), BoundPlus(l.upper, a.upper)), y)
  }

  /** Every nested rule rewrites l.(a.y) to (what the flat rule makes of l.a).y. */
  lemma NestedIsFlatThenConcat(l: RegExp, r: RegExp)
    requires r.Concat? && MatchingPairCode(l, r.left).Match?
    ensures NestedRule(l, r, MatchingPairCode(l, r.left))
         == Concat(FlatRule(l, r.left, MatchingPairCode(l, r.left)), r.right)
  {
  }

  /** One step of `normalize()` on the Concat l.r, in the source's rule order. */
  function StepConcat(l: RegExp, r: RegExp): (res: Option<RegExp>)
    ensures res.None? <==>
      !l.Empty? && !r.Empty? && !IsBinary(l) && !r.Choice? && !Related(l, r)
      && !(r.Concat? && Related(l, r.left))
  {
    if l.Empty? then Some(r)
    else if r.Empty? then Some(l)
    else if l.Concat? then Some(Concat(l.left, Concat(l.right, r)))
    else if l.Choice? then Some(Choice(Concat(l.left, r), Concat(l.right, r)))
    else if r.Choice? then Some(Choice(Concat(l, r.left), Concat(l, r.right)))
    else
      var flat := MatchingPairCode(l, r);
      if flat.Match? then Some(FlatRule(l, r, flat))
      else
        var nested := MatchingArgsCode(Concat(l, r));
        if nested.Match? then Some(NestedRule(l, r, nested)) else None
  }

  /** The structural Concat rules, in order: EMPTY first, then associativity, then distribution (left before right). */
  lemma ConcatStructuralRules(x: RegExp, y: RegExp, z: RegExp)
    ensures StepConcat(Empty, x) == Some(x)
    ensures !x.Empty? ==> StepConcat(x, Empty) == Some(x)
    ensures !z.Empty? ==> StepConcat(Concat(x, y), z) == Some(Concat(x, Concat(y, z)))
    ensures !z.Empty? ==> StepConcat(Choice(x, y), z) == Some(Choice(Concat(x, z), Concat(y, z)))
    ensures !x.Empty? && !IsBinary(x) ==> StepConcat(x, Choice(y, z)) == Some(Choice(Concat(x, y), Concat(x, z)))
  {
  }

  /** Some flat rules, for any X that is neither EMPTY nor binary. */
  lemma ConcatFlatRules(x: RegExp, q: int32)
    requires !x.Empty? && !IsBinary(x)
    ensures StepConcat(x, x) == Some(Power(x, 2))
    ensures StepConcat(x, Star(x)) == Some(Plus(x))
    ensures StepConcat(Star(x), x) == Some(Plus(x))
    ensures StepConcat(x, Plus(x)) == Some(Range(x, 2, OMEGA))
    ensures StepConcat(Optional(x), Plus(x)) == Some(Plus(x))
    ensures StepConcat(x, Power(x, q)) == Some(Power(x, BoundPlus(q, 1)))
  {
    EqualsReflexive(x);
    forall a: RegExp, b: RegExp | Equals(a, b)
      ensures Size(a) == Size(b)
    {
      EqualsSameSize(a, b);
    }
  }
}
