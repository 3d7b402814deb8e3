/**
 * The rewrite rules of RegExpChoice.normalize(), in the source's order:
 * EMPTY rules, idempotence, option lifting, associativity, the symbol
 * swaps, absorption of X by X.Y* / Y*.X / X.Y+ / Y+.X, then the power
 * and range merges and swaps. The `+ 1` in [CH:NN_1], [CH:NR_1] and
 * [CH:RN_1] is Java's wrapping int addition, not the saturating `plus`.
 */
module ChoiceRules {
  import opened JavaInt
  import opened Wrappers
  import opened RegExps
  import opened Printing

  function Min(a: int32, b: int32): int32 { if a <= b then a else b }
  function Max(a: int32, b: int32): int32 { if a >= b then a else b }

  /** The rules tried when the left operand is a Power: [CH:NX%1] ... [CH:NR]. */
  function PowerLeftRules(l: RegExp, r: RegExp): (res: Option<RegExp>)
    requires l.Power?
    ensures res.Some? && Equals(l.arg, r) ==> res.value == Choice(r, l)
    ensures res.Some? && res.value.Range? ==> IsUnary(r) && Equals(l.arg, r.arg)
  {
    if Equals(l.arg, r) then Some(Choice(r, l))
    else if r.Power? && Equals(l.arg, r.arg) && Add(l.power, 1) == r.power then
      Some(Range(l.arg, l.power, r.power))
    else if r.Power? && Equals(l.arg, r.arg) && r.power < l.power then Some(Choice(r, l))
    else if r.Power? && l.arg.Symbol? && r.arg.Symbol? && IsLexLess(r.arg, l.arg) then Some(Choice(r, l))
    else if r.Choice? && r.left.Power? && Equals(l.arg, r.left.arg) && r.left.power < l.power then
      Some(Choice(r.left, Choice(l, r.right)))
    else if r.Choice? && r.left.Power? && l.arg.Symbol? && r.left.arg.Symbol? && IsLexLess(r.left.arg, l.arg) then
      Some(Choice(r.left, Choice(l, r.right)))
    else if r.Range? && Equals(l.arg, r.arg) && r.lower <= l.power <= r.upper then Some(r)
    else if r.Range? && Equals(l.arg, r.arg) && Add(l.power, 1) == r.lower then
      Some(Range(l.arg, l.power, r.upper))
    else if r.Range? && Equals(l.arg, r.arg) && r.lower <= l.power then Some(Choice(r, l))
    else None
  }

  /** The rules tried when the left operand is a PowerRange: [CH:RX] ... [CH:RR12]. */
  function RangeLeftRules(l: RegExp, r: RegExp): (res: Option<RegExp>)
    requires l.Range?
    ensures res.Some? && Equals(l.arg, r) ==> res.value == Choice(r, l)
    ensures res.Some? && res.value.Range? ==> IsUnary(r) && Equals(l.arg, r.arg)
  {
    if Equals(l.arg, r) then Some(Choice(r, l))
    else if r.Power? && Equals(l.arg, r.arg) && Add(l.upper, 1) == r.power then
      Some(Range(l.arg, l.lower, r.power))
    else if r.Power? && Equals(l.arg, r.arg) && r.power <= l.upper then Some(Choice(r, l))
    else if r.Choice? && r.left.Range? && r.left.lower < l.lower && Equals(l.arg, r.left.arg) then
      Some(Choice(r.left, Choice(l, r.right)))
    else if r.Choice? && r.left.Range? && l.arg.Symbol? && r.left.arg.Symbol? && IsLexLess(r.left.arg, l.arg) then
      Some(Choice(r.left, Choice(l, r.right)))
    else if r.Range? && Equals(l.arg, r.arg) && r.lower < l.lower then Some(Choice(r, l))
    else if r.Range? && Equals(l.arg, r.arg) && (l.upper == OMEGA || r.lower <= Add(l.upper, 1)) then
      Some(Range(l.arg, Min(l.lower, r.lower), Max(l.upper, r.upper)))
    else None
  }

  /**
   * One step of `normalize()` on the Choice l | r. The second [CH:XX1]
   * test (`left.equals(right)` after `right.equals(left)` failed) is
   * dead because `equals` is symmetric; the `assert false` there proves it.
   */
  function StepChoice(l: RegExp, r: RegExp): (res: Option<RegExp>)
    ensures res.None? ==> !l.Empty? && !r.Empty? && !Equals(l, r) && !Equals(r, l)
    ensures res.None? ==> !l.Optional? && !r.Optional? && !l.Choice?
    ensures res.None? && l.Symbol? && r.Symbol? ==> !IsLexLess(r, l)
  {
    if l.Empty? then Some(Optional(r))
    else if r.Empty? then Some(Optional(l))
    else if Equals(r, l) then Some(l)
    else if l.Optional? then Some(Optional(Choice(l.arg, r)))
    else if r.Optional? then Some(Optional(Choice(l, r.arg)))
    else if l.Choice? then Some(Choice(l.left, Choice(l.right, r)))
    else if l.Symbol? && r.Symbol? && IsLexLess(r, l) then Some(Choice(r, l))
    else if l.Symbol? && r.Choice? && r.left.Symbol? && IsLexLess(r.left, l) then
      Some(Choice(r.left, Choice(l, r.right)))
    else if Equals(l, r) then
      EqualsSymmetric(l, r); assert false; Some(l)
    else if r.Choice? && Equals(l, r.left) then Some(r)
    else if l.Concat? && l.right.Star? && Equals(l.left, r) then Some(l)
    else if l.Concat? && l.left.Star? && Equals(l.right, r) then Some(l)
    else if l.Concat? && l.right.Plus? && Equals(l.left, r) then Some(Concat(r, Star(l.right.arg)))
    else if l.Concat? && l.left.Plus? && Equals(l.right, r) then Some(Concat(Star(l.left.arg), r))
    else if r.Concat? && r.right.Star? && Equals(r.left, l) then Some(r)
    else if r.Concat? && r.left.Star? && Equals(r.right, l) then Some(r)
    else if r.Concat? && r.right.Plus? && Equals(r.left, l) then Some(Concat(l, Star(r.right.arg)))
    else if r.Concat? && r.left.Plus? && Equals(r.right, l) then Some(Concat(Star(r.left.arg), l))
    else if r.Power? && r.power == 2 && Equals(l, r.arg) then Some(Range(l, 1, 2))
    else if r.Range? && 0 <= r.lower <= 2 && Equals(l, r.arg) then
      if r.lower == 0 || r.lower == 1 then Some(r) else Some(Range(l, 1, r.upper))
    else if l.Power? then PowerLeftRules(l, r)
    else if l.Range? then RangeLeftRules(l, r)
    else None
  }

  /** The EMPTY, idempotence, lifting and associativity rules, instantiated. */
  lemma ChoiceStructuralRules(x: RegExp, y: RegExp, z: RegExp)
    ensures StepChoice(Empty, x) == Some(Optional(x))
    ensures !x.Empty? ==> StepChoice(x, Empty) == Some(Optional(x))
    ensures !x.Empty? ==> StepChoice(x, x) == Some(x)
    ensures !x.Empty? && !y.Empty? && !Equals(y, Optional(x)) ==> StepChoice(Optional(x), y) == Some(Optional(Choice(x, y)))
    ensures !Equals(z, Choice(x, y)) && !z.Empty? && !z.Optional? ==> StepChoice(Choice(x, y), z) == Some(Choice(x, Choice(y, z)))
  {
    EqualsReflexive(x);
  }

  /** `b | a` becomes `a | b` when a prints before b; a pair already in order is left alone. */
  lemma {:induction false} SymbolSwap(a: RegExp, b: RegExp)
    requires a.Symbol? && b.Symbol? && IsLexLess(a, b)
    ensures StepChoice(b, a) == Some(Choice(a, b))
    ensures StepChoice(a, b) == None
  {
    SymbolOrder(a, b);
    assert !Equals(a, b) && !Equals(b, a) by {
      assert Name(a) != Name(b) by {
        LexLessIrreflexive(Name(a));
      }
    }
  }

  /** `X^n | X^m` with m < n swaps to `X^m | X^n` (unless n = m + 1, which merges); the ordered pair is left alone. */
  lemma {:induction false} PowerOrder(x: RegExp, m: int32, n: int32)
    requires 0 <= m && m + 1 < n
    ensures StepChoice(Power(x, n), Power(x, m)) == Some(Choice(Power(x, m), Power(x, n)))
    ensures StepChoice(Power(x, m), Power(x, n)) == None
  {
    EqualsReflexive(x);
    if x.Symbol? {
      SymbolOrder(x, x);
    }
    forall a: RegExp, b: RegExp | Equals(a, b)
      ensures Size(a) == Size(b)
    {
      EqualsSameSize(a, b);
    }
  }

  /** Merges of powers and ranges of one X: `X|X^2`, `X^n|X^n+1`, `X^n|X_n+1^q` (so `a^2|a_3^5` gives `a_2^5`) and overlapping ranges. */
  lemma {:induction false} PowerRangeMerges(x: RegExp, n: int32, q: int32, m: int32, k: int32, p: int32)
    requires !x.Empty? && !x.Optional? && !IsBinary(x)
    requires 0 <= n < q < OMEGA
    requires 0 <= m <= p && p <= k + 1 && k < OMEGA && m < k
    ensures StepChoice(x, Power(x, 2)) == Some(Range(x, 1, 2))
    ensures StepChoice(Power(x, n), Power(x, n + 1)) == Some(Range(x, n, n + 1))
    ensures StepChoice(Power(x, n), Range(x, n + 1, q)) == Some(Range(x, n, q))
    ensures StepChoice(Range(x, m, k), Range(x, p, q)) == Some(Range(x, m, Max(k, q)))
  {
    EqualsReflexive(x);
    forall a: RegExp, b: RegExp | Equals(a, b)
      ensures Size(a) == Size(b)
    {
      EqualsSameSize(a, b);
    }
    if x.Symbol? {
      SymbolOrder(x, x);
    }
  }

  /** Equal terms have equal sizes, so a term never equals a strictly larger one. */
  lemma EqualsSizes()
    ensures forall a: RegExp, b: RegExp | Equals(a, b) :: Size(a) == Size(b)
  {
    forall a: RegExp, b: RegExp | Equals(a, b)
      ensures Size(a) == Size(b)
    {
      EqualsSameSize(a, b);
    }
  }

  /** `X.Y* | X` and `X | X.Y*` give `X.Y*`. */
  lemma AbsorbTrailingStar(x: RegExp, y: RegExp)
    requires !x.Empty? && !x.Optional? && !x.Choice?
    ensures StepChoice(Concat(x, Star(y)), x) == Some(Concat(x, Star(y)))
    ensures StepChoice(x, Concat(x, Star(y))) == Some(Concat(x, Star(y)))
  {
    EqualsReflexive(x);
    EqualsSizes();
  }

  /** `Y*.X | X` and `X | Y*.X` give `Y*.X`. */
  lemma AbsorbLeadingStar(x: RegExp, y: RegExp)
    requires !x.Empty? && !x.Optional? && !x.Choice?
    ensures StepChoice(Concat(Star(y), x), x) == Some(Concat(Star(y), x))
    ensures StepChoice(x, Concat(Star(y), x)) == Some(Concat(Star(y), x))
  {
    EqualsReflexive(x);
    EqualsSizes();
  }

  /** `X.Y+ | X` and `X | X.Y+` give `X.Y*`. */
  lemma AbsorbTrailingPlus(x: RegExp, y: RegExp)
    requires !x.Empty? && !x.Optional? && !x.Choice?
    ensures StepChoice(Concat(x, Plus(y)), x) == Some(Concat(x, Star(y)))
    ensures StepChoice(x, Concat(x, Plus(y))) == Some(Concat(x, Star(y)))
  {
    EqualsReflexive(x);
    EqualsSizes();
  }

  /** `Y+.X | X` and `X | Y+.X` give `Y*.X`, unless `Y+.X`'s own first rule fires. */
  lemma AbsorbLeadingPlus(x: RegExp, y: RegExp)
    requires !x.Empty? && !x.Optional? && !x.Choice?
    ensures !Equals(Plus(y), x) ==> StepChoice(Concat(Plus(y), x), x) == Some(Concat(Star(y), x))
    ensures !Equals(Plus(y), x) ==> StepChoice(x, Concat(Plus(y), x)) == Some(Concat(Star(y), x))
  {
    EqualsReflexive(x);
    EqualsSizes();
  }

  /** Absorption: `X.Y* | X` and `X | X.Y*` give `X.Y*`, `X.Y+ | X` and `X | X.Y+` give `X.Y*`, and the mirrors with Y* or Y+ on the left. */
  lemma {:induction false} Absorption(x: RegExp, y: RegExp)
    requires !x.Empty? && !x.Optional? && !x.Choice?
    ensures StepChoice(Concat(x, Star(y)), x) == Some(Concat(x, Star(y)))
    ensures StepChoice(Concat(Star(y), x), x) == Some(Concat(Star(y), x))
    ensures StepChoice(Concat(x, Plus(y)), x) == Some(Concat(x, Star(y)))
    ensures !Equals(Plus(y), x) ==> StepChoice(Concat(Plus(y), x), x) == Some(Concat(Star(y), x))
    ensures StepChoice(x, Concat(x, Star(y))) == Some(Concat(x, Star(y)))
    ensures StepChoice(x, Concat(Star(y), x)) == Some(Concat(Star(y), x))
    ensures StepChoice(x, Concat(x, Plus(y))) == Some(Concat(x, Star(y)))
    ensures !Equals(Plus(y), x) ==> StepChoice(x, Concat(Plus(y), x)) == Some(Concat(Star(y), x))
  {
    AbsorbTrailingStar(x, y);
    AbsorbLeadingStar(x, y);
    AbsorbTrailingPlus(x, y);
    AbsorbLeadingPlus(x, y);
  }

  /** `X | X_0^q` and `X | X_1^q` keep the range, `X | X_2^q` gives `X_1^q`. */
  lemma {:induction false} RangeAbsorbs(x: RegExp, q: int32)
    requires !x.Empty? && !x.Optional? && !x.Choice?
    ensures StepChoice(x, Range(x, 0, q)) == Some(Range(x, 0, q))
    ensures StepChoice(x, Range(x, 1, q)) == Some(Range(x, 1, q))
    ensures StepChoice(x, Range(x, 2, q)) == Some(Range(x, 1, q))
  {
    EqualsReflexive(x);
    forall a: RegExp, b: RegExp | Equals(a, b)
      ensures Size(a) == Size(b)
    {
      EqualsSameSize(a, b);
    }
  }

  /**
   * The unchecked `+ 1` wraps: `a_0~ | a^MIN_VALUE` is merged by
   * [CH:RN_1] into `a_0^MIN_VALUE`, a range with a negative upper
   * bound, which [PR:00] then turns into `()`.
   */
  lemma RangePowerMergeWraps(a: RegExp)
    requires a.Symbol?
    ensures StepChoice(Range(a, 0, OMEGA), Power(a, MIN_INT)) == Some(Range(a, 0, MIN_INT as int32))
  {
    EqualsReflexive(a);
  }
}
