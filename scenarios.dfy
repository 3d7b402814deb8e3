/**
 * Whole normalisations: the normal form that the `checkNormalForm` chain
 * reaches for a few characteristic terms, and the Concat-identity and
 * Choice-idempotence laws for every term.
 */
module Scenarios {
  import opened Wrappers
  import opened RegExps
  import opened Printing
  import opened Normalizer

  const a: RegExp := Symbol(Payload(0, "a"))
  const b: RegExp := Symbol(Payload(1, "b"))
  const c: RegExp := Symbol(Payload(2, "c"))

  /** `a.a` normalises to `a^2`. */
  lemma PowerFolding()
    ensures NormalForm(Concat(a, a), 1) == Some(Power(a, 2))
    ensures ToString(Power(a, 2)) == "a^2"
  {
    assert Step(Power(a, 2)).None?;
    assert IntToString(2) == "2";
  }

  /** `b*.b+` normalises to `b+`. */
  lemma StarPlusCollapse()
    ensures NormalForm(Concat(Star(b), Plus(b)), 1) == Some(Plus(b))
    ensures ToString(Plus(b)) == "b+"
  {
    assert Step(Plus(b)).None?;
  }

  /** `b|a` normalises to `a|b`, and `a|b` is left as it is. */
  lemma ChoiceOrdering()
    ensures NormalForm(Choice(b, a), 1) == Some(Choice(a, b))
    ensures NormalForm(Choice(a, b), 0) == Some(Choice(a, b))
    ensures ToString(Choice(a, b)) == "a | b"
  {
    assert LexLess("a", "b");
    assert !LexLess("b", "a") by { LexLessAsymmetric("a", "b"); }
    assert Step(Choice(a, b)).None?;
  }

  /** `(a|b).c` normalises to `a.c|b.c`. */
  lemma Distributivity()
    ensures NormalForm(Concat(Choice(a, b), c), 1) == Some(Choice(Concat(a, c), Concat(b, c)))
    ensures ToString(Choice(Concat(a, c), Concat(b, c))) == "a.c | b.c"
  {
    assert Step(Choice(Concat(a, c), Concat(b, c))).None?;
  }

  /** `a^2|a_3^5` normalises to `a_2^5`: adjacent bounds 2 and 3..5 merge. */
  lemma AdjacentPowerRangeMerge()
    ensures NormalForm(Choice(Power(a, 2), Range(a, 3, 5)), 1) == Some(Range(a, 2, 5))
    ensures ToString(Range(a, 2, 5)) == "a_2^5"
  {
    assert Step(Range(a, 2, 5)).None?;
    assert IntToString(2) == "2" && IntToString(5) == "5";
  }

  /** `().X` and `X.()` have the normal form of X, whatever X is. */
  lemma {:induction false} ConcatIdentity(x: RegExp, f: nat)
    requires NormalForm(x, f).Some?
    ensures NormalForm(Concat(Empty, x), f + 1) == NormalForm(x, f)
    ensures NormalForm(Concat(x, Empty), f + 1) == NormalForm(x, f)
  {
    assert Step(Concat(Empty, x)) == Some(x);
    ChainStep(Step, Concat(Empty, x), x, f);
    assert Step(Concat(x, Empty)) == Some(x);
    ChainStep(Step, Concat(x, Empty), x, f);
  }

  /** `X|X` has the normal form of X, whatever X is. */
  lemma {:induction false} ChoiceIdempotent(x: RegExp, f: nat)
    requires NormalForm(x, f).Some?
    ensures NormalForm(Choice(x, x), f + 2) == NormalForm(x, f)
  {
    if x.Empty? {
      assert Step(Choice(x, x)) == Some(Optional(Empty));
      assert Step(Optional(Empty)) == Some(Empty);
      ChainStep(Step, Choice(x, x), Optional(Empty), f + 1);
      ChainStep(Step, Optional(Empty), Empty, f);
    } else {
      EqualsReflexive(x);
      assert Step(Choice(x, x)) == Some(x);
      ChainStep(Step, Choice(x, x), x, f + 1);
      NormalFormMonotone(x, f, f + 1);
    }
  }
}
