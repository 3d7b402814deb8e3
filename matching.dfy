/**
 * The matching-pair classification of RegExpTwo: a pair (l, r) drawn
 * from {X, X?, X+, X*, X^n, X_m^n} is given the code of its row (the
 * form of l) and column (the form of r); the Choice and Concat rules
 * dispatch on it.
 */
module Matching {
  import opened RegExps

  /** The six forms of a matching pair: X itself, X?, X+, X*, X^n and X_m^n. */
  datatype Letter = X | O | P | S | N | R

  /** A code of `matchingPairCode`: 0 (no match) or one of the 36 table entries. */
  datatype PairCode = NoMatch | Match(row: Letter, col: Letter)

  /** The letter of a term's form; any non-unary term is an X. */
  function LetterOf(e: RegExp): (c: Letter)
    ensures c == X <==> !IsUnary(e)
  {
    match e
    case Optional(_) => O
    case Plus(_) => P
    case Star(_) => S
    case Power(_, _) => N
    case Range(_, _, _) => R
    case _ => X
  }

  function LetterIndex(c: Letter): (i: nat)
    ensures i < 6
  {
    match c
    case X => 0
    case O => 1
    case P => 2
    case S => 3
    case N => 4
    case R => 5
  }

  /** The byte constant of a code: XX = 1, XO = 2, ..., RR = 36, and 0 for no match. */
  function CodeNumber(c: PairCode): (n: int)
    ensures c.NoMatch? <==> n == 0
    ensures 0 <= n <= 36
  {
    if c.NoMatch? then 0 else 6 * LetterIndex(c.row) + LetterIndex(c.col) + 1
  }

  /** Distinct codes have distinct byte constants, with the values of the source's table. */
  lemma CodeNumberInjective(a: PairCode, b: PairCode)
    ensures CodeNumber(a) == CodeNumber(b) ==> a == b
    ensures CodeNumber(Match(X, X)) == 1 && CodeNumber(Match(X, R)) == 6
    ensures CodeNumber(Match(O, X)) == 7 && CodeNumber(Match(S, X)) == 19
    ensures CodeNumber(Match(N, N)) == 29 && CodeNumber(Match(R, R)) == 36
  {
  }

  /**
   * `matchingPair`: equal terms, or unary terms whose arguments are
   * equal when both are unary, or whose argument equals the other term
   * when only one is. It is private and never called in the source.
   */
  predicate MatchingPair(l: RegExp, r: RegExp) {
    if Equals(l, r) then true
    else if IsUnary(l) then (if IsUnary(r) then Equals(l.arg, r.arg) else Equals(l.arg, r))
    else IsUnary(r) && Equals(l, r.arg)
  }

  /** Some relation among {X, X?, X+, X*, X^n, X_m^n} holds between l and r. */
  predicate Related(l: RegExp, r: RegExp) {
    Equals(l, r)
    || (IsUnary(l) && IsUnary(r) && Equals(l.arg, r.arg))
    || (IsUnary(l) && Equals(l.arg, r))
    || (IsUnary(r) && Equals(l, r.arg))
  }

  /** The static `matchingPairCode(l, r)`, with its tests in the source's order. */
  function MatchingPairCode(l: RegExp, r: RegExp): (c: PairCode)
    ensures c == Match(X, X) <==> Equals(l, r)
    ensures c.NoMatch? <==> !Related(l, r)
    ensures c.Match? && c.row != X ==> IsUnary(l) && c.row == LetterOf(l)
    ensures c.Match? && c.col != X ==> IsUnary(r) && c.col == LetterOf(r)
    ensures c.Match? && c.row != X && c.col != X ==> Equals(l.arg, r.arg)
    ensures c.Match? && c.row != X && c.col == X ==> Equals(l.arg, r)
    ensures c.Match? && c.row == X && c.col != X ==> Equals(l, r.arg)
  {
    if Equals(l, r) then Match(X, X)
    else if IsUnary(l) && IsUnary(r) && Equals(l.arg, r.arg) then Match(LetterOf(l), LetterOf(r))
    else if IsUnary(l) && Equals(l.arg, r) then Match(LetterOf(l), X)
    else if IsUnary(r) && Equals(l, r.arg) then Match(X, LetterOf(r))
    else NoMatch
  }

  /** Every `matchingPair` gets a non-zero code. */
  lemma MatchingPairHasCode(l: RegExp, r: RegExp)
    requires MatchingPair(l, r)
    ensures MatchingPairCode(l, r).Match?
  {
  }

  /**
   * The converse fails: `X** . X*` gets code SX because the argument of
   * the left term equals the right term, yet `matchingPair` is false
   * since both terms are unary and their arguments differ.
   */
  lemma CodeWithoutMatchingPair(p: Payload)
    ensures var a := Symbol(p);
      MatchingPairCode(Star(Star(a)), Star(a)) == Match(S, X) && !MatchingPair(Star(Star(a)), Star(a))
  {
    var a := Symbol(p);
    EqualsReflexive(Star(a));
    assert !Equals(Star(a), a);
    assert !Equals(Star(Star(a)), Star(a));
    assert MatchingPairCode(Star(Star(a)), Star(a)) == Match(S, X);
  }

  function Transpose(c: PairCode): PairCode {
    if c.NoMatch? then NoMatch else Match(c.col, c.row)
  }

  /** The code table is symmetric: swapping the pair transposes its code (OX for (X?, X) is XO for (X, X?)). */
  lemma MatchingPairCodeTransposes(l: RegExp, r: RegExp)
    ensures MatchingPairCode(r, l) == Transpose(MatchingPairCode(l, r))
  {
    EqualsSymmetric(l, r);
    if IsUnary(l) && IsUnary(r) {
      EqualsSymmetric(l.arg, r.arg);
    }
    if IsUnary(l) {
      EqualsSymmetric(l.arg, r);
    }
    if IsUnary(r) {
      EqualsSymmetric(l, r.arg);
    }
    if IsUnary(l) && IsUnary(r) && Equals(l.arg, r) && Equals(r.arg, l) {
      EqualsSameSize(l.arg, r);
      EqualsSameSize(r.arg, l);
      assert false;
    }
  }

  /** OO, PP and SS are never returned: same-kind Option, Plus or Star terms with equal arguments are equal. */
  lemma DiagonalNeverReturned(l: RegExp, r: RegExp)
    ensures MatchingPairCode(l, r) != Match(O, O)
    ensures MatchingPairCode(l, r) != Match(P, P)
    ensures MatchingPairCode(l, r) != Match(S, S)
  {
  }

  /** NN and RR are returned, for powers or ranges of one term with different exponents. */
  lemma PowerDiagonalsReached(x: RegExp)
    ensures MatchingPairCode(Power(x, 2), Power(x, 3)) == Match(N, N)
    ensures MatchingPairCode(Range(x, 0, 2), Range(x, 1, 3)) == Match(R, R)
  {
    EqualsReflexive(x);
  }

  /**
   * `matchingArgsCode` of a binary node e: the code of (e.left,
   * e.right.left) when e.right has e's operator, no match otherwise
   * (the source's -1, which no rule's switch selects, like 0).
   */
  function MatchingArgsCode(e: RegExp): (c: PairCode)
    requires IsBinary(e)
    ensures !SameKind(e, e.right) ==> c.NoMatch?
    ensures c.Match? ==> Related(e.left, e.right.left) && SameKind(e, e.right)
  {
    if Type(e) != Type(e.right) then NoMatch else MatchingPairCode(e.left, e.right.left)
  }
}
