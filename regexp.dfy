/**
 * The regular-expression terms of util/RegExp*.java: the EMPTY
 * singleton, interned symbols, the unary nodes (Option, Plus, Star,
 * Power, PowerRange) and the binary nodes (Choice, Concat), with their
 * type tags and Java `equals`.
 */
module RegExps {
  import opened JavaInt
  import opened Wrappers

  /**
   * The object a symbol wraps: `id` tells apart objects that are not
   * `equals`, `name` is its interned `toString()`.
   */
  datatype Payload = Payload(id: nat, name: string)

  /**
   * A regular expression. `Empty` is the `()` singleton
   * RegExpSymbol.EMPTY; `Range` is RegExpPowerRange, whose upper bound
   * OMEGA means "no upper bound".
   */
  datatype RegExp =
    | Empty
    | Symbol(payload: Payload)
    | Optional(arg: RegExp)
    | Plus(arg: RegExp)
    | Star(arg: RegExp)
    | Power(arg: RegExp, power: int32)
    | Range(arg: RegExp, lower: int32, upper: int32)
    | Choice(left: RegExp, right: RegExp)
    | Concat(left: RegExp, right: RegExp)

  /** The name printed for the EMPTY singleton (its wrapped object is the string "()"). */
  const EMPTY_NAME: string := "()"

  const EMPTY_EXP: bv32  := 1 << 0
  const SYMBOL_EXP: bv32 := 1 << 1
  const OPTION_EXP: bv32 := 1 << 2
  const PLUS_EXP: bv32   := 1 << 3
  const STAR_EXP: bv32   := 1 << 4
  const POWER_EXP: bv32  := 1 << 5
  const RANGE_EXP: bv32  := 1 << 6
  const CHOICE_EXP: bv32 := 1 << 7
  const CONCAT_EXP: bv32 := 1 << 8
  const UNARY_EXP: bv32  := OPTION_EXP | PLUS_EXP | STAR_EXP | POWER_EXP | RANGE_EXP
  const BINARY_EXP: bv32 := CONCAT_EXP | CHOICE_EXP

  /** `type()`: a symbol has the EMPTY tag only when it is the EMPTY singleton itself. */
  function Type(e: RegExp): (t: bv32)
    ensures t == EMPTY_EXP <==> e.Empty?
    ensures t == SYMBOL_EXP <==> e.Symbol?
  {
    match e
    case Empty => EMPTY_EXP
    case Symbol(_) => SYMBOL_EXP
    case Optional(_) => OPTION_EXP
    case Plus(_) => PLUS_EXP
    case Star(_) => STAR_EXP
    case Power(_, _) => POWER_EXP
    case Range(_, _, _) => RANGE_EXP
    case Choice(_, _) => CHOICE_EXP
    case Concat(_, _) => CONCAT_EXP
  }

  /** Every tag is a single bit, and two nodes share a tag exactly when they are the same kind of node. */
  lemma TagsAreDistinctBits(a: RegExp, b: RegExp)
    ensures Type(a) != 0 && Type(a) & (Type(a) - 1) == 0
    ensures Type(a) == Type(b) <==> SameKind(a, b)
  {
  }

  predicate SameKind(a: RegExp, b: RegExp) {
    (a.Empty? && b.Empty?) || (a.Symbol? && b.Symbol?) || (a.Optional? && b.Optional?)
    || (a.Plus? && b.Plus?) || (a.Star? && b.Star?) || (a.Power? && b.Power?)
    || (a.Range? && b.Range?) || (a.Choice? && b.Choice?) || (a.Concat? && b.Concat?)
  }

  /** `isUnary()`: the type tag lies inside the unary mask. */
  predicate IsUnary(e: RegExp)
    ensures IsUnary(e) <==> (e.Optional? || e.Plus? || e.Star? || e.Power? || e.Range?)
  {
    Type(e) & UNARY_EXP == Type(e)
  }

  /** `isBinary()`: the type tag lies inside the binary mask. */
  predicate IsBinary(e: RegExp)
    ensures IsBinary(e) <==> (e.Choice? || e.Concat?)
  {
    Type(e) & BINARY_EXP == Type(e)
  }

  /** `cleanup`: a missing (null) child stands for EMPTY. */
  function Cleanup(e: Option<RegExp>): (r: RegExp)
    ensures e.Some? ==> r == e.value
    ensures e.None? ==> r.Empty?
  {
    if e.None? then Empty else e.value
  }

  /** The interned name of a symbol; EMPTY's name is "()". */
  function Name(e: RegExp): string
    requires e.Empty? || e.Symbol?
  {
    if e.Empty? then EMPTY_NAME else e.payload.name
  }

  /**
   * Java `equals`: symbols (EMPTY included) compare by interned name,
   * unary nodes by tag and argument, Power also by exponent, PowerRange
   * also by both bounds, binary nodes by tag and both children.
   */
  predicate Equals(a: RegExp, b: RegExp): (r: bool)
    ensures r ==> (a.Empty? || a.Symbol?) == (b.Empty? || b.Symbol?)
    ensures r && !(a.Empty? || a.Symbol?) ==> Type(a) == Type(b)
  {
    match a
    case Empty => b.Empty? || (b.Symbol? && Name(b) == EMPTY_NAME)
    case Symbol(p) => (b.Empty? || b.Symbol?) && Name(b) == p.name
    case Optional(x) => b.Optional? && Equals(x, b.arg)
    case Plus(x) => b.Plus? && Equals(x, b.arg)
    case Star(x) => b.Star? && Equals(x, b.arg)
    case Power(x, n) => b.Power? && Equals(x, b.arg) && n == b.power
    case Range(x, m, n) => b.Range? && Equals(x, b.arg) && m == b.lower && n == b.upper
    case Choice(l, r) => b.Choice? && Equals(l, b.left) && Equals(r, b.right)
    case Concat(l, r) => b.Concat? && Equals(l, b.left) && Equals(r, b.right)
  }

  /**
   * What `equals` can see of a term: symbols reduced to their names, a
   * symbol named "()" identified with EMPTY.
   */
  function Shape(e: RegExp): RegExp {
    match e
    case Empty => Empty
    case Symbol(p) => if p.name == EMPTY_NAME then Empty else Symbol(Payload(0, p.name))
    case Optional(x) => Optional(Shape(x))
    case Plus(x) => Plus(Shape(x))
    case Star(x) => Star(Shape(x))
    case Power(x, n) => Power(Shape(x), n)
    case Range(x, m, n) => Range(Shape(x), m, n)
    case Choice(l, r) => Choice(Shape(l), Shape(r))
    case Concat(l, r) => Concat(Shape(l), Shape(r))
  }

  /** `equals` is exactly equality of shapes; hence it is reflexive, symmetric and transitive. */
  lemma {:induction false} EqualsIsSameShape(a: RegExp, b: RegExp)
    ensures Equals(a, b) <==> Shape(a) == Shape(b)
  {
    match a
    case Empty =>
    case Symbol(p) =>
    case Optional(x) => if b.Optional? { EqualsIsSameShape(x, b.arg); }
    case Plus(x) => if b.Plus? { EqualsIsSameShape(x, b.arg); }
    case Star(x) => if b.Star? { EqualsIsSameShape(x, b.arg); }
    case Power(x, n) => if b.Power? { EqualsIsSameShape(x, b.arg); }
    case Range(x, m, n) => if b.Range? { EqualsIsSameShape(x, b.arg); }
    case Choice(l, r) =>
      if b.Choice? { EqualsIsSameShape(l, b.left); EqualsIsSameShape(r, b.right); }
    case Concat(l, r) =>
      if b.Concat? { EqualsIsSameShape(l, b.left); EqualsIsSameShape(r, b.right); }
  }

  lemma EqualsReflexive(a: RegExp)
    ensures Equals(a, a)
  {
    EqualsIsSameShape(a, a);
  }

  lemma EqualsSymmetric(a: RegExp, b: RegExp)
    ensures Equals(a, b) <==> Equals(b, a)
  {
    EqualsIsSameShape(a, b);
    EqualsIsSameShape(b, a);
  }

  lemma EqualsTransitive(a: RegExp, b: RegExp, c: RegExp)
    requires Equals(a, b) && Equals(b, c)
    ensures Equals(a, c)
  {
    EqualsIsSameShape(a, b);
    EqualsIsSameShape(b, c);
    EqualsIsSameShape(a, c);
  }

  /** A symbol that `get("()")` registers is `equals` to EMPTY, yet it is not EMPTY and its tag is SYMBOL. */
  lemma ParenSymbolEqualsEmpty(id: nat)
    ensures Equals(Symbol(Payload(id, EMPTY_NAME)), Empty)
    ensures Equals(Empty, Symbol(Payload(id, EMPTY_NAME)))
    ensures Type(Symbol(Payload(id, EMPTY_NAME))) == SYMBOL_EXP
  {
  }

  /** Symbols wrapping different objects with the same printed name are `equals`. */
  lemma SameNameSymbolsEqual(p: Payload, q: Payload)
    requires p.name == q.name
    ensures Equals(Symbol(p), Symbol(q))
  {
  }

  /** The number of nodes of a term. */
  function Size(e: RegExp): (n: nat)
    ensures n >= 1
    ensures IsUnary(e) ==> Size(e.arg) < n
    ensures IsBinary(e) ==> Size(e.left) < n && Size(e.right) < n
  {
    match e
    case Empty => 1
    case Symbol(_) => 1
    case Optional(x) => 1 + Size(x)
    case Plus(x) => 1 + Size(x)
    case Star(x) => 1 + Size(x)
    case Power(x, _) => 1 + Size(x)
    case Range(x, _, _) => 1 + Size(x)
    case Choice(l, r) => 1 + Size(l) + Size(r)
    case Concat(l, r) => 1 + Size(l) + Size(r)
  }

  /** `equals` terms have the same number of nodes. */
  lemma {:induction false} EqualsSameSize(a: RegExp, b: RegExp)
    requires Equals(a, b)
    ensures Size(a) == Size(b)
  {
    match a
    case Empty =>
    case Symbol(_) =>
    case Optional(x) => EqualsSameSize(x, b.arg);
    case Plus(x) => EqualsSameSize(x, b.arg);
    case Star(x) => EqualsSameSize(x, b.arg);
    case Power(x, _) => EqualsSameSize(x, b.arg);
    case Range(x, _, _) => EqualsSameSize(x, b.arg);
    case Choice(l, r) => EqualsSameSize(l, b.left); EqualsSameSize(r, b.right);
    case Concat(l, r) => EqualsSameSize(l, b.left); EqualsSameSize(r, b.right);
  }
}
