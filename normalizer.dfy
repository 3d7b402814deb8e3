/**
 * The normal-form driver of RegExp: `normalize()` dispatched on the
 * node's class, the `checkNormalForm` chain, the `_normalForm` cache,
 * and the RegExpSymbol interning table.
 */
module Normalizer {
  import opened JavaInt
  import opened Wrappers
  import opened RegExps
  import opened UnaryRules
  import opened ConcatRules
  import opened ChoiceRules

  /**
   * One `normalize()` call: the replacement chosen by the node's first
   * matching rule, or None when no rule fires. Symbols (EMPTY included)
   * never rewrite.
   */
  function Step(e: RegExp): (r: Option<RegExp>)
    ensures e.Empty? || e.Symbol? ==> r.None?
    ensures IsUnary(e) && r.Some? ==> Size(r.value) <= Size(e)
  {
    match e
    case Empty => None
    case Symbol(_) => None
    case Optional(x) => StepOption(x)
    case Plus(x) => StepPlus(x)
    case Star(x) => StepStar(x)
    case Power(x, n) => StepPower(x, n)
    case Range(x, lo, hi) => StepRange(x, lo, hi)
    case Choice(l, r) => StepChoice(l, r)
    case Concat(l, r) => StepConcat(l, r)
  }

  /**
   * The end of the chain of replacements that a rewrite function `step`
   * makes from e: a node `step` leaves alone is its own end, otherwise
   * the end is that of the replacement. `fuel` bounds the length of the
   * chain; None means the chain is longer than `fuel`. The lemmas below
   * hold for any rewrite function; `NormalForm` plugs in `Step`.
   */
  function Chain(step: RegExp -> Option<RegExp>, e: RegExp, fuel: nat): (r: Option<RegExp>)
    ensures r.Some? ==> step(r.value).None?
    ensures step(e).None? ==> r == Some(e)
    decreases fuel
  {
    match step(e)
    case None => Some(e)
    case Some(next) => if fuel == 0 then None else Chain(step, next, fuel - 1)
  }

  /**
   * `normalForm()` followed through `checkNormalForm`: the end of the
   * chain of `normalize()` replacements, which no rule rewrites.
   */
  function NormalForm(e: RegExp, fuel: nat): (r: Option<RegExp>)
    ensures r.Some? ==> Step(r.value).None?
    ensures Step(e).None? ==> r == Some(e)
  {
    Chain(Step, e, fuel)
  }

  /** More fuel never changes the end of a chain once one is reached. */
  lemma {:induction false} ChainMonotone(step: RegExp -> Option<RegExp>, e: RegExp, f: nat, g: nat)
    requires f <= g && Chain(step, e, f).Some?
    ensures Chain(step, e, g) == Chain(step, e, f)
    decreases f
  {
    match step(e)
    case None =>
    case Some(next) => ChainMonotone(step, next, f - 1, g - 1);
  }

  /** More fuel never changes a normal form once one is reached. */
  lemma NormalFormMonotone(e: RegExp, f: nat, g: nat)
    requires f <= g && NormalForm(e, f).Some?
    ensures NormalForm(e, g) == NormalForm(e, f)
  {
    ChainMonotone(Step, e, f, g);
  }

  /** A term has at most one normal form, whatever fuel finds it. */
  lemma NormalFormUnique(e: RegExp, f: nat, g: nat)
    requires NormalForm(e, f).Some? && NormalForm(e, g).Some?
    ensures NormalForm(e, f) == NormalForm(e, g)
  {
    if f <= g {
      ChainMonotone(Step, e, f, g);
    } else {
      ChainMonotone(Step, e, g, f);
    }
  }

  /** `normalForm(normalForm(e))` is `normalForm(e)`: a normal form needs no fuel and is its own normal form. */
  lemma NormalFormIdempotent(e: RegExp, f: nat)
    requires NormalForm(e, f).Some?
    ensures NormalForm(NormalForm(e, f).value, 0) == NormalForm(e, f)
  {
  }

  /** `inNormalForm(e)`, i.e. e is identical to its normal form, holds exactly when no rule of e's class fires. */
  lemma InNormalFormIff(e: RegExp, f: nat)
    ensures NormalForm(e, f) == Some(e) <==> Step(e).None?
  {
    ChainIsItself(Step, e, f);
  }

  /** A chain ends at its start exactly when `step` leaves the start alone. */
  lemma ChainIsItself(step: RegExp -> Option<RegExp>, e: RegExp, f: nat)
    ensures Chain(step, e, f) == Some(e) <==> step(e).None?
  {
  }

  /** When a rule fires, e's normal form is the replacement's: the chain of `checkNormalForm`. */
  lemma NormalFormChains(e: RegExp, f: nat)
    requires Step(e).Some? && NormalForm(e, f).Some?
    ensures f > 0 && NormalForm(Step(e).value, f - 1) == NormalForm(e, f)
  {
  }

  /** One link of a chain: the end with one more unit of fuel is the replacement's. */
  lemma ChainStep(step: RegExp -> Option<RegExp>, e: RegExp, next: RegExp, f: nat)
    requires step(e) == Some(next)
    ensures Chain(step, e, f + 1) == Chain(step, next, f)
  {
  }

  /**
   * What the `_normalForm` fields hold: each cached node's chain reaches
   * its cached normal form (with the recorded fuel), and that normal
   * form caches itself.
   */
  ghost predicate CacheInvariant(step: RegExp -> Option<RegExp>, cache: map<RegExp, RegExp>, fuelOf: map<RegExp, nat>) {
    fuelOf.Keys == cache.Keys
    && (forall e | e in cache :: Chain(step, e, fuelOf[e]) == Some(cache[e]))
    && (forall e | e in cache :: cache[e] in cache && cache[cache[e]] == cache[e])
  }

  /** Caching v as the normal form of a node e that a rule rewrites keeps the invariant, and no earlier entry changes. */
  lemma CacheExtend(step: RegExp -> Option<RegExp>, cache: map<RegExp, RegExp>, fuelOf: map<RegExp, nat>, e: RegExp, v: RegExp, f: nat)
    requires CacheInvariant(step, cache, fuelOf)
    requires step(e).Some? && Chain(step, e, f) == Some(v) && v in cache && cache[v] == v
    ensures CacheInvariant(step, cache[e := v], fuelOf[e := f])
  {
    forall k | k in cache
      ensures cache[k] != e
    {
    }
  }

  /** Caching a node no rule rewrites as its own normal form keeps the invariant. */
  lemma CacheExtendNormal(step: RegExp -> Option<RegExp>, cache: map<RegExp, RegExp>, fuelOf: map<RegExp, nat>, e: RegExp)
    requires CacheInvariant(step, cache, fuelOf) && e !in cache && step(e).None?
    ensures CacheInvariant(step, cache[e := e], fuelOf[e := 0])
  {
  }

  /** Every entry of the cache a is still in the cache b, unchanged. */
  ghost predicate Extends(a: map<RegExp, RegExp>, b: map<RegExp, RegExp>) {
    forall k | k in a :: k in b && b[k] == a[k]
  }

  /** Caching a node that a did not hold keeps the entries of a. */
  lemma ExtendsUpdate(a: map<RegExp, RegExp>, b: map<RegExp, RegExp>, e: RegExp, v: RegExp)
    requires Extends(a, b) && e !in a
    ensures Extends(a, b[e := v])
  {
  }

  /**
   * The `_normalForm` fields of all nodes met so far, as one table from
   * node to cached normal form. The rewrite function is the constant
   * `step`, which the constructor sets to `Step`.
   */
  class NormalFormCache {
    const step: RegExp -> Option<RegExp>
    var cache: map<RegExp, RegExp>
    /** For each cached node, a fuel with which the chain reaches its cached normal form. */
    ghost var fuelOf: map<RegExp, nat>

    ghost predicate Valid()
      reads this
    {
      CacheInvariant(step, cache, fuelOf)
    }

    /** No node has been normalised yet. */
    constructor()
      ensures Valid() && cache == map[] && step == Step
    {
      step := Step;
      cache := map[];
      fuelOf := map[];
    }

    /**
     * `normalForm()`: the cached normal form if there is one, else
     * `normalize()` and `checkNormalForm`, which cache the normal form
     * of e and of every replacement on the chain, the final one caching
     * itself. None when the chain is longer than `fuel`.
     */
    method Get(e: RegExp, fuel: nat) returns (r: Option<RegExp>)
      requires Valid()
      modifies this
      ensures Valid()
      ensures e in old(cache) ==> r == Some(old(cache)[e]) && cache == old(cache)
      ensures r.Some? ==> e in cache && cache[e] == r.value
      ensures r.Some? ==> r.value in cache && cache[r.value] == r.value
      ensures r.Some? ==> step(r.value).None?
      ensures Extends(old(cache), cache)
      decreases fuel, 1
    {
      if e in cache {
        r := Some(cache[e]);
        return;
      }
      var next := step(e);
      if next.None? {
        CacheExtendNormal(step, cache, fuelOf, e);
        ExtendsUpdate(cache, cache, e, e);
        cache := cache[e := e];
        fuelOf := fuelOf[e := 0];
        r := Some(e);
      } else if fuel == 0 {
        r := None;
      } else {
        r := Follow(e, next.value, fuel - 1);
      }
    }

    /**
     * The `checkNormalForm` link for a node e that a rule rewrites to
     * next: e caches whatever normal form next reaches.
     */
    method Follow(e: RegExp, next: RegExp, fuel: nat) returns (r: Option<RegExp>)
      requires Valid() && e !in cache && step(e) == Some(next)
      modifies this
      ensures Valid()
      ensures r.Some? ==> e in cache && cache[e] == r.value
      ensures r.Some? ==> r.value in cache && cache[r.value] == r.value
      ensures r.Some? ==> step(r.value).None?
      ensures Extends(old(cache), cache)
      decreases fuel, 2
    {
      r := Get(next, fuel);
      if r.Some? {
        ghost var f := fuelOf[next];
        ChainStep(step, e, next, f);
        CacheExtend(step, cache, fuelOf, e, r.value, f + 1);
        ExtendsUpdate(old(cache), cache, e, r.value);
        cache := cache[e := r.value];
        fuelOf := fuelOf[e := f + 1];
      }
    }

    /** Each cached entry is the node's normal form. */
    lemma CachedIsNormalForm(e: RegExp)
      requires Valid() && step == Step && e in cache
      ensures NormalForm(e, fuelOf[e]) == Some(cache[e])
      ensures Step(cache[e]).None?
    {
    }

    /** `inNormalForm()`: whether e is identical to its normal form; None when the chain is longer than `fuel`. */
    method InNormalForm(e: RegExp, fuel: nat) returns (b: Option<bool>)
      requires Valid()
      modifies this
      ensures Valid()
      ensures b.Some? ==> e in cache
      ensures b.Some? ==> (b.value <==> step(e).None?)
      ensures Extends(old(cache), cache)
    {
      var r := Get(e, fuel);
      if r.None? {
        b := None;
      } else {
        b := Some(r.value == e);
        ChainIsItself(step, e, fuelOf[e]);
      }
    }
  }

  /** RegExpSymbol's `_symbols` table: each wrapped object mapped to its canonical symbol. EMPTY is never registered. */
  class SymbolTable {
    var symbols: map<Payload, RegExp>

    ghost predicate Valid()
      reads this
    {
      forall p | p in symbols :: symbols[p] == Symbol(p)
    }

    constructor()
      ensures Valid() && symbols == map[]
    {
      symbols := map[];
    }

    /**
     * `get(object)`: EMPTY for null; otherwise the registered symbol of
     * the object, registering a new one on first use.
     */
    method Get(obj: Option<Payload>) returns (s: RegExp)
      requires Valid()
      modifies this
      ensures Valid()
      ensures obj.None? ==> s == Empty && symbols == old(symbols)
      ensures obj.Some? ==> s == Symbol(obj.value) && obj.value in symbols && symbols[obj.value] == s
      ensures obj.Some? && obj.value in old(symbols) ==> symbols == old(symbols)
      ensures obj.Some? ==> symbols == old(symbols)[obj.value := s]
      ensures obj.Some? ==> !s.Empty? && Type(s) == SYMBOL_EXP
    {
      if obj.None? {
        return Empty;
      }
      if obj.value in symbols {
        s := symbols[obj.value];
      } else {
        s := Symbol(obj.value);
        symbols := symbols[obj.value := s];
      }
    }
  }
}
