# hak-lang-util in Dafny

A Dafny model of two parts of the `hlt.language.util` Java package.

**The regular-expression normaliser** (`util/RegExp*.java`). This is a term-rewriting system over regular expressions built from opaque symbols:

- the `()` singleton EMPTY and interned symbols;
- the unary nodes `X?`, `X+`, `X*`, `X^n` and `X_m^n`;
- the binary nodes Choice `X|Y` and Concat `X.Y`.

Each node class has an ordered list of rewrite rules in its `normalize()`. The first rule that matches supplies a replacement. `checkNormalForm` then chains to the replacement's own normal form, and the result is cached in `_normalForm`.

The model keeps the source's rule order. Each class's rules are one function that returns `Some(replacement)` or `None`. The driver follows the chain of replacements with a fuel bound. A class `NormalFormCache` holds the `_normalForm` fields of all nodes, and `SymbolTable` is the `_symbols` interning table. Bounds are Java `int`s modelled as the subtype `int32`:

- the saturating `plus` and `times` are modelled exactly, including the overflow of `OMEGA - x` for a negative x;
- the unchecked `+ 1` of three Choice rules wraps like Java's `+`.

The rule `[CH:NR_1]` merges `a^2|a_3^5` into `a_2^5` (`Scenarios.AdjacentPowerRangeMerge`).

**The container utilities.** These are modelled as classes whose methods update fields, arrays and linked objects in place. Each class is specified against ghost contents (a sequence, map or set) and reference functions in `seqs.dfy`:

- the array-backed lists `ArrayList` and `IntArrayList`, and the stacks `Stack` and `IntStack` built on them;
- the circular `FiniteStack`;
- the doubly linked `Queue`;
- the chained hash map `ToIntMap`/`IntToIntMap`;
- the bitset subset `SetOf`;
- the linked stacks `LinkedStack`/`LinkedIntStack`/`LinkedObjectStack`;
- the association list `Table`.

Java exceptions are `Err` values of a `Result` (`wrappers.dfy`), and a Java null is `None`. Constructors that can throw have a `Create` method beside them that returns the error; the Dafny constructors themselves take a `nat` capacity. The `Stack(int)` and `IntStack(int, int)` doc-comments promise IllegalArgumentException for a negative capacity, but the code passes the capacity on to the array-list constructor, which throws NegativeArraySizeException; the model follows the code.

Where a method's code disagrees with its documentation or with what its callers need, the class method models the evident intent. A separate `...AsWritten` member models the code as it stands, with a lemma or method that exhibits an input on which the two differ (see "## Findings").

## Model

| member | source | states |
|---|---|---|
| JavaInt.Add | util/RegExpChoice.java:2509 | Java's unchecked `+` on ints: the exact sum when it fits, otherwise the sum shifted by 2^32 |
| JavaInt.Wrap | util/RegExp.java:490-510 | a mathematical integer reduced to the Java `int` with the same low 32 bits, unchanged when it is in range |
| JavaInt.Sub | util/RegExp.java:492 | Java's `OMEGA-x`: the exact difference when it fits, otherwise shifted down by 2^32 |
| JavaInt.Mul | util/RegExp.java:509 | Java's `x*y`: the exact product when it fits |
| JavaInt.Div | util/RegExp.java:508 | Java's `OMEGA/x`: for a non-negative dividend, the quotient truncated toward zero, for either sign of the divisor |
| JavaInt.BoundPlus | util/RegExp.java:490-496 | for non-negative bounds, `plus` is the sum capped at OMEGA, never below either operand, and OMEGA absorbs |
| JavaInt.BoundTimes | util/RegExp.java:503-512 | `times` is 0 whenever either factor is 0, even against OMEGA |
| JavaInt.BoundTimesPositive | util/RegExp.java:503-512 | for positive factors, `times` is the product while it fits and OMEGA beyond, always in 1..OMEGA |
| JavaInt.ProductFits | util/RegExp.java:508 | the guard `y <= OMEGA / x` is exactly "x * y does not exceed OMEGA" |
| JavaInt.BoundPlusNegativeOverflow | util/RegExp.java:492 | with a negative first operand the guard's `OMEGA - x` overflows, so `plus(-1, 1)` is OMEGA |
| RegExps.Type | util/RegExpSymbol.java:60-63 | a symbol has the EMPTY tag exactly when it is the EMPTY singleton; every other symbol has the SYMBOL tag |
| RegExps.TagsAreDistinctBits | util/RegExp.java:194-216 | every tag is a single bit, and two nodes share a tag exactly when they are the same kind |
| RegExps.IsUnary | util/RegExp.java:302-305 | the unary mask holds exactly for Option, Plus, Star, Power and PowerRange |
| RegExps.IsBinary | util/RegExp.java:307-310 | the binary mask holds exactly for Choice and Concat |
| RegExps.Cleanup | util/RegExp.java:185-188 | a null child becomes EMPTY, and any other child is kept |
| RegExps.EqualsIsSameShape | util/RegExpTwo.java:644-651 | `equals` holds exactly when the two terms have the same shape once symbols are reduced to their names |
| RegExps.Equals | util/RegExpOne.java:62-68 | `equals` only relates terms of the same class (EMPTY and symbols counting as one class, compared by name), because it compares `type()` first |
| RegExps.EqualsReflexive | util/RegExpOne.java:62-67 | every term `equals` itself |
| RegExps.EqualsSymmetric | util/RegExpSymbol.java:167-172 | `equals` is symmetric |
| RegExps.EqualsTransitive | util/RegExpPower.java:255-259 | `equals` is transitive |
| RegExps.ParenSymbolEqualsEmpty | util/RegExpSymbol.java:140-151 | a symbol that `get("()")` registers `equals` EMPTY both ways, yet it is a SYMBOL, not EMPTY |
| RegExps.SameNameSymbolsEqual | util/RegExpSymbol.java:167-172 | symbols wrapping different objects with the same printed name are `equals` |
| RegExps.EqualsSameSize | util/RegExpPowerRange.java:391-396 | terms that are `equals` have the same number of nodes |
| Printing.LexLessIsFirstDifference | util/RegExp.java:522-525 | `isLexLess`'s `compareTo < 0` holds exactly when, at the first differing position, the first string has the smaller character, or when it is a proper prefix |
| Printing.LexLess | util/RegExp.java:522-525 | `compareTo < 0` never holds between equal strings; a proper prefix comes first, and a string never comes before its own prefix |
| Printing.LexLessIrreflexive | util/RegExp.java:522-525 | no string is less than itself |
| Printing.LexLessAsymmetric | util/RegExp.java:522-525 | two strings are never each less than the other |
| Printing.LexLessTransitive | util/RegExp.java:522-525 | the order is transitive |
| Printing.LexLessTotal | util/RegExp.java:522-525 | of two different strings, one is less than the other |
| Printing.ParseNatToString | util/RegExpPower.java:264-270 | printed natural numbers read back to themselves and never start with a minus sign |
| Printing.IntToStringRoundTrip | util/RegExpPowerRange.java:401-409 | a printed exponent or bound reads back to the same int |
| Printing.SymbolOrder | util/RegExpChoice.java:2348-2371 | on symbols, `isLexLess` is a strict total order of their names |
| Printing.PrintedForms | util/RegExpSymbol.java:177-180 | EMPTY prints as `()` and a symbol as its name; an unbounded range prints a trailing `~`; a binary argument of a unary node is parenthesised |
| Printing.ToString | util/RegExpPowerRange.java:401-409 | a unary node prints with its operator last (`?`, `+` or `*`), and a range with no upper bound ends in `~` |
| Matching.LetterOf | util/RegExpTwo.java:498-577 | a term's form letter is X exactly when the term is not unary |
| Matching.CodeNumber | util/RegExpTwo.java:170-210 | the byte constant of a code is 0 exactly for "no match", and otherwise lies in 1..36 |
| Matching.CodeNumberInjective | util/RegExpTwo.java:170-210 | distinct codes have distinct constants, with XX = 1, XR = 6, OX = 7, SX = 19, NN = 29, RR = 36 |
| Matching.MatchingPairCode | util/RegExpTwo.java:498-577 | the code is XX exactly when l `equals` r and 0 exactly when no form relation holds; its row and column are the forms of l and r, and their arguments are `equals` as the code says |
| Matching.MatchingPairHasCode | util/RegExpTwo.java:68-81 | every pair that `matchingPair` accepts gets a non-zero code |
| Matching.CodeWithoutMatchingPair | util/RegExpTwo.java:68-81 | the converse fails: `X**` with `X*` gets SX, yet `matchingPair` rejects the pair |
| Matching.MatchingPairCodeTransposes | util/RegExpTwo.java:503-555 | swapping the pair transposes its code |
| Matching.DiagonalNeverReturned | util/RegExpTwo.java:513-553 | OO, PP and SS are never returned |
| Matching.PowerDiagonalsReached | util/RegExpTwo.java:513-553 | NN and RR are returned for powers and ranges of one term with different exponents |
| Matching.MatchingArgsCode | util/RegExpTwo.java:94-103 | no match unless the right child has the node's operator; a match implies a form relation between the left child and the right child's left child |
| UnaryRules.StepOption | util/RegExpOption.java:154-198 | an Option rewrites exactly unless its argument is a symbol, a power, a binary node or a range with a lower bound other than 0 or 1, and it never grows |
| UnaryRules.OptionRules | util/RegExpOption.java:159-197 | `()?` gives `()`, `X??` gives `X?`, `X+?` and `X*?` give `X*`, `X_0^n?` and `X_1^n?` give `X_0^n` |
| UnaryRules.StepPlus | util/RegExpPlus.java:113-143 | a Plus rewrites exactly when its argument is EMPTY, an Option, a Plus or a Star, and it never grows |
| UnaryRules.StepStar | util/RegExpStar.java:113-143 | a Star rewrites exactly when its argument is EMPTY, an Option, a Plus or a Star, and it never grows |
| UnaryRules.PlusStarRules | util/RegExpPlus.java:118-140 | the Plus and Star rules on `()`, `X?`, `X+` and `X*` |
| UnaryRules.StepPower | util/RegExpPower.java:185-248 | a Power is left alone exactly when its exponent is at least 2 over a symbol or binary node, and it never grows |
| UnaryRules.PowerRules | util/RegExpPower.java:190-245 | `()^n` and `X^0` give `()`, `X^1` gives `X`, and powers of `X?`, `X+`, `X*`, `X^m` and `X_lo^hi` combine exponents with `times` |
| UnaryRules.PowerOfUnboundedRange | util/RegExpPower.java:236-241 | a power of an unbounded range stays unbounded |
| UnaryRules.StepRange | util/RegExpPowerRange.java:289-384 | when a PowerRange is left alone, and that a rewrite adds at most one node; the `[PR:m-]` branch is unreachable |
| UnaryRules.RangeRules | util/RegExpPowerRange.java:294-360 | the bound rules: empty ranges give `()`, 0..1 gives `X?`, 0..OMEGA `X*`, 1..OMEGA `X+`, a negative lower bound becomes 0, and equal bounds give a power |
| UnaryRules.RangeOverUnaryRules | util/RegExpPowerRange.java:362-378 | on proper bounds, ranges of `X?`, `X+` and `X*` give `X_0^n`, `X_m~` and `X*` |
| ConcatRules.FlatRule | util/RegExpConcat.java:2058-2268 | the flat matching-pair rules: XX gives `X^2`, and a unary left form over X gives a range, plus or power |
| ConcatRules.NestedRule | util/RegExpConcat.java:2270-2513 | every nested rule yields a Concat |
| ConcatRules.NestedIsFlatThenConcat | util/RegExpConcat.java:2270-2513 | each nested rule rewrites `l.(a.y)` to (what the flat rule makes of `l.a`)`.y` |
| ConcatRules.StepConcat | util/RegExpConcat.java:1999-2541 | a Concat is left alone exactly when neither side is EMPTY, the left side is not binary, the right side is not a Choice, and no form relation holds between the left side and the right side, or between the left side and the right side's left child when the right side is a Concat |
| ConcatRules.ConcatStructuralRules | util/RegExpConcat.java:2007-2048 | EMPTY rules first, then associativity, then distribution over a left Choice before a right one |
| ConcatRules.ConcatFlatRules | util/RegExpConcat.java:2058-2268 | `X.X` gives `X^2`, `X.X*` and `X*.X` give `X+`, `X.X+` gives `X_2~`, `X?.X+` gives `X+`, `X.X^q` gives `X^plus(q,1)` |
| ChoiceRules.PowerLeftRules | util/RegExpChoice.java:2496-2585 | with a Power on the left: a left argument equal to the right side swaps the two, and a merged range comes only from a unary right side over the same argument |
| ChoiceRules.RangeLeftRules | util/RegExpChoice.java:2588-2664 | the same two properties with a PowerRange on the left |
| ChoiceRules.StepChoice | util/RegExpChoice.java:2274-2670 | a Choice left alone has no EMPTY, no `equals` operands, no Option and no Choice on the left, and symbol operands already in order |
| ChoiceRules.ChoiceStructuralRules | util/RegExpChoice.java:2282-2347 | `()|X` and `X|()` give `X?`, `X|X` gives `X`, `X?|Y` gives `(X|Y)?`, and `(X|Y)|Z` gives `X|(Y|Z)` |
| ChoiceRules.SymbolSwap | util/RegExpChoice.java:2348-2371 | `b|a` becomes `a|b` when a prints first, and an ordered pair is left alone |
| ChoiceRules.PowerOrder | util/RegExpChoice.java:2496-2585 | `X^n|X^m` with m + 1 < n swaps, and the ordered pair is left alone |
| ChoiceRules.PowerRangeMerges | util/RegExpChoice.java:2463-2664 | `X|X^2`, `X^n|X^(n+1)`, `X^n|X_(n+1)^q` and overlapping ranges merge into one range |
| ChoiceRules.Absorption | util/RegExpChoice.java:2389-2460 | `X.Y*|X`, `Y*.X|X`, `X.Y+|X`, `Y+.X|X` and their mirrors give `X.Y*` or `Y*.X` |
| ChoiceRules.RangeAbsorbs | util/RegExpChoice.java:2472-2491 | `X|X_0^q` and `X|X_1^q` keep the range, and `X|X_2^q` gives `X_1^q` |
| ChoiceRules.RangePowerMergeWraps | util/RegExpChoice.java:2597-2607 | the unchecked `+ 1` wraps: `a_0~|a^MIN_VALUE` merges into a range with a negative upper bound |
| Normalizer.Step | util/RegExp.java:134-160 | one `normalize()` step, dispatched to the node's class: symbols (EMPTY included) never rewrite, and a unary rewrite never grows the term |
| Normalizer.Chain | util/RegExp.java:117-123 | a chain ends only at a node its rules leave alone, and such a node is its own end |
| Normalizer.NormalForm | util/RegExp.java:105-111 | a normal form is a node that no rule rewrites, and a node that no rule rewrites is its own normal form |
| Normalizer.ChainMonotone | util/RegExp.java:117-123 | more fuel never changes a chain's end once one is reached |
| Normalizer.NormalFormMonotone | util/RegExp.java:105-111 | more fuel never changes a normal form once one is reached |
| Normalizer.NormalFormUnique | util/RegExp.java:105-123 | a term has at most one normal form |
| Normalizer.NormalFormIdempotent | util/RegExp.java:117-123 | the normal form of a normal form is itself |
| Normalizer.InNormalFormIff | util/RegExp.java:129-132 | a term is its own normal form exactly when no rule of its class fires |
| Normalizer.ChainIsItself | util/RegExp.java:117-123 | a chain ends at its start exactly when no rule fires at the start |
| Normalizer.NormalFormChains | util/RegExp.java:117-123 | when a rule fires, the term's normal form is the replacement's normal form |
| Normalizer.ChainStep | util/RegExp.java:117-123 | one link: with one more unit of fuel, the end of the chain is the replacement's end |
| Normalizer.CacheExtend | util/RegExp.java:117-123 | caching a rewritten node's chain end keeps every cached entry a normal form that caches itself |
| Normalizer.CacheExtendNormal | util/RegExp.java:117-120 | caching a node that no rule rewrites as its own normal form keeps the cache invariant |
| Normalizer.NormalFormCache.constructor | util/RegExp.java:92 | no node starts with a cached normal form |
| Normalizer.NormalFormCache.Get | util/RegExp.java:105-111 | a cached normal form is returned unchanged without normalising again; otherwise the node and its normal form are cached, that normal form caches itself, and no rule rewrites it |
| Normalizer.NormalFormCache.Follow | util/RegExp.java:117-123 | a rewritten node caches what its replacement reaches, and earlier entries are kept |
| Scenarios.PowerFolding | util/RegExpConcat.java:2058-2064 | `a.a` has the normal form `a^2`, printed "a^2" |
| Scenarios.StarPlusCollapse | util/RegExpConcat.java:2164-2167 | `b*.b+` has the normal form `b+`, printed "b+" |
| Scenarios.ChoiceOrdering | util/RegExpChoice.java:2348-2357 | `b|a` has the normal form `a|b`, printed "a | b", and `a|b` is already normal |
| Scenarios.Distributivity | util/RegExpConcat.java:2030-2036 | `(a|b).c` has the normal form `a.c|b.c`, printed "a.c | b.c" |
| Scenarios.AdjacentPowerRangeMerge | util/RegExpChoice.java:2569-2576 | `a^2|a_3^5` has the normal form `a_2^5`: the power and the adjacent range merge |
| Scenarios.ConcatIdentity | util/RegExpConcat.java:2007-2019 | for every X, `().X` and `X.()` have the normal form of X |
| Scenarios.ChoiceIdempotent | util/RegExpChoice.java:2284-2308 | for every X, `X|X` has the normal form of X (through `()?` when X is EMPTY) |
| Normalizer.NormalFormCache.CachedIsNormalForm | util/RegExp.java:105-123 | every cached entry is the node's normal form |
| Normalizer.NormalFormCache.InNormalForm | util/RegExp.java:129-132 | the answer is true exactly when no rule of the node's class fires |
| Normalizer.SymbolTable.constructor | util/RegExpSymbol.java:108 | the interning table starts empty |
| Normalizer.SymbolTable.Get | util/RegExpSymbol.java:140-151 | null gives EMPTY and registers nothing; an object gives its registered symbol, registering it on first use; EMPTY is never registered |
| Capacity.Increased | util/ArrayList.java:1146-1155 | growth always enlarges the buffer: by the increment when it is positive, otherwise to at least twice the capacity plus one |
| Capacity.IncreasedAtLeast | util/ArrayList.java:1164-1174 | the enlarged capacity is at least the one asked for |
| Capacity.Ensured | util/ArrayList.java:174-185 | `ensureCapacity` keeps a buffer that is large enough and otherwise grows it to at least the minimum |
| Seqs.FirstIndex | util/ArrayList.java:310-317 | the first index at or after `from` holding x, or -1 exactly when there is none |
| Seqs.LastIndex | util/ArrayList.java:344-350 | the last index below the bound holding x, or -1 exactly when there is none |
| Seqs.RemoveAt | util/ArrayList.java:704-714 | deletion at k: earlier elements stay and later ones move down one place |
| Seqs.InsertAt | util/ArrayList.java:685-693 | insertion at k: earlier elements stay, x is at k, and later ones move up one place |
| Seqs.RemoveInserted | util/ArrayList.java:685-714 | removing what was just inserted at an index gives back the original list |
| Seqs.Reverse | util/Queue.java:177-194 | the elements in the opposite order |
| Seqs.ReverseReverse | util/Queue.java:177-194 | reversing twice is the identity |
| Seqs.Compact | util/ArrayList.java:245-257 | only non-null elements remain, and every non-null element is kept |
| Seqs.CompactWithoutGaps | util/ArrayList.java:231-257 | removing gaps from a list without gaps changes nothing |
| Seqs.CompactAppend | util/ArrayList.java:245-257 | removing gaps distributes over concatenation |
| ArrayLists.ArrayList.constructor | util/ArrayList.java:65-90 | an empty list with the requested capacity and increment |
| ArrayLists.ArrayList.Create | util/ArrayList.java:57-81 | NegativeArraySizeException exactly for a negative capacity, otherwise an empty list with that capacity and increment |
| ArrayLists.ArrayList.Grow | util/ArrayList.java:1131-1139 | the elements move unchanged into a fresh buffer of the increased capacity |
| ArrayLists.ArrayList.EnsureCapacity | util/ArrayList.java:174-185 | afterwards the capacity is at least min; every old slot keeps its value and new slots are null |
| ArrayLists.ArrayList.TrimToSize | util/ArrayList.java:146-157 | the capacity becomes the size, and the elements are unchanged |
| ArrayLists.ArrayList.SetSize | util/ArrayList.java:186-202 | as documented: ArrayIndexOutOfBounds for a negative n with nothing changed; otherwise the list is exactly n long, a longer one cut to its first n elements with the dropped slots nulled, a shorter one extended with nulls |
| ArrayLists.ArrayList.SetSizeAsWritten | util/ArrayList.java:196-202 | as written: room for n elements; a longer list is truncated to n with its dropped slots nulled, and a shorter list keeps its size |
| ArrayLists.SetSizeAsWrittenAddsNoNulls | util/ArrayList.java:186-202 | `setSize(3)` on an empty list leaves it empty as written, and gives three nulls as documented |
| ArrayLists.ArrayList.HasGaps | util/ArrayList.java:231-238 | true exactly when some element is null |
| ArrayLists.ArrayList.RemoveGaps | util/ArrayList.java:245-257 | the list becomes its non-null elements in order, at the same capacity |
| ArrayLists.ArrayList.Contains | util/ArrayList.java:276-283 | true exactly when some element equals x |
| ArrayLists.ArrayList.IndexOfFrom | util/ArrayList.java:301-317 | IndexOutOfBoundsException exactly for a negative start; otherwise the first index at or after the start holding x, or -1 |
| ArrayLists.ArrayList.IndexOf | util/ArrayList.java:292-299 | the first index holding x, or -1 |
| ArrayLists.ArrayList.LastIndexOfFrom | util/ArrayList.java:344-350 | the last index at or below `index` holding x, or -1 |
| ArrayLists.ArrayList.LastIndexOf | util/ArrayList.java:326-333 | the last index holding x, or -1 |
| ArrayLists.ArrayList.Get | util/ArrayList.java:527-530 | inside the list, the element at index; inside the buffer, the slot's content; outside the buffer, an index error |
| ArrayLists.ArrayList.Set | util/ArrayList.java:547-553 | returns the old slot content and stores x; the size becomes max(size, index + 1); outside the buffer it is an error and nothing changes |
| ArrayLists.ArrayList.SecureSet | util/ArrayList.java:556-575 | ArrayIndexOutOfBounds for a negative index with nothing changed; otherwise returns the old slot (null beyond the old buffer), stores x, and extends the list to index + 1, the exposed slots in between holding their old values inside the old buffer and nulls beyond it |
| ArrayLists.ArrayList.Add | util/ArrayList.java:601-609 | appends x and keeps the earlier elements; the buffer is replaced only when it was full |
| ArrayLists.ArrayList.ShiftDown | util/ArrayList.java:709-710 | the shift loop deletes the element at k in place |
| ArrayLists.ArrayList.RemoveIndex | util/ArrayList.java:704-714 | returns the element at index and deletes it, moving later elements down |
| ArrayLists.ArrayList.Remove | util/ArrayList.java:644-661 | true exactly when x is present, in which case only its first occurrence is deleted; otherwise nothing changes |
| ArrayLists.ArrayList.Insert | util/ArrayList.java:685-693 | inserts x at index, growing a full buffer (the corrected `add(index, x)`) |
| ArrayLists.ArrayList.RemoveRange | util/ArrayList.java:1072-1084 | ArrayIndexOutOfBoundsException, with nothing changed, exactly when from is negative and to > from; otherwise deletes indices from..to (capped at the size) and moves every later element down; an empty range changes nothing (the documented behaviour) |
| ArrayLists.ArrayList.ClearFrom | util/ArrayList.java:1109-1112 | keeps the first index elements when 0 <= index < size, and otherwise empties the list |
| ArrayLists.ArrayList.Clear | util/ArrayList.java:719-722 | the list becomes empty and the buffer is kept |
| ArrayLists.InsertAsWritten | util/ArrayList.java:685-693 | as written, the insertion fails exactly when the buffer is full, and otherwise is the correct insertion |
| ArrayLists.InsertAsWrittenFailsWhenFull | util/ArrayList.java:687 | inserting into a full list fails as written under any growth policy, though `ensureCapacity(size + 1)` would have grown the buffer |
| ArrayLists.RemoveRangeAsWritten | util/ArrayList.java:1072-1084 | as written, the buffer keeps its length, an empty range changes nothing, and a negative from with to > from faults |
| ArrayLists.RemoveRangeAsWrittenCounterexamples | util/ArrayList.java:1078-1083 | removing the first of [1..5] leaves [2, 2, 3, 4]; removing past the end of a one-element list grows it |
| IntArrayLists.IntArrayList.constructor | util/IntArrayList.java:69-96 | an empty list with the requested capacity and increment |
| IntArrayLists.IntArrayList.Create | util/IntArrayList.java:69-96 | NegativeArraySizeException exactly for a negative capacity, otherwise an empty list with that capacity and increment |
| IntArrayLists.IntArrayList.MoveTo | util/IntArrayList.java:1002-1010 | the list is copied unchanged into a fresh buffer whose other slots are 0 |
| IntArrayLists.IntArrayList.EnsureCapacity | util/IntArrayList.java:185-198 | afterwards the capacity is at least min and the elements are unchanged; a grown buffer is zero past the list |
| IntArrayLists.IntArrayList.TrimToSize | util/IntArrayList.java:157-167 | the capacity becomes the count, and the elements are unchanged |
| IntArrayLists.IntArrayList.SetSize | util/IntArrayList.java:199-209 | as documented: the count becomes n with room for it; a longer list keeps its first n elements and a shorter one is extended with zeros |
| IntArrayLists.IntArrayList.Contains | util/IntArrayList.java:248-254 | true exactly when x is an element |
| IntArrayLists.IntArrayList.IndexOfFrom | util/IntArrayList.java:271-285 | IndexOutOfBoundsException exactly for a negative start; otherwise the first index at or after the start holding x, or -1 |
| IntArrayLists.IntArrayList.IndexOf | util/IntArrayList.java:263-269 | the first index holding x, or -1 |
| IntArrayLists.IntArrayList.LastIndexOfBelow | util/IntArrayList.java:310-316 | the last index strictly below `index` holding x, or -1 |
| IntArrayLists.IntArrayList.LastIndexOf | util/IntArrayList.java:294-300 | the last index holding x, or -1 |
| IntArrayLists.IntArrayList.Get | util/IntArrayList.java:482-485 | inside the list, the element; inside the buffer, the slot; outside it, an index error |
| IntArrayLists.IntArrayList.Set | util/IntArrayList.java:496-501 | returns the old slot value and stores x; the count never changes; outside the buffer it is an error and nothing changes |
| IntArrayLists.IntArrayList.Add | util/IntArrayList.java:521-526 | appends x; the buffer is replaced only when it was full |
| IntArrayLists.IntArrayList.ShiftDown | util/IntArrayList.java:596-597 | the shift loop deletes the element at k in place |
| IntArrayLists.IntArrayList.RemoveIndex | util/IntArrayList.java:592-602 | returns the element at index and deletes it |
| IntArrayLists.IntArrayList.RemoveElement | util/IntArrayList.java:539-554 | true exactly when x is present, in which case only its first occurrence is deleted; otherwise nothing changes |
| IntArrayLists.IntArrayList.Insert | util/IntArrayList.java:566-582 | inserts x at index with the room it needs (the corrected `add(index, x)`) |
| IntArrayLists.IntArrayList.Equals | util/IntArrayList.java:872-890 | true exactly when both lists have the same elements in the same order |
| IntArrayLists.IntArrayList.ClearFrom | util/IntArrayList.java:980-983 | keeps the first index elements when 0 <= index < count, and otherwise empties the list |
| IntArrayLists.IntArrayList.Clear | util/IntArrayList.java:607-610 | the list becomes empty |
| IntArrayLists.InsertAsWritten | util/IntArrayList.java:566-582 | as written, the insertion fails exactly when the buffer is full, and otherwise is correct |
| IntArrayLists.SetSizeAsWritten | util/IntArrayList.java:206-209 | as written, `setSize(n)` fails for every n beyond the capacity, and otherwise shows the first n slots of the buffer, stale or not |
| IntArrayLists.SetSizeAfterClear | util/IntArrayList.java:199-209 | add 1, add 2, `clear()`, `setSize(2)`: as written the list is [1, 2], as documented [0, 0] |
| IntArrayLists.AsWrittenCounterexamples | util/IntArrayList.java:566-582 | inserting into the full list [7] fails as written, where the corrected insertion gives [5, 7]; growing the full [1, 2] to size 3 fails too |
| Stacks.Distance | util/Stack.java:135-140 | the 1-based distance from the top of the topmost x, or -1 exactly when x is absent |
| Stacks.Stack.constructor | util/Stack.java:29-45 | a new stack is empty |
| Stacks.Stack.Create | util/Stack.java:34-45 | NegativeArraySizeException exactly for a negative capacity, otherwise an empty stack |
| Stacks.Stack.Push | util/Stack.java:54-58 | x goes on top and is returned |
| Stacks.Stack.Pop | util/Stack.java:67-70 | removes and returns the top |
| Stacks.Stack.Peek | util/Stack.java:79-82 | the top, or an index error on an empty stack |
| Stacks.Stack.PeekAt | util/Stack.java:90-93 | the element n places below the top, the raw slot for a negative n inside the buffer, and an index error outside it |
| Stacks.Stack.Replace | util/Stack.java:104-111 | returns the old element n places below the top and stores x there, with `peek(n)`'s errors; the size is unchanged |
| Stacks.Stack.Empty | util/Stack.java:118-121 | true exactly when the stack has no element |
| Stacks.Stack.Search | util/Stack.java:135-140 | the 1-based distance from the top of the topmost element equal to o, or -1 |
| Stacks.Stack.TopDown | util/Stack.java:146-177 | the iterator yields the elements from the top down |
| Stacks.IntStack.constructor | util/IntStack.java:24-52 | a new stack is empty |
| Stacks.IntStack.Create | util/IntStack.java:29-52 | NegativeArraySizeException exactly for a negative capacity, otherwise an empty stack |
| Stacks.IntStack.Push | util/IntStack.java:62-66 | x goes on top and is returned |
| Stacks.IntStack.Pop | util/IntStack.java:74-77 | removes and returns the top |
| Stacks.IntStack.Peek | util/IntStack.java:86-89 | the top, or an index error on an empty stack |
| Stacks.IntStack.PeekAt | util/IntStack.java:97-100 | the value n places below the top, the raw slot for a negative n inside the buffer, and an index error outside it |
| Stacks.IntStack.Replace | util/IntStack.java:110-117 | returns the old value n places below the top and stores x there, with `peek(n)`'s errors |
| Stacks.IntStack.Empty | util/IntStack.java:124-127 | true exactly when the count is 0 |
| Stacks.IntStack.Search | util/IntStack.java:139-145 | the 1-based distance from the top of the topmost x, or -1 |
| FiniteStacks.ModIsAdvance | util/FiniteStack.java:58-61 | Java's `(i + k) % n` is k steps round the ring |
| FiniteStacks.ModIsSucc | util/FiniteStack.java:58-61 | `(i + 1) % n` is one step round the ring, including for n = 1 |
| FiniteStacks.AdvanceInjective | util/FiniteStack.java:174-177 | distinct offsets land on distinct cells |
| FiniteStacks.RingAppend | util/FiniteStack.java:220-233 | writing the cell after the last element appends to the ring |
| FiniteStacks.RingDropFirst | util/FiniteStack.java:201-213 | clearing the oldest cell and stepping past it drops the first element |
| FiniteStacks.AdvanceBack | util/FiniteStack.java:49-52 | `prec` of m steps is m - 1 steps |
| FiniteStacks.AdvanceTwice | util/FiniteStack.java:58-61 | one step and then k more is k + 1 steps |
| FiniteStacks.RingDropLast | util/FiniteStack.java:183-195 | clearing the latest cell drops the last element |
| FiniteStacks.LayoutPacked | util/FiniteStack.java:244-254 | elements packed from cell 0 form a valid stack with the oldest at 0 |
| FiniteStacks.LayoutAppend | util/FiniteStack.java:220-233 | pushing with a spare cell appends the element |
| FiniteStacks.LayoutAppendFull | util/FiniteStack.java:224-228 | pushing onto a full ring overwrites the free cell and evicts the oldest element |
| FiniteStacks.LayoutPush | util/FiniteStack.java:220-233 | `push` on the buffer appends x, dropping the oldest element of a full ring |
| FiniteStacks.FiniteStack.constructor | util/FiniteStack.java:32-43 | an empty stack with slots + 1 cells, all null |
| FiniteStacks.FiniteStack.Prec | util/FiniteStack.java:49-52 | the cell before i, wrapping from 0 to the last cell |
| FiniteStacks.FiniteStack.Succ | util/FiniteStack.java:58-61 | the cell after i, wrapping round |
| FiniteStacks.FiniteStack.IsEmpty | util/FiniteStack.java:68-71 | true exactly when there are no elements |
| FiniteStacks.FiniteStack.Slots | util/FiniteStack.java:76-79 | the number of slots, one less than the cells |
| FiniteStacks.FiniteStack.Size | util/FiniteStack.java:84-90 | the index arithmetic gives the number of elements, never more than the slots |
| FiniteStacks.FiniteStack.IsFull | util/FiniteStack.java:95-98 | true exactly when the elements fill every slot |
| FiniteStacks.FiniteStack.Latest | util/FiniteStack.java:113-125 | the most recent element, or null when empty |
| FiniteStacks.FiniteStack.Oldest | util/FiniteStack.java:131-134 | the least recent element, or null when empty |
| FiniteStacks.FiniteStack.LatestIndex | util/FiniteStack.java:140-143 | -1 exactly when empty, otherwise the cell holding the most recent element |
| FiniteStacks.FiniteStack.OldestIndex | util/FiniteStack.java:149-152 | -1 exactly when empty, otherwise the cell holding the least recent element |
| FiniteStacks.FiniteStack.Get | util/FiniteStack.java:174-177 | the i-th element counting from the oldest |
| FiniteStacks.FiniteStack.Pop | util/FiniteStack.java:183-195 | removes and returns the most recent element; null and no change when empty |
| FiniteStacks.FiniteStack.Drop | util/FiniteStack.java:201-213 | removes and returns the oldest element; null and no change when empty |
| FiniteStacks.FiniteStack.Push | util/FiniteStack.java:220-233 | x becomes the most recent element; a full stack evicts and returns its oldest element, otherwise null is returned |
| FiniteStacks.FiniteStack.Flush | util/FiniteStack.java:103-107 | the stack becomes empty with its indices at 0 |
| FiniteStacks.FiniteStack.SetCapacity | util/FiniteStack.java:240-255 | the newest min(size, slots) elements are kept in order in a fresh buffer, and an empty stack stays empty |
| FiniteStacks.FiniteStack.CopyNewest | util/FiniteStack.java:244-248 | the copy loop puts the newest n elements, oldest first, at the start of a fresh buffer |
| FiniteStacks.FiniteStack.SetToSize | util/FiniteStack.java:261-265 | the elements are unchanged; a stack that is neither empty nor full gets exactly as many slots as elements |
| FiniteStacks.FiniteStack.TopDown | util/FiniteStack.java:293-313 | the iteration read correctly: the elements from the most recent down to the oldest |
| FiniteStacks.SetCapacityAsWritten | util/FiniteStack.java:250-254 | as written, the new latest index is one below the new free index, so it is -1 when nothing is kept |
| FiniteStacks.SetCapacityAsWrittenLosesEmptiness | util/FiniteStack.java:252-254 | on an empty stack, as written, latest and free differ, so `isEmpty` is false |
| FiniteStacks.IterateAsWritten | util/FiniteStack.java:293-313 | the iterator as written yields only values held in cells, at most one per step, and nothing when it starts at the free cell or a null cell |
| FiniteStacks.IterateAsWrittenYieldsEvicted | util/FiniteStack.java:297-300 | with two slots, push 1, 2, 3 and pop: the stack is [2], but the iterator as written yields [2, 1] |
| Queues.QueueElement.constructor | util/Queue.java:219-229 | a new element holds its object and no links |
| Queues.Queue.constructor | util/Queue.java:34-36 | an empty queue |
| Queues.Queue.Single | util/Queue.java:41-44 | a queue holding just the object |
| Queues.Queue.FromSeq | util/Queue.java:50-54 | the objects enqueued in index order, so the first is popped first |
| Queues.Queue.IsEmpty | util/Queue.java:69-72 | true exactly when there is no element |
| Queues.Queue.Size | util/Queue.java:77-80 | the number of elements |
| Queues.Queue.Push | util/Queue.java:93-101 | a fresh element holding x is linked in front of `newest`, so x is the last popped |
| Queues.Queue.Rush | util/Queue.java:106-114 | x becomes the next element popped |
| Queues.Queue.Pop | util/Queue.java:127-137 | returns the oldest object and removes it; EmptyQueueException on an empty queue |
| Queues.Queue.Chop | util/Queue.java:142-152 | returns the newest object and removes it; EmptyQueueException on an empty queue |
| Queues.Queue.Peek | util/Queue.java:166-172 | the oldest object, unchanged queue; EmptyQueueException when empty |
| Queues.Queue.Reverse | util/Queue.java:177-194 | the element order is reversed in place |
| Queues.Queue.SwapLinks | util/Queue.java:181-187 | the loop swaps each element's two links |
| Queues.Queue.InPopOrder | util/Queue.java:235-258 | the iterator yields the objects in popping order |
| Queues.Queue.PopAsWritten | util/Queue.java:127-137 | as written, `newest` stays on the removed element when the last element goes |
| Queues.PopAsWrittenLinksRemoved | util/Queue.java:133-135 | push x, pop, push a: the queue has one element, yet the new element is linked to the removed x |
| Queues.Queue.ChopAsWritten | util/Queue.java:142-152 | as written, `oldest` stays on the removed element when the last element goes |
| Queues.ChopAsWrittenLinksRemoved | util/Queue.java:106-114 | rush x, chop, rush a: the queue has one element, yet the new element is linked to the removed x |
| IntMaps.Masked | util/IntToIntMap.java:93 | `key & 0x7FFFFFFF` is the key itself when non-negative and the key plus 2^31 otherwise |
| IntMaps.Bucket | util/IntToIntMap.java:146 | the bucket index always lies in [0, length) |
| IntMaps.FindKey | util/IntToIntMap.java:91-100 | the position found holds the key |
| IntMaps.FindKeyFirst | util/IntToIntMap.java:91-100 | the walk reports -1 exactly when no entry has the key, and otherwise stops at the first one |
| IntMaps.TableLookup | util/IntToIntMap.java:144-153 | the bucket walk finds an entry for the key, holding its value, exactly when the key is mapped |
| IntMaps.TableEmpty | util/ToIntMap.java:163-168 | empty buckets represent the empty map |
| IntMaps.TableInsert | util/IntToIntMap.java:191-192 | linking an entry for a fresh key at its bucket's head adds that mapping |
| IntMaps.TableReplace | util/IntToIntMap.java:177-183 | overwriting an entry's value updates the map at that key |
| IntMaps.TableRemove | util/IntToIntMap.java:213-221 | unlinking an entry removes its key from the map |
| IntMaps.ChainRemove | util/IntToIntMap.java:213-221 | a chain without one entry keeps the others, with distinct keys, and no longer has that key |
| IntMaps.RemoveSize | util/IntToIntMap.java:206-228 | proof helper for `Remove`: taking a present key out of a map leaves one mapping fewer, which is why `_size` is decremented |
| IntMaps.RelinkedStart | util/ToIntMap.java:119-137 | a walk over the buckets starts with nothing seen |
| IntMaps.TableChain | util/ToIntMap.java:126-136 | each bucket holds exactly the keys of the map that hash there |
| IntMaps.RelinkedNext | util/ToIntMap.java:126-136 | walking past an entry adds it, and its key was not seen before |
| IntMaps.FindKeyExtend | util/ToIntMap.java:126-136 | a key is in a chain prefix one longer exactly when it is in the shorter prefix or is the new entry's key |
| IntMaps.RelinkedBucket | util/ToIntMap.java:126-136 | a fully walked bucket moves the walk to the next bucket |
| IntMaps.RelinkedEnd | util/ToIntMap.java:119-137 | a walk over all buckets has seen the whole map |
| IntMaps.EmptyUnion | util/IntToIntMap.java:64-68 | proof helper for `CopyOf`: the empty map merged with m is m, so including m into a new map copies it |
| IntMaps.UnionUpdate | util/ToIntMap.java:154-158 | proof helper for `PutChain`: updating a merge of two maps at a key is merging with the updated right operand |
| IntMaps.TableSubmap | util/ToIntMap.java:208-221 | if every entry is an entry of another map, the map is part of it |
| IntMaps.SubmapOfSameSize | util/ToIntMap.java:208-221 | a part of a map with the same size is the whole map |
| IntMaps.SetThreshold | util/ToIntMap.java:58-73 | IllegalArgumentException exactly for a negative capacity; otherwise 0 counts as 1 and the threshold is below the capacity |
| IntMaps.IntToIntMap.constructor | util/IntToIntMap.java:24-39 | an empty map with `_setThreshold`'s capacity and threshold |
| IntMaps.IntToIntMap.Create | util/IntToIntMap.java:24-39 | IllegalArgumentException exactly for a negative capacity, otherwise an empty map |
| IntMaps.IntToIntMap.CopyOf | util/IntToIntMap.java:64-68 | the copy holds the same mappings |
| IntMaps.IntToIntMap.Size | util/ToIntMap.java:78-81 | the number of mapped keys |
| IntMaps.IntToIntMap.IsEmpty | util/ToIntMap.java:86-89 | true exactly when no key is mapped |
| IntMaps.IntToIntMap.Find | util/IntToIntMap.java:91-100 | the key's bucket, and the key's entry in it exactly when the key is mapped |
| IntMaps.IntToIntMap.Get | util/IntToIntMap.java:144-153 | the key's value, or NOT_FOUND_VALUE when absent |
| IntMaps.IntToIntMap.ContainsKey | util/IntToIntMap.java:91-100 | true exactly when the key is mapped |
| IntMaps.IntToIntMap.ContainsEntry | util/IntToIntMap.java:118-128 | true exactly when the key is mapped to the value |
| IntMaps.IntToIntMap.ContainsValue | util/ToIntMap.java:97-105 | true exactly when some key maps to the value |
| IntMaps.IntToIntMap.Rehash | util/ToIntMap.java:119-137 | 2 * length + 1 buckets, the mapping unchanged |
| IntMaps.IntToIntMap.Relink | util/ToIntMap.java:126-136 | the relinking loops put every entry into a fresh table that represents the same map |
| IntMaps.IntToIntMap.Put | util/IntToIntMap.java:173-195 | the key maps to the value; the old value is returned for a present key, otherwise the value; the table grows only when inserting at the threshold |
| IntMaps.IntToIntMap.Link | util/IntToIntMap.java:191-192 | linking a fresh key's entry adds that mapping |
| IntMaps.IntToIntMap.Add | util/IntToIntMap.java:158-162 | n maps to the previous size, and that number is returned (the corrected `add`) |
| IntMaps.IntToIntMap.AddAsWritten | util/IntToIntMap.java:158-162 | as written, n maps to the previous size but the new size minus one is returned |
| IntMaps.IntToIntMap.Remove | util/IntToIntMap.java:206-228 | the key becomes unmapped; its old value is returned, or NOT_FOUND_VALUE when absent |
| IntMaps.IntToIntMap.Unlink | util/IntToIntMap.java:213-221 | unlinking removes that entry's key |
| IntMaps.IntToIntMap.Clear | util/ToIntMap.java:163-168 | every bucket is empty, and so is the map |
| IntMaps.IntToIntMap.Include | util/ToIntMap.java:154-158 | the map becomes its old mappings overridden by the other map's |
| IntMaps.IntToIntMap.PutBuckets | util/ToIntMap.java:154-158 | putting every entry of the buckets adds their map |
| IntMaps.IntToIntMap.PutChain | util/ToIntMap.java:154-158 | putting one bucket's entries advances the walk past that bucket |
| IntMaps.IntToIntMap.IsEqualTo | util/ToIntMap.java:208-221 | true exactly when both maps hold the same mappings |
| IntMaps.IntToIntMap.EntriesIn | util/ToIntMap.java:216-218 | true exactly when the other map contains every entry of the buckets |
| IntMaps.AddAsWrittenReturnsStaleNumber | util/IntToIntMap.java:158-162 | `add(5)` twice returns 0 twice, while 5 ends up mapped to 1 |
| Sets.Members | util/SetOf.java:251-262 | exactly the members below n, in strictly increasing order |
| Sets.Range | util/SetOf.java:289-298 | the indices below n |
| Sets.RangeSize | util/SetOf.java:289-298 | the full set has as many members as the base |
| Sets.OrXorIsMinus | util/SetOf.java:557-574 | `or` then `xor` with b removes b's members |
| Sets.XorRangeIsComplement | util/SetOf.java:594-599 | `xor` with the full range complements a set of base indices |
| Sets.SubsetSize | util/SetOf.java:648-651 | a subset is no larger, and a proper subset is smaller |
| Sets.MembersBound | util/SetOf.java:279-282 | a set of base indices has at most as many members as the base |
| Sets.SetOf.constructor | util/SetOf.java:97-104 | the empty subset of the base, with no cache |
| Sets.SetOf.Copy | util/SetOf.java:164-168 | the same members over the same base |
| Sets.SetOf.Size | util/SetOf.java:279-282 | the number of members, never more than the base, and 0 exactly when empty |
| Sets.SetOf.IsEmpty | util/SetOf.java:312-315 | true exactly when no base index is a member |
| Sets.SetOf.IsFull | util/SetOf.java:304-307 | true exactly when every base index is a member |
| Sets.SetOf.IndexOf | util/SetOf.java:322-328 | the first position of x in the base, or -1 exactly when absent |
| Sets.SetOf.Get | util/SetOf.java:382-399 | the base element at the index, or null exactly when it is out of range |
| Sets.SetOf.Contains | util/SetOf.java:617-620 | true exactly when the index is among the listed members |
| Sets.SetOf.ContainsObject | util/SetOf.java:626-629 | IndexOutOfBounds exactly when the object is not in the base, otherwise whether its first base index is a member |
| Sets.SetOf.IsSubsetOf | util/SetOf.java:636-641 | true exactly when every member is in the other set |
| Sets.SetOf.IsStrictSubsetOf | util/SetOf.java:648-651 | true exactly for a proper subset |
| Sets.SetOf.IsEqualTo | util/SetOf.java:657-660 | true exactly when each is a subset of the other |
| Sets.SetOf.Add | util/SetOf.java:335-350 | the index becomes a member, and the cache is dropped exactly when membership changes |
| Sets.SetOf.Remove | util/SetOf.java:406-421 | the index stops being a member, and the cache is dropped exactly when membership changes |
| Sets.SetOf.AddObject | util/SetOf.java:357-361 | the object's index becomes a member with the cache kept right; IndexOutOfBounds exactly when not in the base |
| Sets.SetOf.AddObjectAsWritten | util/SetOf.java:357-361 | as written, the bit is set but the cache is left untouched |
| Sets.SetOf.RemoveObject | util/SetOf.java:428-432 | the object's index stops being a member with the cache kept right; IndexOutOfBounds exactly when not in the base |
| Sets.SetOf.RemoveObjectAsWritten | util/SetOf.java:428-432 | as written, the bit is cleared but the cache is left untouched |
| Sets.SetOf.Union | util/SetOf.java:487-502 | the members become this ∪ other, and the cache is dropped exactly when members are added |
| Sets.SetOf.Intersection | util/SetOf.java:522-537 | the members become this ∩ other, and the cache is dropped exactly when members are removed |
| Sets.SetOf.Minus | util/SetOf.java:557-574 | the members become this ∖ other, and the cache is dropped exactly when the sets meet |
| Sets.SetOf.Not | util/SetOf.java:594-599 | membership is complemented relative to the base |
| Sets.SetOf.Top | util/SetOf.java:289-298 | a set holding every base index |
| Sets.SetOf.BuildIndices | util/SetOf.java:251-262 | for a non-empty set, the cache lists the members in increasing order |
| Sets.SetOf.ListMembers | util/SetOf.java:255-259 | the loop collects the members in increasing order |
| Sets.SetOf.GetIndices | util/SetOf.java:231-237 | the cache, built when absent: null only for an empty set with no cache, otherwise the sorted members |
| Sets.SetOf.FirstIndex | util/SetOf.java:452-464 | the smallest member, or -1 exactly when empty |
| Sets.SetOf.FirstElement | util/SetOf.java:470-474 | the base element of the smallest member, or null exactly when empty |
| Sets.SetOf.ToBitString | util/SetOf.java:712-718 | one character per base index: on for members, off for the others |
| Sets.AddTo | util/SetOf.java:370-375 | a new set, s with the index added |
| Sets.RemoveFrom | util/SetOf.java:441-446 | a new set, s without the index |
| Sets.UnionOf | util/SetOf.java:510-515 | a new set, the union |
| Sets.IntersectionOf | util/SetOf.java:545-550 | a new set, the intersection |
| Sets.MinusOf | util/SetOf.java:582-588 | a new set, the difference |
| Sets.NotOf | util/SetOf.java:606-611 | a new set, the complement relative to the base |
| Sets.AddObjectAsWrittenLeavesStaleIndices | util/SetOf.java:357-361 | over [10, 11], `add(11)` as written after building the cache leaves a member the cache omits, so the invariant breaks |
| Sets.RemoveObjectAsWrittenLeavesStaleIndices | util/SetOf.java:428-432 | `remove(10)` as written leaves a non-member in the cache |
| LinkedStacks.Cell.constructor | util/LinkedObjectStack.java:83-91 | a new cell holds its contents and no successor |
| LinkedStacks.LinkedStack.constructor | util/LinkedStack.java:24 | a new stack is empty |
| LinkedStacks.LinkedStack.Set | util/LinkedStack.java:27-30 | the given chain of cells becomes the stack |
| LinkedStacks.LinkedStack.Top | util/LinkedStack.java:32-35 | the top cell, through which the current stack can be restored; null exactly when empty |
| LinkedStacks.LinkedStack.TopAt | util/LinkedStack.java:37-53 | StackPeekException for a negative n, the n-th cell below the top, or EmptyStackException when there are at most n cells |
| LinkedStacks.LinkedStack.IsEmpty | util/LinkedStack.java:55-58 | true exactly when the stack has no element |
| LinkedStacks.LinkedStack.Clear | util/LinkedStack.java:60-63 | the stack becomes empty |
| LinkedStacks.LinkedStack.Push | util/LinkedObjectStack.java:21-26 | x goes on top, above the old cells |
| LinkedStacks.LinkedStack.Pop | util/LinkedObjectStack.java:28-37 | LIFO: the top is removed and returned; EmptyStackException when empty |
| LinkedStacks.LinkedStack.Peek | util/LinkedIntStack.java:37-43 | the top; EmptyStackException when empty |
| LinkedStacks.LinkedStack.PeekAt | util/LinkedObjectStack.java:47-63 | the n-th element from the top, with the errors of `top(n)` |
| LinkedStacks.LinkedStack.TopDown | util/LinkedIntStack.java:91-111 | the iterator yields the elements from the top down |
| LinkedStacks.SaveAndRestore | util/LinkedStack.java:27-35 | restoring a saved top undoes the pushes and pops in between |
| Tables.Lookup | util/Table.java:36-40 | `get` gives null when the key is absent, and otherwise the value paired with the key's first occurrence |
| Tables.LookupAppend | util/Table.java:38-39 | appending a pair never shadows an existing key, and makes a new key visible |
| Tables.Table.constructor | util/Table.java:18-28 | a new table is empty |
| Tables.Table.Create | util/Table.java:24-28 | NegativeArraySizeException exactly for a negative capacity, otherwise an empty table |
| Tables.Table.Put | util/Table.java:30-34 | appends the pair to the parallel key and value lists |
| Tables.Table.Get | util/Table.java:36-40 | the value paired with the first occurrence of the key, or null |
| Tables.Table.ValueList | util/Table.java:42-45 | the value list itself, in insertion order |
| Tables.Table.IsEmpty | util/Table.java:47-50 | true exactly when nothing has been put |
| Tables.PutTwice | util/Table.java:30-40 | putting a key a second time does not change what `get` answers for it |

## Left out

- Stacks.Stack.Pop: requires a non-empty stack. On an empty stack the source decrements `_size` to -1 before the index fault, leaving the stack broken.
- Stacks.IntStack.Pop: requires a non-empty stack, for the same reason (`elementCount` goes to -1).
- ArrayLists.ArrayList.Contains: the model skips null elements. The source calls `equals` on each slot, so a null slot met before a match throws NullPointerException.
- ArrayLists.ArrayList.IndexOf, ArrayLists.ArrayList.IndexOfFrom, ArrayLists.ArrayList.LastIndexOf, ArrayLists.ArrayList.LastIndexOfFrom and ArrayLists.ArrayList.Remove: null slots are skipped in the same way. `Table.get` inherits this through `indexOf`.
- ArrayLists.ArrayList.LastIndexOfFrom: requires `index < size`. The source reads whatever slot it is given, up to the buffer's end, and faults beyond it.
- ArrayLists.ArrayList.RemoveIndex and IntArrayLists.IntArrayList.RemoveIndex: require `index < size`. For an index between the size and the capacity, the source returns a stale slot and still decrements the size.
- ArrayLists.ArrayList.Insert and IntArrayLists.IntArrayList.Insert: require `index <= size`. For a larger index the source stores x past the end of the list and exposes the stale slots in between.
- IntArrayLists.IntArrayList.LastIndexOfBelow: requires `index <= count`. For a larger index the source reads stale slots.
- Sets.SetOf.Add and Sets.AddTo: require an index inside the base. `BitSet.set` accepts any non-negative index, and a member outside the base would count in `size()` without a base element.
- Sets.SetOf.Union and Sets.UnionOf: require both sets to share one base. The source ORs the bitsets whatever their bases, which over a shorter base would create members without a base element.
- IntMaps.IntToIntMap.Add and IntMaps.IntToIntMap.AddAsWritten: require `size <= MAX_INT`, so that the size fits in a Java int.
- IntMaps.IntToIntMap.Include: `m.include(m)` returns at once in the model. The source walks its own buckets and puts every entry back, which changes nothing because every key is already present.
- FiniteStacks.FiniteStack.Get: offsets at or beyond the size return whatever the cell holds; the contract says nothing about them. The offset is a `nat`: for a small negative i, Java's truncating `%` reads the cell before `oldest`, which is not modelled.
- LexLessIsFirstDifference: `Printing.LexLess` compares Dafny characters, which are Unicode scalar values. Java's `String.compareTo` compares UTF-16 code units, so names that mix characters above U+FFFF with characters in U+E000 to U+FFFF can order differently ("\u{1F600}" comes before "\uFFFD" in Java and after it in the model). The symbol swaps of Choice inherit this.
- ArrayLists.ArrayList.SetSizeAsWritten: takes n >= 0. For a negative n the source nulls every element and throws with `_size` left at -1, which a `nat` size cannot hold.
- IntArrayLists.IntArrayList.SetSize and IntArrayLists.SetSizeAsWritten: take n >= 0. As written, `setSize(-1)` leaves `elementCount` at -1 without an exception, which a `nat` count cannot hold.
- FiniteStacks.FiniteStack.Push: pushes a non-null element. `push(null)` stores null, which the model cannot represent because an empty cell is already `None`; a null element's effect on the iterator and on `latest()`/`oldest()` is not modelled.
- IntMaps.IntToIntMap.constructor: takes a `nat` capacity. The IllegalArgumentException for a negative capacity is stated by `IntMaps.IntToIntMap.Create`.
- ArrayLists.ArrayList.constructor, IntArrayLists.IntArrayList.constructor, Stacks.Stack.constructor, Stacks.IntStack.constructor and Tables.Table.constructor: take a `nat` capacity, because a Dafny constructor cannot return an error. The NegativeArraySizeException for a negative capacity is stated by the `Create` method beside each of them.
- FiniteStacks.FiniteStack.constructor and FiniteStacks.FiniteStack.SetCapacity: take a `nat` number of slots. A negative capacity is not handled.
- Sets.SetOf.Contains, Sets.SetOf.Remove, Sets.AddTo and Sets.RemoveFrom: take a `nat` index. A negative index, for which `BitSet` throws IndexOutOfBoundsException, is not modelled.
- IntMaps.SetThreshold: the threshold is `capacity * 3 / 4` in exact integers. The source computes `(int)(capacity * 0.75f)` in float, which rounds differently above 2^24: capacity 16777219 gives 12582915 in Java and 12582914 in the model.
- Load factors and increment factors are fixed at their defaults, 0.75 and 2.0. The float constructors and `setIncrementFactor` are not modelled.
- Capacity arithmetic overflow for huge buffers is not modelled.
- Entries of the hash table are values in per-bucket sequences, not linked `Entry` objects. `put(Entry)`, the key and value iterators and their order are not modelled.
- The int and object linked stacks are one generic class. `LinkedDoubleStack` and the other double-valued containers are not part of this model.
- `toString`, `hashCode`, `clone` and `toArray` of the containers are not modelled.
- The bulk operations `addAll`, `removeAll`, `removeAllFirst`, `retainAll` and `containsAll` are not modelled. Their index handling contradicts the sorted-input assumption of `removeAllIndices`.
- The SetOf singleton constructors are not modelled. They leave the base null.
- The shared `FULL_SET` of `SetOf.top()`, the indices of `Indexed` objects, and the set iterators (`SetIterator`, `SetEnumeration`, `SetIndices`) are not modelled. `getIndices` is modelled in their place.
- `enqueue` and `dequeue` are synonyms of `push` and `pop` and have no members of their own.
- `isValidIndex` is not modelled.
- Identity (`==`) on Java objects is modelled as value equality, so aliasing between distinct but equal objects is not captured.
- Table.Get: the key is never null in the model. The source's `indexOf(null)` would throw.
- The normaliser's rule tracing (`traceRule`, `trace`, `noTrace`, `toggleTrace`) writes to the error stream and does not affect results, so it is not modelled.
- `toNormalString`, `shallowCopy`/`deepCopy` and `normEquals` are not modelled.
- The private `concat(ArrayList)` and `reOccursIn` helpers are never called and are not modelled.
- `normalArg()` is not a member of its own. It is `NormalForm` applied to the argument, and `getArg()` is the `arg` field.
- The memo fields `_matchingPairCode` and `_matchingArgsCode` of RegExpTwo are not modelled. The model computes the same codes with `MatchingPairCode` and `MatchingArgsCode`.
- The PowerRange constructors' defaults (0..OMEGA, or OMEGA as the upper bound when one bound is given) and the setters of `_power`, `_lower` and `_upper` are not modelled. Nodes are built with all their bounds given.
- Normalizer.NormalForm: the chain of replacements is followed with a fuel bound. `None` means the chain was longer than the fuel; termination of the source's chaining is not proved.
- Normalizer.Step: rewrites only at the node itself, looking at its raw children, as the source does. Children are normalised only when a rule builds them into a replacement.

## Findings

| source | as written | input that shows it | evidently intended | confidence | as-written member | corrected member |
|---|---|---|---|---|---|---|
| util/ArrayList.java:685-693 | `ensureCapacity(_size++)` asks for room for the old size, so a full buffer is never grown | inserting into a full list stores into the slot past the buffer | `ensureCapacity(_size + 1)` before storing | high (not executed) | ArrayLists.InsertAsWrittenFailsWhenFull | ArrayLists.ArrayList.Insert |
| util/ArrayList.java:1072-1084 | only `gap` elements are copied down, and a `from` beyond the size makes `gap` negative | `removeRange(0, 1)` on [1, 2, 3, 4, 5] leaves [2, 2, 3, 4]; `removeRange(2, 3)` on [1] grows the list | every element after `to` moves down by `to - from` | high (not executed) | ArrayLists.RemoveRangeAsWrittenCounterexamples | ArrayLists.ArrayList.RemoveRange |
| util/IntArrayList.java:566-582 | the count is incremented before `ensureCapacity`, whose copy loop then reads one slot past the old buffer | `add(0, 5)` on the full list [7] | grow first, then insert, giving [5, 7] | high (not executed) | IntArrayLists.AsWrittenCounterexamples | IntArrayLists.IntArrayList.Insert |
| util/IntArrayList.java:206-209 | `ensureCapacity(elementCount = n)` sets the count before copying n elements out of the old buffer | `setSize(3)` on the full list [1, 2] | grow first, then set the count, giving [1, 2, 0] | high (not executed) | IntArrayLists.SetSizeAsWritten | IntArrayLists.IntArrayList.SetSize |
| util/IntArrayList.java:199-209 | no zeros are written when the buffer already has room, so the extension shows stale slots | add 1, add 2, `clear()`, `setSize(2)` gives [1, 2] | "new zeroes are added": [0, 0] | high (not executed) | IntArrayLists.SetSizeAfterClear | IntArrayLists.IntArrayList.SetSize |
| util/ArrayList.java:186-202 | the loop only shortens the list, so a larger size adds no nulls | `setSize(3)` on an empty list leaves it empty | "new nulls are added to the end": three nulls | high (not executed) | ArrayLists.SetSizeAsWrittenAddsNoNulls | ArrayLists.ArrayList.SetSize |
| util/FiniteStack.java:252-254 | on an empty stack `latest` becomes -1 while `free` is 0 | `setCapacity(5)` on an empty stack, then `isEmpty()` | an empty stack stays empty (`latest == free`) | high (not executed) | FiniteStacks.SetCapacityAsWrittenLosesEmptiness | FiniteStacks.FiniteStack.SetCapacity |
| util/FiniteStack.java:297-300 | the iterator stops only at the free cell or a null cell, so it can walk into evicted cells | with 2 slots: push 1, 2, 3, then pop; the iterator yields [2, 1] although the stack is [2] | yield exactly the elements, most recent first | medium (not executed) | FiniteStacks.IterateAsWrittenYieldsEvicted | FiniteStacks.FiniteStack.TopDown |
| util/Queue.java:133-135 | popping the last element leaves `newest` on the removed node | push x, pop, push a: the new node's `succ` is the removed x | clear `newest` when the queue becomes empty | high (not executed) | Queues.PopAsWrittenLinksRemoved | Queues.Queue.Pop |
| util/Queue.java:142-152 | chopping the last element leaves `oldest` on the removed node | rush x, chop, rush a: the new node's `pred` is the removed x | clear `oldest` when the queue becomes empty | high (not executed) | Queues.ChopAsWrittenLinksRemoved | Queues.Queue.Chop |
| util/SetOf.java:357-361 | `add(Object)` sets the bit without dropping the `indices` cache | over [10, 11], add index 0, build the cache, then `add(11)`: the cache misses index 1 | call `add(indexOf(object))`, which drops the cache | high (not executed) | Sets.AddObjectAsWrittenLeavesStaleIndices | Sets.SetOf.AddObject |
| util/SetOf.java:428-432 | `remove(Object)` clears the bit without dropping the `indices` cache | over [10, 11] with both members and the cache built, `remove(10)`: the cache still lists index 0 | call `remove(indexOf(object))` | high (not executed) | Sets.RemoveObjectAsWrittenLeavesStaleIndices | Sets.SetOf.RemoveObject |
| util/IntToIntMap.java:158-162 | `put(n, _size); return _size - 1;` returns the new size minus one, even when n was already mapped | `add(5)` twice on an empty map returns 0 both times, and 5 ends up mapped to 1 | return the number n is now mapped to | medium (not executed) | IntMaps.AddAsWrittenReturnsStaleNumber | IntMaps.IntToIntMap.Add |
