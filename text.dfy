/**
 * Printing of regular expressions (`toString` of every node class) and
 * the order `isLexLess` puts on printed forms, which is Java's
 * `String.compareTo(...) < 0`: lexicographic order on characters where
 * a proper prefix comes first.
 */
module Printing {
  import opened JavaInt
  import opened RegExps

  /** `a.compareTo(b) < 0`: at the first differing position a has the smaller character, or a is a proper prefix of b. */
  predicate LexLess(a: string, b: string): (r: bool)
    decreases |a|
    ensures r ==> a != b
    ensures a <= b ==> (r <==> |a| < |b|)
    ensures b <= a ==> !r
  {
    |b| > 0 && (|a| == 0 || a[0] < b[0] || (a[0] == b[0] && LexLess(a[1..], b[1..])))
  }

  /** LexLess is exactly "first difference in favour of a, or proper prefix". */
  lemma {:induction false} LexLessIsFirstDifference(a: string, b: string)
    ensures LexLess(a, b) <==>
      exists k :: 0 <= k <= |a| && k < |b| && a[..k] == b[..k] && (k == |a| || a[k] < b[k])
  {
    if |a| == 0 || |b| == 0 {
      if |a| == 0 && |b| > 0 {
        assert a[..0] == b[..0];
      }
    } else if a[0] != b[0] {
      if a[0] < b[0] {
        assert a[..0] == b[..0];
      }
      forall k | 0 < k <= |a| && k < |b|
        ensures a[..k] != b[..k]
      {
        assert a[..k][0] == a[0];
        assert b[..k][0] == b[0];
      }
    } else {
      LexLessIsFirstDifference(a[1..], b[1..]);
      if LexLess(a, b) {
        var k :| 0 <= k <= |a| - 1 && k < |b| - 1 && a[1..][..k] == b[1..][..k] && (k == |a| - 1 || a[1..][k] < b[1..][k]);
        assert a[..k + 1] == [a[0]] + a[1..][..k];
        assert b[..k + 1] == [b[0]] + b[1..][..k];
      } else {
        forall k | 0 <= k <= |a| && k < |b| && a[..k] == b[..k]
          ensures !(k == |a| || a[k] < b[k])
        {
          if k == 0 {
            assert !LexLess(a[1..], b[1..]);
            assert |a[1..]| > 0 || |b[1..]| == 0;
            assert a[0] == b[0];
          } else {
            assert a[1..][..k - 1] == a[..k][1..];
            assert b[1..][..k - 1] == b[..k][1..];
          }
        }
      }
    }
  }

  lemma {:induction false} LexLessIrreflexive(a: string)
    ensures !LexLess(a, a)
  {
    if |a| > 0 {
      LexLessIrreflexive(a[1..]);
    }
  }

  lemma {:induction false} LexLessAsymmetric(a: string, b: string)
    requires LexLess(a, b)
    ensures !LexLess(b, a)
  {
    if |a| > 0 && a[0] == b[0] {
      LexLessAsymmetric(a[1..], b[1..]);
    }
  }

  lemma {:induction false} LexLessTransitive(a: string, b: string, c: string)
    requires LexLess(a, b) && LexLess(b, c)
    ensures LexLess(a, c)
  {
    if |a| > 0 && a[0] == b[0] && b[0] == c[0] {
      LexLessTransitive(a[1..], b[1..], c[1..]);
    }
  }

  /** Two different strings are always ordered one way or the other. */
  lemma {:induction false} LexLessTotal(a: string, b: string)
    requires a != b
    ensures LexLess(a, b) || LexLess(b, a)
  {
    if |a| > 0 && |b| > 0 && a[0] == b[0] {
      assert a == [a[0]] + a[1..] && b == [b[0]] + b[1..];
      LexLessTotal(a[1..], b[1..]);
    }
  }

  /** The printed digits of a natural number, most significant first. */
  function NatToString(n: nat): (s: string)
    decreases n
  {
    if n < 10 then [Digit(n)] else NatToString(n / 10) + [Digit(n % 10)]
  }

  function Digit(d: nat): char
    requires d < 10
  {
    "0123456789"[d]
  }

  function DigitValue(c: char): nat {
    if '0' <= c <= '9' then (c as int) - ('0' as int) else 0
  }

  /** Reads back a string of decimal digits. */
  function ParseNat(s: string): nat
    decreases |s|
  {
    if |s| == 0 then 0 else 10 * ParseNat(s[..|s| - 1]) + DigitValue(s[|s| - 1])
  }

  /** `Integer.toString` of a Java int. */
  function IntToString(n: int32): string {
    if n < 0 then "-" + NatToString(-(n as int)) else NatToString(n)
  }

  function ParseInt(s: string): int {
    if |s| > 0 && s[0] == '-' then -(ParseNat(s[1..]) as int) else ParseNat(s)
  }

  lemma {:induction false} ParseNatToString(n: nat)
    ensures ParseNat(NatToString(n)) == n
    ensures |NatToString(n)| > 0 && NatToString(n)[0] != '-'
    decreases n
  {
    if n >= 10 {
      ParseNatToString(n / 10);
      var s := NatToString(n / 10) + [Digit(n % 10)];
      assert s[..|s| - 1] == NatToString(n / 10);
    }
  }

  /** Printed exponents and bounds read back to the same int. */
  lemma IntToStringRoundTrip(n: int32)
    ensures ParseInt(IntToString(n)) == n
  {
    if n < 0 {
      var m: nat := -(n as int);
      var t := NatToString(m);
      ParseNatToString(m);
      var s := "-" + t;
      assert IntToString(n) == s;
      assert |s| > 0 && s[0] == '-' && s[1..] == t;
    } else {
      ParseNatToString(n);
      assert IntToString(n) == NatToString(n as nat);
    }
  }

  /** A child printed inside a unary node is parenthesised when it is binary. */
  function Wrapped(x: RegExp): string
    decreases x, 1
  {
    if IsBinary(x) then "(" + ToString(x) + ")" else ToString(x)
  }

  /** `toString` of every node class. */
  function ToString(e: RegExp): (r: string)
    decreases e, 0
    ensures e.Optional? ==> |r| > 0 && r[|r| - 1] == '?'
    ensures e.Plus? ==> |r| > 0 && r[|r| - 1] == '+'
    ensures e.Star? ==> |r| > 0 && r[|r| - 1] == '*'
    ensures e.Range? && e.upper == OMEGA ==> |r| > 0 && r[|r| - 1] == '~'
  {
    match e
    case Empty => EMPTY_NAME
    case Symbol(p) => p.name
    case Optional(x) => Wrapped(x) + "?"
    case Plus(x) => Wrapped(x) + "+"
    case Star(x) => Wrapped(x) + "*"
    case Power(x, n) => Wrapped(x) + "^" + IntToString(n)
    case Range(x, m, n) => Wrapped(x) + "_" + IntToString(m) + (if n == OMEGA then "~" else "^" + IntToString(n))
    case Choice(l, r) => ToString(l) + " | " + ToString(r)
    case Concat(l, r) =>
      (if IsBinary(l) then "(" + ToString(l) + ")" else ToString(l)) + "."
      + (if r.Choice? then "(" + ToString(r) + ")" else ToString(r))
  }

  /** `isLexLess`: compares printed forms. */
  predicate IsLexLess(a: RegExp, b: RegExp) {
    LexLess(ToString(a), ToString(b))
  }

  /** On two symbols `isLexLess` is a strict total order of their names. */
  lemma SymbolOrder(a: RegExp, b: RegExp)
    requires a.Symbol? && b.Symbol?
    ensures !IsLexLess(a, a)
    ensures IsLexLess(a, b) ==> !IsLexLess(b, a)
    ensures Name(a) != Name(b) ==> IsLexLess(a, b) || IsLexLess(b, a)
  {
    LexLessIrreflexive(Name(a));
    if IsLexLess(a, b) {
      LexLessAsymmetric(Name(a), Name(b));
    }
    if Name(a) != Name(b) {
      LexLessTotal(Name(a), Name(b));
    }
  }

  /** `toString` prints EMPTY as "()", a symbol as its name, and a PowerRange with an OMEGA upper bound with a trailing "~". */
  lemma PrintedForms(p: Payload, x: RegExp, m: int32)
    ensures ToString(Empty) == "()" && ToString(Symbol(p)) == p.name
    ensures ToString(Range(x, m, OMEGA)) == Wrapped(x) + "_" + IntToString(m) + "~"
    ensures ToString(Optional(Concat(x, x)))[0] == '('
  {
  }
}
