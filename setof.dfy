/**
 * util/SetOf.java: a subset of a fixed base list, kept as a bitset
 * over the base's indices. The bitset is a set of indices here; the
 * `indices` cache (null, or the sorted member indices) is an Option.
 */
module Sets {
  import opened Wrappers
  import opened Seqs

  /** The indices below n that are in c, in increasing order: what `buildIndices` lists. */
  function Members(c: set<nat>, n: nat): (r: seq<nat>)
    ensures forall k | 0 <= k < |r| :: r[k] in c && r[k] < n
    ensures forall i | i in c && i < n :: i in r
    ensures forall p, q | 0 <= p < q < |r| :: r[p] < r[q]
  {
    if n == 0 then [] else Members(c, n - 1) + (if n - 1 in c then [n - 1] else [])
  }

  /** The indices of a base of size n: the carrier of `top()`. */
  function Range(n: nat): (r: set<nat>)
    ensures forall i: nat :: i in r <==> i < n
  {
    if n == 0 then {} else Range(n - 1) + {n - 1}
  }

  /** `BitSet.xor`: the indices in exactly one of a and b. */
  function Xor(a: set<nat>, b: set<nat>): set<nat>
  {
    (a - b) + (b - a)
  }

  /** A range has as many indices as its bound. */
  lemma {:induction false} RangeSize(n: nat)
    ensures |Range(n)| == n
  {
    if n > 0 {
      RangeSize(n - 1);
      var r := Range(n - 1);
      assert n - 1 !in r;
      assert Range(n) == r + {n - 1};
      assert |r + {n - 1}| == |r| + 1;
    }
  }

  /** `or` then `xor` with b removes b's members: the bit trick of `minus`. */
  lemma OrXorIsMinus(a: set<nat>, b: set<nat>)
    ensures Xor(a + b, b) == a - b
  {
  }

  /** `xor` with the full range complements a set of base indices: the bit trick of `not`. */
  lemma XorRangeIsComplement(c: set<nat>, n: nat)
    requires forall i | i in c :: i < n
    ensures forall i: nat :: i in Xor(c, Range(n)) <==> i < n && i !in c
  {
  }

  /** A subset is no larger, and a proper subset is smaller. */
  lemma SubsetSize(a: set<nat>, b: set<nat>)
    requires a <= b
    ensures |a| <= |b|
    ensures a < b ==> |a| < |b|
  {
    assert b == a + (b - a);
    assert a * (b - a) == {};
    if a < b {
      var x :| x in b - a;
      assert |b - a| >= |{x}|;
    }
  }

  /** A set of base indices has at most as many members as the base. */
  lemma MembersBound(c: set<nat>, n: nat)
    requires forall i | i in c :: i < n
    ensures |c| <= n
  {
    assert c <= Range(n);
    SubsetSize(c, Range(n));
    RangeSize(n);
  }

  class SetOf<T(==)> {
    /** The base structure; the class requires it never to change. */
    const base: seq<T>
    var carrier: set<nat>
    var indices: Option<seq<nat>>

    /** The members are base indices, and a built cache lists exactly the members. */
    ghost predicate Valid()
      reads this
    {
      (forall i | i in carrier :: i < |base|)
      && (indices.Some? ==> indices.value == Members(carrier, |base|))
    }

    /** `SetOf(base)`: the empty subset of base. */
    constructor (base: seq<T>)
      ensures Valid() && this.base == base && carrier == {} && indices == None
    {
      this.base := base;
      carrier := {};
      indices := None;
    }

    /** `SetOf(set)`: a copy sharing the base, with its own carrier. */
    constructor Copy(s: SetOf<T>)
      requires s.Valid()
      ensures Valid() && base == s.base && carrier == s.carrier && indices == None
    {
      base := s.base;
      carrier := s.carrier;
      indices := None;
    }

    /** `size()`: the number of members, never more than the base holds. */
    function Size(): (n: nat)
      reads this
      requires Valid()
      ensures n == |carrier| && n <= |base|
      ensures n == 0 <==> carrier == {}
    {
      MembersBound(carrier, |base|);
      |carrier|
    }

    /** `isEmpty()`. */
    function IsEmpty(): (b: bool)
      reads this
      requires Valid()
      ensures b <==> forall i | 0 <= i < |base| :: i !in carrier
    {
      Size() == 0
    }

    /** `isFull()`: the carrier equals that of `top()`. */
    function IsFull(): (b: bool)
      reads this
      requires Valid()
      ensures b <==> forall i | 0 <= i < |base| :: i in carrier
    {
      carrier == Range(|base|)
    }

    /** `indexOf(object)` for objects that are not `Indexed`: the first position of x in the base, or -1. */
    function IndexOf(x: T): (i: int)
      ensures i == -1 <==> x !in base
      ensures i != -1 ==> 0 <= i < |base| && base[i] == x && x !in base[..i]
    {
      Seqs.FirstIndex(base, x, 0)
    }

    /** `get(index)`: the base element at index, or null when index is out of range. */
    function Get(index: int): (r: Option<T>)
      ensures r.Some? <==> 0 <= index < |base|
      ensures r.Some? ==> r.value == base[index]
    {
      if 0 <= index < |base| then Some(base[index]) else None
    }

    /** `contains(index)`. */
    function Contains(index: nat): (b: bool)
      reads this
      requires Valid()
      ensures b ==> index < |base|
      ensures b <==> index in Members(carrier, |base|)
    {
      index in carrier
    }

    /** `contains(object)`: IndexOutOfBoundsException when the object is not in the base. */
    function ContainsObject(x: T): (r: Result<bool>)
      reads this
      ensures r.Err? <==> x !in base
      ensures r.Err? ==> r.failure == IndexOutOfBounds
      ensures r.Ok? ==> (r.value <==> exists i | 0 <= i < |base| :: base[i] == x && i in carrier && x !in base[..i])
    {
      var i := IndexOf(x);
      if i == -1 then Err(IndexOutOfBounds) else Ok(i in carrier)
    }

    /** `isSubsetOf(other)`: the carrier equals its intersection with other's. */
    function IsSubsetOf(other: SetOf<T>): (b: bool)
      reads this, other
      ensures b <==> forall i | i in carrier :: i in other.carrier
    {
      carrier * other.carrier == carrier
    }

    /** `isStrictSubsetOf(other)`: a subset of a different size, that is, a proper subset. */
    function IsStrictSubsetOf(other: SetOf<T>): (b: bool)
      reads this, other
      ensures b <==> carrier < other.carrier
    {
      var sub := IsSubsetOf(other);
      if sub then
        assert carrier <= other.carrier;
        SubsetSize(carrier, other.carrier);
        assert carrier != other.carrier ==> |carrier| < |other.carrier|;
        assert carrier == other.carrier ==> |carrier| == |other.carrier|;
        |carrier| != |other.carrier|
      else
        assert !(carrier <= other.carrier);
        false
    }

    /** `isEqualTo(other)`: the same members. */
    function IsEqualTo(other: SetOf<T>): (b: bool)
      reads this, other
      ensures b <==> IsSubsetOf(other) && other.IsSubsetOf(this)
    {
      carrier == other.carrier
    }

    /** `add(index)`: the cache is dropped only when index was not a member. */
    method Add(index: nat)
      requires Valid() && index < |base|
      modifies this
      ensures Valid()
      ensures carrier == old(carrier) + {index}
      ensures indices == if old(indices).Some? && index !in old(carrier) then None else old(indices)
    {
      if indices == None {
        carrier := carrier + {index};
        return;
      }
      if index !in carrier {
        carrier := carrier + {index};
        indices := None;
      }
    }

    /** `remove(index)`: the cache is dropped only when index was a member. */
    method Remove(index: nat)
      requires Valid()
      modifies this
      ensures Valid()
      ensures carrier == old(carrier) - {index}
      ensures indices == if old(indices).Some? && index in old(carrier) then None else old(indices)
    {
      if indices == None {
        carrier := carrier - {index};
        return;
      }
      if index in carrier {
        carrier := carrier - {index};
        indices := None;
      }
    }

    /**
     * `add(object)` as corrected: `add(indexOf(object))`, so the cache is
     * kept right; IndexOutOfBoundsException when the object is not in the base.
     */
    method AddObject(x: T) returns (r: Result<()>)
      requires Valid()
      modifies this
      ensures Valid()
      ensures r.Err? <==> x !in base
      ensures r.Err? ==> r.failure == IndexOutOfBounds && carrier == old(carrier) && indices == old(indices)
      ensures r.Ok? ==> carrier == old(carrier) + {IndexOf(x)}
    {
      var i := IndexOf(x);
      if i == -1 {
        return Err(IndexOutOfBounds);
      }
      Add(i);
      return Ok(());
    }

    /** `add(object)` as written: sets the bit and leaves the cache as it was. */
    method AddObjectAsWritten(x: T) returns (r: Result<()>)
      modifies this
      ensures r.Err? <==> x !in base
      ensures r.Err? ==> carrier == old(carrier)
      ensures r.Ok? ==> carrier == old(carrier) + {IndexOf(x)}
      ensures indices == old(indices)
    {
      var i := IndexOf(x);
      if i == -1 {
        return Err(IndexOutOfBounds);
      }
      carrier := carrier + {i};
      return Ok(());
    }

    /**
     * `remove(object)` as corrected: `remove(indexOf(object))`;
     * IndexOutOfBoundsException when the object is not in the base.
     */
    method RemoveObject(x: T) returns (r: Result<()>)
      requires Valid()
      modifies this
      ensures Valid()
      ensures r.Err? <==> x !in base
      ensures r.Err? ==> r.failure == IndexOutOfBounds && carrier == old(carrier) && indices == old(indices)
      ensures r.Ok? ==> carrier == old(carrier) - {IndexOf(x)}
    {
      var i := IndexOf(x);
      if i == -1 {
        return Err(IndexOutOfBounds);
      }
      Remove(i);
      return Ok(());
    }

    /** `remove(object)` as written: clears the bit and leaves the cache as it was. */
    method RemoveObjectAsWritten(x: T) returns (r: Result<()>)
      modifies this
      ensures r.Err? <==> x !in base
      ensures r.Err? ==> carrier == old(carrier)
      ensures r.Ok? ==> carrier == old(carrier) - {IndexOf(x)}
      ensures indices == old(indices)
    {
      var i := IndexOf(x);
      if i == -1 {
        return Err(IndexOutOfBounds);
      }
      carrier := carrier - {i};
      return Ok(());
    }

    /** `union(other)` in place, for a set over the same base; the cache is dropped only when members are added. */
    method Union(other: SetOf<T>)
      requires Valid() && other.Valid() && other.base == base
      modifies this
      ensures Valid()
      ensures carrier == old(carrier) + old(other.carrier)
      ensures indices == if old(indices).Some? && !(old(other.carrier) <= old(carrier)) then None else old(indices)
    {
      if indices == None {
        carrier := carrier + other.carrier;
        return;
      }
      var sub := other.IsSubsetOf(this);
      if !sub {
        carrier := carrier + other.carrier;
        indices := None;
      }
    }

    /** `intersection(other)` in place; the cache is dropped only when members are removed. */
    method Intersection(other: SetOf<T>)
      requires Valid()
      modifies this
      ensures Valid()
      ensures carrier == old(carrier) * old(other.carrier)
      ensures indices == if old(indices).Some? && !(old(carrier) <= old(other.carrier)) then None else old(indices)
    {
      if indices == None {
        carrier := carrier * other.carrier;
        return;
      }
      var sub := IsSubsetOf(other);
      if !sub {
        carrier := carrier * other.carrier;
        indices := None;
      }
    }

    /**
     * `minus(other)` in place, as `or` then `xor` with other's carrier;
     * the cache is dropped only when the two sets meet.
     */
    method Minus(other: SetOf<T>)
      requires Valid()
      modifies this
      ensures Valid()
      ensures carrier == old(carrier) - old(other.carrier)
      ensures indices == if old(indices).Some? && old(carrier) * old(other.carrier) != {} then None else old(indices)
    {
      if indices == None {
        OrXorIsMinus(carrier, other.carrier);
        carrier := Xor(carrier + other.carrier, other.carrier);
        return;
      }
      if carrier * other.carrier != {} {
        OrXorIsMinus(carrier, other.carrier);
        carrier := Xor(carrier + other.carrier, other.carrier);
        indices := None;
      } else {
        forall i | i in carrier
          ensures i !in other.carrier
        {
          assert i !in carrier * other.carrier;
        }
        assert carrier - other.carrier == carrier;
      }
    }

    /** `not()`: the complement relative to the base, as `xor` with the carrier of `top()`. */
    method Not()
      requires Valid()
      modifies this
      ensures Valid() && indices == None
      ensures forall i: nat :: i in carrier <==> i < |base| && i !in old(carrier)
    {
      XorRangeIsComplement(carrier, |base|);
      carrier := Xor(carrier, Range(|base|));
      indices := None;
    }

    /** `top()`: the set of every base element (as a new set; the shared FULL_SET is not modelled). */
    method Top() returns (r: SetOf<T>)
      ensures fresh(r) && r.Valid() && r.base == base && r.indices == None
      ensures forall i: nat :: i in r.carrier <==> i < |base|
    {
      r := new SetOf(base);
      var i := 0;
      while i < |base|
        modifies r
        invariant 0 <= i <= |base|
        invariant r.Valid() && r.base == base && r.indices == None
        invariant forall j: nat :: j in r.carrier <==> j < i
      {
        r.carrier := r.carrier + {i};
        i := i + 1;
      }
    }

    /** `buildIndices()`: for a non-empty set, the member indices in increasing order. */
    method BuildIndices()
      requires Valid()
      modifies this
      ensures Valid() && carrier == old(carrier)
      ensures indices == if carrier == {} then old(indices) else Some(Members(carrier, |base|))
    {
      if carrier != {} {
        var found := ListMembers(carrier, |base|);
        indices := Some(found);
      }
    }

    /** The loop of `buildIndices`: the members of c below n, collected in increasing order. */
    static method ListMembers(c: set<nat>, n: nat) returns (found: seq<nat>)
      ensures found == Members(c, n)
    {
      found := [];
      var i := 0;
      while i < n
        invariant 0 <= i <= n && found == Members(c, i)
      {
        if i in c {
          found := found + [i];
        }
        i := i + 1;
      }
    }

    /** `getIndices()`: the cache, built first when absent; null for an empty set with no cache. */
    method GetIndices() returns (r: Option<seq<nat>>)
      requires Valid()
      modifies this
      ensures Valid() && carrier == old(carrier) && r == indices
      ensures r == None <==> carrier == {} && old(indices) == None
      ensures r.Some? ==> r.value == Members(carrier, |base|)
    {
      if indices == None {
        BuildIndices();
      }
      return indices;
    }

    /** `firstIndex()`: the smallest member, from the cache when it is built, or -1 for the empty set. */
    method FirstIndex() returns (r: int)
      requires Valid()
      ensures r == -1 <==> carrier == {}
      ensures r != -1 ==> r in carrier && forall i | i in carrier :: r <= i
    {
      if carrier != {} {
        if indices.Some? {
          var m :| m in carrier;
          assert m in indices.value;
          return indices.value[0];
        }
        var i := 0;
        while i < |base|
          invariant 0 <= i <= |base|
          invariant forall j | 0 <= j < i :: j !in carrier
        {
          if i in carrier {
            return i;
          }
          i := i + 1;
        }
        assert false;
      }
      return -1;
    }

    /** `firstElement()`: the base element of the smallest member, or null for the empty set. */
    method FirstElement() returns (r: Option<T>)
      requires Valid()
      ensures r.None? <==> carrier == {}
      ensures r.Some? ==> exists i | i in carrier :: r.value == base[i] && forall j | j in carrier :: i <= j
    {
      var i := FirstIndex();
      r := if i < 0 then None else Some(base[i]);
    }

    /** `toBitString(off, on)`: one character per base index, on for members and off for the others. */
    method ToBitString(off: char, on: char) returns (s: seq<char>)
      ensures |s| == |base|
      ensures forall i | 0 <= i < |base| :: s[i] == if i in carrier then on else off
    {
      s := [];
      var i := 0;
      while i < |base|
        invariant 0 <= i <= |base| && |s| == i
        invariant forall j | 0 <= j < i :: s[j] == if j in carrier then on else off
      {
        s := s + [if i in carrier then on else off];
        i := i + 1;
      }
    }
  }

  /** Static `add(s, index)`: a new set, s with index added; s is unchanged. */
  method AddTo<T>(s: SetOf<T>, index: nat) returns (r: SetOf<T>)
    requires s.Valid() && index < |s.base|
    ensures fresh(r) && r.Valid() && r.base == s.base
    ensures r.carrier == s.carrier + {index}
  {
    r := new SetOf.Copy(s);
    r.carrier := r.carrier + {index};
  }

  /** Static `remove(s, index)`: a new set, s without index. */
  method RemoveFrom<T>(s: SetOf<T>, index: nat) returns (r: SetOf<T>)
    requires s.Valid()
    ensures fresh(r) && r.Valid() && r.base == s.base
    ensures r.carrier == s.carrier - {index}
  {
    r := new SetOf.Copy(s);
    r.carrier := r.carrier - {index};
  }

  /** Static `union(s1, s2)` over one base. */
  method UnionOf<T>(s1: SetOf<T>, s2: SetOf<T>) returns (r: SetOf<T>)
    requires s1.Valid() && s2.Valid() && s2.base == s1.base
    ensures fresh(r) && r.Valid() && r.base == s1.base
    ensures r.carrier == s1.carrier + s2.carrier
  {
    r := new SetOf.Copy(s1);
    r.carrier := r.carrier + s2.carrier;
  }

  /** Static `intersection(s1, s2)`. */
  method IntersectionOf<T>(s1: SetOf<T>, s2: SetOf<T>) returns (r: SetOf<T>)
    requires s1.Valid()
    ensures fresh(r) && r.Valid() && r.base == s1.base
    ensures r.carrier == s1.carrier * s2.carrier
  {
    r := new SetOf.Copy(s1);
    r.carrier := r.carrier * s2.carrier;
  }

  /** Static `minus(s1, s2)`, as `or` then `xor`. */
  method MinusOf<T>(s1: SetOf<T>, s2: SetOf<T>) returns (r: SetOf<T>)
    requires s1.Valid()
    ensures fresh(r) && r.Valid() && r.base == s1.base
    ensures r.carrier == s1.carrier - s2.carrier
  {
    r := new SetOf.Copy(s1);
    OrXorIsMinus(r.carrier, s2.carrier);
    r.carrier := Xor(r.carrier + s2.carrier, s2.carrier);
  }

  /** Static `not(s)`: the complement of s relative to its base. */
  method NotOf<T>(s: SetOf<T>) returns (r: SetOf<T>)
    requires s.Valid()
    ensures fresh(r) && r.Valid() && r.base == s.base
    ensures forall i: nat :: i in r.carrier <==> i < |s.base| && i !in s.carrier
  {
    r := new SetOf.Copy(s);
    XorRangeIsComplement(r.carrier, |s.base|);
    r.carrier := Xor(r.carrier, Range(|s.base|));
  }

  /**
   * Over the base [10, 11]: add index 0 and build the cache, then
   * `add(11)` as written makes index 1 a member while the cache still
   * lists only index 0, so the set's iterators miss the new member.
   */
  method AddObjectAsWrittenLeavesStaleIndices() returns (s: SetOf<int>)
    ensures s.carrier == {0, 1} && s.indices.Some? && 1 !in s.indices.value
    ensures !s.Valid()
  {
    s := new SetOf([10, 11]);
    s.Add(0);
    assert s.carrier == {0} && |s.base| == 2;
    s.BuildIndices();
    assert s.IndexOf(11) == 1 by {
      assert s.base[0] != 11 && s.base[1] == 11;
    }
    var _ := s.AddObjectAsWritten(11);
    assert s.carrier == {0, 1};
    assert 1 in Members(s.carrier, |s.base|);
  }

  /**
   * Over the base [10, 11]: add both indices and build the cache, then
   * `remove(10)` as written drops index 0 while the cache still lists it.
   */
  method RemoveObjectAsWrittenLeavesStaleIndices() returns (s: SetOf<int>)
    ensures s.carrier == {1} && s.indices.Some? && 0 in s.indices.value
    ensures !s.Valid()
  {
    s := new SetOf([10, 11]);
    s.Add(0);
    s.Add(1);
    assert s.carrier == {0, 1} && |s.base| == 2;
    s.BuildIndices();
    assert 0 in s.indices.value;
    assert s.IndexOf(10) == 0 by {
      assert s.base[0] == 10;
    }
    var _ := s.RemoveObjectAsWritten(10);
    assert s.carrier == {1};
  }
}
