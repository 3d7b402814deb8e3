/**
 * util/FiniteStack.java: a stack of bounded depth kept in a circular
 * buffer. `capacity` counts the slots plus one free cell; the live
 * elements run from `oldest` up to `latest` (wrapping round), `free` is
 * the cell after `latest`, and pushing onto a full stack evicts the
 * oldest element.
 */
module FiniteStacks {
  import opened Wrappers
  import opened Seqs

  /** The index k places after i in a ring of n cells, for k < n. */
  function Advance(i: int, k: int, n: int): int {
    if i + k < n then i + k else i + k - n
  }

  /** Java's `(i + k) % n` for an index i < n and 0 <= k < n is `Advance(i, k, n)`. */
  lemma ModIsAdvance(i: int, k: int, n: int)
    requires 0 <= i < n && 0 <= k < n
    ensures (i + k) % n == Advance(i, k, n)
  {
    var q, r := (i + k) / n, (i + k) % n;
    assert i + k == q * n + r && 0 <= r < n;
    assert q == 0 || q == 1;
  }

  /** Java's `(i + 1) % n` for an index i < n, n = 1 included. */
  lemma ModIsSucc(i: int, n: int)
    requires 0 <= i < n
    ensures (i + 1) % n == Advance(i, 1 % n, n)
  {
    if n > 1 {
      ModIsAdvance(i, 1, n);
    }
  }

  /** Distinct offsets below n land on distinct cells. */
  lemma AdvanceInjective(i: int, k1: int, k2: int, n: int)
    requires 0 <= i < n && 0 <= k1 < n && 0 <= k2 < n && k1 != k2
    ensures Advance(i, k1, n) != Advance(i, k2, n)
  {
  }

  /** The cells from `oldest` onwards, round the ring, hold `elems` in order. */
  ghost predicate Ring<T>(cells: seq<Option<T>>, oldest: int, elems: seq<T>)
  {
    0 <= oldest < |cells| && |elems| <= |cells|
    && forall k | 0 <= k < |elems| :: cells[Advance(oldest, k, |cells|)] == Some(elems[k])
  }

  /** Writing x into the cell after the last element appends x. */
  lemma RingAppend<T>(cells: seq<Option<T>>, oldest: int, elems: seq<T>, x: T)
    requires Ring(cells, oldest, elems) && |elems| < |cells|
    ensures Ring(cells[Advance(oldest, |elems|, |cells|) := Some(x)], oldest, elems + [x])
  {
    var cells' := cells[Advance(oldest, |elems|, |cells|) := Some(x)];
    forall k | 0 <= k < |elems|
      ensures cells'[Advance(oldest, k, |cells|)] == Some(elems[k])
    {
      AdvanceInjective(oldest, k, |elems|, |cells|);
    }
  }

  /** Clearing the oldest cell and stepping past it drops the first element. */
  lemma RingDropFirst<T>(cells: seq<Option<T>>, oldest: int, elems: seq<T>)
    requires Ring(cells, oldest, elems) && |elems| >= 1
    ensures Ring(cells[oldest := None], Advance(oldest, 1 % |cells|, |cells|), elems[1..])
    ensures Ring(cells, Advance(oldest, 1 % |cells|, |cells|), elems[1..])
  {
    var n := |cells|;
    if n > 1 {
      assert 1 % n == 1;
      var next := Advance(oldest, 1, n);
      forall k | 0 <= k < |elems| - 1
        ensures Advance(next, k, n) == Advance(oldest, k + 1, n) != oldest
      {
        AdvanceTwice(oldest, k, n);
        AdvanceInjective(oldest, 0, k + 1, n);
      }
    }
  }

  /** One step back round the ring from m steps is m - 1 steps. */
  lemma AdvanceBack(i: int, m: int, n: int)
    requires 0 <= i < n && 1 <= m < n
    ensures (if Advance(i, m, n) == 0 then n - 1 else Advance(i, m, n) - 1) == Advance(i, m - 1, n)
  {
  }

  /** One step round the ring and then k more is k + 1 steps. */
  lemma AdvanceTwice(i: int, k: int, n: int)
    requires 0 <= i < n && 0 <= k && k + 1 < n
    ensures Advance(Advance(i, 1, n), k, n) == Advance(i, k + 1, n)
  {
  }

  /** Clearing the latest cell drops the last element. */
  lemma RingDropLast<T>(cells: seq<Option<T>>, oldest: int, elems: seq<T>)
    requires Ring(cells, oldest, elems) && |elems| >= 1
    ensures Ring(cells[Advance(oldest, |elems| - 1, |cells|) := None], oldest, elems[..|elems| - 1])
  {
    forall k | 0 <= k < |elems| - 1
      ensures Advance(oldest, k, |cells|) != Advance(oldest, |elems| - 1, |cells|)
    {
      AdvanceInjective(oldest, k, |elems| - 1, |cells|);
    }
  }

  /**
   * The shape of a stack's buffer: one cell more than the slots, the free
   * cell right after `latest`, and `latest == free` exactly when empty.
   */
  ghost predicate Layout<T>(cells: seq<Option<T>>, free: int, latest: int, oldest: int, elems: seq<T>)
  {
    var capacity := |cells|;
    capacity >= 1
    && 0 <= free < capacity && 0 <= latest < capacity
    && |elems| < capacity
    && (elems == [] <==> latest == free)
    && (elems == [] ==> oldest == free)
    && (elems != [] ==>
          latest == Advance(oldest, |elems| - 1, capacity) && free == Advance(latest, 1, capacity))
    && Ring(cells, oldest, elems)
  }

  /** Elements packed from cell 0 of a ring with room to spare are laid out with `oldest` at 0. */
  lemma LayoutPacked<T>(cells: seq<Option<T>>, elems: seq<T>)
    requires |elems| < |cells|
    requires forall k | 0 <= k < |elems| :: cells[k] == Some(elems[k])
    ensures Layout(cells, |elems|, if elems == [] then 0 else |elems| - 1, 0, elems)
  {
  }

  /** Pushing onto a ring with a spare cell: x goes into the free cell and is appended. */
  lemma LayoutAppend<T>(cells: seq<Option<T>>, free: int, latest: int, oldest: int, elems: seq<T>, x: T)
    requires Layout(cells, free, latest, oldest, elems) && |elems| < |cells| - 1
    ensures Layout(cells[free := Some(x)], Advance(free, 1, |cells|), free, oldest, elems + [x])
  {
    var n := |cells|;
    assert free == Advance(oldest, |elems|, n);
    RingAppend(cells, oldest, elems, x);
  }

  /** Pushing onto a full ring of two or more cells: x overwrites the free cell and the oldest element is dropped. */
  lemma LayoutAppendFull<T>(cells: seq<Option<T>>, free: int, latest: int, oldest: int, elems: seq<T>, x: T)
    requires Layout(cells, free, latest, oldest, elems) && |elems| == |cells| - 1 && |cells| > 1
    ensures Layout(cells[free := Some(x)], Advance(free, 1, |cells|), free,
                   Advance(oldest, 1, |cells|), (elems + [x])[1..])
  {
    var n := |cells|;
    assert 1 % n == 1;
    assert free == Advance(oldest, n - 1, n);
    RingAppend(cells, oldest, elems, x);
    RingDropFirst(cells[free := Some(x)], oldest, elems + [x]);
    var oldest' := Advance(oldest, 1, n);
    var elems' := (elems + [x])[1..];
    assert |elems'| == n - 1;
    assert free == Advance(oldest', |elems'| - 1, n);
    assert Advance(free, 1, n) == oldest;
    assert Ring(cells[free := Some(x)], oldest', elems');
  }

  /**
   * `push` on the buffer: writing x into the free cell and stepping
   * `free` (and, when the ring is full, `oldest`) appends x, dropping
   * the oldest element of a full ring.
   */
  lemma LayoutPush<T>(cells: seq<Option<T>>, free: int, latest: int, oldest: int, elems: seq<T>, x: T)
    requires Layout(cells, free, latest, oldest, elems)
    ensures var n := |cells|;
      var full := |elems| == n - 1;
      Layout(cells[free := Some(x)], Advance(free, 1 % n, n), free,
             if full then Advance(oldest, 1 % n, n) else oldest,
             if n == 1 then [] else if full then (elems + [x])[1..] else elems + [x])
  {
    var n := |cells|;
    if n == 1 {
      assert 1 % n == 0;
    } else {
      assert 1 % n == 1;
      if |elems| == n - 1 {
        LayoutAppendFull(cells, free, latest, oldest, elems, x);
      } else {
        LayoutAppend(cells, free, latest, oldest, elems, x);
      }
    }
  }

  class FiniteStack<T> {
    /** `container`. */
    var container: array<Option<T>>
    /** `capacity`: the number of slots plus one for the free cell. */
    var capacity: int
    var free: int
    var latest: int
    var oldest: int
    /** The stack from oldest to latest. */
    ghost var elements: seq<T>

    ghost predicate Valid()
      reads this, container
    {
      capacity == container.Length && Layout(container[..], free, latest, oldest, elements)
    }

    /** `FiniteStack(slots)`; `FiniteStack()` has 20 slots. */
    constructor (slots: nat)
      ensures Valid() && fresh(container)
      ensures elements == [] && capacity == slots + 1 && free == 0 && latest == 0 && oldest == 0
      ensures forall i | 0 <= i < container.Length :: container[i] == None
    {
      container := new Option<T>[slots + 1](_ => None);
      capacity := slots + 1;
      free, latest, oldest := 0, 0, 0;
      elements := [];
    }

    /** `prec(i)`: the cell before i. */
    function Prec(i: int): (p: int)
      reads this
      requires 1 <= capacity && 0 <= i < capacity
      ensures p == if i == 0 then capacity - 1 else i - 1
    {
      ModIsAdvance(i, capacity - 1, capacity);
      (i + capacity - 1) % capacity
    }

    /** `succ(i)`: the cell after i. */
    function Succ(i: int): (s: int)
      reads this
      requires 1 <= capacity && 0 <= i < capacity
      ensures s == Advance(i, 1 % capacity, capacity)
      ensures capacity > 1 ==> s == Advance(i, 1, capacity)
    {
      ModIsSucc(i, capacity);
      (i + 1) % capacity
    }

    /** `isEmpty()`. */
    function IsEmpty(): (b: bool)
      reads this, container
      requires Valid()
      ensures b <==> elements == []
    {
      latest == free
    }

    /** `capacity()`: the number of slots. */
    function Slots(): (n: int)
      reads this
      ensures n == capacity - 1
    {
      capacity - 1
    }

    /** `size()`: computed from the three indices, it is the number of elements. */
    function Size(): (n: int)
      reads this, container
      requires Valid()
      ensures n == |elements| && n <= Slots()
    {
      if IsEmpty() then 0
      else
        var size := latest - oldest + 1;
        if size >= 0 then size else capacity + size
    }

    /** `isFull()`: the free cell is just before the oldest element. */
    function IsFull(): (b: bool)
      reads this, container
      requires Valid()
      ensures b <==> |elements| == Slots()
    {
      free == Prec(oldest)
    }

    /** `peek()` and `latest()`: the most recent element, or null. */
    function Latest(): (r: Option<T>)
      reads this, container
      requires Valid()
      ensures r == if elements == [] then None else Some(elements[|elements| - 1])
    {
      if IsEmpty() then None else container[latest]
    }

    /** `oldest()`: the least recent element, or null. */
    function Oldest(): (r: Option<T>)
      reads this, container
      requires Valid()
      ensures r == if elements == [] then None else Some(elements[0])
    {
      if IsEmpty() then None else container[oldest]
    }

    /** `latestIndex()`: the cell of the most recent element, or -1 when empty. */
    function LatestIndex(): (r: int)
      reads this, container
      requires Valid()
      ensures r == -1 <==> elements == []
      ensures r != -1 ==> 0 <= r < container.Length && container[r] == Some(elements[|elements| - 1])
    {
      if IsEmpty() then -1 else latest
    }

    /** `oldestIndex()`: the cell of the least recent element, or -1 when empty. */
    function OldestIndex(): (r: int)
      reads this, container
      requires Valid()
      ensures r == -1 <==> elements == []
      ensures r != -1 ==> 0 <= r < container.Length && container[r] == Some(elements[0])
    {
      if IsEmpty() then -1 else oldest
    }

    /** `get(i)`: the i-th element counting from the oldest; other offsets read whatever their cell holds. */
    function Get(i: nat): (r: Option<T>)
      reads this, container
      requires Valid()
      ensures i < |elements| ==> r == Some(elements[i])
    {
      if i < capacity then ModIsAdvance(oldest, i, capacity); container[(oldest + i) % capacity]
      else container[(oldest + i) % capacity]
    }

    /** `pop()`: removes and returns the most recent element, or returns null when empty. */
    method Pop() returns (r: Option<T>)
      requires Valid()
      modifies this, container
      ensures Valid() && container == old(container) && capacity == old(capacity)
      ensures old(elements) == [] ==> r == None && elements == [] && unchanged(this) && unchanged(container)
      ensures old(elements) != [] ==>
        r == Some(old(elements)[|old(elements)| - 1]) && elements == old(elements)[..|old(elements)| - 1]
        && container[..] == old(container[..])[old(latest) := None]
        && free == old(latest) && oldest == old(oldest)
    {
      if latest == free {
        return None;
      }
      RingDropLast(container[..], oldest, elements);
      r := container[latest];
      container[latest] := None;
      free := latest;
      if latest != oldest {
        latest := Prec(latest);
      }
      elements := elements[..|elements| - 1];
    }

    /** `drop()`: removes and returns the oldest element, or returns null when empty. */
    method Drop() returns (r: Option<T>)
      requires Valid()
      modifies this, container
      ensures Valid() && container == old(container) && capacity == old(capacity)
      ensures old(elements) == [] ==> r == None && elements == [] && unchanged(this) && unchanged(container)
      ensures old(elements) != [] ==> r == Some(old(elements)[0]) && elements == old(elements)[1..]
    {
      if latest == free {
        return None;
      }
      RingDropFirst(container[..], oldest, elements);
      r := container[oldest];
      container[oldest] := None;
      if oldest == latest {
        free := oldest;
      } else {
        oldest := Succ(oldest);
      }
      elements := elements[1..];
    }

    /**
     * `push(x)`: x becomes the most recent element. On a full stack the
     * oldest element is evicted and returned (on a stack with no slots
     * that is whatever the single cell last held); otherwise null.
     */
    method Push(x: T) returns (spill: Option<T>)
      requires Valid()
      modifies this, container
      ensures Valid() && container == old(container) && capacity == old(capacity)
      ensures container[..] == old(container[..])[old(free) := Some(x)]
      ensures latest == old(free) && free == Succ(old(free))
      ensures old(|elements|) == capacity - 1 ==> oldest == Succ(old(oldest))
      ensures old(|elements|) < capacity - 1 ==> oldest == old(oldest)
      ensures |old(elements)| < capacity - 1 ==> spill == None && elements == old(elements) + [x]
      ensures |old(elements)| == capacity - 1 ==> elements == (old(elements) + [x])[1..]
      ensures |old(elements)| == capacity - 1 ==>
        spill == if old(elements) == [] then old(container[oldest]) else Some(old(elements)[0])
    {
      ghost var full := IsFull();
      ghost var cells := container[..];
      LayoutPush(cells, free, latest, oldest, elements, x);
      spill := None;
      if free == Prec(oldest) {
        spill := container[oldest];
        oldest := Succ(oldest);
      }
      latest := free;
      container[latest] := Some(x);
      assert container[..] == cells[latest := Some(x)];
      free := Succ(free);
      elements := if capacity == 1 then [] else if full then (elements + [x])[1..] else elements + [x];
    }

    /** `flush()`: pops everything and resets the indices to 0. */
    method Flush()
      requires Valid()
      modifies this, container
      ensures Valid() && container == old(container) && capacity == old(capacity)
      ensures elements == [] && free == 0 && latest == 0 && oldest == 0
    {
      while latest != free
        invariant Valid() && container == old(container) && capacity == old(capacity)
        decreases |elements|
      {
        var _ := Pop();
      }
      oldest, latest, free := 0, 0, 0;
    }

    /**
     * `setCapacity(slots)` with the empty case handled: moves the newest
     * min(size, slots) elements, oldest first, to the start of a fresh
     * buffer. See `SetCapacityAsWritten` for the code as written.
     */
    method SetCapacity(slots: nat)
      requires Valid()
      modifies this
      ensures Valid() && fresh(container)
      ensures capacity == slots + 1
      ensures elements == old(elements)[|old(elements)| - (if |old(elements)| < slots then |old(elements)| else slots)..]
    {
      var n := if Size() < slots then Size() else slots;
      ghost var kept := elements[|elements| - n..];
      var moved := CopyNewest(n, slots, kept);
      container := moved;
      capacity := slots + 1;
      oldest := 0;
      latest := if n == 0 then 0 else n - 1;
      free := n;
      elements := kept;
      forall k | 0 <= k < n
        ensures container[..][k] == Some(kept[k])
      {
      }
      LayoutPacked(container[..], kept);
    }

    /** The copying loop of `setCapacity`: the newest n elements, oldest first, at the start of a fresh buffer. */
    method CopyNewest(n: nat, slots: nat, ghost kept: seq<T>) returns (moved: array<Option<T>>)
      requires Valid() && n <= |elements| && n <= slots && kept == elements[|elements| - n..]
      ensures fresh(moved) && moved.Length == slots + 1
      ensures forall k | 0 <= k < |kept| :: moved[k] == Some(kept[k])
    {
      moved := new Option<T>[slots + 1](_ => None);
      ghost var s := |elements|;
      var j := latest;
      var i := n - 1;
      while i >= 0
        invariant -1 <= i < n
        invariant i >= 0 ==> j == Advance(oldest, s - n + i, capacity)
        invariant forall k | i < k < n :: moved[k] == Some(kept[k])
      {
        assert kept[i] == elements[s - n + i];
        assert container[..][j] == Some(kept[i]);
        moved[i] := container[j];
        if i > 0 {
          AdvanceBack(oldest, s - n + i, capacity);
        }
        j := Prec(j);
        i := i - 1;
      }
    }

    /** `setToSize()`: shrinks a stack that is neither empty nor full to exactly its elements. */
    method SetToSize()
      requires Valid()
      modifies this
      ensures Valid() && elements == old(elements)
      ensures old(IsEmpty()) || old(IsFull()) ==> capacity == old(capacity)
      ensures !old(IsEmpty()) && !old(IsFull()) ==> Slots() == |elements|
    {
      if IsEmpty() || IsFull() {
        return;
      }
      SetCapacity(Size());
    }

    /** The iterator read correctly: the elements from the most recent down to the oldest. */
    method TopDown() returns (visited: seq<T>)
      requires Valid()
      ensures visited == Reverse(elements)
    {
      visited := [];
      var nextIndex := latest;
      var k := Size();
      while k > 0
        invariant 0 <= k <= |elements|
        invariant k > 0 ==> nextIndex == Advance(oldest, k - 1, capacity)
        invariant |visited| == |elements| - k
        invariant forall j | 0 <= j < |visited| :: visited[j] == elements[|elements| - 1 - j]
      {
        visited := visited + [container[nextIndex].value];
        nextIndex := Prec(nextIndex);
        k := k - 1;
      }
    }
  }

  /**
   * `setCapacity(slots)` exactly as written, on its index arithmetic: the
   * new (oldest, latest, free) for a stack of the given size. When no
   * element is kept, latest is -1 while free is 0.
   */
  function SetCapacityAsWritten(size: nat, slots: nat): (r: (int, int, int))
    ensures r.0 == 0 && r.2 == (if size < slots then size else slots) && r.1 == r.2 - 1
  {
    var n := if size < slots then size else slots;
    (0, n - 1, n)
  }

  /**
   * After `setCapacity` on an empty stack, `isEmpty()` (latest == free) is
   * false, so `peek()` and `pop()` read cell -1 and throw.
   */
  lemma SetCapacityAsWrittenLosesEmptiness(slots: nat)
    ensures SetCapacityAsWritten(0, slots).1 == -1
    ensures SetCapacityAsWritten(0, slots).1 != SetCapacityAsWritten(0, slots).2
  {
  }

  /**
   * The iterator exactly as written: from `latest` it walks down the ring
   * and stops at the free cell or at a null cell, reading at most `n`
   * cells.
   */
  function IterateAsWritten<T>(cells: seq<Option<T>>, next: int, free: int, n: nat): (r: seq<T>)
    requires 0 <= next < |cells|
    decreases n
    ensures |r| <= n
    ensures forall i | 0 <= i < |r| :: Some(r[i]) in cells
    ensures cells[next].None? || next == free ==> r == []
  {
    if n == 0 || next == free || cells[next].None? then []
    else [cells[next].value] + IterateAsWritten(cells, if next == 0 then |cells| - 1 else next - 1, free, n - 1)
  }

  /**
   * With two slots, pushing 1, 2 and 3 evicts 1 into the cell that then
   * becomes free; popping 3 moves the free cell away and leaves 1 in a
   * cell the iterator reads, so it yields [2, 1] although the stack is [2].
   */
  method IterateAsWrittenYieldsEvicted() returns (s: FiniteStack<int>, visited: seq<int>)
    ensures s.Valid() && s.elements == [2]
    ensures visited == [2, 1]
  {
    s := new FiniteStack(2);
    assert s.container[..] == [None, None, None];
    var _ := s.Push(1);
    assert s.container[..] == [Some(1), None, None] && s.free == 1;
    var _ := s.Push(2);
    assert s.container[..] == [Some(1), Some(2), None] && s.free == 2 && s.oldest == 0;
    var spilled := s.Push(3);
    assert spilled == Some(1);
    assert s.container[..] == [Some(1), Some(2), Some(3)] && s.free == 0 && s.latest == 2;
    var _ := s.Pop();
    assert s.container[..] == [Some(1), Some(2), None] && s.latest == 1 && s.free == 2;
    visited := IterateAsWritten(s.container[..], s.latest, s.free, s.capacity);
  }
}
