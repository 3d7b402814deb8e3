/**
 * util/IntArrayList.java: a growable buffer of Java ints. The list is
 * the first `elementCount` slots of `elementData`. Unlike ArrayList,
 * `ensureCapacity` copies only the list (the new slots are 0), `set`
 * never changes the count, and `lastIndexOf(x, index)` searches strictly
 * below index.
 */
module IntArrayLists {
  import opened Wrappers
  import opened JavaInt
  import opened Seqs
  import Capacity

  class IntArrayList {
    /** `elementData`. */
    var data: array<int32>
    /** `elementCount`. */
    var count: nat
    /** `capacityIncrement`. */
    var increment: int

    ghost predicate Valid()
      reads this
    {
      count <= data.Length
    }

    /** The list's elements, in index order. */
    ghost function Elements(): seq<int32>
      reads this, data
      requires Valid()
    {
      data[..count]
    }

    /** `IntArrayList(initialCapacity, capacityIncrement)`; the no-argument form uses capacity 10 and increment 0. */
    constructor (initialCapacity: nat, increment: int)
      ensures Valid() && fresh(data)
      ensures Elements() == [] && data.Length == initialCapacity && this.increment == increment
    {
      data := new int32[initialCapacity](_ => 0);
      count := 0;
      this.increment := increment;
    }

    /** `new IntArrayList(initialCapacity, capacityIncrement)` for any int capacity: a negative one throws NegativeArraySizeException. */
    static method Create(initialCapacity: int, increment: int) returns (r: Result<IntArrayList>)
      ensures r.Err? <==> initialCapacity < 0
      ensures r.Err? ==> r.failure == NegativeArraySize
      ensures r.Ok? ==> fresh(r.value) && fresh(r.value.data) && r.value.Valid()
      ensures r.Ok? ==> r.value.Elements() == [] && r.value.data.Length == initialCapacity && r.value.increment == increment
    {
      if initialCapacity < 0 {
        return Err(NegativeArraySize);
      }
      var created := new IntArrayList(initialCapacity, increment);
      return Ok(created);
    }

    /** Copies the list into a fresh buffer of the given capacity whose other slots are 0. */
    method MoveTo(capacity: nat)
      requires Valid() && count <= capacity
      modifies this
      ensures Valid() && fresh(data) && count == old(count) && increment == old(increment)
      ensures data.Length == capacity
      ensures Elements() == old(Elements())
      ensures forall j | count <= j < capacity :: data[j] == 0
    {
      var moved := new int32[capacity](_ => 0);
      var i := 0;
      while i < count
        invariant 0 <= i <= count
        invariant data == old(data) && count == old(count) && increment == old(increment)
        invariant moved[..i] == data[..i]
        invariant forall j | count <= j < capacity :: moved[j] == 0
      {
        moved[i] := data[i];
        i := i + 1;
      }
      data := moved;
    }

    /**
     * `ensureCapacity(min)`: afterwards the buffer has at least min
     * slots; a grown buffer holds the list followed by zeros.
     */
    method EnsureCapacity(min: int)
      requires Valid()
      modifies this
      ensures Valid() && count == old(count) && increment == old(increment)
      ensures data.Length == Capacity.Ensured(old(data.Length), increment, min)
      ensures data.Length >= min
      ensures Elements() == old(Elements())
      ensures old(data.Length) >= min ==> data == old(data)
      ensures old(data.Length) < min ==> fresh(data) && forall j | count <= j < data.Length :: data[j] == 0
    {
      if data.Length >= min {
        return;
      }
      var increased := Capacity.Increased(data.Length, increment);
      MoveTo(if min >= increased then min else increased);
    }

    /** `trimToSize`: the buffer shrinks to exactly the list. */
    method TrimToSize()
      requires Valid()
      modifies this
      ensures Valid() && count == old(count) && increment == old(increment)
      ensures data.Length == count
      ensures Elements() == old(Elements())
    {
      if count == data.Length {
        return;
      }
      MoveTo(count);
    }

    /**
     * `setSize(n)` as documented: makes room for n elements, then the
     * count becomes n; a longer list is cut to its first n elements and a
     * shorter one is extended with zeros. See `SetSizeAsWritten` for the
     * code as written.
     */
    method SetSize(n: nat)
      requires Valid()
      modifies this, data
      ensures Valid() && increment == old(increment)
      ensures count == n && data.Length >= n
      ensures n <= old(count) ==> Elements() == old(Elements())[..n]
      ensures old(count) < n ==> Elements() == old(Elements()) + seq(n - old(count), _ => 0)
    {
      EnsureCapacity(n);
      if n <= count {
        count := n;
        return;
      }
      ghost var buffer := data;
      while count < n
        invariant data == buffer && n <= data.Length
        invariant Valid() && increment == old(increment)
        invariant old(count) <= count <= n
        invariant data[..old(count)] == old(Elements())
        invariant forall j | old(count) <= j < count :: data[j] == 0
      {
        data[count] := 0;
        count := count + 1;
      }
      assert Elements() == data[..old(count)] + data[old(count)..n];
    }

    /** `contains(x)`: whether some element equals x. */
    method Contains(x: int32) returns (b: bool)
      requires Valid()
      ensures b <==> x in Elements()
    {
      var i := 0;
      while i < count
        invariant 0 <= i <= count
        invariant forall j | 0 <= j < i :: data[j] != x
      {
        if data[i] == x {
          return true;
        }
        i := i + 1;
      }
      return false;
    }

    /**
     * `indexOf(x, from)`: the first index at or after from holding x, or -1.
     * A negative from is read as a slot first, so it always throws.
     */
    method IndexOfFrom(x: int32, from: int) returns (r: Result<int>)
      requires Valid()
      ensures from < 0 ==> r == Err(IndexOutOfBounds)
      ensures 0 <= from ==> r == Ok(FirstIndex(Elements(), x, from))
    {
      if from < 0 {
        return Err(IndexOutOfBounds);
      }
      var k := from;
      while k < count
        invariant from <= k
        invariant forall j | from <= j < k && j < count :: data[j] != x
      {
        if data[k] == x {
          return Ok(k);
        }
        k := k + 1;
      }
      return Ok(-1);
    }

    /** `indexOf(x)`: the first index holding x, or -1. */
    method IndexOf(x: int32) returns (i: int)
      requires Valid()
      ensures i == FirstIndex(Elements(), x, 0)
    {
      var r := IndexOfFrom(x, 0);
      i := r.value;
    }

    /** `lastIndexOf(x, index)`: the last index strictly below index holding x, or -1. */
    method LastIndexOfBelow(x: int32, index: int) returns (i: int)
      requires Valid() && index <= count
      ensures i == LastIndex(Elements(), x, index)
    {
      var k := index;
      while k > 0
        invariant k <= index && (0 <= k || k == index)
        invariant forall j | k <= j < index :: data[j] != x
      {
        k := k - 1;
        if data[k] == x {
          return k;
        }
      }
      return -1;
    }

    /** `lastIndexOf(x)`: the last index holding x, or -1. */
    method LastIndexOf(x: int32) returns (i: int)
      requires Valid()
      ensures i == LastIndex(Elements(), x, count)
    {
      i := LastIndexOfBelow(x, count);
    }

    /** `get(index)`: the buffer slot, which is the element at index when index < count; outside the buffer an ArrayIndexOutOfBoundsException. */
    method Get(index: int) returns (r: Result<int32>)
      requires Valid()
      ensures 0 <= index < data.Length ==> r == Ok(data[index])
      ensures 0 <= index < count ==> r == Ok(Elements()[index])
      ensures index < 0 || data.Length <= index ==> r == Err(IndexOutOfBounds)
    {
      if index < 0 || index >= data.Length {
        return Err(IndexOutOfBounds);
      }
      r := Ok(data[index]);
    }

    /**
     * `set(index, x)`: stores x in slot index and returns what it held;
     * the count does not change. Outside the buffer it is an
     * ArrayIndexOutOfBoundsException and nothing changes.
     */
    method Set(index: int, x: int32) returns (previous: Result<int32>)
      requires Valid()
      modifies data
      ensures index < 0 || data.Length <= index ==> previous == Err(IndexOutOfBounds) && data[..] == old(data[..])
      ensures 0 <= index < data.Length ==> previous == Ok(old(data[index])) && data[..] == old(data[..])[index := x]
      ensures 0 <= index < count ==> Elements() == old(Elements())[index := x]
      ensures index < 0 || count <= index ==> Elements() == old(Elements())
    {
      if index < 0 || index >= data.Length {
        return Err(IndexOutOfBounds);
      }
      previous := Ok(data[index]);
      data[index] := x;
    }

    /** `add(x)`: appends x, growing a full buffer first. */
    method Add(x: int32)
      requires Valid()
      modifies this, data
      ensures Valid() && increment == old(increment)
      ensures Elements() == old(Elements()) + [x]
      ensures old(count) < old(data.Length) ==> data == old(data)
    {
      if count == data.Length {
        MoveTo(Capacity.Increased(data.Length, increment));
      }
      data[count] := x;
      count := count + 1;
    }

    /** The shift loop of `removeElement` and `removeIndex`: moves the elements after k down one slot. */
    method ShiftDown(k: nat)
      requires Valid() && k < count
      modifies this, data
      ensures Valid() && data == old(data) && increment == old(increment)
      ensures Elements() == RemoveAt(old(Elements()), k)
    {
      var i := k;
      while i < count - 1
        invariant k <= i <= count - 1
        invariant count == old(count) && data == old(data) && increment == old(increment)
        invariant forall j | 0 <= j < k :: data[j] == old(data[j])
        invariant forall j | k <= j < i :: data[j] == old(data[j + 1])
        invariant forall j | i <= j < data.Length :: data[j] == old(data[j])
      {
        data[i] := data[i + 1];
        i := i + 1;
      }
      count := count - 1;
      assert forall j | 0 <= j < count :: Elements()[j] == RemoveAt(old(Elements()), k)[j];
    }

    /** `removeIndex(index)`: removes and returns the element at index. */
    method RemoveIndex(index: nat) returns (r: int32)
      requires Valid() && index < count
      modifies this, data
      ensures Valid() && data == old(data) && increment == old(increment)
      ensures r == old(Elements())[index]
      ensures Elements() == RemoveAt(old(Elements()), index)
    {
      r := data[index];
      ShiftDown(index);
    }

    /** `removeElement(x)`: removes the first occurrence of x, if any, and says whether it did. */
    method RemoveElement(x: int32) returns (found: bool)
      requires Valid()
      modifies this, data
      ensures Valid() && data == old(data) && increment == old(increment)
      ensures found <==> x in old(Elements())
      ensures found ==> Elements() == RemoveAt(old(Elements()), FirstIndex(old(Elements()), x, 0))
      ensures !found ==> Elements() == old(Elements())
    {
      var i := 0;
      while i < count
        invariant 0 <= i <= count
        invariant forall j | 0 <= j < i :: data[j] != x
      {
        if data[i] == x {
          break;
        }
        i := i + 1;
      }
      if i == count {
        return false;
      }
      assert i == FirstIndex(Elements(), x, 0);
      ShiftDown(i);
      return true;
    }

    /**
     * `add(index, x)` with the room it needs: inserts x at index, moving
     * the later elements up one slot. See `InsertAsWritten` for the code
     * as written.
     */
    method Insert(index: nat, x: int32)
      requires Valid() && index <= count
      modifies this, data
      ensures Valid() && increment == old(increment)
      ensures Elements() == InsertAt(old(Elements()), index, x)
    {
      EnsureCapacity(count + 1);
      ghost var before := Elements();
      ghost var buffer := data;
      count := count + 1;
      var i := count - 1;
      while i > index
        invariant index <= i <= count - 1
        invariant data == buffer && increment == old(increment)
        invariant count == |before| + 1 <= data.Length
        invariant forall j | 0 <= j < i :: data[j] == before[j]
        invariant forall j | i < j < count :: data[j] == before[j - 1]
      {
        data[i] := data[i - 1];
        i := i - 1;
      }
      data[index] := x;
      assert forall j | 0 <= j < count :: Elements()[j] == InsertAt(before, index, x)[j];
    }

    /** `equals(other)`: the same count and the same elements in the same order. */
    method Equals(other: IntArrayList) returns (b: bool)
      requires Valid() && other.Valid()
      ensures b <==> Elements() == other.Elements()
    {
      if other == this {
        return true;
      }
      if other.count != count {
        return false;
      }
      var i := 0;
      while i < count
        invariant 0 <= i <= count
        invariant forall j | 0 <= j < i :: other.data[j] == data[j]
      {
        if other.data[i] != data[i] {
          assert other.Elements()[i] != Elements()[i];
          return false;
        }
        i := i + 1;
      }
      assert other.Elements() == Elements();
      return true;
    }

    /** `clear(index)`: keeps the first index elements when 0 <= index < count, and empties the list otherwise. */
    method ClearFrom(index: int)
      requires Valid()
      modifies this
      ensures Valid() && data == old(data) && increment == old(increment)
      ensures Elements() == if index < 0 || index >= old(count) then [] else old(Elements())[..index]
    {
      count := if index < 0 || index >= count then 0 else index;
    }

    /** `clear()`. */
    method Clear()
      requires Valid()
      modifies this
      ensures Valid() && data == old(data) && increment == old(increment)
      ensures Elements() == []
    {
      count := 0;
    }
  }

  /**
   * `add(index, x)` exactly as written: the count is incremented first and
   * `ensureCapacity(elementCount)` then copies that many elements out of
   * the old buffer, reading one slot past its end when it was full. None
   * stands for the ArrayIndexOutOfBoundsException; otherwise the new list.
   */
  function InsertAsWritten(buffer: seq<int32>, count: nat, index: nat, x: int32): (r: Option<seq<int32>>)
    requires count <= |buffer| && index <= count
    ensures r.None? <==> count == |buffer|
    ensures r.Some? ==> r.value == InsertAt(buffer[..count], index, x)
  {
    var newCount := count + 1;
    if newCount > |buffer| then None else Some(InsertAt(buffer[..count], index, x))
  }

  /**
   * `setSize(n)` exactly as written, on the whole buffer:
   * `ensureCapacity(elementCount = n)` sets the count before growing and
   * then copies n elements out of the old buffer, so every n beyond the
   * capacity fails; within the capacity no zeros are written, so the list
   * shows whatever the slots last held. None stands for the
   * ArrayIndexOutOfBoundsException; otherwise the new list.
   */
  function SetSizeAsWritten(buffer: seq<int32>, n: nat): (r: Option<seq<int32>>)
    ensures r.None? <==> n > |buffer|
    ensures r.Some? ==> r.value == buffer[..n]
  {
    if |buffer| >= n then Some(buffer[..n]) else None
  }

  /**
   * Inserting 5 at the front of the full list [7] fails as written, and so
   * does growing the full list [1, 2] to size 3; `IntArrayList.Insert` and
   * `IntArrayList.SetSize` give [5, 7] and [1, 2, 0]. After add 1, add 2
   * and `clear()` the buffer still holds [1, 2], so `setSize(2)` as written
   * gives [1, 2] where the documented zeros are [0, 0]
   * (`SetSizeAfterClear`).
   */
  lemma AsWrittenCounterexamples()
    ensures InsertAsWritten([7], 1, 0, 5).None?
    ensures InsertAt([7], 0, 5 as int32) == [5, 7]
    ensures SetSizeAsWritten([1, 2], 3).None?
    ensures SetSizeAsWritten([1, 2], 2) == Some([1, 2])
  {
    var b: seq<int32> := [1, 2];
    assert b[..2] == b;
  }

  /**
   * add 1, add 2, `clear()`, `setSize(2)`: the buffer then holds the list
   * [1, 2] that `setSize` as written would show, and the documented
   * `setSize` gives [0, 0].
   */
  method SetSizeAfterClear() returns (buffer: seq<int32>, documented: seq<int32>)
    ensures SetSizeAsWritten(buffer, 2) == Some([1, 2])
    ensures documented == [0, 0]
  {
    var l := new IntArrayList(2, 0);
    l.Add(1);
    l.Add(2);
    assert l.data.Length == 2 && l.data[..] == l.data[..2] == [1, 2];
    l.Clear();
    buffer := l.data[..];
    AsWrittenCounterexamples();
    l.SetSize(2);
    documented := l.data[..l.count];
  }
}
