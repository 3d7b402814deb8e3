/**
 * util/ArrayList.java: a growable buffer of object references. The list
 * is the first `_size` slots of `_elementData`; the slots beyond it keep
 * whatever they last held. A Java null is `None`, and element equality
 * (`equals`) is value equality on T.
 */
module ArrayLists {
  import opened Wrappers
  import opened Seqs
  import Capacity

  class ArrayList<T(==)> {
    /** `_elementData`. */
    var data: array<Option<T>>
    /** `_size`. */
    var size: nat
    /** `capacityIncrement`: grow by this many slots when positive, else double. */
    var increment: int

    ghost predicate Valid()
      reads this
    {
      size <= data.Length
    }

    /** The list's elements, in index order. */
    ghost function Elements(): seq<Option<T>>
      reads this, data
      requires Valid()
    {
      data[..size]
    }

    /** `ArrayList(initialCapacity, capacityIncrement)`; the no-argument form uses capacity 10 and increment 0. */
    constructor (initialCapacity: nat, increment: int)
      ensures Valid() && fresh(data)
      ensures Elements() == [] && data.Length == initialCapacity && this.increment == increment
    {
      data := new Option<T>[initialCapacity](_ => None);
      size := 0;
      this.increment := increment;
    }

    /** `new ArrayList(initialCapacity, capacityIncrement)` for any int capacity: a negative one throws NegativeArraySizeException. */
    static method Create(initialCapacity: int, increment: int) returns (r: Result<ArrayList<T>>)
      ensures r.Err? <==> initialCapacity < 0
      ensures r.Err? ==> r.failure == NegativeArraySize
      ensures r.Ok? ==> fresh(r.value) && fresh(r.value.data) && r.value.Valid()
      ensures r.Ok? ==> r.value.Elements() == [] && r.value.data.Length == initialCapacity && r.value.increment == increment
    {
      if initialCapacity < 0 {
        return Err(NegativeArraySize);
      }
      var created := new ArrayList<T>(initialCapacity, increment);
      return Ok(created);
    }

    /** `_grow`: moves the elements into a buffer of `_increasedCapacity()` slots. */
    method Grow()
      requires Valid()
      modifies this
      ensures Valid() && fresh(data) && size == old(size) && increment == old(increment)
      ensures data.Length == Capacity.Increased(old(data.Length), increment)
      ensures Elements() == old(Elements())
    {
      var grown := new Option<T>[Capacity.Increased(data.Length, increment)](_ => None);
      var i := 0;
      while i < size
        invariant 0 <= i <= size
        invariant data == old(data) && size == old(size) && increment == old(increment)
        invariant grown[..i] == data[..i]
      {
        grown[i] := data[i];
        i := i + 1;
      }
      data := grown;
    }

    /**
     * `ensureCapacity(min)`: afterwards the buffer has at least min slots;
     * every old slot, inside the list or not, keeps its value.
     */
    method EnsureCapacity(min: int)
      requires Valid()
      modifies this
      ensures Valid() && size == old(size) && increment == old(increment)
      ensures data.Length == Capacity.Ensured(old(data.Length), increment, min)
      ensures data.Length >= min
      ensures data[..old(data.Length)] == old(data[..])
      ensures forall j | old(data.Length) <= j < data.Length :: data[j] == None
      ensures Elements() == old(Elements())
      ensures old(data.Length) >= min ==> data == old(data)
      ensures old(data.Length) < min ==> fresh(data)
    {
      if data.Length >= min {
        return;
      }
      var increased := Capacity.Increased(data.Length, increment);
      var grown := new Option<T>[if min >= increased then min else increased](_ => None);
      var i := 0;
      while i < data.Length
        invariant 0 <= i <= data.Length
        invariant data == old(data) && size == old(size) && increment == old(increment)
        invariant grown[..i] == data[..i]
        invariant forall j | data.Length <= j < grown.Length :: grown[j] == None
      {
        grown[i] := data[i];
        i := i + 1;
      }
      assert grown[..data.Length] == data[..];
      data := grown;
    }

    /** `trimToSize`: the buffer shrinks to exactly the list. */
    method TrimToSize()
      requires Valid()
      modifies this
      ensures Valid() && size == old(size) && increment == old(increment)
      ensures data.Length == size
      ensures Elements() == old(Elements())
    {
      if size == data.Length {
        return;
      }
      var trimmed := new Option<T>[size](_ => None);
      var i := 0;
      while i < size
        invariant 0 <= i <= size
        invariant data == old(data) && size == old(size) && increment == old(increment)
        invariant trimmed[..i] == data[..i]
      {
        trimmed[i] := data[i];
        i := i + 1;
      }
      data := trimmed;
    }

    /**
     * `setSize(n)` as documented: the list becomes exactly n long. A
     * longer list is truncated with its dropped slots nulled, a shorter one
     * is extended with nulls; a negative n is an
     * ArrayIndexOutOfBoundsException and nothing changes. See
     * `SetSizeAsWritten` for the code as written.
     */
    method SetSize(n: int) returns (r: Result<()>)
      requires Valid()
      modifies this, data
      ensures Valid() && increment == old(increment)
      ensures n < 0 ==> r == Err(IndexOutOfBounds) && size == old(size) && data == old(data) && data[..] == old(data[..])
      ensures 0 <= n ==> r == Ok(()) && size == n && data.Length >= n
      ensures 0 <= n <= old(size) ==> Elements() == old(Elements())[..n]
      ensures 0 <= n && old(size) < n ==> Elements() == old(Elements()) + seq(n - old(size), _ => None)
      ensures 0 <= n ==> data.Length >= old(size) && forall j | n <= j < old(size) :: data[j] == None
    {
      if n < 0 {
        return Err(IndexOutOfBounds);
      }
      SetSizeAsWritten(n);
      if n <= size {
        return Ok(());
      }
      ghost var shortened := data[..];
      ghost var buffer := data;
      while size < n
        invariant data == buffer
        invariant old(size) <= size <= n <= data.Length
        invariant Valid() && increment == old(increment)
        invariant data[..old(size)] == old(Elements())
        invariant forall j | old(size) <= j < size :: data[j] == None
        invariant |shortened| == data.Length && forall j | size <= j < data.Length :: data[j] == shortened[j]
      {
        data[size] := None;
        size := size + 1;
      }
      assert Elements() == data[..old(size)] + data[old(size)..n];
      return Ok(());
    }

    /**
     * `setSize(n)` as written, for n >= 0: makes room for n elements and
     * truncates a longer list to n, nulling the dropped slots; a shorter
     * list keeps its size, so no nulls are added.
     */
    method SetSizeAsWritten(n: nat)
      requires Valid()
      modifies this, data
      ensures Valid() && increment == old(increment)
      ensures data.Length >= n
      ensures size == if old(size) > n then n else old(size)
      ensures Elements() == old(Elements())[..size]
      ensures data.Length >= old(size)
      ensures forall j | size <= j < old(size) :: data[j] == None
      ensures data == old(data) || fresh(data)
    {
      EnsureCapacity(n);
      ghost var before := data[..];
      ghost var buffer := data;
      while size > n
        invariant data == buffer
        invariant n <= old(size) ==> n <= size <= old(size)
        invariant n > old(size) ==> size == old(size)
        invariant data.Length >= n && data.Length >= old(size)
        invariant forall j | 0 <= j < size :: data[j] == before[j]
        invariant forall j | size <= j < old(size) :: data[j] == None
        invariant increment == old(increment)
        invariant |before| == data.Length && before[..old(size)] == old(Elements())
      {
        size := size - 1;
        data[size] := None;
      }
    }

    /** `hasGaps`: whether some element of the list is null. */
    method HasGaps() returns (b: bool)
      requires Valid()
      ensures b <==> None in Elements()
    {
      var i := size;
      while i > 0
        invariant 0 <= i <= size
        invariant forall j | i <= j < size :: data[j].Some?
      {
        i := i - 1;
        if data[i].None? {
          return true;
        }
      }
      return false;
    }

    /** `removeGaps`: drops the null elements, keeping the others in order, in a new buffer of the same capacity. */
    method RemoveGaps()
      requires Valid()
      modifies this
      ensures Valid() && increment == old(increment) && fresh(data)
      ensures data.Length == old(data.Length)
      ensures Elements() == Compact(old(Elements()))
    {
      var compacted := new Option<T>[data.Length](_ => None);
      var count := 0;
      var i := 0;
      while i < size
        invariant 0 <= count <= i <= size
        invariant data == old(data) && size == old(size) && increment == old(increment)
        invariant compacted.Length == data.Length
        invariant compacted[..count] == Compact(data[..i])
      {
        CompactAppend(data[..i], [data[i]]);
        assert data[..i + 1] == data[..i] + [data[i]];
        if data[i].Some? {
          compacted[count] := data[i];
          count := count + 1;
        }
        i := i + 1;
      }
      assert data[..size] == Elements();
      data := compacted;
      size := count;
    }

    /** `contains(x)`: whether some element equals x. */
    method Contains(x: T) returns (b: bool)
      requires Valid()
      ensures b <==> Some(x) in Elements()
    {
      var i := size;
      while i > 0
        invariant 0 <= i <= size
        invariant forall j | i <= j < size :: data[j] != Some(x)
      {
        i := i - 1;
        if data[i] == Some(x) {
          return true;
        }
      }
      return false;
    }

    /**
     * `indexOf(x, from)`: the first index at or after from holding x, or -1.
     * A negative from is read as a slot first, so it always throws.
     */
    method IndexOfFrom(x: T, from: int) returns (r: Result<int>)
      requires Valid()
      ensures from < 0 ==> r == Err(IndexOutOfBounds)
      ensures 0 <= from ==> r == Ok(FirstIndex(Elements(), Some(x), from))
    {
      if from < 0 {
        return Err(IndexOutOfBounds);
      }
      var k := from;
      while k < size
        invariant from <= k
        invariant forall j | from <= j < k && j < size :: data[j] != Some(x)
      {
        if data[k] == Some(x) {
          return Ok(k);
        }
        k := k + 1;
      }
      return Ok(-1);
    }

    /** `indexOf(x)`: the first index holding x, or -1. */
    method IndexOf(x: T) returns (i: int)
      requires Valid()
      ensures i == FirstIndex(Elements(), Some(x), 0)
    {
      var r := IndexOfFrom(x, 0);
      i := r.value;
    }

    /** `lastIndexOf(x, index)`: the last index at or below index holding x, or -1. */
    method LastIndexOfFrom(x: T, index: int) returns (i: int)
      requires Valid() && index < size
      ensures i == LastIndex(Elements(), Some(x), index + 1)
    {
      var k := index;
      while k >= 0
        invariant k <= index && (-1 <= k || k == index)
        invariant forall j | k < j <= index :: data[j] != Some(x)
      {
        if data[k] == Some(x) {
          return k;
        }
        k := k - 1;
      }
      return -1;
    }

    /** `lastIndexOf(x)`: the last index holding x, or -1. */
    method LastIndexOf(x: T) returns (i: int)
      requires Valid()
      ensures i == LastIndex(Elements(), Some(x), size)
    {
      i := LastIndexOfFrom(x, size - 1);
    }

    /** `get(index)`: the buffer slot, which is the element at index when index < size; outside the buffer an ArrayIndexOutOfBoundsException. */
    method Get(index: int) returns (r: Result<Option<T>>)
      requires Valid()
      ensures 0 <= index < data.Length ==> r == Ok(data[index])
      ensures 0 <= index < size ==> r == Ok(Elements()[index])
      ensures index < 0 || data.Length <= index ==> r == Err(IndexOutOfBounds)
    {
      if index < 0 || index >= data.Length {
        return Err(IndexOutOfBounds);
      }
      r := Ok(data[index]);
    }

    /**
     * `set(index, x)`: stores x in slot index and returns what the slot
     * held; a slot at or past the end extends the list to index + 1,
     * exposing the slots in between. Outside the buffer it is an
     * ArrayIndexOutOfBoundsException and nothing changes.
     */
    method Set(index: int, x: Option<T>) returns (previous: Result<Option<T>>)
      requires Valid()
      modifies this, data
      ensures Valid() && data == old(data) && increment == old(increment)
      ensures index < 0 || data.Length <= index ==>
        previous == Err(IndexOutOfBounds) && size == old(size) && data[..] == old(data[..])
      ensures 0 <= index < data.Length ==> previous == Ok(old(data[index]))
      ensures 0 <= index < data.Length ==> data[..] == old(data[..])[index := x]
      ensures 0 <= index < data.Length ==> size == if index < old(size) then old(size) else index + 1
      ensures 0 <= index < old(size) ==> Elements() == old(Elements())[index := x]
      ensures 0 <= old(size) <= index < data.Length ==> Elements() == old(data[..index]) + [x]
    {
      if index < 0 || index >= data.Length {
        return Err(IndexOutOfBounds);
      }
      previous := Ok(data[index]);
      data[index] := x;
      size := if size < index + 1 then index + 1 else size;
    }

    /**
     * `secureSet(index, x)`: `set` after making room for slot index. A
     * slot past the end extends the list to index + 1, exposing the slots
     * in between: their old values inside the old buffer, nulls beyond it.
     * A negative index is an ArrayIndexOutOfBoundsException and nothing
     * changes.
     */
    method SecureSet(index: int, x: Option<T>) returns (previous: Result<Option<T>>)
      requires Valid()
      modifies this, data
      ensures Valid() && increment == old(increment)
      ensures index < 0 ==> previous == Err(IndexOutOfBounds) && size == old(size) && data == old(data) && data[..] == old(data[..])
      ensures 0 <= index ==> previous == Ok(if index < old(data.Length) then old(data[index]) else None)
      ensures 0 <= index ==> size == if index < old(size) then old(size) else index + 1
      ensures 0 <= index < old(size) ==> Elements() == old(Elements())[index := x]
      ensures 0 <= old(size) <= index ==> Elements()[..old(size)] == old(Elements()) && Elements()[index] == x
      ensures 0 <= old(size) <= index ==>
        forall k | old(size) <= k < index :: data[k] == (if k < old(data.Length) then old(data[k]) else None)
    {
      if index < 0 {
        return Err(IndexOutOfBounds);
      }
      EnsureCapacity(index + 1);
      previous := Ok(data[index]);
      data[index] := x;
      size := if size < index + 1 then index + 1 else size;
    }

    /** `add(x)`: appends x, growing a full buffer first. */
    method Add(x: Option<T>)
      requires Valid()
      modifies this, data
      ensures Valid() && increment == old(increment)
      ensures Elements() == old(Elements()) + [x]
      ensures old(size) < old(data.Length) ==> data == old(data)
      ensures data == old(data) || fresh(data)
    {
      if size == data.Length {
        Grow();
      }
      data[size] := x;
      size := size + 1;
    }

    /** The shift loop of both `remove`s: moves the elements after k down one slot. */
    method ShiftDown(k: nat)
      requires Valid() && k < size
      modifies this, data
      ensures Valid() && data == old(data) && increment == old(increment)
      ensures Elements() == RemoveAt(old(Elements()), k)
    {
      var i := k;
      while i < size - 1
        invariant k <= i <= size - 1
        invariant size == old(size) && data == old(data) && increment == old(increment)
        invariant forall j | 0 <= j < k :: data[j] == old(data[j])
        invariant forall j | k <= j < i :: data[j] == old(data[j + 1])
        invariant forall j | i <= j < data.Length :: data[j] == old(data[j])
      {
        data[i] := data[i + 1];
        i := i + 1;
      }
      size := size - 1;
      assert forall j | 0 <= j < size :: Elements()[j] == RemoveAt(old(Elements()), k)[j];
    }

    /** `remove(index)`: removes and returns the element at index. */
    method RemoveIndex(index: nat) returns (r: Option<T>)
      requires Valid() && index < size
      modifies this, data
      ensures Valid() && data == old(data) && increment == old(increment)
      ensures r == old(Elements())[index]
      ensures Elements() == RemoveAt(old(Elements()), index)
    {
      r := data[index];
      ShiftDown(index);
    }

    /** `remove(x)`: removes the first element equal to x, if any, and says whether it did. */
    method Remove(x: T) returns (found: bool)
      requires Valid()
      modifies this, data
      ensures Valid() && data == old(data) && increment == old(increment)
      ensures found <==> Some(x) in old(Elements())
      ensures found ==> Elements() == RemoveAt(old(Elements()), FirstIndex(old(Elements()), Some(x), 0))
      ensures !found ==> Elements() == old(Elements())
    {
      var i := 0;
      while i < size
        invariant 0 <= i <= size
        invariant forall j | 0 <= j < i :: data[j] != Some(x)
      {
        if data[i] == Some(x) {
          break;
        }
        i := i + 1;
      }
      if i == size {
        return false;
      }
      assert i == FirstIndex(Elements(), Some(x), 0);
      ShiftDown(i);
      return true;
    }

    /**
     * `add(index, x)` with the room it needs: inserts x at index, moving
     * the later elements up one slot. The source asks `ensureCapacity` for
     * the size before the insertion; see `InsertAsWritten`.
     */
    method Insert(index: nat, x: Option<T>)
      requires Valid() && index <= size
      modifies this, data
      ensures Valid() && increment == old(increment)
      ensures Elements() == InsertAt(old(Elements()), index, x)
    {
      EnsureCapacity(size + 1);
      ghost var before := Elements();
      ghost var buffer := data;
      size := size + 1;
      var i := size - 1;
      while i > index
        invariant index <= i <= size - 1
        invariant data == buffer && increment == old(increment)
        invariant size == |before| + 1 <= data.Length
        invariant forall j | 0 <= j < i :: data[j] == before[j]
        invariant forall j | i < j < size :: data[j] == before[j - 1]
      {
        data[i] := data[i - 1];
        i := i - 1;
      }
      data[index] := x;
      assert forall j | 0 <= j < size :: Elements()[j] == InsertAt(before, index, x)[j];
    }

    /**
     * `removeRange(from, to)` as its documentation states it: removes the
     * elements at indices from (inclusive) to to (exclusive, capped at the
     * size), moving every later element down. See `RemoveRangeAsWritten`.
     * A negative from with to > from reaches the copy loop, whose first
     * store is out of the buffer: ArrayIndexOutOfBoundsException, nothing
     * changed.
     */
    method RemoveRange(from: int, to: int) returns (r: Result<()>)
      requires Valid()
      modifies this, data
      ensures Valid() && data == old(data) && increment == old(increment)
      ensures r.Err? <==> from < 0 && from < to
      ensures r.Err? ==> r.failure == IndexOutOfBounds && size == old(size) && data[..] == old(data[..])
      ensures to <= from || old(size) <= from ==> Elements() == old(Elements())
      ensures 0 <= from < to && from < old(size) ==>
        Elements() == old(Elements())[..from] + old(Elements())[if to < old(size) then to else old(size)..]
    {
      if to <= from {
        return Ok(());
      }
      if from < 0 {
        return Err(IndexOutOfBounds);
      }
      var hi := if to < size then to else size;
      if hi <= from {
        return Ok(());
      }
      var gap := hi - from;
      var i := from;
      while i < size - gap
        invariant from <= i <= size - gap
        invariant size == old(size) && data == old(data) && increment == old(increment)
        invariant forall j | 0 <= j < from :: data[j] == old(data[j])
        invariant forall j | from <= j < i :: data[j] == old(data[j + gap])
        invariant forall j | i <= j < data.Length :: data[j] == old(data[j])
      {
        data[i] := data[i + gap];
        i := i + 1;
      }
      size := size - gap;
      assert forall j | 0 <= j < size ::
        Elements()[j] == (old(Elements())[..from] + old(Elements())[hi..])[j];
      return Ok(());
    }

    /** `clear(index)`: keeps the first index elements when 0 <= index < size, and empties the list otherwise. */
    method ClearFrom(index: int)
      requires Valid()
      modifies this
      ensures Valid() && data == old(data) && increment == old(increment)
      ensures Elements() == if index < 0 || index >= old(size) then [] else old(Elements())[..index]
    {
      size := if index < 0 || index >= size then 0 else index;
    }

    /** `clear()`. */
    method Clear()
      requires Valid()
      modifies this
      ensures Valid() && data == old(data) && increment == old(increment)
      ensures Elements() == []
    {
      size := 0;
    }
  }

  /**
   * `add(index, x)` exactly as written: `ensureCapacity(_size++)` asks for
   * room for the old size, which the buffer always has, so a full buffer
   * is never grown and the store into slot `_size` fails. None stands for
   * the ArrayIndexOutOfBoundsException; otherwise the new list.
   */
  function InsertAsWritten<T>(buffer: seq<T>, size: nat, increment: int, index: nat, x: T): (r: Option<seq<T>>)
    requires size <= |buffer| && index <= size
    ensures r.None? <==> size == |buffer|
    ensures r.Some? ==> r.value == InsertAt(buffer[..size], index, x)
  {
    var capacity := Capacity.Ensured(|buffer|, increment, size);
    if size + 1 > capacity then None else Some(InsertAt(buffer[..size], index, x))
  }

  /** Inserting into a full list fails as written, whatever the growth policy; `ArrayList.Insert` grows the buffer and succeeds. */
  lemma InsertAsWrittenFailsWhenFull<T>(buffer: seq<T>, increment: int, index: nat, x: T)
    requires index <= |buffer|
    ensures InsertAsWritten(buffer, |buffer|, increment, index, x).None?
    ensures Capacity.Ensured(|buffer|, increment, |buffer| + 1) > |buffer|
  {
  }

  /**
   * `setSize(3)` on an empty list: as written the list stays empty, while
   * the documented `setSize` makes it three nulls long.
   */
  method SetSizeAsWrittenAddsNoNulls() returns (asWritten: seq<Option<int>>, documented: seq<Option<int>>)
    ensures asWritten == [] && documented == [None, None, None]
  {
    var l := new ArrayList<int>(10, 0);
    l.SetSizeAsWritten(3);
    asWritten := l.data[..l.size];
    var m := new ArrayList<int>(10, 0);
    var r := m.SetSize(3);
    documented := m.data[..m.size];
  }

  /**
   * `removeRange(from, to)` exactly as written, on the whole buffer:
   * after capping to at the size it copies only `gap = to - from`
   * elements down, so the elements past `to + gap` are lost and the
   * copied block repeats; when from is past the size, gap is negative and
   * the size grows. None stands for an index out of the buffer's bounds,
   * which a negative from with to > from always reaches.
   */
  function RemoveRangeAsWritten<T>(buffer: seq<T>, size: nat, from: int, to: int): (r: Option<(seq<T>, int)>)
    requires size <= |buffer|
    ensures r.Some? ==> |r.value.0| == |buffer|
    ensures r.Some? && to <= from ==> r.value == (buffer, size)
    ensures from < 0 && from < to ==> r.None?
  {
    if to <= from then Some((buffer, size))
    else if from < 0 then None
    else
      var hi := if to < size then to else size;
      var gap := hi - from;
      if gap <= 0 then Some((buffer, size - gap))
      else if hi + gap > |buffer| then None
      else Some((buffer[..from] + buffer[from + gap..hi + gap] + buffer[hi..], size - gap))
  }

  /**
   * Removing the first of five elements as written leaves [2, 2, 3, 4]
   * instead of [2, 3, 4, 5]; removing past the end of a one-element list
   * makes it longer.
   */
  lemma RemoveRangeAsWrittenCounterexamples()
    ensures RemoveRangeAsWritten([1, 2, 3, 4, 5], 5, 0, 1) == Some(([2, 2, 3, 4, 5], 4))
    ensures [2, 2, 3, 4, 5][..4] != [1, 2, 3, 4, 5][1..]
    ensures RemoveRangeAsWritten([1, 2, 3], 1, 2, 3) == Some(([1, 2, 3], 2))
  {
    var b := [1, 2, 3, 4, 5];
    assert b[..0] + b[1..2] + b[1..] == [2, 2, 3, 4, 5];
    assert [2, 2, 3, 4, 5][..4][1] != b[1..][1];
  }
}
