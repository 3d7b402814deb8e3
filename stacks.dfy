/**
 * util/Stack.java and util/IntStack.java: stacks that are array lists
 * whose last element is the top. Java's subclassing becomes a `list`
 * field holding the ArrayList (IntArrayList) the stack operates on.
 */
module Stacks {
  import opened Wrappers
  import opened JavaInt
  import opened Seqs
  import opened ArrayLists
  import opened IntArrayLists

  /** The 1-based distance from the top of the topmost x in s, or -1: what `search` returns. */
  function Distance<T(==)>(s: seq<T>, x: T): (d: int)
    ensures d == -1 <==> x !in s
    ensures d != -1 ==> 1 <= d <= |s| && s[|s| - d] == x
    ensures d != -1 ==> forall j | |s| - d < j < |s| :: s[j] != x
  {
    var k := LastIndex(s, x, |s|);
    if k == -1 then -1 else |s| - k
  }

  class Stack<T(==)> {
    const list: ArrayList<T>

    ghost predicate Valid()
      reads list
    {
      list.Valid()
    }

    /** The stack from bottom to top. */
    ghost function Elements(): seq<Option<T>>
      reads list, list.data
      requires Valid()
    {
      list.Elements()
    }

    /** `Stack(initialCapacity)`; `Stack()` uses capacity 10. */
    constructor (initialCapacity: nat)
      ensures Valid() && fresh(list) && fresh(list.data)
      ensures Elements() == []
    {
      list := new ArrayList(initialCapacity, 0);
    }

    /**
     * `new Stack(initialCapacity)` for any int capacity: the ArrayList
     * constructor it calls throws NegativeArraySizeException for a negative one.
     */
    static method Create(initialCapacity: int) returns (r: Result<Stack<T>>)
      ensures r.Err? <==> initialCapacity < 0
      ensures r.Err? ==> r.failure == NegativeArraySize
      ensures r.Ok? ==> fresh(r.value) && fresh(r.value.list) && fresh(r.value.list.data)
      ensures r.Ok? ==> r.value.Valid() && r.value.Elements() == []
    {
      if initialCapacity < 0 {
        return Err(NegativeArraySize);
      }
      var created := new Stack<T>(initialCapacity);
      return Ok(created);
    }

    /** `push(x)`: puts x on top and returns it. */
    method Push(x: Option<T>) returns (r: Option<T>)
      requires Valid()
      modifies list, list.data
      ensures Valid()
      ensures r == x
      ensures Elements() == old(Elements()) + [x]
    {
      list.Add(x);
      r := x;
    }

    /** `pop()`: removes and returns the top; the stack must not be empty. */
    method Pop() returns (r: Option<T>)
      requires Valid() && |Elements()| > 0
      modifies list
      ensures Valid() && list.data == old(list.data)
      ensures r == old(Elements())[|old(Elements())| - 1]
      ensures Elements() == old(Elements())[..|old(Elements())| - 1]
    {
      list.size := list.size - 1;
      r := list.data[list.size];
    }

    /** `peek()`: the top; an empty stack reads slot -1, an ArrayIndexOutOfBoundsException. */
    method Peek() returns (r: Result<Option<T>>)
      requires Valid()
      ensures Elements() == [] ==> r == Err(IndexOutOfBounds)
      ensures Elements() != [] ==> r == Ok(Elements()[|Elements()| - 1])
    {
      if list.size == 0 {
        return Err(IndexOutOfBounds);
      }
      r := Ok(list.data[list.size - 1]);
    }

    /**
     * `peek(n)`: the slot n places below the top. A slot outside the
     * buffer is an ArrayIndexOutOfBoundsException; a negative n inside
     * the buffer reads a slot above the top.
     */
    method PeekAt(n: int) returns (r: Result<Option<T>>)
      requires Valid()
      ensures 0 <= n < |Elements()| ==> r == Ok(Elements()[|Elements()| - n - 1])
      ensures n < 0 && |Elements()| - n - 1 < list.data.Length ==> r == Ok(list.data[|Elements()| - n - 1])
      ensures |Elements()| <= n || list.data.Length <= |Elements()| - n - 1 ==> r == Err(IndexOutOfBounds)
    {
      var pos := list.size - n - 1;
      if pos < 0 || pos >= list.data.Length {
        return Err(IndexOutOfBounds);
      }
      r := Ok(list.data[pos]);
    }

    /**
     * `replace(n, x)`: stores x in the slot n places below the top and
     * returns what it held, with the errors of `peek(n)`; a negative n
     * writes a slot above the top, which the stack does not show.
     */
    method Replace(n: int, x: Option<T>) returns (previous: Result<Option<T>>)
      requires Valid()
      modifies list.data
      ensures Valid()
      ensures var pos := old(|Elements()|) - n - 1;
        if 0 <= pos < list.data.Length then
          previous == Ok(old(list.data[pos])) && list.data[..] == old(list.data[..])[pos := x]
        else
          previous == Err(IndexOutOfBounds) && list.data[..] == old(list.data[..])
      ensures 0 <= n < old(|Elements()|) ==> Elements() == old(Elements())[old(|Elements()|) - n - 1 := x]
      ensures n < 0 ==> Elements() == old(Elements())
    {
      var pos := list.size - n - 1;
      if pos < 0 || pos >= list.data.Length {
        return Err(IndexOutOfBounds);
      }
      previous := Ok(list.data[pos]);
      list.data[pos] := x;
    }

    /** `empty()`. */
    method Empty() returns (b: bool)
      requires Valid()
      ensures b <==> Elements() == []
    {
      b := list.size == 0;
    }

    /** `search(o)`: the 1-based distance from the top of the topmost element equal to o, or -1. */
    method Search(o: T) returns (d: int)
      requires Valid()
      ensures d == Distance(Elements(), Some(o))
    {
      var i := 1;
      while i <= list.size
        invariant 1 <= i <= list.size + 1
        invariant forall j | list.size - i < j < list.size :: list.data[j] != Some(o)
      {
        if list.data[list.size - i] == Some(o) {
          return i;
        }
        i := i + 1;
      }
      return -1;
    }

    /** The iterator: `next` yields the elements from the top down to the bottom. */
    method TopDown() returns (visited: seq<Option<T>>)
      requires Valid()
      ensures visited == Reverse(Elements())
    {
      var nextIndex := list.size - 1;
      visited := [];
      while nextIndex >= 0
        invariant -1 <= nextIndex < list.size
        invariant |visited| == list.size - 1 - nextIndex
        invariant forall j | 0 <= j < |visited| :: visited[j] == list.data[list.size - 1 - j]
      {
        visited := visited + [list.data[nextIndex]];
        nextIndex := nextIndex - 1;
      }
    }
  }

  class IntStack {
    const list: IntArrayList

    ghost predicate Valid()
      reads list
    {
      list.Valid()
    }

    /** The stack from bottom to top. */
    ghost function Elements(): seq<int32>
      reads list, list.data
      requires Valid()
    {
      list.Elements()
    }

    /** `IntStack(initialCapacity, capacityIncrement)`; `IntStack()` uses capacity 10 and increment 0. */
    constructor (initialCapacity: nat, increment: int)
      ensures Valid() && fresh(list) && fresh(list.data)
      ensures Elements() == []
    {
      list := new IntArrayList(initialCapacity, increment);
    }

    /**
     * `new IntStack(initialCapacity, capacityIncrement)` for any int capacity:
     * the IntArrayList constructor it calls throws NegativeArraySizeException
     * for a negative one.
     */
    static method Create(initialCapacity: int, increment: int) returns (r: Result<IntStack>)
      ensures r.Err? <==> initialCapacity < 0
      ensures r.Err? ==> r.failure == NegativeArraySize
      ensures r.Ok? ==> fresh(r.value) && fresh(r.value.list) && fresh(r.value.list.data)
      ensures r.Ok? ==> r.value.Valid() && r.value.Elements() == []
    {
      if initialCapacity < 0 {
        return Err(NegativeArraySize);
      }
      var created := new IntStack(initialCapacity, increment);
      return Ok(created);
    }

    /** `push(x)`: puts x on top and returns it. */
    method Push(x: int32) returns (r: int32)
      requires Valid()
      modifies list, list.data
      ensures Valid()
      ensures r == x
      ensures Elements() == old(Elements()) + [x]
    {
      list.Add(x);
      r := x;
    }

    /** `pop()`: removes and returns the top; the stack must not be empty. */
    method Pop() returns (r: int32)
      requires Valid() && |Elements()| > 0
      modifies list
      ensures Valid() && list.data == old(list.data)
      ensures r == old(Elements())[|old(Elements())| - 1]
      ensures Elements() == old(Elements())[..|old(Elements())| - 1]
    {
      list.count := list.count - 1;
      r := list.data[list.count];
    }

    /** `peek()`: the top; an empty stack reads slot -1, an ArrayIndexOutOfBoundsException. */
    method Peek() returns (r: Result<int32>)
      requires Valid()
      ensures Elements() == [] ==> r == Err(IndexOutOfBounds)
      ensures Elements() != [] ==> r == Ok(Elements()[|Elements()| - 1])
    {
      if list.count == 0 {
        return Err(IndexOutOfBounds);
      }
      r := Ok(list.data[list.count - 1]);
    }

    /**
     * `peek(n)`: the slot n places below the top. A slot outside the
     * buffer is an ArrayIndexOutOfBoundsException; a negative n inside
     * the buffer reads a slot above the top.
     */
    method PeekAt(n: int) returns (r: Result<int32>)
      requires Valid()
      ensures 0 <= n < |Elements()| ==> r == Ok(Elements()[|Elements()| - n - 1])
      ensures n < 0 && |Elements()| - n - 1 < list.data.Length ==> r == Ok(list.data[|Elements()| - n - 1])
      ensures |Elements()| <= n || list.data.Length <= |Elements()| - n - 1 ==> r == Err(IndexOutOfBounds)
    {
      var pos := list.count - n - 1;
      if pos < 0 || pos >= list.data.Length {
        return Err(IndexOutOfBounds);
      }
      r := Ok(list.data[pos]);
    }

    /**
     * `replace(n, x)`: stores x in the slot n places below the top and
     * returns what it held, with the errors of `peek(n)`; a negative n
     * writes a slot above the top, which the stack does not show.
     */
    method Replace(n: int, x: int32) returns (previous: Result<int32>)
      requires Valid()
      modifies list.data
      ensures Valid()
      ensures var pos := old(|Elements()|) - n - 1;
        if 0 <= pos < list.data.Length then
          previous == Ok(old(list.data[pos])) && list.data[..] == old(list.data[..])[pos := x]
        else
          previous == Err(IndexOutOfBounds) && list.data[..] == old(list.data[..])
      ensures 0 <= n < old(|Elements()|) ==> Elements() == old(Elements())[old(|Elements()|) - n - 1 := x]
      ensures n < 0 ==> Elements() == old(Elements())
    {
      var pos := list.count - n - 1;
      if pos < 0 || pos >= list.data.Length {
        return Err(IndexOutOfBounds);
      }
      previous := Ok(list.data[pos]);
      list.data[pos] := x;
    }

    /** `empty()`. */
    method Empty() returns (b: bool)
      requires Valid()
      ensures b <==> Elements() == []
    {
      b := list.count == 0;
    }

    /** `search(x)`: the 1-based distance from the top of the topmost x, or -1. */
    method Search(x: int32) returns (d: int)
      requires Valid()
      ensures d == Distance(Elements(), x)
    {
      var i := 1;
      while i <= list.count
        invariant 1 <= i <= list.count + 1
        invariant forall j | list.count - i < j < list.count :: list.data[j] != x
      {
        if x == list.data[list.count - i] {
          return i;
        }
        i := i + 1;
      }
      return -1;
    }
  }
}
