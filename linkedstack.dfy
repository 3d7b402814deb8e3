/**
 * util/LinkedStack.java, util/LinkedIntStack.java and util/LinkedObjectStack.java:
 * stacks kept as Lisp-style lists of cells, `_top` pointing at the most
 * recent one. The int and object variants differ only in the type of a
 * cell's contents, so both are the one generic class `LinkedStack<T>`.
 * The chain of cells from the top is tracked by the ghost sequence
 * `cells`, top first.
 */
module LinkedStacks {
  import opened Wrappers

  /** A list cell: its contents never change after construction; `next` is set by `push`. */
  class Cell<T> {
    const contents: T
    var next: Cell?<T>

    constructor (contents: T)
      ensures this.contents == contents && next == null
    {
      this.contents := contents;
      next := null;
    }
  }

  /** cs is the list of cells reached from c by following `next` until null. */
  ghost predicate Linked<T>(c: Cell?<T>, cs: seq<Cell<T>>)
    reads cs
  {
    (if |cs| == 0 then c == null else c == cs[0] && cs[|cs| - 1].next == null) &&
    forall i | 0 <= i < |cs| - 1 :: cs[i].next == cs[i + 1]
  }

  /** The contents of a list of cells, in list order. */
  function Contents<T>(cs: seq<Cell<T>>): (s: seq<T>)
    ensures |s| == |cs|
    ensures forall i | 0 <= i < |cs| :: s[i] == cs[i].contents
  {
    if |cs| == 0 then [] else [cs[0].contents] + Contents(cs[1..])
  }

  /** A list without its first cell is the list of the second cell. */
  lemma LinkedTail<T>(c: Cell<T>, cs: seq<Cell<T>>)
    requires Linked(c, cs)
    ensures |cs| > 0 && Linked(c.next, cs[1..])
  {
    if |cs| > 1 {
      assert cs[1..][0] == cs[1];
    }
  }

  class LinkedStack<T> {
    /** `_top`; null for the empty stack. */
    var top: Cell?<T>
    /** The cells of the stack, top first. */
    ghost var cells: seq<Cell<T>>

    ghost predicate Valid()
      reads this, cells
    {
      Linked(top, cells)
    }

    /** The stack from top to bottom. */
    ghost function Elements(): seq<T>
      reads this
    {
      Contents(cells)
    }

    /** A new stack is empty (`_top` starts null). */
    constructor ()
      ensures Valid() && Elements() == []
    {
      top := null;
      cells := [];
    }

    /** `set(cell)`: makes cell, and the list that hangs from it, the stack. */
    method Set(cell: Cell?<T>, ghost cs: seq<Cell<T>>)
      requires Linked(cell, cs)
      modifies this
      ensures Valid() && cells == cs && Elements() == Contents(cs)
    {
      top := cell;
      cells := cs;
    }

    /** `top()`: the top cell, through which the current stack can later be restored with `set`. */
    method Top() returns (cell: Cell?<T>)
      requires Valid()
      ensures Linked(cell, cells)
      ensures cell == null <==> Elements() == []
    {
      cell := top;
    }

    /**
     * `top(n)`: the cell n places below the top; a negative n is a
     * StackPeekException and a stack with n cells or fewer an
     * EmptyStackException.
     */
    method TopAt(n: int) returns (r: Result<Cell<T>>)
      requires Valid()
      ensures n < 0 ==> r == Err(StackPeek)
      ensures 0 <= n < |cells| ==> r == Ok(cells[n])
      ensures 0 <= n && |cells| <= n ==> r == Err(EmptyStack)
    {
      if n < 0 {
        return Err(StackPeek);
      }
      var cell := top;
      var depth := n;
      while cell != null && depth != 0
        invariant 0 <= depth <= n
        invariant n - depth <= |cells|
        invariant cell == if n - depth < |cells| then cells[n - depth] else null
        decreases depth
      {
        depth := depth - 1;
        cell := cell.next;
      }
      if cell == null {
        return Err(EmptyStack);
      }
      return Ok(cell);
    }

    /** `isEmpty()`. */
    function IsEmpty(): (b: bool)
      requires Valid()
      reads this, cells
      ensures b <==> Elements() == []
    {
      top == null
    }

    /** `clear()`. */
    method Clear()
      modifies this
      ensures Valid() && Elements() == []
    {
      top := null;
      cells := [];
    }

    /** `push(x)`: a new cell holding x becomes the top. */
    method Push(x: T)
      requires Valid()
      modifies this
      ensures Valid() && Elements() == [x] + old(Elements())
      ensures cells[1..] == old(cells)
    {
      var cell := new Cell(x);
      cell.next := top;
      top := cell;
      cells := [cell] + cells;
    }

    /** `pop()`: removes and returns the top; an empty stack is an EmptyStackException. */
    method Pop() returns (r: Result<T>)
      requires Valid()
      modifies this
      ensures Valid()
      ensures old(Elements()) == [] ==> r == Err(EmptyStack) && cells == old(cells)
      ensures old(Elements()) != [] ==> r == Ok(old(Elements())[0]) && cells == old(cells)[1..]
      ensures old(Elements()) != [] ==> Elements() == old(Elements())[1..]
    {
      if top == null {
        return Err(EmptyStack);
      }
      LinkedTail(top, cells);
      r := Ok(top.contents);
      top := top.next;
      cells := cells[1..];
    }

    /** `peek()`: the top; an empty stack is an EmptyStackException. */
    method Peek() returns (r: Result<T>)
      requires Valid()
      ensures Elements() == [] ==> r == Err(EmptyStack)
      ensures Elements() != [] ==> r == Ok(Elements()[0])
    {
      if top == null {
        return Err(EmptyStack);
      }
      r := Ok(top.contents);
    }

    /**
     * `peek(n)`: the element n places below the top, with the errors of
     * `top(n)`.
     */
    method PeekAt(n: int) returns (r: Result<T>)
      requires Valid()
      ensures n < 0 ==> r == Err(StackPeek)
      ensures 0 <= n < |Elements()| ==> r == Ok(Elements()[n])
      ensures 0 <= n && |Elements()| <= n ==> r == Err(EmptyStack)
    {
      var cell := TopAt(n);
      match cell
      case Ok(c) => r := Ok(c.contents);
      case Err(f) => r := Err(f);
    }

    /**
     * The stack's iterator: `next()` returns the current cell's contents
     * and moves to the next cell while `hasNext()` (the current cell is
     * not null). The elements come out from the top down.
     */
    method TopDown() returns (visited: seq<T>)
      requires Valid()
      ensures visited == Elements()
    {
      var current := top;
      visited := [];
      while current != null
        invariant |visited| <= |cells|
        invariant current == if |visited| < |cells| then cells[|visited|] else null
        invariant forall j | 0 <= j < |visited| :: visited[j] == cells[j].contents
        decreases |cells| - |visited|
      {
        visited := visited + [current.contents];
        current := current.next;
      }
      assert |visited| == |cells|;
    }
  }

  /**
   * Saving `top()` and restoring it with `set` undoes any pushes and pops
   * in between: cells are never changed once linked, so the saved list
   * is intact.
   */
  method SaveAndRestore() returns (s: LinkedStack<int>)
    ensures s.Valid() && s.Elements() == [1]
  {
    s := new LinkedStack();
    s.Push(1);
    var saved := s.Top();
    ghost var savedCells := s.cells;
    s.Push(2);
    s.Push(3);
    var _ := s.Pop();
    s.Set(saved, savedCells);
  }
}
