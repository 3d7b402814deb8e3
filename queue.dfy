/**
 * util/Queue.java: a FIFO queue of doubly linked elements. Each element's
 * `succ` points to the next older element and its `pred` to the next
 * newer one; `pop` takes from the oldest end, `chop` from the newest, and
 * `rush` puts an element in front of the oldest.
 */
module Queues {
  import opened Wrappers
  import opened Seqs

  /** `QueueElement`: the stored object never changes once linked. */
  class QueueElement<T> {
    const element: T
    var succ: QueueElement?<T>
    var pred: QueueElement?<T>

    constructor (obj: T)
      ensures element == obj && succ == null && pred == null
    {
      element := obj;
      succ, pred := null, null;
    }
  }

  class Queue<T> {
    var oldest: QueueElement?<T>
    var newest: QueueElement?<T>
    var size: int
    /** The linked elements, oldest first. */
    ghost var nodes: seq<QueueElement<T>>

    /**
     * The chain from `oldest` follows `pred` through every node to
     * `newest`, and `succ` links each node back to the one before it.
     */
    ghost predicate Valid()
      reads this, nodes
    {
      size == |nodes|
      && (nodes == [] ==> oldest == null && newest == null)
      && (nodes != [] ==> oldest == nodes[0] && newest == nodes[|nodes| - 1])
      && (nodes != [] ==> nodes[0].succ == null && nodes[|nodes| - 1].pred == null)
      && (forall i | 0 < i < |nodes| :: nodes[i].succ == nodes[i - 1])
      && (forall i | 0 <= i < |nodes| - 1 :: nodes[i].pred == nodes[i + 1])
      && forall i, j | 0 <= i < j < |nodes| :: nodes[i] != nodes[j]
    }

    /** The queued objects in popping order. */
    ghost function Elements(): seq<T>
      reads this
    {
      var ns := nodes;
      seq(|ns|, i requires 0 <= i < |ns| => ns[i].element)
    }

    /** `Queue()`: an empty queue. */
    constructor ()
      ensures Valid() && Elements() == [] && nodes == [] && size == 0
      ensures oldest == null && newest == null
    {
      oldest, newest, size := null, null, 0;
      nodes := [];
    }

    /** `Queue(object)`: a queue holding just that object. */
    constructor Single(obj: T)
      ensures Valid() && Elements() == [obj]
    {
      oldest, newest, size := null, null, 0;
      nodes := [];
      new;
      Push(obj);
    }

    /** `Queue(objects)`: the objects enqueued in index order, so `objects[0]` is popped first. */
    constructor FromSeq(objects: seq<T>)
      ensures Valid() && Elements() == objects
    {
      oldest, newest, size := null, null, 0;
      nodes := [];
      new;
      var i := 0;
      while i < |objects|
        invariant 0 <= i <= |objects|
        invariant Valid() && Elements() == objects[..i]
        invariant forall n | n in nodes :: fresh(n)
        invariant newest != null ==> fresh(newest)
      {
        Push(objects[i]);
        i := i + 1;
      }
    }

    /** `isEmpty()`. */
    function IsEmpty(): (b: bool)
      reads this, nodes
      requires Valid()
      ensures b <==> Elements() == []
    {
      size == 0
    }

    /** `size()`. */
    function Size(): (n: int)
      reads this, nodes
      requires Valid()
      ensures n == |Elements()|
    {
      size
    }

    /**
     * `push(x)` and `enqueue(x)`: links a fresh element in front of
     * `newest`. The pointer effects hold in any state; in a valid queue x
     * becomes the last element popped.
     */
    method Push(x: T)
      modifies this, newest
      ensures fresh(newest) && newest.element == x && newest.succ == old(newest) && newest.pred == null
      ensures old(newest) != null ==> old(newest).pred == newest
      ensures oldest == (if old(size) == 0 then newest else old(oldest)) && size == old(size) + 1
      ensures nodes == old(nodes) + [newest]
      ensures old(Valid()) ==> Valid() && Elements() == old(Elements()) + [x]
    {
      ghost var wasValid := Valid();
      var elt := new QueueElement(x);
      elt.succ := newest;
      if newest != null {
        newest.pred := elt;
      }
      newest := elt;
      if size == 0 {
        oldest := newest;
      }
      size := size + 1;
      nodes := nodes + [elt];
      if wasValid {
        ghost var n := |nodes|;
        forall i | 0 < i < n - 1
          ensures nodes[i].succ == nodes[i - 1]
        {
          assert old(nodes[i].succ) == old(nodes)[i - 1];
        }
        forall i | 0 <= i < n - 2
          ensures nodes[i].pred == nodes[i + 1]
        {
          assert nodes[i] != old(newest);
          assert old(nodes[i].pred) == old(nodes)[i + 1];
        }
      }
    }

    /**
     * `rush(x)`: links a fresh element behind `oldest`. The pointer
     * effects hold in any state; in a valid queue x is popped next.
     */
    method Rush(x: T)
      modifies this, oldest
      ensures fresh(oldest) && oldest.element == x && oldest.pred == old(oldest) && oldest.succ == null
      ensures old(oldest) != null ==> old(oldest).succ == oldest
      ensures newest == (if old(size) == 0 then oldest else old(newest)) && size == old(size) + 1
      ensures nodes == [oldest] + old(nodes)
      ensures old(Valid()) ==> Valid() && Elements() == [x] + old(Elements())
    {
      ghost var wasValid := Valid();
      var elt := new QueueElement(x);
      elt.pred := oldest;
      if oldest != null {
        oldest.succ := elt;
      }
      oldest := elt;
      if size == 0 {
        newest := oldest;
      }
      size := size + 1;
      nodes := [elt] + nodes;
      if wasValid {
        ghost var n := |nodes|;
        forall i | 1 < i < n
          ensures nodes[i].succ == nodes[i - 1]
        {
          assert nodes[i] != old(oldest);
          assert old(nodes[i - 1].succ) == old(nodes)[i - 2];
        }
        forall i | 0 < i < n - 1
          ensures nodes[i].pred == nodes[i + 1]
        {
          assert old(nodes[i - 1].pred) == old(nodes)[i];
        }
        assert n > 1 ==> old(nodes[n - 2].pred) == null;
      }
    }

    /**
     * `pop()` and `dequeue()`, with `newest` cleared when the last element
     * goes (see `PopAsWritten`): removes and returns the oldest object;
     * EmptyQueueException on an empty queue.
     */
    method Pop() returns (r: Result<T>)
      requires Valid()
      modifies this, nodes
      ensures Valid()
      ensures old(Elements()) == [] ==> r == Err(EmptyQueue) && unchanged(this) && unchanged(nodes)
      ensures old(Elements()) != [] ==> r == Ok(old(Elements())[0]) && Elements() == old(Elements())[1..]
    {
      if size == 0 {
        return Err(EmptyQueue);
      }
      assert oldest == nodes[0];
      assert |nodes| > 1 ==> oldest.pred == nodes[1];
      assert |nodes| == 1 ==> oldest.pred == null;
      var elt := oldest.element;
      oldest := oldest.pred;
      if oldest != null {
        assert oldest == nodes[1];
        oldest.succ := null;
      } else {
        newest := null;
      }
      size := size - 1;
      nodes := nodes[1..];
      ghost var n := |nodes|;
      forall i | 0 < i < n
        ensures nodes[i].succ == nodes[i - 1]
      {
        assert nodes[i] != old(nodes[1]);
        assert old(nodes[i + 1].succ) == old(nodes)[i];
      }
      forall i | 0 <= i < n - 1
        ensures nodes[i].pred == nodes[i + 1]
      {
        assert old(nodes[i + 1].pred) == old(nodes)[i + 2];
      }
      if n > 0 {
        assert oldest == nodes[0] && newest == old(nodes)[n] == nodes[n - 1];
      }
      return Ok(elt);
    }

    /**
     * `chop()`, with `oldest` cleared when the last element goes: removes
     * and returns the newest object; EmptyQueueException on an empty queue.
     */
    method Chop() returns (r: Result<T>)
      requires Valid()
      modifies this, nodes
      ensures Valid()
      ensures old(Elements()) == [] ==> r == Err(EmptyQueue) && unchanged(this) && unchanged(nodes)
      ensures old(Elements()) != [] ==>
        r == Ok(old(Elements())[|old(Elements())| - 1]) && Elements() == old(Elements())[..|old(Elements())| - 1]
    {
      if size == 0 {
        return Err(EmptyQueue);
      }
      ghost var n := |nodes|;
      assert newest == nodes[n - 1];
      assert n > 1 ==> newest.succ == nodes[n - 2];
      assert n == 1 ==> newest.succ == null;
      var elt := newest.element;
      newest := newest.succ;
      if newest != null {
        assert newest == nodes[n - 2];
        newest.pred := null;
      } else {
        oldest := null;
      }
      size := size - 1;
      nodes := nodes[..n - 1];
      forall i | 0 < i < n - 1
        ensures nodes[i].succ == nodes[i - 1]
      {
        assert old(nodes[i].succ) == old(nodes)[i - 1];
      }
      forall i | 0 <= i < n - 2
        ensures nodes[i].pred == nodes[i + 1]
      {
        assert nodes[i] != old(nodes[n - 2]);
        assert old(nodes[i].pred) == old(nodes)[i + 1];
      }
      if n > 1 {
        assert oldest == old(nodes)[0] == nodes[0] && newest == nodes[n - 2];
      }
      return Ok(elt);
    }

    /** `peek()`: the oldest object; EmptyQueueException on an empty queue. */
    method Peek() returns (r: Result<T>)
      requires Valid()
      ensures Elements() == [] ==> r == Err(EmptyQueue)
      ensures Elements() != [] ==> r == Ok(Elements()[0])
    {
      if size == 0 {
        return Err(EmptyQueue);
      }
      assert oldest == nodes[0];
      return Ok(oldest.element);
    }

    /** `reverse()`: swaps every element's two links in place, then the two ends. */
    method Reverse()
      requires Valid()
      modifies this, nodes
      ensures Valid() && Elements() == Seqs.Reverse(old(Elements()))
    {
      SwapLinks();
      var elt := oldest;
      oldest := newest;
      newest := elt;
      ghost var n := |nodes|;
      ghost var was := nodes;
      nodes := Seqs.Reverse(nodes);
      forall i | 0 < i < n
        ensures nodes[i].succ == nodes[i - 1]
      {
        assert old(was[n - 1 - i].pred) == was[n - i];
      }
      forall i | 0 <= i < n - 1
        ensures nodes[i].pred == nodes[i + 1]
      {
        assert old(was[n - 1 - i].succ) == was[n - 2 - i];
      }
    }

    /** The loop of `reverse()`: walks from `newest` along the `succ` links, swapping each element's two links. */
    method SwapLinks()
      requires Valid()
      modifies nodes
      ensures forall i | 0 <= i < |nodes| :: nodes[i].succ == old(nodes[i].pred) && nodes[i].pred == old(nodes[i].succ)
    {
      var elt := newest;
      ghost var k := |nodes| - 1;
      while elt != null
        invariant -1 <= k < |nodes|
        invariant elt == if k >= 0 then nodes[k] else null
        invariant forall i | 0 <= i <= k :: nodes[i].succ == old(nodes[i].succ) && nodes[i].pred == old(nodes[i].pred)
        invariant forall i | k < i < |nodes| :: nodes[i].succ == old(nodes[i].pred) && nodes[i].pred == old(nodes[i].succ)
        decreases k
      {
        assert k > 0 ==> old(nodes[k].succ) == nodes[k - 1];
        var next := elt.succ;
        elt.succ := elt.pred;
        elt.pred := next;
        elt := next;
        k := k - 1;
      }
    }

    /** The iterator: from `oldest` along the `pred` links, so objects come in popping order. */
    method InPopOrder() returns (visited: seq<T>)
      requires Valid()
      ensures visited == Elements()
    {
      visited := [];
      var current := oldest;
      ghost var k := 0;
      while current != null
        invariant 0 <= k <= |nodes|
        invariant current == if k < |nodes| then nodes[k] else null
        invariant visited == Elements()[..k]
        decreases |nodes| - k
      {
        visited := visited + [current.element];
        current := current.pred;
        k := k + 1;
      }
    }

    /**
     * `pop()` exactly as written: `newest` is left alone, so popping the
     * last element leaves it on the removed node.
     */
    method PopAsWritten() returns (r: Result<T>)
      requires Valid()
      modifies this, nodes
      ensures old(Elements()) == [] ==> r == Err(EmptyQueue) && unchanged(this)
      ensures old(Elements()) != [] ==>
        r == Ok(old(Elements())[0]) && size == old(size) - 1
        && oldest == old(oldest.pred) && newest == old(newest) && nodes == old(nodes[1..])
    {
      if size == 0 {
        return Err(EmptyQueue);
      }
      var elt := oldest.element;
      oldest := oldest.pred;
      if oldest != null {
        assert oldest == nodes[1];
        oldest.succ := null;
      }
      size := size - 1;
      nodes := nodes[1..];
      return Ok(elt);
    }

    /**
     * `chop()` exactly as written: `oldest` is left alone, so chopping the
     * last element leaves it on the removed node.
     */
    method ChopAsWritten() returns (r: Result<T>)
      requires Valid()
      modifies this, nodes
      ensures old(Elements()) == [] ==> r == Err(EmptyQueue) && unchanged(this)
      ensures old(Elements()) != [] ==>
        r == Ok(old(Elements())[|old(Elements())| - 1]) && size == old(size) - 1
        && newest == old(newest.succ) && oldest == old(oldest) && nodes == old(nodes[..|nodes| - 1])
    {
      if size == 0 {
        return Err(EmptyQueue);
      }
      ghost var n := |nodes|;
      var elt := newest.element;
      newest := newest.succ;
      if newest != null {
        assert newest == nodes[n - 2];
        newest.pred := null;
      }
      size := size - 1;
      nodes := nodes[..n - 1];
      return Ok(elt);
    }
  }

  /**
   * push(x), pop(), push(a) with the pop as written: the queue holds one
   * element, yet the new node is linked to the removed one, so walking
   * the `succ` links from `newest` still reaches x.
   */
  method PopAsWrittenLinksRemoved<T>(x: T, a: T) returns (q: Queue<T>)
    ensures q.size == 1 && q.newest != null && q.newest.element == a
    ensures q.newest.succ != null && q.newest.succ.element == x
  {
    q := new Queue();
    q.Push(x);
    var popped := q.PopAsWritten();
    assert popped == Ok(x);
    q.Push(a);
  }

  /**
   * rush(x), chop(), rush(a) with the chop as written, the mirror of
   * `PopAsWrittenLinksRemoved`: the queue holds one element, yet the new
   * node is linked to the removed one, so walking the `pred` links from
   * `oldest` still reaches x.
   */
  method ChopAsWrittenLinksRemoved<T>(x: T, a: T) returns (q: Queue<T>)
    ensures q.size == 1 && q.oldest != null && q.oldest.element == a
    ensures q.oldest.pred != null && q.oldest.pred.element == x
  {
    q := new Queue();
    q.Rush(x);
    var chopped := q.ChopAsWritten();
    assert chopped == Ok(x);
    q.Rush(a);
  }
}
