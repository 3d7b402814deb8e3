/**
 * Reference definitions on sequences that the container classes are
 * specified against: first and last occurrence, deletion and insertion
 * at an index, reversal, and dropping Java nulls.
 */
module Seqs {
  import opened Wrappers

  /** The smallest index at or after `from` holding x, or -1 when there is none. */
  function FirstIndex<T(==)>(s: seq<T>, x: T, from: nat): (i: int)
    decreases |s| - from
    ensures -1 <= i < |s|
    ensures i == -1 <==> forall j | from <= j < |s| :: s[j] != x
    ensures i != -1 ==> from <= i && s[i] == x && forall j | from <= j < i :: s[j] != x
  {
    if from >= |s| then -1
    else if s[from] == x then from
    else FirstIndex(s, x, from + 1)
  }

  /** The largest index strictly below `below` holding x, or -1 when there is none. */
  function LastIndex<T(==)>(s: seq<T>, x: T, below: int): (i: int)
    requires below <= |s|
    decreases below
    ensures -1 <= i < |s| && (i == -1 || i < below)
    ensures i == -1 <==> forall j | 0 <= j < below :: s[j] != x
    ensures i != -1 ==> 0 <= i && s[i] == x && forall j | i < j < below :: s[j] != x
  {
    if below <= 0 then -1
    else if s[below - 1] == x then below - 1
    else LastIndex(s, x, below - 1)
  }

  /** s without its element at index k, later elements moving down one place. */
  function RemoveAt<T>(s: seq<T>, k: nat): (r: seq<T>)
    requires k < |s|
    ensures |r| == |s| - 1
    ensures forall j | 0 <= j < k :: r[j] == s[j]
    ensures forall j | k <= j < |r| :: r[j] == s[j + 1]
  {
    s[..k] + s[k + 1..]
  }

  /** s with x inserted at index k, later elements moving up one place. */
  function InsertAt<T>(s: seq<T>, k: nat, x: T): (r: seq<T>)
    requires k <= |s|
    ensures |r| == |s| + 1 && r[k] == x
    ensures forall j | 0 <= j < k :: r[j] == s[j]
    ensures forall j | k < j < |r| :: r[j] == s[j - 1]
  {
    s[..k] + [x] + s[k..]
  }

  /** Removing what was just inserted gives back the original sequence. */
  lemma RemoveInserted<T>(s: seq<T>, k: nat, x: T)
    requires k <= |s|
    ensures RemoveAt(InsertAt(s, k, x), k) == s
  {
    var r := RemoveAt(InsertAt(s, k, x), k);
    assert forall j | 0 <= j < |s| :: r[j] == s[j];
  }

  /** s in the opposite order. */
  function Reverse<T>(s: seq<T>): (r: seq<T>)
    ensures |r| == |s|
    ensures forall j | 0 <= j < |s| :: r[j] == s[|s| - 1 - j]
  {
    if s == [] then [] else Reverse(s[1..]) + [s[0]]
  }

  /** Reversing twice gives back the original sequence. */
  lemma ReverseReverse<T>(s: seq<T>)
    ensures Reverse(Reverse(s)) == s
  {
    var r := Reverse(Reverse(s));
    assert forall j | 0 <= j < |s| :: r[j] == s[j];
  }

  /** The non-null elements of s, in their order. */
  function Compact<T>(s: seq<Option<T>>): (r: seq<Option<T>>)
    ensures |r| <= |s|
    ensures forall j | 0 <= j < |r| :: r[j].Some?
    ensures forall j | 0 <= j < |r| :: r[j] in s
    ensures forall j | 0 <= j < |s| :: s[j].Some? ==> s[j] in r
  {
    if s == [] then []
    else if s[0].None? then Compact(s[1..])
    else [s[0]] + Compact(s[1..])
  }

  /** Compacting keeps a gap-free sequence as it is, so compacting twice is compacting once. */
  lemma {:induction false} CompactWithoutGaps<T>(s: seq<Option<T>>)
    requires forall j | 0 <= j < |s| :: s[j].Some?
    ensures Compact(s) == s
  {
    if s != [] {
      CompactWithoutGaps(s[1..]);
      assert s == [s[0]] + s[1..];
    }
  }

  /** Compact distributes over concatenation; it lets a left-to-right loop build Compact one element at a time. */
  lemma {:induction false} CompactAppend<T>(s: seq<Option<T>>, t: seq<Option<T>>)
    ensures Compact(s + t) == Compact(s) + Compact(t)
  {
    if s == [] {
      assert s + t == t;
    } else {
      assert (s + t)[1..] == s[1..] + t;
      CompactAppend(s[1..], t);
    }
  }
}
