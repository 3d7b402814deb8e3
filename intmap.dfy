/**
 * util/ToIntMap.java and util/IntToIntMap.java: a hash table from ints
 * to ints with separate chaining. Each bucket's chain of entries is a
 * sequence here, newest entry first; the ghost `contents` is the map the
 * table represents. The load factor is the default 0.75.
 */
module IntMaps {
  import opened Wrappers
  import opened JavaInt

  /** `NOT_FOUND_VALUE`: Integer.MIN_VALUE, returned for a missing key. */
  const NOT_FOUND: int32 := -0x8000_0000

  datatype Entry = Entry(key: int32, value: int32)

  /** `key & 0x7FFFFFFF`: the key with its sign bit cleared. */
  function Masked(key: int32): (m: nat)
    ensures m <= MAX_INT
    ensures key >= 0 ==> m == key
    ensures key < 0 ==> m == key + 0x1_0000_0000 - 0x8000_0000
  {
    if key >= 0 then key else key + 0x8000_0000
  }

  /** The bucket `(key & 0x7FFFFFFF) % table.length` of a key; always a valid index. */
  function Bucket(key: int32, n: int): (b: int)
    requires n > 0
    ensures 0 <= b < n
    ensures 0 <= key < n ==> b == key
  {
    Masked(key) % n
  }

  /** The position of the first entry for key in a chain, or -1: where the chain walks stop. */
  function FindKey(chain: seq<Entry>, key: int32): (i: int)
    ensures -1 <= i < |chain|
    ensures i != -1 ==> chain[i].key == key
  {
    if chain == [] then -1
    else if chain[0].key == key then 0
    else
      var i := FindKey(chain[1..], key);
      if i == -1 then -1 else i + 1
  }

  /** FindKey is -1 exactly when no entry has the key, and otherwise finds the first one. */
  lemma {:induction false} FindKeyFirst(chain: seq<Entry>, key: int32)
    ensures FindKey(chain, key) == -1 <==> forall j | 0 <= j < |chain| :: chain[j].key != key
    ensures FindKey(chain, key) != -1 ==> forall j | 0 <= j < FindKey(chain, key) :: chain[j].key != key
  {
    if chain != [] && chain[0].key != key {
      FindKeyFirst(chain[1..], key);
      assert forall j | 1 <= j < |chain| :: chain[j] == chain[1..][j - 1];
    }
  }

  /**
   * The buckets t represent the map m: every entry sits in its key's
   * bucket and agrees with m, a chain never holds a key twice, and every
   * key of m is in its bucket.
   */
  ghost predicate Table(t: seq<seq<Entry>>, m: map<int32, int32>)
  {
    |t| > 0
    && (forall b, j | 0 <= b < |t| && 0 <= j < |t[b]| :: Bucket(t[b][j].key, |t|) == b)
    && (forall b, j | 0 <= b < |t| && 0 <= j < |t[b]| :: t[b][j].key in m && m[t[b][j].key] == t[b][j].value)
    && (forall b, i, j | 0 <= b < |t| && 0 <= i < j < |t[b]| :: t[b][i].key != t[b][j].key)
    && (forall k | k in m :: FindKey(t[Bucket(k, |t|)], k) != -1)
  }

  /** Where key's bucket walk ends: at an entry for key holding its value exactly when key is mapped. */
  lemma TableLookup(t: seq<seq<Entry>>, m: map<int32, int32>, key: int32)
    requires Table(t, m)
    ensures var j := FindKey(t[Bucket(key, |t|)], key);
      (j == -1 <==> key !in m) && (j != -1 ==> m[key] == t[Bucket(key, |t|)][j].value)
  {
  }

  /** Empty buckets represent the empty map. */
  lemma TableEmpty(t: seq<seq<Entry>>)
    requires |t| > 0 && forall b | 0 <= b < |t| :: t[b] == []
    ensures Table(t, map[])
  {
  }

  /** Linking an entry for a fresh key at the head of its bucket adds it to the map. */
  lemma TableInsert(t: seq<seq<Entry>>, m: map<int32, int32>, e: Entry)
    requires Table(t, m) && e.key !in m
    ensures Table(t[Bucket(e.key, |t|) := [e] + t[Bucket(e.key, |t|)]], m[e.key := e.value])
  {
    var b := Bucket(e.key, |t|);
    var t' := t[b := [e] + t[b]];
    forall k | k in m[e.key := e.value]
      ensures FindKey(t'[Bucket(k, |t|)], k) != -1
    {
      if k != e.key && Bucket(k, |t|) == b {
        var p := FindKey(t[b], k);
        assert t'[b][p + 1].key == k;
      }
    }
  }

  /** Overwriting the value of an entry updates the map at that key. */
  lemma TableReplace(t: seq<seq<Entry>>, m: map<int32, int32>, b: int, j: int, v: int32)
    requires Table(t, m) && 0 <= b < |t| && 0 <= j < |t[b]|
    ensures Table(t[b := t[b][j := Entry(t[b][j].key, v)]], m[t[b][j].key := v])
  {
    var key := t[b][j].key;
    var chain: seq<Entry> := t[b][j := Entry(key, v)];
    var t': seq<seq<Entry>> := t[b := chain];
    var m' := m[key := v];
    forall i | 0 <= i < |chain|
      ensures chain[i].key == t[b][i].key
      ensures i != j ==> chain[i] == t[b][i] && chain[i].key != key
    {
      if i < j {
        assert t[b][i].key != t[b][j].key;
      } else if j < i {
        assert t[b][j].key != t[b][i].key;
      }
    }
    forall c: int, i: int | 0 <= c < |t'| && 0 <= i < |t'[c]|
      ensures Bucket(t'[c][i].key, |t'|) == c
      ensures t'[c][i].key in m' && m'[t'[c][i].key] == t'[c][i].value
    {
      if c == b {
        assert t'[c][i] == chain[i];
      }
    }
    forall c: int, p: int, q: int | 0 <= c < |t'| && 0 <= p < q < |t'[c]|
      ensures t'[c][p].key != t'[c][q].key
    {
      if c == b {
        assert t'[c][p].key == t[b][p].key && t'[c][q].key == t[b][q].key;
      }
    }
    forall k | k in m'
      ensures FindKey(t'[Bucket(k, |t|)], k) != -1
    {
      var p := FindKey(t[Bucket(k, |t|)], k);
      assert t'[Bucket(k, |t|)][p].key == k;
      FindKeyFirst(t'[Bucket(k, |t|)], k);
    }
  }

  /** Unlinking an entry removes its key from the map. */
  lemma TableRemove(t: seq<seq<Entry>>, m: map<int32, int32>, b: int, j: int)
    requires Table(t, m) && 0 <= b < |t| && 0 <= j < |t[b]|
    ensures Table(t[b := t[b][..j] + t[b][j + 1..]], m - {t[b][j].key})
  {
    var chain: seq<Entry> := t[b][..j] + t[b][j + 1..];
    ChainRemove(t[b], j, chain);
    var t': seq<seq<Entry>> := t[b := chain];
    var m' := m - {t[b][j].key};
    forall c: int, i: int | 0 <= c < |t'| && 0 <= i < |t'[c]|
      ensures Bucket(t'[c][i].key, |t'|) == c
      ensures t'[c][i].key in m' && m'[t'[c][i].key] == t'[c][i].value
    {
      if c == b {
        var p := if i < j then i else i + 1;
        assert t'[c][i] == t[b][p];
      }
    }
    forall k | k in m'
      ensures FindKey(t'[Bucket(k, |t|)], k) != -1
    {
      if Bucket(k, |t|) == b {
        var p := FindKey(t[b], k);
        assert chain[if p < j then p else p - 1].key == k;
        FindKeyFirst(chain, k);
      }
    }
  }

  /** The chain without its j-th entry: the entries around it, keys still distinct, its key gone. */
  lemma ChainRemove(chain: seq<Entry>, j: int, rest: seq<Entry>)
    requires 0 <= j < |chain| && rest == chain[..j] + chain[j + 1..]
    requires forall p, q | 0 <= p < q < |chain| :: chain[p].key != chain[q].key
    ensures |rest| == |chain| - 1
    ensures forall i | 0 <= i < |rest| :: rest[i] == chain[if i < j then i else i + 1]
    ensures forall i | 0 <= i < |rest| :: rest[i].key != chain[j].key
    ensures forall p, q | 0 <= p < q < |rest| :: rest[p].key != rest[q].key
  {
    forall i | 0 <= i < |rest|
      ensures rest[i] == chain[if i < j then i else i + 1]
    {
    }
    forall p, q | 0 <= p < q < |rest|
      ensures rest[p].key != rest[q].key
    {
      assert rest[p] == chain[if p < j then p else p + 1];
      assert rest[q] == chain[if q < j then q else q + 1];
    }
  }

  /** Removing a present key shrinks a map by one. */
  lemma RemoveSize(m: map<int32, int32>, k: int32)
    requires k in m
    ensures |m - {k}| == |m| - 1
  {
    assert (m - {k}).Keys == m.Keys - {k};
  }

  /**
   * done holds the entries of full whose old bucket comes before i, and
   * those of bucket i found in prefix, the part of it walked so far: the
   * progress of a walk over all buckets (`_rehash`, `include`).
   */
  ghost predicate Relinked(done: map<int32, int32>, full: map<int32, int32>, n: int, i: int, prefix: seq<Entry>)
    requires n > 0
  {
    (forall k | k in done :: k in full && done[k] == full[k])
    && (forall k | k in full :: k in done <==> Bucket(k, n) < i || (Bucket(k, n) == i && FindKey(prefix, k) != -1))
  }

  /** Nothing walked yet. */
  lemma RelinkedStart(full: map<int32, int32>, n: int)
    requires n > 0
    ensures Relinked(map[], full, n, 0, [])
  {
  }

  /** What Table says about one bucket: its entries belong there, agree with the map and have distinct keys ... */
  ghost predicate ChainEntries(chain: seq<Entry>, m: map<int32, int32>, n: int, i: int)
    requires n > 0
  {
    (forall p | 0 <= p < |chain| :: Bucket(chain[p].key, n) == i && chain[p].key in m && m[chain[p].key] == chain[p].value)
    && (forall p, q | 0 <= p < q < |chain| :: chain[p].key != chain[q].key)
  }

  /** ... and every key of the map that belongs there is there. */
  ghost predicate Chain(chain: seq<Entry>, m: map<int32, int32>, n: int, i: int)
    requires n > 0
  {
    ChainEntries(chain, m, n, i) && forall k | k in m && Bucket(k, n) == i :: FindKey(chain, k) != -1
  }

  lemma TableChain(t: seq<seq<Entry>>, m: map<int32, int32>, i: int)
    requires Table(t, m) && 0 <= i < |t|
    ensures Chain(t[i], m, |t|, i)
  {
  }

  /** Walking past the j-th entry of bucket i adds that entry, whose key was not there yet. */
  lemma RelinkedNext(done: map<int32, int32>, full: map<int32, int32>, n: int, i: int, chain: seq<Entry>, j: int)
    requires n > 0 && ChainEntries(chain, full, n, i) && 0 <= j < |chain|
    requires Relinked(done, full, n, i, chain[..j])
    ensures chain[j].key !in done
    ensures Relinked(done[chain[j].key := chain[j].value], full, n, i, chain[..j + 1])
  {
    var e := chain[j];
    assert FindKey(chain[..j], e.key) == -1 by {
      FindKeyFirst(chain[..j], e.key);
      forall p | 0 <= p < j
        ensures chain[..j][p].key != e.key
      {
        assert chain[p].key != chain[j].key;
      }
    }
    forall k | k in full
      ensures FindKey(chain[..j + 1], k) != -1 <==> FindKey(chain[..j], k) != -1 || k == e.key
    {
      FindKeyExtend(chain, j, k);
    }
  }

  /** A key is in the first j + 1 entries iff it is in the first j or is the key of entry j. */
  lemma FindKeyExtend(chain: seq<Entry>, j: int, k: int32)
    requires 0 <= j < |chain|
    ensures FindKey(chain[..j + 1], k) != -1 <==> FindKey(chain[..j], k) != -1 || k == chain[j].key
  {
    FindKeyFirst(chain[..j + 1], k);
    FindKeyFirst(chain[..j], k);
    if FindKey(chain[..j + 1], k) != -1 && k != chain[j].key {
      var p := FindKey(chain[..j + 1], k);
      assert chain[..j][p].key == k;
    }
    if FindKey(chain[..j], k) != -1 {
      var p := FindKey(chain[..j], k);
      assert chain[..j + 1][p].key == k;
    }
    if k == chain[j].key {
      assert chain[..j + 1][j].key == k;
    }
  }

  /** Once bucket i is walked to its end, the walk moves to bucket i + 1. */
  lemma RelinkedBucket(done: map<int32, int32>, full: map<int32, int32>, n: int, i: int, chain: seq<Entry>)
    requires n > 0 && Chain(chain, full, n, i) && Relinked(done, full, n, i, chain)
    ensures Relinked(done, full, n, i + 1, [])
  {
  }

  /** A walk over all buckets has seen the whole map. */
  lemma RelinkedEnd(done: map<int32, int32>, full: map<int32, int32>, n: int)
    requires n > 0 && Relinked(done, full, n, n, [])
    ensures done == full
  {
    assert done.Keys == full.Keys;
  }

  /** Including a map into an empty one copies it. */
  lemma EmptyUnion(m: map<int32, int32>)
    ensures map[] + m == m
  {
  }

  /** Updating a union updates its right operand. */
  lemma UnionUpdate(a: map<int32, int32>, b: map<int32, int32>, k: int32, v: int32)
    ensures (a + b)[k := v] == a + b[k := v]
  {
  }

  /** When every entry of the buckets is also an entry of m', the map they represent is part of m'. */
  lemma TableSubmap(t: seq<seq<Entry>>, m: map<int32, int32>, m': map<int32, int32>)
    requires Table(t, m)
    requires forall c, j | 0 <= c < |t| && 0 <= j < |t[c]| :: t[c][j].key in m' && m'[t[c][j].key] == t[c][j].value
    ensures forall k | k in m :: k in m' && m'[k] == m[k]
  {
    forall k | k in m
      ensures k in m' && m'[k] == m[k]
    {
      var p := FindKey(t[Bucket(k, |t|)], k);
      assert t[Bucket(k, |t|)][p].key == k;
    }
  }

  /** Two maps agreeing on the keys of the first and of the same size are equal. */
  lemma SubmapOfSameSize(a: map<int32, int32>, b: map<int32, int32>)
    requires forall k | k in a :: k in b && b[k] == a[k]
    requires |a| == |b|
    ensures a == b
  {
    var s, t := a.Keys, b.Keys;
    assert s <= t;
    assert s * t == s && s + t == t;
    assert |t - s| == 0;
    assert t - s == {};
    assert s == t;
  }

  /**
   * `_setThreshold(initialCapacity, 0.75)`: IllegalArgumentException for
   * a negative capacity, otherwise the capacity (0 counting as 1) and
   * the threshold, three quarters of it.
   */
  function SetThreshold(initialCapacity: int): (r: Result<(nat, nat)>)
    ensures r.Err? <==> initialCapacity < 0
    ensures r.Err? ==> r.failure == IllegalArgument
    ensures r.Ok? ==> r.value.0 >= 1 && (initialCapacity > 0 ==> r.value.0 == initialCapacity)
    ensures r.Ok? ==> r.value.1 < r.value.0 && (r.value.0 >= 4 ==> r.value.1 > 0)
  {
    if initialCapacity < 0 then Err(IllegalArgument)
    else
      var capacity := if initialCapacity == 0 then 1 else initialCapacity;
      Ok((capacity, (capacity * 3) / 4))
  }

  class IntToIntMap {
    var table: array<seq<Entry>>
    var size: int
    var threshold: int
    /** The mapping the buckets represent. */
    ghost var contents: map<int32, int32>

    ghost predicate Valid()
      reads this, table
    {
      Table(table[..], contents) && size == |contents|
    }

    /** `IntToIntMap(initialCapacity)` for a capacity `_setThreshold` accepts; `IntToIntMap()` uses 11. */
    constructor (initialCapacity: nat)
      ensures Valid() && fresh(table) && contents == map[]
      ensures SetThreshold(initialCapacity) == Ok((table.Length, threshold))
    {
      var capacity := if initialCapacity == 0 then 1 else initialCapacity;
      table := new seq<Entry>[capacity](_ => []);
      threshold := (capacity * 3) / 4;
      size := 0;
      contents := map[];
      new;
      TableEmpty(table[..]);
    }

    /** `IntToIntMap(initialCapacity)` on any int: IllegalArgumentException when negative. */
    static method Create(initialCapacity: int) returns (r: Result<IntToIntMap>)
      ensures r.Err? <==> initialCapacity < 0
      ensures r.Err? ==> r.failure == IllegalArgument
      ensures r.Ok? ==> fresh(r.value) && fresh(r.value.table) && r.value.Valid() && r.value.contents == map[]
    {
      if initialCapacity < 0 {
        return Err(IllegalArgument);
      }
      var created := new IntToIntMap(initialCapacity);
      return Ok(created);
    }

    /** `IntToIntMap(map)`: a copy with capacity max(2 * size, 11). */
    static method CopyOf(source: IntToIntMap) returns (r: IntToIntMap)
      requires source.Valid()
      ensures fresh(r) && r.Valid() && r.contents == source.contents
    {
      var capacity := if 2 * source.size > 11 then 2 * source.size else 11;
      ghost var m := source.contents;
      r := new IntToIntMap(capacity);
      r.Include(source);
      EmptyUnion(m);
    }

    /** `size()`. */
    function Size(): (n: int)
      reads this, table
      requires Valid()
      ensures n == |contents|
    {
      size
    }

    /** `isEmpty()`. */
    function IsEmpty(): (b: bool)
      reads this, table
      requires Valid()
      ensures b <==> contents == map[]
    {
      size == 0
    }

    /**
     * The walk down key's bucket that `get`, `containsKey`,
     * `containsEntry`, `put` and `remove` share: the bucket and the
     * position of key's entry in it, or -1.
     */
    method Find(key: int32) returns (index: int, j: int)
      requires Valid()
      ensures index == Bucket(key, table.Length) && -1 <= j < |table[index]|
      ensures j == -1 <==> key !in contents
      ensures j != -1 ==> table[index][j].key == key && contents[key] == table[index][j].value
    {
      index := Bucket(key, table.Length);
      var chain := table[index];
      j := 0;
      while j < |chain|
        invariant 0 <= j <= |chain|
        invariant forall p | 0 <= p < j :: chain[p].key != key
      {
        if chain[j].key == key {
          TableLookup(table[..], contents, key);
          return;
        }
        j := j + 1;
      }
      TableLookup(table[..], contents, key);
      j := -1;
    }

    /** `get(key)`: the value of key, or NOT_FOUND_VALUE when key is absent. */
    method Get(key: int32) returns (r: int32)
      requires Valid()
      ensures key in contents ==> r == contents[key]
      ensures key !in contents ==> r == NOT_FOUND
    {
      var index, j := Find(key);
      r := if j == -1 then NOT_FOUND else table[index][j].value;
    }

    /** `containsKey(key)`. */
    method ContainsKey(key: int32) returns (b: bool)
      requires Valid()
      ensures b <==> key in contents
    {
      var index, j := Find(key);
      b := j != -1;
    }

    /** `containsEntry(key, value)`: whether key is present and mapped to value; the first entry for key decides. */
    method ContainsEntry(key: int32, value: int32) returns (b: bool)
      requires Valid()
      ensures b <==> key in contents && contents[key] == value
    {
      var index, j := Find(key);
      b := j != -1 && table[index][j].value == value;
    }

    /** `containsValue(value)`: whether some key maps to value. */
    method ContainsValue(value: int32) returns (b: bool)
      requires Valid()
      ensures b <==> exists k | k in contents :: contents[k] == value
    {
      var i := 0;
      while i < table.Length
        invariant 0 <= i <= table.Length
        invariant forall c, j | 0 <= c < i && 0 <= j < |table[c]| :: table[c][j].value != value
      {
        var chain := table[i];
        var j := 0;
        while j < |chain|
          invariant 0 <= j <= |chain|
          invariant forall p | 0 <= p < j :: chain[p].value != value
        {
          if chain[j].value == value {
            assert table[..][i][j] == chain[j];
            return true;
          }
          j := j + 1;
        }
        i := i + 1;
      }
      forall k | k in contents
        ensures contents[k] != value
      {
        var p := FindKey(table[..][Bucket(k, table.Length)], k);
        assert table[Bucket(k, table.Length)][p].value == contents[k];
      }
      return false;
    }

    /**
     * `_rehash()`: relinks every entry, bucket by bucket and head first,
     * into a fresh table of 2 * length + 1 buckets; the mapping and the
     * size are unchanged.
     */
    method Rehash()
      requires Valid()
      modifies this
      ensures Valid() && fresh(table)
      ensures contents == old(contents) && size == old(size)
      ensures table.Length == 2 * old(table.Length) + 1 && threshold == (table.Length * 3) / 4
    {
      var newTable := Relink(table, contents);
      table := newTable;
      threshold := (table.Length * 3) / 4;
    }

    /** The loops of `_rehash()`: every entry of source, bucket by bucket and head first, linked into a fresh table. */
    static method Relink(source: array<seq<Entry>>, ghost m: map<int32, int32>) returns (target: array<seq<Entry>>)
      requires Table(source[..], m)
      ensures fresh(target) && target.Length == 2 * source.Length + 1
      ensures Table(target[..], m)
    {
      ghost var src: seq<seq<Entry>> := source[..];
      target := new seq<Entry>[2 * source.Length + 1](_ => []);
      TableEmpty(target[..]);
      ghost var done: map<int32, int32> := map[];
      RelinkedStart(m, source.Length);
      var i := 0;
      while i < source.Length
        modifies target
        invariant 0 <= i <= source.Length
        invariant Table(target[..], done) && Relinked(done, m, source.Length, i, [])
      {
        var chain := source[i];
        TableChain(src, m, i);
        var j := 0;
        while j < |chain|
          modifies target
          invariant 0 <= j <= |chain|
          invariant Table(target[..], done) && Relinked(done, m, source.Length, i, chain[..j])
        {
          var entry := chain[j];
          RelinkedNext(done, m, source.Length, i, chain, j);
          var index := Bucket(entry.key, target.Length);
          ghost var t: seq<seq<Entry>> := target[..];
          TableInsert(t, done, entry);
          target[index] := [entry] + target[index];
          assert target[..] == t[index := [entry] + t[index]];
          done := done[entry.key := entry.value];
          j := j + 1;
        }
        assert chain[..j] == chain;
        RelinkedBucket(done, m, source.Length, i, chain);
        i := i + 1;
      }
      RelinkedEnd(done, m, source.Length);
    }

    /**
     * `put(key, value)`: an entry for key gets the new value and the old
     * one is returned; otherwise, after a rehash when the size has reached
     * the threshold, a new entry goes at the head of key's bucket and
     * value is returned.
     */
    method Put(key: int32, value: int32) returns (r: int32)
      requires Valid()
      modifies this, table
      ensures Valid()
      ensures contents == old(contents)[key := value]
      ensures r == if key in old(contents) then old(contents)[key] else value
      ensures key in old(contents) || old(size) < old(threshold) ==> table == old(table) && threshold == old(threshold)
      ensures key !in old(contents) && old(size) >= old(threshold) ==>
        fresh(table) && table.Length == 2 * old(table.Length) + 1 && threshold == (table.Length * 3) / 4
    {
      var index, j := Find(key);
      if j != -1 {
        r := table[index][j].value;
        ghost var t := table[..];
        TableReplace(t, contents, index, j, value);
        table[index] := table[index][j := Entry(key, value)];
        assert table[..] == t[index := t[index][j := Entry(key, value)]];
        contents := contents[key := value];
        return;
      }
      if size >= threshold {
        Rehash();
        index := Bucket(key, table.Length);
      }
      Link(index, Entry(key, value));
      r := value;
    }

    /** Links a new entry for a key not in the map at the head of its bucket. */
    method Link(index: int, e: Entry)
      requires Valid() && e.key !in contents && index == Bucket(e.key, table.Length)
      modifies this, table
      ensures Valid() && table == old(table) && threshold == old(threshold)
      ensures contents == old(contents)[e.key := e.value]
    {
      ghost var t := table[..];
      TableInsert(t, contents, e);
      table[index] := [e] + table[index];
      assert table[..] == t[index := [e] + t[index]];
      size := size + 1;
      contents := contents[e.key := e.value];
    }

    /**
     * `add(n)` as corrected: maps n to the current size and returns the
     * number n now maps to.
     */
    method Add(n: int32) returns (r: int)
      requires Valid() && size <= MAX_INT
      modifies this, table
      ensures Valid() && (table == old(table) || fresh(table))
      ensures r == old(size)
      ensures contents == old(contents)[n := r as int32]
    {
      r := size;
      var _ := Put(n, size as int32);
    }

    /** `add(n)` as written: `put(n, _size); return _size - 1;`. */
    method AddAsWritten(n: int32) returns (r: int)
      requires Valid() && size <= MAX_INT
      modifies this, table
      ensures Valid() && (table == old(table) || fresh(table))
      ensures contents == old(contents)[n := old(size) as int32]
      ensures r == size - 1
    {
      var _ := Put(n, size as int32);
      r := size - 1;
    }

    /** `remove(key)`: unlinks key's entry and returns its value, or NOT_FOUND_VALUE when absent. */
    method Remove(key: int32) returns (r: int32)
      requires Valid()
      modifies this, table
      ensures Valid() && table == old(table)
      ensures contents == old(contents) - {key}
      ensures key in old(contents) ==> r == old(contents)[key]
      ensures key !in old(contents) ==> r == NOT_FOUND
    {
      var index, j := Find(key);
      if j == -1 {
        assert contents == contents - {key};
        return NOT_FOUND;
      }
      r := table[index][j].value;
      Unlink(index, j);
    }

    /** Unlinks the j-th entry of bucket index. */
    method Unlink(index: int, j: int)
      requires Valid() && 0 <= index < table.Length && 0 <= j < |table[index]|
      modifies this, table
      ensures Valid() && table == old(table)
      ensures contents == old(contents) - {old(table[index][j].key)}
    {
      ghost var t: seq<seq<Entry>> := table[..];
      ghost var key := t[index][j].key;
      TableRemove(t, contents, index, j);
      RemoveSize(contents, key);
      table[index] := table[index][..j] + table[index][j + 1..];
      assert table[..] == t[index := t[index][..j] + t[index][j + 1..]];
      contents := contents - {key};
      size := size - 1;
    }

    /** `clear()`: empties every bucket. */
    method Clear()
      requires Valid()
      modifies this, table
      ensures Valid() && table == old(table) && contents == map[]
      ensures forall b | 0 <= b < table.Length :: table[b] == []
    {
      var i := 0;
      while i < table.Length
        modifies table
        invariant 0 <= i <= table.Length
        invariant forall c | 0 <= c < i :: table[c] == []
      {
        table[i] := [];
        i := i + 1;
      }
      TableEmpty(table[..]);
      size := 0;
      contents := map[];
    }

    /**
     * `include(map)`: puts every entry of source, bucket by bucket; the
     * entries of source win. Including the map itself changes nothing.
     */
    method Include(source: IntToIntMap)
      requires Valid() && source.Valid()
      modifies this, table
      ensures Valid()
      ensures contents == old(contents) + old(source.contents)
    {
      if source == this {
        assert contents + contents == contents;
        return;
      }
      PutBuckets(source.table[..], source.contents);
    }

    /** The loops of `include(map)`: puts the entries of the buckets, bucket by bucket and head first. */
    method PutBuckets(buckets: seq<seq<Entry>>, ghost from: map<int32, int32>)
      requires Valid() && Table(buckets, from)
      modifies this, table
      ensures Valid()
      ensures contents == old(contents) + from
    {
      ghost var done: map<int32, int32> := map[];
      RelinkedStart(from, |buckets|);
      var i := 0;
      while i < |buckets|
        invariant 0 <= i <= |buckets|
        invariant Valid() && (table == old(table) || fresh(table))
        invariant contents == old(contents) + done && Relinked(done, from, |buckets|, i, [])
      {
        TableChain(buckets, from, i);
        done := PutChain(buckets[i], from, |buckets|, i, done, old(contents));
        i := i + 1;
      }
      RelinkedEnd(done, from, |buckets|);
    }

    /** The inner loop of `include(map)`: puts the entries of one bucket of the source, head first. */
    method PutChain(chain: seq<Entry>, ghost from: map<int32, int32>, ghost n: int, ghost i: int,
                    ghost done: map<int32, int32>, ghost base: map<int32, int32>)
      returns (ghost done': map<int32, int32>)
      requires n > 0 && Valid() && Chain(chain, from, n, i)
      requires contents == base + done && Relinked(done, from, n, i, [])
      modifies this, table
      ensures Valid() && (table == old(table) || fresh(table))
      ensures contents == base + done' && Relinked(done', from, n, i + 1, [])
    {
      done' := done;
      var j := 0;
      while j < |chain|
        invariant 0 <= j <= |chain|
        invariant Valid() && (table == old(table) || fresh(table))
        invariant contents == base + done' && Relinked(done', from, n, i, chain[..j])
      {
        var entry := chain[j];
        RelinkedNext(done', from, n, i, chain, j);
        var _ := Put(entry.key, entry.value);
        UnionUpdate(base, done', entry.key, entry.value);
        done' := done'[entry.key := entry.value];
        j := j + 1;
      }
      assert chain[..j] == chain;
      RelinkedBucket(done', from, n, i, chain);
    }

    /** `isEqualTo(map)`: the same mappings (the same object, or equal sizes and every entry contained). */
    method IsEqualTo(other: IntToIntMap) returns (b: bool)
      requires Valid() && other.Valid()
      ensures b <==> contents == other.contents
    {
      if other == this {
        return true;
      }
      if other.size != size {
        return false;
      }
      b := EntriesIn(table[..], other);
      if b {
        TableSubmap(table[..], contents, other.contents);
        SubmapOfSameSize(contents, other.contents);
      }
    }

    /** The loops of `isEqualTo(map)`: whether `containsEntry` holds in other for every entry of the buckets. */
    static method EntriesIn(buckets: seq<seq<Entry>>, other: IntToIntMap) returns (b: bool)
      requires other.Valid()
      ensures b <==> forall c, j | 0 <= c < |buckets| && 0 <= j < |buckets[c]| ::
        buckets[c][j].key in other.contents && other.contents[buckets[c][j].key] == buckets[c][j].value
    {
      var i := 0;
      while i < |buckets|
        invariant 0 <= i <= |buckets|
        invariant forall c, j | 0 <= c < i && 0 <= j < |buckets[c]| ::
          buckets[c][j].key in other.contents && other.contents[buckets[c][j].key] == buckets[c][j].value
      {
        var chain := buckets[i];
        var j := 0;
        while j < |chain|
          invariant 0 <= j <= |chain|
          invariant forall p | 0 <= p < j :: chain[p].key in other.contents && other.contents[chain[p].key] == chain[p].value
        {
          var contained := other.ContainsEntry(chain[j].key, chain[j].value);
          if !contained {
            return false;
          }
          j := j + 1;
        }
        i := i + 1;
      }
      return true;
    }
  }

  /**
   * `add(5)` twice on an empty map: the second call maps 5 to 1 but, as
   * written, returns 0, the number the first call already returned.
   */
  method AddAsWrittenReturnsStaleNumber() returns (m: IntToIntMap, first: int, second: int)
    ensures first == 0 && second == 0
    ensures m.contents == map[5 := 1]
  {
    m := new IntToIntMap(11);
    first := m.AddAsWritten(5);
    second := m.AddAsWritten(5);
  }
}
