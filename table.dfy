/**
 * util/Table.java: an association list kept as two parallel array lists,
 * keys and values; `put` appends a pair and `get` answers with the value
 * of the first pair whose key equals the one asked for.
 */
module Tables {
  import opened Wrappers
  import opened Seqs
  import opened ArrayLists

  /** The value that the first pair with key `key` binds, or None (Java null) when there is no such pair. */
  function Lookup<K(==), V>(keys: seq<Option<K>>, values: seq<Option<V>>, key: K): (r: Option<V>)
    requires |keys| == |values|
    ensures Some(key) !in keys ==> r == None
    ensures Some(key) in keys ==>
      exists i | 0 <= i < |keys| :: keys[i] == Some(key) && Some(key) !in keys[..i] && r == values[i]
  {
    var i := FirstIndex(keys, Some(key), 0);
    if i == -1 then None else values[i]
  }

  /** Appending a pair to a list that already has key shadows nothing; otherwise a matching pair becomes visible. */
  lemma LookupAppend<K, V>(keys: seq<Option<K>>, values: seq<Option<V>>, k: Option<K>, v: Option<V>, key: K)
    requires |keys| == |values|
    ensures Some(key) in keys ==> Lookup(keys + [k], values + [v], key) == Lookup(keys, values, key)
    ensures Some(key) !in keys && k == Some(key) ==> Lookup(keys + [k], values + [v], key) == v
    ensures Some(key) !in keys && k != Some(key) ==> Lookup(keys + [k], values + [v], key) == None
  {
    var s := keys + [k];
    var i := FirstIndex(keys, Some(key), 0);
    var i' := FirstIndex(s, Some(key), 0);
    if i != -1 {
      assert s[i] == Some(key);
      assert i' == i;
    } else if k == Some(key) {
      assert s[|keys|] == Some(key);
      assert i' == |keys|;
    } else {
      assert forall j | 0 <= j < |s| :: s[j] != Some(key);
    }
  }

  class Table<K(==), V(==)> {
    /** The keys, in the order they were put. */
    const keys: ArrayList<K>
    /** The values, parallel to the keys. */
    const values: ArrayList<V>

    ghost predicate Valid()
      reads this, keys, values
    {
      keys.Valid() && values.Valid() && keys.size == values.size &&
      keys as object != values as object && keys.data as object != values.data as object
    }

    /** The keys put so far, oldest first. */
    ghost function Keys(): seq<Option<K>>
      reads this, keys, keys.data, values
      requires Valid()
    {
      keys.Elements()
    }

    /** The values put so far, oldest first. */
    ghost function Values(): seq<Option<V>>
      reads this, keys, values, values.data
      requires Valid()
    {
      values.Elements()
    }

    /** `Table(cap)`; `Table()` uses the array lists' default capacity 10. */
    constructor (cap: nat)
      ensures Valid() && Keys() == [] && Values() == []
      ensures fresh(keys) && fresh(keys.data) && fresh(values) && fresh(values.data)
    {
      keys := new ArrayList(cap, 0);
      values := new ArrayList(cap, 0);
    }

    /** `new Table(cap)` for any int cap: `new ArrayList(cap)` throws NegativeArraySizeException for a negative one. */
    static method Create(cap: int) returns (r: Result<Table<K, V>>)
      ensures r.Err? <==> cap < 0
      ensures r.Err? ==> r.failure == NegativeArraySize
      ensures r.Ok? ==> fresh(r.value) && fresh(r.value.keys) && fresh(r.value.values)
      ensures r.Ok? ==> r.value.Valid() && r.value.Keys() == [] && r.value.Values() == []
    {
      if cap < 0 {
        return Err(NegativeArraySize);
      }
      var created := new Table<K, V>(cap);
      return Ok(created);
    }

    /** `put(key, value)`: appends the pair, whatever the keys already present. */
    method Put(key: Option<K>, value: Option<V>)
      requires Valid()
      modifies keys, keys.data, values, values.data
      ensures Valid()
      ensures Keys() == old(Keys()) + [key] && Values() == old(Values()) + [value]
      ensures keys.data == old(keys.data) || fresh(keys.data)
      ensures values.data == old(values.data) || fresh(values.data)
    {
      keys.Add(key);
      values.Add(value);
    }

    /** `get(key)`: the value of the first pair whose key is key, or null. */
    method Get(key: K) returns (r: Option<V>)
      requires Valid()
      ensures r == Lookup(Keys(), Values(), key)
    {
      var index := keys.IndexOf(key);
      if index == -1 {
        return None;
      }
      var got := values.Get(index);
      r := if got.Ok? then got.value else None;
    }

    /** `values()`: the list of values itself, shared with the table. */
    method ValueList() returns (list: ArrayList<V>)
      requires Valid()
      ensures list == values && list.Elements() == Values()
    {
      list := values;
    }

    /** `isEmpty()`: no pair has been put. */
    method IsEmpty() returns (b: bool)
      requires Valid()
      ensures b <==> Keys() == [] && Values() == []
    {
      b := keys.size == 0;
    }
  }

  /** A second `put` under a key does not change what `get` answers for it. */
  method PutTwice() returns (t: Table<int, int>, r: Option<int>)
    ensures r == Some(1)
  {
    t := new Table(0);
    t.Put(Some(7), Some(1));
    t.Put(Some(7), Some(2));
    LookupAppend(t.Keys()[..1], t.Values()[..1], Some(7), Some(2), 7);
    assert t.Keys()[..1] + [Some(7)] == t.Keys();
    r := t.Get(7);
  }
}
