/**
  The entry cursor. An `Entry` names one key of one map and turns every
  operation into a `get`, `set` or `remove` of that key on the map, so each
  contract below says what happens to the value under `key` and that the
  pairs under every other key stay as they were.
*/
module Entries {
  import opened OptionResult
  import opened Buckets
  import opened Hashing
  import opened HashMaps

  /** What `m.get(k)` returns: the value of the stored pair whose key
      equals `k`. */
  ghost function ValueAt<K(!new), V>(m: HashMap<K, V>, k: K): Option<V>
    requires m.buckets.Length > 0
    reads m, m.buckets
  {
    match m.Stored(k)
    case Some(p) => Some(p.1)
    case None => None
  }

  class Entry<K(!new), V> {
    const hashMap: HashMap<K, V>
    const key: K

    /** `new Entry(map, key)`, which is all `map.entry(key)` does: nothing
        is looked up or stored when the cursor is made. */
    constructor (hashMap: HashMap<K, V>, key: K)
      ensures this.hashMap == hashMap && this.key == key
    {
      this.hashMap := hashMap;
      this.key := key;
    }

    /** `key()`: the key the cursor was made with, whether or not it is
        stored. */
    function Key(): (r: K)
      ensures r == key
    {
      key
    }

    /** `get()`. */
    method Get() returns (r: Option<V>)
      requires hashMap.Valid()
      ensures r == ValueAt(hashMap, key)
      ensures r.Some? <==> exists p :: p in hashMap.Items() && hashMap.equals(key, p.0)
    {
      r := hashMap.Get(key);
      ItemsAreStored(hashMap.buckets[..], hashMap.hash, hashMap.equals);
      if r.Some? {
        assert hashMap.Stored(key).value in hashMap.Items();
      }
    }

    /** `isOccupied()`: whether `get()` finds a value. */
    method IsOccupied() returns (r: bool)
      requires hashMap.Valid()
      ensures r <==> ValueAt(hashMap, key).Some?
      ensures r <==> hashMap.Stored(key).Some?
    {
      var v := Get();
      r := v.IsSome();
    }

    /** The private `set(value)`: `map.set(key, value)`. Afterwards `get()`
        is `value`; a stored key equal to `key` keeps its original form. */
    method Assign(value: V)
      requires hashMap.Valid()
      requires hashMap.Stored(key).Some? || !OverThreshold(hashMap.count + 1, MaxBuckets)
      modifies hashMap, hashMap.buckets
      ensures hashMap.Valid()
      ensures ValueAt(hashMap, key) == Some(value)
      ensures forall k :: hashMap.Stored(k) ==
                if hashMap.equals(k, key) then
                  Some((if old(hashMap.Stored(key)).Some? then old(hashMap.Stored(key)).value.0 else key, value))
                else old(hashMap.Stored(k))
      ensures hashMap.count == old(hashMap.count) + (if old(hashMap.Stored(key)).Some? then 0 else 1)
    {
      hashMap.Set(key, value);
      assert hashMap.equals(key, key);
    }

    /** `insert(value)`: the previous value, after which `get()` is
        `value`. */
    method Insert(value: V) returns (r: Option<V>)
      requires hashMap.Valid()
      requires hashMap.Stored(key).Some? || !OverThreshold(hashMap.count + 1, MaxBuckets)
      modifies hashMap, hashMap.buckets
      ensures hashMap.Valid()
      ensures r == old(ValueAt(hashMap, key))
      ensures ValueAt(hashMap, key) == Some(value)
      ensures forall k :: !hashMap.equals(k, key) ==> hashMap.Stored(k) == old(hashMap.Stored(k))
      ensures hashMap.count == old(hashMap.count) + (if r.Some? then 0 else 1)
    {
      r := Get();
      Assign(value);
    }

    /** `insertEntry(value)`: the same change to the map as `insert`. */
    method InsertEntry(value: V)
      requires hashMap.Valid()
      requires hashMap.Stored(key).Some? || !OverThreshold(hashMap.count + 1, MaxBuckets)
      modifies hashMap, hashMap.buckets
      ensures hashMap.Valid()
      ensures ValueAt(hashMap, key) == Some(value)
      ensures forall k :: !hashMap.equals(k, key) ==> hashMap.Stored(k) == old(hashMap.Stored(k))
      ensures hashMap.count == old(hashMap.count) + (if old(ValueAt(hashMap, key)).Some? then 0 else 1)
    {
      Assign(value);
    }

    /** `orInsert(value)`: store `value` only when the key is vacant; an
        existing value is left untouched. */
    method OrInsert(value: V)
      requires hashMap.Valid()
      requires hashMap.Stored(key).Some? || !OverThreshold(hashMap.count + 1, MaxBuckets)
      modifies hashMap, hashMap.buckets
      ensures hashMap.Valid()
      ensures ValueAt(hashMap, key) ==
                if old(ValueAt(hashMap, key)).Some? then old(ValueAt(hashMap, key)) else Some(value)
      ensures forall k :: !hashMap.equals(k, key) ==> hashMap.Stored(k) == old(hashMap.Stored(k))
      ensures old(ValueAt(hashMap, key)).Some? ==>
                forall k :: hashMap.Stored(k) == old(hashMap.Stored(k))
    {
      var current := Get();
      if current.None? {
        Assign(value);
      }
    }

    /** `orInsertWith(fn)`: when the key is vacant, store `fn(key)`; when
        it is occupied, `fn` is not used. */
    method OrInsertWith(fn: K -> V)
      requires hashMap.Valid()
      requires hashMap.Stored(key).Some? || !OverThreshold(hashMap.count + 1, MaxBuckets)
      modifies hashMap, hashMap.buckets
      ensures hashMap.Valid()
      ensures ValueAt(hashMap, key) ==
                if old(ValueAt(hashMap, key)).Some? then old(ValueAt(hashMap, key)) else Some(fn(key))
      ensures forall k :: !hashMap.equals(k, key) ==> hashMap.Stored(k) == old(hashMap.Stored(k))
      ensures old(ValueAt(hashMap, key)).Some? ==>
                forall k :: hashMap.Stored(k) == old(hashMap.Stored(k))
    {
      var current := Get();
      if current.None? {
        Assign(fn(key));
      }
    }

    /** `andModify(fn)`: replace the value `v` by `fn(v)` when the key is
        occupied; on a vacant key nothing changes. */
    method AndModify(fn: V -> V)
      requires hashMap.Valid()
      modifies hashMap, hashMap.buckets
      ensures hashMap.Valid()
      ensures ValueAt(hashMap, key) ==
                match old(ValueAt(hashMap, key))
                case Some(v) => Some(fn(v))
                case None => None
      ensures forall k :: !hashMap.equals(k, key) ==> hashMap.Stored(k) == old(hashMap.Stored(k))
      ensures hashMap.count == old(hashMap.count)
      ensures old(ValueAt(hashMap, key)).None? ==>
                forall k :: hashMap.Stored(k) == old(hashMap.Stored(k))
    {
      var current := Get();
      if current.Some? {
        Assign(fn(current.value));
      }
    }

    /** `remove()`: the previous value; afterwards no key equal to `key` is
        stored. */
    method Remove() returns (r: Option<V>)
      requires hashMap.Valid()
      modifies hashMap, hashMap.buckets
      ensures hashMap.Valid()
      ensures r == old(ValueAt(hashMap, key))
      ensures ValueAt(hashMap, key) == None
      ensures forall k :: hashMap.Stored(k) ==
                if hashMap.equals(k, key) then None else old(hashMap.Stored(k))
      ensures hashMap.count == old(hashMap.count) - (if r.Some? then 1 else 0)
    {
      r := Get();
      if r.Some? {
        var _ := hashMap.Remove(key);
      }
      assert hashMap.equals(key, key);
    }

    /** `removeEntry()`: like `remove()`, but the previous value comes
        paired with the cursor's own key. */
    method RemoveEntry() returns (r: Option<(K, V)>)
      requires hashMap.Valid()
      modifies hashMap, hashMap.buckets
      ensures hashMap.Valid()
      ensures r == match old(ValueAt(hashMap, key))
                   case Some(v) => Some((key, v))
                   case None => None
      ensures ValueAt(hashMap, key) == None
      ensures forall k :: hashMap.Stored(k) ==
                if hashMap.equals(k, key) then None else old(hashMap.Stored(k))
      ensures hashMap.count == old(hashMap.count) - (if r.Some? then 1 else 0)
    {
      var current := Get();
      r := None;
      if current.Some? {
        var _ := hashMap.Remove(key);
        r := Some((key, current.value));
      }
      assert hashMap.equals(key, key);
    }
  }

  /** `map.entries()`: one cursor per stored pair, in iteration order, each
      on the stored key. Every cursor is occupied when made, with the value
      of its pair, and no two cursors name equal keys. */
  method EntriesOf<K(!new), V>(m: HashMap<K, V>) returns (r: seq<Entry<K, V>>)
    requires m.Valid()
    ensures |r| == |m.Items()|
    ensures forall i :: 0 <= i < |r| ==> r[i].hashMap == m && r[i].key == m.Items()[i].0
    ensures forall i :: 0 <= i < |r| ==> ValueAt(m, r[i].key) == Some(m.Items()[i].1)
    ensures forall i, j :: 0 <= i < |r| && 0 <= j < |r| && i != j ==> !m.equals(r[i].key, r[j].key)
  {
    var items := m.Pairs();
    r := [];
    var i := 0;
    while i < |items|
      invariant 0 <= i <= |items|
      invariant |r| == i
      invariant forall j :: 0 <= j < i ==> r[j].hashMap == m && r[j].key == items[j].0
    {
      var e := new Entry(m, items[i].0);
      r := r + [e];
      i := i + 1;
    }
    forall i | 0 <= i < |r|
      ensures ValueAt(m, r[i].key) == Some(m.Items()[i].1)
    {
      assert items[i] in items;
    }
  }
}
