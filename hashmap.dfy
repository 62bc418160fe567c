/**
  The separately chained hash map. A `HashMap` owns an array of buckets and
  a count of stored pairs, and compares keys with a fixed hasher (`hash`,
  `equals`). Every method is proved against the value-level table of module
  `Buckets`: `Stored(k)` is what the map holds for `k`, `Items()` is the
  iteration order.

  The load threshold 0.75 is written as integer arithmetic: a map of `n`
  buckets is over the threshold when `4 * count > 3 * n`.
*/
module HashMaps {
  import opened OptionResult
  import opened Hashing
  import opened Buckets

  /** `count / buckets > HashMap.loadThreshold`. */
  predicate OverThreshold(count: int, buckets: int)
    ensures buckets > 0 ==>
              (OverThreshold(count, buckets) <==> count as real / buckets as real > 0.75)
  {
    RatioAbove(count, buckets);
    4 * count > 3 * buckets
  }

  /** For a positive denominator, `c / n > 0.75` in exact arithmetic is
      `4c > 3n` on integers. */
  lemma RatioAbove(c: int, n: int)
    ensures n > 0 ==> (c as real / n as real > 0.75 <==> 4 * c > 3 * n)
  {
    if n > 0 {
      var q, m := c as real / n as real, n as real;
      assert q * m == c as real;
      var d := q - 0.75;
      assert c as real == 0.75 * m + d * m;
      if d > 0.0 {
        assert d * m > 0.0;
      } else {
        assert d * m <= 0.0;
      }
    }
  }

  /** `Math.ceil(x / HashMap.loadThreshold)`: the fewest buckets that keep
      `x` pairs within the threshold. */
  function BucketsFor(x: int): (r: int)
    ensures !OverThreshold(x, r)
    ensures OverThreshold(x, r - 1)
  {
    (4 * x + 2) / 3
  }

  /** `Math.ceil(x * HashMap.loadThreshold)`. */
  function CeilThreeQuarters(x: int): (r: int)
    ensures 4 * r >= 3 * x && 4 * (r - 1) < 3 * x
  {
    (3 * x + 3) / 4
  }

  /** `Math.floor(n * HashMap.loadThreshold)`: the most pairs `n` buckets
      hold within the threshold. */
  function CapacityOf(n: int): (r: int)
    ensures !OverThreshold(r, n) && OverThreshold(r + 1, n)
  {
    3 * n / 4
  }

  /** A table of `n` buckets takes `c` pairs within the threshold exactly
      when `c` is at most its capacity, and exactly when `n` is at least
      `BucketsFor(c)`. */
  lemma ThresholdBounds(c: int, n: int)
    ensures !OverThreshold(c, n) <==> c <= CapacityOf(n)
    ensures !OverThreshold(c, n) <==> BucketsFor(c) <= n
  {
  }

  /** Any count within the threshold of the largest table asks
      `withCapacity` for no more than the largest table. */
  lemma CapacityFits(c: int)
    requires !OverThreshold(c, MaxBuckets)
    ensures CeilThreeQuarters(c) <= MaxBuckets
  {
  }

  /** Doubling a table that a new pair took over the threshold brings the
      load back within it, and stays a power of two no larger than the
      bound. */
  lemma Doubling(n: int, count: int)
    requires IsPow2(n) && n <= MaxBuckets
    requires OverThreshold(count, n) && !OverThreshold(count - 1, n)
    requires !OverThreshold(count, MaxBuckets)
    ensures 2 * n <= MaxBuckets && RoundUpPow2(2 * n) == 2 * n
    ensures !OverThreshold(count, 2 * n)
  {
    assert n < MaxBuckets;
    assert IsPow2(MaxBuckets) by {
      Pow2Is32();
      Pow2IsPow2(30);
    }
    Pow2Gap(n, MaxBuckets);
    assert IsPow2(2 * n) by {
      assert (2 * n) / 2 == n;
    }
    RoundUpPow2Fixed(2 * n);
  }

  class HashMap<K(!new), V> {
    const hash: K -> int
    const equals: (K, K) -> bool
    var buckets: array<Bucket<K, V>>
    var count: nat

    /** The buckets as a value. */
    ghost function Table(): seq<Bucket<K, V>>
      reads this, buckets
    {
      buckets[..]
    }

    /** The iteration order of `[Symbol.iterator]`. */
    ghost function Items(): seq<(K, V)>
      reads this, buckets
    {
      Flatten(buckets[..])
    }

    /** The stored pair whose key equals `k`, where `get` looks for it. */
    ghost function Stored(k: K): Option<(K, V)>
      requires buckets.Length > 0
      reads this, buckets
    {
      Lookup(buckets[..], k, hash, equals)
    }

    /** `Stored` unfolded, for both directions of a quantifier over keys. */
    lemma StoredIsLookup()
      requires buckets.Length > 0
      ensures forall k :: Stored(k) == Lookup(buckets[..], k, hash, equals)
    {
    }

    /** The structure every method relies on: a power-of-two number of
        buckets, each pair in the bucket of its hash, no two equal keys, and
        `count` pairs in all. */
    ghost predicate Sound()
      reads this, buckets
    {
      && HasherLaws(hash, equals)
      && IsPow2(buckets.Length) && buckets.Length <= MaxBuckets
      && WellFormed(buckets[..], hash, equals)
      && count == |Flatten(buckets[..])|
    }

    /** Between calls the load is also within the threshold. */
    ghost predicate Valid()
      reads this, buckets
    {
      Sound() && !OverThreshold(count, buckets.Length)
    }

    /** `new HashMap(hasher)`: eight empty buckets. The default hasher is
        not part of this model, so the hasher is always given. */
    constructor (hash: K -> int, equals: (K, K) -> bool)
      requires HasherLaws(hash, equals)
      ensures Valid() && fresh(buckets)
      ensures this.hash == hash && this.equals == equals
      ensures buckets.Length == 8 && count == 0 && Items() == []
      ensures forall k :: Stored(k).None?
    {
      this.hash := hash;
      this.equals := equals;
      buckets := new Bucket<K, V>[8](_ => []);
      count := 0;
      new;
      assert buckets[..] == EmptyTable<K, V>(8);
      EmptyTableSpec<K, V>(8, hash, equals);
      Pow2IsPow2(3);
      assert Pow2(3) == 8;
    }

    /** `size()`. */
    function Size(): (r: nat)
      requires Valid()
      reads this, buckets
      ensures r == |Items()|
    {
      count
    }

    /** `isEmpty()`: no pair is stored, equivalently no key is present. */
    function IsEmpty(): (r: bool)
      requires Valid()
      reads this, buckets
      ensures r <==> Items() == []
      ensures r <==> forall k :: Stored(k).None?
    {
      EmptyIffNoKey(buckets[..], hash, equals);
      StoredIsLookup();
      count == 0
    }

    /** `buckets()`: always a power of two. */
    function BucketCount(): (r: int)
      requires Valid()
      reads this, buckets
      ensures IsPow2(r) && r <= MaxBuckets
      ensures !OverThreshold(|Items()|, r)
    {
      buckets.Length
    }

    /** `capacity()`: the most pairs the current buckets hold without
        growing. */
    function Capacity(): (r: int)
      requires Valid()
      reads this, buckets
      ensures !OverThreshold(r, buckets.Length) && OverThreshold(r + 1, buckets.Length)
      ensures |Items()| <= r
    {
      ThresholdBounds(count, buckets.Length);
      CapacityOf(buckets.Length)
    }

    /** `getBucket(key)`: the bucket index of `key`. */
    function BucketOf(key: K): (r: nat)
      requires Valid()
      reads this, buckets
      ensures r == Idx(hash(key), buckets.Length) && r < buckets.Length
    {
      BucketIndex(hash(key), buckets.Length)
    }

    /** The linear scan of a bucket that `set`, `get`, `getKeyValue` and
        `remove` each run: the first position whose key equals `key`. */
    method Scan(bucket: Bucket<K, V>, key: K) returns (r: Option<nat>)
      ensures r.Some? ==> r.value < |bucket| && equals(key, bucket[r.value].0)
      ensures r.Some? ==> forall j :: 0 <= j < r.value ==> !equals(key, bucket[j].0)
      ensures r.None? <==> forall j :: 0 <= j < |bucket| ==> !equals(key, bucket[j].0)
    {
      var i := 0;
      while i < |bucket|
        invariant 0 <= i <= |bucket|
        invariant forall j :: 0 <= j < i ==> !equals(key, bucket[j].0)
      {
        if equals(key, bucket[i].0) {
          return Some(i);
        }
        i := i + 1;
      }
      return None;
    }

    /** `get(key)`: the value of the stored pair whose key equals `key`, which
        is the first such pair in iteration order. */
    method Get(key: K) returns (r: Option<V>)
      requires Valid()
      ensures r.Some? <==> Stored(key).Some?
      ensures r.Some? ==> r.value == Stored(key).value.1
      ensures r.Some? <==> Find(Items(), key, equals).Some?
    {
      var bucket := buckets[BucketOf(key)];
      LookupIsFirstInIterationOrder(buckets[..], key, hash, equals);
      var i := 0;
      while i < |bucket|
        invariant 0 <= i <= |bucket|
        invariant forall j :: 0 <= j < i ==> !equals(key, bucket[j].0)
      {
        var (k, v) := bucket[i];
        if equals(key, k) {
          IndexOfAt(bucket, key, equals, i);
          return Some(v);
        }
        i := i + 1;
      }
      return None;
    }

    /** `getKeyValue(key)`: the stored pair itself, under the key that was
        stored first. */
    method GetKeyValue(key: K) returns (r: Option<(K, V)>)
      requires Valid()
      ensures r == Stored(key)
      ensures r.Some? ==> equals(key, r.value.0) && r.value in Items()
      ensures r.None? ==> forall p :: p in Items() ==> !equals(key, p.0)
    {
      var bucket := buckets[BucketOf(key)];
      ItemsAreStored(buckets[..], hash, equals);
      LookupIsFirstInIterationOrder(buckets[..], key, hash, equals);
      var i := 0;
      while i < |bucket|
        invariant 0 <= i <= |bucket|
        invariant forall j :: 0 <= j < i ==> !equals(key, bucket[j].0)
      {
        if equals(key, bucket[i].0) {
          IndexOfAt(bucket, key, equals, i);
          return Some(bucket[i]);
        }
        i := i + 1;
      }
      return None;
    }

    /** `has(key)`: whether `get(key)` finds a value. */
    method Has(key: K) returns (r: bool)
      requires Valid()
      ensures r <==> Stored(key).Some?
      ensures r <==> exists p :: p in Items() && equals(key, p.0)
    {
      var exists_ := Get(key);
      ItemsAreStored(buckets[..], hash, equals);
      if exists_.Some? {
        assert Stored(key).value in Items();
      }
      r := exists_.IsSome();
    }

    /** `set(key, value)`: overwrite the value of the stored key equal to
        `key`, or append a new pair and, when that takes the load over the
        threshold, double the buckets. */
    method Set(key: K, value: V)
      requires Valid()
      requires Stored(key).Some? || !OverThreshold(count + 1, MaxBuckets)
      modifies this, buckets
      ensures Valid()
      ensures forall k :: Stored(k) ==
                if equals(k, key) then
                  Some((if old(Stored(key)).Some? then old(Stored(key)).value.0 else key, value))
                else old(Stored(k))
      ensures count == old(count) + (if old(Stored(key)).Some? then 0 else 1)
      ensures buckets == old(buckets) || fresh(buckets)
      ensures var updated := SetIn(old(Table()), key, value, hash, equals);
              Table() ==
                if old(Stored(key)).None? && OverThreshold(old(count) + 1, old(buckets.Length))
                then Rehash(Flatten(updated), 2 * old(buckets.Length), hash)
                else updated
    {
      ghost var updated := SetIn(buckets[..], key, value, hash, equals);
      var added := Put(key, value);
      if added && OverThreshold(count, buckets.Length) {
        ghost var n := buckets.Length;
        Doubling(n, count);
        Resize(buckets.Length * 2);
        assert Table() == Rehash(Flatten(updated), 2 * n, hash);
      }
    }

    /** The body of `set` up to the growth check: overwrite in place, or
        append and count the new pair. */
    method Put(key: K, value: V) returns (added: bool)
      requires Valid()
      modifies buckets, this`count
      ensures Sound()
      ensures added <==> old(Stored(key)).None?
      ensures count == old(count) + (if added then 1 else 0)
      ensures Table() == SetIn(old(Table()), key, value, hash, equals)
      ensures forall k :: Stored(k) ==
                if equals(k, key) then
                  Some((if old(Stored(key)).Some? then old(Stored(key)).value.0 else key, value))
                else old(Stored(k))
    {
      ghost var before := buckets[..];
      SetInSpec(before, key, value, hash, equals);
      var t := BucketOf(key);
      var bucket := buckets[t];
      var found := Scan(bucket, key);
      if found.Some? {
        var i := found.value;
        IndexOfAt(bucket, key, equals, i);
        buckets[t] := bucket[i := (bucket[i].0, value)];
        assert buckets[..] == SetIn(before, key, value, hash, equals);
        return false;
      }
      buckets[t] := bucket + [(key, value)];
      count := count + 1;
      assert buckets[..] == SetIn(before, key, value, hash, equals);
      return true;
    }

    /** `remove(key)`: splice out the stored pair whose key equals `key` and
        return its value; no key equal to `key` remains. */
    method Remove(key: K) returns (r: Option<V>)
      requires Valid()
      modifies buckets, this`count
      ensures Valid()
      ensures r.Some? <==> old(Stored(key)).Some?
      ensures r.Some? ==> r.value == old(Stored(key)).value.1
      ensures forall k :: Stored(k) == if equals(k, key) then None else old(Stored(k))
      ensures count == old(count) - (if r.Some? then 1 else 0)
      ensures Table() == RemoveIn(old(Table()), key, hash, equals)
    {
      ghost var before := buckets[..];
      RemoveInSpec(before, key, hash, equals);
      r := Splice(key);
    }

    /** The body of `remove`: scan the bucket of `key` and splice out the
        first pair whose key equals it. */
    method Splice(key: K) returns (r: Option<V>)
      requires Valid()
      modifies buckets, this`count
      ensures r == match old(Stored(key)) case Some(p) => Some(p.1) case None => None
      ensures count == old(count) - (if r.Some? then 1 else 0)
      ensures Table() == RemoveIn(old(Table()), key, hash, equals)
    {
      ghost var before := buckets[..];
      var t := BucketOf(key);
      var bucket := buckets[t];
      var found := Scan(bucket, key);
      if found.Some? {
        var i := found.value;
        IndexOfAt(bucket, key, equals, i);
        r := Some(bucket[i].1);
        FlattenLengthUpdate(before, t, []);
        buckets[t] := bucket[..i] + bucket[i + 1..];
        count := count - 1;
        assert buckets[..] == before[t := RemoveFirst(bucket, key, equals)];
      } else {
        r := None;
        assert before[t := RemoveFirst(bucket, key, equals)] == before;
      }
    }

    /** `resize(n)`: a fresh array of the least power of two at least
        `max(n, 1)` buckets, filled by appending every pair, in the old
        iteration order, to the bucket of its hash. */
    method Resize(n: int)
      requires Sound() && n <= MaxBuckets
      modifies this
      ensures fresh(buckets) && buckets.Length == RoundUpPow2(n)
      ensures Table() == Rehash(old(Items()), RoundUpPow2(n), hash)
      ensures Sound() && count == old(count)
      ensures multiset(Items()) == multiset(old(Items()))
      ensures forall k :: Stored(k) == old(Stored(k))
    {
      ghost var before := buckets[..];
      var size := RoundUpPow2(n);
      var nb := Rehashed(size);
      RehashPreserves(before, size, hash, equals);
      buckets := nb;
      assert Table() == Rehash(Flatten(before), size, hash);
    }

    /** The loop of `resize`: a new array of `size` empty buckets, then
        every pair of every old bucket, in order, appended to the new bucket
        of its hash. */
    method Rehashed(size: nat) returns (nb: array<Bucket<K, V>>)
      requires size > 0 && IsPow2(size) && size <= MaxBuckets
      ensures fresh(nb) && nb[..] == Rehash(Flatten(buckets[..]), size, hash)
    {
      ghost var old_ := buckets[..];
      nb := new Bucket<K, V>[size](_ => []);
      RehashEmpty<K, V>(size, hash);
      assert nb[..] == Rehash<K, V>([], size, hash);
      assert old_[..0] == [];
      var t := 0;
      while t < buckets.Length
        modifies nb
        invariant 0 <= t <= buckets.Length
        invariant nb[..] == Rehash(Flatten(old_[..t]), size, hash)
      {
        ghost var done := Flatten(old_[..t]);
        Scatter(nb, buckets[t], done);
        assert Flatten(old_[..t + 1]) == done + buckets[t] by {
          FlattenSnoc(old_, t);
        }
        t := t + 1;
      }
      assert old_[..t] == old_;
    }

    /** The inner loop of `resize`: append each pair of one old bucket to
        the new bucket of its hash. */
    method Scatter(nb: array<Bucket<K, V>>, bucket: Bucket<K, V>, ghost done: seq<(K, V)>)
      requires IsPow2(nb.Length) && nb.Length <= MaxBuckets
      requires nb[..] == Rehash(done, nb.Length, hash)
      modifies nb
      ensures nb[..] == Rehash(done + bucket, nb.Length, hash)
    {
      var j := 0;
      assert bucket[..0] == [] && done + [] == done;
      while j < |bucket|
        invariant 0 <= j <= |bucket|
        invariant nb[..] == Rehash(done + bucket[..j], nb.Length, hash)
      {
        var (key, value) := bucket[j];
        var d := BucketIndex(hash(key), nb.Length);
        ghost var prefix := done + bucket[..j];
        RehashSnoc(prefix, (key, value), nb.Length, hash);
        nb[d] := nb[d] + [(key, value)];
        assert done + bucket[..j + 1] == prefix + [(key, value)] by {
          assert bucket[..j + 1] == bucket[..j] + [bucket[j]];
        }
        j := j + 1;
      }
      assert bucket[..j] == bucket;
    }

    /** `HashMap.withCapacity(capacity, hasher)` as written: a new map
        resized to `Math.ceil(capacity * loadThreshold)` buckets. */
    static method WithCapacity(capacity: int, hash: K -> int, equals: (K, K) -> bool) returns (m: HashMap<K, V>)
      requires HasherLaws(hash, equals)
      requires CeilThreeQuarters(capacity) <= MaxBuckets
      ensures fresh(m) && fresh(m.buckets) && m.Valid()
      ensures m.hash == hash && m.equals == equals
      ensures m.count == 0 && m.Items() == [] && forall k :: m.Stored(k).None?
      ensures m.buckets.Length == RoundUpPow2(CeilThreeQuarters(capacity))
    {
      m := new HashMap(hash, equals);
      m.Resize(CeilThreeQuarters(capacity));
      RehashEmpty<K, V>(m.buckets.Length, hash);
    }

    /** What `withCapacity(capacity)` is meant to do: size the table by
        `Math.ceil(capacity / HashMap.loadThreshold)`, the fewest buckets
        whose power of two holds `capacity` pairs without growing. */
    static method WithRoomFor(capacity: int, hash: K -> int, equals: (K, K) -> bool) returns (m: HashMap<K, V>)
      requires HasherLaws(hash, equals)
      requires BucketsFor(capacity) <= MaxBuckets
      ensures fresh(m) && fresh(m.buckets) && m.Valid()
      ensures m.hash == hash && m.equals == equals
      ensures m.count == 0 && m.Items() == [] && forall k :: m.Stored(k).None?
      ensures m.buckets.Length == RoomFor(capacity)
    {
      m := new HashMap(hash, equals);
      m.Resize(BucketsFor(capacity));
      RehashEmpty<K, V>(m.buckets.Length, hash);
    }

    /** `HashMap.from(pairs, hasher)`: `set` every pair in order into a map
        made by `withCapacity(|pairs|)`; a later pair overwrites the value of
        an earlier equal key. */
    static method From(pairs: seq<(K, V)>, hash: K -> int, equals: (K, K) -> bool) returns (m: HashMap<K, V>)
      requires HasherLaws(hash, equals)
      requires !OverThreshold(|pairs|, MaxBuckets)
      ensures fresh(m) && m.Valid()
      ensures m.hash == hash && m.equals == equals
      ensures m.count == KeyCount(pairs, equals) <= |pairs|
      ensures DistinctKeys(pairs, equals) ==> m.count == |pairs|
      ensures forall k :: m.Stored(k) == Assigned(pairs, k, equals)
    {
      CapacityFits(|pairs|);
      m := WithCapacity(|pairs|, hash, equals);
      assert m.Agrees([]);
      m.SetAll(pairs);
      KeyCountIsLength(pairs, equals);
    }

    /** The loop of `from`: `set` every pair of `pairs` in order into this
        map, which starts empty. */
    method SetAll(pairs: seq<(K, V)>)
      requires Valid() && count == 0 && Agrees([])
      requires !OverThreshold(|pairs|, MaxBuckets)
      modifies this, buckets
      ensures Valid() && count == KeyCount(pairs, equals)
      ensures buckets == old(buckets) || fresh(buckets)
      ensures Agrees(pairs)
    {
      var i := 0;
      assert pairs[..i] == [];
      while i < |pairs|
        invariant 0 <= i <= |pairs|
        invariant Valid() && count == KeyCount(pairs[..i], equals)
        invariant buckets == old(buckets) || fresh(buckets)
        invariant Agrees(pairs[..i])
      {
        SetCounted(pairs, i);
        i := i + 1;
      }
      assert pairs[..i] == pairs;
    }

    /** Every key finds what setting `pairs` one by one leaves at it. */
    ghost predicate Agrees(pairs: seq<(K, V)>)
      requires buckets.Length > 0
      reads this, buckets
    {
      forall k :: Stored(k) == Assigned(pairs, k, equals)
    }

    /** One round of the loop in `from`, with the count it leaves. */
    method SetCounted(pairs: seq<(K, V)>, i: nat)
      requires Valid() && i < |pairs| && count == KeyCount(pairs[..i], equals)
      requires !OverThreshold(|pairs|, MaxBuckets)
      requires Agrees(pairs[..i])
      modifies this, buckets
      ensures Valid() && count == KeyCount(pairs[..i + 1], equals)
      ensures buckets == old(buckets) || fresh(buckets)
      ensures Agrees(pairs[..i + 1])
    {
      KeyCountStep(pairs, i, equals);
      assert Stored(pairs[i].0) == Assigned(pairs[..i], pairs[i].0, equals);
      SetNext(pairs, i);
    }

    /** One round of the loop in `from`: `set` the pair at `i`. */
    method SetNext(pairs: seq<(K, V)>, i: nat)
      requires Valid() && i < |pairs| && count <= i
      requires !OverThreshold(|pairs|, MaxBuckets)
      requires Agrees(pairs[..i])
      modifies this, buckets
      ensures Valid() && count <= i + 1
      ensures count == old(count) + (if old(Stored(pairs[i].0)).Some? then 0 else 1)
      ensures buckets == old(buckets) || fresh(buckets)
      ensures Agrees(pairs[..i + 1])
    {
      AssignedStep(pairs, i, equals);
      assert !OverThreshold(count + 1, MaxBuckets);
      assert Stored(pairs[i].0) == Assigned(pairs[..i], pairs[i].0, equals);
      Set(pairs[i].0, pairs[i].1);
    }

    /** Rehashing into as many buckets as there are rebuilds the table as
        it stands. */
    lemma SameLayout()
      requires Sound()
      ensures Table() == Rehash(Items(), buckets.Length, hash)
    {
      RehashSameSize(buckets[..], hash, equals);
    }

    /** `reserve(additional)`: grow, never shrink, so that `count +
        additional` pairs fit within the threshold; the contents stay. */
    method Reserve(additional: int)
      requires Valid()
      requires BucketsFor(additional + count) <= MaxBuckets
      modifies this
      ensures Valid() && count == old(count)
      ensures forall k :: Stored(k) == old(Stored(k))
      ensures multiset(Items()) == multiset(old(Items()))
      ensures buckets.Length == Reserved(old(buckets.Length), additional + old(count))
      ensures Table() == Rehash(old(Items()), buckets.Length, hash)
    {
      Grow(BucketsFor(additional + count));
    }

    /** The conditional resize of `reserve`: rehash into `n` buckets when
        that is no fewer than there are, and leave the table alone
        otherwise. */
    method Grow(n: int)
      requires Valid() && n <= MaxBuckets
      modifies this
      ensures Valid() && count == old(count)
      ensures buckets.Length == if n >= old(buckets.Length) then RoundUpPow2(n) else old(buckets.Length)
      ensures forall k :: Stored(k) == old(Stored(k))
      ensures multiset(Items()) == multiset(old(Items()))
      ensures Table() == Rehash(old(Items()), buckets.Length, hash)
    {
      if n >= buckets.Length {
        ghost var before := buckets.Length;
        Resize(n);
        assert !OverThreshold(count, before) && buckets.Length >= before;
      } else {
        SameLayout();
      }
    }

    /** `shrinkToFit()`: rehash down to the fewest buckets that keep the
        current count within the threshold, when that is fewer. */
    method ShrinkToFit()
      requires Valid()
      modifies this
      ensures Valid() && count == old(count)
      ensures forall k :: Stored(k) == old(Stored(k))
      ensures multiset(Items()) == multiset(old(Items()))
      ensures buckets.Length == Fitted(old(buckets.Length), old(count))
      ensures Table() == Rehash(old(Items()), buckets.Length, hash)
    {
      var newBucketCount := BucketsFor(count);
      ghost var n := buckets.Length;
      assert n == old(buckets.Length) && count == old(count);
      if newBucketCount < buckets.Length {
        Resize(newBucketCount);
        assert buckets.Length == RoundUpPow2(newBucketCount) == Fitted(n, count);
      } else {
        assert Items() == old(Items());
        assert buckets.Length == n == Fitted(n, count);
        SameLayout();
      }
    }

    /** `shrinkTo(capacity)`: rehash down toward room for `capacity` pairs,
        but never below what the current count needs; a target below that
        falls back to `shrinkToFit()`. */
    method ShrinkTo(capacity: int)
      requires Valid()
      modifies this
      ensures Valid() && count == old(count)
      ensures forall k :: Stored(k) == old(Stored(k))
      ensures multiset(Items()) == multiset(old(Items()))
      ensures buckets.Length == ShrunkTo(old(buckets.Length), capacity, old(count))
      ensures Table() == Rehash(old(Items()), buckets.Length, hash)
    {
      var targetBucketCount := BucketsFor(capacity);
      var minBuckets := BucketsFor(count);
      ghost var n := buckets.Length;
      assert n == old(buckets.Length) && count == old(count);
      if targetBucketCount >= minBuckets && targetBucketCount < buckets.Length {
        Resize(targetBucketCount);
        assert buckets.Length == RoundUpPow2(targetBucketCount) == ShrunkTo(n, capacity, count);
      } else if targetBucketCount < minBuckets {
        ShrinkToFit();
        assert buckets.Length == Fitted(n, count) == ShrunkTo(n, capacity, count);
      } else {
        assert Items() == old(Items());
        assert buckets.Length == n == ShrunkTo(n, capacity, count);
        SameLayout();
      }
    }

    /** `clear()`: as many buckets as before, all empty. */
    method Clear()
      requires Valid()
      modifies this
      ensures Valid() && fresh(buckets)
      ensures buckets.Length == old(buckets.Length)
      ensures count == 0 && Items() == []
      ensures forall k :: Stored(k).None?
    {
      buckets := new Bucket<K, V>[buckets.Length](_ => []);
      count := 0;
      assert buckets[..] == EmptyTable<K, V>(buckets.Length);
      EmptyTableSpec<K, V>(buckets.Length, hash, equals);
    }

    /** `[Symbol.iterator]()`: every pair, bucket by bucket, each bucket in
        insertion order. */
    method Pairs() returns (r: seq<(K, V)>)
      requires Valid()
      ensures r == Items()
      ensures |r| == count && Unique(r, equals)
      ensures forall p :: p in r ==> Stored(p.0) == Some(p)
      ensures forall k :: Stored(k).Some? ==> Stored(k).value in r
    {
      r := [];
      var t := 0;
      while t < buckets.Length
        invariant 0 <= t <= buckets.Length
        invariant r == Flatten(buckets[..t])
      {
        FlattenSnoc(buckets[..], t);
        assert buckets[..][..t + 1] == buckets[..t + 1];
        assert buckets[..][..t] == buckets[..t];
        r := r + buckets[t];
        t := t + 1;
      }
      assert buckets[..t] == buckets[..];
      ItemsAreStored(buckets[..], hash, equals);
    }

    /** `keys()`: the key of every pair, in iteration order; no two equal. */
    method Keys() returns (r: seq<K>)
      requires Valid()
      ensures |r| == |Items()|
      ensures forall i :: 0 <= i < |r| ==> r[i] == Items()[i].0 && Stored(r[i]) == Some(Items()[i])
      ensures forall i, j :: 0 <= i < |r| && 0 <= j < |r| && i != j ==> !equals(r[i], r[j])
    {
      var pairs := Pairs();
      r := [];
      var i := 0;
      while i < |pairs|
        invariant 0 <= i <= |pairs|
        invariant |r| == i && forall j :: 0 <= j < i ==> r[j] == pairs[j].0
      {
        r := r + [pairs[i].0];
        i := i + 1;
      }
      forall i | 0 <= i < |r|
        ensures Stored(r[i]) == Some(Items()[i])
      {
        assert pairs[i] in pairs;
      }
    }

    /** `values()`: the value of every pair, in iteration order. */
    method Values() returns (r: seq<V>)
      requires Valid()
      ensures |r| == |Items()|
      ensures forall i :: 0 <= i < |r| ==> r[i] == Items()[i].1 && Stored(Items()[i].0) == Some(Items()[i])
    {
      var pairs := Pairs();
      r := [];
      var i := 0;
      while i < |pairs|
        invariant 0 <= i <= |pairs|
        invariant |r| == i && forall j :: 0 <= j < i ==> r[j] == pairs[j].1
      {
        r := r + [pairs[i].1];
        i := i + 1;
      }
      forall i | 0 <= i < |r|
        ensures Stored(Items()[i].0) == Some(Items()[i])
      {
        assert pairs[i] in pairs;
      }
    }

    /** `drain()`: every pair in iteration order, leaving the map empty with
        as many buckets as before. */
    method Drain() returns (r: seq<(K, V)>)
      requires Valid()
      modifies this
      ensures r == old(Items()) && |r| == old(count)
      ensures forall p :: p in r ==> Lookup(old(Table()), p.0, hash, equals) == Some(p)
      ensures Valid() && count == 0 && Items() == []
      ensures buckets.Length == old(buckets.Length)
    {
      r := Pairs();
      Clear();
    }

    /** `map(fn)`: every value `v` at key `k` becomes `fn(v, k)`, in place. */
    method Map(fn: (V, K) -> V)
      requires Valid()
      modifies buckets
      ensures Valid() && count == old(count)
      ensures Table() == MapIn(old(Table()), fn)
      ensures Items() == MapValues(old(Items()), fn)
      ensures forall k :: Stored(k) ==
                match old(Stored(k))
                case Some(q) => Some((q.0, fn(q.1, q.0)))
                case None => None
    {
      ghost var before := buckets[..];
      MapInSpec(before, fn, hash, equals);
      MapAll(fn);
    }

    /** The loop of `map(fn)` over the buckets. */
    method MapAll(fn: (V, K) -> V)
      modifies buckets
      ensures buckets[..] == MapIn(old(buckets[..]), fn)
    {
      ghost var before := buckets[..];
      var t := 0;
      while t < buckets.Length
        invariant 0 <= t <= buckets.Length
        invariant forall u :: 0 <= u < t ==> buckets[u] == MapValues(before[u], fn)
        invariant forall u :: t <= u < buckets.Length ==> buckets[u] == before[u]
      {
        buckets[t] := MapBucket(buckets[t], fn);
        t := t + 1;
      }
      assert buckets[..] == MapIn(before, fn);
    }

    /** The inner loop of `map(fn)`: each pair `(k, v)` of one bucket
        becomes `(k, fn(v, k))`, in place. */
    method MapBucket(bucket: Bucket<K, V>, fn: (V, K) -> V) returns (r: Bucket<K, V>)
      ensures |r| == |bucket|
      ensures forall j :: 0 <= j < |r| ==> r[j].0 == bucket[j].0 && r[j].1 == fn(bucket[j].1, bucket[j].0)
      ensures r == MapValues(bucket, fn)
    {
      r := bucket;
      var i := 0;
      while i < |r|
        invariant 0 <= i <= |r| && |r| == |bucket|
        invariant forall j :: 0 <= j < i ==> r[j] == (bucket[j].0, fn(bucket[j].1, bucket[j].0))
        invariant forall j :: i <= j < |r| ==> r[j] == bucket[j]
      {
        r := r[i := (r[i].0, fn(r[i].1, r[i].0))];
        i := i + 1;
      }
    }

    /** One bucket of `retain(fn)`: walk it from the last pair to the
        first, splicing out each pair that fails `fn` and counting it off
        `count`. */
    method SpliceOut(bucket: Bucket<K, V>, fn: (K, V) -> bool) returns (r: Bucket<K, V>)
      requires count >= |bucket|
      modifies this`count
      ensures r == Keep(bucket, fn)
      ensures count == old(count) - |bucket| + |r|
    {
      r := bucket;
      var i := |bucket|;
      while i > 0
        invariant 0 <= i <= |bucket|
        invariant r == bucket[..i] + Keep(bucket[i..], fn)
        invariant count == old(count) - |bucket| + |r|
      {
        i := i - 1;
        KeepFromBack(bucket, i, fn);
        if !fn(r[i].0, r[i].1) {
          r := r[..i] + r[i + 1..];
          count := count - 1;
        }
      }
      assert bucket[0..] == bucket;
    }

    /** `retain(fn)`: in every bucket, from the last pair to the first,
        splice out each pair for which `fn(key, value)` fails. */
    method Retain(fn: (K, V) -> bool)
      requires Valid()
      modifies buckets, this`count
      ensures Valid()
      ensures Table() == RetainIn(old(Table()), fn)
      ensures Items() == Keep(old(Items()), fn)
      ensures count == |Keep(old(Items()), fn)|
      ensures forall k :: Stored(k) ==
                if old(Stored(k)).Some? && fn(old(Stored(k)).value.0, old(Stored(k)).value.1)
                then old(Stored(k)) else None
    {
      ghost var before := buckets[..];
      SpliceAll(fn);
      RetainInSpec(before, fn, hash, equals);
      StoredIsLookup();
    }

    /** The loop of `retain(fn)` over the buckets, each bucket filtered in
        place by `SpliceOut`. */
    method SpliceAll(fn: (K, V) -> bool)
      requires count == |Flatten(buckets[..])|
      modifies buckets, this`count
      ensures buckets[..] == RetainIn(old(buckets[..]), fn)
      ensures count == |Flatten(buckets[..])|
    {
      ghost var before := buckets[..];
      var t := 0;
      while t < buckets.Length
        invariant 0 <= t <= buckets.Length
        invariant forall u :: 0 <= u < t ==> buckets[u] == Keep(before[u], fn)
        invariant forall u :: t <= u < buckets.Length ==> buckets[u] == before[u]
        invariant count == |Flatten(buckets[..])|
      {
        RetainStep(t, fn);
        t := t + 1;
      }
      assert buckets[..] == RetainIn(before, fn);
    }

    /** One round of the loop of `retain(fn)`: filter bucket `t`, keeping
        `count` equal to the number of stored pairs. */
    method RetainStep(t: nat, fn: (K, V) -> bool)
      requires t < buckets.Length && count == |Flatten(buckets[..])|
      modifies buckets, this`count
      ensures buckets[..] == old(buckets[..])[t := Keep(old(buckets[t]), fn)]
      ensures count == |Flatten(buckets[..])|
    {
      ghost var rest := buckets[..];
      FlattenLengthUpdate(rest, t, []);
      var bucket := SpliceOut(buckets[t], fn);
      FlattenLengthUpdate(rest, t, bucket);
      buckets[t] := bucket;
      assert buckets[..] == rest[t := bucket];
    }
  }

  /** The bucket count `reserve` leaves behind for `total` pairs in a table
      of `n` buckets. */
  function Reserved(n: int, total: int): int
    requires BucketsFor(total) <= MaxBuckets
  {
    if BucketsFor(total) >= n then RoundUpPow2(BucketsFor(total)) else n
  }

  /** `reserve` never shrinks the table, leaves `total` pairs within the
      threshold, and when it grows it picks the fewest buckets that do. */
  lemma ReservedFits(n: int, total: int)
    requires IsPow2(n) && n <= MaxBuckets && BucketsFor(total) <= MaxBuckets
    ensures var r := Reserved(n, total);
            IsPow2(r) && n <= r <= MaxBuckets && !OverThreshold(total, r)
    ensures BucketsFor(total) >= n ==>
              forall p :: IsPow2(p) && !OverThreshold(total, p) ==> Reserved(n, total) <= p
  {
    var b := BucketsFor(total);
    ThresholdBounds(total, Reserved(n, total));
    if b >= n {
      forall p | IsPow2(p) && !OverThreshold(total, p)
        ensures Reserved(n, total) <= p
      {
        ThresholdBounds(total, p);
        RoundUpPow2Least(b, p);
      }
    }
  }

  /** The bucket count `shrinkToFit` leaves behind for `total` pairs in a
      table of `n` buckets. */
  function Fitted(n: int, total: int): int
    requires n <= MaxBuckets
  {
    if BucketsFor(total) < n then RoundUpPow2(BucketsFor(total)) else n
  }

  /** `shrinkToFit` never grows the table, keeps `total` pairs within the
      threshold, and leaves the fewest buckets that do. */
  lemma FittedIsLeast(n: int, total: int)
    requires IsPow2(n) && n <= MaxBuckets && !OverThreshold(total, n)
    ensures var r := Fitted(n, total);
            IsPow2(r) && r <= n && !OverThreshold(total, r)
    ensures forall p :: IsPow2(p) && !OverThreshold(total, p) ==> Fitted(n, total) <= p
  {
    var b := BucketsFor(total);
    ThresholdBounds(total, Fitted(n, total));
    if b < n {
      RoundUpPow2Least(b, n);
    }
    forall p | IsPow2(p) && !OverThreshold(total, p)
      ensures Fitted(n, total) <= p
    {
      ThresholdBounds(total, p);
      if b < n {
        RoundUpPow2Least(b, p);
      } else {
        ThresholdBounds(total, n);
      }
    }
  }

  /** The bucket count `shrinkTo(capacity)` leaves behind for `total` pairs
      in a table of `n` buckets. */
  function ShrunkTo(n: int, capacity: int, total: int): int
    requires n <= MaxBuckets
  {
    var target, least := BucketsFor(capacity), BucketsFor(total);
    if target >= least && target < n then RoundUpPow2(target)
    else if target < least then Fitted(n, total)
    else n
  }

  /** `shrinkTo` never grows the table, keeps `total` pairs within the
      threshold, leaves room for `capacity` pairs whenever it shrinks, and
      leaves the fewest buckets that hold both. */
  lemma ShrunkToIsLeast(n: int, capacity: int, total: int)
    requires IsPow2(n) && n <= MaxBuckets && !OverThreshold(total, n)
    ensures var r := ShrunkTo(n, capacity, total);
            IsPow2(r) && r <= n && !OverThreshold(total, r) &&
            (r < n ==> !OverThreshold(capacity, r))
    ensures forall p :: IsPow2(p) && !OverThreshold(capacity, p) && !OverThreshold(total, p) ==>
              ShrunkTo(n, capacity, total) <= p
  {
    var target, least := BucketsFor(capacity), BucketsFor(total);
    var r := ShrunkTo(n, capacity, total);
    FittedIsLeast(n, total);
    ThresholdBounds(total, r);
    ThresholdBounds(capacity, r);
    ThresholdBounds(total, n);
    if target >= least && target < n {
      RoundUpPow2Least(target, n);
    }
    forall p | IsPow2(p) && !OverThreshold(capacity, p) && !OverThreshold(total, p)
      ensures r <= p
    {
      ThresholdBounds(capacity, p);
      if target >= least && target < n {
        RoundUpPow2Least(target, p);
      }
    }
  }

  /** The bucket count `withCapacity(capacity)` is meant to choose. */
  function RoomFor(capacity: int): int
    requires BucketsFor(capacity) <= MaxBuckets
  {
    RoundUpPow2(BucketsFor(capacity))
  }

  /** The intended sizing holds `capacity` pairs within the threshold, with
      the fewest power-of-two buckets that do. */
  lemma RoomForIsLeast(capacity: int)
    requires BucketsFor(capacity) <= MaxBuckets
    ensures IsPow2(RoomFor(capacity)) && !OverThreshold(capacity, RoomFor(capacity))
    ensures forall p :: IsPow2(p) && !OverThreshold(capacity, p) ==> RoomFor(capacity) <= p
  {
    var b := BucketsFor(capacity);
    ThresholdBounds(capacity, RoomFor(capacity));
    forall p | IsPow2(p) && !OverThreshold(capacity, p)
      ensures RoomFor(capacity) <= p
    {
      ThresholdBounds(capacity, p);
      RoundUpPow2Least(b, p);
    }
  }

  /** As written, `withCapacity(2)` rounds `Math.ceil(2 * 0.75)` up to two
      buckets, and two pairs in two buckets are over the threshold: the
      second `set` already doubles the table. */
  lemma WithCapacityTooSmall()
    ensures RoundUpPow2(CeilThreeQuarters(2)) == 2
    ensures OverThreshold(2, RoundUpPow2(CeilThreeQuarters(2)))
  {
    assert CeilThreeQuarters(2) == 2;
    assert IsPow2(2);
    RoundUpPow2Fixed(2);
  }

  /** The value of the last pair in `pairs` whose key equals `k`: what
      `from` leaves at `k`. */
  function LastValue<K, V>(pairs: seq<(K, V)>, k: K, equals: (K, K) -> bool): (r: Option<V>)
    ensures r.Some? <==> exists i :: 0 <= i < |pairs| && equals(k, pairs[i].0)
  {
    if |pairs| == 0 then None
    else if equals(k, pairs[|pairs| - 1].0) then Some(pairs[|pairs| - 1].1)
    else LastValue(pairs[..|pairs| - 1], k, equals)
  }

  /** What `from(pairs)` leaves at `k`, pair by pair as `set` does: the
      stored key is kept and only the value is overwritten. */
  function Assigned<K(!new), V>(pairs: seq<(K, V)>, k: K, equals: (K, K) -> bool): Option<(K, V)>
  {
    if |pairs| == 0 then None
    else
      var (key, value) := pairs[|pairs| - 1];
      var prior := Assigned(pairs[..|pairs| - 1], key, equals);
      if equals(k, key) then Some((if prior.Some? then prior.value.0 else key, value))
      else Assigned(pairs[..|pairs| - 1], k, equals)
  }

  /** The size `from(pairs)` ends with: the number of pairs whose key
      equals no earlier key. */
  function KeyCount<K(!new), V>(pairs: seq<(K, V)>, equals: (K, K) -> bool): (r: nat)
    ensures r <= |pairs|
  {
    if |pairs| == 0 then 0
    else
      var n := |pairs| - 1;
      KeyCount(pairs[..n], equals) + (if Find(pairs[..n], pairs[n].0, equals).None? then 1 else 0)
  }

  /** No key of `pairs` equals an earlier one. */
  ghost predicate DistinctKeys<K, V>(pairs: seq<(K, V)>, equals: (K, K) -> bool) {
    forall a, b :: 0 <= a < b < |pairs| ==> !equals(pairs[b].0, pairs[a].0)
  }

  /** One more pair adds one to `KeyCount` exactly when `set` finds its key
      absent. */
  lemma KeyCountStep<K(!new), V>(pairs: seq<(K, V)>, i: nat, equals: (K, K) -> bool)
    requires i < |pairs| && Equivalence(equals)
    ensures KeyCount(pairs[..i + 1], equals) ==
            KeyCount(pairs[..i], equals) + (if Assigned(pairs[..i], pairs[i].0, equals).None? then 1 else 0)
  {
    assert pairs[..i + 1][..i] == pairs[..i];
    AssignedIsFirstKeyLastValue(pairs[..i], pairs[i].0, equals);
  }

  /** `from(pairs)` holds one pair per input pair exactly when no two input
      keys are equal. */
  lemma {:induction false} KeyCountIsLength<K(!new), V>(pairs: seq<(K, V)>, equals: (K, K) -> bool)
    ensures KeyCount(pairs, equals) == |pairs| <==> DistinctKeys(pairs, equals)
  {
    if |pairs| > 0 {
      var n := |pairs| - 1;
      var init := pairs[..n];
      KeyCountIsLength(init, equals);
      assert forall j :: 0 <= j < n ==> init[j] == pairs[j];
      if DistinctKeys(pairs, equals) {
        assert DistinctKeys(init, equals);
        assert forall j :: 0 <= j < |init| ==> !equals(pairs[n].0, init[j].0);
      }
      if KeyCount(pairs, equals) == |pairs| {
        assert KeyCount(init, equals) == n;
        assert Find(init, pairs[n].0, equals).None?;
        forall a, b | 0 <= a < b < |pairs|
          ensures !equals(pairs[b].0, pairs[a].0)
        {
          if b < n {
            assert !equals(init[b].0, init[a].0);
          }
        }
      }
    }
  }

  /** One more pair: `Assigned` changes as one `set` does. */
  lemma AssignedStep<K(!new), V>(pairs: seq<(K, V)>, i: nat, equals: (K, K) -> bool)
    requires i < |pairs|
    ensures forall k :: Assigned(pairs[..i + 1], k, equals) ==
              if equals(k, pairs[i].0) then
                Some((if Assigned(pairs[..i], pairs[i].0, equals).Some?
                      then Assigned(pairs[..i], pairs[i].0, equals).value.0 else pairs[i].0, pairs[i].1))
              else Assigned(pairs[..i], k, equals)
  {
    assert pairs[..i + 1][..i] == pairs[..i];
  }

  /** `from(pairs)` answers `k` with the first pair of `pairs` whose key
      equals `k`, carrying the value of the last such pair; it answers
      nothing when no key in `pairs` equals `k`. */
  lemma {:induction false} AssignedIsFirstKeyLastValue<K(!new), V>(pairs: seq<(K, V)>, k: K, equals: (K, K) -> bool)
    requires Equivalence(equals)
    ensures Assigned(pairs, k, equals).Some? <==> Find(pairs, k, equals).Some?
    ensures Assigned(pairs, k, equals).Some? ==>
              Assigned(pairs, k, equals).value.0 == Find(pairs, k, equals).value.0 &&
              LastValue(pairs, k, equals) == Some(Assigned(pairs, k, equals).value.1)
  {
    if |pairs| > 0 {
      var n := |pairs| - 1;
      var init, last := pairs[..n], pairs[n];
      assert pairs == init + [last];
      AssignedIsFirstKeyLastValue(init, k, equals);
      FindAppend(init, [last], k, equals);
      if equals(k, last.0) {
        AssignedIsFirstKeyLastValue(init, last.0, equals);
        FindSameClass(init, k, last.0, equals);
      }
    }
  }
}
