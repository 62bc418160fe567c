/**
  The bucket layout of the hash map as values: a table is a sequence of
  buckets, a bucket a sequence of key/value pairs. This module defines what
  each bucket operation of the map does to one bucket (`Upsert` for `set`,
  `RemoveFirst` for `remove`, `Keep` for `retain`, `MapValues` for `map`),
  what `resize` builds (`Rehash`), and the order in which the map is iterated
  (`Flatten`), and proves that a key is found where the map looks for it.

  Keys are compared with the hasher's `eq`, never with `==`; the map relies on
  the laws in `HasherLaws`.
*/
module Buckets {
  import opened OptionResult
  import opened Hashing

  type Bucket<K(!new), V> = seq<(K, V)>

  /** The bucket of a hash in a table of `n` buckets: `|h| mod n`, which for
      a power-of-two `n` is the masked index (`Hashing.MaskedIndexIsMod`). */
  function Idx(h: int, n: nat): (r: nat)
    requires n > 0
    ensures r < n
  {
    Abs(h) % n
  }

  /** Equal keys hash alike. */
  ghost predicate Consistent<K(!new)>(hash: K -> int, eq: (K, K) -> bool) {
    forall a, b :: eq(a, b) ==> hash(a) == hash(b)
  }

  /** `eq` is an equivalence relation. */
  ghost predicate Equivalence<K(!new)>(eq: (K, K) -> bool) {
    && (forall a :: eq(a, a))
    && (forall a, b :: eq(a, b) ==> eq(b, a))
    && (forall a, b, c :: eq(a, b) && eq(b, c) ==> eq(a, c))
  }

  /** What the map demands of its hasher. */
  ghost predicate HasherLaws<K(!new)>(hash: K -> int, eq: (K, K) -> bool) {
    Consistent(hash, eq) && Equivalence(eq)
  }

  // ---------------------------------------------------------------------
  // One bucket
  // ---------------------------------------------------------------------

  /** The linear scan of a bucket: the first position whose key equals
      `k`. */
  function IndexOf<K(!new), V>(b: Bucket<K, V>, k: K, eq: (K, K) -> bool): (r: Option<nat>)
    ensures r.Some? ==> r.value < |b| && eq(k, b[r.value].0)
    ensures r.Some? ==> forall j :: 0 <= j < r.value ==> !eq(k, b[j].0)
    ensures r.None? <==> forall j :: 0 <= j < |b| ==> !eq(k, b[j].0)
  {
    if |b| == 0 then None
    else if eq(k, b[0].0) then Some(0)
    else
      match IndexOf(b[1..], k, eq)
      case Some(i) => Some(i + 1)
      case None => None
  }

  /** The stored pair for `k` in a bucket, as `get` and `getKeyValue` find
      it. */
  function Find<K(!new), V>(b: Bucket<K, V>, k: K, eq: (K, K) -> bool): (r: Option<(K, V)>)
    ensures r.Some? ==> r.value in b && eq(k, r.value.0)
    ensures r.None? <==> forall j :: 0 <= j < |b| ==> !eq(k, b[j].0)
  {
    match IndexOf(b, k, eq)
    case Some(i) => Some(b[i])
    case None => None
  }

  /** `set` on one bucket: overwrite the value of the first pair whose key
      equals `k`, keeping the stored key, or else append `(k, v)`. */
  function Upsert<K(!new), V>(b: Bucket<K, V>, k: K, v: V, eq: (K, K) -> bool): (r: Bucket<K, V>)
    ensures |r| == |b| + (if Find(b, k, eq).None? then 1 else 0)
    ensures forall j :: 0 <= j < |b| ==> r[j].0 == b[j].0
    ensures forall j :: 0 <= j < |b| && r[j] != b[j] ==> eq(k, b[j].0) && r[j].1 == v
    ensures Find(b, k, eq).Some? ==> Find(r, k, eq) == Some((Find(b, k, eq).value.0, v))
    ensures Find(b, k, eq).None? ==> r == b + [(k, v)]
  {
    match IndexOf(b, k, eq)
    case Some(i) => b[i := (b[i].0, v)]
    case None => b + [(k, v)]
  }

  /** `remove` on one bucket: splice out the first pair whose key equals
      `k`. */
  function RemoveFirst<K(!new), V>(b: Bucket<K, V>, k: K, eq: (K, K) -> bool): (r: Bucket<K, V>)
    ensures |r| == |b| - (if Find(b, k, eq).Some? then 1 else 0)
    ensures forall x :: x in r ==> x in b
    ensures forall x :: x in b && !eq(k, x.0) ==> x in r
  {
    match IndexOf(b, k, eq)
    case Some(i) =>
      SpliceMembers(b, i);
      b[..i] + b[i + 1..]
    case None => b
  }

  /** `retain` on one bucket: the pairs for which `p(key, value)` holds, in
      their order. */
  function Keep<K(!new), V>(b: Bucket<K, V>, p: (K, V) -> bool): (r: Bucket<K, V>)
    ensures |r| <= |b|
    ensures forall x :: x in r ==> x in b && p(x.0, x.1)
  {
    if |b| == 0 then []
    else (if p(b[0].0, b[0].1) then [b[0]] else []) + Keep(b[1..], p)
  }

  /** `map` on one bucket: every value `v` at key `k` becomes `f(v, k)`. */
  function MapValues<K(!new), V>(b: Bucket<K, V>, f: (V, K) -> V): (r: Bucket<K, V>)
    ensures |r| == |b|
  {
    seq(|b|, i requires 0 <= i < |b| => (b[i].0, f(b[i].1, b[i].0)))
  }

  /** Every pair of bucket `t` hashes to `t`. */
  ghost predicate Placed<K(!new), V>(b: Bucket<K, V>, t: nat, n: nat, hash: K -> int) {
    n > 0 && forall x :: x in b ==> Idx(hash(x.0), n) == t
  }

  /** No two pairs have equal keys. */
  ghost predicate Unique<K(!new), V>(b: Bucket<K, V>, eq: (K, K) -> bool) {
    forall i, j :: 0 <= i < |b| && 0 <= j < |b| && i != j ==> !eq(b[i].0, b[j].0)
  }

  /** The first position of `k` is determined by which keys equal `k`: a
      bucket with the same keys has the same `IndexOf`. */
  lemma IndexOfSameKeys<K(!new), V>(b: Bucket<K, V>, c: Bucket<K, V>, k: K, eq: (K, K) -> bool)
    requires |b| == |c| && forall j :: 0 <= j < |b| ==> b[j].0 == c[j].0
    ensures IndexOf(b, k, eq) == IndexOf(c, k, eq)
  {
  }

  /** The scan finds the pair at position `i` when no earlier key equals `k`. */
  lemma IndexOfAt<K(!new), V>(b: Bucket<K, V>, k: K, eq: (K, K) -> bool, i: nat)
    requires i < |b| && eq(k, b[i].0)
    requires forall j :: 0 <= j < i ==> !eq(k, b[j].0)
    ensures IndexOf(b, k, eq) == Some(i)
  {
  }

  /** After `set(k, v)` a bucket maps `k` (and every key equal to it) to `v`,
      under the key already stored if there was one, and every other key
      as before. */
  lemma {:induction false} FindAfterUpsert<K(!new), V>(b: Bucket<K, V>, k: K, v: V, k': K, eq: (K, K) -> bool)
    requires Equivalence(eq)
    ensures Find(Upsert(b, k, v, eq), k', eq) ==
            if eq(k', k) then Some((if Find(b, k, eq).Some? then Find(b, k, eq).value.0 else k, v))
            else Find(b, k', eq)
  {
    var b' := Upsert(b, k, v, eq);
    match IndexOf(b, k, eq)
    case Some(i) =>
      assert b' == b[i := (b[i].0, v)];
      IndexOfSameKeys(b, b', k', eq);
      if eq(k', k) {
        forall j | 0 <= j < i
          ensures !eq(k', b[j].0)
        {
        }
        IndexOfAt(b, k', eq, i);
      } else {
        match IndexOf(b, k', eq)
        case Some(j) =>
          if j == i {
            assert false;
          }
        case None =>
      }
    case None =>
      assert b' == b + [(k, v)];
      if eq(k', k) {
        forall j | 0 <= j < |b|
          ensures !eq(k', b[j].0)
        {
        }
        IndexOfAt(b', k', eq, |b|);
      } else {
        match IndexOf(b, k', eq)
        case Some(j) =>
          IndexOfAt(b', k', eq, j);
        case None =>
          assert forall j :: 0 <= j < |b'| ==> !eq(k', b'[j].0);
      }
  }

  /** `set` keeps a bucket placed and its keys unique. */
  lemma UpsertSound<K(!new), V>(b: Bucket<K, V>, k: K, v: V, t: nat, n: nat, hash: K -> int, eq: (K, K) -> bool)
    requires HasherLaws(hash, eq)
    requires Placed(b, t, n, hash) && Unique(b, eq) && Idx(hash(k), n) == t
    ensures Placed(Upsert(b, k, v, eq), t, n, hash) && Unique(Upsert(b, k, v, eq), eq)
  {
    var b' := Upsert(b, k, v, eq);
    match IndexOf(b, k, eq)
    case Some(i) =>
      forall x | x in b'
        ensures Idx(hash(x.0), n) == t
      {
        var j :| 0 <= j < |b'| && b'[j] == x;
        assert b'[j].0 == b[j].0 && b[j] in b;
      }
    case None =>
      forall i, j | 0 <= i < |b'| && 0 <= j < |b'| && i != j
        ensures !eq(b'[i].0, b'[j].0)
      {
        if j == |b| {
          assert !eq(k, b[i].0);
        } else if i == |b| {
          assert !eq(k, b[j].0);
        }
      }
  }

  /** Splicing out position `i` of a unique bucket leaves no key equal to
      the one stored there. */
  lemma SpliceDropsClass<K(!new), V>(b: Bucket<K, V>, i: nat, c: Bucket<K, V>, k: K, eq: (K, K) -> bool)
    requires Equivalence(eq) && Unique(b, eq) && i < |b| && eq(k, b[i].0)
    requires c == b[..i] + b[i + 1..]
    ensures forall j :: 0 <= j < |c| ==> !eq(k, c[j].0)
  {
    SpliceAt(b, i, c);
    assert eq(b[i].0, k);
    forall j | 0 <= j < |c|
      ensures !eq(k, c[j].0)
    {
      var x := if j < i then j else j + 1;
      assert c[j] == b[x] && x != i;
      assert !eq(b[i].0, b[x].0);
    }
  }

  /** Splicing out position `i` does not change what a key that does not
      match position `i` finds. */
  lemma SpliceKeepsOthers<K(!new), V>(b: Bucket<K, V>, i: nat, k: K, eq: (K, K) -> bool)
    requires i < |b| && !eq(k, b[i].0)
    ensures Find(b[..i] + b[i + 1..], k, eq) == Find(b, k, eq)
  {
    var b' := b[..i] + b[i + 1..];
    SpliceAt(b, i, b');
    match IndexOf(b, k, eq)
    case Some(j) =>
      if j < i {
        IndexOfAt(b', k, eq, j);
      } else {
        IndexOfAt(b', k, eq, j - 1);
      }
    case None =>
      assert forall j :: 0 <= j < |b'| ==> b'[j] in b;
  }

  /** After `remove(k)` a unique bucket has no key equal to `k`, and every
      other key is as before. */
  lemma FindAfterRemove<K(!new), V>(b: Bucket<K, V>, k: K, k': K, eq: (K, K) -> bool)
    requires Equivalence(eq) && Unique(b, eq)
    ensures Find(RemoveFirst(b, k, eq), k', eq) == if eq(k', k) then None else Find(b, k', eq)
  {
    match IndexOf(b, k, eq)
    case Some(i) =>
      if eq(k', k) {
        assert eq(k', b[i].0);
        SpliceDropsClass(b, i, b[..i] + b[i + 1..], k', eq);
      } else {
        assert eq(b[i].0, k);
        assert !eq(k', b[i].0);
        SpliceKeepsOthers(b, i, k', eq);
      }
    case None =>
  }

  /** `remove` keeps a bucket placed and its keys unique. */
  lemma RemoveSound<K(!new), V>(b: Bucket<K, V>, k: K, t: nat, n: nat, hash: K -> int, eq: (K, K) -> bool)
    requires Placed(b, t, n, hash) && Unique(b, eq)
    ensures Placed(RemoveFirst(b, k, eq), t, n, hash) && Unique(RemoveFirst(b, k, eq), eq)
  {
    match IndexOf(b, k, eq)
    case Some(i) =>
      var b' := b[..i] + b[i + 1..];
      SpliceAt(b, i, b');
      forall x | x in b'
        ensures Idx(hash(x.0), n) == t
      {
        var j :| 0 <= j < |b'| && b'[j] == x;
        assert b[if j < i then j else j + 1] in b;
      }
      forall p, q | 0 <= p < |b'| && 0 <= q < |b'| && p != q
        ensures !eq(b'[p].0, b'[q].0)
      {
        assert b'[p] == b[if p < i then p else p + 1];
        assert b'[q] == b[if q < i then q else q + 1];
      }
    case None =>
  }

  /** Splicing out the pair at `i` keeps every other pair of the bucket and
      adds none. */
  lemma SpliceMembers<K(!new), V>(b: Bucket<K, V>, i: nat)
    requires i < |b|
    ensures forall x :: x in b[..i] + b[i + 1..] ==> x in b
    ensures forall x :: x in b ==> x == b[i] || x in b[..i] + b[i + 1..]
  {
    var c := b[..i] + b[i + 1..];
    SpliceAt(b, i, c);
    forall x | x in c
      ensures x in b
    {
      var j :| 0 <= j < |c| && c[j] == x;
      assert b[if j < i then j else j + 1] == x;
    }
    forall x | x in b && x != b[i]
      ensures x in c
    {
      var j :| 0 <= j < |b| && b[j] == x;
      assert c[if j < i then j else j - 1] == x;
    }
  }

  /** Positions of a bucket with the pair at `i` spliced out. */
  lemma SpliceAt<K(!new), V>(b: Bucket<K, V>, i: nat, c: Bucket<K, V>)
    requires i < |b| && c == b[..i] + b[i + 1..]
    ensures |c| == |b| - 1
    ensures forall j :: 0 <= j < i ==> c[j] == b[j]
    ensures forall j :: i <= j < |c| ==> c[j] == b[j + 1]
  {
  }

  /** One step of `retain` walking a bucket from the back: with the pairs
      after `i` already filtered, splicing out the pair at `i` when it fails
      `p` (and keeping it otherwise) filters from `i` on. */
  lemma KeepFromBack<K(!new), V>(b: Bucket<K, V>, i: nat, p: (K, V) -> bool)
    requires i < |b|
    ensures var r := b[..i + 1] + Keep(b[i + 1..], p);
            r[i] == b[i] &&
            (if p(b[i].0, b[i].1) then r else r[..i] + r[i + 1..]) == b[..i] + Keep(b[i..], p)
  {
    var rest := Keep(b[i + 1..], p);
    var r := b[..i + 1] + rest;
    assert b[i..][1..] == b[i + 1..];
    assert Keep(b[i..], p) == (if p(b[i].0, b[i].1) then [b[i]] else []) + rest;
    assert b[..i + 1] == b[..i] + [b[i]];
    if p(b[i].0, b[i].1) {
      assert r == b[..i] + ([b[i]] + rest);
    } else {
      assert r[..i] == b[..i];
      assert r[i + 1..] == rest;
    }
  }

  /** Splitting a bucket splits what `retain` keeps. */
  lemma {:induction false} KeepAppend<K(!new), V>(a: Bucket<K, V>, c: Bucket<K, V>, p: (K, V) -> bool)
    ensures Keep(a + c, p) == Keep(a, p) + Keep(c, p)
  {
    if |a| > 0 {
      assert (a + c)[0] == a[0];
      assert (a + c)[1..] == a[1..] + c;
      KeepAppend(a[1..], c, p);
    } else {
      assert a + c == c;
    }
  }

  /** `retain` keeps a bucket placed and its keys unique. */
  lemma {:induction false} KeepSound<K(!new), V>(b: Bucket<K, V>, p: (K, V) -> bool, t: nat, n: nat, hash: K -> int, eq: (K, K) -> bool)
    requires Placed(b, t, n, hash) && Unique(b, eq)
    ensures Placed(Keep(b, p), t, n, hash) && Unique(Keep(b, p), eq)
  {
    if |b| > 0 {
      var rest := Keep(b[1..], p);
      assert Unique(b[1..], eq);
      KeepSound(b[1..], p, t, n, hash, eq);
      var r := Keep(b, p);
      if p(b[0].0, b[0].1) {
        assert r == [b[0]] + rest;
        forall x, y | x in [b[0]] && y in rest
          ensures !eq(x.0, y.0) && !eq(y.0, x.0)
        {
          var j :| 0 <= j < |b[1..]| && b[1..][j] == y;
          assert b[j + 1] == y;
        }
        UniqueAppend([b[0]], rest, eq);
      } else {
        assert r == rest;
      }
    }
  }

  /** After `retain(p)` a unique bucket still holds the pair of `k` when
      that pair satisfies `p`, and otherwise holds nothing for `k`. */
  lemma {:induction false} FindAfterKeep<K(!new), V>(b: Bucket<K, V>, p: (K, V) -> bool, k: K, eq: (K, K) -> bool)
    requires Equivalence(eq) && Unique(b, eq)
    ensures Find(Keep(b, p), k, eq) ==
            if Find(b, k, eq).Some? && p(Find(b, k, eq).value.0, Find(b, k, eq).value.1) then Find(b, k, eq) else None
  {
    if |b| > 0 {
      var rest := Keep(b[1..], p);
      assert Unique(b[1..], eq);
      FindAfterKeep(b[1..], p, k, eq);
      var head: Bucket<K, V> := if p(b[0].0, b[0].1) then [b[0]] else [];
      assert Keep(b, p) == head + rest;
      FindAppend(head, rest, k, eq);
      if eq(k, b[0].0) {
        IndexOfAt(b, k, eq, 0);
        assert Find(b, k, eq) == Some(b[0]);
        HeadNotInTail(b, k, eq);
        if p(b[0].0, b[0].1) {
          IndexOfAt(head, k, eq, 0);
        }
      } else {
        FindTail(b, k, eq);
      }
    }
  }

  /** In a unique bucket, a key equal to the first key matches nothing
      after it. */
  lemma HeadNotInTail<K(!new), V>(b: Bucket<K, V>, k: K, eq: (K, K) -> bool)
    requires Equivalence(eq) && Unique(b, eq) && |b| > 0 && eq(k, b[0].0)
    ensures Find(b[1..], k, eq).None?
  {
    assert eq(b[0].0, k);
    forall j | 0 <= j < |b| - 1
      ensures !eq(k, b[1..][j].0)
    {
      assert b[1..][j] == b[j + 1];
      assert !eq(b[0].0, b[j + 1].0);
    }
  }

  /** When the first key is not `k`, the scan continues in the tail. */
  lemma FindTail<K(!new), V>(b: Bucket<K, V>, k: K, eq: (K, K) -> bool)
    requires |b| > 0 && !eq(k, b[0].0)
    ensures Find(b, k, eq) == Find(b[1..], k, eq)
  {
  }

  /** Scanning a concatenation scans the first part, then the second. */
  lemma FindAppend<K(!new), V>(a: Bucket<K, V>, c: Bucket<K, V>, k: K, eq: (K, K) -> bool)
    ensures Find(a + c, k, eq) == if Find(a, k, eq).Some? then Find(a, k, eq) else Find(c, k, eq)
  {
    match IndexOf(a, k, eq)
    case Some(i) =>
      IndexOfAt(a + c, k, eq, i);
    case None =>
      match IndexOf(c, k, eq)
      case Some(j) =>
        IndexOfAt(a + c, k, eq, |a| + j);
      case None =>
        assert forall j :: 0 <= j < |a + c| ==> !eq(k, (a + c)[j].0);
  }

  /** Keys equal to each other find the same pair. */
  lemma FindSameClass<K(!new), V>(b: Bucket<K, V>, k: K, k': K, eq: (K, K) -> bool)
    requires Equivalence(eq) && eq(k, k')
    ensures Find(b, k, eq) == Find(b, k', eq)
  {
    match IndexOf(b, k', eq)
    case Some(i) =>
      IndexOfAt(b, k, eq, i);
    case None =>
  }

  /** `map(fn)` keeps every key, and the stored pair of `k` gets its value
      mapped. */
  lemma FindAfterMapValues<K(!new), V>(b: Bucket<K, V>, f: (V, K) -> V, k: K, eq: (K, K) -> bool)
    ensures Find(MapValues(b, f), k, eq) ==
            match Find(b, k, eq)
            case Some(q) => Some((q.0, f(q.1, q.0)))
            case None => None
  {
    IndexOfSameKeys(b, MapValues(b, f), k, eq);
  }

  /** `map` keeps a bucket placed and its keys unique. */
  lemma MapValuesSound<K(!new), V>(b: Bucket<K, V>, f: (V, K) -> V, t: nat, n: nat, hash: K -> int, eq: (K, K) -> bool)
    requires Placed(b, t, n, hash) && Unique(b, eq)
    ensures Placed(MapValues(b, f), t, n, hash) && Unique(MapValues(b, f), eq)
  {
    var r := MapValues(b, f);
    forall x | x in r
      ensures Idx(hash(x.0), n) == t
    {
      var j :| 0 <= j < |r| && r[j] == x;
      assert b[j] in b;
    }
  }

  // ---------------------------------------------------------------------
  // The table
  // ---------------------------------------------------------------------

  /** The iteration order: buckets by index, then pairs by position. */
  function Flatten<K(!new), V>(bs: seq<Bucket<K, V>>): (r: seq<(K, V)>)
    ensures forall t, x :: 0 <= t < |bs| && x in bs[t] ==> x in r
    ensures forall x :: x in r ==> exists t :: 0 <= t < |bs| && x in bs[t]
  {
    if |bs| == 0 then []
    else
      var front := bs[..|bs| - 1];
      assert forall t :: 0 <= t < |front| ==> front[t] == bs[t];
      Flatten(front) + bs[|bs| - 1]
  }

  /** Every bucket is placed and holds unique keys. */
  ghost predicate WellFormed<K(!new), V>(bs: seq<Bucket<K, V>>, hash: K -> int, eq: (K, K) -> bool) {
    |bs| > 0 && forall t :: 0 <= t < |bs| ==> Placed(bs[t], t, |bs|, hash) && Unique(bs[t], eq)
  }

  /** Where the map looks for `k`: the bucket `k` hashes to. */
  function Lookup<K(!new), V>(bs: seq<Bucket<K, V>>, k: K, hash: K -> int, eq: (K, K) -> bool): Option<(K, V)>
    requires |bs| > 0
  {
    Find(bs[Idx(hash(k), |bs|)], k, eq)
  }

  lemma FlattenSnoc<K(!new), V>(bs: seq<Bucket<K, V>>, m: nat)
    requires m < |bs|
    ensures Flatten(bs[..m + 1]) == Flatten(bs[..m]) + bs[m]
  {
    assert bs[..m + 1][..m] == bs[..m];
  }

  /** Replacing one bucket changes the number of stored pairs by the
      difference in its length. */
  lemma {:induction false} FlattenLengthUpdate<K(!new), V>(bs: seq<Bucket<K, V>>, t: nat, b: Bucket<K, V>)
    requires t < |bs|
    ensures |Flatten(bs[t := b])| == |Flatten(bs)| - |bs[t]| + |b|
  {
    var m := |bs| - 1;
    var bs' := bs[t := b];
    assert bs'[..m] == if t == m then bs[..m] else bs[..m][t := b];
    if t < m {
      FlattenLengthUpdate(bs[..m], t, b);
    }
  }

  /** The same, as multisets of pairs. */
  lemma {:induction false} FlattenMultisetUpdate<K(!new), V>(bs: seq<Bucket<K, V>>, t: nat, b: Bucket<K, V>)
    requires t < |bs|
    ensures multiset(Flatten(bs[t := b])) + multiset(bs[t]) == multiset(Flatten(bs)) + multiset(b)
  {
    var m := |bs| - 1;
    var bs' := bs[t := b];
    var pre, pre' := Flatten(bs[..m]), Flatten(bs'[..m]);
    assert Flatten(bs) == pre + bs[m];
    assert Flatten(bs') == pre' + bs'[m];
    if t == m {
      assert bs'[..m] == bs[..m];
      calc {
        multiset(Flatten(bs')) + multiset(bs[t]);
        multiset(pre) + multiset(b) + multiset(bs[m]);
        multiset(Flatten(bs)) + multiset(b);
      }
    } else {
      assert bs'[..m] == bs[..m][t := b];
      FlattenMultisetUpdate(bs[..m], t, b);
      assert multiset(pre') + multiset(bs[t]) == multiset(pre) + multiset(b);
      calc {
        multiset(Flatten(bs')) + multiset(bs[t]);
        multiset(pre') + multiset(bs[m]) + multiset(bs[t]);
        multiset(pre) + multiset(b) + multiset(bs[m]);
        multiset(Flatten(bs)) + multiset(b);
      }
    }
  }

  /** A table of empty buckets iterates to nothing. */
  lemma {:induction false} FlattenEmpty<K(!new), V>(bs: seq<Bucket<K, V>>)
    requires forall t :: 0 <= t < |bs| ==> bs[t] == []
    ensures Flatten(bs) == []
  {
    if |bs| > 0 {
      FlattenEmpty(bs[..|bs| - 1]);
    }
  }

  /** The pairs of the first `m` buckets hash below `m`. */
  lemma {:induction false} FlattenPrefixPlaced<K(!new), V>(bs: seq<Bucket<K, V>>, m: nat, hash: K -> int, eq: (K, K) -> bool)
    requires WellFormed(bs, hash, eq) && m <= |bs|
    ensures forall x :: x in Flatten(bs[..m]) ==> Idx(hash(x.0), |bs|) < m
  {
    if m > 0 {
      FlattenPrefixPlaced(bs, m - 1, hash, eq);
      FlattenSnoc(bs, m - 1);
      assert Placed(bs[m - 1], m - 1, |bs|, hash);
    }
  }

  /** Scanning the first `m` buckets in iteration order finds `k` exactly
      where the map looks for it. */
  lemma {:induction false} FindInFlattenPrefix<K(!new), V>(bs: seq<Bucket<K, V>>, m: nat, k: K, hash: K -> int, eq: (K, K) -> bool)
    requires WellFormed(bs, hash, eq) && Consistent(hash, eq) && m <= |bs|
    ensures Find(Flatten(bs[..m]), k, eq) == if Idx(hash(k), |bs|) < m then Lookup(bs, k, hash, eq) else None
  {
    if m > 0 {
      FindInFlattenPrefix(bs, m - 1, k, hash, eq);
      FlattenSnoc(bs, m - 1);
      FindAppend(Flatten(bs[..m - 1]), bs[m - 1], k, eq);
      if Idx(hash(k), |bs|) != m - 1 {
        var last := bs[m - 1];
        assert Placed(last, m - 1, |bs|, hash);
        forall j | 0 <= j < |last|
          ensures !eq(k, last[j].0)
        {
          assert last[j] in last;
        }
      }
    }
  }

  /** The map's lookup is the first pair with an equal key in iteration
      order: `get` agrees with a scan of everything `[Symbol.iterator]`
      yields. */
  lemma LookupIsFirstInIterationOrder<K(!new), V>(bs: seq<Bucket<K, V>>, k: K, hash: K -> int, eq: (K, K) -> bool)
    requires WellFormed(bs, hash, eq) && Consistent(hash, eq)
    ensures Lookup(bs, k, hash, eq) == Find(Flatten(bs), k, eq)
  {
    FindInFlattenPrefix(bs, |bs|, k, hash, eq);
    assert bs[..|bs|] == bs;
  }

  /** Unique keys across a concatenation. */
  lemma UniqueAppend<K(!new), V>(a: Bucket<K, V>, c: Bucket<K, V>, eq: (K, K) -> bool)
    requires Unique(a, eq) && Unique(c, eq)
    requires forall x, y :: x in a && y in c ==> !eq(x.0, y.0) && !eq(y.0, x.0)
    ensures Unique(a + c, eq)
  {
    var s := a + c;
    forall i, j | 0 <= i < |s| && 0 <= j < |s| && i != j
      ensures !eq(s[i].0, s[j].0)
    {
      if i < |a| && j >= |a| {
        assert s[i] == a[i] && s[j] == c[j - |a|];
        assert a[i] in a && c[j - |a|] in c;
      } else if i >= |a| && j < |a| {
        assert s[j] == a[j] && s[i] == c[i - |a|];
        assert a[j] in a && c[i - |a|] in c;
      } else if i < |a| {
        assert s[i] == a[i] && s[j] == a[j];
      } else {
        assert s[i] == c[i - |a|] && s[j] == c[j - |a|];
      }
    }
  }

  /** No two stored keys are equal, across the whole table. */
  lemma {:induction false} FlattenUnique<K(!new), V>(bs: seq<Bucket<K, V>>, m: nat, hash: K -> int, eq: (K, K) -> bool)
    requires WellFormed(bs, hash, eq) && HasherLaws(hash, eq) && m <= |bs|
    ensures Unique(Flatten(bs[..m]), eq)
  {
    if m > 0 {
      FlattenUnique(bs, m - 1, hash, eq);
      FlattenSnoc(bs, m - 1);
      FlattenPrefixPlaced(bs, m - 1, hash, eq);
      assert Placed(bs[m - 1], m - 1, |bs|, hash);
      UniqueAppend(Flatten(bs[..m - 1]), bs[m - 1], eq);
    }
  }

  /** `retain` on every bucket keeps, in iteration order, exactly the pairs
      that satisfy the predicate. */
  lemma {:induction false} FlattenKeep<K(!new), V>(bs: seq<Bucket<K, V>>, p: (K, V) -> bool)
    ensures Flatten(seq(|bs|, t requires 0 <= t < |bs| => Keep(bs[t], p))) == Keep(Flatten(bs), p)
  {
    var r := seq(|bs|, t requires 0 <= t < |bs| => Keep(bs[t], p));
    if |bs| > 0 {
      var m := |bs| - 1;
      FlattenKeep(bs[..m], p);
      assert r[..m] == seq(m, t requires 0 <= t < m => Keep(bs[..m][t], p));
      KeepAppend(Flatten(bs[..m]), bs[m], p);
    }
  }

  /** `map` on every bucket maps the values of the iteration order in
      place. */
  lemma {:induction false} FlattenMapValues<K(!new), V>(bs: seq<Bucket<K, V>>, f: (V, K) -> V)
    ensures Flatten(seq(|bs|, t requires 0 <= t < |bs| => MapValues(bs[t], f))) == MapValues(Flatten(bs), f)
  {
    var r := seq(|bs|, t requires 0 <= t < |bs| => MapValues(bs[t], f));
    if |bs| > 0 {
      var m := |bs| - 1;
      FlattenMapValues(bs[..m], f);
      assert r[..m] == seq(m, t requires 0 <= t < m => MapValues(bs[..m][t], f));
      assert MapValues(Flatten(bs[..m]) + bs[m], f) == MapValues(Flatten(bs[..m]), f) + MapValues(bs[m], f);
    }
  }

  // ---------------------------------------------------------------------
  // Rehashing
  // ---------------------------------------------------------------------

  /** The pairs of `items` that land in bucket `t` of `n`, in their order. */
  function Chain<K(!new), V>(items: seq<(K, V)>, t: nat, n: nat, hash: K -> int): Bucket<K, V>
    requires t < n
  {
    if |items| == 0 then []
    else
      var last := items[|items| - 1];
      Chain(items[..|items| - 1], t, n, hash) + (if Idx(hash(last.0), n) == t then [last] else [])
  }

  /** A rebuilt bucket holds pairs of the old order that hash to it. */
  lemma {:induction false} ChainMembers<K(!new), V>(items: seq<(K, V)>, t: nat, n: nat, hash: K -> int)
    requires t < n
    ensures forall x :: x in Chain(items, t, n, hash) ==> x in items && Idx(hash(x.0), n) == t
  {
    if |items| > 0 {
      var m := |items| - 1;
      ChainMembers(items[..m], t, n, hash);
      assert forall x :: x in items[..m] ==> x in items;
    }
  }

  /** The table `resize` builds: every pair, in the old iteration order,
      appended to the bucket its hash selects among `n`. */
  function Rehash<K(!new), V>(items: seq<(K, V)>, n: nat, hash: K -> int): (r: seq<Bucket<K, V>>)
    requires n > 0
    ensures |r| == n
  {
    seq(n, t requires 0 <= t < n => Chain(items, t, n, hash))
  }

  /** Appending one pair to the old order appends it to one new bucket: the
      step of `resize`'s loop. */
  lemma RehashSnoc<K(!new), V>(items: seq<(K, V)>, p: (K, V), n: nat, hash: K -> int)
    requires n > 0
    ensures Rehash(items + [p], n, hash) ==
            Rehash(items, n, hash)[Idx(hash(p.0), n) := Rehash(items, n, hash)[Idx(hash(p.0), n)] + [p]]
  {
    var r, r' := Rehash(items, n, hash), Rehash(items + [p], n, hash);
    var s := r[Idx(hash(p.0), n) := r[Idx(hash(p.0), n)] + [p]];
    assert (items + [p])[..|items|] == items;
    forall t | 0 <= t < n
      ensures r'[t] == s[t]
    {
      assert r'[t] == Chain(items + [p], t, n, hash);
    }
  }

  /** Rehashing an empty order gives empty buckets. */
  lemma RehashEmpty<K(!new), V>(n: nat, hash: K -> int)
    requires n > 0
    ensures Flatten(Rehash<K, V>([], n, hash)) == []
    ensures forall t :: 0 <= t < n ==> Rehash<K, V>([], n, hash)[t] == []
  {
    FlattenEmpty(Rehash<K, V>([], n, hash));
  }

  /** Rehashing keeps every pair exactly once. */
  lemma {:induction false} RehashMultiset<K(!new), V>(items: seq<(K, V)>, n: nat, hash: K -> int)
    requires n > 0
    ensures multiset(Flatten(Rehash(items, n, hash))) == multiset(items)
  {
    if |items| == 0 {
      RehashEmpty<K, V>(n, hash);
    } else {
      var m := |items| - 1;
      var init, p := items[..m], items[m];
      assert items == init + [p];
      RehashMultiset(init, n, hash);
      var t := Idx(hash(p.0), n);
      var r := Rehash(init, n, hash);
      var b := r[t] + [p];
      RehashSnoc(init, p, n, hash);
      FlattenMultisetUpdate(r, t, b);
      calc {
        multiset(Flatten(Rehash(items, n, hash)));
        multiset(Flatten(r[t := b]));
        multiset(Flatten(r)) + multiset(b) - multiset(r[t]);
        multiset(init) + multiset{p};
        multiset(items);
      }
    }
  }

  /** Rehashing keeps the number of pairs. */
  lemma {:induction false} RehashLength<K(!new), V>(items: seq<(K, V)>, n: nat, hash: K -> int)
    requires n > 0
    ensures |Flatten(Rehash(items, n, hash))| == |items|
  {
    if |items| == 0 {
      RehashEmpty<K, V>(n, hash);
    } else {
      var m := |items| - 1;
      var init, p := items[..m], items[m];
      assert items == init + [p];
      RehashLength(init, n, hash);
      var t := Idx(hash(p.0), n);
      var r := Rehash(init, n, hash);
      RehashSnoc(init, p, n, hash);
      FlattenLengthUpdate(r, t, r[t] + [p]);
    }
  }

  /** A bucket of the rehashed table holds no two equal keys when the old
      order held none. */
  lemma {:induction false} ChainUnique<K(!new), V>(items: seq<(K, V)>, t: nat, n: nat, hash: K -> int, eq: (K, K) -> bool)
    requires t < n && Unique(items, eq)
    ensures Unique(Chain(items, t, n, hash), eq)
  {
    if |items| > 0 {
      var m := |items| - 1;
      var init, last := items[..m], items[m];
      assert Unique(init, eq);
      ChainUnique(init, t, n, hash, eq);
      ChainMembers(init, t, n, hash);
      var c := Chain(init, t, n, hash);
      if Idx(hash(last.0), n) == t {
        forall x, y | x in c && y in [last]
          ensures !eq(x.0, y.0) && !eq(y.0, x.0)
        {
          var j :| 0 <= j < m && init[j] == x;
          assert items[j] == x && y == items[m];
        }
        UniqueAppend(c, [last], eq);
      }
    }
  }

  /** In a rehashed table `k` is found where the map looks for it, as the
      first equal key of the old order. */
  lemma {:induction false} FindInChain<K(!new), V>(items: seq<(K, V)>, k: K, n: nat, hash: K -> int, eq: (K, K) -> bool)
    requires n > 0 && Consistent(hash, eq)
    ensures Find(Chain(items, Idx(hash(k), n), n, hash), k, eq) == Find(items, k, eq)
  {
    var t := Idx(hash(k), n);
    if |items| > 0 {
      var m := |items| - 1;
      var init, last := items[..m], items[m];
      assert items == init + [last];
      FindInChain(init, k, n, hash, eq);
      var tail: Bucket<K, V> := if Idx(hash(last.0), n) == t then [last] else [];
      FindAppend(Chain(init, t, n, hash), tail, k, eq);
      FindAppend(init, [last], k, eq);
      if Idx(hash(last.0), n) != t {
        assert !eq(k, last.0);
        assert Find([last], k, eq) == None;
      }
    }
  }

  /** The rehashed table is well formed, holds the same pairs, and finds
      every key as the old table did: `resize` changes the layout and
      nothing else. */
  lemma RehashPreserves<K(!new), V>(bs: seq<Bucket<K, V>>, n: nat, hash: K -> int, eq: (K, K) -> bool)
    requires WellFormed(bs, hash, eq) && HasherLaws(hash, eq) && n > 0
    ensures WellFormed(Rehash(Flatten(bs), n, hash), hash, eq)
    ensures |Flatten(Rehash(Flatten(bs), n, hash))| == |Flatten(bs)|
    ensures multiset(Flatten(Rehash(Flatten(bs), n, hash))) == multiset(Flatten(bs))
    ensures forall k :: Lookup(Rehash(Flatten(bs), n, hash), k, hash, eq) == Lookup(bs, k, hash, eq)
  {
    var items := Flatten(bs);
    var r := Rehash(items, n, hash);
    FlattenUnique(bs, |bs|, hash, eq);
    assert bs[..|bs|] == bs;
    forall t | 0 <= t < n
      ensures Placed(r[t], t, n, hash) && Unique(r[t], eq)
    {
      ChainUnique(items, t, n, hash, eq);
      ChainMembers(items, t, n, hash);
    }
    RehashMultiset(items, n, hash);
    RehashLength(items, n, hash);
    forall k
      ensures Lookup(r, k, hash, eq) == Lookup(bs, k, hash, eq)
    {
      FindInChain(items, k, n, hash, eq);
      LookupIsFirstInIterationOrder(bs, k, hash, eq);
    }
  }

  /** Rehashing into the same number of buckets rebuilds the same table:
      each bucket already holds exactly its pairs, in order. */
  lemma RehashSameSize<K(!new), V>(bs: seq<Bucket<K, V>>, hash: K -> int, eq: (K, K) -> bool)
    requires WellFormed(bs, hash, eq)
    ensures Rehash(Flatten(bs), |bs|, hash) == bs
  {
    forall t | 0 <= t < |bs|
      ensures Chain(Flatten(bs), t, |bs|, hash) == bs[t]
    {
      ChainOfPrefix(bs, |bs|, t, hash, eq);
      assert bs[..|bs|] == bs;
    }
  }

  lemma {:induction false} ChainOfPrefix<K(!new), V>(bs: seq<Bucket<K, V>>, m: nat, t: nat, hash: K -> int, eq: (K, K) -> bool)
    requires WellFormed(bs, hash, eq) && m <= |bs| && t < |bs|
    ensures Chain(Flatten(bs[..m]), t, |bs|, hash) == if t < m then bs[t] else []
  {
    if m > 0 {
      var front, last := Flatten(bs[..m - 1]), bs[m - 1];
      ChainOfPrefix(bs, m - 1, t, hash, eq);
      FlattenSnoc(bs, m - 1);
      assert Placed(last, m - 1, |bs|, hash);
      ChainSnocBucket(front, last, m - 1, t, |bs|, hash);
      PrefixStep(Chain(front, t, |bs|, hash), if m - 1 == t then last else [], bs[t], t, m);
    }
  }

  /** The case split that closes `ChainOfPrefix`: what bucket `t` holds
      after `m - 1` buckets, plus what bucket `m - 1` adds to it. */
  lemma PrefixStep<T>(before: seq<T>, added: seq<T>, b: seq<T>, t: nat, m: nat)
    requires m > 0
    requires before == if t < m - 1 then b else []
    requires added == if t == m - 1 then b else []
    ensures before + added == if t < m then b else []
  {
    if t < m - 1 {
      assert before + added == b + [];
    } else if t == m - 1 {
      assert before + added == [] + b;
    }
  }

  /** Appending a bucket placed at `s` to the old order adds that whole
      bucket to the rebuilt bucket `s` and nothing to any other. */
  lemma ChainSnocBucket<K(!new), V>(front: seq<(K, V)>, last: Bucket<K, V>, s: nat, t: nat, n: nat, hash: K -> int)
    requires t < n && Placed(last, s, n, hash)
    ensures Chain(front + last, t, n, hash) == Chain(front, t, n, hash) + (if s == t then last else [])
  {
    ChainAppend(front, last, t, n, hash);
    ChainOfPlaced(last, s, t, n, hash);
  }

  lemma {:induction false} ChainAppend<K(!new), V>(a: seq<(K, V)>, c: seq<(K, V)>, t: nat, n: nat, hash: K -> int)
    requires t < n
    ensures Chain(a + c, t, n, hash) == Chain(a, t, n, hash) + Chain(c, t, n, hash)
    decreases |c|
  {
    if |c| == 0 {
      assert a + c == a;
    } else {
      var m := |c| - 1;
      var last, ac := c[m], a + c;
      assert ac[..|ac| - 1] == a + c[..m];
      assert ac[|ac| - 1] == last;
      var tail: Bucket<K, V> := if Idx(hash(last.0), n) == t then [last] else [];
      assert Chain(ac, t, n, hash) == Chain(a + c[..m], t, n, hash) + tail;
      assert Chain(c, t, n, hash) == Chain(c[..m], t, n, hash) + tail;
      ChainAppend(a, c[..m], t, n, hash);
    }
  }

  lemma {:induction false} ChainOfPlaced<K(!new), V>(b: Bucket<K, V>, s: nat, t: nat, n: nat, hash: K -> int)
    requires t < n && Placed(b, s, n, hash)
    ensures Chain(b, t, n, hash) == if s == t then b else []
  {
    if |b| > 0 {
      var m := |b| - 1;
      assert b[m] in b;
      assert Placed(b[..m], s, n, hash);
      ChainOfPlaced(b[..m], s, t, n, hash);
      assert b == b[..m] + [b[m]];
    }
  }

  // ---------------------------------------------------------------------
  // Operations on the whole table
  // ---------------------------------------------------------------------

  /** The table after `set(k, v)`, before any growth. */
  function SetIn<K(!new), V>(bs: seq<Bucket<K, V>>, k: K, v: V, hash: K -> int, eq: (K, K) -> bool): (r: seq<Bucket<K, V>>)
    requires |bs| > 0
    ensures |r| == |bs|
  {
    var t := Idx(hash(k), |bs|);
    bs[t := Upsert(bs[t], k, v, eq)]
  }

  /** `set(k, v)` makes `k` and every key equal to it map to `v` (under the
      key already stored, if any), leaves every other key alone, and adds one
      pair exactly when `k` was absent. */
  lemma SetInSpec<K(!new), V>(bs: seq<Bucket<K, V>>, k: K, v: V, hash: K -> int, eq: (K, K) -> bool)
    requires WellFormed(bs, hash, eq) && HasherLaws(hash, eq)
    ensures WellFormed(SetIn(bs, k, v, hash, eq), hash, eq)
    ensures |Flatten(SetIn(bs, k, v, hash, eq))| ==
            |Flatten(bs)| + (if Lookup(bs, k, hash, eq).Some? then 0 else 1)
    ensures forall k' :: Lookup(SetIn(bs, k, v, hash, eq), k', hash, eq) ==
              if eq(k', k) then
                Some((if Lookup(bs, k, hash, eq).Some? then Lookup(bs, k, hash, eq).value.0 else k, v))
              else Lookup(bs, k', hash, eq)
  {
    var t := Idx(hash(k), |bs|);
    var b := Upsert(bs[t], k, v, eq);
    UpsertSound(bs[t], k, v, t, |bs|, hash, eq);
    FlattenLengthUpdate(bs, t, b);
    forall k'
      ensures Lookup(SetIn(bs, k, v, hash, eq), k', hash, eq) ==
              if eq(k', k) then
                Some((if Lookup(bs, k, hash, eq).Some? then Lookup(bs, k, hash, eq).value.0 else k, v))
              else Lookup(bs, k', hash, eq)
    {
      FindAfterUpsert(bs[t], k, v, k', eq);
    }
  }

  /** The table after `remove(k)`. */
  function RemoveIn<K(!new), V>(bs: seq<Bucket<K, V>>, k: K, hash: K -> int, eq: (K, K) -> bool): (r: seq<Bucket<K, V>>)
    requires |bs| > 0
    ensures |r| == |bs|
  {
    var t := Idx(hash(k), |bs|);
    bs[t := RemoveFirst(bs[t], k, eq)]
  }

  /** `remove(k)` leaves no key equal to `k`, leaves every other key alone,
      and drops one pair exactly when `k` was present. */
  lemma RemoveInSpec<K(!new), V>(bs: seq<Bucket<K, V>>, k: K, hash: K -> int, eq: (K, K) -> bool)
    requires WellFormed(bs, hash, eq) && HasherLaws(hash, eq)
    ensures WellFormed(RemoveIn(bs, k, hash, eq), hash, eq)
    ensures |Flatten(RemoveIn(bs, k, hash, eq))| ==
            |Flatten(bs)| - (if Lookup(bs, k, hash, eq).Some? then 1 else 0)
    ensures forall k' :: Lookup(RemoveIn(bs, k, hash, eq), k', hash, eq) ==
              if eq(k', k) then None else Lookup(bs, k', hash, eq)
  {
    var t := Idx(hash(k), |bs|);
    var b := RemoveFirst(bs[t], k, eq);
    RemoveSound(bs[t], k, t, |bs|, hash, eq);
    FlattenLengthUpdate(bs, t, b);
    forall k'
      ensures Lookup(RemoveIn(bs, k, hash, eq), k', hash, eq) ==
              if eq(k', k) then None else Lookup(bs, k', hash, eq)
    {
      FindAfterRemove(bs[t], k, k', eq);
    }
  }

  /** The table after `retain(p)`. */
  function RetainIn<K(!new), V>(bs: seq<Bucket<K, V>>, p: (K, V) -> bool): (r: seq<Bucket<K, V>>)
    ensures |r| == |bs|
  {
    seq(|bs|, t requires 0 <= t < |bs| => Keep(bs[t], p))
  }

  /** `retain(p)` keeps, in iteration order, exactly the pairs satisfying
      `p`, and a key stays present exactly when its pair satisfies `p`. */
  lemma RetainInSpec<K(!new), V>(bs: seq<Bucket<K, V>>, p: (K, V) -> bool, hash: K -> int, eq: (K, K) -> bool)
    requires WellFormed(bs, hash, eq) && HasherLaws(hash, eq)
    ensures WellFormed(RetainIn(bs, p), hash, eq)
    ensures Flatten(RetainIn(bs, p)) == Keep(Flatten(bs), p)
    ensures forall k :: Lookup(RetainIn(bs, p), k, hash, eq) ==
              if Lookup(bs, k, hash, eq).Some? && p(Lookup(bs, k, hash, eq).value.0, Lookup(bs, k, hash, eq).value.1)
              then Lookup(bs, k, hash, eq) else None
  {
    forall t | 0 <= t < |bs|
      ensures Placed(Keep(bs[t], p), t, |bs|, hash) && Unique(Keep(bs[t], p), eq)
    {
      KeepSound(bs[t], p, t, |bs|, hash, eq);
    }
    FlattenKeep(bs, p);
    forall k
      ensures Lookup(RetainIn(bs, p), k, hash, eq) ==
              if Lookup(bs, k, hash, eq).Some? && p(Lookup(bs, k, hash, eq).value.0, Lookup(bs, k, hash, eq).value.1)
              then Lookup(bs, k, hash, eq) else None
    {
      FindAfterKeep(bs[Idx(hash(k), |bs|)], p, k, eq);
    }
  }

  /** The table after `map(f)`. */
  function MapIn<K(!new), V>(bs: seq<Bucket<K, V>>, f: (V, K) -> V): (r: seq<Bucket<K, V>>)
    ensures |r| == |bs|
  {
    seq(|bs|, t requires 0 <= t < |bs| => MapValues(bs[t], f))
  }

  /** `map(f)` replaces every value `v` at key `k` by `f(v, k)`, in place:
      keys, layout and iteration order stay. */
  lemma MapInSpec<K(!new), V>(bs: seq<Bucket<K, V>>, f: (V, K) -> V, hash: K -> int, eq: (K, K) -> bool)
    requires WellFormed(bs, hash, eq)
    ensures WellFormed(MapIn(bs, f), hash, eq)
    ensures Flatten(MapIn(bs, f)) == MapValues(Flatten(bs), f)
    ensures forall k :: Lookup(MapIn(bs, f), k, hash, eq) ==
              match Lookup(bs, k, hash, eq)
              case Some(q) => Some((q.0, f(q.1, q.0)))
              case None => None
  {
    forall t | 0 <= t < |bs|
      ensures Placed(MapValues(bs[t], f), t, |bs|, hash) && Unique(MapValues(bs[t], f), eq)
    {
      MapValuesSound(bs[t], f, t, |bs|, hash, eq);
    }
    FlattenMapValues(bs, f);
    forall k
      ensures Lookup(MapIn(bs, f), k, hash, eq) ==
              match Lookup(bs, k, hash, eq)
              case Some(q) => Some((q.0, f(q.1, q.0)))
              case None => None
    {
      FindAfterMapValues(bs[Idx(hash(k), |bs|)], f, k, eq);
    }
  }

  /** A table of `n` empty buckets: what the constructor and `clear` build. */
  function EmptyTable<K(!new), V>(n: nat): (r: seq<Bucket<K, V>>)
    ensures |r| == n
  {
    seq(n, _ => [])
  }

  /** An empty table is well formed, iterates to nothing and finds nothing. */
  lemma EmptyTableSpec<K(!new), V>(n: nat, hash: K -> int, eq: (K, K) -> bool)
    requires n > 0
    ensures WellFormed(EmptyTable<K, V>(n), hash, eq)
    ensures Flatten(EmptyTable<K, V>(n)) == []
    ensures forall k :: Lookup(EmptyTable<K, V>(n), k, hash, eq) == None
  {
    FlattenEmpty(EmptyTable<K, V>(n));
  }

  /** What iteration yields is what lookup finds: no key twice, every
      yielded pair is the stored pair of its key, and every stored pair is
      yielded. */
  lemma ItemsAreStored<K(!new), V>(bs: seq<Bucket<K, V>>, hash: K -> int, eq: (K, K) -> bool)
    requires WellFormed(bs, hash, eq) && HasherLaws(hash, eq)
    ensures Unique(Flatten(bs), eq)
    ensures forall p :: p in Flatten(bs) ==> Lookup(bs, p.0, hash, eq) == Some(p)
    ensures forall k :: Lookup(bs, k, hash, eq).Some? ==> Lookup(bs, k, hash, eq).value in Flatten(bs)
  {
    var items := Flatten(bs);
    FlattenUnique(bs, |bs|, hash, eq);
    assert bs[..|bs|] == bs;
    forall p | p in items
      ensures Lookup(bs, p.0, hash, eq) == Some(p)
    {
      var i :| 0 <= i < |items| && items[i] == p;
      IndexOfAt(items, p.0, eq, i);
      LookupIsFirstInIterationOrder(bs, p.0, hash, eq);
    }
    forall k
      ensures Lookup(bs, k, hash, eq).Some? ==> Lookup(bs, k, hash, eq).value in items
    {
      LookupIsFirstInIterationOrder(bs, k, hash, eq);
    }
  }

  /** A table iterates to nothing exactly when no key is present. */
  lemma EmptyIffNoKey<K(!new), V>(bs: seq<Bucket<K, V>>, hash: K -> int, eq: (K, K) -> bool)
    requires WellFormed(bs, hash, eq) && HasherLaws(hash, eq)
    ensures Flatten(bs) == [] <==> forall k :: Lookup(bs, k, hash, eq).None?
  {
    ItemsAreStored(bs, hash, eq);
    if Flatten(bs) != [] {
      assert Flatten(bs)[0] in Flatten(bs);
    }
  }
}
