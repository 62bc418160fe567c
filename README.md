# sckTypes hash map, entry cursor, Option and Result — a Dafny model

This project models the core of the sckTypes TypeScript library. That core
has three parts.

**The separately chained hash map** (`HashMap`). It keeps:
- an array of buckets, where each bucket is a list of `[key, value]` pairs;
- a count of the stored pairs;
- a hasher (`hash`, `equals`);
- a load threshold, the static `HashMap.loadThreshold`, initially 0.75.

A key lives in bucket `|hash(key)| & (buckets - 1)`. The bucket count is
always a power of two, so this index is `|hash| mod buckets`. After a `set`
adds a pair and the load goes over 0.75, the map doubles. `reserve`,
`shrinkToFit` and `shrinkTo` rehash on request. A rehash rounds the requested
size up to a power of two with `1 << (32 - clz32(n - 1))`. It then appends
every pair, in the old iteration order, to its new bucket.

**The entry cursor** (`Entry`). It holds a map and a key, and turns each of
its operations into `get`, `set` or `remove` of that key.

**The two return-value containers.** `Option` has the variants `Some` and
`None`; `Result` has `Ok` and `Err`. Each has its combinators.

The model has five files:
- `option_result.dfy` (module `OptionResult`): `Option` and `Result` as
  datatypes with member functions. A call that throws returns an `Outcome`
  that records which exception was thrown. The laws that relate the
  combinators are proved as lemmas.
- `hashing.dfy` (module `Hashing`):
  - `hashString` as a loop, proved equal to a fold that is its specification;
  - JavaScript's ToInt32 conversion;
  - the masked bucket index, proved equal to `|h| mod 2^k`;
  - `Math.clz32` and the power-of-two rounding of `resize`, proved to give
    the least power of two at least `max(n, 1)`;
  - the identity hasher of `getWeakMapHasher`, as a class with a counter and
    a map from objects to numbers.
- `buckets.dfy` (module `Buckets`): the table as a value, a sequence of
  buckets. Each operation is a function on it (set, remove, retain, map,
  rehash), and lemmas say what each does to lookup, to the iteration order
  and to the structural invariant. The invariant is that every pair sits in
  the bucket of its hash and no two keys are equal.
- `hashmap.dfy` (module `HashMaps`): class `HashMap`, with the array of
  buckets and the count as fields. Every method is proved against the value
  model. `Stored(k)` is the pair that `get` finds for `k`, and `Items()` is
  the iteration order. The 0.75 threshold is written in integers:
  - the load check is `4 * count > 3 * buckets`;
  - `Math.ceil(n / 0.75)` is `(4n + 2) / 3`;
  - `Math.ceil(n * 0.75)` is `(3n + 3) / 4`;
  - `Math.floor(n * 0.75)` is `3n / 4`.
- `entry.dfy` (module `Entries`): class `Entry`, and `entries()`.

The hasher is a pair of pure functions. The model requires two laws of it:
`equals` is an equivalence, and equal keys hash alike. `Entry.key()` is the
function `Entries.Entry.Key`, which returns the cursor's `key` field.

The model follows the code as written:
- `None.unwrap` throws a plain `Error` with the given message
  (`src/Option/None.ts:25-27`), not an `UnwrapError` (see Findings).
- `[...none()]` throws (see Findings).
- `withCapacity(n)` sizes the table by `ceil(n * 0.75)`
  (`src/HashMap/HashMap.ts:107`). The rest of the map divides by the
  threshold instead: `reserve`, `shrinkToFit` and `shrinkTo` ask for
  `ceil(count / 0.75)` buckets (`src/HashMap/HashMap.ts:206, 214, 221-222`),
  and `capacity()` reports `floor(buckets * 0.75)` pairs
  (`src/HashMap/HashMap.ts:200-202`). The multiplication is therefore taken
  to be a slip (see Findings).

## Model

| member | source | states |
|---|---|---|
| `OptionResult.Option.IsSome` | src/Option/Some.ts:12-14 | true exactly for `Some` (and false for `None`, `None.ts:9-11`) |
| `OptionResult.Option.IsSomeAnd` | src/Option/Some.ts:16-18 | true exactly when the option is `Some` and the predicate holds of its value; always false for `None` |
| `OptionResult.Option.IsNone` | src/Option/Some.ts:20-22 | true exactly for `None` |
| `OptionResult.Option.IsNoneOr` | src/Option/Some.ts:24-26 | true when `None`, otherwise the predicate of the value |
| `OptionResult.Option.Unwrap` | src/Option/None.ts:25-27 | returns the value exactly for `Some`; `None` throws a plain `Error` with the given message (default "Called Option#unwrap on a None value") |
| `OptionResult.Option.UnwrapIntended` | src/Option/None.ts:25-27 | `unwrap` as `Ok` and `Err` throw: returns the value exactly for `Some`; `None` throws an `UnwrapError` with the given message |
| `OptionResult.Option.UnwrapOr` | src/Option/Some.ts:32-34 | the held value for `Some`, the default for `None` |
| `OptionResult.Option.UnwrapOrElse` | src/Option/Some.ts:36-38 | the held value for `Some`, the fallback's result for `None` |
| `OptionResult.Option.Map` | src/Option/Some.ts:40-42 | `Some` exactly when the input is, holding `f` of the value |
| `OptionResult.Option.Inspect` | src/Option/Some.ts:44-48 | returns the option itself, for both variants |
| `OptionResult.Option.MapOr` | src/Option/Some.ts:50-52 | `f` of the value for `Some`, the default for `None` |
| `OptionResult.Option.MapOrElse` | src/Option/Some.ts:54-56 | `f` of the value for `Some`, the default function's result for `None` |
| `OptionResult.Option.OkOr` | src/Option/Some.ts:58-60 | `Ok` exactly for `Some`, with the same value; `None` gives `Err` of the given error |
| `OptionResult.Option.Spread` | src/Option/Some.ts:62-64 | spreading `Some` yields its one value; spreading `None`, which has no iterator, throws `TypeError` |
| `OptionResult.Option.Iter` | src/Option/None.ts:57-59 | `None.iter()` yields nothing; `Some` has no `iter` and the call throws `TypeError` |
| `OptionResult.Option.Values` | tests/option_none_test.ts:77-81 | what iterating an option yields: at most one element, none exactly for `None`, and only the held value |
| `OptionResult.Option.And` | src/Option/Some.ts:66-68 | the other option for `Some`, `None` for `None` |
| `OptionResult.Option.AndThen` | src/Option/Some.ts:70-72 | the option `f` makes of the value for `Some`, `None` for `None` |
| `OptionResult.Option.Filter` | src/Option/Some.ts:74-80 | `Some` exactly when the input is `Some` and the predicate holds, and then the input itself |
| `OptionResult.Option.Or` | src/Option/Some.ts:82-84 | itself for `Some`, the other option for `None` |
| `OptionResult.Option.OrElse` | src/Option/Some.ts:86-88 | itself for `Some`, the fallback's option for `None` |
| `OptionResult.Option.Xor` | src/Option/Some.ts:90-95 | `Some` exactly when one of the two is `Some`, holding that one's value (`None.ts:81-87` for the other half) |
| `OptionResult.Option.Zip` | src/Option/Some.ts:97-102 | `Some` exactly when both are `Some`, holding the pair of their values |
| `OptionResult.Option.ZipWith` | src/Option/Some.ts:104-109 | `Some` exactly when both are `Some`, holding `f` of both values |
| `OptionResult.Option.Match` | src/Option/Some.ts:111-116 | the `Some` handler applied to the value, or the `None` handler |
| `OptionResult.Result.IsOk` | src/Result/Ok.ts:15-17 | true exactly for `Ok` |
| `OptionResult.Result.IsOkAnd` | src/Result/Ok.ts:19-21 | true exactly for `Ok` whose value satisfies the predicate |
| `OptionResult.Result.IsErr` | src/Result/Err.ts:23-25 | true exactly for `Err` |
| `OptionResult.Result.IsErrAnd` | src/Result/Err.ts:27-29 | true exactly for `Err` whose error satisfies the predicate |
| `OptionResult.Result.OkOption` | src/Result/Ok.ts:31-33 | `Some(value)` exactly for `Ok` |
| `OptionResult.Result.ErrOption` | src/Result/Err.ts:35-37 | `Some(error)` exactly for `Err` |
| `OptionResult.Result.Map` | src/Result/Ok.ts:39-41 | maps the success value and keeps the variant and the error |
| `OptionResult.Result.MapOr` | src/Result/Ok.ts:43-45 | `f` of the value for `Ok`, the default for `Err` |
| `OptionResult.Result.MapOrElse` | src/Result/Err.ts:47-49 | `f` of the value for `Ok`, the default function of the error for `Err` |
| `OptionResult.Result.MapErr` | src/Result/Err.ts:51-53 | maps the error and keeps the variant and the success value |
| `OptionResult.Result.Inspect` | src/Result/Ok.ts:55-58 | returns the result unchanged |
| `OptionResult.Result.InspectErr` | src/Result/Err.ts:59-62 | returns the result unchanged |
| `OptionResult.Result.Values` | src/Result/Ok.ts:64-66 | iterating yields the success value of `Ok` and nothing for `Err` (`Err.ts:64`) |
| `OptionResult.Result.Unwrap` | src/Result/Err.ts:66-68 | returns exactly for `Ok`; `Err` throws an `UnwrapError` carrying the error |
| `OptionResult.Result.UnwrapErr` | src/Result/Ok.ts:72-74 | returns the error exactly for `Err`; `Ok` throws an `UnwrapError` carrying the value |
| `OptionResult.Result.And` | src/Result/Ok.ts:76-78 | the other result for `Ok`; `Err` keeps its error |
| `OptionResult.Result.AndThen` | src/Result/Ok.ts:80-82 | `f` of the value for `Ok`; `Err` keeps its error |
| `OptionResult.Result.Chain` | src/Result/Ok.ts:84-86 | `f` of the value for `Ok`, with `f`'s error tagged as the second alternative of `E \| F`; `Err` keeps its error as the first |
| `OptionResult.Result.Or` | src/Result/Ok.ts:88-90 | the success value for `Ok`, the other result for `Err` |
| `OptionResult.Result.OrElse` | src/Result/Err.ts:90-92 | the success value for `Ok`, `f` of the error for `Err` |
| `OptionResult.Result.UnwrapOr` | src/Result/Err.ts:94-96 | the success value, or the default for `Err` |
| `OptionResult.Result.UnwrapOrElse` | src/Result/Err.ts:98-100 | the success value, or `f` of the error for `Err` |
| `OptionResult.Result.Match` | src/Result/Ok.ts:104-109 | the `Ok` handler of the value, or the `Err` handler of the error |
| `OptionResult.OkOrRoundTrip` | src/Option/Some.ts:58-60 | `x.okOr(e).ok()` is `x` again, and `err()` is `Some(e)` exactly when `x` was `None` |
| `OptionResult.XorSymmetric` | src/Option/OptionBase.ts:139-143 | `a.xor(b)` equals `b.xor(a)` |
| `OptionResult.XorSelf` | src/Option/OptionBase.ts:139-143 | `a.xor(a)` is always `None` |
| `OptionResult.MapCompose` | src/Option/Some.ts:40-42 | mapping `f` then `g` is mapping their composition |
| `OptionResult.AndThenLaws` | src/Option/Some.ts:70-72 | `andThen(some)` is the identity, and `andThen` is associative |
| `OptionResult.FilterIsAndThen` | src/Option/Some.ts:74-80 | `filter(p)` is `andThen` with a keep-or-drop continuation |
| `OptionResult.ZipWithIsZipMap` | src/Option/Some.ts:97-109 | `zipWith(b, f)` is `zip(b)` followed by `map` |
| `OptionResult.PredicatesAreMapOr` | src/Option/Some.ts:16-26 | `isSomeAnd(p)` is `mapOr(false, p)`, `isNoneOr(p)` is `mapOr(true, p)`, and the first implies the second |
| `OptionResult.MapOrIsMapUnwrapOr` | src/Option/Some.ts:50-52 | `mapOr(d, f)` is `map(f).unwrapOr(d)` |
| `OptionResult.ResultProjections` | src/Result/Ok.ts:31-53 | exactly one of `ok()` and `err()` is `Some`; `map` and `mapErr` commute with them and with each other |
| `OptionResult.ChainIsAndThen` | src/Result/Ok.ts:80-86 | `chain(f)` is `andThen` once both error types are injected into the union |
| `OptionResult.ResultFallbacks` | src/Result/Err.ts:86-96 | `unwrapOr` of a result is `unwrapOr` of its `ok()`; `or` never turns a success into a failure |
| `OptionResult.UnwrapExclusive` | src/Result/Ok.ts:68-74 | exactly one of `unwrap` and `unwrapErr` returns |
| `OptionResult.NoneUnwrapThrowsPlainError` | src/Option/None.ts:25-27 | `None.unwrap` throws a plain `Error`, never an `UnwrapError`; it has the same message as the intended `unwrap`, and the two agree on `Some` |
| `OptionResult.NoneSpreadThrows` | src/Option/None.ts:57-59 | spreading `None` throws `TypeError`, although an option's values for `None` are empty |
| `OptionResult.SpreadAgreesWhereDefined` | src/Option/Some.ts:62-64 | wherever spreading or `iter()` returns, it yields `Values()`; exactly one of the two returns for each variant |
| `Hashing.ToInt32` | src/HashMap/HashMap.ts:13 | `x \| 0` is a signed 32-bit integer congruent to `x` modulo 2^32 |
| `Hashing.ToInt32Congruent` | src/HashMap/HashMap.ts:13 | congruent inputs convert to the same 32-bit value |
| `Hashing.StringHash` | src/HashMap/HashMap.ts:10-16 | the string hash is a signed 32-bit integer, and the empty string hashes to 0 |
| `Hashing.HashString` | src/HashMap/HashMap.ts:10-16 | the loop computes the fold `h := ToInt32(31h + code)` from 0 over the code units |
| `Hashing.MaskIsMod` | src/HashMap/HashMap.ts:114 | masking with `2^k - 1` keeps the remainder modulo `2^k` |
| `Hashing.MaskedIndex` | src/HashMap/HashMap.ts:114 | the masked index is a valid bucket of a table of `2^k` buckets, and never exceeds `\|h\|` |
| `Hashing.MaskedIndexIsMod` | src/HashMap/HashMap.ts:114 | `Math.abs(h) & (2^k - 1)`, through ToInt32, is `\|h\| mod 2^k`, for every integer `h` |
| `Hashing.BucketIndex` | src/HashMap/HashMap.ts:112-115 | the bucket index in a power-of-two table of `n` buckets is `\|h\| mod n`, below `n` |
| `Hashing.Clz32` | src/HashMap/HashMap.ts:185 | `Math.clz32(m)` is at most 32, and 32 exactly for 0 |
| `Hashing.Clz32HighestBit` | src/HashMap/HashMap.ts:185 | the highest set bit of a non-zero `m` is bit `31 - clz32(m)` |
| `Hashing.ShiftOne` | src/HashMap/HashMap.ts:184-185 | `1 << s` is `2^s` for shift counts below 31 |
| `Hashing.RoundUpPow2` | src/HashMap/HashMap.ts:184-185 | `resize`'s bucket count is a power of two, at least `max(n, 1)`, and less than twice `n` |
| `Hashing.RoundUpPow2Least` | src/HashMap/HashMap.ts:184-185 | that count is at most every power of two that is at least `n` |
| `Hashing.RoundUpPow2Fixed` | src/HashMap/HashMap.ts:184-185 | a power of two rounds to itself |
| `Hashing.IdentityHasher.constructor` | src/HashMap/HashMap.ts:29-31 | a fresh hasher has numbered no object and its counter is 0 |
| `Hashing.IdentityHasher.Hash` | src/HashMap/HashMap.ts:33-40 | an object hashed before keeps its number and nothing changes; a new object is given the counter's current value, so objects are numbered 0, 1, 2, ... in the order they are first hashed; that number is above every number given so far, and the counter goes up by one |
| `Hashing.IdentityHasher.Equals` | src/HashMap/HashMap.ts:41-48 | true exactly when both objects have been hashed and are the same object; false whenever the first was never hashed |
| `Buckets.IndexOf` | src/HashMap/HashMap.ts:120-127 | the first position whose key equals `k`, or none exactly when no key in the bucket does |
| `Buckets.Find` | src/HashMap/HashMap.ts:137-148 | the pair found is in the bucket under a key equal to `k`; none exactly when no key equals `k` |
| `Buckets.Keep` | src/HashMap/HashMap.ts:287-296 | what `retain` leaves of a bucket: no longer than it, and only pairs of the bucket that satisfy the predicate |
| `Buckets.MapValues` | src/HashMap/HashMap.ts:279-285 | `map` keeps a bucket's length |
| `Buckets.FindAfterUpsert` | src/HashMap/HashMap.ts:117-130 | after `set(k, v)` a bucket answers every key equal to `k` with `v`, under the key stored first, and every other key as before |
| `Buckets.Upsert` | src/HashMap/HashMap.ts:117-130 | `set` on a bucket keeps every key in its place; a pair changes only if its key equals `k`, and then its value becomes `v`; when `k` is present the bucket keeps its length and answers `k` with the stored key and `v`; when absent, `(k, v)` is appended |
| `Buckets.UpsertSound` | src/HashMap/HashMap.ts:117-130 | `set` keeps a bucket's pairs in that bucket and its keys unique |
| `Buckets.FindAfterRemove` | src/HashMap/HashMap.ts:166-179 | after `remove(k)` no key equal to `k` is found in a bucket, and every other key is found as before |
| `Buckets.RemoveFirst` | src/HashMap/HashMap.ts:166-179 | `remove` on a bucket shortens it by one exactly when the key is present, adds no pair, and keeps every pair whose key is not equal to `k` |
| `Buckets.RemoveSound` | src/HashMap/HashMap.ts:166-179 | `remove` keeps a bucket placed and unique |
| `Buckets.KeepFromBack` | src/HashMap/HashMap.ts:289-294 | one step of `retain`'s backward loop: splicing out position `i` exactly when the predicate fails extends what has been kept by one position |
| `Buckets.KeepSound` | src/HashMap/HashMap.ts:287-296 | `retain` keeps a bucket placed and its keys unique |
| `Buckets.FindAfterKeep` | src/HashMap/HashMap.ts:287-296 | after `retain(p)` a key keeps its pair when the pair satisfies `p`, and is absent otherwise |
| `Buckets.FindAfterMapValues` | src/HashMap/HashMap.ts:279-285 | after `map(f)` every key finds its pair with the value mapped, and absent keys stay absent |
| `Buckets.MapValuesSound` | src/HashMap/HashMap.ts:279-285 | `map` keeps a bucket placed and its keys unique |
| `Buckets.LookupIsFirstInIterationOrder` | src/HashMap/HashMap.ts:234-238 | what `get` finds is the first pair with an equal key in iteration order |
| `Buckets.Flatten` | src/HashMap/HashMap.ts:234-238 | the iteration order holds every pair of every bucket, and nothing that is not in some bucket |
| `Buckets.FlattenUnique` | src/HashMap/HashMap.ts:120-130 | no two stored pairs, across all buckets, have equal keys |
| `Buckets.FlattenKeep` | src/HashMap/HashMap.ts:287-296 | `retain` on every bucket keeps exactly the satisfying pairs of the iteration order, in order |
| `Buckets.FlattenMapValues` | src/HashMap/HashMap.ts:279-285 | `map` on every bucket maps the values of the iteration order in place |
| `Buckets.ChainMembers` | src/HashMap/HashMap.ts:189-197 | a rebuilt bucket holds only pairs of the old order that hash to it |
| `Buckets.Rehash` | src/HashMap/HashMap.ts:187-197 | the rebuilt table has exactly the requested number of buckets |
| `Buckets.RehashSnoc` | src/HashMap/HashMap.ts:190-196 | appending one pair to the old order appends it to exactly the bucket of its hash |
| `Buckets.RehashEmpty` | src/HashMap/HashMap.ts:187 | rehashing nothing gives empty buckets |
| `Buckets.RehashMultiset` | src/HashMap/HashMap.ts:181-198 | rehashing keeps every pair exactly once |
| `Buckets.RehashLength` | src/HashMap/HashMap.ts:181-198 | rehashing keeps the number of pairs |
| `Buckets.ChainUnique` | src/HashMap/HashMap.ts:189-197 | a rebuilt bucket has unique keys when the old order had |
| `Buckets.FindInChain` | src/HashMap/HashMap.ts:189-197 | in the rebuilt table a key is found in its bucket as the first equal key of the old order |
| `Buckets.RehashPreserves` | src/HashMap/HashMap.ts:181-198 | rehashing a well-formed table keeps it well formed, keeps the count and the multiset of pairs, and every key finds the same pair |
| `Buckets.RehashSameSize` | src/HashMap/HashMap.ts:208-209 | rehashing into the same number of buckets rebuilds exactly the same table |
| `Buckets.SetIn` | src/HashMap/HashMap.ts:117-130 | `set` on the table keeps the bucket count |
| `Buckets.SetInSpec` | src/HashMap/HashMap.ts:117-130 | `set(k, v)` keeps the table well formed, adds one pair exactly when `k` was absent, makes every key equal to `k` find `v` under the key stored first, and leaves every other key alone |
| `Buckets.RemoveIn` | src/HashMap/HashMap.ts:166-179 | `remove` on the table keeps the bucket count |
| `Buckets.RemoveInSpec` | src/HashMap/HashMap.ts:166-179 | `remove(k)` keeps the table well formed, drops one pair exactly when `k` was present, and leaves no key equal to `k` and every other key alone |
| `Buckets.RetainIn` | src/HashMap/HashMap.ts:287-296 | `retain` on the table keeps the bucket count |
| `Buckets.RetainInSpec` | src/HashMap/HashMap.ts:287-296 | `retain(p)` keeps the table well formed, its iteration order is the satisfying pairs in order, and each key keeps its pair exactly when the pair satisfies `p` |
| `Buckets.MapIn` | src/HashMap/HashMap.ts:279-285 | `map` on the table keeps the bucket count |
| `Buckets.MapInSpec` | src/HashMap/HashMap.ts:279-285 | `map(f)` keeps the table well formed, maps the iteration order's values in place, and every key finds its value mapped |
| `Buckets.EmptyTable` | src/HashMap/HashMap.ts:257 | the fresh table has the requested number of buckets |
| `Buckets.EmptyTableSpec` | src/HashMap/HashMap.ts:72 | a table of empty buckets is well formed, iterates to nothing and finds nothing |
| `Buckets.ItemsAreStored` | src/HashMap/HashMap.ts:234-238 | iteration yields no key twice; every yielded pair is what `get` finds for its key, and every found pair is yielded |
| `Buckets.EmptyIffNoKey` | src/HashMap/HashMap.ts:83-85 | a table iterates to nothing exactly when no key is found |
| `HashMaps.BucketsFor` | src/HashMap/HashMap.ts:206 | `Math.ceil(x / 0.75)` is the fewest buckets that keep `x` pairs within the threshold |
| `HashMaps.CeilThreeQuarters` | src/HashMap/HashMap.ts:107 | `Math.ceil(x * 0.75)`: the least integer at least three quarters of `x` |
| `HashMaps.CapacityOf` | src/HashMap/HashMap.ts:200-202 | `Math.floor(n * 0.75)` pairs fit in `n` buckets within the threshold, and one more does not |
| `HashMaps.OverThreshold` | src/HashMap/HashMap.ts:132 | for a positive bucket count, the integer test is exactly the source's `count / buckets > 0.75` in exact arithmetic |
| `HashMaps.ThresholdBounds` | src/HashMap/HashMap.ts:132 | `c` pairs fit in `n` buckets exactly when `c` is at most the capacity, and exactly when `n` is at least `ceil(c / 0.75)` |
| `HashMaps.Doubling` | src/HashMap/HashMap.ts:132-134 | when one new pair takes a power-of-two table over the threshold, doubling it brings the load back within the threshold |
| `HashMaps.HashMap.constructor` | src/HashMap/HashMap.ts:70-73 | a new map has eight empty buckets, a count of 0, and finds nothing |
| `HashMaps.HashMap.Size` | src/HashMap/HashMap.ts:79-81 | the count is the number of pairs iteration yields |
| `HashMaps.HashMap.IsEmpty` | src/HashMap/HashMap.ts:83-85 | true exactly when iteration yields nothing, and exactly when no key is stored |
| `HashMaps.HashMap.BucketCount` | src/HashMap/HashMap.ts:87-89 | the bucket count is a power of two, and the stored pairs fit within the threshold |
| `HashMaps.HashMap.Capacity` | src/HashMap/HashMap.ts:200-202 | the most pairs the current buckets hold within the threshold, which is at least the count |
| `HashMaps.HashMap.BucketOf` | src/HashMap/HashMap.ts:112-115 | `getBucket` picks bucket `\|hash(key)\| mod buckets` |
| `HashMaps.HashMap.Scan` | src/HashMap/HashMap.ts:120-127 | the scan returns the first position whose key equals the key, or nothing exactly when no key does |
| `HashMaps.HashMap.Get` | src/HashMap/HashMap.ts:137-148 | `get` returns a value exactly when a pair with a key equal to the key is stored, and exactly when iteration yields such a pair; the value is that stored pair's value |
| `HashMaps.HashMap.GetKeyValue` | src/HashMap/HashMap.ts:150-160 | the stored pair for the key, whose key equals the key and which iteration yields; nothing only when no yielded key equals the key |
| `HashMaps.HashMap.Has` | src/HashMap/HashMap.ts:263-267 | true exactly when `get` finds a value, and exactly when iteration yields a pair with an equal key |
| `HashMaps.HashMap.Set` | src/HashMap/HashMap.ts:117-135 | afterwards the key and every key equal to it find the new value (under the key stored first), every other key is unchanged, and the count grows by one exactly when the key was new; the table doubles exactly when the new pair took it over the threshold, so the load is within the threshold again |
| `HashMaps.HashMap.Put` | src/HashMap/HashMap.ts:117-131 | the scan-and-write part of `set`: overwrites in place or appends, and reports whether it appended |
| `HashMaps.HashMap.Remove` | src/HashMap/HashMap.ts:166-179 | returns the stored value exactly when the key was present; afterwards no equal key is stored, every other key is unchanged, and the count drops by one exactly when something was removed |
| `HashMaps.HashMap.Splice` | src/HashMap/HashMap.ts:167-178 | the scan-and-splice of `remove` on the key's bucket |
| `HashMaps.HashMap.Resize` | src/HashMap/HashMap.ts:181-198 | the new bucket count is the least power of two at least `max(n, 1)`; the new table holds every old pair in the bucket of its hash, in the old iteration order; count, pairs and every lookup are unchanged |
| `HashMaps.HashMap.Rehashed` | src/HashMap/HashMap.ts:184-197 | the loop builds exactly the rehash of the old iteration order into a fresh array |
| `HashMaps.HashMap.Scatter` | src/HashMap/HashMap.ts:190-196 | the inner loop appends each pair of one old bucket to the new bucket of its hash |
| `HashMaps.HashMap.WithCapacity` | src/HashMap/HashMap.ts:101-110 | as written: an empty map of `RoundUpPow2(ceil(capacity * 0.75))` buckets |
| `HashMaps.HashMap.WithRoomFor` | src/HashMap/HashMap.ts:101-110 | as intended: an empty map of the fewest power-of-two buckets that hold `capacity` pairs within the threshold |
| `HashMaps.HashMap.From` | src/HashMap/HashMap.ts:91-99 | a map built by `WithCapacity(\|pairs\|)` as written, in which every key finds what setting the input pairs one by one leaves at it (`AssignedIsFirstKeyLastValue`: the first equal input key with the last equal value); the count is `KeyCount(pairs)`, the number of pairs whose key equals no earlier key, and it is exactly `\|pairs\|` when no two keys are equal |
| `HashMaps.HashMap.SetAll` | src/HashMap/HashMap.ts:94-96 | `from`'s loop: starting from an empty map, afterwards every key finds what setting the pairs one by one leaves at it, and the count is `KeyCount(pairs)` |
| `HashMaps.HashMap.SetCounted` | src/HashMap/HashMap.ts:94-96 | one iteration of `from`'s loop with its count: after setting pair `i`, the count is `KeyCount` of the first `i + 1` pairs |
| `HashMaps.HashMap.SetNext` | src/HashMap/HashMap.ts:94-96 | one iteration of `from`'s loop: the map agrees with one more input pair, and the count grows by one exactly when that pair's key was not stored |
| `HashMaps.KeyCount` | src/HashMap/HashMap.ts:91-99 | the size `from(pairs)` ends with is at most the number of pairs |
| `HashMaps.KeyCountIsLength` | src/HashMap/HashMap.ts:91-99 | `from(pairs)` has one entry per pair exactly when no two input keys are equal (so three distinct pairs give size 3) |
| `HashMaps.HashMap.Reserve` | src/HashMap/HashMap.ts:204-211 | pairs, count and lookups unchanged; the table never shrinks, and it grows to the least power of two that holds `count + additional` within the threshold when that many pairs need at least the current bucket count; the buckets are the old iteration order rehashed into the new bucket count |
| `HashMaps.HashMap.Grow` | src/HashMap/HashMap.ts:208-210 | the conditional resize of `reserve`: with `n` at least the bucket count, the table is rehashed into `RoundUpPow2(n)` buckets, and otherwise it stays; either way the load stays within the threshold, lookups and pairs are unchanged, and the buckets are the old iteration order rehashed |
| `HashMaps.HashMap.ShrinkToFit` | src/HashMap/HashMap.ts:213-218 | pairs, count and lookups unchanged; afterwards the bucket count is `Fitted`, which `FittedIsLeast` shows is the fewest power-of-two buckets that hold the count; the buckets are the old iteration order rehashed into that count |
| `HashMaps.HashMap.ShrinkTo` | src/HashMap/HashMap.ts:220-232 | pairs, count and lookups unchanged; the table never grows, never goes below the count's need, and shrinks to room for `capacity` when that holds the count; the buckets are the old iteration order rehashed into the new bucket count |
| `HashMaps.HashMap.Clear` | src/HashMap/HashMap.ts:256-261 | the bucket count stays; the count is 0 and no key is found |
| `HashMaps.HashMap.Pairs` | src/HashMap/HashMap.ts:234-238 | iteration yields the pairs bucket by bucket, `count` of them, no key twice, each the stored pair of its key, and every stored pair |
| `HashMaps.HashMap.Keys` | src/HashMap/HashMap.ts:240-244 | the keys in iteration order, pairwise not equal, each finding its pair |
| `HashMaps.HashMap.Values` | src/HashMap/HashMap.ts:246-250 | the values in iteration order, each the value of its key's stored pair |
| `HashMaps.HashMap.Drain` | src/HashMap/HashMap.ts:269-277 | yields every old pair in iteration order, each the stored pair of its key; leaves the map empty with the same bucket count |
| `HashMaps.HashMap.Map` | src/HashMap/HashMap.ts:279-285 | every value `v` at key `k` becomes `fn(v, k)` in place: keys, layout, iteration order and count stay |
| `HashMaps.HashMap.MapAll` | src/HashMap/HashMap.ts:280-284 | the outer loop of `map` leaves every bucket mapped in place and the bucket count unchanged |
| `HashMaps.HashMap.MapBucket` | src/HashMap/HashMap.ts:281-283 | the inner loop of `map` keeps the bucket's length and every key, and gives position `j` the value `fn(v, k)` of the pair `(k, v)` at `j` |
| `HashMaps.HashMap.SpliceOut` | src/HashMap/HashMap.ts:289-294 | the backward loop over one bucket leaves exactly the pairs that satisfy the predicate and lowers the count by the number removed |
| `HashMaps.HashMap.Retain` | src/HashMap/HashMap.ts:287-296 | iteration afterwards yields exactly the satisfying pairs in order; the count is their number; each key keeps its pair exactly when the pair satisfies the predicate |
| `HashMaps.HashMap.SpliceAll` | src/HashMap/HashMap.ts:288-295 | the outer loop of `retain` applies the bucket filter to every bucket |
| `HashMaps.HashMap.RetainStep` | src/HashMap/HashMap.ts:289-294 | one round of `retain`'s outer loop filters exactly bucket `t`, and `count` stays the number of stored pairs |
| `HashMaps.ReservedFits` | src/HashMap/HashMap.ts:204-211 | `reserve`'s bucket count is a power of two, never smaller than before, holds the new total within the threshold, and is the least such when it grows |
| `HashMaps.FittedIsLeast` | src/HashMap/HashMap.ts:213-218 | `shrinkToFit`'s bucket count is a power of two, never larger than before, holds the count, and is the least power of two that does |
| `HashMaps.ShrunkToIsLeast` | src/HashMap/HashMap.ts:220-232 | `shrinkTo`'s bucket count is a power of two, never larger than before, holds the count, holds `capacity` whenever it shrank, and is the least that holds both |
| `HashMaps.RoomForIsLeast` | src/HashMap/HashMap.ts:101-110 | the intended sizing holds `capacity` pairs within the threshold with the fewest power-of-two buckets |
| `HashMaps.WithCapacityTooSmall` | src/HashMap/HashMap.ts:107 | as written, `withCapacity(2)` makes 2 buckets, and 2 pairs in 2 buckets are over the threshold |
| `HashMaps.LastValue` | src/HashMap/HashMap.ts:94-96 | the value `from` leaves at `k` is present exactly when some input pair has a key equal to `k` |
| `HashMaps.AssignedStep` | src/HashMap/HashMap.ts:94-96 | one more input pair changes the expected map as one `set` does |
| `HashMaps.AssignedIsFirstKeyLastValue` | src/HashMap/HashMap.ts:91-99 | after `from`, a key is present exactly when some input key equals it; it is stored under the first such input key, with the last such value |
| `Entries.Entry.constructor` | src/HashMap/HashMap.ts:162-164 | `map.entry(key)` makes a cursor on that map and key and looks nothing up |
| `Entries.Entry.Key` | src/HashMap/Entry.ts:32-34 | the key the cursor was made with, which no operation of the cursor changes (it is a constant field) |
| `Entries.Entry.Get` | src/HashMap/Entry.ts:54-56 | the value `map.get(key)` returns, present exactly when iteration yields an equal key |
| `Entries.Entry.IsOccupied` | src/HashMap/Entry.ts:17-19 | true exactly when `get()` finds a value at the time of the call |
| `Entries.Entry.Assign` | src/HashMap/Entry.ts:13-15 | afterwards `get()` is the value; the key stored first is kept; every other key is unchanged |
| `Entries.Entry.Insert` | src/HashMap/Entry.ts:58-64 | returns the previous value; afterwards `get()` is the new value and every other key is unchanged |
| `Entries.Entry.InsertEntry` | src/HashMap/Entry.ts:27-30 | the same change to the map as `insert` |
| `Entries.Entry.OrInsert` | src/HashMap/Entry.ts:36-43 | stores the value only when the key is vacant; an occupied key leaves the whole map unchanged |
| `Entries.Entry.OrInsertWith` | src/HashMap/Entry.ts:45-52 | stores `fn(key)` only when the key is vacant; an occupied key leaves the whole map unchanged |
| `Entries.Entry.AndModify` | src/HashMap/Entry.ts:21-25 | an occupied key's value `v` becomes `fn(v)`; a vacant key leaves the whole map unchanged; the count never changes |
| `Entries.Entry.Remove` | src/HashMap/Entry.ts:66-68 | returns the previous value; afterwards the key is absent and every other key is unchanged |
| `Entries.Entry.RemoveEntry` | src/HashMap/Entry.ts:70-75 | returns the cursor's key paired with the previous value, or nothing; afterwards the key is absent and every other key is unchanged |
| `Entries.EntriesOf` | src/HashMap/HashMap.ts:252-254 | one cursor per stored pair in iteration order, on that pair's key; each is occupied with that pair's value when made; no two name equal keys |

## Left out

- The default hasher (`HashMap.ts:18-27`) is not part of this model. It converts a key to a string with `${typeof key}: ${key}` and compares with `Object.is`. Every map is built with an explicit `hash`/`equals` pair that obeys the two hasher laws.
- Hashing.IdentityHasher: the weak retention of `WeakMap` keys is left out, because garbage collection is outside the model. Only the numbering of objects is modelled.
- HashMaps.HashMap: keys range over types without heap references (`K(!new)`), so the identity hasher's object keys are modelled separately from the map. Hashes are integers; a hash function that returns a non-integer number is not modelled.
- HashMaps.OverThreshold, HashMaps.BucketsFor, HashMaps.CeilThreeQuarters and HashMaps.CapacityOf: the load threshold is fixed at its initial value 0.75. `HashMap.loadThreshold` is a public static (`HashMap.ts:56`) that callers may reassign, and every use reads it again (`HashMap.ts:107, 132, 201, 206, 214, 221-222`). Reassigning it is not modelled, so `HashMaps.HashMap.Valid` and `HashMaps.Doubling` hold only for 0.75. With a threshold of 0.1, say, one doubling after a `set` need not bring the load back within it.
- HashMaps.HashMap.Set: requires that a new key keeps the load within 2^30 buckets. Bucket counts of 2^31 and more overflow `1 <<` in the source. `Resize`, `Reserve`, `WithCapacity`, `WithRoomFor` and `From` carry the same bound in place of that overflow.
- Entries.Entry.Assign, Entries.Entry.Insert, Entries.Entry.InsertEntry, Entries.Entry.OrInsert and Entries.Entry.OrInsertWith: they carry the same bound as `Set` when the key is vacant.
- HashMaps.HashMap.Drain: the source is a generator, so `clear()` runs on the first pull rather than at the call. The model returns every pair at once and empties the map at the call.
- HashMaps.HashMap.Pairs, HashMaps.HashMap.Keys and HashMaps.HashMap.Values are sequences, not lazy generators. Mutation during iteration is not modelled.
- Entries.EntriesOf: `entries()` is a lazy view over the live map. The model makes all cursors at the call, from the pairs stored then.
- HashMaps.HashMap.GetKeyValue: the source returns the stored pair array itself, so a caller can mutate the map through it. The model returns the pair as a value.
- HashMaps.HashMap.Map, HashMaps.HashMap.Retain, Entries.Entry.OrInsertWith and Entries.Entry.AndModify: callbacks are pure functions. Side effects of a callback, including mutation of the map, are not modelled. That `orInsertWith` calls `fn` at most once shows only in `fn(key)` being used only when the key is vacant.
- OptionResult.Option.Inspect, OptionResult.Result.Inspect and OptionResult.Result.InspectErr: the callback's side effect is not modelled. Only the returned value is.
- Methods that return `this` for chaining (`clear`, and `andModify`, `insertEntry`, `orInsert`, `orInsertWith` on `Entry`) return nothing in the model.
- `toString` of every container, the default messages of `Ok`/`Err` unwrapping (they format the value), and `HashMap.info()` and `HashMap.inspect()` are left out. They are string formatting or debugging access only.
- `src/Some.ts` and `src/Option.ts` are an older, unused copy of the Option type. `src/Option/Some.ts` has the same behaviour.
- `src/LazyAsyncIterator` (asynchronous streaming) and `src/ParseJson` (a wrapper over the runtime's JSON parser) are not part of this model.
- HashMaps.HashMap.WithCapacity, HashMaps.HashMap.Reserve and HashMaps.HashMap.ShrinkTo take an integer capacity. JavaScript also accepts fractional and non-finite numbers there; those are not modelled.
- Hashing.HashString: a string is its sequence of UTF-16 code units, the values `charCodeAt` returns.

## Findings

| source | as written | input that shows it | evidently intended | confidence | as-written member | corrected member |
|---|---|---|---|---|---|---|
| src/HashMap/HashMap.ts:107 | `withCapacity(capacity)` resizes to `Math.ceil(capacity * 0.75)` buckets, so the table holds fewer pairs than asked | `withCapacity(2)`: `ceil(1.5) = 2` buckets, and the second `set` takes the load to 2/2 > 0.75, so the table doubles | size by `Math.ceil(capacity / 0.75)`, as `reserve` does, so `capacity` pairs fit without growing | high; not executed | `HashMaps.WithCapacityTooSmall` | `HashMaps.HashMap.WithRoomFor` |
| src/Option/None.ts:25-27 | `None.unwrap` throws `new Error(message)`, while `Ok` and `Err` throw `UnwrapError` | `none().unwrap()` throws a plain `Error`, where `tests/option_none_test.ts:28` expects `UnwrapError` | `None.unwrap` throws an `UnwrapError` with the message, as the other unwraps do | medium; not executed | `OptionResult.NoneUnwrapThrowsPlainError` | `OptionResult.Option.UnwrapIntended` |
| src/Option/None.ts:57-59 | `None` defines `iter()` but no `[Symbol.iterator]`, while `Some` defines only `[Symbol.iterator]` | `[...none()]` throws `TypeError`, where `tests/option_none_test.ts:77-81` expects `[]` | iterating `None` yields nothing, as iterating `Some` yields its value | high; not executed | `OptionResult.NoneSpreadThrows` | `OptionResult.Option.Values` |

`HashMaps.HashMap.WithCapacity` models the written sizing, and `HashMaps.HashMap.From` builds its map with it, as `from` does. What `From` promises about the stored pairs holds under either sizing, because a `set` that takes the load over the threshold doubles the table. `HashMaps.HashMap.WithRoomFor` is the corrected `withCapacity`. `OptionResult.Option.Spread` and `OptionResult.Option.Iter` model the written iterator protocol. `Values` is the protocol that both variants are meant to share. `OptionResult.Option.Unwrap` models the written `None.unwrap`; `UnwrapIntended` is the corrected one.
