/**
  The integer arithmetic under the hash map: the string hash with its 32-bit
  wrap-around, the bit mask that picks a bucket, the rounding of a bucket
  count up to a power of two, and the identity hasher that numbers objects.

  JavaScript numbers are modelled as unbounded integers; every place where the
  source goes through a 32-bit conversion (`| 0`, `<<`, `&`, `Math.clz32`)
  writes that conversion out.
*/
module Hashing {

  const Two31: int := 0x8000_0000
  const Two32: int := 0x1_0000_0000

  /** The largest bucket count the model allows: beyond 2^30 the shift in
      the rounding would reach the sign bit. */
  const MaxBuckets: int := 0x4000_0000

  function Abs(x: int): (r: nat)
    ensures r == x || r == -x
  {
    if x < 0 then -x else x
  }

  function Max(a: int, b: int): (r: int)
    ensures r >= a && r >= b && (r == a || r == b)
  {
    if a < b then b else a
  }

  predicate IsInt32(x: int) {
    -Two31 <= x < Two31
  }

  /** The ToInt32 conversion: the integer congruent to `x` modulo 2^32 that
      lies in the signed 32-bit range. */
  function ToInt32(x: int): (r: int)
    ensures IsInt32(r)
    ensures (r - x) % Two32 == 0
  {
    var m := x % Two32;
    if m >= Two31 then m - Two32 else m
  }

  /** Integers congruent modulo 2^32 convert to the same 32-bit value. */
  lemma ToInt32Congruent(x: int, y: int)
    requires (x - y) % Two32 == 0
    ensures ToInt32(x) == ToInt32(y)
  {
    var q := (x - y) / Two32;
    assert x == y + Two32 * q;
    ModShift(y, q);
  }

  lemma ModShift(y: int, q: int)
    ensures (y + Two32 * q) % Two32 == y % Two32
  {
  }

  // ---------------------------------------------------------------------
  // hashString
  // ---------------------------------------------------------------------

  /** A UTF-16 code unit, as `charCodeAt` returns it. */
  type CodeUnit = c: int | 0 <= c < 0x1_0000

  /** The string hash as a fold over the code units: start at 0 and step
      `h := ToInt32(31 * h + c)`. */
  function StringHash(s: seq<CodeUnit>): (h: int)
    ensures IsInt32(h)
    ensures s == [] ==> h == 0
  {
    if |s| == 0 then 0 else ToInt32(31 * StringHash(s[..|s| - 1]) + s[|s| - 1])
  }

  /** `hashString`: the loop `hash = ((hash << 5) - hash + code) | 0`. The
      shift wraps to 32 bits before the subtraction; the result is still the
      fold `StringHash`. */
  method HashString(input: seq<CodeUnit>) returns (hash: int)
    ensures hash == StringHash(input)
    ensures IsInt32(hash)
  {
    hash := 0;
    for i := 0 to |input|
      invariant hash == StringHash(input[..i])
    {
      var shifted := ToInt32(hash * 32);
      ToInt32Congruent(shifted - hash + input[i], 31 * hash + input[i]);
      hash := ToInt32(shifted - hash + input[i]);
      assert input[..i + 1][..i] == input[..i];
    }
    assert input[..|input|] == input;
  }

  // ---------------------------------------------------------------------
  // Bucket index: Math.abs(hash) & (length - 1)
  // ---------------------------------------------------------------------

  function Pow2(e: nat): (r: nat)
    ensures r >= 1
  {
    if e == 0 then 1 else 2 * Pow2(e - 1)
  }

  /** A power of two, by repeated halving. */
  predicate IsPow2(n: int)
    decreases if n < 0 then 0 else n
  {
    n == 1 || (n > 1 && n % 2 == 0 && IsPow2(n / 2))
  }

  lemma {:induction false} Pow2IsPow2(e: nat)
    ensures IsPow2(Pow2(e))
  {
    if e > 0 {
      Pow2IsPow2(e - 1);
      assert Pow2(e) / 2 == Pow2(e - 1);
    }
  }

  lemma {:induction false} Pow2Monotone(a: nat, b: nat)
    requires a <= b
    ensures Pow2(a) <= Pow2(b)
    ensures a < b ==> 2 * Pow2(a) <= Pow2(b)
  {
    if a < b {
      Pow2Monotone(a, b - 1);
    }
  }

  lemma {:induction false} Pow2Split(a: nat, b: nat)
    ensures Pow2(a + b) == Pow2(a) * Pow2(b)
  {
    if b > 0 {
      Pow2Split(a, b - 1);
      var x, y := Pow2(a), Pow2(b - 1);
      assert Pow2(a + b) == 2 * (x * y);
      assert Pow2(b) == 2 * y;
      assert x * (2 * y) == 2 * (x * y);
    }
  }

  /** Bitwise and of two non-negative integers, bit by bit from the
      lowest. */
  function BitAnd(a: nat, b: nat): (r: nat)
    ensures r <= a && r <= b
    decreases a
  {
    if a == 0 || b == 0 then 0
    else 2 * BitAnd(a / 2, b / 2) + (if a % 2 == 1 && b % 2 == 1 then 1 else 0)
  }

  /** Masking with `2^k - 1` keeps the remainder modulo `2^k`. */
  lemma {:induction false} MaskIsMod(x: nat, k: nat)
    ensures BitAnd(x, Pow2(k) - 1) == x % Pow2(k)
  {
    if k == 0 {
    } else if x == 0 {
    } else {
      var q := Pow2(k - 1);
      assert Pow2(k) - 1 == 2 * (q - 1) + 1;
      assert (Pow2(k) - 1) / 2 == q - 1;
      assert (Pow2(k) - 1) % 2 == 1;
      MaskIsMod(x / 2, k - 1);
      assert BitAnd(x, Pow2(k) - 1) == 2 * ((x / 2) % q) + x % 2;
      HalfMod(x, q);
    }
  }

  lemma HalfMod(x: nat, q: nat)
    requires q >= 1
    ensures 2 * ((x / 2) % q) + x % 2 == x % (2 * q)
  {
    var h := x / 2;
    var a := h / q;
    var r := h % q;
    assert h == q * a + r;
    assert x == (2 * q) * a + (2 * r + x % 2);
    assert 0 <= 2 * r + x % 2 < 2 * q;
    ModUnique(x, 2 * q, a, 2 * r + x % 2);
  }

  lemma ModUnique(x: int, n: int, a: int, r: int)
    requires n > 0 && 0 <= r < n && x == n * a + r
    ensures x % n == r && x / n == a
  {
    var q, m := x / n, x % n;
    assert x == n * q + m;
    var d := a - q;
    assert n * d == m - r;
    if d > 0 {
      MulAtLeast(n, d);
    } else if d < 0 {
      MulAtLeast(n, -d);
    }
  }

  lemma MulAtLeast(n: int, d: int)
    requires n > 0 && d >= 1
    ensures n * d >= n
  {
    assert n * d == n * (d - 1) + n;
  }

  lemma ModOfMod(x: nat, a: nat, b: nat)
    requires a >= 1 && b >= 1
    ensures (x % (a * b)) % a == x % a
  {
    var q := x / (a * b);
    var r := x % (a * b);
    assert x == (a * b) * q + r;
    assert x == a * (b * q) + r;
    var s := r / a;
    var t := r % a;
    assert r == a * s + t;
    assert x == a * (b * q + s) + t;
    ModUnique(x, a, b * q + s, t);
  }

  /** The bucket index of a hash in a table of `2^k` buckets, as computed:
      `Math.abs(hash) & (2^k - 1)`, where `&` sees the low 32 bits of
      `Math.abs(hash)`. */
  function MaskedIndex(h: int, k: nat): (r: nat)
    requires k <= 30
    ensures r < Pow2(k) && r <= Abs(h)
  {
    BitAnd(Abs(h) % Two32, Pow2(k) - 1)
  }

  /** The masked index is `|hash| mod 2^k`, which is what the model of the
      map uses as the bucket index. */
  lemma MaskedIndexIsMod(h: int, k: nat)
    requires k <= 30
    ensures MaskedIndex(h, k) == Abs(h) % Pow2(k)
    ensures MaskedIndex(h, k) < Pow2(k)
  {
    var x := Abs(h) % Two32;
    MaskIsMod(x, k);
    Pow2Split(k, 32 - k);
    Pow2Is32();
    var p, q := Pow2(k), Pow2(32 - k);
    assert p * q == Two32;
    ModOfMod(Abs(h), p, q);
    assert x % p == Abs(h) % p;
    assert MaskedIndex(h, k) == BitAnd(x, p - 1) == x % p;
  }

  /** The exponent of a power of two. */
  function Log2(n: int): (k: nat)
    requires IsPow2(n)
    ensures Pow2(k) == n
    decreases if n < 0 then 0 else n
  {
    if n == 1 then 0 else 1 + Log2(n / 2)
  }

  /** `getBucket`'s index into a table of `n` buckets, `n` a power of two no
      larger than `2^30`: `Math.abs(hash) & (n - 1)`, which is `|hash| mod n`. */
  function BucketIndex(h: int, n: int): (r: nat)
    requires IsPow2(n) && n <= MaxBuckets
    ensures r == Abs(h) % n && r < n
  {
    var k := Log2(n);
    assert k <= 30 by {
      Pow2Is32();
      if k > 30 {
        Pow2Monotone(30, k);
      }
    }
    MaskedIndexIsMod(h, k);
    BitAnd(Abs(h) % Two32, n - 1)
  }

  lemma Pow2Is32()
    ensures Pow2(32) == Two32 && Pow2(31) == Two31 && Pow2(30) == MaxBuckets
  {
    assert Pow2(8) == 256;
    assert Pow2(16) == 65536 by { Pow2Split(8, 8); }
    assert Pow2(30) == MaxBuckets by { Pow2Split(16, 14); assert Pow2(14) == 16384 by { Pow2Split(8, 6); } }
  }

  // ---------------------------------------------------------------------
  // resize: 1 << (32 - Math.clz32(Math.max(n, 1) - 1))
  // ---------------------------------------------------------------------

  /** The number of significant bits of `m`. */
  function BitLength(m: nat): (r: nat)
  {
    if m == 0 then 0 else 1 + BitLength(m / 2)
  }

  lemma {:induction false} BitLengthBounds(m: nat)
    ensures m < Pow2(BitLength(m))
    ensures m > 0 ==> Pow2(BitLength(m) - 1) <= m
  {
    if m > 0 {
      BitLengthBounds(m / 2);
    }
  }

  lemma {:induction false} BitLengthAtMost(m: nat, e: nat)
    requires m < Pow2(e)
    ensures BitLength(m) <= e
  {
    if m > 0 {
      assert e > 0;
      BitLengthAtMost(m / 2, e - 1);
    }
  }

  /** `Math.clz32` of a 32-bit unsigned value: the number of leading zero
      bits, so that the highest set bit of `m` is bit `31 - r`. */
  function Clz32(m: nat): (r: nat)
    requires m < Two32
    ensures r <= 32
    ensures m == 0 <==> r == 32
  {
    Pow2Is32();
    BitLengthAtMost(m, 32);
    BitLengthBounds(m);
    32 - BitLength(m)
  }

  /** The highest set bit of a non-zero `m` is bit `31 - clz32(m)`. */
  lemma Clz32HighestBit(m: nat)
    requires 0 < m < Two32
    ensures Pow2(31 - Clz32(m)) <= m < Pow2(32 - Clz32(m))
  {
    var b := BitLength(m);
    Pow2Is32();
    BitLengthAtMost(m, 32);
    BitLengthBounds(m);
    assert Clz32(m) == 32 - b;
    assert 31 - Clz32(m) == b - 1;
  }

  /** `1 << s` in 32-bit arithmetic: the shift count is taken modulo 32 and
      the result is a signed 32-bit integer. */
  function ShiftOne(s: nat): (r: int)
    ensures s < 31 ==> r == Pow2(s)
  {
    assert s < 31 ==> s % 32 == s;
    if s % 32 < 31 then
      Pow2Monotone(s % 32, 30);
      Pow2Is32();
      Pow2(s % 32)
    else
      ToInt32(Pow2(s % 32))
  }

  /** The bucket count `resize` allocates for a requested count `n`: the
      least power of two that is at least `n` and at least 1. */
  function RoundUpPow2(n: int): (r: nat)
    requires n <= MaxBuckets
    ensures IsPow2(r)
    ensures 1 <= r <= MaxBuckets && n <= r
    ensures r == 1 || r / 2 < n
  {
    var m := Max(n, 1) - 1;
    Pow2Is32();
    RoundUpBits(m);
    ShiftOne(32 - Clz32(m))
  }

  /** The power of two just above `m`, for `m` below 2^30. */
  lemma RoundUpBits(m: nat)
    requires m < MaxBuckets
    ensures BitLength(m) <= 30
    ensures m < Pow2(BitLength(m)) <= MaxBuckets && IsPow2(Pow2(BitLength(m)))
    ensures m == 0 || Pow2(BitLength(m)) / 2 <= m
  {
    Pow2Is32();
    BitLengthAtMost(m, 30);
    BitLengthBounds(m);
    Pow2IsPow2(BitLength(m));
    Pow2Monotone(BitLength(m), 30);
  }

  /** Of two powers of two, the smaller is at most half the larger. */
  lemma {:induction false} Pow2Gap(a: int, b: int)
    requires IsPow2(a) && IsPow2(b) && a < b
    ensures 2 * a <= b
    decreases b
  {
    if a > 1 {
      Pow2Gap(a / 2, b / 2);
    }
  }

  /** `RoundUpPow2(n)` is below every power of two that is at least `n`. */
  lemma RoundUpPow2Least(n: int, p: int)
    requires n <= MaxBuckets && IsPow2(p) && n <= p
    ensures RoundUpPow2(n) <= p
  {
    var r := RoundUpPow2(n);
    if r > p {
      Pow2Gap(p, r);
    }
  }

  /** A power of two is its own rounding. */
  lemma RoundUpPow2Fixed(p: int)
    requires IsPow2(p) && p <= MaxBuckets
    ensures RoundUpPow2(p) == p
  {
    RoundUpPow2Least(p, p);
  }

  // ---------------------------------------------------------------------
  // getWeakMapHasher
  // ---------------------------------------------------------------------

  /** The identity hasher: objects are numbered 0, 1, 2, ... in the order in
      which they are first hashed, and two keys are equal when the first has
      a number and the second has the same one. */
  class IdentityHasher {
    var ids: map<object, int>
    var counter: int

    ghost predicate Valid()
      reads this
    {
      && 0 <= counter
      && (forall o :: o in ids ==> 0 <= ids[o] < counter)
      && (forall o1, o2 :: o1 in ids && o2 in ids && o1 != o2 ==> ids[o1] != ids[o2])
    }

    constructor ()
      ensures Valid() && ids == map[] && counter == 0
    {
      ids := map[];
      counter := 0;
    }

    /** `hash(key)`: the key's number, allocating the next one on first use.
        Numbers already given out never change, and a new key gets the
        counter's value, which is larger than every earlier number. */
    method Hash(key: object) returns (h: int)
      requires Valid()
      modifies this
      ensures Valid()
      ensures key in ids && ids[key] == h
      ensures key in old(ids) ==> h == old(ids[key]) && ids == old(ids) && counter == old(counter)
      ensures key !in old(ids) ==> ids == old(ids)[key := h] && counter == old(counter) + 1
      ensures key !in old(ids) ==> h == old(counter)
      ensures key !in old(ids) ==> forall o :: o in old(ids) ==> old(ids[o]) < h
    {
      if key in ids {
        h := ids[key];
      } else {
        h := counter;
        counter := counter + 1;
        ids := ids[key := h];
      }
    }

    /** `equals(key1, key2)`: false when the first key was never hashed;
        otherwise whether both have the same number, which for numbered keys
        is object identity. */
    method Equals(key1: object, key2: object) returns (b: bool)
      requires Valid()
      ensures b <==> key1 in ids && key2 in ids && key1 == key2
      ensures key1 !in ids ==> !b
    {
      if key1 !in ids {
        return false;
      }
      b := key2 in ids && ids[key1] == ids[key2];
    }
  }
}
