/** Bucket selection of the chained hash table: the bit mixing of a key's
    hash code, the mask that selects a bucket, the power-of-two capacities
    and the resize threshold. */
module Hashing {
  import opened Outcomes

  /** 1 << 30, the largest table length. */
  const MAXIMUM_CAPACITY: int := 0x4000_0000
  const DEFAULT_INITIAL_CAPACITY: int := 16
  const DEFAULT_LOAD_FACTOR: real := 0.75
  /** Integer.MAX_VALUE, the threshold of a table that can no longer grow. */
  const INTEGER_MAX_VALUE: int := 0x7fff_ffff

  ghost predicate IsPowerOfTwo(n: int)
    decreases n
  {
    n == 1 || (n > 1 && n % 2 == 0 && IsPowerOfTwo(n / 2))
  }

  /** A table length the map can have: a power of two no larger than 2^30. */
  ghost predicate ValidCapacity(n: int)
  {
    IsPowerOfTwo(n) && n <= MAXIMUM_CAPACITY
  }

  /** The bit mixing of `hash(Object)`: XOR-folds high bits into low ones.
      A zero hash code stays zero, so such a key shares hash 0, and with it
      bucket 0, with the null key. */
  function Spread(code: bv32): (r: bv32)
    ensures code == 0 ==> r == 0
  {
    var h := code ^ (code >> 20) ^ (code >> 12);
    h ^ (h >> 7) ^ (h >> 4)
  }

  /** `indexFor(h, length) = h & (length - 1)` for a power-of-two length,
      read as an unsigned number: the low bit of `h`, then the index of the
      remaining bits in a table half as long. `IndexForIsMask` shows it is
      the masked hash. */
  function IndexFor(h: bv32, length: int): (i: int)
    requires length >= 1
    ensures 0 <= i < length
    decreases length, 1
  {
    if length == 1 then 0 else IndexStep(h, length)
  }

  /** The low bit of `h`, then the index of the remaining bits in a table
      half as long. */
  function IndexStep(h: bv32, length: int): (i: int)
    requires length >= 2
    ensures 0 <= i < length
    decreases length, 0
  {
    Low(h) + 2 * IndexFor(h >> 1, length / 2)
  }

  function Low(x: bv32): int
  {
    if x & 1 == 1 then 1 else 0
  }

  /** The number the low `bits` bits of `x` stand for, read as unsigned. */
  function Unsigned(x: bv32, bits: nat): nat
    decreases bits
  {
    if bits == 0 then 0 else Low(x) + 2 * Unsigned(x >> 1, bits - 1)
  }

  /** `m` is `length - 1` as a bit pattern, for a power-of-two `length`: its
      low log2(length) bits are set and no other (`MaskValue`). */
  ghost predicate MaskOf(m: bv32, length: int)
    decreases length
  {
    if length <= 1 then m == 0 else m & 1 == 1 && MaskOf(m >> 1, length / 2)
  }

  /** The mask of a power-of-two length stands for the number `length - 1`. */
  lemma {:induction false} MaskValue(m: bv32, length: int)
    requires ValidCapacity(length) && MaskOf(m, length)
    ensures Unsigned(m, 32) == length - 1
  {
    PowerOfTwoMaximum();
    assert Power(31) == 2 * Power(30);
    assert Power(32) == 2 * Power(31);
    MaskValueBits(m, length, 32);
  }

  lemma {:induction false} MaskValueBits(m: bv32, length: int, bits: nat)
    requires IsPowerOfTwo(length) && length <= Power(bits) && MaskOf(m, length)
    ensures Unsigned(m, bits) == length - 1
    decreases length
  {
    if length == 1 {
      UnsignedZero(bits);
    } else {
      PowerBound(length, bits);
      MaskValueBits(m >> 1, length / 2, bits - 1);
    }
  }

  /** The bucket index is the hash masked with `length - 1`, as the source
      computes it. */
  lemma IndexForIsMask(h: bv32, m: bv32, length: int)
    requires ValidCapacity(length) && MaskOf(m, length)
    ensures IndexFor(h, length) == Unsigned(h & m, 32)
  {
    PowerOfTwoMaximum();
    assert Power(31) == 2 * Power(30);
    assert Power(32) == 2 * Power(31);
    IndexForMasks(h, m, length, 32);
  }

  lemma {:induction false} IndexForMasks(h: bv32, m: bv32, length: int, bits: nat)
    requires IsPowerOfTwo(length) && length <= Power(bits) && MaskOf(m, length)
    ensures IndexFor(h, length) == Unsigned(h & m, bits)
    decreases length
  {
    if length == 1 {
      UnsignedZero(bits);
    } else {
      PowerBound(length, bits);
      IndexForMasks(h >> 1, m >> 1, length / 2, bits - 1);
      MaskStep(h, m);
    }
  }

  lemma PowerBound(length: int, bits: nat)
    requires IsPowerOfTwo(length) && length > 1 && length <= Power(bits)
    ensures bits > 0 && IsPowerOfTwo(length / 2) && length / 2 <= Power(bits - 1)
  {
  }

  /** Masking with a mask whose low bit is set keeps the low bit and masks
      the rest with the rest of the mask. */
  lemma MaskStep(h: bv32, m: bv32)
    requires m & 1 == 1
    ensures (h & m) >> 1 == (h >> 1) & (m >> 1)
    ensures Low(h & m) == Low(h)
  {
  }

  /** Hash 0 selects bucket 0 whatever the length. */
  lemma {:induction false} IndexOfZero(length: int)
    requires IsPowerOfTwo(length)
    ensures IndexFor(0, length) == 0
    decreases length
  {
    if length > 1 {
      assert (0 as bv32) >> 1 == 0;
      IndexOfZero(length / 2);
    }
  }

  /** The hash a key is stored under: 0 for the null key, the mixed hash code
      otherwise. */
  function HashOf<K>(hashCode: K -> bv32, key: Option<K>): (h: bv32)
    ensures key.None? ==> h == 0
  {
    match key
    case None => 0
    case Some(k) => Spread(hashCode(k))
  }

  /** The bucket a key lives in, in a table of the given length. */
  function BucketOf<K>(hashCode: K -> bv32, key: Option<K>, length: int): (i: int)
    requires ValidCapacity(length)
    ensures 0 <= i < length
  {
    IndexFor(HashOf(hashCode, key), length)
  }

  /** The null key hashes to 0 and always lives in bucket 0, whatever the
      table length. */
  lemma NullKeyInBucketZero<K>(hashCode: K -> bv32, length: int)
    requires ValidCapacity(length)
    ensures HashOf(hashCode, None) == 0
    ensures BucketOf(hashCode, None, length) == 0
  {
    IndexOfZero(length);
  }

  /** A key whose hash code is 0 lives in bucket 0 beside the null key,
      which is why the null key's lookups compare keys and do not just take
      bucket 0. */
  lemma ZeroCodeInBucketZero<K>(hashCode: K -> bv32, k: K, length: int)
    requires ValidCapacity(length) && hashCode(k) == 0
    ensures HashOf(hashCode, Some(k)) == HashOf(hashCode, None)
    ensures BucketOf(hashCode, Some(k), length) == 0
  {
    NullKeyInBucketZero(hashCode, length);
  }

  /** The `float` nearest to an `int` in `[2^30, 2^31)`: a float has 24
      significant bits, so the floats there lie 128 apart, and a tie goes to
      the even multiple of 128. */
  function FloatNear(n: int): (f: int)
    requires MAXIMUM_CAPACITY <= n < 2 * MAXIMUM_CAPACITY
    ensures f % 128 == 0 && -64 <= f - n <= 64
    ensures (n - f == 64 || f - n == 64) ==> (f / 128) % 2 == 0
  {
    var q, r := n / 128, n % 128;
    if r < 64 || (r == 64 && q % 2 == 0) then q * 128 else (q + 1) * 128
  }

  /** `(int) Math.min(capacity * loadFactor, MAXIMUM_CAPACITY + 1)`, with the
      load factor an exact positive number. `Math.min` is the `float`
      overload, so its second argument is `MAXIMUM_CAPACITY + 1` rounded to a
      float, which is 2^30 itself: the threshold never exceeds 2^30. */
  function ThresholdFor(capacity: int, loadFactor: real): (t: int)
    requires capacity >= 1 && loadFactor > 0.0
    ensures 0 <= t <= MAXIMUM_CAPACITY
    ensures t == MAXIMUM_CAPACITY || (t as real <= capacity as real * loadFactor < (t + 1) as real)
    ensures t == MAXIMUM_CAPACITY <==> capacity as real * loadFactor >= MAXIMUM_CAPACITY as real
  {
    var product := capacity as real * loadFactor;
    var cap := FloatNear(MAXIMUM_CAPACITY + 1);
    if product >= cap as real then cap else product.Floor
  }

  /** `capacity` is the least power of two no smaller than the requested
      capacity, once that is cut down to 2^30. */
  ghost predicate IsLeastCapacity(capacity: int, requested: int)
  {
    var wanted := if requested > MAXIMUM_CAPACITY then MAXIMUM_CAPACITY else requested;
    ValidCapacity(capacity) && capacity >= wanted && (capacity == 1 || capacity / 2 < wanted)
  }

  /** The capacity loop of the constructor: the least power of two that is at
      least the requested capacity. */
  method TableCapacity(initialCapacity: int) returns (capacity: int)
    requires 0 <= initialCapacity <= MAXIMUM_CAPACITY
    ensures ValidCapacity(capacity)
    ensures capacity >= initialCapacity
    ensures capacity == 1 || capacity / 2 < initialCapacity
  {
    capacity := 1;
    while capacity < initialCapacity
      invariant IsPowerOfTwo(capacity) && capacity <= MAXIMUM_CAPACITY
      invariant capacity == 1 || capacity / 2 < initialCapacity
      decreases initialCapacity - capacity
    {
      DoubleBelowMaximum(capacity);
      capacity := capacity * 2;
    }
  }

  /** A power of two below 2^30 doubles to a power of two no larger than 2^30. */
  lemma DoubleBelowMaximum(n: int)
    requires IsPowerOfTwo(n) && n < MAXIMUM_CAPACITY
    ensures IsPowerOfTwo(2 * n) && 2 * n <= MAXIMUM_CAPACITY
  {
    assert (2 * n) / 2 == n;
    assert IsPowerOfTwo(MAXIMUM_CAPACITY) by { PowerOfTwoMaximum(); }
    PowersApart(n, MAXIMUM_CAPACITY);
  }

  /** Of two different powers of two, the larger is at least twice the smaller. */
  lemma {:induction false} PowersApart(a: int, b: int)
    requires IsPowerOfTwo(a) && IsPowerOfTwo(b) && a < b
    ensures 2 * a <= b
    decreases b
  {
    if a > 1 {
      PowersApart(a / 2, b / 2);
    }
  }

  lemma PowerOfTwoMaximum()
    ensures IsPowerOfTwo(MAXIMUM_CAPACITY)
    ensures Power(30) == MAXIMUM_CAPACITY
  {
    PowerIsPowerOfTwo(30);
    assert Power(2) == 4;
    assert Power(4) == 16;
    assert Power(6) == 64;
    assert Power(8) == 256;
    assert Power(10) == 1024;
    assert Power(12) == 4096;
    assert Power(14) == 16384;
    assert Power(16) == 65536;
    assert Power(18) == 262144;
    assert Power(20) == 1048576;
    assert Power(22) == 4194304;
    assert Power(24) == 16777216;
    assert Power(26) == 67108864;
    assert Power(28) == 268435456;
  }

  function Power(k: nat): int
  {
    if k == 0 then 1 else 2 * Power(k - 1)
  }

  lemma {:induction false} PowerIsPowerOfTwo(k: nat)
    ensures IsPowerOfTwo(Power(k))
  {
    if k > 0 {
      PowerIsPowerOfTwo(k - 1);
      assert Power(k) / 2 == Power(k - 1);
    }
  }

  /** Doubling a table: the new length is again a valid capacity. */
  lemma DoubledCapacity(length: int)
    requires ValidCapacity(length) && length < MAXIMUM_CAPACITY
    ensures ValidCapacity(2 * length)
  {
    DoubleBelowMaximum(length);
  }

  lemma {:induction false} UnsignedZero(bits: nat)
    ensures Unsigned(0, bits) == 0
    decreases bits
  {
    if bits > 0 {
      assert (0 as bv32) >> 1 == 0;
      UnsignedZero(bits - 1);
    }
  }
}
