/**
 The bucket index of a key, computed as the map computes it: Java's
 `Long.hashCode` fold, the `31 * 17 + h` mix in 32-bit wrapping `int`
 arithmetic, and Java's truncating remainder by the table length.
 */
module Hashing {

  const TwoTo32: int := 0x1_0000_0000
  const TwoTo64: int := 0x1_0000_0000_0000_0000

  /** Largest key whose hash code `527 + key` still fits in a Java `int`. */
  const MaxSafeKey: int := 0x7FFF_FFFF - 527

  /** The values of a Java `long`. */
  predicate InLong(x: int) {
    -0x8000_0000_0000_0000 <= x < 0x8000_0000_0000_0000
  }

  /** Keys for which the hash arithmetic never wraps and the index is never negative. */
  predicate SafeKey(key: int) {
    0 <= key <= MaxSafeKey
  }

  /** A Java `int` result: the low 32 bits of `x`, read as two's complement. */
  function WrapInt(x: int): (r: int)
    ensures -0x8000_0000 <= r < 0x8000_0000
    ensures (x - r) % TwoTo32 == 0
  {
    var low := x % TwoTo32;
    if low >= 0x8000_0000 then low - TwoTo32 else low
  }

  /** Bitwise exclusive or of two non-negative numbers, one binary digit at a time. */
  function BitXor(a: nat, b: nat): nat
    decreases a + b
  {
    if a == 0 && b == 0 then 0
    else (if a % 2 == b % 2 then 0 else 1) + 2 * BitXor(a / 2, b / 2)
  }

  /** `Long.hashCode(key)`, that is `(int)(key ^ (key >>> 32))`. */
  function LongHashCode(key: int): (h: int)
    requires InLong(key)
  {
    var bits := key % TwoTo64;
    WrapInt(BitXor(bits % TwoTo32, bits / TwoTo32))
  }

  /** `Node.hashCode()` and the private `hash(Long)` before the remainder: `31 * 17 + Long.hashCode(key)` in `int`. */
  function HashCode(key: int): (h: int)
    requires InLong(key)
    ensures -0x8000_0000 <= h < 0x8000_0000
  {
    WrapInt(31 * 17 + LongHashCode(key))
  }

  /** Java's `a % n` for `n > 0`: truncates toward zero, so the sign follows `a`. */
  function JavaRem(a: int, n: int): (r: int)
    requires n > 0
    ensures -n < r < n
    ensures a >= 0 ==> r >= 0
    ensures a <= 0 ==> r <= 0
    ensures 0 <= a < n ==> r == a
  {
    if a >= 0 then a % n else -((-a) % n)
  }

  /**
   The slot a key goes to in a table of `capacity` slots (`Node.hash()` and
   `hash(Long)`). For a safe key it is the plain remainder of `527 + key` and
   lies inside the table.
   */
  function Index(key: int, capacity: int): (r: int)
    requires InLong(key) && capacity > 0
    ensures SafeKey(key) ==> r == (527 + key) % capacity && 0 <= r < capacity
  {
    if SafeKey(key) then SafeHashCode(key); JavaRem(HashCode(key), capacity)
    else JavaRem(HashCode(key), capacity)
  }

  /** Exclusive or with zero leaves a number as it is. */
  lemma {:induction false} BitXorZero(a: nat)
    ensures BitXor(a, 0) == a
  {
    if a > 0 {
      BitXorZero(a / 2);
    }
  }

  /** Below 2^31 the `Long.hashCode` fold is the identity. */
  lemma SmallLongHashCode(key: int)
    requires 0 <= key < 0x8000_0000
    ensures LongHashCode(key) == key
  {
    BitXorZero(key);
  }

  /** For a safe key nothing wraps: the hash code is `527 + key`. */
  lemma SafeHashCode(key: int)
    requires SafeKey(key)
    ensures HashCode(key) == 527 + key
  {
    SmallLongHashCode(key);
  }

  /** Below the safe bound distinct keys have distinct hash codes, so `processCollision` never fires. */
  lemma SafeHashCodeInjective(k1: int, k2: int)
    requires SafeKey(k1) && SafeKey(k2)
    ensures HashCode(k1) == HashCode(k2) <==> k1 == k2
  {
    SafeHashCode(k1);
    SafeHashCode(k2);
  }

  /** A positive multiple of `n` is at least `n`. */
  lemma {:induction false} MulAtLeast(n: int, d: int)
    requires n > 0 && d >= 1
    ensures n * d >= n
  {
    if d > 1 {
      MulAtLeast(n, d - 1);
      assert n * d == n * (d - 1) + n;
    }
  }

  /** The quotient and remainder of `a` by `n` are the only such pair. */
  lemma ModUnique(a: int, n: int, q: int, s: int)
    requires n > 0 && 0 <= s < n && a == n * q + s
    ensures a % n == s
  {
    var q', s' := a / n, a % n;
    assert n * (q - q') == s' - s;
    if q > q' {
      MulAtLeast(n, q - q');
    } else if q < q' {
      MulAtLeast(n, q' - q);
    }
  }

  /** Reducing modulo `2 * n` first does not change the remainder modulo `n`. */
  lemma ModOfDoubleMod(a: int, n: int)
    requires n > 0
    ensures (a % (2 * n)) % n == a % n
  {
    var r := a % (2 * n);
    var q := a / (2 * n);
    assert a == (2 * n) * q + r;
    assert a == n * (2 * q + r / n) + r % n;
    ModUnique(a, n, 2 * q + r / n, r % n);
  }

  /**
   Two safe keys that share a slot after the table doubles already shared
   one before it: doubling splits slots, it never merges them.
   */
  lemma IndexDoubling(k1: int, k2: int, capacity: int)
    requires SafeKey(k1) && SafeKey(k2) && capacity > 0
    requires Index(k1, 2 * capacity) == Index(k2, 2 * capacity)
    ensures Index(k1, capacity) == Index(k2, capacity)
  {
    ModOfDoubleMod(527 + k1, capacity);
    ModOfDoubleMod(527 + k2, capacity);
  }

  /** Exclusive or of a number with itself is zero. */
  lemma {:induction false} BitXorSelf(a: nat)
    ensures BitXor(a, a) == 0
  {
    if a > 0 {
      BitXorSelf(a / 2);
    }
  }

  /**
   Above the safe bound `527 + key` wraps to a negative `int`. For the first
   key above it, `2^31 - 527`, the hash code is `-2^31` and the index is 0;
   for the second, `2^31 - 526`, the index is -15 and `hashTable[index]`
   would throw `ArrayIndexOutOfBoundsException`.
   */
  lemma NegativeIndexAboveSafeKeys()
    ensures InLong(MaxSafeKey + 1) && Index(MaxSafeKey + 1, 16) == 0
    ensures InLong(MaxSafeKey + 2) && Index(MaxSafeKey + 2, 16) == -15
  {
    SmallLongHashCode(MaxSafeKey + 1);
    assert HashCode(MaxSafeKey + 1) == WrapInt(0x8000_0000) == -0x8000_0000;
    var key := MaxSafeKey + 2;
    SmallLongHashCode(key);
    assert HashCode(key) == WrapInt(0x8000_0001) == -0x7FFF_FFFF;
  }

  /** `Long.hashCode(-1)` is 0, so keys -1 and 0 share a hash code: distinct keys can collide outside the safe range. */
  lemma MinusOneCollidesWithZero()
    ensures HashCode(-1) == HashCode(0) == 527
  {
    BitXorSelf(TwoTo32 - 1);
    SmallLongHashCode(0);
  }

  /**
   Keys 1, `2^32` and `2^33 + 3` that the reference policy accepts all have
   hash code 528: outside the safe range three distinct keys can share a
   hash code, so `processCollision` can build a bucket of three entries.
   */
  lemma ThreeKeysCollide()
    ensures InLong(TwoTo32) && InLong(2 * TwoTo32 + 3)
    ensures HashCode(1) == HashCode(TwoTo32) == HashCode(2 * TwoTo32 + 3) == 528
  {
    SmallLongHashCode(1);
    assert BitXor(0, 1) == 1 + 2 * BitXor(0, 0);
    assert BitXor(1, 1) == 2 * BitXor(0, 0);
    assert BitXor(3, 2) == 1 + 2 * BitXor(1, 1);
  }
}
