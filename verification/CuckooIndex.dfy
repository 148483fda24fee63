/** Bucket indices of the cuckoo hash map: power-of-two sizes, the first index, and its partner. */
module CuckooIndex {

  function Pow2(n: nat): (r: nat)
    ensures r >= 1
  {
    if n == 0 then 1 else 2 * Pow2(n - 1)
  }

  /** Bitwise exclusive or of two naturals. */
  function Xor(a: nat, b: nat): (r: nat)
    decreases a + b
  {
    if a == 0 && b == 0 then 0 else 2 * Xor(a / 2, b / 2) + (a + b) % 2
  }

  lemma XorHalf(a: nat, b: nat)
    ensures Xor(a, b) / 2 == Xor(a / 2, b / 2) && Xor(a, b) % 2 == (a + b) % 2
  {
  }

  lemma XorZero()
    ensures Xor(0, 0) == 0
  {
  }

  lemma {:induction false} XorCancel(a: nat, b: nat)
    ensures Xor(Xor(a, b), b) == a
    decreases a + b
  {
    hide Xor;
    if a == 0 && b == 0 {
      XorZero();
    } else {
      XorCancel(a / 2, b / 2);
      XorHalf(a, b);
      XorHalf(Xor(a, b), b);
    }
  }

  /** x & mask for the mask of the low `n` bits. */
  function Low(n: nat, x: nat): (r: nat)
    ensures r < Pow2(n)
  {
    x % Pow2(n)
  }

  lemma LowStep(n: nat, x: nat)
    requires n > 0
    ensures Low(n, x) == 2 * Low(n - 1, x / 2) + x % 2
  {
    var p := Pow2(n - 1);
    var q, r := (x / 2) / p, (x / 2) % p;
    assert x / 2 == q * p + r;
    assert x == q * (2 * p) + (2 * r + x % 2);
    ModUnique(x, 2 * p, q, 2 * r + x % 2);
  }

  lemma ModUnique(x: nat, d: nat, q: nat, r: nat)
    requires r < d && x == q * d + r
    ensures x % d == r
  {
    var e := x / d - q;
    assert x == (x / d) * d + x % d;
    assert e * d == r - x % d;
    assert e == 0;
  }

  /** The low bits of an exclusive or depend only on the low bits. */
  lemma {:induction false} LowXor(n: nat, a: nat, b: nat)
    ensures Low(n, Xor(Low(n, a), b)) == Low(n, Xor(a, b))
    decreases n
  {
    hide Xor, Low;
    if n == 0 {
      LowZero(Xor(Low(n, a), b));
      LowZero(Xor(a, b));
    } else {
      var l := Low(n, a);
      LowStep(n, a);
      LowXor(n - 1, a / 2, b / 2);
      LowStep(n, Xor(l, b));
      LowStep(n, Xor(a, b));
      XorHalf(l, b);
      XorHalf(a, b);
    }
  }

  lemma LowZero(x: nat)
    ensures Low(0, x) == 0
  {
  }

  /** Dropping the top bit of the low n + 1 bits leaves the low n bits; the rest is 0 or 2^n. */
  lemma {:induction false} LowMore(n: nat, x: nat)
    ensures Low(n, Low(n + 1, x)) == Low(n, x)
    ensures Low(n + 1, x) == Low(n, x) || Low(n + 1, x) == Low(n, x) + Pow2(n)
    decreases n
  {
    hide Low;
    LowStep(n + 1, x);
    if n == 0 {
      LowZero(x);
      LowZero(Low(n + 1, x));
      LowZero(x / 2);
    } else {
      LowMore(n - 1, x / 2);
      LowStep(n, x);
      var l, b := Low(n, x / 2), x % 2;
      Halves(l, b);
      LowStep(n, 2 * l + b);
    }
  }

  lemma Halves(l: nat, b: nat)
    requires b < 2
    ensures (2 * l + b) / 2 == l && (2 * l + b) % 2 == b
  {
  }

  lemma LowId(n: nat, x: nat)
    requires x < Pow2(n)
    ensures Low(n, x) == x
  {
    ModUnique(x, Pow2(n), 0, x);
  }

  // ----- the two candidate buckets -----

  const MURMUR: nat := 0xc6a4a7935bd1e995

  /** The low and the next `bits` bits of x, xor-ed. */
  function Fold(bits: nat, x: nat): (r: nat) {
    Xor(Low(bits, x), Low(bits, ShiftRight(bits, x)))
  }

  /** x >> n. */
  function ShiftRight(n: nat, x: nat): (r: nat) {
    if n == 0 then x else ShiftRight(n - 1, x / 2)
  }

  /** partial_key: the hash folded to eight bits. */
  function Partial(hash: nat): (r: nat) {
    Fold(8, Fold(16, Fold(32, hash)))
  }

  /** The value xor-ed into an index: the nonzero tag times the Murmur constant in 64 bits. */
  function TagHash(partial: nat): (r: nat) {
    Low(64, (partial + 1) * MURMUR)
  }

  function IndexHash(hp: nat, hash: nat): (i: nat)
    ensures i < Pow2(hp)
  {
    Low(hp, hash)
  }

  function AltIndex(hp: nat, partial: nat, index: nat): (i: nat)
    ensures i < Pow2(hp)
  {
    Low(hp, Xor(index, TagHash(partial)))
  }

  /** The partner of the partner is the bucket itself. */
  lemma AltInvolution(hp: nat, partial: nat, index: nat)
    requires index < Pow2(hp)
    ensures AltIndex(hp, partial, AltIndex(hp, partial, index)) == index
  {
    hide Xor, Low, TagHash;
    var t := TagHash(partial);
    LowXor(hp, Xor(index, t), t);
    XorCancel(index, t);
    LowId(hp, index);
  }

  /** Doubling adds at most one bit, at the top, to both candidate indices. */
  lemma IndexDoubling(hp: nat, hash: nat)
    ensures IndexHash(hp + 1, hash) == IndexHash(hp, hash) || IndexHash(hp + 1, hash) == IndexHash(hp, hash) + Pow2(hp)
  {
    hide Low;
    LowMore(hp, hash);
  }

  lemma AltDoubling(hp: nat, partial: nat, index: nat)
    requires index < Pow2(hp + 1)
    ensures var a, a' := AltIndex(hp, partial, Low(hp, index)), AltIndex(hp + 1, partial, index);
            a' == a || a' == a + Pow2(hp)
  {
    hide Xor, Low, TagHash;
    var t := TagHash(partial);
    LowMore(hp, Xor(index, t));
    LowXor(hp, index, t);
  }

  // ----- the two buckets of a key differ -----

  /** Multiplying by an odd constant keeps low bits zero or nonzero. */
  lemma {:induction false} OddFactor(n: nat, k: nat)
    ensures Low(n, k * MURMUR) == 0 <==> Low(n, k) == 0
    decreases n
  {
    hide Low;
    if n == 0 {
      LowZero(k);
      LowZero(k * MURMUR);
    } else {
      var x := k * MURMUR;
      LowStep(n, k);
      LowStep(n, x);
      OddParity(k);
      if k % 2 == 0 {
        OddFactor(n - 1, k / 2);
      }
    }
  }

  lemma OddParity(k: nat)
    ensures k * MURMUR % 2 == k % 2 && (k % 2 == 0 ==> k * MURMUR / 2 == k / 2 * MURMUR)
  {
    var h, b := k / 2, k % 2;
    assert k * MURMUR == 2 * (h * MURMUR + b * (MURMUR / 2)) + b;
  }

  /** An exclusive or changes the low bits unless those of the other side are zero. */
  lemma {:induction false} XorMoves(n: nat, a: nat, b: nat)
    ensures Low(n, Xor(a, b)) == Low(n, a) <==> Low(n, b) == 0
    decreases n
  {
    hide Xor, Low;
    if n == 0 {
      LowZero(Xor(a, b));
      LowZero(a);
      LowZero(b);
    } else {
      XorHalf(a, b);
      XorMoves(n - 1, a / 2, b / 2);
      LowStep(n, Xor(a, b));
      LowStep(n, a);
      LowStep(n, b);
    }
  }

  lemma {:induction false} LowLow(n: nat, m: nat, x: nat)
    requires n <= m
    ensures Low(n, Low(m, x)) == Low(n, x)
    decreases m
  {
    hide Low;
    if n < m {
      LowMore(m - 1, x);
      LowLow(n, m - 1, Low(m, x));
      LowLow(n, m - 1, x);
    } else {
      LowOnce(n, x);
    }
  }

  lemma LowOnce(n: nat, x: nat)
    ensures Low(n, Low(n, x)) == Low(n, x)
  {
    LowId(n, Low(n, x));
  }

  /** The partner of a bucket is the bucket itself exactly if the tag is a multiple of the number of buckets. */
  lemma AltDiffers(hp: nat, partial: nat, index: nat)
    requires hp <= 64 && index < Pow2(hp)
    ensures AltIndex(hp, partial, index) == index <==> (partial + 1) % Pow2(hp) == 0
  {
    LowIs(hp, partial + 1);
    hide Xor, Low, Pow2;
    XorMoves(hp, index, TagHash(partial));
    LowId(hp, index);
    LowLow(hp, 64, (partial + 1) * MURMUR);
    OddFactor(hp, partial + 1);
  }

  lemma LowIs(n: nat, x: nat)
    ensures Low(n, x) == x % Pow2(n)
  {
  }

  lemma {:induction false} XorBound(n: nat, a: nat, b: nat)
    requires a < Pow2(n) && b < Pow2(n)
    ensures Xor(a, b) < Pow2(n)
    decreases n
  {
    if n > 0 {
      XorHalf(a, b);
      XorBound(n - 1, a / 2, b / 2);
    }
  }

  /** With more than 256 buckets, the two buckets of every key differ. */
  lemma TwoBuckets(hp: nat, hash: nat)
    requires 8 < hp <= 64
    ensures I1(hp, hash) != I2(hp, hash) && Partial(hash) < 256
  {
    hide Xor, Low, Pow2, Partial, AltIndex;
    PartialByte(hash);
    Pow2Mono(9, hp);
    Powers();
    AltDiffers(hp, Partial(hash), I1(hp, hash));
    Small(Partial(hash) + 1, Pow2(hp));
  }

  /** Bit i of x. */
  function Bit(i: nat, x: nat): nat {
    ShiftRight(i, x) % 2
  }

  lemma {:induction false} BitXor(i: nat, a: nat, b: nat)
    ensures Bit(i, Xor(a, b)) == (Bit(i, a) + Bit(i, b)) % 2
  {
    hide Xor;
    XorHalf(a, b);
    if i > 0 {
      BitXor(i - 1, a / 2, b / 2);
    }
  }

  lemma {:induction false} BitLow(i: nat, n: nat, x: nat)
    requires i < n
    ensures Bit(i, Low(n, x)) == Bit(i, x)
  {
    hide Low;
    LowStep(n, x);
    Halves(Low(n - 1, x / 2), x % 2);
    if i > 0 {
      BitLow(i - 1, n - 1, x / 2);
    }
  }

  lemma {:induction false} BitShift(i: nat, n: nat, x: nat)
    ensures Bit(i, ShiftRight(n, x)) == Bit(n + i, x)
  {
    if n > 0 {
      BitShift(i, n - 1, x / 2);
    }
  }

  lemma BitFold(i: nat, n: nat, x: nat)
    requires i < n
    ensures Bit(i, Fold(n, x)) == (Bit(i, x) + Bit(n + i, x)) % 2
  {
    hide Bit, Xor, Low, ShiftRight;
    BitXor(i, Low(n, x), Low(n, ShiftRight(n, x)));
    BitLow(i, n, x);
    BitLow(i, n, ShiftRight(n, x));
    BitShift(i, n, x);
  }

  /** Each bit of the partial key is the parity of the bits at that place in the eight bytes of the hash. */
  lemma PartialBits(hash: nat, i: nat)
    requires i < 8
    ensures Bit(i, Partial(hash)) ==
            (Bit(i, hash) + Bit(8 + i, hash) + Bit(16 + i, hash) + Bit(24 + i, hash) + Bit(32 + i, hash)
             + Bit(40 + i, hash) + Bit(48 + i, hash) + Bit(56 + i, hash)) % 2
  {
    hide Bit, Fold;
    var x := Fold(32, hash);
    var y := Fold(16, x);
    BitFold(i, 8, y);
    BitFold(i, 16, x);
    BitFold(8 + i, 16, x);
    BitFold(i, 32, hash);
    BitFold(8 + i, 32, hash);
    BitFold(16 + i, 32, hash);
    BitFold(24 + i, 32, hash);
  }

  lemma PartialByte(hash: nat)
    ensures Partial(hash) < Pow2(8)
  {
    hide Xor, Low, Pow2;
    var x := Fold(16, Fold(32, hash));
    XorBound(8, Low(8, x), Low(8, ShiftRight(8, x)));
  }

  lemma Small(x: nat, d: nat)
    requires 0 < x < d
    ensures x % d != 0
  {
  }

  lemma Powers()
    ensures Pow2(8) == 256 && Pow2(9) == 512
  {
    assert Pow2(2) == 4;
    assert Pow2(4) == 16;
    assert Pow2(6) == 64;
    assert Pow2(8) == 256;
  }

  function I1(hp: nat, hash: nat): (i: nat)
    ensures i < Pow2(hp)
  {
    IndexHash(hp, hash)
  }

  function I2(hp: nat, hash: nat): (i: nat)
    ensures i < Pow2(hp)
  {
    AltIndex(hp, Partial(hash), I1(hp, hash))
  }

  /** Bucket `i` is one of the two a key with this hash may be in. */
  predicate Cand(hp: nat, hash: nat, i: nat) {
    i == I1(hp, hash) || i == I2(hp, hash)
  }

  /** Kicking a key out of a candidate bucket sends it to the other one. */
  lemma CandAlt(hp: nat, hash: nat, i: nat)
    requires Cand(hp, hash, i)
    ensures Cand(hp, hash, AltIndex(hp, Partial(hash), i))
  {
    hide AltIndex, IndexHash, Partial, Pow2;
    AltInvolution(hp, Partial(hash), I1(hp, hash));
  }

  /** move_bucket's choice: where a key of old bucket `i` goes when the table doubles from 2^hp. */
  function NewHome(hp: nat, hash: nat, i: nat): (j: nat)
    ensures j == i || j == i + Pow2(hp)
  {
    if (i == I1(hp, hash) && I1(hp + 1, hash) == i + Pow2(hp))
      || (i == I2(hp, hash) && I2(hp + 1, hash) == i + Pow2(hp))
    then i + Pow2(hp) else i
  }

  lemma I2Doubling(hp: nat, hash: nat)
    ensures I2(hp + 1, hash) == I2(hp, hash) || I2(hp + 1, hash) == I2(hp, hash) + Pow2(hp)
  {
    hide AltIndex, Partial, Pow2, Low;
    LowMore(hp, hash);
    AltDoubling(hp, Partial(hash), I1(hp + 1, hash));
  }

  lemma NewHomeIsCand(hp: nat, hash: nat, i: nat)
    requires Cand(hp, hash, i)
    ensures Cand(hp + 1, hash, NewHome(hp, hash, i))
  {
    hide I1, I2, Pow2;
    assert I1(hp + 1, hash) == I1(hp, hash) || I1(hp + 1, hash) == I1(hp, hash) + Pow2(hp) by {
      I1Doubling(hp, hash);
    }
    I2Doubling(hp, hash);
  }

  lemma I1Doubling(hp: nat, hash: nat)
    ensures I1(hp + 1, hash) == I1(hp, hash) || I1(hp + 1, hash) == I1(hp, hash) + Pow2(hp)
  {
    IndexDoubling(hp, hash);
  }

  // ----- locks -----

  const LOCK_BITS: nat := 16

  /** The lock guarding a bucket. */
  function LockInd(i: nat): (l: nat)
    ensures l < Pow2(LOCK_BITS)
  {
    Low(LOCK_BITS, i)
  }

  lemma LowAddSame(n: nat, i: nat)
    ensures Low(n, i + Pow2(n)) == Low(n, i)
  {
    hide Pow2;
    ModAdd(i, Pow2(n));
  }

  lemma ModAdd(x: nat, d: nat)
    requires d > 0
    ensures (x + d) % d == x % d
  {
    assert x + d == (x / d + 1) * d + x % d;
    ModUnique(x + d, d, x / d + 1, x % d);
  }

  lemma {:induction false} LowAdd(n: nat, hp: nat, i: nat)
    requires n <= hp
    ensures Low(n, i + Pow2(hp)) == Low(n, i)
    decreases hp
  {
    hide Low;
    if n == hp {
      LowAddSame(n, i);
    } else {
      LowAdd(n, hp - 1, i);
      LowAdd(n, hp - 1, i + Pow2(hp - 1));
    }
  }

  /** Once there are at least as many buckets as locks, the bucket a key moves to has the lock of the one it left. */
  lemma SameLock(hp: nat, i: nat)
    requires LOCK_BITS <= hp
    ensures LockInd(i + Pow2(hp)) == LockInd(i)
  {
    hide Low, Pow2;
    LowAdd(LOCK_BITS, hp, i);
  }

  lemma ModStride(i: nat, j: nat, d: nat)
    requires i < j < i + d
    ensures j % d != i % d
  {
    var q := j / d - i / d;
    assert i == (i / d) * d + i % d && j == (j / d) * d + j % d;
    assert q * d == (j - i) - (j % d - i % d);
    if j % d == i % d {
      NoMultiple(q, d, j - i);
    }
  }

  lemma NoMultiple(q: int, d: nat, x: nat)
    requires q * d == x && x < d
    ensures x == 0
  {
  }

  /** The next bucket under the same lock is one lock-array length away. */
  lemma LockStride(i: nat)
    ensures LockInd(i + Pow2(LOCK_BITS)) == LockInd(i)
    ensures forall j :: i < j < i + Pow2(LOCK_BITS) ==> LockInd(j) != LockInd(i)
  {
    hide Pow2;
    LowAddSame(LOCK_BITS, i);
    forall j | i < j < i + Pow2(LOCK_BITS)
      ensures LockInd(j) != LockInd(i)
    {
      ModStride(i, j, Pow2(LOCK_BITS));
    }
  }

  lemma {:induction false} Pow2Mono(a: nat, b: nat)
    requires a <= b
    ensures Pow2(a) <= Pow2(b)
  {
    if a < b {
      Pow2Mono(a, b - 1);
    }
  }

  /** The number of locks of a table of 2^hp buckets. */
  function NumLocks(hp: nat): (n: nat)
    ensures n >= 1
  {
    Pow2(if hp < LOCK_BITS then hp else LOCK_BITS)
  }

  lemma LockInRange(hp: nat, i: nat)
    requires i < Pow2(hp)
    ensures LockInd(i) < NumLocks(hp)
  {
    if hp < LOCK_BITS {
      hide Pow2;
      Pow2Mono(hp, LOCK_BITS);
      LowId(LOCK_BITS, i);
    }
  }
}
