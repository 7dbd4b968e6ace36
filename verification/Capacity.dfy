/** Table sizes and shard indices of the sharded dictionary
    (datastruct/dict/sync_dict_concurrenthashmap.go): the bit tricks and what they compute. */
module Capacity {
  import opened Bytes

  function Pow2(k: nat): nat
    ensures Pow2(k) >= 1
  {
    if k == 0 then 1 else 2 * Pow2(k - 1)
  }

  /** The bitwise or and and of natural numbers. */
  function Or(a: nat, b: nat): nat
    decreases a + b
  {
    if a == 0 && b == 0 then 0 else (if a % 2 == 1 || b % 2 == 1 then 1 else 0) + 2 * Or(a / 2, b / 2)
  }

  function And(a: nat, b: nat): nat
    decreases a + b
  {
    if a == 0 || b == 0 then 0 else (if a % 2 == 1 && b % 2 == 1 then 1 else 0) + 2 * And(a / 2, b / 2)
  }

  /** n >> t. */
  function Shr(n: nat, t: nat): nat
    decreases t
  {
    if t == 0 then n else Shr(n / 2, t - 1)
  }

  /** Bit i of a number. */
  predicate Bit(n: nat, i: nat) {
    if i == 0 then n % 2 == 1 else Bit(n / 2, i - 1)
  }

  lemma {:induction false} BitOr(a: nat, b: nat, i: nat)
    ensures Bit(Or(a, b), i) <==> Bit(a, i) || Bit(b, i)
  {
    if a == 0 && b == 0 {
      BitZero(i);
    } else if i > 0 {
      BitOr(a / 2, b / 2, i - 1);
      assert Or(a, b) / 2 == Or(a / 2, b / 2);
    }
  }

  lemma {:induction false} BitZero(i: nat)
    ensures !Bit(0, i)
  {
    if i > 0 {
      BitZero(i - 1);
    }
  }

  lemma {:induction false} BitShift(n: nat, t: nat, i: nat)
    ensures Bit(Shr(n, t), i) <==> Bit(n, i + t)
    decreases t
  {
    if t > 0 {
      BitShift(n / 2, t - 1, i);
    }
  }

  /** Some bit from i up to i + w - 1 is set. */
  ghost predicate Window(n: nat, i: nat, w: nat) {
    exists j :: i <= j < i + w && Bit(n, j)
  }

  /** m has bit i exactly if n has one in the window of width w from i up. */
  ghost predicate Smeared(n: nat, m: nat, w: nat) {
    forall i: nat :: Bit(m, i) <==> Window(n, i, w)
  }

  lemma SmearDoubles(n: nat, m: nat, w: nat)
    requires Smeared(n, m, w)
    ensures Smeared(n, Or(m, Shr(m, w)), 2 * w)
  {
    hide Window, Bit, Or, Shr;
    forall i: nat ensures Bit(Or(m, Shr(m, w)), i) <==> Window(n, i, 2 * w) {
      BitOr(m, Shr(m, w), i);
      BitShift(m, w, i);
      WindowSplits(n, i, w);
    }
  }

  lemma WindowSplits(n: nat, i: nat, w: nat)
    ensures Window(n, i, 2 * w) <==> Window(n, i, w) || Window(n, i + w, w)
  {
    hide Bit;
    if Window(n, i, 2 * w) {
      var j :| i <= j < i + 2 * w && Bit(n, j);
      assert j < i + w || i + w <= j < i + w + w;
    }
  }

  /** n |= n >> 1, 2, 4, 8, 16. */
  function Smear(n: nat): nat {
    var n1 := Or(n, Shr(n, 1));
    var n2 := Or(n1, Shr(n1, 2));
    var n4 := Or(n2, Shr(n2, 4));
    var n8 := Or(n4, Shr(n4, 8));
    Or(n8, Shr(n8, 16))
  }

  /** computeCapacity on a 64-bit int. */
  function CapacityOf(param: int): int {
    if param <= 16 then 16 else Wrap64(Smear(param - 1) + 1)
  }

  method ComputeCapacity(param: int) returns (size: int)
    requires IsInt64(param)
    ensures size == CapacityOf(param)
  {
    if param <= 16 {
      return 16;
    }
    var n: nat := param - 1;
    n := Or(n, Shr(n, 1));
    n := Or(n, Shr(n, 2));
    n := Or(n, Shr(n, 4));
    n := Or(n, Shr(n, 8));
    n := Or(n, Shr(n, 16));
    return Wrap64(n + 1);
  }

  lemma SmearIs(n: nat)
    ensures Smeared(n, Smear(n), 32)
  {
    hide Smeared, Or, Shr, Bit;
    var n1 := Or(n, Shr(n, 1));
    var n2 := Or(n1, Shr(n1, 2));
    var n4 := Or(n2, Shr(n2, 4));
    var n8 := Or(n4, Shr(n4, 8));
    Unsmeared(n);
    SmearDoubles(n, n, 1);
    SmearDoubles(n, n1, 2);
    SmearDoubles(n, n2, 4);
    SmearDoubles(n, n4, 8);
    SmearDoubles(n, n8, 16);
  }

  lemma Unsmeared(n: nat)
    ensures Smeared(n, n, 1)
  {
    forall i: nat ensures Bit(n, i) <==> Window(n, i, 1) {
      if Bit(n, i) {
        assert i <= i < i + 1;
      }
    }
  }

  lemma Powers()
    ensures Pow2(4) == 16 && Pow2(32) == 0x1_0000_0000 && Pow2(62) == 0x4000_0000_0000_0000
  {
    assert Pow2(2) == 4 && Pow2(4) == 16 && Pow2(6) == 64;
    Pow2Sum(4, 4);
    Pow2Sum(8, 8);
    Pow2Sum(16, 16);
    Pow2Sum(16, 8);
    Pow2Sum(24, 6);
    Pow2Sum(32, 30);
  }

  lemma {:induction false} Pow2Sum(a: nat, b: nat)
    ensures Pow2(a + b) == Pow2(a) * Pow2(b)
  {
    if b > 0 {
      Pow2Sum(a, b - 1);
      assert Pow2(a + b) == 2 * (Pow2(a) * Pow2(b - 1)) == Pow2(a) * (2 * Pow2(b - 1));
    }
  }

  lemma {:induction false} Pow2Monotone(a: nat, b: nat)
    requires a <= b
    ensures Pow2(a) <= Pow2(b)
    ensures a < b ==> Pow2(a) < Pow2(b)
    decreases b - a
  {
    if a < b {
      Pow2Monotone(a, b - 1);
    }
  }

  /** The number of bits of n. */
  function Len(n: nat): nat {
    if n == 0 then 0 else 1 + Len(n / 2)
  }

  lemma {:induction false} LenBits(n: nat)
    ensures n < Pow2(Len(n)) && (n > 0 ==> Pow2(Len(n) - 1) <= n && Bit(n, Len(n) - 1))
    ensures forall i :: i >= Len(n) ==> !Bit(n, i)
  {
    if n > 0 {
      LenBits(n / 2);
      forall i | i >= Len(n) ensures !Bit(n, i) {
        assert i > 0 && !Bit(n / 2, i - 1);
      }
    } else {
      forall i: nat ensures !Bit(n, i) {
        BitZero(i);
      }
    }
  }

  lemma {:induction false} LenBound(n: nat, k: nat)
    requires n < Pow2(k)
    ensures Len(n) <= k
    decreases k
  {
    if n > 0 {
      LenBound(n / 2, k - 1);
    }
  }

  lemma {:induction false} AllOnes(n: nat, k: nat)
    requires forall i :: 0 <= i < k ==> Bit(n, i)
    requires forall i :: i >= k ==> !Bit(n, i)
    ensures n == Pow2(k) - 1
  {
    if k == 0 {
      LenBits(n);
    } else {
      assert Bit(n, 0);
      forall i | 0 <= i < k - 1 ensures Bit(n / 2, i) {
        assert Bit(n, i + 1);
      }
      forall i | i >= k - 1 ensures !Bit(n / 2, i) {
        assert !Bit(n, i + 1);
      }
      AllOnes(n / 2, k - 1);
    }
  }

  lemma {:induction false} OnesAreAll(k: nat, i: nat)
    ensures Bit(Pow2(k) - 1, i) <==> i < k
  {
    if k == 0 {
      BitZero(i);
    } else {
      assert (Pow2(k) - 1) / 2 == Pow2(k - 1) - 1 && (Pow2(k) - 1) % 2 == 1;
      if i > 0 {
        OnesAreAll(k - 1, i - 1);
      }
    }
  }

  /** size is the least power of two at or above x. */
  ghost predicate LeastPow2(size: int, x: int) {
    && (exists k: nat :: size == Pow2(k))
    && x <= size
    && forall j: nat :: x <= Pow2(j) ==> size <= Pow2(j)
  }

  /** No 32 bits in a row are zero below the leading bit. */
  ghost predicate NoLongGap(n: nat) {
    forall i :: 0 <= i < Len(n) ==> Window(n, i, 32)
  }

  lemma LeastOf(n: nat)
    requires n > 0
    ensures LeastPow2(Pow2(Len(n)), n + 1)
  {
    LenBits(n);
    forall j: nat | n + 1 <= Pow2(j) ensures Pow2(Len(n)) <= Pow2(j) {
      if j < Len(n) {
        Pow2Monotone(j, Len(n) - 1);
      }
    }
  }

  lemma SmearIsOnesIff(n: nat)
    requires n > 0
    ensures (exists k: nat :: Smear(n) + 1 == Pow2(k)) <==> NoLongGap(n)
    ensures NoLongGap(n) ==> Smear(n) + 1 == Pow2(Len(n))
    ensures Smear(n) < Pow2(Len(n))
  {
    hide Smear;
    var m, l := Smear(n), Len(n);
    SmearIs(n);
    LenBits(n);
    forall i | i >= l ensures !Bit(m, i) {
      assert !Window(n, i, 32);
    }
    assert Window(n, l - 1, 32) by { assert l - 1 <= l - 1 < l - 1 + 32; }
    if NoLongGap(n) {
      AllOnes(m, l);
    }
    BoundedByBits(m, l);
    if k: nat :| m + 1 == Pow2(k) {
      assert Bit(m, l - 1);
      OnesAreAll(k, l - 1);
      forall i | 0 <= i < l ensures Window(n, i, 32) {
        OnesAreAll(k, i);
      }
    }
  }

  lemma {:induction false} BoundedByBits(n: nat, k: nat)
    requires forall i :: i >= k ==> !Bit(n, i)
    ensures n < Pow2(k)
  {
    if k == 0 {
      LenBits(n);
    } else {
      forall i | i >= k - 1 ensures !Bit(n / 2, i) {
        assert !Bit(n, i + 1);
      }
      BoundedByBits(n / 2, k - 1);
    }
  }

  lemma SmallHasNoGap(n: nat)
    requires n < 0x1_0000_0000
    ensures NoLongGap(n)
  {
    Powers();
    LenBits(n);
    if n > 0 {
      LenBound(n, 32);
      forall i | 0 <= i < Len(n) ensures Window(n, i, 32) {
        assert i <= Len(n) - 1 < i + 32;
      }
    }
  }

  /** computeCapacity yields the least power of two at or above its argument exactly when the
      argument is at most 2^62 and, minus one, has no gap of 32 zero bits below its leading bit. */
  lemma CapacityIff(param: int)
    requires 16 < param <= MAX_INT64
    ensures LeastPow2(CapacityOf(param), param) <==> NoLongGap(param - 1) && param <= 0x4000_0000_0000_0000
  {
    hide Smear, NoLongGap, LeastPow2, Len, Pow2;
    var n: nat := param - 1;
    SmearIsOnesIff(n);
    LeastOf(n);
    LeastIsPower(CapacityOf(param), param);
    if param <= 0x4000_0000_0000_0000 {
      Fits62(n);
    } else {
      Fits63(n);
    }
  }

  /** Beyond 2^62 the next power of two is not an int64. */
  lemma Fits63(n: nat)
    requires 0x4000_0000_0000_0000 <= n < 0x7FFF_FFFF_FFFF_FFFF
    ensures Pow2(Len(n)) == 0x8000_0000_0000_0000
  {
    hide Pow2, Len;
    Powers();
    Pow2Step(63);
    LenBound(n, 63);
    LenBits(n);
    Pow2Monotone(Len(n), 63);
    if Len(n) <= 62 {
      Pow2Monotone(Len(n), 62);
    }
  }

  lemma LeastIsPower(size: int, x: int)
    ensures LeastPow2(size, x) ==> size > 0 && exists k: nat :: size == Pow2(k)
  {
  }

  lemma Fits62(n: nat)
    requires n < 0x4000_0000_0000_0000
    ensures Pow2(Len(n)) <= 0x4000_0000_0000_0000
  {
    hide Pow2;
    Powers();
    LenBound(n, 62);
    Pow2Monotone(Len(n), 62);
  }

  lemma {:induction false} PowerBits(k: nat, i: nat)
    ensures Bit(Pow2(k), i) <==> i == k
  {
    if k == 0 {
      if i > 0 {
        BitZero(i - 1);
      }
    } else {
      assert Pow2(k) / 2 == Pow2(k - 1) && Pow2(k) % 2 == 0;
      if i > 0 {
        PowerBits(k - 1, i - 1);
      }
    }
  }

  /** The first argument that goes wrong. */
  lemma CapacityFails()
    ensures !LeastPow2(CapacityOf(0x1_0000_0001), 0x1_0000_0001)
  {
    hide Bit, Pow2;
    Powers();
    forall j | 0 <= j < 32 ensures !Bit(Pow2(32), j) {
      PowerBits(32, j);
    }
    assert !Window(0x1_0000_0000, 0, 32);
    assert Len(0x1_0000_0000) > 0;
    CapacityIff(0x1_0000_0001);
  }

  /** In particular for every argument up to 2^32. */
  lemma CapacityIsLeast(param: int)
    requires param <= 0x1_0000_0000
    ensures LeastPow2(CapacityOf(param), if param < 16 then 16 else param)
  {
    if param > 16 {
      SmallHasNoGap(param - 1);
      CapacityIff(param);
    } else {
      Powers();
      assert 16 == Pow2(4);
      forall j: nat | 16 <= Pow2(j) ensures 16 <= Pow2(j) {
      }
    }
  }

  // ---- shard indices

  /** spread: the table size and the hash code are 32-bit numbers; a size of 2^32 becomes 0. */
  function Spread(tableSize: nat, hashCode: nat): nat {
    And((tableSize % 0x1_0000_0000 + 0xFFFF_FFFF) % 0x1_0000_0000, hashCode)
  }

  lemma AndStep(k: nat, h: nat)
    requires k > 0
    ensures And(Pow2(k) - 1, h) == h % 2 + 2 * And(Pow2(k - 1) - 1, h / 2)
  {
    var m := Pow2(k) - 1;
    assert m / 2 == Pow2(k - 1) - 1 && m % 2 == 1;
  }

  function Mod(h: nat, n: nat): nat
    requires n > 0
  {
    h % n
  }

  lemma {:induction false} MaskIsModulo(k: nat, h: nat)
    ensures And(Pow2(k) - 1, h) == Mod(h, Pow2(k))
  {
    hide And, Pow2, Mod;
    if k == 0 {
      MaskZero(h);
    } else {
      AndStep(k, h);
      MaskIsModulo(k - 1, h / 2);
      ModStep(h, Pow2(k - 1));
      Pow2Step(k);
    }
  }

  lemma MaskZero(h: nat)
    ensures And(Pow2(0) - 1, h) == 0 == Mod(h, Pow2(0))
  {
  }

  lemma Pow2Step(k: nat)
    requires k > 0
    ensures Pow2(k) == 2 * Pow2(k - 1)
  {
  }

  lemma ModStep(h: nat, p: nat)
    requires p > 0
    ensures Mod(h, 2 * p) == h % 2 + 2 * Mod(h / 2, p)
  {
    var q, r := h / 2 / p, h / 2 % p;
    assert h == (2 * p) * q + (2 * r + h % 2) by {
      assert h / 2 == p * q + r;
      assert 2 * (p * q) == (2 * p) * q;
    }
    ModIs(h, 2 * p, q, 2 * r + h % 2);
  }

  lemma ModIs(n: nat, d: nat, q: nat, r: nat)
    requires r < d && n == d * q + r
    ensures n % d == r
  {
    var q', r' := n / d, n % d;
    var x: int := q - q';
    assert d * x == r' - r by {
      assert n == d * q' + r';
      assert d * x == d * q - d * q';
    }
    MulBounds(d, x);
  }

  lemma MulBounds(d: int, x: int)
    requires d > 0
    ensures x >= 1 ==> d * x >= d
    ensures x <= -1 ==> d * x <= -d
  {
  }

  /** For every table whose size is a power of two, spread is reduction modulo the size. */
  lemma SpreadIsModulo(tableSize: nat, hashCode: nat)
    requires tableSize <= 0x1_0000_0000 && exists k: nat :: tableSize == Pow2(k)
    ensures Spread(tableSize, hashCode) == hashCode % tableSize < tableSize
  {
    hide And, Pow2, Mod;
    var k: nat :| tableSize == Pow2(k);
    MaskIsModulo(k, hashCode);
    Mask(tableSize);
    Remainder(hashCode, tableSize);
  }

  lemma {:induction false} AndAtMost(a: nat, b: nat)
    ensures And(a, b) <= a
    decreases a + b
  {
    if a != 0 && b != 0 {
      AndAtMost(a / 2, b / 2);
    }
  }

  /** Whatever the size, every hash code has a shard. */
  lemma SpreadInside(tableSize: nat, hashCode: nat)
    requires tableSize > 0
    ensures Spread(tableSize, hashCode) < tableSize
  {
    hide And;
    AndAtMost((tableSize % 0x1_0000_0000 + 0xFFFF_FFFF) % 0x1_0000_0000, hashCode);
  }

  lemma Mask(tableSize: nat)
    requires 1 <= tableSize <= 0x1_0000_0000
    ensures (tableSize % 0x1_0000_0000 + 0xFFFF_FFFF) % 0x1_0000_0000 == tableSize - 1
  {
  }

  lemma Remainder(h: nat, n: nat)
    requires n > 0
    ensures Mod(h, n) == h % n < n
  {
  }

  // ---- table sizes

  /** The longest slice of pointers that make accepts on 64-bit Linux. */
  const MAX_TABLE := 0x2000_0000_0000

  /** make accepts the table size that is computed; otherwise MakeConcurrent panics. */
  predicate CanMake(param: int) {
    IsInt64(param) && 0 <= CapacityOf(param) <= MAX_TABLE
  }

  lemma {:induction false} OrAtLeast(a: nat, b: nat)
    ensures Or(a, b) >= a
    decreases a + b
  {
    if a != 0 || b != 0 {
      OrAtLeast(a / 2, b / 2);
    }
  }

  lemma SmearAtLeast(n: nat)
    ensures Smear(n) >= n
  {
    hide Or, Shr;
    var n1 := Or(n, Shr(n, 1));
    var n2 := Or(n1, Shr(n1, 2));
    var n4 := Or(n2, Shr(n2, 4));
    var n8 := Or(n4, Shr(n4, 8));
    OrAtLeast(n, Shr(n, 1));
    OrAtLeast(n1, Shr(n1, 2));
    OrAtLeast(n2, Shr(n2, 4));
    OrAtLeast(n4, Shr(n4, 8));
    OrAtLeast(n8, Shr(n8, 16));
  }

  /** The size that is computed, before it is taken for an int64. */
  lemma SmearFits(n: nat, k: nat)
    requires n < Pow2(k)
    ensures Smear(n) < Pow2(k)
  {
    hide Smear, Pow2;
    if n == 0 {
      SmearOfZero();
    } else {
      SmearIsOnesIff(n);
      LenBound(n, k);
      Pow2Monotone(Len(n), k);
    }
  }

  lemma SmearOfZero()
    ensures Smear(0) == 0 && forall k :: 0 < Pow2(k)
  {
  }

  lemma Pow63()
    ensures Pow2(63) == 0x8000_0000_0000_0000 && Pow2(45) == MAX_TABLE
  {
    hide Pow2;
    Powers();
    Pow2Step(63);
    Pow2Sum(32, 13);
    Pow2Sum(9, 4);
    Pow2Sum(4, 4);
    Pow2Step(9);
    Pow2Sum(4, 5);
  }

  /** A size is at least 16, or it has overflowed. */
  lemma SizeRange(param: int)
    requires IsInt64(param)
    ensures CapacityOf(param) >= 16 || CapacityOf(param) == MIN_INT64
    ensures param <= MAX_TABLE ==> 16 <= CapacityOf(param) <= MAX_TABLE
  {
    hide Smear, Pow2;
    if param > 16 {
      Pow63();
      SmearAtLeast(param - 1);
      SmearFits(param - 1, 63);
      if param <= MAX_TABLE {
        SmearFits(param - 1, 45);
      }
    }
  }

  /** A number that smearing leaves alone is all ones. */
  lemma {:induction false} SmearedOnes(s: nat, i: nat)
    requires Smear(s) == s && i < Len(s)
    ensures Bit(s, i)
    decreases Len(s) - i
  {
    hide Smear;
    LenBits(s);
    if i < Len(s) - 1 {
      SmearedOnes(s, i + 1);
      SmearIs(s);
      assert Window(s, i, 32);
    }
  }

  /** A number of the form 2^k - 1 is left alone. */
  lemma OnesStay(k: nat)
    requires k > 0
    ensures Pow2(k) > 1 && Smear(Pow2(k) - 1) == Pow2(k) - 1
  {
    hide Smear, Pow2;
    Pow2Monotone(0, k);
    Pow2Step(k);
    var s: nat := Pow2(k) - 1;
    forall i | 0 <= i < Len(s) ensures Window(s, i, 32) {
      LenBound(s, k);
      OnesAreAll(k, i);
      assert i <= i < i + 32;
    }
    SmearIsOnesIff(s);
    LenOfOnes(k);
  }

  lemma LenOfOnes(k: nat)
    ensures Pow2(k) >= 1 && Len(Pow2(k) - 1) == k
  {
    hide Pow2, Len, Bit;
    LenBound(Pow2(k) - 1, k);
    LenBits(Pow2(k) - 1);
    if Len(Pow2(k) - 1) < k {
      Pow2Monotone(Len(Pow2(k) - 1), k - 1);
      Pow2Step(k);
    }
  }

  /** Computing the capacity of a capacity changes nothing exactly if the first computation has
      yielded a power of two: so Clear keeps the size of the table. */
  lemma CapacityIdempotentIff(param: int)
    requires IsInt64(param)
    ensures CapacityOf(CapacityOf(param)) == CapacityOf(param) <==>
            param <= 16 || (NoLongGap(param - 1) && param <= 0x4000_0000_0000_0000)
  {
    hide Smear, NoLongGap, Pow2, Len, Wrap64;
    if param > 16 {
      var n: nat := param - 1;
      SmearIsOnesIff(n);
      SmearAtLeast(n);
      Pow63();
      SmearFits(n, 63);
      SmearFits(Smear(n), 63);
      WrapOnce(Smear(n) + 1);
      WrapOnce(Smear(Smear(n)) + 1);
      if NoLongGap(n) {
        LenPositive(n);
        OnesStay(Len(n));
        if param <= 0x4000_0000_0000_0000 { Fits62(n); } else { Fits63(n); }
      } else if Smear(Smear(n)) == Smear(n) {
        OnlyOnesStay(Smear(n));
      }
      NotOverflowed(n);
    }
  }

  /** Only an all-ones result overflows. */
  lemma NotOverflowed(n: nat)
    requires Pow2(63) == 0x8000_0000_0000_0000
    ensures Smear(n) + 1 == 0x8000_0000_0000_0000 ==> exists k: nat :: Smear(n) + 1 == Pow2(k)
  {
    hide Smear, Pow2;
  }

  lemma WrapOnce(n: int)
    requires 0 <= n <= 0x8000_0000_0000_0000
    ensures Wrap64(n) == if n == 0x8000_0000_0000_0000 then MIN_INT64 else n
  {
  }

  lemma LenPositive(n: nat)
    ensures n > 0 ==> Len(n) > 0
  {
  }

  lemma OnlyOnesStay(s: nat)
    requires Smear(s) == s
    ensures exists k: nat :: s + 1 == Pow2(k)
  {
    hide Smear, Pow2;
    LenBits(s);
    forall i | 0 <= i < Len(s) ensures Bit(s, i) {
      SmearedOnes(s, i);
    }
    AllOnes(s, Len(s));
  }
}
