/** base/bits.h. */
module Bits {
  import opened Words

  predicate IsPowerOfTwo(value: int) {
    value > 0 && And(value, value - 1) == 0
  }

  lemma {:induction false} AndSelf(x: nat)
    ensures And(x, x) == x
  {
    if x != 0 { AndSelf(x / 2); }
  }

  lemma AndPredecessor(half: nat)
    requires half > 0
    ensures And(2 * half, 2 * half - 1) == 2 * And(half, half - 1)
    ensures And(2 * half + 1, 2 * half) == 2 * half
  {
    var x := 2 * half;
    assert x / 2 == half && x % 2 == 0 && (x - 1) / 2 == half - 1 && (x + 1) / 2 == half;
    AndSelf(half);
  }

  lemma {:induction false} PowersPass(k: nat)
    ensures IsPowerOfTwo(Pow2(k))
  {
    if k > 0 {
      PowersPass(k - 1);
      AndPredecessor(Pow2(k - 1));
    }
  }

  lemma {:induction false} PassersArePowers(value: int) returns (k: nat)
    requires IsPowerOfTwo(value)
    ensures value == Pow2(k)
    decreases if value > 0 then value else 0
  {
    k := 0;
    if value != 1 {
      var half := value / 2;
      AndPredecessor(half);
      assert value == 2 * half || value == 2 * half + 1;
      k := PassersArePowers(half);
      k := k + 1;
    }
  }

  /** True of exactly the powers of two, whatever the type's width and sign. */
  lemma IsPowerOfTwoIff(value: int)
    ensures IsPowerOfTwo(value) <==> exists k: nat :: value == Pow2(k)
  {
    if IsPowerOfTwo(value) {
      var k := PassersArePowers(value);
    }
    forall k: nat | value == Pow2(k) ensures IsPowerOfTwo(value) {
      PowersPass(k);
    }
  }

  /** `w` is the width of size_t. */
  function Align(w: nat, size: nat, alignment: nat): nat
    requires size < Pow2(w) && alignment < Pow2(w) && IsPowerOfTwo(alignment)
  {
    And((size + alignment - 1) % Pow2(w), Not(w, alignment - 1))
  }

  function AlignDown(w: nat, size: nat, alignment: nat): nat
    requires size < Pow2(w) && alignment < Pow2(w) && IsPowerOfTwo(alignment)
  {
    And(size, Not(w, alignment - 1))
  }

  ghost predicate Multiple(x: int, m: int) {
    m > 0 && x % m == 0
  }

  ghost predicate GreatestMultipleNotAbove(r: int, size: int, alignment: int) {
    Multiple(r, alignment) && r <= size && forall m :: Multiple(m, alignment) && m <= size ==> m <= r
  }

  ghost predicate LeastMultipleNotBelow(r: int, size: int, alignment: int) {
    Multiple(r, alignment) && size <= r && forall m :: Multiple(m, alignment) && size <= m ==> r <= m
  }

  lemma {:induction false} Exponent(w: nat, alignment: nat) returns (k: nat)
    requires alignment < Pow2(w) && IsPowerOfTwo(alignment)
    ensures alignment == Pow2(k) && k <= w
  {
    k := PassersArePowers(alignment);
    if k > w { Pow2Grows(w, k); }
  }

  /** Two multiples less than one alignment apart are equal. */
  lemma NoMultipleBetween(a: int, b: int, alignment: int)
    requires Multiple(a, alignment) && Multiple(b, alignment) && a < b
    ensures b - a >= alignment
  {
    var j, k := a / alignment, b / alignment;
    assert a == j * alignment && b == k * alignment;
    if k <= j {
      MulOrder(k, j, alignment);
    } else {
      MulOrder(j + 1, k, alignment);
    }
  }

  lemma Rounded(size: nat, alignment: nat)
    requires alignment > 0
    ensures GreatestMultipleNotAbove(size - size % alignment, size, alignment)
  {
    var r := size - size % alignment;
    DivModOf(r, alignment, size / alignment, 0);
    forall m | Multiple(m, alignment) && m <= size ensures m <= r {
      if m > r { NoMultipleBetween(r, m, alignment); }
    }
  }

  lemma RoundedUp(size: nat, alignment: nat)
    requires alignment > 0
    ensures var sum := size + alignment - 1; LeastMultipleNotBelow(sum - sum % alignment, size, alignment)
  {
    var sum := size + alignment - 1;
    var r := sum - sum % alignment;
    Rounded(sum, alignment);
    forall m | Multiple(m, alignment) && size <= m ensures r <= m {
      if m < r { NoMultipleBetween(m, r, alignment); }
    }
  }

  lemma AlignDownIsGreatest(w: nat, size: nat, alignment: nat)
    requires size < Pow2(w) && alignment < Pow2(w) && IsPowerOfTwo(alignment)
    ensures GreatestMultipleNotAbove(AlignDown(w, size, alignment), size, alignment)
  {
    var k := Exponent(w, alignment);
    AndHighMod(w, size, k, alignment);
    Rounded(size, alignment);
  }

  /** The sum as the machine adds it. */
  lemma Wrapped(sum: nat, limit: nat)
    requires 0 < limit && sum < 2 * limit
    ensures sum % limit == if sum < limit then sum else sum - limit
  {
    DivModOf(sum, limit, if sum < limit then 0 else 1, if sum < limit then sum else sum - limit);
  }

  /** Rounding up is right exactly when the sum does not wrap; when it does, the
      result is 0. */
  lemma AlignIsLeastIff(w: nat, size: nat, alignment: nat)
    requires size < Pow2(w) && alignment < Pow2(w) && IsPowerOfTwo(alignment)
    ensures var r := Align(w, size, alignment);
      if size + alignment - 1 < Pow2(w) then LeastMultipleNotBelow(r, size, alignment)
      else r == 0 < size
  {
    var k := Exponent(w, alignment);
    var limit, sum := Pow2(w), size + alignment - 1;
    Wrapped(sum, limit);
    AndHighMod(w, sum % limit, k, alignment);
    RoundedUp(size, alignment);
    if sum >= limit {
      Small(sum - limit, alignment);
    }
  }

  /** The largest word of every width, rounded up to a multiple of 8: 0. */
  lemma AlignCanWrap(w: nat)
    requires w > 3
    ensures 8 < Pow2(w) && IsPowerOfTwo(8) && Align(w, Pow2(w) - 1, 8) == 0
  {
    assert Pow2(3) == 8;
    PowersPass(3);
    Pow2Grows(3, w);
    AlignIsLeastIff(w, Pow2(w) - 1, 8);
  }

  // ----- leading zeros

  /** What the compiler's scan finds: the index of the highest bit set. */
  function BitScanReverse(x: nat): nat
    requires x != 0
  {
    if x == 1 then 0 else BitScanReverse(x / 2) + 1
  }

  lemma {:induction false} ScanBounds(x: nat)
    requires x != 0
    ensures Pow2(BitScanReverse(x)) <= x < Pow2(BitScanReverse(x) + 1)
  {
    if x != 1 { ScanBounds(x / 2); }
  }

  /** The highest set bit of a word is one of its bits. */
  lemma ScanBelow(x: nat, w: nat)
    requires 0 != x < Pow2(w)
    ensures BitScanReverse(x) < w
  {
    ScanBounds(x);
    if BitScanReverse(x) >= w {
      Pow2Grows(w, BitScanReverse(x));
    }
  }

  lemma ScanUnique(x: nat, k: nat)
    requires Pow2(k) <= x < Pow2(k + 1)
    ensures BitScanReverse(x) == k
  {
    ScanBounds(x);
    var index := BitScanReverse(x);
    if index < k { Pow2Grows(index + 1, k); }
    if index > k { Pow2Grows(k + 1, index); }
  }

  /** The GCC form, for a type of `bits` bits. */
  function CountLeadingZeroBits(bits: nat, value: nat): int
    requires bits <= 64
  {
    if value != 0 then
      if bits == 64 then 63 - BitScanReverse(value)
      else 31 - BitScanReverse(value) - (32 - bits)
    else bits
  }

  /** The 64-bit form from two 32-bit scans. */
  function CountLeadingZeroBitsByHalves(x: nat): int {
    var left, right := x / 0x1_0000_0000 % 0x1_0000_0000, x % 0x1_0000_0000;
    if left != 0 then 31 - BitScanReverse(left)
    else if right != 0 then 63 - BitScanReverse(right)
    else 64
  }

  /** The count `c` is the one with 2^(bits-c-1) <= value < 2^(bits-c). */
  lemma LeadingZerosBound(bits: nat, value: nat)
    requires 0 < bits <= 32 || bits == 64
    requires value < Pow2(bits)
    ensures var c := CountLeadingZeroBits(bits, value);
      && 0 <= c <= bits && value < Pow2(bits - c)
      && (c < bits ==> Pow2(bits - c - 1) <= value)
  {
    if value != 0 {
      ScanBounds(value);
      ScanBelow(value, bits);
    }
  }

  lemma Sandwich(low: nat, x: nat, high: nat, m: nat, rest: nat)
    requires low <= x < high && rest < m
    ensures low * m <= x * m + rest < high * m
  {
    MulOrder(low, x, m);
    MulOrder(x + 1, high, m);
  }

  /** The highest bit of a word is that of its upper part, if any is set there. */
  lemma ScanUpper(left: nat, k: nat, rest: nat, m: nat)
    requires left != 0 && rest < m == Pow2(k)
    ensures var x := left * m + rest; x != 0 && BitScanReverse(x) == BitScanReverse(left) + k
  {
    var i := BitScanReverse(left);
    ScanBounds(left);
    Pow2Add(i, k);
    Pow2Add(i + 1, k);
    Sandwich(Pow2(i), left, Pow2(i + 1), m, rest);
    assert i + 1 + k == i + k + 1;
    ScanUnique(left * m + rest, i + k);
  }

  lemma HalvesAgree(x: nat)
    requires x < 0x1_0000_0000_0000_0000
    ensures CountLeadingZeroBitsByHalves(x) == CountLeadingZeroBits(64, x)
  {
    var left, right := x / 0x1_0000_0000, x % 0x1_0000_0000;
    assert left % 0x1_0000_0000 == left;
    if left != 0 {
      Power32();
      ScanUpper(left, 32, right, 0x1_0000_0000);
    }
  }

  // ----- logarithms

  /** The conversion of an unsigned 32-bit difference back to int. */
  function AsInt32(x: int): int {
    var u := x % 0x1_0000_0000;
    if u < 0x8000_0000 then u else u - 0x1_0000_0000
  }

  lemma AsInt32Small(x: int)
    requires -0x8000_0000 <= x < 0x8000_0000
    ensures AsInt32(x) == x
  {}

  function Log2Floor(n: nat): int
    requires n < 0x1_0000_0000
  {
    AsInt32(31 - CountLeadingZeroBits(32, n))
  }

  function Log2Ceiling(n: nat): int
    requires n < 0x1_0000_0000
  {
    AsInt32((if n != 0 then 32 else -1) - CountLeadingZeroBits(32, (n - 1) % 0x1_0000_0000))
  }

  lemma Scan32(n: nat)
    requires 0 < n < 0x1_0000_0000
    ensures BitScanReverse(n) <= 31
  {
    Power32();
    ScanBelow(n, 32);
  }

  lemma FloorIsScan(n: nat)
    requires 0 < n < 0x1_0000_0000
    ensures 0 <= BitScanReverse(n) <= 31 && Log2Floor(n) == BitScanReverse(n)
  {
    Scan32(n);
    AsInt32Small(BitScanReverse(n));
  }

  lemma Log2FloorBounds(n: nat)
    requires n < 0x1_0000_0000
    ensures if n == 0 then Log2Floor(n) == -1
      else 0 <= Log2Floor(n) <= 31 && Pow2(Log2Floor(n)) <= n < Pow2(Log2Floor(n) + 1)
  {
    if n == 0 {
      AsInt32Small(-1);
    } else {
      ScanBounds(n);
      FloorIsScan(n);
    }
  }

  lemma CeilingIsScan(n: nat)
    requires 1 < n < 0x1_0000_0000
    ensures 0 <= BitScanReverse(n - 1) <= 31 && Log2Ceiling(n) == BitScanReverse(n - 1) + 1
  {
    Scan32(n - 1);
    AsInt32Small(BitScanReverse(n - 1) + 1);
  }

  lemma AllOnes(w: nat, ones: nat)
    requires w > 0 && ones == Pow2(w) - 1
    ensures ones > 0 && BitScanReverse(ones) == w - 1
  {
    ScanUnique(ones, w - 1);
  }

  lemma CeilingAtZero()
    ensures Log2Ceiling(0) == -1
  {
    Power32();
    AllOnes(32, 0xFFFF_FFFF);
    AsInt32Small(-1);
  }

  /** For n >= 1 the ceiling i has n <= 2^i, and 2^(i-1) < n (at i = 0: n is 1). */
  lemma Log2CeilingBounds(n: nat)
    requires n < 0x1_0000_0000
    ensures if n == 0 then Log2Ceiling(n) == -1
      else
        && 0 <= Log2Ceiling(n) <= 32 && n <= Pow2(Log2Ceiling(n))
        && if Log2Ceiling(n) == 0 then n == 1 else Pow2(Log2Ceiling(n) - 1) < n
  {
    if n == 0 {
      CeilingAtZero();
    } else if n == 1 {
      AsInt32Small(0);
    } else {
      ScanBounds(n - 1);
      CeilingIsScan(n);
    }
  }

  lemma LogsAtPower(n: nat, k: nat)
    requires n == Pow2(k) < 0x1_0000_0000
    ensures Log2Floor(n) == k == Log2Ceiling(n)
  {
    ScanUnique(n, k);
    FloorIsScan(n);
    if n == 1 {
      Log2CeilingBounds(n);
    } else {
      ScanUnique(n - 1, k - 1);
      CeilingIsScan(n);
    }
  }

  /** The two logarithms agree at 0, where both are -1, and at the powers of two. */
  lemma LogsAgreeIff(n: nat)
    requires n < 0x1_0000_0000
    ensures Log2Floor(n) == Log2Ceiling(n) <==> n == 0 || IsPowerOfTwo(n)
  {
    Log2FloorBounds(n);
    Log2CeilingBounds(n);
    IsPowerOfTwoIff(n);
    if n != 0 && Log2Floor(n) == Log2Ceiling(n) {
      assert n == Pow2(Log2Floor(n));
    }
    if IsPowerOfTwo(n) {
      var k: nat :| n == Pow2(k);
      LogsAtPower(n, k);
    }
  }
}
