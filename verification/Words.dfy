/** The arithmetic of machine words, on natural numbers: a word of `w` bits is a
    number below 2^w, and wrap-around is written out. */
module Words {

  function Pow2(k: nat): (r: nat)
    ensures r > 0
  {
    if k == 0 then 1 else 2 * Pow2(k - 1)
  }

  lemma {:induction false} Pow2Add(j: nat, k: nat)
    ensures Pow2(j + k) == Pow2(j) * Pow2(k)
    decreases k
  {
    if k > 0 {
      Pow2Add(j, k - 1);
      assert j + k - 1 == j + (k - 1);
    }
  }

  lemma {:induction false} Pow2Grows(j: nat, k: nat)
    requires j <= k
    ensures Pow2(j) <= Pow2(k) && (j < k ==> Pow2(j) < Pow2(k))
    decreases k
  {
    if j < k {
      Pow2Grows(j, k - 1);
    }
  }

  /** The sizes of the machine's words. */
  lemma Power32()
    ensures Pow2(32) == 0x1_0000_0000
  {
    assert Pow2(6) == 0x40;
    assert Pow2(12) == 0x1000;
    assert Pow2(18) == 0x4_0000;
    assert Pow2(24) == 0x100_0000;
    assert Pow2(28) == 0x1000_0000;
  }

  lemma Square(k: nat, p: nat)
    requires Pow2(k) == p
    ensures Pow2(2 * k) == p * p
  {
    Pow2Add(k, k);
    assert k + k == 2 * k;
  }

  function Bit(x: nat, k: nat): nat {
    if k == 0 then x % 2 else Bit(x / 2, k - 1)
  }

  function And(x: nat, y: nat): nat {
    if x == 0 || y == 0 then 0
    else 2 * And(x / 2, y / 2) + (if x % 2 == 1 && y % 2 == 1 then 1 else 0)
  }

  function Or(x: nat, y: nat): nat {
    if x == 0 then y else if y == 0 then x
    else 2 * Or(x / 2, y / 2) + (if x % 2 == 1 || y % 2 == 1 then 1 else 0)
  }

  /** The complement of a word of `w` bits. */
  function Not(w: nat, x: nat): nat
    requires x < Pow2(w)
  {
    Pow2(w) - 1 - x
  }

  lemma {:induction false} BitZero(k: nat)
    ensures Bit(0, k) == 0
  {
    if k > 0 { BitZero(k - 1); }
  }

  /** The operators act bit by bit. */
  lemma {:induction false} AndBits(x: nat, y: nat, k: nat)
    ensures Bit(And(x, y), k) == 1 <==> Bit(x, k) == 1 && Bit(y, k) == 1
    decreases k
  {
    BitZero(k);
    if x != 0 && y != 0 && k > 0 {
      assert And(x, y) / 2 == And(x / 2, y / 2);
      AndBits(x / 2, y / 2, k - 1);
    }
  }

  lemma {:induction false} OrBits(x: nat, y: nat, k: nat)
    ensures Bit(Or(x, y), k) == 1 <==> Bit(x, k) == 1 || Bit(y, k) == 1
    decreases k
  {
    BitZero(k);
    if x != 0 && y != 0 && k > 0 {
      assert Or(x, y) / 2 == Or(x / 2, y / 2);
      OrBits(x / 2, y / 2, k - 1);
    }
  }

  lemma {:induction false} NotBits(w: nat, x: nat, k: nat)
    requires x < Pow2(w)
    ensures Bit(Not(w, x), k) == 1 <==> k < w && Bit(x, k) == 0
    decreases w
  {
    if w == 0 {
      BitZero(k);
    } else if k > 0 {
      assert Not(w, x) / 2 == Not(w - 1, x / 2);
      NotBits(w - 1, x / 2, k - 1);
    }
  }

  lemma {:induction false} AndOnes(w: nat, x: nat)
    requires x < Pow2(w)
    ensures And(x, Pow2(w) - 1) == x
    decreases w
  {
    if x != 0 {
      var ones := Pow2(w) - 1;
      assert ones / 2 == Pow2(w - 1) - 1 && ones % 2 == 1;
      AndOnes(w - 1, x / 2);
    }
  }

  function Shift(x: nat, k: nat): nat {
    if k == 0 then x else 2 * Shift(x, k - 1)
  }

  lemma {:induction false} ShiftMultiplies(x: nat, k: nat, m: nat)
    requires m == Pow2(k)
    ensures Shift(x, k) == x * m
    decreases k
  {
    if k > 0 {
      ShiftMultiplies(x, k - 1, Pow2(k - 1));
    }
  }

  /** The operators act on the parts of a word separately. */
  lemma {:induction false} AndShifted(xh: nat, xl: nat, yh: nat, yl: nat, k: nat)
    requires xl < Pow2(k) && yl < Pow2(k)
    ensures And(Shift(xh, k) + xl, Shift(yh, k) + yl) == Shift(And(xh, yh), k) + And(xl, yl)
    decreases k
  {
    if k > 0 {
      var x, y, high := Shift(xh, k - 1), Shift(yh, k - 1), Shift(And(xh, yh), k - 1);
      AndShifted(xh, xl / 2, yh, yl / 2, k - 1);
      AndStep(x, xl, y, yl, high);
      assert Shift(xh, k) == 2 * x && Shift(yh, k) == 2 * y && Shift(And(xh, yh), k) == 2 * high;
    }
  }

  lemma AndSplit(xh: nat, xl: nat, yh: nat, yl: nat, k: nat, m: nat)
    requires m == Pow2(k) && xl < m && yl < m
    ensures And(xh * m + xl, yh * m + yl) == And(xh, yh) * m + And(xl, yl)
  {
    ShiftMultiplies(xh, k, m);
    ShiftMultiplies(yh, k, m);
    ShiftMultiplies(And(xh, yh), k, m);
    AndShifted(xh, xl, yh, yl, k);
  }

  lemma {:induction false} OrShifted(xh: nat, xl: nat, yh: nat, yl: nat, k: nat)
    requires xl < Pow2(k) && yl < Pow2(k)
    ensures Or(Shift(xh, k) + xl, Shift(yh, k) + yl) == Shift(Or(xh, yh), k) + Or(xl, yl)
    decreases k
  {
    if k > 0 {
      var x, y, high := Shift(xh, k - 1), Shift(yh, k - 1), Shift(Or(xh, yh), k - 1);
      OrShifted(xh, xl / 2, yh, yl / 2, k - 1);
      OrStep(x, xl, y, yl, high);
      assert Shift(xh, k) == 2 * x && Shift(yh, k) == 2 * y && Shift(Or(xh, yh), k) == 2 * high;
    }
  }

  lemma OrSplit(xh: nat, xl: nat, yh: nat, yl: nat, k: nat, m: nat)
    requires m == Pow2(k) && xl < m && yl < m
    ensures Or(xh * m + xl, yh * m + yl) == Or(xh, yh) * m + Or(xl, yl)
  {
    ShiftMultiplies(xh, k, m);
    ShiftMultiplies(yh, k, m);
    ShiftMultiplies(Or(xh, yh), k, m);
    OrShifted(xh, xl, yh, yl, k);
  }

  lemma Parts(p: nat, l: nat)
    ensures (2 * p + l) / 2 == p + l / 2 && (2 * p + l) % 2 == l % 2
  {}

  lemma AndStep(p: nat, xl: nat, q: nat, yl: nat, high: nat)
    requires And(p + xl / 2, q + yl / 2) == high + And(xl / 2, yl / 2)
    ensures And(2 * p + xl, 2 * q + yl) == 2 * high + And(xl, yl)
  {
    Parts(p, xl);
    Parts(q, yl);
    AndHalves(2 * p + xl, 2 * q + yl);
    AndHalves(xl, yl);
  }

  lemma OrStep(p: nat, xl: nat, q: nat, yl: nat, high: nat)
    requires Or(p + xl / 2, q + yl / 2) == high + Or(xl / 2, yl / 2)
    ensures Or(2 * p + xl, 2 * q + yl) == 2 * high + Or(xl, yl)
  {
    Parts(p, xl);
    Parts(q, yl);
    OrHalves(2 * p + xl, 2 * q + yl);
    OrHalves(xl, yl);
  }

  lemma AndHalves(x: nat, y: nat)
    ensures And(x, y) == 2 * And(x / 2, y / 2) + if x % 2 == 1 && y % 2 == 1 then 1 else 0
  {}

  lemma OrHalves(x: nat, y: nat)
    ensures Or(x, y) == 2 * Or(x / 2, y / 2) + if x % 2 == 1 || y % 2 == 1 then 1 else 0
  {}

  lemma Divide(x: nat, m: nat) returns (q: nat, r: nat)
    requires m > 0
    ensures x == q * m + r && r == x % m < m
  {
    q, r := x / m, x % m;
  }

  /** Masking off the low `k` bits of a word. */
  lemma AndHighMod(w: nat, x: nat, k: nat, m: nat)
    requires x < Pow2(w) && k <= w && m == Pow2(k) <= Pow2(w)
    ensures And(x, Pow2(w) - m) == x - x % m
  {
    var q, r := Divide(x, m);
    var p := Pow2(w - k);
    Pow2Add(w - k, k);
    Below(q, m, r, p);
    AndOnes(w - k, q);
    AndSplit(q, r, p - 1, 0, k, m);
    Distribute(p, m);
  }

  lemma Distribute(p: nat, m: nat)
    requires p > 0
    ensures (p - 1) * m == p * m - m
  {}

  lemma Below(q: nat, m: nat, r: nat, p: nat)
    requires q * m + r < p * m
    ensures q < p
  {
    if q >= p { MulOrder(p, q, m); }
  }

  lemma Small(x: nat, m: nat)
    requires x < m
    ensures x % m == x && x / m == 0
  {}

  lemma MulOrder(a: int, b: int, m: nat)
    requires a <= b
    ensures a * m <= b * m
  {}

  lemma DivModOf(x: int, m: nat, q: int, r: nat)
    requires x == q * m + r && r < m
    ensures x / m == q && x % m == r
  {
    assert x == (x / m) * m + x % m;
    if x / m < q {
      MulOrder(x / m + 1, q, m);
    } else if q < x / m {
      MulOrder(q + 1, x / m, m);
    }
  }

  /** Keeping the low `k` bits. */
  lemma AndLow(x: nat, k: nat, m: nat, q: nat, r: nat)
    requires m == Pow2(k) && x == q * m + r && r < m
    ensures And(x, m - 1) == r
  {
    AndOnes(k, r);
    AndSplit(q, r, 0, m - 1, k, m);
    assert And(q, 0) == 0;
  }

  /** Disjoint fields are combined by adding. */
  lemma OrAdds(high: nat, low: nat, k: nat)
    requires low < Pow2(k)
    ensures Or(high * Pow2(k), low) == high * Pow2(k) + low
  {
    OrSplit(high, 0, 0, low, k, Pow2(k));
  }
}
