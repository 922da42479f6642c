/**
 Natural-number views of the bit operations that the MTRR decoding uses:
 powers of two, single bits, bitwise AND and the BSF bit scan.
 */
module Bits {

  function Pow2(n: nat): (p: nat)
    ensures p > 0
  {
    if n == 0 then 1 else 2 * Pow2(n - 1)
  }

  /** Bit `j` of `v`. */
  predicate Bit(v: nat, j: nat) {
    if j == 0 then v % 2 == 1 else Bit(v / 2, j - 1)
  }

  /** Bitwise AND. */
  function And(x: nat, y: nat): nat {
    if x == 0 || y == 0 then 0
    else 2 * And(x / 2, y / 2) + (if x % 2 == 1 && y % 2 == 1 then 1 else 0)
  }

  /** What the BSF instruction leaves in its destination for a nonzero source. */
  function BitScanForward(v: nat): nat
    requires v > 0
  {
    if v % 2 == 1 then 0 else 1 + BitScanForward(v / 2)
  }

  /** The scan finds the lowest set bit. */
  lemma {:induction false} BitScanFindsLowestBit(v: nat)
    requires v > 0
    ensures Bit(v, BitScanForward(v))
    ensures forall j: nat | j < BitScanForward(v) :: !Bit(v, j)
    ensures Pow2(BitScanForward(v)) <= v && v % Pow2(BitScanForward(v)) == 0
  {
    if v % 2 == 0 {
      BitScanFindsLowestBit(v / 2);
      ModDouble(v, BitScanForward(v));
      forall j: nat | j < BitScanForward(v) ensures !Bit(v, j) {
        if j > 0 { assert !Bit(v / 2, j - 1); }
      }
    }
  }

  lemma DivModUnique(a: int, d: nat, q: int, r: nat)
    requires a == q * d + r && r < d
    ensures a / d == q && a % d == r
  {
    var q', r' := a / d, a % d;
    assert a == q' * d + r' && r' < d;
    Distribute(q', q, d);
    if q' < q {
      MulAtLeast(q - q', d);
      Distribute(q, q', d);
    } else if q < q' {
      MulAtLeast(q' - q, d);
    }
  }

  lemma MulAtLeast(x: nat, d: nat)
    requires x >= 1
    ensures x * d >= d
  {
    if x > 1 { MulAtLeast(x - 1, d); assert x * d == (x - 1) * d + d; }
  }

  lemma MulNonNegative(x: nat, d: nat)
    ensures x * d >= 0
  {
  }

  lemma Distribute(x: int, y: int, d: int)
    ensures (x - y) * d == x * d - y * d
  {
  }

  lemma ModDouble(a: nat, k: nat)
    requires k > 0
    ensures a % Pow2(k) == 2 * ((a / 2) % Pow2(k - 1)) + a % 2
  {
    var p := Pow2(k - 1);
    var q, r := (a / 2) / p, (a / 2) % p;
    assert a / 2 == q * p + r;
    assert a == q * (2 * p) + (2 * r + a % 2);
    DivModUnique(a, 2 * p, q, 2 * r + a % 2);
  }

  lemma DoubleProduct(x: nat, y: nat)
    ensures (2 * x) * y == 2 * (x * y)
  {
  }

  lemma {:induction false} Pow2Add(i: nat, j: nat)
    ensures Pow2(i + j) == Pow2(i) * Pow2(j)
  {
    if i > 0 {
      Pow2Add(i - 1, j);
      DoubleProduct(Pow2(i - 1), Pow2(j));
    }
  }

  lemma Pow2Values()
    ensures Pow2(8) == 0x100 && Pow2(9) == 0x200 && Pow2(11) == 0x800 && Pow2(12) == 0x1000 && Pow2(18) == 0x4_0000
  {
    assert Pow2(3) == 8 by { assert Pow2(1) == 2; }
    Pow2Add(3, 3);
    Pow2Add(6, 3);
    assert Pow2(8) == 0x100;
    assert Pow2(11) == 0x800;
    Pow2Add(6, 6);
    Pow2Add(9, 9);
  }

  lemma Pow2Monotonic(i: nat, j: nat)
    requires i <= j
    ensures Pow2(i) <= Pow2(j)
  {
    if i < j { Pow2Monotonic(i, j - 1); }
  }

  lemma Pow2Divides(i: nat, j: nat)
    requires i <= j
    ensures Pow2(j) % Pow2(i) == 0
    decreases i
  {
    if i > 0 {
      Pow2Divides(i - 1, j - 1);
      ModDouble(Pow2(j), i);
    }
  }

  /** Bit `j` by division. */
  lemma {:induction false} BitByDivision(v: nat, j: nat)
    ensures Bit(v, j) <==> v / Pow2(j) % 2 == 1
  {
    if j > 0 {
      BitByDivision(v / 2, j - 1);
      HalveThenDivide(v, Pow2(j - 1));
    }
  }

  lemma HalveThenDivide(v: nat, p: nat)
    requires p > 0
    ensures v / (2 * p) == v / 2 / p
  {
    var h := v / 2;
    var q, r := h / p, h % p;
    assert h == q * p + r;
    assert v == q * (2 * p) + (2 * r + v % 2);
    DivModUnique(v, 2 * p, q, 2 * r + v % 2);
  }

  /** AND is bitwise. */
  lemma {:induction false} AndBits(x: nat, y: nat, j: nat)
    ensures Bit(And(x, y), j) <==> Bit(x, j) && Bit(y, j)
    decreases j
  {
    if x == 0 || y == 0 {
      ZeroHasNoBit(j);
    } else if j > 0 {
      AndBits(x / 2, y / 2, j - 1);
    }
  }

  lemma {:induction false} ZeroHasNoBit(j: nat)
    ensures !Bit(0, j)
  {
    if j > 0 { ZeroHasNoBit(j - 1); }
  }

  lemma AndEvenMask(a: nat, n: nat)
    ensures And(a, 2 * n) == 2 * And(a / 2, n)
  {
    assert (2 * n) / 2 == n && (2 * n) % 2 == 0;
  }

  lemma AndOddMask(a: nat, n: nat)
    ensures And(a, 2 * n + 1) == 2 * And(a / 2, n) + a % 2
  {
    assert (2 * n + 1) / 2 == n && (2 * n + 1) % 2 == 1;
  }

  /** AND with the mask whose low `m` bits are set keeps a number of `m` bits. */
  lemma {:induction false} AndLowMask(a: nat, m: nat)
    requires a < Pow2(m)
    ensures And(a, Pow2(m) - 1) == a
  {
    if m > 0 {
      AndLowMask(a / 2, m - 1);
      AndOddMask(a, Pow2(m - 1) - 1);
      assert 2 * (Pow2(m - 1) - 1) + 1 == Pow2(m) - 1;
    }
  }

  /** AND with the mask whose bits k..m-1 are set rounds down to a multiple of 2^k. */
  lemma {:induction false} AndHighMask(a: nat, k: nat, m: nat)
    requires k <= m && a < Pow2(m)
    ensures Pow2(k) <= Pow2(m)
    ensures And(a, Pow2(m) - Pow2(k)) == a - a % Pow2(k)
    decreases m
  {
    Pow2Monotonic(k, m);
    if k == 0 {
      AndLowMask(a, m);
    } else {
      AndHighMask(a / 2, k - 1, m - 1);
      AndEvenMask(a, Pow2(m - 1) - Pow2(k - 1));
      assert 2 * (Pow2(m - 1) - Pow2(k - 1)) == Pow2(m) - Pow2(k);
      ModDouble(a, k);
    }
  }

  /** A bit that the mask ignores can be set without changing the AND. */
  lemma {:induction false} AndIgnoresClearBit(a: nat, mask: nat, j: nat)
    requires !Bit(mask, j) && !Bit(a, j)
    ensures And(a + Pow2(j), mask) == And(a, mask)
  {
    if j > 0 {
      AndIgnoresClearBit(a / 2, mask / 2, j - 1);
      assert (a + Pow2(j)) / 2 == a / 2 + Pow2(j - 1);
      assert (a + Pow2(j)) % 2 == a % 2;
    } else {
      assert (a + 1) / 2 == a / 2;
    }
  }

  /** Clearing bit `j` of a number that has it subtracts 2^j and leaves it clear. */
  lemma {:induction false} ClearBit(a: nat, j: nat)
    requires Bit(a, j)
    ensures a >= Pow2(j) && !Bit(a - Pow2(j), j)
  {
    if j > 0 {
      ClearBit(a / 2, j - 1);
      assert (a - Pow2(j)) / 2 == a / 2 - Pow2(j - 1);
    }
  }

  lemma DoubledBound(a: nat, q: nat, p: nat)
    requires a / 2 + q < p
    ensures a + 2 * q < 2 * p
  {
  }

  lemma EvenBound(a: nat, p: nat)
    requires a % 2 == 0 && a < 2 * p
    ensures a + 1 < 2 * p
  {
  }

  /** Setting bit `j` below position `m` keeps the number below 2^m. */
  lemma {:induction false} SetBitStaysBelow(a: nat, j: nat, m: nat)
    requires !Bit(a, j) && a < Pow2(m) && j < m
    ensures a + Pow2(j) < Pow2(m)
  {
    if j > 0 {
      SetBitStaysBelow(a / 2, j - 1, m - 1);
      DoubledBound(a, Pow2(j - 1), Pow2(m - 1));
    } else {
      EvenBound(a, Pow2(m - 1));
    }
  }

  /** A number below 2^m, clear below bit k and not 2^m - 2^k, has a clear bit from k on. */
  lemma {:induction false} NotContiguousHasHole(v: nat, k: nat, m: nat) returns (j: nat)
    requires k <= m && v < Pow2(m) && v % Pow2(k) == 0 && v != Pow2(m) - Pow2(k)
    ensures k <= j < m && !Bit(v, j)
    decreases m
  {
    Pow2Monotonic(k, m);
    j := 0;
    if m == 0 {
      assert false;
    } else if k > 0 {
      ModDouble(v, k);
      j := NotContiguousHasHole(v / 2, k - 1, m - 1);
      j := j + 1;
    } else if v % 2 == 1 {
      j := NotContiguousHasHole(v / 2, 0, m - 1);
      j := j + 1;
    }
  }
}
