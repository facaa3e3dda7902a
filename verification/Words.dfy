/** Unsigned machine words as bounded naturals, with `&` and `|` defined bit by bit.
    A right shift by a constant k is a division by 2^k, which is what C says it is for
    unsigned operands.  The lemmas turn the masks used by the kernel into `/` and `%`. */
module Words {
  const TWO_64: nat := 0x1_0000_0000_0000_0000
  const PAGE_SIZE: nat := 4096

  type uint32 = x: nat | x < 0x1_0000_0000
  type uint64 = x: nat | x < 0x1_0000_0000_0000_0000

  datatype Option<+T> = None | Some(value: T)

  function Pow2(n: nat): (p: nat)
    ensures p > 0
  {
    if n == 0 then 1 else 2 * Pow2(n - 1)
  }

  /** a & b */
  function And(a: nat, b: nat): nat
    decreases a
  {
    if a == 0 || b == 0 then 0
    else 2 * And(a / 2, b / 2) + (a % 2) * (b % 2)
  }

  /** a | b */
  function Or(a: nat, b: nat): nat
    decreases a
  {
    if a == 0 then b
    else if b == 0 then a
    else 2 * Or(a / 2, b / 2) + (if a % 2 == 1 || b % 2 == 1 then 1 else 0)
  }

  lemma {:induction false} AndHalves(a: nat, b: nat)
    ensures And(a, b) == 2 * And(a / 2, b / 2) + (a % 2) * (b % 2)
  {
    if a == 0 || b == 0 {
      assert And(a / 2, b / 2) == 0;
      assert (a % 2) * (b % 2) == 0;
    }
  }

  lemma {:induction false} OrHalves(a: nat, b: nat)
    ensures Or(a, b) == 2 * Or(a / 2, b / 2) + (if a % 2 == 1 || b % 2 == 1 then 1 else 0)
  {
  }

  lemma MulAtLeast(x: nat, d: nat)
    requires x >= 1
    ensures x * d >= d
  {
  }

  lemma DivModUnique(a: nat, d: nat, q: nat, r: nat)
    requires r < d && a == q * d + r
    ensures a / d == q && a % d == r
  {
    if q < a / d {
      MulAtLeast(a / d - q, d);
    } else if a / d < q {
      MulAtLeast(q - a / d, d);
    }
  }

  /** Splitting off the lowest bit before dividing by p. */
  lemma HalveThenDivide(a: nat, p: nat)
    requires p > 0
    ensures a / (2 * p) == a / 2 / p
    ensures a % (2 * p) == 2 * (a / 2 % p) + a % 2
  {
    var q, r := a / 2 / p, a / 2 % p;
    assert a / 2 == q * p + r;
    assert q * (2 * p) == 2 * (q * p);
    DivModUnique(a, 2 * p, q, 2 * r + a % 2);
  }

  /** Masking with 2^k - 1 is the remainder modulo 2^k. */
  lemma {:induction false} AndLowMask(a: nat, k: nat)
    ensures And(a, Pow2(k) - 1) == a % Pow2(k)
    decreases k
  {
    if k == 0 {
      assert And(a, 0) == 0;
    } else {
      var p := Pow2(k - 1);
      AndHalves(a, 2 * p - 1);
      assert (2 * p - 1) / 2 == p - 1 && (2 * p - 1) % 2 == 1;
      AndLowMask(a / 2, k - 1);
      HalveThenDivide(a, p);
    }
  }

  /** m << k, without an upper bound on the result */
  function Shl(m: nat, k: nat): nat {
    if k == 0 then m else 2 * Shl(m, k - 1)
  }

  /** a >> k */
  function Shr(a: nat, k: nat): nat {
    if k == 0 then a else Shr(a / 2, k - 1)
  }

  lemma {:induction false} ShlIsProduct(m: nat, k: nat)
    ensures Shl(m, k) == m * Pow2(k)
  {
    if k > 0 {
      ShlIsProduct(m, k - 1);
      var p := Pow2(k - 1);
      assert m * (2 * p) == 2 * (m * p);
    }
  }

  lemma {:induction false} ShrIsQuotient(a: nat, k: nat)
    ensures Shr(a, k) == a / Pow2(k)
    decreases k
  {
    if k > 0 {
      ShrIsQuotient(a / 2, k - 1);
      HalveThenDivide(a, Pow2(k - 1));
    }
  }

  /** Masking with a mask shifted left by k. */
  lemma {:induction false} AndShiftedMask(a: nat, m: nat, k: nat)
    ensures And(a, Shl(m, k)) == Shl(And(Shr(a, k), m), k)
    decreases k
  {
    hide And;
    if k > 0 {
      assert Shl(m, k) / 2 == Shl(m, k - 1) && Shl(m, k) % 2 == 0;
      AndHalves(a, Shl(m, k));
      AndShiftedMask(a / 2, m, k - 1);
    }
  }

  /** A mask of n ones above k zeros keeps the bits k to k + n - 1 in place. */
  lemma AndField(a: nat, k: nat, n: nat)
    ensures And(a, Shl(Pow2(n) - 1, k)) == Shl(Shr(a, k) % Pow2(n), k)
  {
    AndShiftedMask(a, Pow2(n) - 1, k);
    AndLowMask(Shr(a, k), n);
  }

  lemma ShiftBy(a: nat, k: nat, d: nat)
    requires Pow2(k) == d
    ensures Shl(a, k) == a * d && Shr(a, k) == a / d
  {
    ShlIsProduct(a, k);
    ShrIsQuotient(a, k);
  }

  lemma {:induction false} OrCommutes(a: nat, b: nat)
    ensures Or(a, b) == Or(b, a)
    decreases a
  {
    if a != 0 && b != 0 { OrCommutes(a / 2, b / 2); }
  }

  /** `|` of words without a common bit is their sum. */
  lemma {:induction false} OrIsSum(h: nat, l: nat, k: nat)
    requires l < Pow2(k)
    ensures Or(Shl(h, k), l) == Shl(h, k) + l
    decreases k
  {
    if k > 0 {
      OrHalves(Shl(h, k), l);
      OrIsSum(h, l / 2, k - 1);
    }
  }

  /** `|` works separately on the bits below k and on those from k up. */
  lemma {:induction false} OrSplits(h: nat, l: nat, g: nat, m: nat, k: nat)
    requires l < Pow2(k) && m < Pow2(k)
    ensures Or(Shl(h, k) + l, Shl(g, k) + m) == Shl(Or(h, g), k) + Or(l, m)
    decreases k
  {
    if k > 0 {
      hide Or;
      OrHalves(Shl(h, k) + l, Shl(g, k) + m);
      OrHalves(l, m);
      OrSplits(h, l / 2, g, m / 2, k - 1);
    }
  }

  /** Setting a bit above all the bits of a word adds it. */
  lemma SetHighBit(a: nat, k: nat, d: nat)
    requires Pow2(k) == d && a < d
    ensures Or(a, d) == a + d
  {
    ShiftBy(1, k, d);
    OrIsSum(1, a, k);
    OrCommutes(a, d);
  }

  /** Testing a single bit. */
  lemma TestBit(a: nat, k: nat, d: nat)
    requires Pow2(k) == d
    ensures And(a, d) != 0 <==> a / d % 2 == 1
  {
    assert Pow2(1) == 2;
    AndField(a, k, 1);
    ShiftBy(a, k, d);
    ShiftBy(1, k, d);
    ShiftBy(a / d % 2, k, d);
  }

  lemma MulTwice(x: nat, y: nat)
    ensures x * (2 * y) == 2 * (x * y)
  {
  }

  lemma {:induction false} Pow2Adds(j: nat, k: nat)
    ensures Pow2(j + k) == Pow2(j) * Pow2(k)
    decreases k
  {
    if k > 0 {
      Pow2Adds(j, k - 1);
      MulTwice(Pow2(j), Pow2(k - 1));
    }
  }

  lemma Square(k: nat, p: nat) returns (j: nat)
    requires Pow2(k) == p
    ensures Pow2(j) == p * p
  {
    Pow2Adds(k, k);
    j := k + k;
  }

  lemma Times(k: nat, p: nat, l: nat, q: nat) returns (j: nat)
    requires Pow2(k) == p && Pow2(l) == q
    ensures Pow2(j) == p * q
  {
    Pow2Adds(k, l);
    j := k + l;
  }

  /** The exponents of the powers of two that the kernel's masks are made of. */
  lemma Exponents() returns (k3: nat, k4: nat, k9: nat, k12: nat, k40: nat, k51: nat, k52: nat,
                             k60: nat, k61: nat, k63: nat)
    ensures Pow2(k3) == 8 && Pow2(k4) == 16 && Pow2(k9) == 512 && Pow2(k12) == PAGE_SIZE
    ensures Pow2(k40) == 0x100_0000_0000 && Pow2(k51) == 0x8_0000_0000_0000
    ensures Pow2(k52) == 0x10_0000_0000_0000 && Pow2(k60) == 0x1000_0000_0000_0000
    ensures Pow2(k61) == 0x2000_0000_0000_0000 && Pow2(k63) == 0x8000_0000_0000_0000
  {
    k3, k4 := SmallExponents();
    var k1 := ExponentOne();
    var k8 := Square(k4, 16);
    k9 := Times(k8, 0x100, k1, 2);
    k12 := Times(k8, 0x100, k4, 16);
    var k16 := Square(k8, 0x100);
    var k32 := Square(k16, 0x1_0000);
    k40 := Times(k32, 0x1_0000_0000, k8, 0x100);
    k52 := Times(k40, 0x100_0000_0000, k12, PAGE_SIZE);
    var k48 := Times(k32, 0x1_0000_0000, k16, 0x1_0000);
    k51 := Times(k48, 0x1_0000_0000_0000, k3, 8);
    k60 := Times(k48, 0x1_0000_0000_0000, k12, PAGE_SIZE);
    k61 := Times(k60, 0x1000_0000_0000_0000, k1, 2);
    k63 := Times(k60, 0x1000_0000_0000_0000, k3, 8);
  }

  lemma SmallExponents() returns (k3: nat, k4: nat)
    ensures Pow2(k3) == 8 && Pow2(k4) == 16
  {
    k3, k4 := 3, 4;
  }

  lemma ExponentOne() returns (k: nat)
    ensures Pow2(k) == 2
  {
    k := 1;
  }

  /** kernel.h's align_down: `value & ~(align - 1)`. */
  function AlignDown(value: uint64, align: uint64): nat
    requires align > 0
  {
    And(value, TWO_64 - align)
  }

  /** kernel.h's align_up; the 64-bit addition wraps around. */
  function AlignUp(value: uint64, align: uint64): nat
    requires align > 0
  {
    And((value + (align - 1)) % TWO_64, TWO_64 - align)
  }

  /** Clearing the bits below an alignment; ones is the run of n ones above them. */
  lemma ClearLow(value: uint64, k: nat, align: uint64, n: nat, ones: nat)
    requires Pow2(k) == align && Pow2(n) == ones + 1
    requires ones * align == TWO_64 - align && value / align <= ones
    ensures AlignDown(value, align) == value / align * align
  {
    AndField(value, k, n);
    ShiftBy(ones, k, align);
    ShiftBy(value, k, align);
    DivModUnique(value / align, ones + 1, 0, value / align);
    ShiftBy(value / align, k, align);
  }

  lemma WordSize()
    ensures Pow2(64) == TWO_64
  {
    assert Pow2(8) == 0x100;
    Pow2Adds(8, 8);
    Pow2Adds(16, 16);
    Pow2Adds(32, 32);
  }

  /** A word that is a power of two has one of 64 exponents. */
  lemma ExponentFits(k: nat)
    requires Pow2(k) < TWO_64
    ensures k < 64 && Pow2(64 - k) * Pow2(k) == TWO_64
  {
    WordSize();
    if k >= 64 {
      Pow2Adds(64, k - 64);
      MulAtLeast(Pow2(k - 64), TWO_64);
    } else {
      Pow2Adds(64 - k, k);
    }
  }

  /** For every power of two, clearing the low bits rounds down. */
  lemma AlignDownRounds(value: uint64, k: nat, align: uint64)
    requires Pow2(k) == align
    ensures AlignDown(value, align) == value / align * align
  {
    ExponentFits(k);
    var ones := Pow2(64 - k) - 1;
    assert ones * align == TWO_64 - align;
    QuotientBelow(value, align, ones + 1);
    ClearLow(value, k, align, 64 - k, ones);
  }

  lemma QuotientBelow(value: nat, d: nat, n: nat)
    requires d > 0 && value < n * d
    ensures value / d < n
  {
    if value / d >= n {
      MulAtLeast(value / d - n + 1, d);
    }
  }

  lemma Multiple(value: nat, d: nat)
    requires d > 0
    ensures value / d * d <= value < value / d * d + d
    ensures value < d ==> value / d == 0
  {
  }

  /** align_up gives the least multiple not below the value, except that the topmost values wrap to 0. */
  lemma AlignUpRounds(value: uint64, k: nat, align: uint64)
    requires Pow2(k) == align
    ensures AlignUp(value, align) == (value + align - 1) % TWO_64 / align * align
    ensures value <= TWO_64 - align ==> value <= AlignUp(value, align) < value + align
    ensures value > TWO_64 - align ==> AlignUp(value, align) == 0
  {
    var sum := (value + align - 1) % TWO_64;
    AlignDownRounds(sum, k, align);
    Multiple(sum, align);
    if value > TWO_64 - align {
      DivModUnique(value + align - 1, TWO_64, 1, value + align - 1 - TWO_64);
    } else {
      DivModUnique(value + align - 1, TWO_64, 0, value + align - 1);
    }
  }
}
