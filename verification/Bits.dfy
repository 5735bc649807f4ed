/** Unsigned machine words as natural numbers, with the bit operations the runtime applies to them. */
module Bits {

  const WORD32: nat := 0x1_0000_0000
  const WORD64: nat := 0x1_0000_0000_0000_0000

  function Pow2(k: nat): (p: nat)
    ensures p > 0
  {
    if k == 0 then 1 else 2 * Pow2(k - 1)
  }

  /** Bitwise conjunction, one bit at a time. */
  function And(x: nat, y: nat): nat {
    if x == 0 || y == 0 then 0 else 2 * And(x / 2, y / 2) + (x % 2) * (y % 2)
  }

  /** Bitwise disjunction, one bit at a time. */
  function Or(x: nat, y: nat): nat {
    if x == 0 then y
    else if y == 0 then x
    else 2 * Or(x / 2, y / 2) + (if x % 2 + y % 2 == 0 then 0 else 1)
  }

  /** The next multiple of a, as `(x + a - 1) & -a` computes it on 64-bit words. */
  function AlignUp(x: nat, a: nat): nat
    requires 0 < a <= WORD64
  {
    And((x + a - 1) % WORD64, WORD64 - a)
  }

  lemma QuotientUnique(d: int, q: int, r: int, q': int, r': int)
    requires 0 <= r < d && 0 <= r' < d && q * d + r == q' * d + r'
    ensures q == q' && r == r'
  {
    assert (q - q') * d == r' - r;
    assert (q' - q) * d == r - r';
    if q > q' {
      AtLeastOnce(q - q', d);
    } else if q < q' {
      AtLeastOnce(q' - q, d);
    }
  }

  lemma AtLeastOnce(n: int, d: int)
    requires n >= 1 && d >= 0
    ensures n * d >= d
  {
    assert n * d == (n - 1) * d + d;
  }

  lemma DivModUnique(x: int, d: int, q: int, r: int)
    requires 0 <= r < d && x == q * d + r
    ensures x / d == q && x % d == r
  {
    QuotientUnique(d, q, r, x / d, x % d);
  }

  /** Adding a multiple of d changes no remainder. */
  lemma SameRemainder(x: int, y: int, d: int, k: int)
    requires d > 0 && x == y + d * k
    ensures x % d == y % d
  {
    assert x == (y / d + k) * d + y % d;
    DivModUnique(x, d, y / d + k, y % d);
  }

  lemma ModDouble(x: nat, p: nat)
    requires p > 0
    ensures x % (2 * p) == 2 * ((x / 2) % p) + x % 2
  {
    var h := x / 2;
    assert h == (h / p) * p + h % p;
    assert x == (h / p) * (2 * p) + (2 * (h % p) + x % 2) by {
      assert 2 * ((h / p) * p) == (h / p) * (2 * p);
    }
    DivModUnique(x, 2 * p, h / p, 2 * (h % p) + x % 2);
  }

  lemma Pow2Sum(i: nat, j: nat)
    ensures Pow2(i + j) == Pow2(i) * Pow2(j)
    decreases i
  {
    if i != 0 {
      Pow2Sum(i - 1, j);
      assert 2 * (Pow2(i - 1) * Pow2(j)) == (2 * Pow2(i - 1)) * Pow2(j);
    }
  }

  lemma Pow2Monotone(i: nat, j: nat)
    requires i <= j
    ensures Pow2(i) <= Pow2(j)
    decreases j
  {
    if i < j {
      Pow2Monotone(i, j - 1);
    }
  }

  /** The powers the runtime's masks are made of. */
  lemma Pow2Values()
    ensures Pow2(2) == 4 && Pow2(4) == 16 && Pow2(12) == 4096 && Pow2(14) == 16384
    ensures Pow2(28) == 0x1000_0000
  {
    Pow2Sum(14, 14);
  }

  lemma Pow2Words()
    ensures Pow2(32) == WORD32 && Pow2(64) == WORD64
  {
    Pow2Values();
    Pow2Sum(28, 4);
    Pow2Sum(32, 32);
  }

  lemma Pow2WithinWord(k: nat)
    requires Pow2(k) <= WORD64
    ensures k <= 64
  {
    Pow2Words();
    Pow2Sum(1, 64);
    if k > 64 {
      Pow2Monotone(65, k);
    }
  }

  lemma AndBit(x: nat, m: nat, b: nat)
    requires b < 2
    ensures And(x, 2 * m + b) == 2 * And(x / 2, m) + (x % 2) * b
  {
    var y := 2 * m + b;
    assert y / 2 == m && y % 2 == b;
    if x != 0 && y == 0 {
      assert And(x / 2, m) == 0;
    }
  }

  lemma AndZero(x: nat)
    ensures And(x, 0) == 0
  {
  }

  /** A mask of k low ones keeps the remainder modulo 2^k. */
  lemma {:induction false} MaskLow(x: nat, k: nat)
    ensures And(x, Pow2(k) - 1) == x % Pow2(k)
  {
    hide And;
    if k == 0 {
      AndZero(x);
      DivModUnique(x, 1, x, 0);
    } else {
      var p := Pow2(k - 1);
      ModDouble(x, p);
      MaskLow(x / 2, k - 1);
      AndBit(x, p - 1, 1);
    }
  }

  /** A w-bit mask with k low zeros rounds a w-bit word down to a multiple of 2^k. */
  lemma {:induction false} MaskHigh(x: nat, k: nat, w: nat)
    requires k <= w && x < Pow2(w)
    ensures Pow2(k) <= Pow2(w)
    ensures And(x, Pow2(w) - Pow2(k)) == x - x % Pow2(k)
  {
    Pow2Monotone(k, w);
    if k == 0 {
      MaskLow(x, w);
      ModSmall(x, Pow2(w));
      assert x % 1 == 0;
    } else {
      var p, q := Pow2(k - 1), Pow2(w - 1);
      ModDouble(x, p);
      MaskHigh(x / 2, k - 1, w - 1);
      AndBit(x, q - p, 0);
    }
  }

  lemma ModSmall(x: nat, d: nat)
    requires x < d
    ensures x % d == x && x / d == 0
  {
    DivModUnique(x, d, 0, x);
  }

  lemma AlignUpValue(x: nat, a: nat, k: nat)
    requires a == Pow2(k) && a <= x + a <= WORD64
    ensures AlignUp(x, a) == (x + a - 1) - (x + a - 1) % a
  {
    Pow2Words();
    Pow2WithinWord(k);
    ModSmall(x + a - 1, WORD64);
    MaskHigh(x + a - 1, k, 64);
  }

  /** Rounding up gives the least multiple of the power of two a that is not below x. */
  lemma AlignUpIsLeast(x: nat, a: nat, k: nat)
    requires a == Pow2(k) && a <= x + a <= WORD64
    ensures AlignUp(x, a) % a == 0 && x <= AlignUp(x, a) < x + a
  {
    AlignUpValue(x, a, k);
    Multiple(x + a - 1, a);
  }

  lemma Multiple(y: nat, a: nat)
    requires a > 0
    ensures (y - y % a) % a == 0 && 0 <= y % a < a
  {
    DivModUnique(y - y % a, a, y / a, 0);
  }

  /** A multiple of 2^n is a multiple of every smaller power of two. */
  lemma MultipleOfSmallerPower(x: nat, k: nat, n: nat)
    requires k <= n && x % Pow2(n) == 0
    ensures x % Pow2(k) == 0
  {
    Pow2Sum(n - k, k);
    DividesThrough(x, x / Pow2(n), Pow2(n - k), Pow2(k));
  }

  lemma DividesThrough(x: nat, q: nat, m: nat, d: nat)
    requires d > 0 && x == q * (m * d)
    ensures x % d == 0
  {
    assert x == (q * m) * d;
    DivModUnique(x, d, q * m, 0);
  }

  lemma SumOfMultiples(x: nat, y: nat, d: nat)
    requires d > 0 && x % d == 0 && y % d == 0
    ensures (x + y) % d == 0
  {
    assert x == (x / d) * d && y == (y / d) * d;
    DivModUnique(x + y, d, x / d + y / d, 0);
  }

  /** A mask of w bits only sees the w low bits. */
  lemma {:induction false} AndTruncates(x: nat, m: nat, w: nat)
    requires m < Pow2(w)
    ensures And(x, m) == And(x % Pow2(w), m)
  {
    if w == 0 {
      AndZero(x);
      AndZero(x % 1);
    } else {
      var p := Pow2(w - 1);
      ModDouble(x, p);
      AndTruncates(x / 2, m / 2, w - 1);
      AndBit(x, m / 2, m % 2);
      AndBit(x % (2 * p), m / 2, m % 2);
      DivModUnique(x % (2 * p), 2, (x / 2) % p, x % 2);
    }
  }

  /** Clearing the two tag bits leaves a word that has none, and is all it does to a word. */
  lemma ClearTags(x: nat)
    ensures And(x, WORD64 - 4) % 4 == 0 && And(x, WORD64 - 4) < WORD64
    ensures x < WORD64 ==> And(x, WORD64 - 4) == x - x % 4
  {
    Pow2Values();
    Pow2Words();
    AndTruncates(x, WORD64 - 4, 64);
    MaskHigh(x % WORD64, 2, 64);
    Multiple(x % WORD64, 4);
    if x < WORD64 {
      ModSmall(x, WORD64);
    }
  }

  /** Bit number k of a word. */
  function Bit(x: nat, k: nat): nat { x / Pow2(k) % 2 }

  lemma BitOfDouble(x: nat, b: nat, k: nat)
    requires b < 2
    ensures Bit(2 * x + b, 0) == b && Bit(2 * x + b, k + 1) == Bit(x, k)
  {
    var p := Pow2(k);
    assert Pow2(0) == 1;
    DivModUnique(2 * x + b, 2, x, b);
    assert 2 * x + b == (x / p) * (2 * p) + (2 * (x % p) + b) by {
      assert x == (x / p) * p + x % p;
      assert 2 * ((x / p) * p) == (x / p) * (2 * p);
    }
    DivModUnique(2 * x + b, 2 * p, x / p, 2 * (x % p) + b);
  }

  /** Conjunction and disjunction, bit by bit. */
  lemma {:induction false} AndOrBits(x: nat, y: nat, k: nat)
    ensures Bit(And(x, y), k) == if Bit(x, k) == 1 && Bit(y, k) == 1 then 1 else 0
    ensures Bit(Or(x, y), k) == if Bit(x, k) == 1 || Bit(y, k) == 1 then 1 else 0
  {
    var h, g, a, b := x / 2, y / 2, x % 2, y % 2;
    assert And(x, y) == 2 * And(h, g) + a * b && Or(x, y) == 2 * Or(h, g) + if a + b == 0 then 0 else 1 by {
      HalvesOfNothing(h, g);
    }
    var j := if k == 0 then 0 else k - 1;
    BitOfDouble(h, a, j);
    BitOfDouble(g, b, j);
    BitOfDouble(And(h, g), a * b, j);
    BitOfDouble(Or(h, g), if a + b == 0 then 0 else 1, j);
    if k > 0 {
      AndOrBits(h, g, k - 1);
    }
  }

  lemma HalvesOfNothing(x: nat, y: nat)
    ensures And(0, x) == And(x, 0) == 0 && Or(0, x) == Or(x, 0) == x
    ensures And(0, y) == And(y, 0) == 0 && Or(0, y) == Or(y, 0) == y
  {
  }

  lemma {:induction false} OrIdempotent(x: nat)
    ensures Or(x, x) == x
  {
    if x != 0 {
      OrIdempotent(x / 2);
    }
  }
}
