/** The hash of byte and wide strings, computed on 32-bit words without a 56-bit product. */
module StringHash {
  import opened Bits

  type Byte = b: nat | b < 256
  type Word32 = w: nat | w < WORD32

  /** The multiplier whose two halves of 14 bits are 0x0065 and 0x260D. */
  const MULTIPLIER: nat := 1664525
  const MODULUS: nat := 0x1000_0000

  /** The inverse of the multiplier modulo 2^28. */
  const INVERSE: nat := 249583813

  /** Addition and multiplication of 32-bit words wrap around. */
  function Add32(x: nat, y: nat): Word32 { (x + y) % WORD32 }
  function Mul32(x: nat, y: nat): Word32 { (x * y) % WORD32 }

  /** One step of the hash, as if on unbounded integers. */
  function Step(h: nat, c: nat): nat {
    ((h + c) * MULTIPLIER) % MODULUS
  }

  /** The hash of a string of code points, from an initial hash. */
  function Hash(h: nat, cs: seq<nat>): nat {
    if cs == [] then h % MODULUS else Step(Hash(h, cs[..|cs| - 1]), cs[|cs| - 1])
  }

  /** The product by the multiplier as the runtime computes it, split so that nothing leaves 32 bits. */
  function SplitProduct(hash: Word32): nat {
    var low := And(hash, 16383);
    var upper := And(Add32(Mul32(0x260D, hash / 16384), Mul32(0x0065, low)), 16383);
    And(Add32(Mul32(0x260D, low), Mul32(upper, 16384)), 0x0FFFFFFF)
  }

  lemma LowBits(x: nat)
    ensures And(x, 16383) == x % 16384 && And(x, 0x0FFFFFFF) == x % MODULUS
  {
    Pow2Values();
    MaskLow(x, 14);
    MaskLow(x, 28);
  }

  lemma SplitProductIsProduct(hash: Word32)
    ensures SplitProduct(hash) == (hash * MULTIPLIER) % MODULUS
  {
    hide And;
    var low, high := hash % 16384, hash / 16384;
    var cross := 0x260D * high + 0x0065 * low;
    LowBits(hash);
    assert Add32(Mul32(0x260D, high), Mul32(0x0065, low)) == cross by {
      ModSmall(0x260D * high, WORD32);
      ModSmall(0x0065 * low, WORD32);
      ModSmall(cross, WORD32);
    }
    LowBits(cross);
    var upper := cross % 16384;
    assert Add32(Mul32(0x260D, low), Mul32(upper, 16384)) == 0x260D * low + upper * 16384 by {
      ModSmall(0x260D * low, WORD32);
      ModSmall(upper * 16384, WORD32);
      ModSmall(0x260D * low + upper * 16384, WORD32);
    }
    LowBits(0x260D * low + upper * 16384);
    Recombine(hash, low, high, cross);
  }

  /** No 32-bit operation of a step loses a bit that matters, even where the sum h + c wraps. */
  lemma SplitStepIsStep(h: Word32, c: Word32)
    ensures SplitProduct(Add32(h, c)) == Step(h, c)
  {
    SplitProductIsProduct(Add32(h, c));
    Congruent(h + c);
  }

  lemma Recombine(hash: nat, low: nat, high: nat, cross: nat)
    requires hash == high * 16384 + low && cross == 0x260D * high + 0x0065 * low
    ensures (0x260D * low + (cross % 16384) * 16384) % MODULUS == (hash * MULTIPLIER) % MODULUS
  {
    var k := cross / 16384 + 0x0065 * high;
    var y := 0x260D * low + (cross % 16384) * 16384;
    assert hash * MULTIPLIER == 0x260D * low + cross * 16384 + 0x0065 * high * 0x1000_0000;
    assert cross == cross / 16384 * 16384 + cross % 16384;
    SameRemainder(hash * MULTIPLIER, y, MODULUS, k);
  }

  /** The step only depends on the sum modulo 2^28, which 32-bit wrap-around keeps. */
  lemma Congruent(x: nat)
    ensures (x % WORD32 * MULTIPLIER) % MODULUS == (x * MULTIPLIER) % MODULUS
    ensures (x % MODULUS * MULTIPLIER) % MODULUS == (x * MULTIPLIER) % MODULUS
  {
    assert x == x % WORD32 + WORD32 * (x / WORD32) && x == x % MODULUS + MODULUS * (x / MODULUS);
    SameRemainder(x * MULTIPLIER, x % WORD32 * MULTIPLIER, MODULUS, 16 * (x / WORD32) * MULTIPLIER);
    SameRemainder(x * MULTIPLIER, x % MODULUS * MULTIPLIER, MODULUS, x / MODULUS * MULTIPLIER);
  }

  method ByteArrayDataStringHash(data: seq<Byte>, initialHash: Word32) returns (hash: Word32)
    ensures hash == Hash(initialHash, data)
  {
    LowBits(initialHash);
    hash := And(initialHash, 0x0FFFFFFF);
    for i := 0 to |data|
      invariant hash == Hash(initialHash, data[..i]) < MODULUS
    {
      SplitStepIsStep(hash, data[i]);
      assert data[..i + 1][..i] == data[..i];
      hash := SplitProduct(Add32(hash, data[i]));
    }
    assert data[..|data|] == data;
  }

  method WideStringHash(data: seq<Word32>, initialHash: Word32) returns (hash: Word32)
    ensures hash == Hash(initialHash, data)
  {
    LowBits(initialHash);
    hash := And(initialHash, 0x0FFFFFFF);
    for i := 0 to |data|
      invariant hash == Hash(initialHash, data[..i]) < MODULUS
    {
      SplitStepIsStep(hash, data[i]);
      assert data[..i + 1][..i] == data[..i];
      hash := SplitProduct(Add32(hash, data[i]));
    }
    assert data[..|data|] == data;
  }

  /** Hashing on from a hash is hashing the concatenation. */
  lemma {:induction false} HashConcatenates(h: nat, a: seq<nat>, b: seq<nat>)
    ensures Hash(Hash(h, a), b) == Hash(h, a + b)
    decreases |b|
  {
    HashIsReduced(h, a);
    if b == [] {
      assert a + b == a;
    } else {
      var n := |b| - 1;
      HashConcatenates(h, a, b[..n]);
      assert (a + b)[..|a + b| - 1] == a + b[..n];
    }
  }

  lemma HashIsReduced(h: nat, a: seq<nat>)
    ensures Hash(h, a) < MODULUS && Hash(h, a) % MODULUS == Hash(h, a)
  {
  }

  function Power(n: nat): nat {
    if n == 0 then 1 else MULTIPLIER * Power(n - 1)
  }

  /** The sum of c[j] * M^(n - j) for i <= j < n. */
  function Weighted(cs: seq<nat>, i: nat, n: nat): nat
    requires i <= n && n <= |cs|
    decreases n - i
  {
    if i == n then 0 else cs[i] * Power(n - i) + Weighted(cs, i + 1, n)
  }

  lemma {:induction false} WeightedNext(cs: seq<nat>, i: nat, n: nat)
    requires i <= n < |cs|
    ensures Weighted(cs, i, n + 1) == (Weighted(cs, i, n) + cs[n]) * MULTIPLIER
    decreases n - i
  {
    if i == n {
      assert Power(1) == MULTIPLIER * Power(0);
      assert Weighted(cs, n + 1, n + 1) == 0;
    } else {
      WeightedNext(cs, i + 1, n);
      assert cs[i] * Power(n + 1 - i) == cs[i] * Power(n - i) * MULTIPLIER;
    }
  }

  /** The closed form: the hash is h * M^n + sum of c[i] * M^(n - i), modulo 2^28. */
  lemma {:induction false} HashClosedForm(h: nat, cs: seq<nat>, n: nat)
    requires n <= |cs|
    ensures Hash(h, cs[..n]) == (h * Power(n) + Weighted(cs, 0, n)) % MODULUS
  {
    if n > 0 {
      var p := n - 1;
      HashClosedForm(h, cs, p);
      WeightedNext(cs, 0, p);
      assert cs[..n][..p] == cs[..p];
      var x := h * Power(p) + Weighted(cs, 0, p);
      StepOfRemainder(x, cs[p]);
      assert h * Power(n) == h * Power(p) * MULTIPLIER;
    }
  }

  lemma StepOfRemainder(x: nat, c: nat)
    ensures Step(x % MODULUS, c) == ((x + c) * MULTIPLIER) % MODULUS
  {
    Congruent(x + c);
    Congruent(x % MODULUS + c);
    SameRemainder(x + c, x % MODULUS + c, MODULUS, x / MODULUS);
  }

  /** The multiplier is invertible, so a product determines its factor modulo 2^28. */
  lemma ProductsDecide(x: nat, y: nat)
    ensures (x * MULTIPLIER) % MODULUS == (y * MULTIPLIER) % MODULUS <==> x % MODULUS == y % MODULUS
  {
    Undo(x);
    Undo(y);
    Congruent(x);
    Congruent(y);
  }

  lemma Undo(x: nat)
    ensures ((x * MULTIPLIER) % MODULUS * INVERSE) % MODULUS == x % MODULUS
  {
    var y := x * MULTIPLIER;
    SameRemainder(y * INVERSE, x, MODULUS, x * 1547629);
    assert y == y % MODULUS + MODULUS * (y / MODULUS);
    SameRemainder(y * INVERSE, y % MODULUS * INVERSE, MODULUS, y / MODULUS * INVERSE);
  }

  lemma SumsDecide(h: nat, c: nat, d: nat)
    ensures (h + c) % MODULUS == (h + d) % MODULUS <==> c % MODULUS == d % MODULUS
  {
    if c % MODULUS == d % MODULUS {
      SameRemainder(h + c, h + d, MODULUS, c / MODULUS - d / MODULUS);
    }
    if (h + c) % MODULUS == (h + d) % MODULUS {
      SameRemainder(c, d, MODULUS, (h + c) / MODULUS - (h + d) / MODULUS);
    }
  }

  lemma StepDecides(h: nat, c: nat, d: nat)
    ensures Step(h, c) == Step(h, d) <==> c % MODULUS == d % MODULUS
    ensures Step(c, h) == Step(d, h) <==> c % MODULUS == d % MODULUS
  {
    ProductsDecide(h + c, h + d);
    SumsDecide(h, c, d);
  }

  lemma HashOfOneMore(h: nat, cs: seq<nat>, c: nat)
    ensures Hash(h, cs + [c]) == Step(Hash(h, cs), c) == Hash(h, cs + [c]) % MODULUS
  {
    assert (cs + [c])[..|cs|] == cs;
    HashIsReduced(h, cs + [c]);
  }

  /** Two hashes go on alike over the same characters only if they were equal modulo 2^28. */
  lemma {:induction false} HashInjective(h: nat, h': nat, cs: seq<nat>)
    ensures Hash(h, cs) == Hash(h', cs) <==> h % MODULUS == h' % MODULUS
  {
    if cs != [] {
      var n := |cs| - 1;
      HashInjective(h, h', cs[..n]);
      HashIsReduced(h, cs[..n]);
      HashIsReduced(h', cs[..n]);
      StepDecides(cs[n], Hash(h, cs[..n]), Hash(h', cs[..n]));
    }
  }

  /** Changing one character changes the hash exactly when it changes the character modulo 2^28. */
  lemma OneCharacter(h: nat, cs: seq<nat>, i: nat, c: nat)
    requires i < |cs|
    ensures Hash(h, cs[i := c]) == Hash(h, cs) <==> c % MODULUS == cs[i] % MODULUS
  {
    var before, after := cs[..i], cs[i + 1..];
    assert cs == before + [cs[i]] + after && cs[i := c] == before + [c] + after;
    HashConcatenates(h, before + [cs[i]], after);
    HashConcatenates(h, before + [c], after);
    HashInjective(Hash(h, before + [c]), Hash(h, before + [cs[i]]), after);
    HashOfOneMore(h, before, c);
    HashOfOneMore(h, before, cs[i]);
    StepDecides(Hash(h, before), c, cs[i]);
  }

  /** Changing exactly one byte of a byte string always changes its hash. */
  lemma OneByte(h: Word32, data: seq<Byte>, i: nat, b: Byte)
    requires i < |data| && b != data[i]
    ensures Hash(h, data[i := b]) != Hash(h, data)
  {
    OneCharacter(h, data, i, b);
  }
}
