/** Machine words as natural numbers: powers of two, the C bit operators defined
    bit by bit, and the few facts about them that the division routines rest on. */
module Words {
  const B32: int := 0x1_0000_0000
  const B63: int := 0x8000_0000_0000_0000
  const B64: int := 0x1_0000_0000_0000_0000
  const B127: int := 0x8000_0000_0000_0000_0000_0000_0000_0000
  const B128: int := 0x1_0000_0000_0000_0000_0000_0000_0000_0000

  function Pow2(k: nat): (p: nat)
    ensures p > 0
  {
    if k == 0 then 1 else 2 * Pow2(k - 1)
  }

  /** C shifts of an unsigned word, and the bits a right shift drops. */
  function Shr(x: nat, k: nat): nat {
    DivModFacts(x, Pow2(k));
    x / Pow2(k)
  }

  function Low(x: nat, k: nat): nat {
    DivModFacts(x, Pow2(k));
    x % Pow2(k)
  }

  function Shl64(x: nat, k: nat): nat { U64(x * Pow2(k)) }
  function Shl32(x: nat, k: nat): nat { U32(x * Pow2(k)) }

  lemma ShrLow(x: nat, k: nat)
    ensures x == Shr(x, k) * Pow2(k) + Low(x, k) && Low(x, k) < Pow2(k)
    ensures Shr(x, k) <= x
  {
    DivModFacts(x, Pow2(k));
  }

  /** Reduction of an exact value to an unsigned 64-bit (32-bit, 128-bit) word. */
  function U32(x: int): nat { x % B32 }
  function U64(x: int): nat { x % B64 }
  function U128(x: int): nat { x % B128 }

  /** Two's complement reading of a 64-bit word. */
  function ToSigned64(x: nat): int
    requires x < B64
  {
    if x < B63 then x else x - B64
  }

  function Or(a: nat, b: nat): nat {
    if a == 0 then b else if b == 0 then a
    else 2 * Or(a / 2, b / 2) + (if a % 2 == 1 || b % 2 == 1 then 1 else 0)
  }

  function And(a: nat, b: nat): nat {
    if a == 0 || b == 0 then 0
    else 2 * And(a / 2, b / 2) + (if a % 2 == 1 && b % 2 == 1 then 1 else 0)
  }

  function Xor(a: nat, b: nat): nat {
    if a == 0 then b else if b == 0 then a
    else 2 * Xor(a / 2, b / 2) + (if a % 2 != b % 2 then 1 else 0)
  }

  /** The product, named so that invariants carrying several of them stay linear. */
  function Times(a: nat, b: nat): nat {
    if a == 0 then 0 else Times(a - 1, b) + b
  }

  lemma {:induction false} TimesIsProduct(a: nat, b: nat)
    ensures Times(a, b) == a * b
  {
    if a > 0 { TimesIsProduct(a - 1, b); }
  }

  /** Number of significant bits; count-leading-zeros of a w-bit word is w minus it. */
  function BitLen(x: nat): nat {
    if x == 0 then 0 else 1 + BitLen(x / 2)
  }

  /** Count trailing zeros of a nonzero word. */
  function Ctz(x: nat): nat
    requires x > 0
  {
    if x % 2 == 1 then 0 else 1 + Ctz(x / 2)
  }

  lemma {:induction false} Pow2Add(a: nat, b: nat)
    ensures Pow2(a + b) == Pow2(a) * Pow2(b)
  {
    if a > 0 {
      Pow2Add(a - 1, b);
      DoubleFactor(Pow2(a - 1), Pow2(b));
    }
  }

  /** A difference of bit counts in 32-bit arithmetic. */
  lemma WrappedDifference(a: nat, b: nat)
    requires a <= 64 && b <= 64
    ensures U32(a - b) == if a >= b then a - b else B32 - (b - a)
  {}

  lemma DoubleFactor(x: nat, y: nat)
    ensures 2 * (x * y) == (2 * x) * y
  {}

  lemma {:induction false} Pow2Mono(a: nat, b: nat)
    requires a <= b
    ensures Pow2(a) <= Pow2(b)
    decreases b
  {
    if a < b { Pow2Mono(a, b - 1); }
  }

  lemma Pow2Values()
    ensures Pow2(9) == 512 && Pow2(12) == 4096
    ensures Pow2(31) == 0x8000_0000 && Pow2(32) == B32
    ensures Pow2(63) == B63 && Pow2(64) == B64
  {
    assert Pow2(8) == 256 by { assert Pow2(4) == 16; Pow2Add(4, 4); }
    Pow2Add(8, 8);
    assert Pow2(16) == 0x1_0000;
    Pow2Add(16, 16);
    Pow2Add(32, 32);
    assert Pow2(9) == 2 * Pow2(8) && Pow2(32) == 2 * Pow2(31) && Pow2(64) == 2 * Pow2(63);
    Pow2Add(8, 4);
  }

  lemma Pow2WideValues()
    ensures Pow2(127) == B127 && Pow2(128) == B128
  {
    Pow2Values();
    Pow2Add(64, 64);
    assert Pow2(128) == 2 * Pow2(127);
  }

  lemma {:induction false} BitLenBounds(x: nat)
    requires x > 0
    ensures BitLen(x) > 0 && Pow2(BitLen(x) - 1) <= x < Pow2(BitLen(x))
  {
    if x > 1 { BitLenBounds(x / 2); }
  }

  lemma {:induction false} BitLenAtMost(x: nat, w: nat)
    requires x < Pow2(w)
    ensures BitLen(x) <= w
  {
    if x > 0 {
      BitLenBounds(x);
      if BitLen(x) > w { Pow2Mono(w, BitLen(x) - 1); }
    }
  }

  lemma {:induction false} BitLenMono(x: nat, y: nat)
    requires x <= y
    ensures BitLen(x) <= BitLen(y)
  {
    if x > 0 { BitLenMono(x / 2, y / 2); }
  }

  /** Words with no common bit: a disjunction is a sum. */
  lemma {:induction false} OrDisjoint(a: nat, b: nat, k: nat)
    requires a % Pow2(k) == 0 && b < Pow2(k)
    ensures Or(a, b) == a + b
  {
    if k > 0 && a > 0 && b > 0 {
      var p := Pow2(k - 1);
      var h := a / (2 * p);
      assert a == 2 * (h * p) by { assert a == (2 * p) * h; }
      assert a / 2 == h * p && a % 2 == 0;
      MultipleMod(h, p);
      OrDisjoint(a / 2, b / 2, k - 1);
    }
  }

  lemma MultipleMod(h: nat, p: nat)
    requires p > 0
    ensures (h * p) % p == 0 && (h * p) / p == h
  {
    DivModUnique(h * p, p, h, 0);
  }

  lemma DivModUnique(x: int, d: int, q: int, r: int)
    requires d > 0 && x == q * d + r && 0 <= r < d
    ensures x / d == q && x % d == r
  {
    var q0, r0 := x / d, x % d;
    assert x == q0 * d + r0;
    if q > q0 { ProductGap(q, q0, d); }
    if q < q0 { ProductGap(q0, q, d); }
  }

  lemma DivModFacts(x: int, d: int)
    requires d > 0
    ensures x == x / d * d + x % d && 0 <= x % d < d
    ensures x >= 0 ==> 0 <= x / d <= x
  {
    if x / d < 0 { ProductGap(0, x / d, d); }
    if x >= 0 { ProductMono(1, d, x / d); }
  }

  lemma Distribute(r: int, p: int, b: int, w: int)
    ensures (r * p + b) * w == r * (p * w) + b * w
  {
    assert (r * p) * w == r * (p * w);
  }

  lemma ProductMono(a: nat, b: nat, w: nat)
    requires a <= b
    ensures a * w <= b * w
  {
    assert b * w == a * w + (b - a) * w;
  }

  lemma ProductGap(a: int, b: int, d: int)
    requires a > b && d > 0
    ensures a * d >= b * d + d
  {
    var k := a - b - 1;
    assert k * d >= 0;
    assert (b + k + 1) * d == b * d + k * d + d;
  }

  /** Dividing by 2p is dividing by 2 and then by p. */
  lemma DivModDouble(x: nat, p: nat)
    requires p > 0
    ensures x / (2 * p) == x / 2 / p && x % (2 * p) == 2 * (x / 2 % p) + x % 2
  {
    var h, l := (x / 2) / p, (x / 2) % p;
    assert x / 2 == h * p + l;
    assert x == h * (2 * p) + (2 * l + x % 2) by {
      assert h * (2 * p) == 2 * (h * p);
    }
    DivModUnique(x, 2 * p, h, 2 * l + x % 2);
  }

  lemma AndOdd(x: nat, m: nat)
    ensures And(x, 2 * m + 1) == 2 * And(x / 2, m) + x % 2
  {
    if x > 0 { assert (2 * m + 1) / 2 == m && (2 * m + 1) % 2 == 1; }
  }

  /** A left shift by w of a value split at p, in a word of p * w, keeps the low part. */
  lemma DropHigh(r: nat, p: nat, b: nat, w: nat)
    requires b < p && w > 0
    ensures p * w > 0 && ((r * p + b) * w) % (p * w) == b * w && b * w + w <= p * w
  {
    Distribute(r, p, b, w);
    ProductMono(b + 1, p, w);
    assert (b + 1) * w == b * w + w;
    DivModUnique((r * p + b) * w, p * w, r, b * w);
  }

  /** Masking with k one bits is reduction modulo 2^k. */
  lemma {:induction false} AndMask(x: nat, k: nat)
    ensures And(x, Pow2(k) - 1) == x % Pow2(k)
  {
    if k == 0 {
    } else {
      var p := Pow2(k - 1);
      assert Pow2(k) - 1 == 2 * (p - 1) + 1;
      AndOdd(x, p - 1);
      AndMask(x / 2, k - 1);
      DivModDouble(x, p);
    }
  }

  lemma XorOdd(x: nat, m: nat)
    ensures Xor(x, 2 * m + 1) == 2 * Xor(x / 2, m) + 1 - x % 2
  {
    assert (2 * m + 1) / 2 == m && (2 * m + 1) % 2 == 1;
  }

  /** Exclusive or with k one bits is complement within k bits. */
  lemma {:induction false} XorOnes(x: nat, k: nat)
    requires x < Pow2(k)
    ensures Xor(x, Pow2(k) - 1) == Pow2(k) - 1 - x
  {
    if k > 0 {
      var p := Pow2(k - 1);
      XorOnes(x / 2, k - 1);
      XorOdd(x, p - 1);
      assert Pow2(k) - 1 == 2 * (p - 1) + 1;
    }
  }

  lemma {:induction false} AndSelf(x: nat)
    ensures And(x, x) == x
  {
    if x > 0 { AndSelf(x / 2); }
  }

  /** The test d & (d - 1) == 0 recognises exactly the powers of two, and then
      the trailing zeros give the exponent. */
  lemma {:induction false} PowerOfTwoTest(d: nat)
    requires d > 0
    ensures And(d, d - 1) == 0 <==> d == Pow2(Ctz(d))
  {
    if d % 2 == 1 {
      AndSelf(d / 2);
      if d > 1 { assert (d - 1) / 2 == d / 2; }
    } else {
      PowerOfTwoTest(d / 2);
      assert (d - 1) / 2 == d / 2 - 1;
    }
  }
}
