/** Shift-subtract division on 64-bit words: the loop shared by __udivdi3,
    __umoddi3 and __udivmoddi4, stated once as a step on (r, n, carry). */
module ShiftSubtract {
  import opened Words

  /** (di_int)x >> 63, read back as a word: all ones when x is negative, else 0. */
  function SignMask(x: nat): (m: nat)
    requires x < B64
  {
    U64(ToSigned64(x) / B63)
  }

  /** The branch-free comparison decides r >= d whenever d - r - 1 fits a signed word. */
  lemma SignMaskDecides(d: nat, r: nat)
    requires d < B64 && r < B64
    requires -B63 <= d - r - 1 < B63
    ensures var m := SignMask(U64(d - r - 1));
            && And(m, 1) == (if r >= d then 1 else 0)
            && U64(r - And(d, m)) == (if r >= d then r - d else r)
  {
    if r >= d {
      assert U64(d - r - 1) == B64 + (d - r - 1);
      AllOnes64(d);
    } else {
      assert U64(d - r - 1) == d - r - 1;
    }
  }

  lemma AllOnes64(d: nat)
    requires d < B64
    ensures And((B64 - 1) as nat, 1) == 1 && And(d, (B64 - 1) as nat) == d
  {
    Pow2Values();
    AndMask((B64 - 1) as nat, 1);
    AndMask(d, 64);
    assert Pow2(1) == 2;
  }

  /** (r << 1) | (n >> 63) and (n << 1) | carry. */
  function ShiftR(r: nat, n: nat): nat { Or(U64(2 * r), n / B63) }
  function ShiftN(n: nat, carry: nat): nat { Or(U64(2 * n), carry) }

  /** k of the s iterations are left: r is the remainder and q the quotient of the
      dividend bits already consumed, b the k bits still to come; n holds b above the
      quotient bits, all but the last of which, carry, has been shifted in. */
  ghost predicate Running(n0: nat, d: nat, s: nat, k: nat, r: nat, n: nat, carry: nat, q: nat, b: nat) {
    && n0 < B64 && 0 < d < B64 && 1 <= s <= 63 && k <= s
    && n0 == Times(Times(q, d) + r, Pow2(k)) + b && b < Pow2(k) && r < d
    && carry == q % 2 && q < Pow2(s - k)
    && n == Times(b, Pow2(64 - k)) + q / 2
    && (d >= B63 ==> s == 1 && n0 >= B63)
  }

  /** How n splits at the bit t about to be consumed. */
  lemma NextBit(s: nat, k: nat, q: nat, b: nat) returns (t: nat, b1: nat, low: nat)
    requires 1 <= k <= s <= 63 && q < Pow2(s - k) && b < Pow2(k)
    ensures t <= 1 && b == t * Pow2(k - 1) + b1 && b1 < Pow2(k - 1)
    ensures Times(b, Pow2(64 - k)) + q / 2 == t * B63 + low && low < B63
    ensures 2 * low + q % 2 == Times(b1, Pow2(65 - k)) + q
  {
    var p: nat, w: nat := Pow2(k - 1), Pow2(64 - k);
    t := if b >= p then 1 else 0;
    b1 := if b >= p then b - p else b;
    low := Times(b1, w) + q / 2;
    assert p * w == B63 by { Pow2Add(k - 1, 64 - k); Pow2Values(); }
    assert q < w by { Pow2Mono(s - k, 64 - k); }
    TimesIsProduct(b, w);
    TimesIsProduct(b1, w);
    TimesIsProduct(b1, 2 * w);
    SplitProduct(t, p, b1, w, Times(b1, w));
  }

  lemma SplitProduct(t: nat, p: nat, b1: nat, w: nat, bw: nat)
    requires b1 < p && bw == b1 * w
    ensures (t * p + b1) * w == t * (p * w) + bw && bw + w <= p * w && b1 * (2 * w) == 2 * bw
  {
    Distribute(t, p, b1, w);
    ProductMono(b1 + 1, p, w);
    assert (b1 + 1) * w == b1 * w + w;
  }

  /** The consumed value grows by one bit, and stays below the dividend. */
  lemma Consume(n0: nat, m: nat, p: nat, b: nat, t: nat, b1: nat)
    requires p > 0 && t <= 1 && b == t * p + b1
    requires n0 == m * (2 * p) + b
    ensures n0 == (2 * m + t) * p + b1 && 2 * m + t <= n0
  {
    assert m * (2 * p) == (2 * m) * p;
    assert (2 * m + t) * p == (2 * m) * p + t * p;
    ProductMono(1, p, 2 * m + t);
  }

  /** One iteration on the exact values: the next bit joins the remainder and the
      divisor comes off when it fits. */
  lemma ExactStep(n0: nat, d: nat, q: nat, r: nat, p: nat, b: nat, t: nat, b1: nat)
    requires p > 0 && t <= 1 && b == t * p + b1
    requires n0 == Times(Times(q, d) + r, 2 * p) + b && r < d
    ensures 2 * r + t <= n0 && 2 * r + t < 2 * d
    ensures 2 * r + t >= d ==> n0 == Times(Times(2 * q + 1, d) + (2 * r + t - d), p) + b1
    ensures 2 * r + t < d ==> n0 == Times(Times(2 * q, d) + (2 * r + t), p) + b1
  {
    var m := Times(q, d);
    TimesIsProduct(m + r, 2 * p);
    Consume(n0, m + r, p, b, t, b1);
    TimesIsProduct(2 * (m + r) + t, p);
    DoubledTimes(q, d);
  }

  lemma DoubledTimes(q: nat, d: nat)
    ensures Times(2 * q, d) == 2 * Times(q, d) && Times(2 * q + 1, d) == 2 * Times(q, d) + d
  {
    TimesIsProduct(q, d);
    TimesIsProduct(2 * q, d);
    assert (2 * q) * d == 2 * (q * d);
  }

  lemma OrBit(a: nat, t: nat)
    requires a % 2 == 0 && t <= 1
    ensures Or(a, t) == a + t
  {
    assert Pow2(1) == 2;
    OrDisjoint(a, t, 1);
  }

  /** The two register shifts, in exact arithmetic. */
  lemma ShiftedWords(r: nat, n: nat, carry: nat, t: nat, low: nat)
    requires t <= 1 && carry <= 1 && low < B63 && n == t * B63 + low && 2 * r + t < B64
    ensures n < B64 && ShiftR(r, n) == 2 * r + t && ShiftN(n, carry) == 2 * low + carry < B64
  {
    OrBit(2 * r, t);
    OrBit(2 * low, carry);
  }

  lemma Step(n0: nat, d: nat, s: nat, k: nat, r: nat, n: nat, carry: nat, q: nat, b: nat) returns (b1: nat)
    requires Running(n0, d, s, k, r, n, carry, q, b) && k > 0
    ensures var r1, n1 := ShiftR(r, n), ShiftN(n, carry);
            && n < B64 && r1 < B64 && n1 < B64 && -B63 <= d - r1 - 1 < B63
            && if r1 >= d then Running(n0, d, s, k - 1, r1 - d, n1, 1, 2 * q + 1, b1)
               else Running(n0, d, s, k - 1, r1, n1, 0, 2 * q, b1)
  {
    var t, low;
    t, b1, low := NextBit(s, k, q, b);
    StepFits(n0, d, k, r, q, b, t, b1);
    ShiftedWords(r, n, carry, t, low);
    AfterBit(n0, d, s, k, r, q, b, t, b1, ShiftR(r, n), ShiftN(n, carry));
  }

  /** The shifted remainder is a word, and the comparison fits a signed one. */
  lemma StepFits(n0: nat, d: nat, k: nat, r: nat, q: nat, b: nat, t: nat, b1: nat)
    requires n0 < B64 && 0 < d < B64 && k > 0 && r < d && t <= 1 && b == t * Pow2(k - 1) + b1
    requires n0 == Times(Times(q, d) + r, Pow2(k)) + b
    requires d >= B63 ==> k == 1 && q == 0 && b1 == 0 && n0 >= B63
    ensures 2 * r + t < B64 && -B63 <= d - (2 * r + t) - 1 < B63
  {
    ExactStep(n0, d, q, r, Pow2(k - 1), b, t, b1);
    if d >= B63 { FirstStep(n0, d, k, r, q, b, t, b1); }
  }

  /** The state after the bit t was consumed, in exact arithmetic. */
  lemma AfterBit(n0: nat, d: nat, s: nat, k: nat, r: nat, q: nat, b: nat, t: nat, b1: nat, r1: nat, n1: nat)
    requires n0 < B64 && 0 < d < B64 && 1 <= k <= s <= 63 && (d >= B63 ==> s == 1 && n0 >= B63)
    requires r < d && q < Pow2(s - k) && t <= 1 && b == t * Pow2(k - 1) + b1 && b1 < Pow2(k - 1)
    requires n0 == Times(Times(q, d) + r, 2 * Pow2(k - 1)) + b
    requires r1 == 2 * r + t && n1 == Times(b1, Pow2(65 - k)) + q
    ensures if r1 >= d then Running(n0, d, s, k - 1, r1 - d, n1, 1, 2 * q + 1, b1)
            else Running(n0, d, s, k - 1, r1, n1, 0, 2 * q, b1)
  {
    ExactStep(n0, d, q, r, Pow2(k - 1), b, t, b1);
    if r1 >= d { Rebuild(n0, d, s, k, r1 - d, n1, 2 * q + 1, b1); }
    else { Rebuild(n0, d, s, k, r1, n1, 2 * q, b1); }
  }

  /** The state after an iteration, from its exact values. */
  lemma Rebuild(n0: nat, d: nat, s: nat, k: nat, r: nat, n: nat, q: nat, b: nat)
    requires n0 < B64 && 0 < d < B64 && 1 <= k <= s <= 63 && (d >= B63 ==> s == 1 && n0 >= B63)
    requires r < d && b < Pow2(k - 1) && q < 2 * Pow2(s - k)
    requires n0 == Times(Times(q, d) + r, Pow2(k - 1)) + b
    requires n == Times(b, Pow2(65 - k)) + q / 2
    ensures Running(n0, d, s, k - 1, r, n, q % 2, q, b)
  {
    assert 64 - (k - 1) == 65 - k;
    assert Pow2(s - (k - 1)) == 2 * Pow2(s - k);
  }

  /** The loop body as the source writes it. */
  lemma Iterate(n0: nat, d: nat, s: nat, k: nat, r: nat, n: nat, carry: nat, q: nat, b: nat) returns (b1: nat)
    requires Running(n0, d, s, k, r, n, carry, q, b) && k > 0
    ensures var r1, n1 := ShiftR(r, n), ShiftN(n, carry);
            && n < B64 && r1 < B64 && d < B64
            && var mask := SignMask(U64(d - r1 - 1));
               Running(n0, d, s, k - 1, U64(r1 - And(d, mask)), n1, And(mask, 1), 2 * q + And(mask, 1), b1)
  {
    b1 := Step(n0, d, s, k, r, n, carry, q, b);
    SignMaskDecides(d, ShiftR(r, n));
  }

  /** A divisor with its top bit set: the single iteration compares the dividend itself. */
  lemma FirstStep(n0: nat, d: nat, k: nat, r: nat, q: nat, b: nat, t: nat, b1: nat)
    requires k == 1 && q < Pow2(0) && b1 < Pow2(0) && b == t * Pow2(0) + b1
    requires n0 == Times(Times(q, d) + r, Pow2(k)) + b
    ensures n0 == 2 * r + t
  {
    assert Pow2(0) == 1 && Pow2(1) == 2;
    assert Times(q, d) == 0;
    TimesIsProduct(r, 2);
  }

  /** clz(d) - clz(n) + 1 shifts leave a remainder below the divisor. */
  lemma InitialShift(n0: nat, d: nat, s: nat, r: nat, n: nat, b: nat)
    requires 0 < d < B64 && 0 < n0 < B64
    requires 1 <= s == BitLen(n0) - BitLen(d) + 1 <= 63
    requires r == Shr(n0, s) && n == Shl64(n0, 64 - s) && b == Low(n0, s)
    ensures Running(n0, d, s, s, r, n, 0, 0, b)
  {
    ShrLow(n0, s);
    SmallRemainder(n0, d, r, b);
    ShiftOut(s, r, b);
    if d >= B63 { TopBits(n0, d); }
    Start(n0, d, s, r, n, b);
  }

  lemma Start(n0: nat, d: nat, s: nat, r: nat, n: nat, b: nat)
    requires n0 < B64 && 0 < d < B64 && 1 <= s <= 63 && r < d && (d >= B63 ==> s == 1 && n0 >= B63)
    requires n0 == r * Pow2(s) + b && b < Pow2(s) && n == b * Pow2(64 - s)
    ensures Running(n0, d, s, s, r, n, 0, 0, b)
  {
    assert Pow2(0) == 1;
    assert Times(0, d) + r == r;
    TimesIsProduct(r, Pow2(s));
    TimesIsProduct(b, Pow2(64 - s));
  }

  lemma SmallRemainder(n0: nat, d: nat, r: nat, b: nat)
    requires 0 < d && 0 < n0 && BitLen(n0) >= BitLen(d)
    requires n0 == r * Pow2(BitLen(n0) - BitLen(d) + 1) + b
    ensures r < d
  {
    var s := BitLen(n0) - BitLen(d) + 1;
    BitLenBounds(n0); BitLenBounds(d);
    var e := Pow2(BitLen(d) - 1);
    Pow2Add(BitLen(d) - 1, s);
    if r >= e { ProductMono(e, r, Pow2(s)); }
  }

  /** Shifting left by 64 - s drops the bits that went to the remainder. */
  lemma ShiftOut(s: nat, r: nat, b: nat)
    requires s <= 64 && b < Pow2(s)
    ensures Shl64(r * Pow2(s) + b, 64 - s) == b * Pow2(64 - s)
  {
    Pow2Add(s, 64 - s);
    Pow2Values();
    DropHigh(r, Pow2(s), b, Pow2(64 - s));
  }

  lemma TopBits(n0: nat, d: nat)
    requires B63 <= d < B64 && n0 < B64 && BitLen(n0) >= BitLen(d)
    ensures BitLen(n0) == BitLen(d) == 64 && n0 >= B63
  {
    Pow2Values();
    TopBit(d);
    BitLenAtMost(n0, 64);
    BitLenBounds(n0);
  }

  lemma TopBit(d: nat)
    requires B63 <= d < B64
    ensures BitLen(d) == 64
  {
    Pow2Values();
    BitLenAtMost(d, 64);
    BitLenBounds(d);
    if BitLen(d) < 64 { Pow2Mono(BitLen(d), 63); }
  }

  /** A zero iteration count: the register holds the whole quotient. */
  lemma Finished(n0: nat, d: nat, s: nat, r: nat, n: nat, carry: nat, q: nat, b: nat)
    requires Running(n0, d, s, 0, r, n, carry, q, b)
    ensures n < B64 && Or(U64(2 * n), carry) == n0 / d && r == n0 % d
  {
    LastState(n0, d, s, r, n, carry, q, b);
    WholeQuotient(n, carry, q);
    DivModUnique(n0, d, q, r);
  }

  lemma LastState(n0: nat, d: nat, s: nat, r: nat, n: nat, carry: nat, q: nat, b: nat)
    requires Running(n0, d, s, 0, r, n, carry, q, b)
    ensures n0 == q * d + r && n == q / 2 && q < B63
  {
    assert Pow2(0) == 1;
    assert b == 0;
    TimesIsProduct(Times(q, d) + r, 1);
    TimesIsProduct(q, d);
    Pow2Mono(s, 63);
    Pow2Values();
  }

  lemma WholeQuotient(n: nat, carry: nat, q: nat)
    requires n == q / 2 && carry == q % 2 && q < B63
    ensures n < B64 && Or(U64(2 * n), carry) == q
  {
    OrBit(2 * n, carry);
  }
}
