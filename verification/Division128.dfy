/** 128-bit division: Algorithm D on two 32-bit digits for a 64-bit divisor, and the
    shift-subtract loop for a longer one. */
module WideDivision {
  import opened Words
  import SplitDivision

  /** The estimate q is too big when it fails the source's test ... */
  lemma EstimateTooBig(un: nat, next: nat, q: nat, rhat: nat, vn1: nat, vn0: nat)
    requires q * vn1 + rhat == un && q * vn0 > B32 * rhat + next
    ensures q > 0 && q * (vn1 * B32 + vn0) > un * B32 + next
  {
    SplitEstimate(q, vn1, vn0);
    assert q == 0 ==> q * vn0 == 0;
  }

  /** ... and not too big when it passes. */
  lemma EstimateFits(un: nat, next: nat, q: nat, rhat: nat, vn1: nat, vn0: nat)
    requires q * vn1 + rhat == un && q * vn0 <= B32 * rhat + next
    ensures q * (vn1 * B32 + vn0) <= un * B32 + next
  {
    SplitEstimate(q, vn1, vn0);
  }

  lemma SplitEstimate(q: nat, vn1: nat, vn0: nat)
    ensures q * (vn1 * B32 + vn0) == (q * vn1) * B32 + q * vn0
  {
    assert q * (vn1 * B32) == (q * vn1) * B32;
  }

  /** The numerator is below v * B32, so a digit of B32 is too big. */
  lemma DigitTooBig(un: nat, next: nat, q: nat, v: nat)
    requires un < v && next < B32 && q >= B32
    ensures q * v > un * B32 + next
  {
    ProductMono(B32 as nat, q, v);
  }

  lemma DigitBelow(un: nat, next: nat, q: nat, v: nat)
    requires un < v && next < B32 && q * v <= un * B32 + next
    ensures q < B32
  {
    if q >= B32 { DigitTooBig(un, next, q, v); }
  }

  /** The first estimate is never below the digit and at most B32 + 1. */
  lemma FirstEstimate(un: nat, next: nat, vn1: nat, vn0: nat)
    requires SplitDivision.B31 <= vn1 < B32 && vn0 < B32 && next < B32 && un < vn1 * B32 + vn0
    ensures var q := Quotient(un, vn1);
            var rhat := U64(un - U64(q * vn1));
            rhat < vn1 && Estimate(un, next, q, rhat, vn1, vn0)
  {
    DivModFacts(un, vn1);
    var q, rhat := Quotient(un, vn1), un % vn1;
    var product: nat := q * vn1;
    assert U64(un - U64(product)) == rhat;
    if q >= B32 + 2 { ProductMono((B32 + 2) as nat, q, vn1); }
    FirstBound(un, next, q, vn1, vn0);
  }

  lemma FirstBound(un: nat, next: nat, q: nat, vn1: nat, vn0: nat)
    requires un < q * vn1 + vn1 && next < B32
    ensures un * B32 + next < (q + 1) * (vn1 * B32 + vn0)
  {
    assert (q + 1) * vn1 == q * vn1 + vn1;
    SplitEstimate(q + 1, vn1, vn0);
    var m: nat := (q + 1) * vn0;
  }

  /** The loop's invariant: q is not below the digit and rhat is its remainder. */
  ghost predicate Estimate(un: nat, next: nat, q: nat, rhat: nat, vn1: nat, vn0: nat) {
    && vn0 < B32 && next < B32 && un < vn1 * B32 + vn0
    && q * vn1 + rhat == un && q <= B32 + 1
    && un * B32 + next < (q + 1) * (vn1 * B32 + vn0)
  }

  /** The source's test, in wrapped words. */
  predicate TooBig(q: nat, vn0: nat, rhat: nat, next: nat) {
    q >= B32 || U64(q * vn0) > U64(U64(B32 * rhat) + next)
  }

  /** Neither side of the comparison wraps once q is a digit. */
  lemma TestIsExact(q: nat, vn0: nat, rhat: nat, next: nat)
    requires vn0 < B32 && next < B32 && rhat < B32
    ensures TooBig(q, vn0, rhat, next) <==> q >= B32 || q * vn0 > B32 * rhat + next
  {
    if q < B32 {
      var product: nat := q * vn0;
      ProductMono(q, (B32 - 1) as nat, vn0);
      ComparisonExact(product, rhat, next);
    }
  }

  lemma ComparisonExact(product: nat, rhat: nat, next: nat)
    requires product < B64 && rhat < B32 && next < B32
    ensures U64(product) == product && U64(U64(B32 * rhat) + next) == B32 * rhat + next
  {}

  /** One correction: the estimate was too big, so its predecessor still bounds the
      numerator; and b * rhat can no longer be exceeded once rhat has reached b, which
      is the early break. */
  lemma CorrectionStep(un: nat, next: nat, q: nat, rhat: nat, vn1: nat, vn0: nat)
    requires Estimate(un, next, q, rhat, vn1, vn0) && rhat < B32 && TooBig(q, vn0, rhat, next)
    requires vn1 < B32
    ensures q > 0 && U64(q - 1) == q - 1 && U64(rhat + vn1) == rhat + vn1
    ensures Estimate(un, next, U64(q - 1), U64(rhat + vn1), vn1, vn0)
    ensures U64(rhat + vn1) >= B32 ==> IsDigit(un, next, U64(q - 1), vn1, vn0)
  {
    TestIsExact(q, vn0, rhat, next);
    if q >= B32 { DigitTooBig(un, next, q, vn1 * B32 + vn0); }
    else { EstimateTooBig(un, next, q, rhat, vn1, vn0); }
    assert (q - 1) * vn1 + vn1 == q * vn1;
    if rhat + vn1 >= B32 {
      ProductMono(q - 1, B32 as nat, vn0);
      EstimateFits(un, next, q - 1, rhat + vn1, vn1, vn0);
      DigitBelow(un, next, q - 1, vn1 * B32 + vn0);
    }
  }

  /** q is the quotient digit of un:next by the divisor. */
  ghost predicate IsDigit(un: nat, next: nat, q: nat, vn1: nat, vn0: nat) {
    q * (vn1 * B32 + vn0) <= un * B32 + next < (q + 1) * (vn1 * B32 + vn0) && q < B32
  }

  /** An estimate that passes the test is the digit. */
  lemma Corrected(un: nat, next: nat, q: nat, rhat: nat, vn1: nat, vn0: nat)
    requires Estimate(un, next, q, rhat, vn1, vn0) && rhat < B32 && !TooBig(q, vn0, rhat, next)
    ensures IsDigit(un, next, q, vn1, vn0)
  {
    TestIsExact(q, vn0, rhat, next);
    EstimateFits(un, next, q, rhat, vn1, vn0);
    DigitBelow(un, next, q, vn1 * B32 + vn0);
  }

  /** One digit of the quotient: the estimate from the leading divisor digit, and the
      correction loop, which runs at most twice. */
  method QuotientDigit(un: nat, next: nat, vn1: nat, vn0: nat) returns (digit: nat, ghost steps: nat)
    requires SplitDivision.B31 <= vn1 < B32 && vn0 < B32 && next < B32 && un < vn1 * B32 + vn0
    ensures IsDigit(un, next, digit, vn1, vn0) && steps <= 2
  {
    FirstEstimate(un, next, vn1, vn0);
    var q: nat := Quotient(un, vn1);
    var rhat: nat := U64(un - U64(q * vn1));
    steps := 0;
    while TooBig(q, vn0, rhat, next)
      invariant Estimate(un, next, q, rhat, vn1, vn0) && rhat < B32
      invariant steps <= 1 && (steps == 1 ==> rhat >= vn1)
      decreases q
    {
      CorrectionStep(un, next, q, rhat, vn1, vn0);
      q := U64(q - 1);
      rhat := U64(rhat + vn1);
      steps := steps + 1;
      if rhat >= B32 { return q, steps; }
    }
    Corrected(un, next, q, rhat, vn1, vn0);
    digit := q;
  }

  function Quotient(x: nat, d: nat): nat
    requires d > 0
  {
    DivModFacts(x, d);
    x / d
  }

  /** The wrapped partial remainder is the exact one. */
  lemma PartialRemainder(un: nat, next: nat, q: nat, v: nat)
    requires v < B64 && q * v <= un * B32 + next < (q + 1) * v
    ensures U64(U64(U64(un * B32) + next) - U64(q * v)) == un * B32 + next - q * v < v
  {
    assert (q + 1) * v == q * v + v;
    WrapThree(un * B32, next, q * v);
  }

  lemma WrapThree(a: int, b: int, c: int)
    ensures U64(U64(U64(a) + b) - U64(c)) == U64(a + b - c)
  {}

  /** u1:u0 << s and v << s, with the divisor's top bit at the top. */
  lemma Normalize(u1: nat, u0: nat, v: nat, s: nat)
    requires u0 < B64 && 0 < v < B64 && u1 < v && BitLen(v) <= 64 && s == 64 - BitLen(v)
    ensures Shl64(v, s) == v * Pow2(s) && B63 <= Shl64(v, s) < B64
    ensures s == 0 ==> Shl64(v, s) == v && (u1 * B64 + u0) * Pow2(s) == u1 * B64 + u0
    ensures s > 0 ==> var un64 := Or(Shl64(u1, s), Shr(u0, 64 - s));
                      && un64 < Shl64(v, s)
                      && un64 * B64 + Shl64(u0, s) == (u1 * B64 + u0) * Pow2(s)
  {
    NormalizedDivisor(v, s);
    assert Pow2(0) == 1;
    BitLenBounds(v);
    if s > 0 { NormalizedDividend(u1, u0, v, s); }
  }

  lemma NormalizedDivisor(v: nat, s: nat)
    requires 0 < v < B64 && BitLen(v) <= 64 && s == 64 - BitLen(v)
    ensures B63 <= v * Pow2(s) <= B64 - Pow2(s) && Shl64(v, s) == v * Pow2(s)
  {
    var e := BitLen(v);
    BitLenBounds(v);
    assert Pow2(e) * Pow2(s) == B64 by { Pow2Add(e, s); Pow2Values(); }
    assert Pow2(e - 1) * Pow2(s) == B63 by { Pow2Add(e - 1, s); Pow2Values(); }
    ScaledBounds(v, Pow2(e - 1), Pow2(e), Pow2(s));
  }

  lemma ScaledBounds(v: nat, low: nat, high: nat, w: nat)
    requires low <= v < high
    ensures low * w <= v * w <= high * w - w
  {
    ProductMono(low, v, w);
    ProductMono(v + 1, high, w);
    assert (v + 1) * w == v * w + w;
  }

  lemma NormalizedDividend(u1: nat, u0: nat, v: nat, s: nat)
    requires u0 < B64 && u1 < v && 0 < s <= 63
    requires v * Pow2(s) <= B64 - Pow2(s)
    ensures var un64 := Or(Shl64(u1, s), Shr(u0, 64 - s));
            && un64 < v * Pow2(s)
            && un64 * B64 + Shl64(u0, s) == (u1 * B64 + u0) * Pow2(s)
  {
    var p, w, h, l := Pow2(64 - s), Pow2(s), Shr(u0, 64 - s), Low(u0, 64 - s);
    ShrLow(u0, 64 - s);
    Pow2Add(64 - s, s);
    Pow2Values();
    Recombine(u1, u0, h, l, p, w);
    ShiftedLow(u0, h, l, p, w);
    SplitDivision.ShrBound(u0, 64 - s, 64);
    ShiftedHigh(u1, v, w);
    var up: nat := u1 * w;
    OrDisjoint(up, h, s);
  }

  lemma ShiftedLow(u0: nat, h: nat, l: nat, p: nat, w: nat)
    requires u0 == h * p + l && l < p && w > 0 && p * w == B64
    ensures U64(u0 * w) == l * w
  {
    DropHigh(h, p, l, w);
  }

  lemma ShiftedHigh(u1: nat, v: nat, w: nat)
    requires u1 < v && 0 < w && v * w <= B64 - w
    ensures U64(u1 * w) == u1 * w && u1 * w + w <= v * w && (u1 * w) % w == 0
  {
    ProductMono(u1 + 1, v, w);
    assert (u1 + 1) * w == u1 * w + w;
    MultipleMod(u1, w);
    assert u1 * w >= 0;
  }

  lemma Recombine(u1: nat, u0: nat, h: nat, l: nat, p: nat, w: nat)
    requires p * w == B64 && u0 == h * p + l
    ensures (u1 * w + h) * B64 + l * w == (u1 * B64 + u0) * w
  {
    assert (u1 * w) * B64 == (u1 * B64) * w;
    assert (h * p) * w == h * (p * w);
    assert (u1 * B64 + (h * p + l)) * w == (u1 * B64) * w + (h * p) * w + l * w;
  }

  /** udiv128by64to64default: the quotient and remainder are exact, and each digit's
      correction loop ran at most twice. */
  method UDiv128By64(u1: nat, u0: nat, divisor: nat)
    returns (quotient: nat, r: nat, ghost steps1: nat, ghost steps0: nat)
    requires u1 < divisor < B64 && u0 < B64
    ensures quotient * divisor + r == u1 * B64 + u0 && r < divisor && quotient < B64
    ensures steps1 <= 2 && steps0 <= 2
  {
    Pow2Values();
    BitLenAtMost(divisor, 64);
    var s := 64 - BitLen(divisor);
    Normalize(u1, u0, divisor, s);
    ghost var u := u1 * B64 + u0;
    var v: nat := divisor;
    var un64: nat, un10: nat;
    if s > 0 {
      v := Shl64(v, s);
      un64 := Or(Shl64(u1, s), Shr(u0, 64 - s));
      un10 := Shl64(u0, s);
    } else {
      un64, un10 := u1, u0;
    }
    assert un64 < v && un64 * B64 + un10 == u * Pow2(s);
    var last;
    quotient, last, steps1, steps0 := TwoDigitQuotient(un64, un10, v);
    r := Shr(last, s);
    Denormalize(u, divisor, Pow2(s), quotient, last);
  }

  /** Algorithm D proper, on a normalised divisor. */
  method TwoDigitQuotient(un64: nat, un10: nat, v: nat)
    returns (quotient: nat, last: nat, ghost steps1: nat, ghost steps0: nat)
    requires B63 <= v < B64 && un64 < v && un10 < B64
    ensures un64 * B64 + un10 == quotient * v + last && last < v && quotient < B64
    ensures steps1 <= 2 && steps0 <= 2
  {
    var vn1, vn0 := v / B32, v % B32;
    var un1, un0 := un10 / B32, un10 % B32;
    var q1: nat, q0: nat;
    q1, steps1 := QuotientDigit(un64, un1, vn1, vn0);
    PartialRemainder(un64, un1, q1, v);
    var un21 := U64(U64(U64(un64 * B32) + un1) - U64(q1 * v));
    q0, steps0 := QuotientDigit(un21, un0, vn1, vn0);
    PartialRemainder(un21, un0, q0, v);
    last := U64(U64(U64(un21 * B32) + un0) - U64(q0 * v));
    quotient := U64(U64(q1 * B32) + q0);
    TwoDigits(un64, un1, un0, un21, q1, q0, v, last);
    JoinDigits(q1, q0);
    JoinDigits(un1, un0);
  }

  lemma JoinDigits(high: nat, low: nat)
    requires high < B32 && low < B32
    ensures U64(U64(high * B32) + low) == high * B32 + low < B64
  {}

  lemma TwoDigits(un64: nat, un1: nat, un0: nat, un21: nat, q1: nat, q0: nat, v: nat, last: nat)
    requires un21 == un64 * B32 + un1 - q1 * v && last == un21 * B32 + un0 - q0 * v
    ensures un64 * B64 + un1 * B32 + un0 == (q1 * B32 + q0) * v + last
  {
    assert (q1 * B32 + q0) * v == (q1 * v) * B32 + q0 * v;
  }

  /** Dividing both sides by the normalising factor. */
  lemma Denormalize(u: nat, d: nat, w: nat, q: nat, last: nat)
    requires w > 0 && d > 0 && u * w == q * (d * w) + last && last < d * w
    ensures last / w == u - q * d && u - q * d < d && last / w >= 0
  {
    assert q * (d * w) == (q * d) * w;
    assert (u - q * d) * w == last;
    DivModUnique(last, w, u - q * d, 0);
    if u - q * d >= d { ProductMono(d, u - q * d, w); }
  }

  /** (ti_int)x >> 127, read back as a 128-bit word. */
  function SignMask128(x: nat): nat
    requires x < B128
  {
    U128((if x < B127 then x else x - B128) / B127)
  }

  lemma SignMask128Decides(d: nat, r: nat)
    requires d < B128 && r < B128 && 0 - B127 <= d - r - 1 < B127
    ensures var m := SignMask128(U128(d - r - 1));
            && And(m, 1) == (if r >= d then 1 else 0)
            && And(d, m) == (if r >= d then d else 0)
  {
    if r >= d {
      assert U128(d - r - 1) == B128 + (d - r - 1);
      AllOnes128(d);
    } else {
      assert U128(d - r - 1) == d - r - 1;
    }
  }

  lemma AllOnes128(d: nat)
    requires d < B128
    ensures And((B128 - 1) as nat, 1) == 1 && And(d, (B128 - 1) as nat) == d
  {
    Pow2WideValues();
    AndMask((B128 - 1) as nat, 1);
    AndMask(d, 128);
    assert Pow2(1) == 2;
  }

  /** The shift-subtract state: k more bits of quotient to find below q, each worth
      big = d << k; the divisor register holds half of it. */
  ghost predicate Dividing(a: nat, d: nat, top: nat, k: nat, big: nat, rest: nat, shifted: nat, q: nat) {
    && 0 < d && a < B128 && k <= top + 1 <= 64 && big == d * Pow2(k)
    && a == q * big + rest && rest < big
    && q < Pow2(top + 1 - k)
    && (k > 0 ==> big == 2 * shifted) && shifted < B128
    && (shifted >= B127 ==> rest >= B127)
  }

  /** The comparison fits a signed word, and the quotient has room for a bit. */
  lemma DividingFits(a: nat, d: nat, top: nat, k: nat, big: nat, rest: nat, shifted: nat, q: nat)
    requires Dividing(a, d, top, k, big, rest, shifted, q) && k > 0
    ensures rest < B128 && 0 - B127 <= shifted - rest - 1 < B127 && q < B63
  {
    HalvedWeight(a, q, rest, shifted);
    QuotientRoom(top, k, q);
  }

  /** One iteration of the loop in exact arithmetic. */
  lemma DividingStep(a: nat, d: nat, top: nat, k: nat, big: nat, rest: nat, shifted: nat, q: nat,
                     rest1: nat, q1: nat)
    requires Dividing(a, d, top, k, big, rest, shifted, q) && k > 0
    requires rest1 == if rest >= shifted then rest - shifted else rest
    requires q1 == if rest >= shifted then 2 * q + 1 else 2 * q
    ensures Dividing(a, d, top, k - 1, shifted, rest1, shifted / 2, q1)
  {
    HalvedWeight(a, q, rest, shifted);
    HalvedDivisor(d, k, shifted);
    QuotientRoom(top, k, q);
  }

  /** What the branch-free body computes. */
  lemma BitAndRest(shifted: nat, rest: nat, q: nat)
    requires shifted < B128 && rest < B128 && 0 - B127 <= shifted - rest - 1 < B127 && q < B63
    ensures var mask := SignMask128(U128(shifted - rest - 1));
            && U128(rest - And(shifted, mask)) == (if rest >= shifted then rest - shifted else rest)
            && Or(U64(2 * q), And(mask, 1)) == (if rest >= shifted then 2 * q + 1 else 2 * q)
  {
    SignMask128Decides(shifted, rest);
    OrBit64(q, if rest >= shifted then 1 else 0);
  }

  /** The loop body as the source writes it. */
  lemma DividingIterate(a: nat, d: nat, top: nat, k: nat, big: nat, rest: nat, shifted: nat, q: nat)
    requires Dividing(a, d, top, k, big, rest, shifted, q) && k > 0
    ensures rest < B128 && var mask := SignMask128(U128(shifted - rest - 1));
            Dividing(a, d, top, k - 1, shifted, U128(rest - And(shifted, mask)), shifted / 2,
                     Or(U64(2 * q), And(mask, 1)))
  {
    DividingFits(a, d, top, k, big, rest, shifted, q);
    BitAndRest(shifted, rest, q);
    var mask := SignMask128(U128(shifted - rest - 1));
    DividingStep(a, d, top, k, big, rest, shifted, q, U128(rest - And(shifted, mask)), Or(U64(2 * q), And(mask, 1)));
  }

  lemma HalvedWeight(a: nat, q: nat, rest: nat, shifted: nat)
    requires a == q * (2 * shifted) + rest
    ensures a == (2 * q) * shifted + rest == (2 * q + 1) * shifted + (rest - shifted) && rest <= a
  {
    var part: nat := q * shifted;
    assert q * (2 * shifted) == 2 * part;
    assert (2 * q) * shifted == 2 * part && (2 * q + 1) * shifted == 2 * part + shifted;
  }

  lemma QuotientRoom(top: nat, k: nat, q: nat)
    requires 0 < k <= top + 1 <= 64 && q < Pow2(top + 1 - k)
    ensures q < B63 && 2 * q + 1 < Pow2(top + 1 - (k - 1))
  {
    Pow2Mono(top + 1 - k, 63);
    Pow2Values();
  }

  lemma HalvedDivisor(d: nat, k: nat, shifted: nat)
    requires k > 0 && d * Pow2(k) == 2 * shifted
    ensures shifted == d * Pow2(k - 1) && (k > 1 ==> shifted == 2 * (shifted / 2))
  {
    assert d * (2 * Pow2(k - 1)) == 2 * (d * Pow2(k - 1));
    if k > 1 { assert d * (2 * Pow2(k - 2)) == 2 * (d * Pow2(k - 2)); }
  }

  /** Aligning the divisor's leading bit with the dividend's. */
  lemma Aligned(a: nat, d: nat, shift: nat) returns (shifted: nat)
    requires B64 <= d <= a < B128 && shift == BitLen(a) - BitLen(d)
    ensures shift <= 63 && shifted == d * Pow2(shift) == U128(d * Pow2(shift))
    ensures Dividing(a, d, shift, shift + 1, 2 * shifted, a, shifted, 0)
  {
    ShiftFits(a, d);
    BitLenBounds(a);
    BitLenBounds(d);
    AlignedSize(d, BitLen(d), shift);
    shifted := d * Pow2(shift);
    SizeFits(a, shifted);
    Doubled(d, shift);
  }

  lemma ShiftFits(a: nat, d: nat)
    requires B64 <= d <= a < B128
    ensures BitLen(a) - BitLen(d) <= 63
  {
    Pow2Values();
    Pow2WideValues();
    BitLenAtMost(a, 128);
    BitLenBounds(d);
    if BitLen(d) <= 64 { Pow2Mono(BitLen(d), 64); }
  }

  lemma SizeFits(a: nat, shifted: nat)
    requires 0 < a < B128 && shifted < Pow2(BitLen(a)) <= 2 * shifted
    ensures a < 2 * shifted && shifted < B128 && (shifted >= B127 ==> a >= B127)
  {
    BitLenBounds(a);
    Pow2WideValues();
    BitLenAtMost(a, 128);
    Pow2Mono(BitLen(a), 128);
    if shifted >= B127 { LongDividend(a); }
  }

  lemma Doubled(d: nat, shift: nat)
    ensures 2 * (d * Pow2(shift)) == d * Pow2(shift + 1) && Pow2(0) == 1
  {
    assert d * (2 * Pow2(shift)) == 2 * (d * Pow2(shift));
  }

  lemma AlignedSize(d: nat, e: nat, shift: nat)
    requires e > 0 && Pow2(e - 1) <= d < Pow2(e)
    ensures Pow2(e + shift) <= 2 * (d * Pow2(shift)) && 0 <= d * Pow2(shift) < Pow2(e + shift)
  {
    Pow2Add(e, shift);
    Pow2Add(e - 1, shift);
    ProductMono(Pow2(e - 1), d, Pow2(shift));
    ProductMono(d + 1, Pow2(e), Pow2(shift));
    assert (d + 1) * Pow2(shift) == d * Pow2(shift) + Pow2(shift);
    assert Pow2(e + shift) == 2 * Pow2(e - 1 + shift);
  }

  lemma LongDividend(a: nat)
    requires a > 0 && Pow2(BitLen(a)) > B127
    ensures a >= B127
  {
    BitLenBounds(a);
    Pow2WideValues();
    if BitLen(a) <= 127 { Pow2Mono(BitLen(a), 127); } else { Pow2Mono(127, BitLen(a) - 1); }
  }

  /** 128-bit clz(d.high) - clz(a.high) is the difference in bit length. */
  lemma HighWordCount(x: nat)
    requires B64 <= x < B128
    ensures 0 < x / B64 < B64 && BitLen(x) == 64 + BitLen(x / B64) && 1 <= BitLen(x / B64) <= 64
  {
    Pow2Values();
    SplitDivision.JoinBitLenBy(x / B64, x % B64, 64);
    BitLenAtMost(x / B64, 64);
  }

  /** __udivmodti4 */
  method UDivModTi4(a: nat, d: nat) returns (quotient: nat, rem: nat)
    requires a < B128 && 0 < d < B128
    ensures quotient == a / d && rem == a % d
  {
    if d > a {
      DivModUnique(a, d, 0, a);
      return 0, a;
    }
    if d / B64 == 0 {
      quotient, rem := DivideBy64(a, d);
    } else {
      quotient, rem := DivideBy128(a, d);
    }
  }

  /** The divisor fits in 64 bits. */
  method DivideBy64(a: nat, d: nat) returns (quotient: nat, rem: nat)
    requires a < B128 && 0 < d < B64
    ensures quotient == a / d && rem == a % d
  {
    var high, low, qh, ql := a / B64, a % B64, 0, 0;
    ghost var steps1, steps0;
    if high < d {
      ql, rem, steps1, steps0 := UDiv128By64(high, low, d);
      DivModUnique(a, d, ql, rem);
      return ql, rem;
    }
    DivModFacts(high, d);
    qh := Quotient(high, d);
    ghost var high0 := high;
    high := high % d;
    ql, rem, steps1, steps0 := UDiv128By64(high, low, d);
    TwoDigits64(high0, high, low, qh, ql, d, rem);
    quotient := qh * B64 + ql;
    DivModUnique(a, d, quotient, rem);
  }

  lemma TwoDigits64(high0: nat, high: nat, low: nat, qh: nat, ql: nat, d: nat, rem: nat)
    requires high0 == qh * d + high && high * B64 + low == ql * d + rem
    ensures high0 * B64 + low == (qh * B64 + ql) * d + rem
  {
    assert (qh * B64 + ql) * d == (qh * d) * B64 + ql * d;
  }

  /** One iteration, up to the shift of the divisor. */
  method DividingBody(ghost a: nat, ghost d: nat, ghost top: nat, ghost k: nat, ghost big: nat, rest: nat, shifted: nat, q: nat)
    returns (rest1: nat, q1: nat)
    requires Dividing(a, d, top, k, big, rest, shifted, q) && k > 0
    ensures Dividing(a, d, top, k - 1, shifted, rest1, shifted / 2, q1)
  {
    DividingIterate(a, d, top, k, big, rest, shifted, q);
    var mask := SignMask128(U128(shifted - rest - 1));
    q1 := Or(U64(2 * q), And(mask, 1));
    rest1 := U128(rest - And(shifted, mask));
  }

  /** The divisor needs more than 64 bits: at most 64 shift-subtract iterations. */
  method DivideBy128(a: nat, d: nat) returns (quotient: nat, rem: nat)
    requires B64 <= d <= a < B128
    ensures quotient == a / d && rem == a % d
  {
    HighWordCount(a);
    HighWordCount(d);
    BitLenMono(d, a);
    var shift := (64 - BitLen(d / B64)) - (64 - BitLen(a / B64));
    ghost var aligned := Aligned(a, d, shift);
    ghost var top := shift;
    var divisor: nat, dividend: nat, low: nat := U128(d * Pow2(shift)), a, 0;
    ghost var big: nat := 2 * divisor;
    while shift >= 0
      invariant -1 <= shift <= top
      invariant Dividing(a, d, top, shift + 1, big, dividend, divisor, low)
      decreases shift
    {
      dividend, low := DividingBody(a, d, top, shift + 1, big, dividend, divisor, low);
      big := divisor;
      divisor := divisor / 2;
      shift := shift - 1;
    }
    AllBitsFound(a, d, top, big, dividend, divisor, low);
    return low, dividend;
  }

  lemma OrBit64(q: nat, t: nat)
    requires q < B63 && t <= 1
    ensures Or(U64(2 * q), t) == 2 * q + t
  {
    assert Pow2(1) == 2;
    OrDisjoint(2 * q, t, 1);
  }

  lemma AllBitsFound(a: nat, d: nat, top: nat, big: nat, rest: nat, shifted: nat, q: nat)
    requires Dividing(a, d, top, 0, big, rest, shifted, q)
    ensures q == a / d && rest == a % d
  {
    assert Pow2(0) == 1;
    assert big == d;
    DivModUnique(a, d, q, rest);
  }
}
