/** Unsigned and signed 64-bit division. */
module Division {
  import opened Words
  import ShiftSubtract

  /** clz(d) - clz(n) in unsigned 32-bit arithmetic, clz(0) being the word width. */
  function ShiftCount(n: nat, d: nat): (sr: nat)
    requires BitLen(n) <= 64 && BitLen(d) <= 64
  {
    U32((64 - BitLen(d)) - (64 - BitLen(n)))
  }

  /** The three exits of the shift count: too large, 63, or at most 62. */
  lemma ShiftCountCases(n: nat, d: nat)
    requires n < B64 && 0 < d < B64
    ensures BitLen(n) <= 64 && 1 <= BitLen(d) <= 64
    ensures ShiftCount(n, d) > 63 ==> n < d
    ensures ShiftCount(n, d) == 63 ==> d == 1
    ensures ShiftCount(n, d) < 63 ==> n > 0 && ShiftCount(n, d) == BitLen(n) - BitLen(d) >= 0
  {
    WordLength(n);
    WordLength(d);
    BitLenBounds(d);
    if n >= d { BitLenMono(d, n); }
    if BitLen(d) == 1 { assert Pow2(1) == 2; }
    WrappedDifference(BitLen(n), BitLen(d));
  }

  lemma WordLength(x: nat)
    requires x < B64
    ensures BitLen(x) <= 64
  {
    Pow2Values();
    BitLenAtMost(x, 64);
  }

  lemma EarlyExits(n: nat, d: nat)
    requires d > 0
    ensures n < d ==> n / d == 0 && n % d == n
    ensures d == 1 ==> n / d == n && n % d == 0
  {
    if n < d { DivModUnique(n, d, 0, n); }
    if d == 1 { DivModUnique(n, 1, n, 0); }
  }

  /** One iteration. */
  method SubtractStep(ghost n0: nat, d: nat, ghost s: nat, ghost sr: nat, rIn: nat, nIn: nat, carryIn: nat, ghost q: nat, ghost b: nat)
    returns (r: nat, n: nat, carry: nat, ghost q1: nat, ghost b1: nat)
    requires ShiftSubtract.Running(n0, d, s, sr, rIn, nIn, carryIn, q, b) && sr > 0
    ensures ShiftSubtract.Running(n0, d, s, sr - 1, r, n, carry, q1, b1)
  {
    b1 := ShiftSubtract.Iterate(n0, d, s, sr, rIn, nIn, carryIn, q, b);
    r := Or(U64(2 * rIn), nIn / B63);
    n := Or(U64(2 * nIn), carryIn);
    var mask := ShiftSubtract.SignMask(U64(d - r - 1));
    carry := And(mask, 1);
    r := U64(r - And(d, mask));
    q1 := 2 * q + carry;
  }

  /** The loop that __udivdi3 and __umoddi3 both contain. */
  method SubtractLoop(n0: nat, d: nat, s: nat) returns (n: nat, r: nat, carry: nat)
    requires 0 < n0 < B64 && 0 < d < B64
    requires 1 <= s == BitLen(n0) - BitLen(d) + 1 <= 63
    ensures n < B64 && Or(U64(2 * n), carry) == n0 / d && r == n0 % d
  {
    var sr := s;
    r := Shr(n0, sr);
    n := Shl64(n0, 64 - sr);
    carry := 0;
    ghost var q: nat, b: nat := 0, Low(n0, sr);
    ShiftSubtract.InitialShift(n0, d, s, r, n, b);
    while sr > 0
      invariant ShiftSubtract.Running(n0, d, s, sr, r, n, carry, q, b)
    {
      r, n, carry, q, b := SubtractStep(n0, d, s, sr, r, n, carry, q, b);
      sr := sr - 1;
    }
    ShiftSubtract.Finished(n0, d, s, r, n, carry, q, b);
  }

  /** __udivdi3 */
  method UDivDi3(n: nat, d: nat) returns (quotient: nat)
    requires n < B64 && 0 < d < B64
    ensures quotient == n / d
  {
    ShiftCountCases(n, d);
    EarlyExits(n, d);
    var sr := ShiftCount(n, d);
    if sr > 63 { return 0; }
    if sr == 63 { return n; }
    var n1, r, carry := SubtractLoop(n, d, sr + 1);
    return Or(U64(2 * n1), carry);
  }

  /** __umoddi3: the same, returning the remainder. */
  method UModDi3(n: nat, d: nat) returns (remainder: nat)
    requires n < B64 && 0 < d < B64
    ensures remainder == n % d
  {
    ShiftCountCases(n, d);
    EarlyExits(n, d);
    var sr := ShiftCount(n, d);
    if sr > 63 { return n; }
    if sr == 63 { return 0; }
    var n1, r, carry := SubtractLoop(n, d, sr + 1);
    return r;
  }
}

/** __udivmoddi4: a 64-bit value is a union of two 32-bit words. */
module SplitDivision {
  import opened Words
  import opened ShiftSubtract

  const B31: int := 0x8000_0000

  function Join(high: nat, low: nat): nat { high * B32 + low }

  /** Loop shift on the four words is the loop shift on the two registers. */
  lemma SplitShift(rh: nat, rl: nat, qh: nat, ql: nat, carry: nat)
    requires rh < B32 && rl < B32 && qh < B32 && ql < B32 && carry <= 1
    ensures Join(Or(U32(2 * rh), rl / B31), Or(U32(2 * rl), qh / B31)) == ShiftR(Join(rh, rl), Join(qh, ql))
    ensures Join(Or(U32(2 * qh), ql / B31), Or(U32(2 * ql), carry)) == ShiftN(Join(qh, ql), carry)
    ensures Or(U32(2 * rh), rl / B31) < B32 && Or(U32(2 * rl), qh / B31) < B32
    ensures Or(U32(2 * qh), ql / B31) < B32 && Or(U32(2 * ql), carry) < B32
  {
    ShiftWord32(rh, rl / B31);
    ShiftWord32(rl, qh / B31);
    ShiftWord32(qh, ql / B31);
    ShiftWord32(ql, carry);
    ShiftWord64(rh, rl, qh / B31);
    ShiftWord64(qh, ql, carry);
    TopOfJoin(qh, ql);
  }

  lemma ShiftWord32(x: nat, t: nat)
    requires x < B32 && t <= 1
    ensures Or(U32(2 * x), t) == 2 * x + t - x / B31 * B32 < B32
  {
    OrBit(U32(2 * x), t);
  }

  lemma ShiftWord64(high: nat, low: nat, t: nat)
    requires high < B32 && low < B32 && t <= 1
    ensures Or(U64(2 * Join(high, low)), t) == 2 * Join(high, low) + t - high / B31 * B64
  {
    OrBit(U64(2 * Join(high, low)), t);
  }

  lemma SplitWord(x: nat)
    requires x < B64
    ensures x / B32 < B32 && Join(x / B32, x % B32) == x
  {}

  lemma TopOfJoin(high: nat, low: nat)
    requires high < B32 && low < B32
    ensures Join(high, low) / B63 == high / B31
  {}

  lemma JoinBitLen(high: nat, low: nat)
    requires low < B32 && 0 < high < B32
    ensures BitLen(Join(high, low)) == 32 + BitLen(high) <= 64
  {
    JoinBitLenBy(high, low, 32) by { Pow2Values(); }
    Pow2Values();
    BitLenAtMost(high, 32);
  }

  lemma {:induction false} JoinBitLenBy(high: nat, low: nat, k: nat)
    requires low < Pow2(k) && 0 < high
    ensures high * Pow2(k) + low > 0 && BitLen(high * Pow2(k) + low) == k + BitLen(high)
  {
    if k > 0 {
      var p := Pow2(k - 1);
      JoinBitLenBy(high, low / 2, k - 1);
      HalfJoin(high, p, low);
    }
  }

  lemma HalfJoin(high: nat, p: nat, low: nat)
    ensures (high * (2 * p) + low) / 2 == high * p + low / 2
  {
    assert high * (2 * p) == 2 * (high * p);
  }

  /** A word shifted left by 32 - s keeps exactly its s low bits. */
  lemma ShiftOut32(x: nat, s: nat)
    requires s <= 32
    ensures Shl32(x, 32 - s) == Low(x, s) * Pow2(32 - s)
  {
    ShrLow(x, s);
    Pow2Add(s, 32 - s);
    Pow2Values();
    DropHigh(Shr(x, s), Pow2(s), Low(x, s), Pow2(32 - s));
  }

  /** (high << (32 - s)) | (low >> s) and low << (32 - s): the words of a right
      shift by s that straddle the boundary. */
  lemma Straddle(high: nat, low: nat, s: nat)
    requires high < B32 && low < B32 && s <= 32
    ensures Or(Shl32(high, 32 - s), Shr(low, s)) == Low(high, s) * Pow2(32 - s) + Shr(low, s) < B32
    ensures Shl32(low, 32 - s) == Low(low, s) * Pow2(32 - s)
  {
    Pow2Values();
    ShiftOut32(high, s);
    ShiftOut32(low, s);
    ShrBound(low, s, 32);
    LowTimes(high, s, 32);
    MultipleMod(Low(high, s), Pow2(32 - s));
    var kept: nat := Low(high, s) * Pow2(32 - s);
    OrDisjoint(kept, Shr(low, s), 32 - s);
  }

  lemma ShrBound(x: nat, s: nat, width: nat)
    requires x < Pow2(width) && s <= width
    ensures Shr(x, s) < Pow2(width - s)
  {
    ShrLow(x, s);
    Pow2Add(s, width - s);
    if Shr(x, s) >= Pow2(width - s) { ProductMono(Pow2(width - s), Shr(x, s), Pow2(s)); }
  }

  lemma LowTimes(x: nat, s: nat, width: nat)
    requires s <= width
    ensures 0 <= Low(x, s) * Pow2(width - s) <= Pow2(width) - Pow2(width - s)
  {
    ShrLow(x, s);
    Pow2Add(s, width - s);
    DropHigh(0, Pow2(s), Low(x, s), Pow2(width - s));
  }

  /** n >> s and n << (64 - s) in the three shapes the source writes them. */
  lemma ShortShift(high: nat, low: nat, s: nat)
    requires high < B32 && low < B32 && s <= 32
    ensures Shr(Join(high, low), s) == Join(Shr(high, s), Or(Shl32(high, 32 - s), Shr(low, s)))
    ensures Shl64(Join(high, low), 64 - s) == Join(Shl32(low, 32 - s), 0)
    ensures Low(Join(high, low), s) == Low(low, s)
    ensures Shr(high, s) < B32 && Or(Shl32(high, 32 - s), Shr(low, s)) < B32
  {
    Straddle(high, low, s);
    ShrLow(high, s);
    ShrLow(low, s);
    var h1, h0, l1, l0 := Shr(high, s), Low(high, s), Shr(low, s), Low(low, s);
    Pow2Add(s, 32 - s);
    Pow2Add(32 - s, 32);
    Pow2Values();
    JoinShift(h1, h0, l1, l0, Pow2(s), Pow2(32 - s));
    ShortParts(Join(high, low), s, h1, h0 * Pow2(32 - s) + l1, l0);
  }

  lemma ShortParts(x: nat, s: nat, h: nat, middle: nat, l: nat)
    requires s <= 32 && l < Pow2(s) && x == (h * B32 + middle) * Pow2(s) + l
    ensures Shr(x, s) == Join(h, middle) && Low(x, s) == l && Shl64(x, 64 - s) == Join(l * Pow2(32 - s), 0)
  {
    ShiftParts(x, s, Join(h, middle), l);
    Pow2Add(32 - s, 32);
    Pow2Values();
    TimesB32(l, Pow2(32 - s));
  }

  /** A value split at bit s is what >> s and << (64 - s) see. */
  lemma ShiftParts(x: nat, s: nat, r: nat, b: nat)
    requires s <= 64 && b < Pow2(s) && x == r * Pow2(s) + b
    ensures Shr(x, s) == r && Low(x, s) == b && Shl64(x, 64 - s) == b * Pow2(64 - s)
  {
    DivModUnique(x, Pow2(s), r, b);
    ShiftOut(s, r, b);
  }

  lemma TimesB32(l: nat, w: nat)
    ensures l * (w * B32) == (l * w) * B32
  {}

  lemma JoinShift(h1: nat, h0: nat, l1: nat, l0: nat, p: nat, w: nat)
    requires p * w == B32
    ensures (h1 * p + h0) * B32 + (l1 * p + l0) == (h1 * B32 + (h0 * w + l1)) * p + l0
  {
    assert (h1 * B32 + (h0 * w + l1)) * p == h1 * B32 * p + (h0 * w) * p + l1 * p;
    assert (h0 * w) * p == h0 * (p * w);
    assert h1 * B32 * p == (h1 * p) * B32;
  }

  lemma LongShift(high: nat, low: nat, s: nat)
    requires high < B32 && low < B32 && 32 <= s <= 64
    ensures Shr(Join(high, low), s) == Shr(high, s - 32) < B32
    ensures Shl64(Join(high, low), 64 - s)
         == Join(Or(Shl32(high, 64 - s), Shr(low, s - 32)), Shl32(low, 64 - s))
    ensures Or(Shl32(high, 64 - s), Shr(low, s - 32)) < B32
  {
    var e := s - 32;
    Straddle(high, low, e);
    ShrLow(high, e);
    ShrLow(low, e);
    var h1, h0, l1, l0 := Shr(high, e), Low(high, e), Shr(low, e), Low(low, e);
    Pow2Add(e, 32 - e);
    Pow2Add(e, 32);
    Pow2Values();
    LongJoin(high, low, h1, h0, l1, l0, Pow2(e), Pow2(32 - e), Pow2(s));
    LongParts(Join(high, low), s, h1, h0 * B32 + low, h0 * Pow2(32 - e) + l1, l0 * Pow2(32 - e));
  }

  lemma LongJoin(high: nat, low: nat, h1: nat, h0: nat, l1: nat, l0: nat, p: nat, w: nat, big: nat)
    requires high == h1 * p + h0 && low == l1 * p + l0 && h0 < p && low < B32 && p * w == B32 && big == p * B32
    ensures Join(high, low) == h1 * big + (h0 * B32 + low) && h0 * B32 + low < big
    ensures (h0 * B32 + low) * w == Join(h0 * w + l1, l0 * w)
  {
    LowShift(h1, h0, l1, l0, p, w);
    ProductMono(h0 + 1, p, B32 as nat);
  }

  lemma LongParts(x: nat, s: nat, h: nat, rest: nat, middle: nat, last: nat)
    requires 32 <= s <= 64 && rest < Pow2(s) && x == h * Pow2(s) + rest && rest * Pow2(64 - s) == Join(middle, last)
    ensures Shr(x, s) == h && Shl64(x, 64 - s) == Join(middle, last)
  {
    ShiftParts(x, s, h, rest);
  }

  lemma LowShift(h1: nat, h0: nat, l1: nat, l0: nat, p: nat, w: nat)
    requires p * w == B32
    ensures (h1 * p + h0) * B32 == h1 * (p * B32) + h0 * B32
    ensures (h0 * B32 + (l1 * p + l0)) * w == (h0 * w + l1) * B32 + l0 * w
  {
    Distribute(h1, p, h0, B32);
    TimesB32(h0, w);
    assert (l1 * p) * w == l1 * (p * w);
    assert (h0 * B32) * w == h0 * (w * B32);
  }

  /** 32-bit clz(d) - clz(n), both words nonzero, in unsigned 32-bit arithmetic. */
  function ShiftCount32(n: nat, d: nat): (sr: nat)
    requires BitLen(n) <= 32 && BitLen(d) <= 32
  {
    U32((32 - BitLen(d)) - (32 - BitLen(n)))
  }

  lemma WordBitLen(x: nat)
    requires 0 < x < B32
    ensures 1 <= BitLen(x) <= 32
  {
    Pow2Values();
    BitLenAtMost(x, 32);
    BitLenBounds(x);
  }

  /** Both words long: the count is the difference in length, or it wrapped because
      the divisor is longer. */
  lemma HighCount(nh: nat, nl: nat, dh: nat, dl: nat)
    requires 0 < nh < B32 && nl < B32 && 0 < dh < B32 && dl < B32
    ensures BitLen(nh) <= 32 && BitLen(dh) <= 32
    ensures var sr := ShiftCount32(nh, dh);
            && (sr > 31 ==> Join(nh, nl) < Join(dh, dl))
            && (sr == 31 ==> BitLen(dh) == 1)
            && (sr <= 31 ==> sr == BitLen(Join(nh, nl)) - BitLen(Join(dh, dl)))
  {
    WordBitLen(nh);
    WordBitLen(dh);
    JoinBitLen(nh, nl);
    JoinBitLen(dh, dl);
    WrappedDifference(BitLen(nh), BitLen(dh));
    if nh >= dh { BitLenMono(dh, nh); }
  }

  /** A divisor of one word, not a power of two. */
  lemma LowCount(nh: nat, nl: nat, dl: nat)
    requires 0 < nh < B32 && nl < B32 && 0 < dl < B32 && dl != Pow2(Ctz(dl))
    ensures BitLen(nh) <= 32 && BitLen(dl) <= 32
    ensures var sr := U32(1 + 32 + (32 - BitLen(dl)) - (32 - BitLen(nh)));
            2 <= sr == BitLen(Join(nh, nl)) - BitLen(dl) + 1 <= 63
  {
    WordBitLen(nh);
    WordBitLen(dl);
    JoinBitLen(nh, nl);
    TwoBits(dl);
  }

  /** A divisor that is a power of two above the low word. */
  lemma HighPower(nh: nat, nl: nat, dh: nat)
    requires nh < B32 && nl < B32 && 0 < dh < B32 && dh == Pow2(Ctz(dh))
    ensures Join(nh, nl) / Join(dh, 0) == Shr(nh, Ctz(dh))
    ensures Join(nh, nl) % Join(dh, 0) == Join(And(nh, dh - 1), nl)
  {
    AndMask(nh, Ctz(dh));
    DivModFacts(nh, dh);
    ScaledDivision(nh, nl, dh);
  }

  lemma ScaledDivision(nh: nat, nl: nat, dh: nat)
    requires nl < B32 && 0 < dh
    ensures Join(nh, nl) / Join(dh, 0) == nh / dh
    ensures Join(nh, nl) % Join(dh, 0) == nh % dh * B32 + nl
  {
    DivModFacts(nh, dh);
    var q := nh / dh;
    assert (q * dh) * B32 == q * (dh * B32);
    DivModUnique(Join(nh, nl), dh * B32, q, nh % dh * B32 + nl);
  }

  /** A divisor that is a power of two in the low word. */
  lemma LowPower(nh: nat, nl: nat, dl: nat)
    requires nh < B32 && nl < B32 && 0 < dl < B32 && dl == Pow2(Ctz(dl))
    ensures Ctz(dl) <= 31
    ensures Join(nh, nl) / dl == Join(Shr(nh, Ctz(dl)), Or(Shl32(nh, 32 - Ctz(dl)), Shr(nl, Ctz(dl))))
    ensures Join(nh, nl) % dl == And(nl, dl - 1)
  {
    var c := Ctz(dl);
    Pow2Values();
    if c >= 32 { Pow2Mono(32, c); }
    ShortShift(nh, nl, c);
    AndMask(nl, c);
  }

  /** Not a power of two: at least three, hence at least two bits. */
  lemma TwoBits(d: nat)
    requires d > 0 && d != Pow2(Ctz(d))
    ensures BitLen(d) >= 2
  {
    assert Pow2(Ctz(1)) == 1;
    assert d / 2 >= 1;
  }

  /** What every branch leaves for the loop: q and r hold a << (64 - sr) and a >> sr. */
  ghost predicate Ready(a: nat, d: nat, sr: nat, qh: nat, ql: nat, rh: nat, rl: nat) {
    && 0 < a < B64 && 0 < d < B64
    && 1 <= sr == BitLen(a) - BitLen(d) + 1 <= 63
    && qh < B32 && ql < B32 && rh < B32 && rl < B32
    && Join(rh, rl) == Shr(a, sr) && Join(qh, ql) == Shl64(a, 64 - sr)
  }

  lemma ReadyShort(nh: nat, nl: nat, d: nat, sr: nat)
    requires 0 < nh < B32 && nl < B32 && 0 < d < B64
    requires 1 <= sr == BitLen(Join(nh, nl)) - BitLen(d) + 1 <= 32
    ensures Ready(Join(nh, nl), d, sr, Shl32(nl, 32 - sr), 0,
                  Shr(nh, sr), Or(Shl32(nh, 32 - sr), Shr(nl, sr)))
    ensures sr == 32 ==> Ready(Join(nh, nl), d, sr, nl, 0, 0, nh)
  {
    ShortShift(nh, nl, sr);
    if sr == 32 { WholeWord(nh, nl); }
  }

  lemma WholeWord(nh: nat, nl: nat)
    requires nh < B32 && nl < B32
    ensures Shl32(nl, 0) == nl && Shr(nh, 32) == 0 && Or(Shl32(nh, 0), Shr(nl, 32)) == nh
  {
    Pow2Values();
    assert Pow2(0) == 1;
    assert Shr(nl, 32) == 0;
  }

  lemma ReadyLong(nh: nat, nl: nat, d: nat, sr: nat)
    requires 0 < nh < B32 && nl < B32 && 0 < d < B64
    requires 32 < sr == BitLen(Join(nh, nl)) - BitLen(d) + 1 <= 63
    ensures Ready(Join(nh, nl), d, sr, Or(Shl32(nh, 64 - sr), Shr(nl, sr - 32)), Shl32(nl, 64 - sr),
                  0, Shr(nh, sr - 32))
  {
    LongShift(nh, nl, sr);
    Straddle(nh, nl, sr - 32);
  }

  /** The loop body as the source writes it, word by word. */
  lemma SplitIterate(a: nat, d: nat, count: nat, sr: nat, rh: nat, rl: nat, qh: nat, ql: nat,
                     carry: nat, q: nat, b: nat)
    returns (b1: nat)
    requires rh < B32 && rl < B32 && qh < B32 && ql < B32 && sr > 0
    requires Running(a, d, count, sr, Join(rh, rl), Join(qh, ql), carry, q, b)
    ensures var rh1, rl1 := Or(U32(2 * rh), rl / B31), Or(U32(2 * rl), qh / B31);
            var qh1, ql1 := Or(U32(2 * qh), ql / B31), Or(U32(2 * ql), carry);
            && rh1 < B32 && rl1 < B32 && qh1 < B32 && ql1 < B32 && d < B64
            && var mask := SignMask(U64(d - Join(rh1, rl1) - 1));
               Running(a, d, count, sr - 1, U64(Join(rh1, rl1) - And(d, mask)), Join(qh1, ql1),
                       And(mask, 1), 2 * q + And(mask, 1), b1)
  {
    SplitShift(rh, rl, qh, ql, carry);
    b1 := Iterate(a, d, count, sr, Join(rh, rl), Join(qh, ql), carry, q, b);
  }

  /** One iteration on the four words. */
  method SplitStep(ghost a: nat, d: nat, ghost count: nat, ghost sr: nat, rHigh: nat, rLow: nat, qHigh: nat, qLow: nat,
                   carryIn: nat, ghost q: nat, ghost b: nat)
    returns (rh: nat, rl: nat, qh: nat, ql: nat, carry: nat, ghost q1: nat, ghost b1: nat)
    requires rHigh < B32 && rLow < B32 && qHigh < B32 && qLow < B32 && sr > 0
    requires Running(a, d, count, sr, Join(rHigh, rLow), Join(qHigh, qLow), carryIn, q, b)
    ensures qh < B32 && ql < B32 && rh < B32 && rl < B32
    ensures Running(a, d, count, sr - 1, Join(rh, rl), Join(qh, ql), carry, q1, b1)
  {
    b1 := SplitIterate(a, d, count, sr, rHigh, rLow, qHigh, qLow, carryIn, q, b);
    rh := Or(U32(2 * rHigh), rLow / B31);
    rl := Or(U32(2 * rLow), qHigh / B31);
    qh := Or(U32(2 * qHigh), qLow / B31);
    ql := Or(U32(2 * qLow), carryIn);
    var mask := SignMask(U64(d - Join(rh, rl) - 1));
    carry := And(mask, 1);
    var r := U64(Join(rh, rl) - And(d, mask));
    SplitWord(r);
    rh, rl := r / B32, r % B32;
    q1 := 2 * q + carry;
  }

  /** The common tail: q and r hold a << (64 - sr) and a >> sr, word by word. */
  method SplitLoop(a: nat, d: nat, count: nat, qHigh: nat, qLow: nat, rHigh: nat, rLow: nat)
    returns (quotient: nat, rem: nat)
    requires Ready(a, d, count, qHigh, qLow, rHigh, rLow)
    ensures quotient == a / d && rem == a % d
  {
    var qh: nat, ql: nat, rh: nat, rl: nat := qHigh, qLow, rHigh, rLow;
    var sr: nat, carry: nat := count, 0;
    ghost var q: nat, b: nat := 0, Low(a, sr);
    InitialShift(a, d, count, Join(rh, rl), Join(qh, ql), b);
    while sr > 0
      invariant qh < B32 && ql < B32 && rh < B32 && rl < B32
      invariant Running(a, d, count, sr, Join(rh, rl), Join(qh, ql), carry, q, b)
    {
      rh, rl, qh, ql, carry, q, b := SplitStep(a, d, count, sr, rh, rl, qh, ql, carry, q, b);
      sr := sr - 1;
    }
    Finished(a, d, count, Join(rh, rl), Join(qh, ql), carry, q, b);
    quotient := Or(U64(2 * Join(qh, ql)), carry);
    rem := Join(rh, rl);
  }

  method UDivModDi4(a: nat, d: nat) returns (quotient: nat, rem: nat)
    requires a < B64 && 0 < d < B64
    ensures quotient == a / d && rem == a % d
  {
    var nh, nl, dh, dl := a / B32, a % B32, d / B32, d % B32;
    if nh == 0 {
      if dh == 0 { return nl / dl, nl % dl; }
      DivModUnique(a, d, 0, a);
      return 0, nl;
    }
    if dl == 0 {
      quotient, rem := DivideByHighWord(nh, nl, dh);
    } else if dh == 0 {
      quotient, rem := DivideByLowWord(nh, nl, dl);
    } else {
      quotient, rem := DivideByBothWords(nh, nl, dh, dl);
    }
  }

  /** n.s.high != 0, d.s.low == 0. */
  method DivideByHighWord(nh: nat, nl: nat, dh: nat) returns (quotient: nat, rem: nat)
    requires 0 < nh < B32 && nl < B32 && 0 < dh < B32
    ensures quotient == Join(nh, nl) / Join(dh, 0) && rem == Join(nh, nl) % Join(dh, 0)
  {
    if nl == 0 {
      ScaledDivision(nh, nl, dh);
      return nh / dh, Join(nh % dh, 0);
    }
    PowerOfTwoTest(dh);
    if And(dh, dh - 1) == 0 {
      HighPower(nh, nl, dh);
      return Shr(nh, Ctz(dh)), Join(And(nh, dh - 1), nl);
    }
    HighCount(nh, nl, dh, 0);
    var sr := ShiftCount32(nh, dh);
    if sr > 30 {
      TwoBits(dh);
      DivModUnique(Join(nh, nl), Join(dh, 0), 0, Join(nh, nl));
      return 0, Join(nh, nl);
    }
    sr := sr + 1;
    var ql := 0;
    var qh := Shl32(nl, 32 - sr);
    var rh := Shr(nh, sr);
    var rl := Or(Shl32(nh, 32 - sr), Shr(nl, sr));
    ReadyShort(nh, nl, Join(dh, 0), sr);
    quotient, rem := SplitLoop(Join(nh, nl), Join(dh, 0), sr, qh, ql, rh, rl);
  }

  /** n.s.high != 0, d.s.low != 0, d.s.high == 0. */
  method DivideByLowWord(nh: nat, nl: nat, dl: nat) returns (quotient: nat, rem: nat)
    requires 0 < nh < B32 && nl < B32 && 0 < dl < B32
    ensures quotient == Join(nh, nl) / dl && rem == Join(nh, nl) % dl
  {
    var qh: nat, ql: nat, rh: nat, rl: nat, sr: nat;
    PowerOfTwoTest(dl);
    if And(dl, dl - 1) == 0 {
      LowPower(nh, nl, dl);
      if dl == 1 { return Join(nh, nl), And(nl, dl - 1); }
      sr := Ctz(dl);
      qh := Shr(nh, sr);
      ql := Or(Shl32(nh, 32 - sr), Shr(nl, sr));
      return Join(qh, ql), And(nl, dl - 1);
    }
    LowCount(nh, nl, dl);
    sr := U32(1 + 32 + (32 - BitLen(dl)) - (32 - BitLen(nh)));
    if sr == 32 {
      ql, qh, rh, rl := 0, nl, 0, nh;
      ReadyShort(nh, nl, dl, sr);
    } else if sr < 32 {
      ql := 0;
      qh := Shl32(nl, 32 - sr);
      rh := Shr(nh, sr);
      rl := Or(Shl32(nh, 32 - sr), Shr(nl, sr));
      ReadyShort(nh, nl, dl, sr);
    } else {
      ql := Shl32(nl, 64 - sr);
      qh := Or(Shl32(nh, 64 - sr), Shr(nl, sr - 32));
      rh := 0;
      rl := Shr(nh, sr - 32);
      ReadyLong(nh, nl, dl, sr);
    }
    quotient, rem := SplitLoop(Join(nh, nl), dl, sr, qh, ql, rh, rl);
  }

  /** All four words can be nonzero. */
  method DivideByBothWords(nh: nat, nl: nat, dh: nat, dl: nat) returns (quotient: nat, rem: nat)
    requires 0 < nh < B32 && nl < B32 && 0 < dh < B32 && dl < B32
    ensures quotient == Join(nh, nl) / Join(dh, dl) && rem == Join(nh, nl) % Join(dh, dl)
  {
    HighCount(nh, nl, dh, dl);
    var sr := ShiftCount32(nh, dh);
    if sr > 31 {
      DivModUnique(Join(nh, nl), Join(dh, dl), 0, Join(nh, nl));
      return 0, Join(nh, nl);
    }
    sr := sr + 1;
    var qh: nat, ql: nat, rh: nat, rl: nat;
    ql := 0;
    ReadyShort(nh, nl, Join(dh, dl), sr);
    if sr == 32 {
      qh, rh, rl := nl, 0, nh;
    } else {
      qh := Shl32(nl, 32 - sr);
      rh := Shr(nh, sr);
      rl := Or(Shl32(nh, 32 - sr), Shr(nl, sr));
    }
    quotient, rem := SplitLoop(Join(nh, nl), Join(dh, dl), sr, qh, ql, rh, rl);
  }
}

/** The signed wrappers: two's complement values, negated through sign masks. */
module SignedDivision {
  import opened Words
  import SplitDivision

  predicate IsSigned64(x: int) { -B63 <= x < B63 }

  function ToUnsigned64(x: int): nat
    requires IsSigned64(x)
  {
    U64(x)
  }

  function Abs(x: int): nat { if x < 0 then -x else x }

  /** Division of section 6.5.5 of ISO C11: the quotient with its fraction discarded. */
  function TruncDiv(a: int, b: int): int
    requires b != 0
  {
    if (a < 0) == (b < 0) then Abs(a) / Abs(b) else -(Abs(a) / Abs(b))
  }

  function TruncRem(a: int, b: int): int
    requires b != 0
  {
    if a < 0 then -(Abs(a) % Abs(b)) else Abs(a) % Abs(b)
  }

  /** Section 6.5.5: (a/b)*b + a%b == a, and the remainder is short and has the
      dividend's sign, which together determine both. */
  lemma TruncationIdentity(a: int, b: int)
    requires b != 0
    ensures TruncDiv(a, b) * b + TruncRem(a, b) == a
    ensures Abs(TruncRem(a, b)) < Abs(b) && (TruncRem(a, b) != 0 ==> (TruncRem(a, b) < 0) == (a < 0))
  {
    DivModFacts(Abs(a), Abs(b));
    SignedProducts(Abs(a) / Abs(b), b);
  }

  lemma SignedProducts(q: int, b: int)
    ensures (-q) * (-b) == q * b && (-q) * b == -(q * b) && q * (-b) == -(q * b)
  {}

  /** (x ^ s) + (-s) on words, where s is a sign: identity, or negation. */
  function NegateBy(x: nat, s: int): nat {
    U64(Xor(x, U64(s)) - s)
  }

  lemma NegateByMask(x: nat, s: int)
    requires x < B64 && -1 <= s <= 0
    ensures s == 0 ==> NegateBy(x, s) == x
    ensures s == -1 ==> NegateBy(x, s) == if x == 0 then 0 else B64 - x
  {
    if s == -1 {
      assert U64(s) == B64 - 1;
      XorOnes(x, 64) by { Pow2Values(); }
      Pow2Values();
    } else {
      assert Xor(x, 0) == x;
    }
  }

  function SignOf(x: int): (s: int)
    requires IsSigned64(x)
    ensures s == if x < 0 then -1 else 0
  {
    x / B63
  }

  lemma MagnitudeIsAbs(x: int)
    requires IsSigned64(x)
    ensures NegateBy(ToUnsigned64(x), SignOf(x)) == Abs(x) <= B63
  {
    var u: nat := if x < 0 then B64 + x else x;
    assert ToUnsigned64(x) == u && SignOf(x) == if x < 0 then -1 else 0;
    NegateByMask(u, if x < 0 then -1 else 0);
  }

  /** A magnitude given a sign, read back as a signed value. */
  lemma Signed(m: nat, s: int)
    requires m <= B63 && -1 <= s <= 0
    ensures ToSigned64(NegateBy(m, s)) == if s == 0 && m < B63 then m else 0 - m
  {
    NegateByMask(m, s);
  }

  lemma XorSigns(s: int, t: int)
    requires -1 <= s <= 0 && -1 <= t <= 0
    ensures Xor(U64(s), U64(t)) == if s == t then 0 else B64 - 1
  {
    assert U64(0) == 0 && U64(-1) == B64 - 1;
    if s == -1 && t == -1 { XorAllOnes(); }
  }

  lemma XorAllOnes()
    ensures Xor((B64 - 1) as nat, (B64 - 1) as nat) == 0
  {
    Pow2Values();
    XorOnes((B64 - 1) as nat, 64);
  }

  /** __divdi3 truncates toward zero exactly when the true quotient is representable,
      which only the most negative dividend over -1 prevents; then it wraps to itself. */
  method DivDi3(a: int, b: int) returns (quotient: int)
    requires IsSigned64(a) && IsSigned64(b) && b != 0
    ensures quotient == TruncDiv(a, b) <==> !(a == -B63 && b == -1)
    ensures a == -B63 && b == -1 ==> quotient == -B63
  {
    MagnitudeIsAbs(a);
    MagnitudeIsAbs(b);
    var sa, sb := SignOf(a), SignOf(b);
    var au, bu := NegateBy(ToUnsigned64(a), sa), NegateBy(ToUnsigned64(b), sb);
    XorSigns(sa, sb);
    sa := ToSigned64(Xor(U64(sa), U64(sb)));
    var q, r := SplitDivision.UDivModDi4(au, bu);
    QuotientSize(a, b);
    Signed(q, sa);
    return ToSigned64(NegateBy(q, sa));
  }

  lemma QuotientSize(a: int, b: int)
    requires IsSigned64(a) && IsSigned64(b) && b != 0
    ensures 0 <= Abs(a) / Abs(b) <= B63
    ensures (a < 0) == (b < 0) && Abs(a) / Abs(b) == B63 <==> a == -B63 && b == -1
  {
    DivModFacts(Abs(a), Abs(b));
    if Abs(b) == 1 {
      DivModUnique(Abs(a), 1, Abs(a), 0);
    } else {
      var q: nat := Abs(a) / Abs(b);
      ProductMono(2, Abs(b), q);
    }
  }

  /** __moddi3 truncates toward zero on every input with a nonzero divisor. */
  method ModDi3(a: int, b: int) returns (remainder: int)
    requires IsSigned64(a) && IsSigned64(b) && b != 0
    ensures remainder == TruncRem(a, b)
  {
    MagnitudeIsAbs(a);
    MagnitudeIsAbs(b);
    var s := SignOf(b);
    var bu := NegateBy(ToUnsigned64(b), s);
    s := SignOf(a);
    var au := NegateBy(ToUnsigned64(a), s);
    var q, res := SplitDivision.UDivModDi4(au, bu);
    DivModFacts(Abs(a), Abs(b));
    Signed(res, s);
    return ToSigned64(NegateBy(res, s));
  }
}
