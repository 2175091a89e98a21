/** bignum.c: division of a double word by a word, on the double-width path and
    on the half-word path (Knuth, algorithm D), whose steps wrap modulo 2^biL. */
module WordDiv {
  import opened Arith
  import opened Limbs
  import opened MulAddc

  // ------------------------------------------------------ mbedtls_mpi_core_clz

  method Clz(a: limb) returns (j: nat)
    ensures j <= BI_L && (a == 0 <==> j == BI_L)
    ensures a < Pow2(BI_L - j)
    ensures a != 0 ==> Pow2(BI_L - 1 - j) <= a
  {
    var mask := Pow2(BI_L - 1);
    assert Pow2(BI_L) == 2 * mask && BASE == Pow2(BI_L);
    j := 0;
    while j < BI_L
      invariant 0 <= j <= BI_L && a < Pow2(BI_L - j)
      invariant j < BI_L ==> mask == Pow2(BI_L - 1 - j)
    {
      BitAndBit(a, BI_L - 1 - j);
      assert Pow2(BI_L - j) == 2 * mask;
      TopBit(a, mask);
      if BitAnd(a, mask) != 0 { break; }
      if j + 1 < BI_L { assert mask == 2 * Pow2(BI_L - 2 - j); }
      mask := mask / 2;
      j := j + 1;
    }
    assert Pow2(0) == 1;
  }

  lemma TopBit(a: int, m: int)
    requires 0 <= a < 2 * m && m > 0
    ensures ((a / m) % 2) * m == if a < m then 0 else m
  {
    if a < m { ModSmall(a, m); } else { DivModUnique(a, m, 1, a - m); }
  }

  // ------------------------------------------- one quotient digit, half a word

  /** The estimate u/d1 is never below the true digit. */
  lemma NotTooLow(u: int, w: int, d1: int, d0: int, h: int, q: int)
    requires d1 > 0 && 0 <= d0 && 0 <= w < h && 0 <= q && u < q * d1 + d1
    ensures u * h + w < q * (d1 * h + d0) + (d1 * h + d0)
  {
    MulMono(u + 1, q * d1 + d1, h); MulDist(h, u, 1);
    MulDist(h, q * d1, d1); MulAssoc(q, d1, h);
    MulDist(q, d1 * h, d0);
    MulMono(0, q, d0);
  }

  /** u / d on words. */
  function DivW(u: limb, d: limb): (q: limb)
    requires d > 0
    ensures q * d <= u < q * d + d
  {
    DivMod(u, d);
    MulMono(1, d, u / d);
    u / d
  }

  /** With q*d1 + r = u, the test q*d0 > h*r + w says exactly that q is too high. */
  lemma ExactTest(u: int, w: int, d1: int, d0: int, h: int, q: int, r: int)
    requires q * d1 + r == u
    ensures q * d0 > h * r + w <==> q * (d1 * h + d0) > u * h + w
  {
    MulDist(q, d1 * h, d0); MulAssoc(q, d1, h); MulDist(h, q * d1, r);
  }

  /** A digit of h or more is too high; once the partial remainder reaches h, it is not. */
  lemma DigitRange(u: int, w: int, d1: int, d0: int, h: int, q: int, r: int)
    requires q * d1 + r == u && 0 <= u < d1 * h + d0 && 0 <= w < h && 0 <= d0 < h && d1 > 0 && 0 <= q
    ensures q >= h ==> q * (d1 * h + d0) > u * h + w
    ensures r >= h ==> q < h && q * (d1 * h + d0) <= u * h + w
  {
    var d := d1 * h + d0;
    if q >= h {
      MulMono(h, q, d);
      MulMono(u + 1, d, h); MulDist(h, u, 1);
    }
    if r >= h {
      assert q < h by { MulCancelLt(q, h, d1); }
      ExactTest(u, w, d1, d0, h, q, r);
      MulMono(h, r, h); MulMono(q, h, d0); MulMono(d0, h, h);
    }
  }

  /** (u*h + (w - q*d)) computed with wrapping is the exact remainder. */
  lemma WrapRemainder(u: limb, w: limb, q: limb, d: limb, h: limb)
    requires 0 <= u * h + w - q * d < BASE
    ensures AddW(MulW(u, h), SubW(w, MulW(q, d))) == u * h + w - q * d
  {
    var x, y := MulW(u, h), MulW(q, d);
    var z := SubW(w, y);
    var r: int := AddW(x, z);
    WrapCong(u, h); WrapCong(q, d); WrapCong(w, y); WrapCong(x, z);
    hide MulW, SubW, AddW, Cong;
    var wi: int, yi: int, xi: int, zi: int := w, y, x, z;
    var uh: int, qd: int := u * h, q * d;
    CongRefl(wi, BASE);
    CongAdd(wi, wi, yi, qd, BASE);
    CongTrans(zi, wi - yi, wi - qd, BASE);
    CongAdd(xi, uh, zi, wi - qd, BASE);
    CongTrans(r, xi + zi, uh + (wi - qd), BASE);
    CongSmall(r, uh + (wi - qd), BASE);
  }

  /** d & (radix - 1) and d >> biH */
  function LowHalf(d: limb): (r: limb)
    ensures r == d % HALF && r < HALF
  {
    BitAndMask(d, BI_H); HalfShifts(d); HalfSquared();
    BitAnd(d, HALF - 1)
  }

  lemma HalfFits()
    ensures 0 < HALF < BASE
  {
    HalfSquared();
    MulMono(2, HALF, HALF);
  }

  lemma MulExact(x: limb, y: limb)
    requires x * y < BASE
    ensures MulW(x, y) == x * y
  {
    MulSign(x, y);
    ModSmall(x * y, BASE);
  }

  /** The loop guard of the source, wrapping products included. */
  predicate TooHigh(q: limb, r0: limb, d0: limb, w: limb)
    requires HALF < BASE
  {
    q >= HALF || MulW(q, d0) > AddW(MulW(HALF, r0), w)
  }

  /** Operands of a digit: u < d, d = d1*radix + d0 with d1 > 0. */
  predicate Operands(u: limb, w: limb, d1: limb, d0: limb, d: limb) {
    u < d && d == d1 * HALF + d0 && 0 < d1 < HALF && w < HALF && d0 < HALF
  }

  /** q is an estimate of the digit that is not too low, r0 its partial remainder. */
  predicate Estimate(u: limb, w: limb, d1: limb, d: limb, q: limb, r0: limb) {
    q * d1 + r0 == u && u * HALF + w < q * d + d
  }

  lemma GuardExact(u: limb, w: limb, d1: limb, d0: limb, d: limb, q: limb, r0: limb)
    requires Operands(u, w, d1, d0, d) && Estimate(u, w, d1, d, q, r0) && r0 < HALF
    ensures HALF < BASE && (TooHigh(q, r0, d0, w) <==> q * d > u * HALF + w)
  {
    HalfFits(); HalfSquared();
    DigitRange(u, w, d1, d0, HALF, q, r0);
    ExactTest(u, w, d1, d0, HALF, q, r0);
    if q < HALF {
      assert q * d0 < BASE by { ProductBound(q, d0, 0, 0, HALF); }
      assert HALF * r0 + w < BASE by { DigitBound(w, r0, HALF, HALF); }
      MulExact(q, d0); MulExact(HALF, r0);
    }
  }

  lemma EstimateStart(u: limb, w: limb, d1: limb, d0: limb, d: limb)
    requires Operands(u, w, d1, d0, d)
    ensures d1 > 0
    ensures var q := DivW(u, d1); var r0 := SubW(u, MulW(d1, q)); r0 < HALF && Estimate(u, w, d1, d, q, r0)
  {
    var q := DivW(u, d1);
    hide DivW;
    MulExact(d1, q);
    NotTooLow(u, w, d1, d0, HALF, q);
  }

  lemma EstimateDown(u: limb, w: limb, d1: limb, d0: limb, d: limb, q: limb, r0: limb)
    requires Operands(u, w, d1, d0, d) && Estimate(u, w, d1, d, q, r0) && r0 < HALF && q * d > u * HALF + w
    ensures q >= 1 && SubW(q, 1) == q - 1 && AddW(r0, d1) == r0 + d1
    ensures Estimate(u, w, d1, d, SubW(q, 1), AddW(r0, d1))
    ensures AddW(r0, d1) >= HALF ==> SubW(q, 1) * d <= u * HALF + w
  {
    HalfFits(); HalfSquared();
    MulMono(2, HALF, HALF);
    var q': int := q;
    MulSign(u, HALF);
    MulDist(d1, q', -1); MulDist(d, q', -1);
    DigitRange(u, w, d1, d0, HALF, q' - 1, r0 + d1);
  }

  lemma EstimateDone(u: limb, w: limb, d1: limb, d: limb, q: limb, r0: limb)
    requires Estimate(u, w, d1, d, q, r0) && q * d <= u * HALF + w && u < d && w < HALF < BASE
    ensures q < HALF && AddW(MulW(u, HALF), SubW(w, MulW(q, d))) == u * HALF + w - q * d < d
  {
    DigitDone(u, w, d, q, HALF);
    WrapRemainder(u, w, q, d, HALF);
  }

  lemma DigitDone(u: int, w: int, d: int, q: int, h: int)
    requires q * d <= u * h + w < q * d + d && 0 <= u < d && 0 <= w < h
    ensures 0 <= u * h + w - q * d < d && q < h
  {
    MulMono(u + 1, d, h); MulDist(h, u, 1);
    MulCancelLt(q, h, d);
  }

  /** q = (u*radix + w) / d and x = (u*radix + w) % d, for u < d. */
  method HalfDigit(u: limb, w: limb, d: limb) returns (q: limb, x: limb)
    requires u < d && HALF <= d && w < HALF
    ensures q < HALF && x < d && u * HALF + w == q * d + x
  {
    HalfFits(); HalfShifts(d);
    var d1, d0 := ShrW(d, BI_H), LowHalf(d);
    assert Operands(u, w, d1, d0, d) by { if d1 == 0 { MulSign(0, HALF); } }
    hide MulW, ShrW, LowHalf, TooHigh, Operands, Estimate, SubW, AddW, DivW;
    EstimateStart(u, w, d1, d0, d);
    q := DivW(u, d1);
    var r0: limb := SubW(u, MulW(d1, q));
    GuardExact(u, w, d1, d0, d, q, r0);
    while TooHigh(q, r0, d0, w)
      invariant Estimate(u, w, d1, d, q, r0) && r0 < HALF
      invariant TooHigh(q, r0, d0, w) <==> q * d > u * HALF + w
      decreases q
    {
      EstimateDown(u, w, d1, d0, d, q, r0);
      q := SubW(q, 1);
      r0 := AddW(r0, d1);
      if r0 >= HALF { break; }
      GuardExact(u, w, d1, d0, d, q, r0);
    }
    EstimateDone(u, w, d1, d, q, r0);
    x := AddW(MulW(u, HALF), SubW(w, MulW(q, d)));
  }

  // ---------------------------------------------------------- the whole division

  /** (u0 >> (biL - s)) & (-(sint) s >> (biL - 1)): nothing when s is zero. */
  function SpillOver(u0: limb, s: nat): limb
    requires s <= BI_L
  {
    if s == 0 then 0 else ShrW(u0, BI_L - s)
  }

  /** u1 << s with the bits of u0 that move up, for u1 < 2^(biL-s). */
  lemma HighWord(u1: limb, u0: limb, s: nat, p: int, k: int)
    requires s < BI_L && p == Pow2(s) && k == Pow2(BI_L - s) && u1 < k
    ensures BASE == p * k && BitOr(ShlW(u1, s), SpillOver(u0, s)) == u1 * p + u0 / k < BASE
  {
    PowAdd(2, s, BI_L - s);
    assert SpillOver(u0, s) == u0 / k by { if s == 0 { Pow2Zero(); ModSmall(u0, BASE); } }
    hide Pow2;
    MulMonoStrict(u1, k, p); MulMono(0, u1, p);
    ModSmall(u1 * p, BASE);
    DivMod(u0, k);
    MulCancelLt(u0 / k, p, k);
    DivModUnique(u1 * p, p, u1, 0);
    BitOrShift(ShlW(u1, s), SpillOver(u0, s), s);
    DigitBound(u0 / k, u1, p, k);
  }

  /** Shifting the pair (u1, u0) left by s stays within two words. */
  lemma ShiftPair(u1: limb, u0: limb, s: nat)
    requires s < BI_L && u1 < Pow2(BI_L - s)
    ensures var hi := BitOr(ShlW(u1, s), SpillOver(u0, s));
      hi < BASE && hi * BASE + ShlW(u0, s) == (u1 * BASE + u0) * Pow2(s)
  {
    hide Pow2, BitOr, SpillOver;
    var p, k := Pow2(s), Pow2(BI_L - s);
    HighWord(u1, u0, s, p, k);
    DivMod(u0, k);
    ShlWide(u0, u0 / k, u0 % k, k, p, BASE);
    PairArith(u1, u0, u0 / k, p, BASE, ShlW(u0, s));
  }

  lemma PairArith(u1: int, u0: int, q: int, p: int, m: int, lo: int)
    requires u0 * p == q * m + lo
    ensures (u1 * p + q) * m + lo == (u1 * m + u0) * p
  {
    MulDist(m, u1 * p, q); MulAssoc(u1, p, m); MulAssoc(u1, m, p); MulDist(p, u1 * m, u0);
  }

  lemma BitOrShift(x: nat, y: nat, s: nat)
    requires x % Pow2(s) == 0 && y < Pow2(s)
    ensures BitOr(x, y) == x + y
  {
    BitOrDisjoint(x, y, s);
  }

  lemma ShlWide(x: int, q: int, r: int, k: int, p: int, m: int)
    requires x == q * k + r && 0 <= r < k && p * k == m && p > 0 && k > 0 && m > 0
    ensures (x * p) % m == r * p && x * p == q * m + r * p
  {
    MulDist(p, q * k, r); MulAssoc(q, k, p);
    MulMonoStrict(r, k, p); MulMono(0, r, p);
    DivModUnique(x * p, m, q, r * p);
  }

  /** Two half-digits of the quotient make the quotient. */
  lemma TwoDigits(u1: int, u0: int, hi: int, lo: int, h: int, q1: int, x: int, q0: int, r: int, d: int)
    requires u0 == hi * h + lo && u1 * h + hi == q1 * d + x && x * h + lo == q0 * d + r
    ensures u1 * (h * h) + u0 == (q1 * h + q0) * d + r
  {
    MulAssoc(u1, h, h);
    MulDist(h, u1 * h, hi); MulDist(h, q1 * d, x);
    MulAssoc(q1, d, h); MulAssoc(q1, h, d);
    MulDist(d, q1 * h, q0);
  }

  /** Undo the normalisation: the quotient is unchanged, the remainder shifts back. */
  lemma Unscale(v: int, d: int, p: int, q: int, r: int)
    requires p > 0 && v * p == q * (d * p) + r && 0 <= r < d * p
    ensures r % p == 0 && v == q * d + r / p && 0 <= r / p < d
  {
    var t := v - q * d;
    assert r == t * p by { MulAssoc(q, d, p); MulDist(p, v, -(q * d)); MulNeg(q * d, p); }
    DivModUnique(r, p, t, 0);
    MulCancelLt(-1, t, p); MulCancelLt(t, d, p);
  }

  lemma NormalArith(d: int, p: int, ka: int, kb: int, m: int, half: int)
    requires p > 0 && 0 <= ka <= d < kb && p * kb == m && half <= p * ka
    ensures half <= d * p < m
  {
    MulMonoStrict(d, kb, p);
    MulMono(ka, d, p);
  }

  lemma NormalDivisor(d: limb, s: nat)
    requires s < BI_L && Pow2(BI_L - 1 - s) <= d < Pow2(BI_L - s)
    ensures ShlW(d, s) == d * Pow2(s) && HALF <= d * Pow2(s) < BASE
  {
    PowAdd(2, s, BI_L - s); PowAdd(2, s, BI_L - 1 - s);
    WidthFacts(BI_L); PowMono(2, BI_H, BI_L - 1);
    hide Pow2;
    NormalArith(d, Pow2(s), Pow2(BI_L - 1 - s), Pow2(BI_L - s), BASE, HALF);
    ModSmall(d * Pow2(s), BASE);
  }

  lemma WordLess(u1: int, u0: int, d: int, p: int, m: int, hi: int, lo: int)
    requires 0 <= u1 < d && 0 <= u0 < m && hi * m + lo == (u1 * m + u0) * p && 0 <= lo && p > 0 && m > 0
    ensures hi < d * p
  {
    MulMono(u1 + 1, d, m); MulDist(m, u1, 1);
    MulMonoStrict(u1 * m + u0, d * m, p);
    MulAssoc(d, m, p); MulAssoc(d, p, m);
    MulCancelLt(hi, d * p, m);
  }

  /** The operands after normalisation. */
  ghost predicate Normalised(u1: limb, u0: limb, d: limb, s: nat, v1: limb, v0: limb, dn: limb) {
    dn == d * Pow2(s) && v1 < dn && HALF <= dn && v1 * BASE + v0 == (u1 * BASE + u0) * Pow2(s)
  }

  lemma HalfWordResult(u1: limb, u0: limb, d: limb, s: nat, v1: limb, v0: limb, dn: limb,
                       q1: limb, x: limb, q0: limb, y: limb)
    requires HALF < BASE && Normalised(u1, u0, d, s, v1, v0, dn) && q1 < HALF && q0 < HALF && y < dn
    requires v1 * HALF + v0 / HALF == q1 * dn + x && x * HALF + v0 % HALF == q0 * dn + y
    ensures AddW(MulW(q1, HALF), q0) * d + ShrW(y, s) == u1 * BASE + u0 && ShrW(y, s) < d
  {
    HalfSquared(); HalfShifts(v0);
    TwoDigits(v1, v0, v0 / HALF, v0 % HALF, HALF, q1, x, q0, y, dn);
    DigitBound(q0, q1, HALF, HALF);
    MulExact(q1, HALF);
    assert AddW(MulW(q1, HALF), q0) == q1 * HALF + q0;
    hide Pow2, AddW, MulW;
    Unscale(u1 * BASE + u0, d, Pow2(s), q1 * HALF + q0, y);
  }

  /** The half-word path. */
  method HalfWordDiv(u1: limb, u0: limb, d: limb) returns (q: limb, r: limb)
    requires u1 < d
    ensures q * d + r == u1 * BASE + u0 && r < d
  {
    hide ShlW, ShrW, BitOr, SpillOver, LowHalf, MulW, Pow2, AddW, Normalised;
    var s := Clz(d);
    NormaliseAll(u1, u0, d, s);
    var dn, v0 := ShlW(d, s), ShlW(u0, s);
    var v1: limb := BitOr(ShlW(u1, s), SpillOver(u0, s));
    HalfFits(); HalfShifts(v0); NormalFacts(u1, u0, d, s, v1, v0, dn);
    var q1, x := HalfDigit(v1, ShrW(v0, BI_H), dn);
    var q0, y := HalfDigit(x, LowHalf(v0), dn);
    HalfWordResult(u1, u0, d, s, v1, v0, dn, q1, x, q0, y);
    r := ShrW(y, s);
    q := AddW(MulW(q1, HALF), q0);
  }

  lemma NormaliseAll(u1: limb, u0: limb, d: limb, s: nat)
    requires s < BI_L && u1 < d && Pow2(BI_L - 1 - s) <= d < Pow2(BI_L - s)
    ensures var v1 := BitOr(ShlW(u1, s), SpillOver(u0, s));
      v1 < BASE && Normalised(u1, u0, d, s, v1, ShlW(u0, s), ShlW(d, s))
  {
    NormalDivisor(d, s);
    ShiftPair(u1, u0, s);
    hide BitOr, SpillOver, ShlW, Pow2;
    WordLess(u1, u0, d, Pow2(s), BASE, BitOr(ShlW(u1, s), SpillOver(u0, s)), ShlW(u0, s));
  }

  lemma NormalFacts(u1: limb, u0: limb, d: limb, s: nat, v1: limb, v0: limb, dn: limb)
    requires Normalised(u1, u0, d, s, v1, v0, dn)
    ensures v1 < dn && HALF <= dn
  {}

  /** The double-width path. */
  method WideDiv(u1: limb, u0: limb, d: limb) returns (q: limb, r: limb)
    requires u1 < d
    ensures q * d + r == u1 * BASE + u0 && r < d
  {
    var dividend: int := u1 * BASE + u0;
    WideQuotient(u1, u0, d, BASE);
    var quotient := dividend / d;
    if quotient > BASE - 1 { quotient := BASE - 1; }
    q := quotient;
    r := dividend - quotient * d;
  }

  lemma WideQuotient(u1: int, u0: int, d: int, m: int)
    requires 0 <= u1 < d && 0 <= u0 < m
    ensures var v := u1 * m + u0; 0 <= v / d < m && v == (v / d) * d + v % d && 0 <= v % d < d
  {
    var v := u1 * m + u0;
    DigitBound(u0, u1, m, d);
    DivMod(v, d);
    MulCancelLt(v / d, m, d);
  }

  /** mbedtls_int_div_int: quotient and remainder of (u1, u0) by d, all ones on
      overflow. Both builds return the same words. */
  method IntDivInt(u1: limb, u0: limb, d: limb) returns (q: limb, r: limb)
    ensures d == 0 || u1 >= d ==> q == r == BASE - 1
    ensures d != 0 && u1 < d ==> q * d + r == u1 * BASE + u0 && r < d
    ensures d != 0 && u1 < d ==> q == (u1 * BASE + u0) / d && r == (u1 * BASE + u0) % d
  {
    if d == 0 || u1 >= d { return BASE - 1, BASE - 1; }
    if HAVE_UDBL {
      q, r := WideDiv(u1, u0, d);
    } else {
      q, r := HalfWordDiv(u1, u0, d);
    }
    DivModUnique(u1 * BASE + u0, d, q, r);
  }
}
