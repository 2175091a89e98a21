/** bn_mul.h: the two portable bodies of MULADDC_X1. One uses a double-width
    product, the other four half-limb products; both wrap modulo 2^biL. */
module MulAddc {
  import opened Arith
  import opened Limbs

  /** Whether the build has a double-width integer type (MBEDTLS_HAVE_UDBL). */
  const HAVE_UDBL: bool

  /** r0 += x; r1 += (r0 < x): the pair (r0, r1). */
  function Acc(r: (limb, limb), x: limb): (limb, limb) {
    var r0 := AddW(r.0, x);
    (r0, AddW(r.1, Bit(r0 < x)))
  }

  /** Double-width body: the limb stored to *d and the new carry c. */
  function Wide(s: limb, d: limb, b: limb, c: limb): (limb, limb)
  {
    WideFits(s, b);
    var r := s * b;
    Acc(Acc((r % BASE, r / BASE), c), d)
  }

  /** Half-limb body. */
  function Halves(s: limb, d: limb, b: limb, c: limb): (limb, limb)
  {
    var b0 := ShrW(ShlW(b, BI_H), BI_H);
    var b1 := ShrW(b, BI_H);
    var s0 := ShrW(ShlW(s, BI_H), BI_H);
    var s1 := ShrW(s, BI_H);
    var rx, r0 := MulW(s0, b1), MulW(s0, b0);
    var ry, r1 := MulW(s1, b0), MulW(s1, b1);
    var r1' := AddW(AddW(r1, ShrW(rx, BI_H)), ShrW(ry, BI_H));
    Acc(Acc(Acc(Acc((r0, r1'), ShlW(rx, BI_H)), ShlW(ry, BI_H)), c), d)
  }

  /** The body the build selects. */
  function MulAddLimb(s: limb, d: limb, b: limb, c: limb): (limb, limb)
  {
    if HAVE_UDBL then Wide(s, d, b, c) else Halves(s, d, b, c)
  }

  // ---------------------------------------------------------------- proofs

  lemma ProductBound(s: int, b: int, c: int, d: int, m: int)
    requires 0 <= s < m && 0 <= b < m && 0 <= c < m && 0 <= d < m
    ensures 0 <= s * b && s * b + c + d < m * m
  {
    MulMono(s, m - 1, b); MulMono(b, m - 1, m - 1);
    MulSign(s, b);
    assert (m - 1) * (m - 1) == m * m - 2 * m + 1;
  }

  lemma WideFits(s: limb, b: limb)
    ensures 0 <= (s * b) / BASE < BASE && 0 <= (s * b) % BASE < BASE
  {
    ProductBound(s, b, 0, 0, BASE);
    DivMod(s * b, BASE);
    MulCancelLt((s * b) / BASE, BASE, BASE);
  }

  /** The number held in two words. */
  function Two(r: (limb, limb)): nat {
    MulSign(r.1, BASE);
    r.0 + r.1 * BASE
  }

  const TWO_WORDS: nat := (MulSign(BASE, BASE); BASE * BASE)

  /** A wrapped sum is below an operand exactly when it lost 2^biL. */
  lemma CarryOut(x: limb, y: limb)
    ensures Bit(AddW(x, y) < y) == 0 ==> AddW(x, y) == x + y
    ensures Bit(AddW(x, y) < y) == 1 ==> AddW(x, y) == x + y - BASE
  {}

  /** As long as the total fits two words, no carry is lost. */
  lemma AccExact(r: (limb, limb), x: limb)
    requires Two(r) + x < TWO_WORDS
    ensures Two(Acc(r, x)) == Two(r) + x
  {
    CarryOut(r.0, x);
    CarryUp(r.0, r.1, x, AddW(r.0, x), Bit(AddW(r.0, x) < x), BASE);
  }

  lemma CarryUp(r0: int, r1: int, x: int, t: int, k: int, m: int)
    requires 0 <= t < m && t + (if k == 0 then 0 else m) == r0 + x && 0 <= k <= 1
    requires r0 + r1 * m + x < m * m
    ensures t + (r1 + k) * m == r0 + r1 * m + x && r1 + k < m
  {
    MulDist(m, r1, k);
    MulCancelLt(r1 + k, m, m);
  }

  /** d + s*b + c, exactly, in two words. */
  lemma WideExact(s: limb, d: limb, b: limb, c: limb)
    ensures Two(Wide(s, d, b, c)) == d + s * b + c
  {
    WideFits(s, b);
    DivMod(s * b, BASE);
    ProductBound(s, b, c, d, BASE);
    var r: (limb, limb) := ((s * b) % BASE, (s * b) / BASE);
    assert Two(r) == s * b;
    hide Two, Acc;
    AccExact(r, c);
    AccExact(Acc(r, c), d);
  }

  /** (x << biH) >> biH keeps the low half, x << biH is that half moved up. */
  lemma HalfShifts(x: limb)
    ensures ShlW(x, BI_H) == (x % HALF) * HALF
    ensures ShrW(ShlW(x, BI_H), BI_H) == x % HALF
    ensures ShrW(x, BI_H) == x / HALF && x == (x / HALF) * HALF + x % HALF
    ensures 0 <= x / HALF < HALF && 0 <= x % HALF < HALF
  {
    HalfSquared();
    DivMod(x, HALF);
    MulCancelLt(x / HALF, HALF, HALF);
    ShlSplit(x, x / HALF, x % HALF, HALF, BASE);
    DivModUnique((x % HALF) * HALF, HALF, x % HALF, 0);
  }

  lemma ShlSplit(x: int, q: int, r: int, h: int, m: int)
    requires x == q * h + r && 0 <= r < h && h * h == m && m > 0
    ensures (x * h) % m == r * h
  {
    assert x * h == q * m + r * h by { MulDist(h, q * h, r); MulAssoc(q, h, h); }
    MulMono(r + 1, h, h); MulMono(0, r, h);
    DivModUnique(x * h, m, q, r * h);
  }

  lemma HalfProduct(x: limb, y: limb)
    requires x < HALF && y < HALF
    ensures MulW(x, y) == x * y
  {
    HalfSquared();
    ProductBound(x, y, 0, 0, HALF);
    ModSmall(x * y, BASE);
  }

  /** Schoolbook product of two-digit numbers with the middle terms split. */
  lemma Schoolbook(s0: int, s1: int, b0: int, b1: int, xh: int, xl: int, yh: int, yl: int, h: int, m: int)
    requires h * h == m && s0 * b1 == xh * h + xl && s1 * b0 == yh * h + yl
    ensures (s1 * h + s0) * (b1 * h + b0) == (s1 * b1 + xh + yh) * m + xl * h + yl * h + s0 * b0
  {
    MulDist(b1 * h + b0, s1 * h, s0);
    MulDist(s1 * h, b1 * h, b0); MulSwap(s1, h, b1, h); MulAssoc(s1, h, b0); MulAssoc(s1, b0, h);
    MulDist(s0, b1 * h, b0); MulAssoc(s0, b1, h);
    MulDist(h, xh * h, xl); MulAssoc(xh, h, h);
    MulDist(h, yh * h, yl); MulAssoc(yh, h, h);
    MulDist(m, s1 * b1 + xh, yh); MulDist(m, s1 * b1, xh);
  }

  /** The four half products, regrouped: high word, low word and the two shifted
      middle terms. */
  lemma HalvesProduct(s: limb, d: limb, b: limb, c: limb) returns (r: (limb, limb), x: limb, y: limb)
    ensures Two(r) + x + y == s * b
    ensures Halves(s, d, b, c) == Acc(Acc(Acc(Acc(r, x), y), c), d)
  {
    hide Acc;
    HalfShifts(b); HalfShifts(s); HalfSquared();
    var b0: limb, b1: limb, s0: limb, s1: limb := b % HALF, b / HALF, s % HALF, s / HALF;
    HalfProduct(s0, b1); HalfProduct(s0, b0); HalfProduct(s1, b0); HalfProduct(s1, b1);
    hide MulW, ShlW, ShrW;
    var rx, ry, h := MulW(s0, b1), MulW(s1, b0), MulW(s1, b1);
    HalfShifts(rx); HalfShifts(ry);
    var r0: limb := MulW(s0, b0);
    x, y := ShlW(rx, BI_H), ShlW(ry, BI_H);
    var hi: int := h + rx / HALF + ry / HALF;
    assert s * b == hi * BASE + x + y + r0 by {
      Schoolbook(s0, s1, b0, b1, rx / HALF, rx % HALF, ry / HALF, ry % HALF, HALF, BASE);
    }
    assert hi < BASE by {
      ProductBound(s, b, 0, 0, BASE);
      MulCancelLt(hi, BASE, BASE);
    }
    r := (r0, hi);
  }

  lemma HalvesExact(s: limb, d: limb, b: limb, c: limb)
    ensures Two(Halves(s, d, b, c)) == d + s * b + c
  {
    hide Two, Acc, Halves;
    var r, x, y := HalvesProduct(s, d, b, c);
    ProductBound(s, b, c, d, BASE);
    AccExact(r, x);
    AccExact(Acc(r, x), y);
    AccExact(Acc(Acc(r, x), y), c);
    AccExact(Acc(Acc(Acc(r, x), y), c), d);
  }

  lemma TwoInjective(p: (limb, limb), q: (limb, limb))
    requires Two(p) == Two(q)
    ensures p == q
  {
    DivModUnique(Two(p), BASE, p.1, p.0);
    DivModUnique(Two(p), BASE, q.1, q.0);
  }

  /** Both bodies compute d + s*b + c, so they store the same limb and carry. */
  lemma BodiesAgree(s: limb, d: limb, b: limb, c: limb)
    ensures Halves(s, d, b, c) == Wide(s, d, b, c) == MulAddLimb(s, d, b, c)
    ensures Two(MulAddLimb(s, d, b, c)) == d + s * b + c
  {
    hide Two, Halves, Wide;
    WideExact(s, d, b, c);
    HalvesExact(s, d, b, c);
    TwoInjective(Wide(s, d, b, c), Halves(s, d, b, c));
  }
}
