/** Single bits of limb strings, bit lengths and bit shifts. */
module Bits {
  import opened Arith
  import opened Limbs
  import opened Core
  import opened WordDiv

  /** The part of e above its low r bits. */
  function High(e: nat, r: nat): nat {
    DivMod(e, Pow2(r));
    e / Pow2(r)
  }

  /** Reading bit b of limb l extends the high part by that bit. */
  lemma NextBit(s: seq<limb>, l: nat, b: nat)
    requires l < |s| && b < BI_L
    ensures 0 <= l * BI_L
    ensures High(Val(s), l * BI_L + b) == 2 * High(Val(s), l * BI_L + b + 1) + ShrW(s[l], b) % 2
  {
    MulSign(l, BI_L);
    var r := l * BI_L + b;
    var e := Val(s);
    var q := High(e, r);
    assert High(e, r + 1) == q / 2 by {
      assert Pow2(r + 1) == 2 * Pow2(r);
      DivDiv(e, Pow2(r), 2);
    }
    assert q % 2 == ShrW(s[l], b) % 2 by { BitOfLimb(s, l, b); }
  }

  lemma BitOfLimb(s: seq<limb>, l: nat, b: nat)
    requires l < |s| && b < BI_L
    ensures 0 <= l * BI_L && High(Val(s), l * BI_L + b) % 2 == ShrW(s[l], b) % 2
  {
    hide Bn, Val, Pow2, Pow;
    MulSign(l, BI_L);
    BnPow2(l); Pow2Add(l * BI_L, b);
    ValDrop(s, l);
    var t := s[l..];
    ValSplit(t, 1); ValOne(t[..1]); BnStep(0);
    Pow2Add(b, BI_L - b); Pow2Add(1, BI_L - b - 1); Pow2Zero();
    DivDiv(Val(s), Bn(l), Pow2(b));
    LimbShift(Val(t), s[l], Val(t[1..]), Pow2(b), Pow2(BI_L - b - 1), BASE);
  }

  lemma LimbShift(v: int, x: int, h: int, p: int, k: int, base: int)
    requires v == x + base * h && base == p * (2 * k) && p > 0
    ensures (v / p) % 2 == (x / p) % 2
  {
    DivMod(x, p);
    MulAssoc(p, 2 * k, h); MulAssoc(2, k, h);
    assert v == (x / p + 2 * (k * h)) * p + x % p by { MulDist(p, x / p, 2 * (k * h)); }
    DivModUnique(v, p, x / p + 2 * (k * h), x % p);
    SameParity(v / p, x / p, k * h);
  }

  // ------------------------------------------------------------- bit length

  /** b is the number of bits of v: 2^(b-1) <= v < 2^b, and 0 for zero. */
  predicate IsBitLen(v: nat, b: nat) {
    v < Pow2(b) && (b > 0 ==> Pow2(b - 1) <= v)
  }

  function NumBits(v: nat): (b: nat)
    ensures IsBitLen(v, b)
  {
    if v == 0 then (Pow2Zero(); 0) else
      var b := NumBits(v / 2);
      assert Pow2(b + 1) == 2 * Pow2(b);
      assert b > 0 ==> Pow2(b) == 2 * Pow2(b - 1);
      Pow2Zero();
      b + 1
  }

  lemma BitLenUnique(v: nat, b: nat, c: nat)
    requires IsBitLen(v, b) && IsBitLen(v, c)
    ensures b == c
  {
    if b < c { PowMono(2, b, c - 1); }
    if c < b { PowMono(2, c, b - 1); }
  }

  lemma TopLimb(p: seq<limb>, i: nat)
    requires i < |p| && (forall k :: i < k < |p| ==> p[k] == 0)
    ensures Val(p) == Val(p[..i]) + p[i] * Bn(i) && Val(p[..i]) < Bn(i)
  {
    hide Val, Bn, Pow;
    ValSplit(p, i + 1); ValTake(p, i); ValZeros(p[i + 1..]); ValBound(p[..i]);
    MulSign(Bn(i + 1), 0);
  }

  lemma BitLenOfTop(p: seq<limb>, i: nat, j: nat)
    requires i < |p| && (forall k :: i < k < |p| ==> p[k] == 0)
    requires IsBitLen(p[i], j) && (j > 0 || i == 0)
    ensures 0 <= i * BI_L && IsBitLen(Val(p), i * BI_L + j)
  {
    hide Val, Bn, Pow2, Pow;
    MulSign(i, BI_L);
    TopLimb(p, i);
    BnPow2(i); Pow2Add(i * BI_L, j); Pow2Zero();
    DigitBound(Val(p[..i]), p[i], Bn(i), Pow2(j));
    if j > 0 {
      Pow2Add(i * BI_L, j - 1);
      MulMono(Pow2(j - 1), p[i], Bn(i));
    }
  }

  /** mbedtls_mpi_core_bitlen */
  method CoreBitlen(p: seq<limb>) returns (b: nat)
    ensures b == NumBits(Val(p))
  {
    hide NumBits;
    if |p| == 0 { Pow2Zero(); BitLenUnique(Val(p), 0, NumBits(Val(p))); return 0; }
    var i := |p| - 1;
    while i > 0 && p[i] == 0
      invariant 0 <= i < |p| && forall k :: i < k < |p| ==> p[k] == 0
    {
      i := i - 1;
    }
    var z := Clz(p[i]);
    var j := BI_L - z;
    MulSign(i, BI_L);
    hide Val;
    BitLenOfTop(p, i, j);
    b := i * BI_L + j;
    BitLenUnique(Val(p), b, NumBits(Val(p)));
  }

  // ------------------------------------------------------------- right shift

  /** Limb i after a shift by v bits, 0 < v < biL: what is left of limb i and the
      low bits of limb i+1. */
  function ShrLimb(p: seq<limb>, i: nat, v: nat): (r: limb)
    requires i < |p| && 0 < v < BI_L
    ensures r == p[i] / Pow2(v) + (if i + 1 < |p| then (p[i + 1] % Pow2(v)) * Pow2(BI_L - v) else 0)
  {
    var up := if i + 1 < |p| then ShlW(p[i + 1], BI_L - v) else 0;
    ShrLimbFits(p[i], if i + 1 < |p| then p[i + 1] else 0, v);
    BitOr(ShrW(p[i], v), up)
  }

  lemma ShrLimbFits(x: limb, y: limb, v: nat)
    requires 0 < v < BI_L
    ensures ShlW(y, BI_L - v) == (y % Pow2(v)) * Pow2(BI_L - v)
    ensures BitOr(ShrW(x, v), ShlW(y, BI_L - v)) == x / Pow2(v) + (y % Pow2(v)) * Pow2(BI_L - v) < BASE
    ensures BitOr(ShrW(x, v), 0) == x / Pow2(v)
  {
    hide Pow2;
    var p, k := Pow2(v), Pow2(BI_L - v);
    Pow2Add(v, BI_L - v);
    DivMod(x, p); DivMod(y, p);
    ShlWide(y, y / p, y % p, p, k, BASE);
    MulCancelLt(x / p, k, p);
    DigitBound(x / p, y % p, k, p);
    DivModUnique((y % p) * k, k, y % p, 0);
    BitOrDisjoint((y % p) * k, x / p, BI_L - v);
    BitOrZero(x / p);
  }

  /** The buffer after >>= v, 0 < v < biL. */
  function ShrBits(p: seq<limb>, v: nat): (r: seq<limb>)
    requires 0 < v < BI_L
    ensures |r| == |p|
  {
    seq(|p|, i requires 0 <= i < |p| => ShrLimb(p, i, v))
  }

  /** The bits that cross limb k from above. */
  function Cross(p: seq<limb>, k: nat, v: nat): nat {
    if k < |p| then (DivMod(p[k], Pow2(v)); p[k] % Pow2(v)) else 0
  }

  lemma {:induction false} ShrBitsPrefix(p: seq<limb>, v: nat, k: nat)
    requires 0 < v < BI_L && k <= |p|
    ensures Val(ShrBits(p, v)[..k]) * Pow2(v) + Cross(p, 0, v) == Val(p[..k]) + Cross(p, k, v) * Bn(k)
  {
    var s := ShrBits(p, v);
    if k == 0 {
      BnStep(0);
      assert s[..0] == [] && p[..0] == [];
    } else {
      hide Val, Bn, Pow, Pow2, ShrBits;
      ShrBitsPrefix(p, v, k - 1);
      ValTake(s, k - 1); ValTake(p, k - 1); BnStep(k - 1);
      Pow2Add(v, BI_L - v);
      DivMod(p[k - 1], Pow2(v));
      ShrBitsAt(p, v, k - 1);
      ShrArith(Val(s[..k - 1]), s[k - 1], Bn(k - 1), Pow2(v), Pow2(BI_L - v), Val(p[..k - 1]), p[k - 1],
        p[k - 1] / Pow2(v), p[k - 1] % Pow2(v), Cross(p, k, v), Cross(p, 0, v), BASE);
    }
  }

  lemma ShrBitsAt(p: seq<limb>, v: nat, i: nat)
    requires 0 < v < BI_L && i < |p|
    ensures ShrBits(p, v)[i] == p[i] / Pow2(v) + Cross(p, i + 1, v) * Pow2(BI_L - v)
  {}

  lemma ShrArith(vs: int, s: int, b: int, t: int, u: int, vp: int, x: int, q: int, r: int, c: int, c0: int, m: int)
    requires vs * t + c0 == vp + r * b && x == q * t + r && s == q + c * u && t * u == m
    ensures (vs + s * b) * t + c0 == (vp + x * b) + c * (m * b)
  {
    MulDist(t, vs, s * b); MulAssoc(s, b, t); MulAssoc(s, t, b);
    MulDist(t, q, c * u); MulAssoc(c, u, t);
    MulDist(b, q * t, r); MulDist(b, q * t, c * m); MulAssoc(c, m, b);
  }

  lemma ShrBitsVal(p: seq<limb>, v: nat)
    requires 0 < v < BI_L
    ensures Val(ShrBits(p, v)) == Val(p) / Pow2(v)
  {
    hide Val, Bn, Pow, Pow2, ShrBits;
    ShrBitsPrefix(p, v, |p|);
    assert ShrBits(p, v)[..|p|] == ShrBits(p, v) && p[..|p|] == p;
    MulSign(0, Bn(|p|));
    CrossBound(p, v);
    DivModUnique(Val(p), Pow2(v), Val(ShrBits(p, v)), Cross(p, 0, v));
  }

  lemma CrossBound(p: seq<limb>, v: nat)
    ensures Cross(p, 0, v) < Pow2(v)
  {
    if |p| > 0 { DivMod(p[0], Pow2(v)); }
  }

  /** A bit count as whole limbs and remaining bits: count / biL, count & (biL - 1). */
  function LimbPart(count: nat): (v0: nat) {
    DivMod(count, BI_L);
    count / BI_L
  }

  function BitPart(count: nat): (v1: nat)
    ensures v1 < BI_L
  {
    DivMod(count, BI_L);
    count % BI_L
  }

  lemma CountParts(count: nat)
    ensures 0 <= LimbPart(count) * BI_L && count == LimbPart(count) * BI_L + BitPart(count)
  {
    DivMod(count, BI_L);
    MulSign(count / BI_L, BI_L);
  }

  /** The buffer after mbedtls_mpi_core_shift_r. */
  function ShiftRSeq(p: seq<limb>, count: nat): (r: seq<limb>)
    ensures |r| == |p|
  {
    var n, v0, v1 := |p|, LimbPart(count), BitPart(count);
    if v0 > n || (v0 == n && v1 > 0) then Zeros(n) else
      var q := p[v0..] + Zeros(v0);
      if v1 > 0 then ShrBits(q, v1) else q
  }

  lemma ShiftRVal(p: seq<limb>, count: nat)
    ensures Val(ShiftRSeq(p, count)) == Val(p) / Pow2(count)
  {
    hide Val, Bn, Pow, Pow2, LimbPart, BitPart, ShrBits;
    var n, v0, v1 := |p|, LimbPart(count), BitPart(count);
    CountParts(count);
    BnPow2(v0); Pow2Add(v0 * BI_L, v1);
    DivDiv(Val(p), Bn(v0), Pow2(v1));
    if v0 > n || (v0 == n && v1 > 0) {
      ValZeros(Zeros(n));
      ValBound(p); BnPow2(n);
      MulMono(n, v0, BI_L);
      SmallShift(Val(p), n, count);
    } else {
      ValDrop(p, v0);
      ValConcat(p[v0..], Zeros(v0)); ValZeros(Zeros(v0)); MulSign(Bn(n - v0), 0);
      if v1 > 0 { ShrBitsVal(p[v0..] + Zeros(v0), v1); } else { Pow2Zero(); }
    }
  }

  lemma SmallShift(v: nat, n: nat, count: nat)
    requires v < Bn(n) && 0 <= BI_L * n && Bn(n) == Pow2(BI_L * n) && BI_L * n <= count
    ensures v / Pow2(count) == 0
  {
    PowMono(2, BI_L * n, count);
    ModSmall(v, Pow2(count));
  }

  /** The bit part of the shift, from the top limb down. */
  method ShiftRBits(X: array<limb>, xo: nat, n: nat, v: nat)
    requires Fits(X, xo, n) && 0 < v < BI_L
    modifies X
    ensures OnlyWrote(X, xo, n) && X[xo..xo + n] == old(ShrBits(X[xo..xo + n], v))
  {
    hide ShlW, ShrW, BitOr, Pow2;
    ghost var p := X[xo..xo + n];
    var r0: limb := 0;
    var i := n;
    while i > 0
      invariant 0 <= i <= n && OnlyWrote(X, xo, n)
      invariant r0 == if i < n then ShlW(p[i], BI_L - v) else 0
      invariant forall k :: 0 <= k < i ==> X[xo + k] == p[k]
      invariant forall k :: i <= k < n ==> X[xo + k] == ShrBits(p, v)[k]
    {
      assert X[xo + (i - 1)] == p[i - 1];
      var r1 := ShlW(X[xo + i - 1], BI_L - v);
      ShrLimbFits(p[i - 1], if i < n then p[i] else 0, v);
      X[xo + i - 1] := BitOr(ShrW(X[xo + i - 1], v), r0);
      r0 := r1;
      i := i - 1;
    }
  }

  /** The limb part: limbs move down by v0, zeros follow. */
  method ShiftRLimbs(X: array<limb>, xo: nat, n: nat, v0: nat)
    requires Fits(X, xo, n) && v0 <= n
    modifies X
    ensures OnlyWrote(X, xo, n) && X[xo..xo + n] == old(X[xo + v0..xo + n]) + Zeros(v0)
  {
    ghost var p := X[xo..xo + n];
    ghost var q := p[v0..];
    for i := 0 to n - v0
      invariant OnlyWrote(X, xo, n)
      invariant forall k :: 0 <= k < i ==> X[xo + k] == q[k]
      invariant forall k :: i <= k < n ==> X[xo + k] == p[k]
    {
      assert X[xo + (i + v0)] == p[i + v0] == q[i];
      X[xo + i] := X[xo + i + v0];
    }
    assert X[xo..xo + (n - v0)] == q == old(X[xo + v0..xo + n]);
    MemZero(X, xo + (n - v0), v0);
    assert X[xo..xo + (n - v0)] == q;
  }

  /** mbedtls_mpi_core_shift_r */
  method CoreShiftR(X: array<limb>, xo: nat, n: nat, count: nat)
    requires Fits(X, xo, n)
    modifies X
    ensures OnlyWrote(X, xo, n) && X[xo..xo + n] == old(ShiftRSeq(X[xo..xo + n], count))
  {
    hide LimbPart, ShrBits;
    var v0, v1 := LimbPart(count), BitPart(count);
    ghost var p := X[xo..xo + n];
    if v0 > n || (v0 == n && v1 > 0) {
      MemZero(X, xo, n);
      assert X[xo..xo + n] == Zeros(n);
      return;
    }
    assert X[xo + v0..xo + n] == p[v0..];
    if v0 > 0 { ShiftRLimbs(X, xo, n, v0); } else { assert p == p[0..] + Zeros(0); }
    if v1 > 0 { ShiftRBits(X, xo, n, v1); }
  }

  // -------------------------------------------------------------- left shift

  /** Limb i after <<= t, 0 < t < biL: limb i moved up and the high bits of limb i-1. */
  function ShlLimb(p: seq<limb>, i: nat, t: nat): (r: limb)
    requires i < |p| && 0 < t < BI_L
    ensures r == (p[i] % Pow2(BI_L - t)) * Pow2(t) + (if i > 0 then p[i - 1] / Pow2(BI_L - t) else 0)
  {
    ShlLimbFits(p[i], if i > 0 then p[i - 1] else 0, t);
    BitOr(ShlW(p[i], t), if i > 0 then ShrW(p[i - 1], BI_L - t) else 0)
  }

  lemma ShlLimbFits(x: limb, y: limb, t: nat)
    requires 0 < t < BI_L
    ensures BitOr(ShlW(x, t), ShrW(y, BI_L - t)) == (x % Pow2(BI_L - t)) * Pow2(t) + y / Pow2(BI_L - t) < BASE
    ensures BitOr(ShlW(x, t), 0) == (x % Pow2(BI_L - t)) * Pow2(t) < BASE
  {
    hide Pow2;
    var p, k := Pow2(t), Pow2(BI_L - t);
    Pow2Add(t, BI_L - t);
    DivMod(x, k); DivMod(y, k);
    ShlWide(x, x / k, x % k, k, p, BASE);
    MulCancelLt(y / k, p, k);
    DigitBound(y / k, x % k, p, k); DigitBound(0, x % k, p, k);
    DivModUnique((x % k) * p, p, x % k, 0);
    BitOrDisjoint((x % k) * p, y / k, t);
    BitOrZero((x % k) * p);
  }

  function ShlBits(p: seq<limb>, t: nat): (r: seq<limb>)
    requires 0 < t < BI_L
    ensures |r| == |p|
  {
    seq(|p|, i requires 0 <= i < |p| => ShlLimb(p, i, t))
  }

  /** The bits that leave limb k - 1 upwards. */
  function Spill(p: seq<limb>, k: nat, t: nat): nat
    requires k <= |p| && t <= BI_L
  {
    if k > 0 then (DivMod(p[k - 1], Pow2(BI_L - t)); p[k - 1] / Pow2(BI_L - t)) else 0
  }

  lemma {:induction false} ShlBitsPrefix(p: seq<limb>, t: nat, k: nat)
    requires 0 < t < BI_L && k <= |p|
    ensures Val(ShlBits(p, t)[..k]) + Spill(p, k, t) * Bn(k) == Val(p[..k]) * Pow2(t)
  {
    var s := ShlBits(p, t);
    if k == 0 {
      assert s[..0] == [] && p[..0] == [];
    } else {
      hide Val, Bn, Pow, Pow2, ShlBits;
      ShlBitsPrefix(p, t, k - 1);
      ValTake(s, k - 1); ValTake(p, k - 1); BnStep(k - 1);
      Pow2Add(t, BI_L - t);
      DivMod(p[k - 1], Pow2(BI_L - t));
      ShlBitsAt(p, t, k - 1);
      ShlArith(Val(s[..k - 1]), s[k - 1], Bn(k - 1), Pow2(t), Pow2(BI_L - t), Val(p[..k - 1]), p[k - 1],
        Spill(p, k, t), p[k - 1] % Pow2(BI_L - t), Spill(p, k - 1, t), BASE);
    }
  }

  lemma ShlBitsAt(p: seq<limb>, t: nat, i: nat)
    requires 0 < t < BI_L && i < |p|
    ensures ShlBits(p, t)[i] == (p[i] % Pow2(BI_L - t)) * Pow2(t) + Spill(p, i, t)
  {}

  lemma ShlArith(vs: int, s: int, b: int, t: int, u: int, vp: int, x: int, q: int, r: int, c: int, m: int)
    requires vs + c * b == vp * t && x == q * u + r && s == r * t + c && t * u == m
    ensures (vs + s * b) + q * (m * b) == (vp + x * b) * t
  {
    MulDist(b, r * t, c); MulDist(t, vp, x * b);
    MulAssoc(x, b, t); MulAssoc(x, t, b);
    MulDist(t, q * u, r); MulAssoc(q, u, t);
    MulDist(b, q * m, r * t); MulAssoc(q, m, b);
  }

  lemma {:induction false} NumBitsMono(v: nat, w: nat)
    requires v <= w
    ensures NumBits(v) <= NumBits(w)
  {
    hide NumBits;
    var b, c := NumBits(v), NumBits(w);
    if b > c { PowMono(2, c, b - 1); }
  }
}
