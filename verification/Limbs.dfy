/** Limbs: the machine words of bignum_core.h and the number a little-endian
    limb sequence stands for.

    The limb width BI_L is left uninterpreted: everything below holds for every
    power of two from 8 bits upwards, in particular for 32 and 64. */
module Limbs {
  import opened Arith

  predicate IsWidth(w: nat) {
    w == 8 || (w > 8 && w % 2 == 0 && IsWidth(w / 2))
  }

  lemma {:induction false} WidthFacts(w: nat)
    requires IsWidth(w)
    ensures w >= 8 && w % 8 == 0
    ensures Pow2(w) >= 256
  {
    if w > 8 { WidthFacts(w / 2); }
    PowMono(2, 8, w);
    Pow2Small();
  }

  type Width = w: nat | IsWidth(w) witness (assert IsWidth(8); 8)
  type Radix = b: int | b >= 256 witness 256

  /** Bits in a limb (biL), in half a limb (biH), and chars in a limb (ciL). */
  const BI_L: Width
  const BI_H: nat := BI_L / 2
  const CI_L: nat := BI_L / 8

  /** 2^biL and 2^biH. */
  const BASE: Radix := (WidthFacts(BI_L); Pow2(BI_L))
  const HALF: nat := Pow2(BI_H)

  /** mbedtls_mpi_uint */
  type limb = x: int | 0 <= x < BASE

  lemma HalfSquared()
    ensures HALF * HALF == BASE && HALF >= 16
  {
    WidthFacts(BI_L);
    assert BI_H + BI_H == BI_L;
    PowAdd(2, BI_H, BI_H);
    PowMono(2, 4, BI_H);
    Pow2Small();
  }

  // ----------------------------------------------- wrapping word operations

  function AddW(a: limb, b: limb): limb {
    if a + b < BASE then a + b else a + b - BASE
  }

  function SubW(a: limb, b: limb): limb {
    if a >= b then a - b else a - b + BASE
  }

  function MulW(a: limb, b: limb): limb {
    DivMod(a * b, BASE);
    (a * b) % BASE
  }

  /** x << k, bits beyond the limb lost. */
  function ShlW(x: limb, k: nat): limb {
    DivMod(x * Pow2(k), BASE);
    (x * Pow2(k)) % BASE
  }

  /** x >> k */
  function ShrW(x: limb, k: nat): (r: limb)
    ensures r <= x
  {
    DivMod(x, Pow2(k));
    MulMono(1, Pow2(k), x / Pow2(k));
    x / Pow2(k)
  }

  /** A C comparison used as a number. */
  function Bit(b: bool): limb { if b then 1 else 0 }

  /** The wrapping operations agree with integer arithmetic modulo 2^biL. */
  lemma WrapIsMod(a: limb, b: limb)
    ensures AddW(a, b) == (a + b) % BASE
    ensures SubW(a, b) == (a - b) % BASE
  {
    DivModUnique(a + b, BASE, if a + b < BASE then 0 else 1, AddW(a, b));
    DivModUnique(a - b, BASE, if a >= b then 0 else -1, SubW(a, b));
  }

  lemma WrapCong(a: limb, b: limb)
    ensures Cong(AddW(a, b), a + b, BASE) && Cong(SubW(a, b), a - b, BASE) && Cong(MulW(a, b), a * b, BASE)
  {
    WrapIsMod(a, b);
    var x: int, y: int := a, b;
    CongMod(x + y, BASE); CongMod(x - y, BASE); CongMod(x * y, BASE);
  }

  // -------------------------------------------------- value of limb strings

  /** 2^(biL*n) */
  function Bn(n: nat): (r: nat)
    ensures r > 0
  {
    Pow(BASE, n)
  }

  lemma BnStep(n: nat)
    ensures Bn(n + 1) == BASE * Bn(n)
    ensures Bn(0) == 1 && Bn(1) == BASE
  {
    assert Pow(BASE, 1) == BASE * Pow(BASE, 0);
  }

  lemma BnAdd(m: nat, n: nat)
    ensures Bn(m + n) == Bn(m) * Bn(n)
  {
    PowAdd(BASE, m, n);
  }

  lemma BnPow2(n: nat)
    ensures 0 <= BI_L * n && Bn(n) == Pow2(BI_L * n)
  {
    PowMul(2, BI_L, n);
  }

  /** The number sum s[i] * 2^(biL*i). */
  function Val(s: seq<limb>): (r: nat)
  {
    if |s| == 0 then 0 else
      var k := |s| - 1;
      MulSign(s[k], Bn(k));
      Val(s[..k]) + s[k] * Bn(k)
  }

  lemma ValEmpty()
    ensures Val([]) == 0
  {}

  lemma ValSnoc(s: seq<limb>, x: limb)
    ensures Val(s + [x]) == Val(s) + x * Bn(|s|)
  {
    assert (s + [x])[..|s|] == s;
  }

  /** One more limb of a prefix. */
  lemma ValTake(s: seq<limb>, i: nat)
    requires i < |s|
    ensures Val(s[..i + 1]) == Val(s[..i]) + s[i] * Bn(i)
  {
    assert s[..i + 1][..i] == s[..i];
  }

  lemma {:induction false} ValConcat(s: seq<limb>, t: seq<limb>)
    ensures Val(s + t) == Val(s) + Bn(|s|) * Val(t)
    decreases |t|
  {
    if |t| == 0 {
      assert s + t == s;
    } else {
      var k := |t| - 1;
      ValConcat(s, t[..k]);
      assert s + t == (s + t[..k]) + [t[k]];
      ValSnoc(s + t[..k], t[k]);
      BnAdd(|s|, k);
      MulAssoc(Bn(|s|), t[k], Bn(k));
      MulAssoc(t[k], Bn(|s|), Bn(k));
      MulDist(Bn(|s|), Val(t[..k]), t[k] * Bn(k));
    }
  }

  /** Splitting a sequence at i. */
  lemma ValSplit(s: seq<limb>, i: nat)
    requires i <= |s|
    ensures Val(s) == Val(s[..i]) + Bn(i) * Val(s[i..])
  {
    assert s == s[..i] + s[i..];
    ValConcat(s[..i], s[i..]);
  }

  /** Dropping i limbs is dividing by 2^(biL*i); keeping them is the remainder. */
  lemma ValDrop(s: seq<limb>, i: nat)
    requires i <= |s|
    ensures Val(s[i..]) == Val(s) / Bn(i) && Val(s[..i]) == Val(s) % Bn(i)
  {
    hide Val, Bn, Pow;
    ValSplit(s, i);
    ValBound(s[..i]);
    DivModUnique(Val(s), Bn(i), Val(s[i..]), Val(s[..i]));
  }

  lemma {:induction false} ValBound(s: seq<limb>)
    ensures Val(s) < Bn(|s|)
  {
    if |s| == 0 {
      BnStep(0);
    } else {
      var k := |s| - 1;
      ValBound(s[..k]);
      BnStep(k);
      DigitBound(Val(s[..k]), s[k], Bn(k), BASE);
    }
  }

  /** Replacing one limb. */
  lemma ValUpdate(s: seq<limb>, j: nat, x: limb)
    requires j < |s|
    ensures Val(s[j := x]) == Val(s) + (x - s[j]) * Bn(j)
  {
    var t := s[j := x];
    ValSplit(s, j + 1); ValSplit(t, j + 1);
    assert t[j + 1..] == s[j + 1..] && t[..j] == s[..j];
    ValTake(s, j); ValTake(t, j);
    hide Val, Bn, Pow;
    var y: int, z: int := x, s[j];
    MulDist(Bn(j), y, -z); MulNeg(z, Bn(j));
  }

  /** A non-zero top limb bounds the value from below. */
  lemma ValAtLeast(s: seq<limb>)
    requires |s| > 0 && s[|s| - 1] != 0
    ensures Val(s) >= Bn(|s| - 1)
  {
    MulMono(1, s[|s| - 1], Bn(|s| - 1));
  }

  lemma BnMono(m: nat, n: nat)
    requires m <= n
    ensures Bn(m) <= Bn(n)
  {
    PowMono(BASE, m, n);
  }

  lemma {:induction false} ValZeros(s: seq<limb>)
    requires forall i :: 0 <= i < |s| ==> s[i] == 0
    ensures Val(s) == 0
  {
    if |s| > 0 { ValZeros(s[..|s| - 1]); }
  }

  lemma {:induction false} ValZeroOnly(s: seq<limb>)
    requires Val(s) == 0
    ensures forall i :: 0 <= i < |s| ==> s[i] == 0
  {
    if |s| > 0 {
      var k := |s| - 1;
      MulMono(if s[k] == 0 then 0 else 1, s[k], Bn(k));
      ValZeroOnly(s[..k]);
    }
  }

  /** A fixed number of limbs represents a number in one way only. */
  lemma {:induction false} ValInjective(s: seq<limb>, t: seq<limb>)
    requires |s| == |t| && Val(s) == Val(t)
    ensures s == t
  {
    if |s| > 0 {
      var k := |s| - 1;
      ValBound(s[..k]); ValBound(t[..k]);
      DivModUnique(Val(s), Bn(k), s[k], Val(s[..k]));
      DivModUnique(Val(s), Bn(k), t[k], Val(t[..k]));
      ValInjective(s[..k], t[..k]);
      assert s == s[..k] + [s[k]] && t == t[..k] + [t[k]];
    }
  }

  lemma ValOne(s: seq<limb>)
    requires |s| == 1
    ensures Val(s) == s[0]
  {
    BnStep(0);
    assert s[..0] == [];
  }

  /** The low limb decides the value modulo 2^biL, hence its parity. */
  lemma ValLow(s: seq<limb>)
    requires |s| > 0
    ensures Cong(Val(s), s[0], BASE)
    ensures Val(s) % 2 == s[0] % 2
  {
    ValSplit(s, 1);
    ValOne(s[..1]);
    BnStep(0);
    BaseEven();
    LowDigit(Val(s), s[0], Val(s[1..]), BASE);
  }

  lemma LowDigit(v: int, d: int, h: int, b: int)
    requires v == d + b * h && b > 0 && b % 2 == 0
    ensures Cong(v, d, b) && v % 2 == d % 2
  {
    CongIntro(v, d, b, h);
    MulAssoc(2, b / 2, h);
    SameParity(v, d, (b / 2) * h);
  }

  lemma BaseEven()
    ensures BASE % 2 == 0
  {
    WidthFacts(BI_L);
    assert Pow2(BI_L) == 2 * Pow2(BI_L - 1);
    hide Pow2, Pow;
    SameParity(BASE, 0, Pow2(BI_L - 1));
  }

  // ----------------------------------------------------- pointers into arrays

  /** o .. o+n lies inside the array. */
  predicate Fits(a: array<limb>, o: nat, n: nat) { o + n <= a.Length }

  /** Two n-limb operands are the same operand or do not overlap. */
  predicate Alias(x: array<limb>, xo: nat, a: array<limb>, ao: nat, n: nat) {
    x != a || xo == ao || Apart(x, xo, n, a, ao, n)
  }

  predicate Apart(x: array<limb>, xo: nat, xn: nat, a: array<limb>, ao: nat, an: nat) {
    x != a || xo + xn <= ao || ao + an <= xo
  }

  /** Nothing of a outside o .. o+n was written. */
  twostate predicate OnlyWrote(a: array<limb>, o: nat, n: nat)
    reads a
  {
    forall k :: 0 <= k < a.Length && (k < o || o + n <= k) ==> a[k] == old(a[k])
  }
}
