/** bignum.c: long division (HAC 14.20) and reduction modulo an Mpi. */
module MpiDiv {
  import opened Arith
  import opened Limbs
  import opened WordDiv
  import opened Bits
  import opened ReturnCodes
  import opened MpiObject
  import opened MpiAdd
  import opened MpiShift
  import opened MpiMul

  // -------------------------------------------- leading limbs of the operands

  /** Limb i of p, or 0 below the buffer, as in (i < 2) ? 0 : p[i - 2]. */
  function At(p: seq<limb>, i: int): limb
    requires i < |p|
  {
    if i < 0 then 0 else p[i]
  }

  /** y_t*b + y_(t-1): the two leading limbs of the divisor. */
  function Top2(y: seq<limb>, t: nat): nat
    requires t < |y|
  {
    MulSign(y[t], BASE);
    y[t] * BASE + At(y, t - 1)
  }

  /** x_i*b^2 + x_(i-1)*b + x_(i-2): three leading limbs of the dividend. */
  function Top3(x: seq<limb>, i: nat): nat
    requires i < |x|
  {
    MulSign(x[i], BASE); MulSign(x[i] * BASE + At(x, i - 1), BASE);
    (x[i] * BASE + At(x, i - 1)) * BASE + At(x, i - 2)
  }

  /** A string below limb j: one more limb splits off at a cost below its weight. */
  lemma SplitLimb(p: seq<limb>, j: nat)
    requires 0 < j <= |p|
    ensures Val(p[..j]) == Val(p[..j - 1]) + p[j - 1] * Bn(j - 1)
    ensures Val(p[..j - 1]) < Bn(j - 1) && Bn(j) == BASE * Bn(j - 1)
  {
    ValTake(p, j - 1); ValBound(p[..j - 1]); BnStep(j - 1);
  }

  /** The divisor lies between its two leading limbs and one more than them. */
  lemma DivisorTop(y: seq<limb>, t: nat)
    requires t < |y| && ZeroFrom(y, t + 1)
    ensures y[t] * Bn(t) <= Val(y) && Top2(y, t) * Bn(t) <= Val(y) * BASE <= (Top2(y, t) + 1) * Bn(t)
    ensures y[t] != 0 ==> Bn(t) <= Val(y)
  {
    hide Val, Bn, Pow;
    ValZeroFrom(y, t + 1);
    SplitLimb(y, t + 1);
    if t == 0 {
      assert y[..0] == []; ValEmpty(); BnStep(0);
    } else {
      SplitLimb(y, t);
    }
    DivisorArith(Val(y), y[t], At(y, t - 1), if t == 0 then 0 else Val(y[..t - 1]), if t == 0 then 0 else Bn(t - 1), Bn(t), BASE, t == 0);
  }

  lemma DivisorArith(v: int, yt: int, yu: int, lo: int, q: int, p: int, m: int, first: bool)
    requires m > 0 && p > 0 && 0 <= yt && 0 <= yu && 0 <= lo
    requires first ==> v == 0 + yt * p && p == 1 && yu == 0 && lo == 0
    requires !first ==> v == (lo + yu * q) + yt * p && lo < q && p == m * q
    ensures yt * p <= v && (yt * m + yu) * p <= v * m <= (yt * m + yu + 1) * p
    ensures yt != 0 ==> p <= v
  {
    MulMono(if yt == 0 then 0 else 1, yt, p);
    MulDist(p, yt * m, yu); MulDist(p, yt * m + yu, 1); MulAssoc(yt, m, p); MulAssoc(yt, p, m);
    if first {
      MulDist(m, 0, yt * p);
    } else {
      MulSign(yu, q); MulMono(0, yu, q);
      MulDist(m, lo + yu * q, yt * p); MulDist(m, lo, yu * q);
      MulAssoc(yu, q, m);
      MulMono(0, lo, m); MulMono(lo, q, m);
    }
  }

  /** The same for the dividend and three limbs; limbs above i are zero. */
  lemma DividendTop(x: seq<limb>, i: nat)
    requires 0 < i < |x| && ZeroFrom(x, i + 1)
    ensures Top3(x, i) * Bn(i) <= (Val(x) * BASE) * BASE < (Top3(x, i) + 1) * Bn(i)
    ensures Val(x) < (x[i] * BASE + x[i - 1] + 1) * Bn(i - 1)
  {
    hide Val, Bn, Pow;
    ValZeroFrom(x, i + 1);
    SplitLimb(x, i + 1);
    SplitLimb(x, i);
    if i == 1 {
      assert x[..0] == []; ValEmpty(); BnStep(0);
    } else {
      SplitLimb(x, i - 1);
    }
    DividendArith(Val(x), x[i], x[i - 1], At(x, i - 2), if i == 1 then 0 else Val(x[..i - 2]), Val(x[..i - 1]),
      if i == 1 then 0 else Bn(i - 2), Bn(i - 1), Bn(i), BASE, i == 1);
  }

  lemma DividendArith(v: int, a: int, b: int, c: int, lo: int, l1: int, r: int, q: int, p: int, m: int, first: bool)
    requires m > 0 && q > 0 && v == (l1 + b * q) + a * p && p == m * q && 0 <= l1 < q
    requires first ==> l1 == 0 && q == 1 && c == 0
    requires !first ==> l1 == lo + c * r && 0 <= lo < r && q == m * r
    ensures v < (a * m + b + 1) * q
    ensures ((a * m + b) * m + c) * p <= (v * m) * m < ((a * m + b) * m + c + 1) * p
  {
    var h := a * m + b;
    assert v == l1 + h * q by { MulDist(q, a * m, b); MulAssoc(a, m, q); }
    MulDist(q, h, 1);
    TwiceScaled(v, l1, h, q, p, m);
    if first { MulSign(m, m); } else { LowPart(l1, lo, c, r, q, p, m); }
    MulDist(p, h * m, c); MulDist(p, h * m + c, 1);
  }

  lemma TwiceScaled(v: int, l1: int, h: int, q: int, p: int, m: int)
    requires v == l1 + h * q && p == m * q
    ensures (v * m) * m == (l1 * m) * m + (h * m) * p
  {
    MulDist(m, l1, h * q); MulAssoc(h, q, m);
    MulDist(m, l1 * m, h * p); MulAssoc(h, p, m); MulAssoc(h, m, p);
  }

  lemma LowPart(l1: int, lo: int, c: int, r: int, q: int, p: int, m: int)
    requires m > 0 && l1 == lo + c * r && 0 <= lo < r && q == m * r && p == m * q
    ensures c * p <= (l1 * m) * m < c * p + p
  {
    MulDist(m, lo, c * r); MulAssoc(c, r, m);
    MulDist(m, lo * m, c * q); MulAssoc(c, q, m);
    MulMono(0, lo, m); MulMono(0, lo * m, m);
    MulMonoStrict(lo, r, m); MulMonoStrict(lo * m, q, m);
  }

  // ------------------------------------------------ estimating one quotient digit

  /** Scale by b twice: q*(Y*P) against X becomes (q*(Y*b))*(P*b) against X*b*b. */
  lemma Scale(q: int, y: int, p: int, m: int)
    ensures ((q * (y * p)) * m) * m == (q * (y * m)) * (p * m)
  {
    MulAssoc(q * (y * p), m, m);
    MulAssoc(q, y * p, m * m);
    MulSwap(y, p, m, m);
    MulAssoc(q, y * m, p * m);
  }

  /** If q times the two leading limbs exceeds the three leading limbs of X, then q
      times the whole divisor exceeds X. */
  lemma TestIsSound(q: int, y2: int, top3: int, x: int, y: int, m: int, bt: int, p: int, bi: int)
    requires m > 0 && bt > 0 && p > 0 && q >= 0 && bi == bt * (p * m)
    requires y2 * bt <= y * m && (x * m) * m < (top3 + 1) * bi && q * y2 > top3
    ensures q * (y * p) > x
  {
    Scale(q, y, p, m);
    MulSign(p, m); MulSign(bt, p * m);
    MulMono(y2 * bt, y * m, q); MulMono(q * (y2 * bt), q * (y * m), p * m);
    MulAssoc(q, y2, bt); MulAssoc(q * y2, bt, p * m);
    MulMono(top3 + 1, q * y2, bi);
    MulCancelLt(x * m, (q * (y * p)) * m, m);
    MulCancelLt(x, q * (y * p), m);
  }

  /** If it does not exceed them, q is at most one too high. */
  lemma AtMostOneTooHigh(q: int, y2: int, top3: int, x: int, y: int, m: int, bt: int, p: int, bi: int)
    requires m > 0 && bt > 0 && p > 0 && 0 <= q < m && bi == bt * (p * m) && bt <= y
    requires y * m <= (y2 + 1) * bt && top3 * bi <= (x * m) * m && q * y2 <= top3
    ensures q * (y * p) < x + y * p
  {
    Scale(q, y, p, m);
    MulSign(p, m); MulSign(bt, p * m);
    MulMono(y * m, (y2 + 1) * bt, q); MulMono(q * (y * m), q * ((y2 + 1) * bt), p * m);
    MulAssoc(q, y2 + 1, bt); MulAssoc(q * (y2 + 1), bt, p * m);
    MulDist(q, y2, 1); MulDist(bi, q * y2, q);
    MulMono(q * y2, top3, bi);
    assert q * bi < m * bi by { MulMonoStrict(q, m, bi); }
    assert m * bi <= ((y * p) * m) * m by {
      MulMono(bt, y, p * m); MulAssoc(y, p, m); MulMono(bi, (y * p) * m, m);
    }
    MulDist(m, x, y * p); MulDist(m, x * m, (y * p) * m);
    MulCancelLt((q * (y * p)) * m, (x + y * p) * m, m);
    MulCancelLt(q * (y * p), x + y * p, m);
  }

  /** The first estimate, from one limb of the divisor, is not too low. */
  lemma FirstEstimate(z: int, yt: int, x2: int, x: int, y: int, bt: int, p: int, bu: int)
    requires bt > 0 && p > 0 && z >= 0 && bu == bt * p
    requires yt * bt <= y && x < (x2 + 1) * bu && x2 < z * yt + yt
    ensures x < z * (y * p) + y * p
  {
    MulDist(yt, z, 1);
    MulSign(bt, p);
    MulMono(x2 + 1, (z + 1) * yt, bu);
    MulAssoc((z + 1) * yt, bt, p); MulAssoc(z + 1, yt, bt);
    MulMono(yt * bt, y, z + 1); MulMono((z + 1) * (yt * bt), (z + 1) * y, p);
    MulAssoc(z + 1, y, p); MulDist(y * p, z, 1);
  }

  /** Operands of a digit: Y has its top limb at t, X is below Y*b^(i-t). */
  ghost predicate DigitReady(x: seq<limb>, y: seq<limb>, i: nat, t: nat) {
    && t < i < |x| && t < |y| && y[t] != 0 && ZeroFrom(y, t + 1) && ZeroFrom(x, i + 1)
    && Val(x) < Val(y) * Bn(i - t)
  }

  /** z is the digit or one more. */
  ghost predicate DigitOrOneMore(x: nat, y: nat, p: nat, z: int) {
    z * (y * p) < x + y * p && x < z * (y * p) + y * p
  }

  ghost predicate NotLow(x: nat, y: nat, p: nat, z: int) {
    x < z * (y * p) + y * p
  }

  lemma StartNotLow(x: seq<limb>, y: seq<limb>, i: nat, t: nat, z: limb)
    requires DigitReady(x, y, i, t)
    requires x[i] >= y[t] ==> z == BASE - 1
    requires x[i] < y[t] ==> x[i] * BASE + x[i - 1] < z * y[t] + y[t]
    ensures NotLow(Val(x), Val(y), Bn(i - t - 1), z)
  {
    hide Val, Bn, Pow;
    DivisorTop(y, t); DividendTop(x, i); BnStep(i - t - 1);
    BnAdd(t, i - t - 1);
    if x[i] >= y[t] {
      FullDigit(Val(x), Val(y), Bn(i - t - 1), BASE);
    } else {
      FirstEstimate(z, y[t], x[i] * BASE + x[i - 1], Val(x), Val(y), Bn(t), Bn(i - t - 1), Bn(i - 1));
    }
  }

  lemma FullDigit(x: int, y: int, p: int, m: int)
    requires x < y * (m * p)
    ensures x < (m - 1) * (y * p) + y * p
  {
    MulDist(y * p, m, -1); MulAssoc(y, m, p); MulAssoc(m, y, p);
  }

  /** How leading limbs and whole operands compare, with b^i = b^t * b^(i-t-1) * b. */
  lemma DigitFacts(x: seq<limb>, y: seq<limb>, i: nat, t: nat)
    requires DigitReady(x, y, i, t)
    ensures Top2(y, t) * Bn(t) <= Val(y) * BASE <= (Top2(y, t) + 1) * Bn(t) && Bn(t) <= Val(y)
    ensures Top3(x, i) * Bn(i) <= (Val(x) * BASE) * BASE < (Top3(x, i) + 1) * Bn(i)
    ensures Bn(i) == Bn(t) * (Bn(i - t - 1) * BASE)
  {
    hide Val, Pow, Bn, Top2, Top3;
    DivisorTop(y, t); DividendTop(x, i);
    Weights(i, t);
  }

  lemma Weights(i: nat, t: nat)
    requires t < i
    ensures Bn(i) == Bn(t) * (Bn(i - t - 1) * BASE)
  {
    BnStep(i - t - 1);
    BnAdd(t, i - t);
  }

  /** T1 = z*Top2 above T2 = Top3: z is too high and may be lowered. */
  lemma CompareAbove3(x: seq<limb>, y: seq<limb>, i: nat, t: nat, z: limb)
    requires DigitReady(x, y, i, t) && z * Top2(y, t) > Top3(x, i)
    ensures z > 0 && NotLow(Val(x), Val(y), Bn(i - t - 1), z - 1)
  {
    hide Val, Bn, Pow, Top2, Top3;
    DigitFacts(x, y, i, t);
    var p := Bn(i - t - 1);
    TestIsSound(z, Top2(y, t), Top3(x, i), Val(x), Val(y), BASE, Bn(t), p, Bn(i));
    DownOne(z, Val(y) * p, Val(x));
    MulCancelLt(0, z, Top2(y, t));
  }

  lemma DownOne(z: int, w: int, x: int)
    requires z * w > x
    ensures x < (z - 1) * w + w
  {
    MulDist(w, z, -1);
  }

  /** T1 not above T2: the search stops with the digit or one more. */
  lemma CompareBelow3(x: seq<limb>, y: seq<limb>, i: nat, t: nat, z: limb)
    requires DigitReady(x, y, i, t) && NotLow(Val(x), Val(y), Bn(i - t - 1), z) && z * Top2(y, t) <= Top3(x, i)
    ensures DigitOrOneMore(Val(x), Val(y), Bn(i - t - 1), z)
  {
    hide Val, Bn, Pow, Top2, Top3;
    DigitFacts(x, y, i, t);
    AtMostOneTooHigh(z, Top2(y, t), Top3(x, i), Val(x), Val(y), BASE, Bn(t), Bn(i - t - 1), Bn(i));
  }

  lemma TwoLimbs(p: seq<limb>)
    requires |p| >= 2 && ZeroFrom(p, 2)
    ensures Val(p) == p[1] * BASE + p[0]
  {
    ValZeroFrom(p, 2);
    SplitLimb(p, 2); SplitLimb(p, 1);
    assert p[..0] == []; BnStep(0);
  }

  lemma ThreeLimbs(p: seq<limb>)
    requires |p| == 3
    ensures Val(p) == (p[2] * BASE + p[1]) * BASE + p[0]
  {
    hide Val, Bn, Pow;
    assert p[..3] == p && p[..0] == [];
    SplitLimb(p, 3); SplitLimb(p, 2); SplitLimb(p, 1);
    ValEmpty(); BnStep(0);
    MulDist(BASE, p[2] * BASE, p[1]); MulAssoc(p[2], BASE, BASE);
  }

  /** T1 := the two leading limbs of Y times z. */
  method LeadingProduct(T1: Mpi, Y: Mpi, t: nat, z: limb) returns (st: Status)
    requires T1.Valid() && Y.Valid() && T1 != Y && t < |Y.p| && |T1.p| >= 3
    modifies T1
    ensures T1.Valid() && |T1.p| == old(|T1.p|)
    ensures st.Ok? && T1.Value() == z * Top2(Y.p, t)
  {
    hide Val, Sig, Top2, At;
    Lset(T1, 0);
    T1.p := T1.p[0 := At(Y.p, t - 1)];
    T1.p := T1.p[1 := Y.p[t]];
    Top2Is(Y.p, t, T1.p); SigBelow(T1.p, 2);
    assert T1.Value() == Top2(Y.p, t);
    st := MulInt(T1, T1, z);
  }

  lemma Top2Is(y: seq<limb>, t: nat, p: seq<limb>)
    requires t < |y| && |p| >= 2 && ZeroFrom(p, 2) && p[0] == At(y, t - 1) && p[1] == y[t]
    ensures Val(p) == Top2(y, t)
  {
    hide Val;
    TwoLimbs(p);
  }

  /** The do-while loop that lowers the estimate until the leading limbs agree. */
  method EstimateDigit(X: Mpi, Y: Mpi, T1: Mpi, i: nat, t: nat) returns (st: Status, z: limb)
    requires X.Valid() && Y.Valid() && T1.Valid() && T1 != X && T1 != Y && |T1.p| >= 3
    requires DigitReady(X.p, Y.p, i, t)
    modifies T1
    ensures T1.Valid() && |T1.p| == old(|T1.p|)
    ensures st.Ok? && DigitOrOneMore(X.Mag(), Y.Mag(), Bn(i - t - 1), z)
  {
    hide Val, Bn, Pow, Top2, Top3, NotLow, DigitOrOneMore;
    ghost var x, y, p := X.p, Y.p, Bn(i - t - 1);
    if X.p[i] >= Y.p[t] {
      z := BASE - 1;
    } else {
      var q, rem := IntDivInt(X.p[i], X.p[i - 1], Y.p[t]);
      z := q;
    }
    StartNotLow(x, y, i, t, z);
    var T2 := new Mpi();
    T2.p := [At(X.p, i - 2), At(X.p, i - 1), X.p[i]];
    Top3Is(X.p, i, T2.p);
    z := AddW(z, 1);
    var again := true;
    while again
      invariant T1.Valid() && |T1.p| == old(|T1.p|) && T2.Valid() && T2.Value() == Top3(x, i)
      invariant again ==> NotLow(Val(x), Val(y), p, SubW(z, 1))
      invariant !again ==> DigitOrOneMore(Val(x), Val(y), p, z)
      decreases if again then SubW(z, 1) + 1 else 0
    {
      z := SubW(z, 1);
      :- LeadingProduct(T1, Y, t, z);
      var c := CmpMpi(T1, T2);
      again := c > 0;
      if again { CompareAbove3(x, y, i, t, z); } else { CompareBelow3(x, y, i, t, z); }
    }
    st := Ok;
  }

  lemma Top3Is(x: seq<limb>, i: nat, p: seq<limb>)
    requires i < |x| && p == [At(x, i - 2), At(x, i - 1), x[i]]
    ensures Val(p) == Top3(x, i)
  {
    hide Val;
    ThreeLimbs(p);
  }

  // ----------------------------------------------- subtracting one quotient digit

  /** T1 moved up e limbs within its buffer. */
  method ShiftLimbs(T1: Mpi, m: nat, e: nat) returns (st: Status)
    requires T1.Valid() && T1.s == 1 && T1.Mag() < Bn(m) && m + e <= |T1.p|
    modifies T1
    ensures T1.Valid() && T1.s == 1 && |T1.p| == old(|T1.p|)
    ensures st.Ok? && T1.Mag() == old(T1.Mag()) * Bn(e)
  {
    hide Val, Bn, Pow, Pow2, BitsToLimbs, NumBits;
    BitsRoom(T1.Mag(), m, e);
    BnPow2(e);
    st := ShiftL(T1, BI_L * e);
  }

  lemma DigitProductFits(y: seq<limb>, t: nat, z: limb)
    requires t < |y| && ZeroFrom(y, t + 1)
    ensures Val(y) < Bn(t + 1) && Val(y) * z < Bn(t + 2)
  {
    hide Val, Bn, Pow;
    ValZeroFrom(y, t + 1); ValBound(y[..t + 1]); BnStep(t + 1);
    MulMono(Val(y), Bn(t + 1), z); MulMonoStrict(z, BASE, Bn(t + 1));
  }

  /** T1 := Y*z moved up e limbs. */
  method ScaledDivisor(T1: Mpi, Y: Mpi, t: nat, e: nat, z: limb) returns (st: Status)
    requires T1.Valid() && Y.Valid() && T1 != Y && t < |Y.p| && ZeroFrom(Y.p, t + 1) && Y.s == 1
    requires t + 2 + e <= |T1.p|
    modifies T1
    ensures T1.Valid() && |T1.p| == old(|T1.p|) && T1.s == 1
    ensures st.Ok? && T1.Mag() == z * (Y.Mag() * Bn(e))
  {
    hide Val, Bn, Pow, Sig;
    SigBelow(Y.p, t + 1);
    DigitProductFits(Y.p, t, z);
    :- MulInt(T1, Y, z);
    :- ShiftLimbs(T1, t + 2, e);
    MulAssoc(z, Y.Mag(), Bn(e));
    st := Ok;
  }

  /** X -= z*Y*b^e, with one add-back if that went below zero. */
  method ApplyDigit(X: Mpi, Y: Mpi, T1: Mpi, t: nat, e: nat, z: limb) returns (st: Status, d: limb)
    requires X.Valid() && Y.Valid() && T1.Valid() && T1 != X && T1 != Y && X != Y
    requires t < |Y.p| && Y.p[t] != 0 && ZeroFrom(Y.p, t + 1) && Y.s == 1 && X.s == 1
    requires t + 2 + e <= |T1.p| && DigitOrOneMore(X.Mag(), Y.Mag(), Bn(e), z)
    modifies X, T1
    ensures X.Valid() && T1.Valid() && |T1.p| == old(|T1.p|) && old(|X.p|) <= |X.p| <= old(Max(|X.p|, |T1.p|))
    ensures st.Ok? && X.s == 1 && old(X.Mag()) == d * (Y.Mag() * Bn(e)) + X.Mag() && X.Mag() < Y.Mag() * Bn(e)
  {
    hide Val, Bn, Pow, Sig, Sign;
    ghost var x, w := X.Mag(), Y.Mag() * Bn(e);
    d := z;
    :- ScaledDivisor(T1, Y, t, e, z);
    :- SubMpi(X, X, T1);
    var c := CmpInt(X, 0);
    SignDef(X.Value());
    if c < 0 {
      DigitProductFits(Y.p, t, 1); SigBelow(Y.p, t + 1);
      Copy(T1, Y);
      :- ShiftLimbs(T1, t + 1, e);
      :- AddMpi(X, X, T1);
      AddBack(z, w, x);
      d := SubW(d, 1);
    }
    st := Ok;
  }

  lemma AddBack(z: int, w: int, x: int)
    requires x >= 0 && x - z * w < 0 && w > 0 && z >= 0
    ensures z >= 1 && x - z * w + w == x - (z - 1) * w
  {
    MulDist(w, z, -1);
    if z == 0 { MulSign(0, w); }
  }

  // ------------------------------------------------------------- normalisation

  /** Copies of |A| and |B| shifted left by k bits fill their buffers exactly. */
  ghost predicate Normal(x: seq<limb>, y: seq<limb>, a: nat, b: nat, k: nat) {
    && Val(x) == a * Pow2(k) && Val(y) == b * Pow2(k)
    && 0 < |y| <= |x| && y[|y| - 1] != 0
  }

  /** The buffer of a shifted copy: as many limbs as its bits need. */
  lemma ShiftedSize(v: nat, k: nat, size: nat)
    requires v > 0 && size == Max(BitsToLimbs(NumBits(v)), BitsToLimbs(NumBits(v) + k))
    ensures v * Pow2(k) >= 0 && size == BitsToLimbs(NumBits(v * Pow2(k)))
  {
    hide NumBits, BitsToLimbs, Pow2;
    NumBitsShift(v, k);
    BitsToLimbsMono(NumBits(v), NumBits(v) + k);
  }

  lemma FullBuffer(p: seq<limb>)
    requires |p| == BitsToLimbs(NumBits(Val(p))) && Val(p) > 0
    ensures |p| > 0 && p[|p| - 1] != 0
  {
    hide NumBits, BitsToLimbs, Sig, Val;
    SigBits(p);
    if |p| == 0 { ValEmpty(); }
  }

  lemma OneMoreLimb(v: nat, j: nat, k: nat)
    requires BitsToLimbs(NumBits(v)) <= j && k < BI_L
    ensures BitsToLimbs(NumBits(v) + k) <= j + 1
  {
    BitsToLimbsVal(NumBits(v)); BitsToLimbsVal(NumBits(v) + k);
    hide NumBits, BitsToLimbs;
    MulDist(BI_L, j, 1); MulSign(j, BI_L);
  }

  /** A working copy of |A| shifted left by k. */
  method ShiftedCopy(A: Mpi, k: nat) returns (st: Status, X: Mpi)
    requires A.Valid() && A.Mag() > 0 && k < BI_L && Sig(A.p) < MAX_LIMBS
    ensures fresh(X) && X.Valid() && X.s == 1 && st.Ok?
    ensures X.Mag() == A.Mag() * Pow2(k) && |X.p| == BitsToLimbs(NumBits(X.Mag())) <= Sig(A.p) + 1
  {
    hide Val, Pow2, Pow, NumBits, BitsToLimbs, Sig;
    if |A.p| == 0 { ValEmpty(); }
    X := new Mpi();
    Copy(X, A);
    X.s := 1;
    SigBits(A.p);
    if Sig(A.p) == 0 { ValZeroFrom(A.p, 0); ValEmpty(); }
    ghost var v := X.Mag();
    Pow2Zero(); NumBitsShift(v, 0);
    OneMoreLimb(v, Sig(A.p), k);
    if k > 0 {
      :- ShiftL(X, k);
      ShiftedSize(v, k, |X.p|);
    }
    st := Ok;
  }

  lemma NormalFrom(x: seq<limb>, y: seq<limb>, a: nat, b: nat, k: nat)
    requires Val(x) == a * Pow2(k) && Val(y) == b * Pow2(k) && a >= b > 0
    requires |x| == BitsToLimbs(NumBits(Val(x))) && |y| == BitsToLimbs(NumBits(Val(y)))
    ensures Normal(x, y, a, b, k)
  {
    hide Val, Pow2, NumBits, BitsToLimbs;
    MulMono(b, a, Pow2(k)); MulSign(b, Pow2(k));
    NumBitsMono(Val(y), Val(x));
    BitsToLimbsMono(NumBits(Val(y)), NumBits(Val(x)));
    FullBuffer(y);
  }

  lemma SigMono(x: seq<limb>, y: seq<limb>)
    requires Val(x) <= Val(y)
    ensures Sig(x) <= Sig(y)
  {
    hide Val, NumBits, BitsToLimbs, Sig;
    SigBits(x); SigBits(y);
    NumBitsMono(Val(x), Val(y));
    BitsToLimbsMono(NumBits(Val(x)), NumBits(Val(y)));
  }

  /** k brings the bit length of B to biL - 1 modulo biL. */
  method Normalise(A: Mpi, B: Mpi) returns (st: Status, X: Mpi, Y: Mpi, k: nat)
    requires A.Valid() && B.Valid() && A.Mag() >= B.Mag() > 0 && |A.p| < MAX_LIMBS
    ensures fresh(X) && fresh(Y) && X != Y && X.Valid() && Y.Valid() && X.s == Y.s == 1 && st.Ok?
    ensures Normal(X.p, Y.p, A.Mag(), B.Mag(), k) && |X.p| <= |A.p| + 1
  {
    hide Val, Pow2, Pow, NumBits, BitsToLimbs, Sig;
    SigMono(B.p, A.p);
    var b := Bitlen(B);
    k := BitPart(b);
    if k < BI_L - 1 { k := BI_L - 1 - k; } else { k := 0; }
    X :- ShiftedCopy(A, k);
    Y :- ShiftedCopy(B, k);
    NormalFrom(X.p, Y.p, A.Mag(), B.Mag(), k);
    st := Ok;
  }

  // ------------------------------------------------------------ the digit loops

  /** A value below b^j leaves limbs from j on zero. */
  lemma SmallZeroFrom(p: seq<limb>, j: nat)
    requires j <= |p| && Val(p) < Bn(j)
    ensures ZeroFrom(p, j)
  {
    var m := Sig(p);
    if m > j {
      hide Val, Bn, Pow;
      ValZeroFrom(p, m); ValAtLeast(p[..m]); BnMono(j, m - 1);
    }
  }

  /** A value of at least b^j below b^(j+1) has its top limb at j. */
  lemma TopLimbAt(p: seq<limb>, j: nat)
    requires j < |p| && Bn(j) <= Val(p) < Bn(j + 1)
    ensures p[j] != 0 && ZeroFrom(p, j + 1)
  {
    hide Val, Bn, Pow;
    SmallZeroFrom(p, j + 1);
    ValZeroFrom(p, j + 1); SplitLimb(p, j + 1);
    if p[j] == 0 { MulSign(0, Bn(j)); }
  }

  /** Y has its top limb at t, in a buffer that may be longer. */
  ghost predicate TopAt(y: seq<limb>, t: nat) {
    t < |y| && y[t] != 0 && ZeroFrom(y, t + 1)
  }

  lemma TopAtBounds(y: seq<limb>, t: nat)
    requires TopAt(y, t)
    ensures Bn(t) <= Val(y) < Bn(t + 1)
  {
    hide Val, Bn, Pow;
    DivisorTop(y, t);
    ValZeroFrom(y, t + 1); ValBound(y[..t + 1]);
  }

  /** One more multiple of w taken off; fewer than b fit. */
  lemma OneMultipleMore(q: int, w: int, x: int, x0: int)
    requires x0 == q * w + x && x >= w > 0 && x0 < BASE * w
    ensures x0 == (q + 1) * w + (x - w) && q + 1 < BASE
  {
    MulDist(w, q, 1);
    MulCancelLt(q + 1, BASE, w);
  }

  /** Y is taken off X as long as it goes in, and the times are counted. */
  method CountMultiples(X: Mpi, Y: Mpi) returns (st: Status, q: limb)
    requires X.Valid() && Y.Valid() && X != Y && X.s == Y.s == 1 && |Y.p| <= |X.p|
    requires 0 < Y.Mag() && X.Mag() < BASE * Y.Mag()
    modifies X
    ensures X.Valid() && X.s == 1 && |X.p| == old(|X.p|)
    ensures st.Ok? && old(X.Mag()) == q * Y.Mag() + X.Mag() && X.Mag() < Y.Mag()
  {
    hide Val, Sign;
    ghost var x0, w := X.Mag(), Y.Mag();
    q := 0;
    MulSign(0, w);
    var c := CmpMpi(X, Y);
    SignDef(X.Mag() - w);
    while c >= 0
      invariant X.Valid() && X.s == 1 && |X.p| == old(|X.p|)
      invariant x0 == q * w + X.Mag() && (c >= 0 <==> X.Mag() >= w)
      decreases X.Mag()
    {
      OneMultipleMore(q, w, X.Mag(), x0);
      q := q + 1;
      :- SubMpi(X, X, Y);
      c := CmpMpi(X, Y);
      SignDef(X.Mag() - w);
    }
    st := Ok;
  }

  /** Y moved up to the length of X: fewer than b multiples of it fit. */
  lemma MovedUp(x: seq<limb>, y: seq<limb>, n: nat, t: nat)
    requires t <= n && |x| == n + 1 && TopAt(y, t)
    ensures 0 < Val(y) * Bn(n - t) && Val(x) < BASE * (Val(y) * Bn(n - t))
    ensures Val(y) < Bn(t + 1)
  {
    hide Val, Bn, Pow;
    TopAtBounds(y, t);
    BnAdd(t, n - t); BnStep(n); ValBound(x);
    MulMono(Bn(t), Val(y), Bn(n - t));
    MulMono(Bn(n), Val(y) * Bn(n - t), BASE);
  }

  /** The first loop: how often Y*b^(n-t) goes into X. */
  method LeadingDigit(X: Mpi, Y: Mpi, n: nat, t: nat) returns (st: Status, q: limb)
    requires X.Valid() && Y.Valid() && X != Y && X.s == Y.s == 1 && t <= n
    requires |X.p| == n + 1 && |Y.p| == t + 1 && Y.p[t] != 0
    modifies X, Y
    ensures X.Valid() && Y.Valid() && X.s == Y.s == 1 && |X.p| == n + 1 && TopAt(Y.p, t)
    ensures st.Ok? && Y.Mag() == old(Y.Mag())
    ensures old(X.Mag()) == q * (Y.Mag() * Bn(n - t)) + X.Mag() && X.Mag() < Y.Mag() * Bn(n - t)
  {
    hide Val, Bn, Pow, Pow2, BitsToLimbs, NumBits, ShiftRSeq;
    ghost var y := Y.Mag();
    TopAtBounds(Y.p, t);
    MovedUp(X.p, Y.p, n, t);
    BitsRoom(y, t + 1, n - t); BnPow2(n - t);
    :- ShiftL(Y, BI_L * (n - t));
    q :- CountMultiples(X, Y);
    DivModUnique(y * Bn(n - t), Bn(n - t), y, 0);
    ShiftR(Y, BI_L * (n - t));
    TopLimbAt(Y.p, t);
    st := Ok;
  }

  /** Digits from e up are known: v == z*y + x, and x has only lower digits left. */
  ghost predicate Known(z: seq<limb>, x: nat, y: nat, v: nat, e: nat) {
    && v == Val(z) * y + x && x < y * Bn(e)
    && e <= |z| && forall k :: 0 <= k < e ==> z[k] == 0
  }

  lemma SetDigit(z: seq<limb>, e: nat, d: limb, x: nat, x': nat, y: nat, v: nat)
    requires Known(z, x, y, v, e + 1)
    requires x == d * (y * Bn(e)) + x' && x' < y * Bn(e)
    ensures Known(z[e := d], x', y, v, e)
  {
    hide Val, Bn, Pow;
    ValUpdate(z, e, d);
    MulDist(y, Val(z), d * Bn(e));
    MulAssoc(d, y, Bn(e)); MulAssoc(d, Bn(e), y);
  }

  lemma NextDigit(x: seq<limb>, y: seq<limb>, i: nat, t: nat)
    requires TopAt(y, t) && t < i < |x| && Val(x) < Val(y) * Bn(i - t)
    ensures DigitReady(x, y, i, t)
  {
    hide Val, Bn, Pow;
    TopAtBounds(y, t);
    BnAdd(t + 1, i - t);
    MulMono(Val(y), Bn(t + 1), Bn(i - t));
    SmallZeroFrom(x, i + 1);
  }

  lemma KnownFacts(z: seq<limb>, x: nat, y: nat, v: nat, e: nat)
    requires Known(z, x, y, v, e)
    ensures x < y * Bn(e) && e <= |z|
  {}

  /** The main loop: one digit of Z at a time, from limb n of X down to t + 1. */
  method LowerDigits(X: Mpi, Y: Mpi, Z: Mpi, T1: Mpi, n: nat, t: nat, ghost v: nat) returns (st: Status)
    requires X.Valid() && Y.Valid() && Z.Valid() && T1.Valid()
    requires X != Y && X != Z && X != T1 && Y != Z && Y != T1 && Z != T1
    requires X.s == Y.s == Z.s == 1 && t <= n < |X.p| && TopAt(Y.p, t) && |T1.p| >= n + 2 && |T1.p| >= 3
    requires Known(Z.p, X.Mag(), Y.Mag(), v, n - t)
    modifies X, Z, T1
    ensures X.Valid() && Z.Valid() && X.s == Z.s == 1 && |Z.p| == old(|Z.p|) && n < |X.p|
    ensures st.Ok? && Known(Z.p, X.Mag(), Y.Mag(), v, 0)
  {
    hide Val, Bn, Pow, Known, DigitReady, DigitOrOneMore;
    for i := n downto t
      invariant X.Valid() && Z.Valid() && T1.Valid() && X.s == Z.s == 1 && n < |X.p|
      invariant |T1.p| == old(|T1.p|) && |Z.p| == old(|Z.p|)
      invariant Known(Z.p, X.Mag(), Y.Mag(), v, i - t)
    {
      ghost var z0, x0 := Z.p, X.Mag();
      KnownFacts(Z.p, X.Mag(), Y.Mag(), v, i - t + 1);
      NextDigit(X.p, Y.p, i + 1, t);
      var e := i - t;
      var z :- EstimateDigit(X, Y, T1, i + 1, t);
      Z.p := Z.p[e := z];
      var d :- ApplyDigit(X, Y, T1, t, e, z);
      SetDigit(z0, e, d, x0, X.Mag(), Y.Mag(), v);
      assert Z.p[e := d] == z0[e := d];
      Z.p := Z.p[e := d];
    }
    st := Ok;
  }

  // ------------------------------------------------------------- the whole routine

  lemma KnownStart(z: seq<limb>, x: seq<limb>, y: seq<limb>, n: nat, t: nat)
    requires t <= n && |x| == n + 1 && TopAt(y, t) && n - t + 1 <= |z| && ZeroFrom(z, 0)
    ensures Known(z, Val(x), Val(y), Val(x), n - t + 1)
  {
    hide Val, Bn, Pow;
    TopAtBounds(y, t);
    ValBound(x); ValZeros(z);
    BnAdd(t, n - t + 1); MulMono(Bn(t), Val(y), Bn(n - t + 1));
    MulSign(0, Val(y));
  }

  /** Z is the quotient of the magnitudes and X, shifted back by k, the remainder. */
  lemma Finished(z: seq<limb>, x: nat, a: nat, b: nat, k: nat)
    requires b > 0 && b * Pow2(k) >= 0 && a * Pow2(k) >= 0 && Known(z, x, b * Pow2(k), a * Pow2(k), 0)
    ensures Val(z) == a / b && x / Pow2(k) == a % b
  {
    hide Val, Bn, Pow, Pow2;
    BnStep(0);
    Unscale(a, b, Pow2(k), Val(z), x);
    DivModUnique(a, b, Val(z), x / Pow2(k));
  }

  /** |A| and |B| divided: everything after the early return. */
  method DivideMagnitudes(A: Mpi, B: Mpi) returns (st: Status, Z: Mpi, X: Mpi, k: nat)
    requires A.Valid() && B.Valid() && A.Mag() >= B.Mag() > 0
    ensures fresh(Z) && fresh(X) && Z != X && Z.Valid() && X.Valid() && Z.s == 1
    ensures st == if |A.p| + 2 <= MAX_LIMBS then Ok else Fail(ERR_ALLOC_FAILED)
    ensures st.Ok? ==> Z.Mag() == A.Mag() / B.Mag() && X.Mag() / Pow2(k) == A.Mag() % B.Mag()
    ensures st.Ok? ==> |Z.p| == |A.p| + 2 && |X.p| > 0
  {
    hide Val, Bn, Pow, Pow2, Known, Sig;
    Z := new Mpi();
    X := new Mpi();
    k := 0;
    var T1 := new Mpi();
    if |A.p| == 0 { ValEmpty(); }
    :- Grow(Z, |A.p| + 2);
    Lset(Z, 0); SintAbsZero();
    :- Grow(T1, |A.p| + 2);
    var Y: Mpi;
    X, Y, k :- Normalise(A, B);
    var n, t := |X.p| - 1, |Y.p| - 1;
    ghost var v, y, x0, z0 := X.Mag(), Y.Mag(), X.Mag(), Z.p;
    KnownStart(Z.p, X.p, Y.p, n, t);
    var q :- LeadingDigit(X, Y, n, t);
    SetDigit(z0, n - t, q, x0, X.Mag(), y, v);
    Z.p := Z.p[n - t := q];
    :- LowerDigits(X, Y, Z, T1, n, t, v);
    Finished(Z.p, X.Mag(), A.Mag(), B.Mag(), k);
    st := Ok;
  }

  /** Division rounding towards zero, on magnitudes and signs. */
  function Quot(a: int, b: int): int
    requires b != 0
  {
    var q := Abs(a) / Abs(b);
    if (a < 0) == (b < 0) then q else -q
  }

  function Rem(a: int, b: int): int
    requires b != 0
  {
    if a < 0 then -(Abs(a) % Abs(b)) else Abs(a) % Abs(b)
  }

  /** A = Q*B + R with |R| < |B| and R of the sign of A ... */
  lemma QuotRem(a: int, b: int)
    requires b != 0
    ensures a == Quot(a, b) * b + Rem(a, b) && Abs(Rem(a, b)) < Abs(b)
    ensures Rem(a, b) == 0 || (Rem(a, b) < 0) == (a < 0)
  {
    var q, r := Abs(a) / Abs(b), Abs(a) % Abs(b);
    DivMod(Abs(a), Abs(b));
    MulNeg(q, b); MulNeg(q, -b);
  }

  /** ... and these determine both. */
  lemma QuotRemUnique(a: int, b: int, q: int, r: int)
    requires b != 0 && a == q * b + r && Abs(r) < Abs(b) && (r == 0 || (r < 0) == (a < 0))
    ensures q == Quot(a, b) && r == Rem(a, b)
  {
    var q' := if (a < 0) == (b < 0) then q else -q;
    MulNeg(q, b); MulNeg(q, -b);
    assert Abs(a) == q' * Abs(b) + Abs(r);
    DivModUnique(Abs(a), Abs(b), q', Abs(r));
  }


  lemma SignedQuot(sa: int, a: nat, sb: int, b: nat)
    requires (sa == 1 || sa == -1) && (sb == 1 || sb == -1) && b > 0
    ensures sb * b != 0 && Abs(sa * a) == a
    ensures Quot(sa * a, sb * b) == sa * sb * (a / b)
    ensures Rem(sa * a, sb * b) == sa * (a % b)
  {
    if a == 0 { ModSmall(0, b); }
  }

  /** Q->s = A->s * B->s is read after Q was overwritten, so a sign is lost when Q is
      A or B and that operand is negative. */
  predicate SignLost(aliasA: bool, a: int, aliasB: bool, b: int) {
    (aliasA && a < 0) != (aliasB && b < 0)
  }

  /** The remainder stored when Q is A: A is 0 by then, or has the sign of B. */
  function LateRem(a: int, b: int): int
    requires b != 0
  {
    if Abs(a) < Abs(b) then 0 else if b < 0 then -(Abs(a) % Abs(b)) else Abs(a) % Abs(b)
  }

  /** A quotient of the wrong sign is right only if it is 0. */
  lemma NegatedQuot(a: int, b: int)
    requires b != 0
    ensures Quot(a, b) == -Quot(a, b) <==> Abs(a) < Abs(b)
  {
    if Abs(a) < Abs(b) { ModSmall(Abs(a), Abs(b)); } else { QuotientRange(Abs(a), Abs(b)); }
  }

  /** When the late remainder is the remainder nevertheless. */
  predicate RemKept(a: int, b: int)
    requires b != 0
  {
    a == 0 || (Abs(a) >= Abs(b) && ((a < 0) == (b < 0) || Abs(a) % Abs(b) == 0))
  }

  lemma LateRemRight(a: int, b: int)
    requires b != 0
    ensures LateRem(a, b) == Rem(a, b) <==> RemKept(a, b)
  {
    if Abs(a) < Abs(b) { ModSmall(Abs(a), Abs(b)); }
  }

  lemma QuotientRange(a: nat, b: nat)
    requires a >= b > 0
    ensures 1 <= a / b <= a
  {
    DivMod(a, b);
    var q := a / b;
    if q < 1 { MulSign(0, b); }
    MulMono(1, b, q);
  }

  /** The sign that is read for the quotient, and the one for the remainder. */
  function QuotSign(sa: int, sb: int, aliasA: bool, aliasB: bool): int {
    (if aliasA then 1 else sa) * (if aliasB then 1 else sb)
  }

  function RemSign(sa: int, sb: int, aliasA: bool, aliasB: bool): int {
    if aliasA then (if aliasB then 1 else sb) else sa
  }

  /** What is stored in Q, by signs and magnitudes. */
  lemma QuotStored(sa: int, a: nat, sb: int, b: nat, aliasA: bool, aliasB: bool, q: int)
    requires (sa == 1 || sa == -1) && (sb == 1 || sb == -1) && b > 0
    requires q == if a < b then 0 else QuotSign(sa, sb, aliasA, aliasB) * (a / b)
    ensures sb * b != 0
    ensures q == if SignLost(aliasA, sa * a, aliasB, sb * b) then -Quot(sa * a, sb * b) else Quot(sa * a, sb * b)
    ensures q == Quot(sa * a, sb * b) <==> !SignLost(aliasA, sa * a, aliasB, sb * b) || a < b
  {
    SignedQuot(sa, a, sb, b);
    NegatedQuot(sa * a, sb * b);
    if a < b { ModSmall(a, b); }
    hide Quot;
  }

  /** What is stored in R. */
  lemma RemStored(sa: int, a: nat, sb: int, b: nat, aliasA: bool, aliasB: bool, r: int)
    requires (sa == 1 || sa == -1) && (sb == 1 || sb == -1) && b > 0 && (aliasA && aliasB ==> a == b)
    requires r == if a < b then (if aliasA then 0 else sa * a) else RemSign(sa, sb, aliasA, aliasB) * (a % b)
    ensures sb * b != 0 && r == if aliasA then LateRem(sa * a, sb * b) else Rem(sa * a, sb * b)
    ensures r == Rem(sa * a, sb * b) <==> !aliasA || RemKept(sa * a, sb * b)
  {
    LateRemRight(sa * a, sb * b);
    hide RemKept;
    SignedQuot(sa, a, sb, b);
    if a < b { ModSmall(a, b); }
    if a == b { DivModUnique(a, b, 1, 0); }
  }

  /** A copied to the remainder, with no more limbs than the divisor. */
  method CopyRest(R: Mpi, A: Mpi, ghost most: seq<limb>)
    requires R.Valid() && A.Valid() && A.Mag() <= Val(most)
    modifies R
    ensures R.Valid() && R.Value() == old(A.Value())
    ensures old(|R.p|) <= |R.p| <= Max(old(|R.p|), Max(1, |most|))
    ensures old(A.s) == 1 && old(R.s) == 1 ==> R.s == 1
  {
    hide Val, Sig;
    SigMono(A.p, most);
    Copy(R, A);
  }

  method StoreQuotient(Q: Mpi, Z: Mpi, A: Mpi, B: Mpi, ghost most: seq<limb>)
    requires Q.Valid() && Z.Valid() && A.Valid() && B.Valid() && Q != Z && Z != A && Z != B && Z.s == 1 && |Z.p| > 0
    requires Z.Mag() <= Val(most)
    modifies Q
    ensures Q.Valid() && Q.Mag() == Z.Mag()
    ensures old(|Q.p|) <= |Q.p| <= Max(old(|Q.p|), Max(1, |most|))
    ensures Q.s == old((if Q == A then 1 else A.s) * (if Q == B then 1 else B.s))
  {
    hide Val, Sig;
    SigMono(Z.p, most);
    Copy(Q, Z);
    Q.s := A.s * B.s;
  }

  method StoreRemainder(R: Mpi, X: Mpi, A: Mpi, k: nat, ghost most: seq<limb>)
    requires R.Valid() && X.Valid() && A.Valid() && X != R && X != A
    requires X.Mag() / Pow2(k) <= Val(most)
    modifies R, X
    ensures old(|R.p|) <= |R.p| <= Max(old(|R.p|), Max(1, |most|))
    ensures R.Valid() && R.Value() == old(A.s * (X.Mag() / Pow2(k)))
    ensures old(A.s) == 1 && old(|X.p|) > 0 ==> R.s == 1
  {
    hide Val, Sig, Pow2, Pow, Sign, ShiftRSeq;
    ShiftR(X, k);
    X.s := A.s;
    SigMono(X.p, most);
    Copy(R, X);
    var r0 := CmpInt(R, 0);
    SignDef(R.Value());
    if r0 == 0 { R.s := 1; }
  }

  /** Both outputs when |A| < |B|. */
  method StoreSmall(Q: Mpi?, R: Mpi?, A: Mpi, B: Mpi)
    requires A.Valid() && B.Valid() && (Q != null ==> Q.Valid()) && (R != null ==> R.Valid() && R != Q) && A.Mag() < B.Mag()
    modifies Q, R
    ensures Q != null ==> Q.Valid() && old(|Q.p|) <= |Q.p| <= Max(1, old(|Q.p|)) && Q.Value() == 0
    ensures R != null ==> R.Valid() && old(|R.p|) <= |R.p| <= old(Max(|R.p|, Max(1, |B.p|)))
    ensures R != null ==> R.Value() == if Q == A then 0 else old(A.Value())
    ensures R != null && Q != A && old(A.s) == 1 && old(R.s) == 1 ==> R.s == 1
  {
    hide Val;
    ghost var bp := B.p;
    if Q != null { Lset(Q, 0); }
    if R != null { CopyRest(R, A, bp); }
  }

  /** ... and when |A| >= |B|, from the quotient in Z and the scaled remainder in X. */
  method StoreLarge(Q: Mpi?, R: Mpi?, A: Mpi, B: Mpi, Z: Mpi, X: Mpi, k: nat)
    requires A.Valid() && B.Valid() && (Q != null ==> Q.Valid()) && (R != null ==> R.Valid() && R != Q)
    requires Z.Valid() && X.Valid() && Z != X && {Z, X} !! {A, B, Q, R} && Z.s == 1 && |Z.p| > 0 && |X.p| > 0
    requires A.Mag() >= B.Mag() > 0 && Z.Mag() == A.Mag() / B.Mag() && X.Mag() / Pow2(k) == A.Mag() % B.Mag()
    modifies Q, R, X
    ensures Q != null ==> Q.Valid() && old(|Q.p|) <= |Q.p| <= old(Max(|Q.p|, Max(1, |A.p|)))
    ensures R != null ==> R.Valid() && old(|R.p|) <= |R.p| <= old(Max(|R.p|, Max(1, |B.p|)))
    ensures Q != null ==> Q.Value() == old(QuotSign(A.s, B.s, Q == A, Q == B) * (A.Mag() / B.Mag()))
    ensures R != null ==> R.Value() == old(RemSign(A.s, B.s, Q == A, Q == B) * (A.Mag() % B.Mag()))
    ensures R != null && Q != A && old(A.s) == 1 && old(R.s) == 1 ==> R.s == 1
  {
    hide Val, Pow2, Pow;
    ghost var a, b, ap, bp := A.Mag(), B.Mag(), A.p, B.p;
    QuotientRange(a, b); DivMod(a, b);
    if Q != null { StoreQuotient(Q, Z, A, B, ap); }
    if R != null { StoreRemainder(R, X, A, k, bp); }
  }

  /** A = Q*B + R. Q and R are two objects; either may be absent. */
  method DivMpi(Q: Mpi?, R: Mpi?, A: Mpi, B: Mpi) returns (st: Status)
    requires A.Valid() && B.Valid() && (Q != null ==> Q.Valid()) && (R != null ==> R.Valid() && R != Q)
    modifies Q, R
    ensures Q != null ==> Q.Valid() && old(|Q.p|) <= |Q.p| <= old(Max(|Q.p|, Max(1, |A.p|)))
    ensures R != null ==> R.Valid() && old(|R.p|) <= |R.p| <= old(Max(|R.p|, Max(1, |B.p|)))
    ensures st.Fail? ==> (Q != null ==> Q.Value() == old(Q.Value())) && (R != null ==> R.Value() == old(R.Value()))
    ensures st == if old(B.Value()) == 0 then Fail(ERR_DIVISION_BY_ZERO)
      else if old(A.Mag() >= B.Mag()) && old(|A.p|) + 2 > MAX_LIMBS then Fail(ERR_ALLOC_FAILED) else Ok
    ensures st.Ok? && Q != null && !SignLost(Q == A, old(A.Value()), Q == B, old(B.Value())) ==>
      Q.Value() == Quot(old(A.Value()), old(B.Value()))
    ensures st.Ok? && Q != null && SignLost(Q == A, old(A.Value()), Q == B, old(B.Value())) ==>
      Q.Value() == -Quot(old(A.Value()), old(B.Value()))
    ensures st.Ok? && Q != null ==>
      (Q.Value() == Quot(old(A.Value()), old(B.Value())) <==>
        !SignLost(Q == A, old(A.Value()), Q == B, old(B.Value())) || old(A.Mag() < B.Mag()))
    ensures st.Ok? && R != null && Q != A ==> R.Value() == Rem(old(A.Value()), old(B.Value()))
    ensures st.Ok? && R != null && Q == A ==> R.Value() == LateRem(old(A.Value()), old(B.Value()))
    ensures st.Ok? && R != null ==>
      (R.Value() == Rem(old(A.Value()), old(B.Value())) <==> Q != A || RemKept(old(A.Value()), old(B.Value())))
    ensures st.Ok? && R != null && Q != A && old(A.s) == 1 && old(R.s) == 1 ==> R.s == 1
  {
    hide RemKept, Val, Sign, Sig, Quot, Rem, LateRem, Pow2, Pow, SignLost;
    ghost var sa, a, sb, b := A.s, A.Mag(), B.s, B.Mag();
    var z := CmpInt(B, 0);
    SignDef(B.Value());
    if z == 0 { return Fail(ERR_DIVISION_BY_ZERO); }
    var c := CmpAbs(A, B);
    SignDef(A.Mag() - B.Mag());
    if c < 0 {
      StoreSmall(Q, R, A, B);
    } else {
      var Z, X, k :- DivideMagnitudes(A, B);
      StoreLarge(Q, R, A, B, Z, X, k);
    }
    if Q != null { QuotStored(sa, a, sb, b, Q == A, Q == B, Q.Value()); }
    if R != null { RemStored(sa, a, sb, b, Q == A, Q == B, R.Value()); }
    return Ok;
  }

  /** -4 divided by 2 in place comes out as 2. */
  method QuotientSignLost() returns (Q: Mpi)
    ensures Q.Value() == 2 && Quot(-4, 2) == -2
  {
    hide Val;
    Q := Small(-4);
    var B := Small(2);
    var st := DivMpi(Q, null, Q, B);
  }

  /** 1 divided by 2 with the quotient in place of the dividend leaves remainder 0. */
  method RemainderLost() returns (Q: Mpi, R: Mpi)
    ensures Q.Value() == 0 && R.Value() == 0 && Rem(1, 2) == 1
  {
    hide Val;
    Q := Small(1);
    R := new Mpi();
    var B := Small(2);
    var st := DivMpi(Q, R, Q, B);
  }
}
