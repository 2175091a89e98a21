/** bignum.c: multiplication by an Mpi and by a limb. */
module MpiMul {
  import opened Arith
  import opened Limbs
  import opened Core
  import opened ReturnCodes
  import opened MpiObject
  import opened MpiAdd
  import opened MpiShift

  // ------------------------------------------------------------- times a limb

  lemma TimesLimbFits(x: seq<limb>, a: seq<limb>, b: limb)
    requires |a| < |x| && Val(x) == Val(a) && b > 0
    ensures Val(MlaSeq(x, a, b - 1, |x|).0) == Val(a) * b
  {
    hide Val, Bn, Pow, MlaSeq;
    ValBound(a); BnStep(|a|); BnMono(|a| + 1, |x|);
    TimesLimbArith(Val(a), b, Bn(|a|), BASE);
    MlaFits(x, a, b - 1);
  }

  lemma TimesLimbArith(v: int, b: int, p: int, m: int)
    requires 0 <= v < p && 0 < b < m
    ensures v + v * (b - 1) == v * b < m * p
  {
    MulDist(v, b, -1);
    MulMono(v, p, b); MulMono(b, m, p);
    if v == 0 { MulSign(m, p); }
  }

  /** X = A * b, also when X is A. */
  method MulInt(X: Mpi, A: Mpi, b: limb) returns (st: Status)
    requires X.Valid() && A.Valid()
    modifies X
    ensures X.Valid()
    ensures st.Ok? ==> X.Value() == old(A.Value()) * b && X.Mag() == old(A.Mag()) * b
    ensures st.Ok? && (b == 0 || old(A.Mag()) == 0) ==> X.s == 1
    ensures st.Ok? && b != 0 && old(A.Mag()) != 0 ==> X.s == old(A.s)
    ensures st == if b != 0 && old(Sig(A.p)) + 1 > MAX_LIMBS then Fail(ERR_ALLOC_FAILED) else Ok
    ensures old(|X.p|) <= |X.p| <= old(Max(|X.p|, Sig(A.p) + 1))
    ensures |X.p| > 0 || st.Fail?
  {
    hide Val, Bn, Pow, MlaSeq, Sig;
    ghost var va := A.Value();
    var n := SigLimbs(A.p, 0);
    ValZeroFrom(A.p, n); ValEmpty();
    if b == 0 || n == 0 {
      MulSign(A.Mag(), 0);
      Lset(X, 0);
      return Ok;
    }
    TopNonZero(A.p, n);
    ghost var a, s := A.p[..n], A.s;
    :- Grow(X, n + 1);
    Copy(X, A);
    assert A.p[..n] == a && X.Mag() == Val(a) && X.s == s;
    TimesLimbFits(X.p, a, b);
    MulAssoc(s, Val(a), b);
    X.p := MlaSeq(X.p, A.p[..n], b - 1, |X.p|).0;
    return Ok;
  }

  // ------------------------------------------------------------ times an Mpi

  /** After k rows X holds A times the low k limbs of B and nothing above. */
  ghost predicate Partial(x: seq<limb>, a: seq<limb>, b: seq<limb>, k: nat) {
    k <= |b| && |a| + |b| <= |x| && ZeroFrom(x, k + |a|) && Val(x) == Val(a) * Val(b[..k])
  }

  /** The buffer after mla(X->p + k, |a| + 1, a, |a|, b[k]). */
  function MulRow(x: seq<limb>, a: seq<limb>, k: nat, bk: limb): (r: seq<limb>)
    requires k + |a| + 1 <= |x|
    ensures |r| == |x|
  {
    x[..k] + MlaSeq(x[k..k + |a| + 1], a, bk, |a| + 1).0 + x[k + |a| + 1..]
  }

  lemma RowSlice(x: seq<limb>, a: seq<limb>, b: seq<limb>, k: nat)
    requires Partial(x, a, b, k) && k < |b|
    ensures var d := x[k..k + |a| + 1];
      Val(x) == Val(x[..k]) + Bn(k) * Val(d) && Val(d) + Val(a) * b[k] < Bn(|a| + 1)
  {
    hide Val, Bn, Pow;
    var n := |a|;
    var d := x[k..k + n + 1];
    ValZeroFrom(x, k + n); ValZeroFrom(x, k + n + 1);
    ValSplit(x[..k + n + 1], k);
    assert x[..k + n + 1][k..] == d && x[..k + n + 1][..k] == x[..k];
    ValZeroFrom(d, n);
    ValBound(d[..n]); ValBound(a);
    BnStep(n);
    RowSliceArith(Val(d), Val(a), b[k], Bn(n), BASE);
  }

  lemma RowSliceArith(d: int, a: int, b: int, p: int, m: int)
    requires 0 <= d < p && 0 <= a < p && 0 <= b < m
    ensures d + a * b < m * p
  {
    MulMono(a, p, b); MulMono(b + 1, m, p); MulDist(p, b, 1);
  }

  lemma RowKeeps(x: seq<limb>, a: seq<limb>, b: seq<limb>, k: nat)
    requires Partial(x, a, b, k) && k < |b|
    ensures Partial(MulRow(x, a, k, b[k]), a, b, k + 1)
  {
    hide Val, Bn, Pow, MlaSeq;
    var n := |a|;
    var d := x[k..k + n + 1];
    var d' := MlaSeq(d, a, b[k], n + 1).0;
    var r := MulRow(x, a, k, b[k]);
    RowSlice(x, a, b, k);
    MlaFits(d, a, b[k]);
    assert r[..k + n + 1] == x[..k] + d';
    assert ZeroFrom(r, k + n + 1);
    ValZeroFrom(r, k + n + 1);
    ValConcat(x[..k], d');
    ValTake(b, k);
    RowArith(Val(x), Val(x[..k]), Bn(k), Val(d), Val(a), b[k], Val(b[..k]));
  }

  lemma RowArith(vx: int, lo: int, p: int, d: int, a: int, bk: int, vb: int)
    requires vx == lo + p * d && vx == a * vb
    ensures lo + p * (d + a * bk) == a * (vb + bk * p)
  {
    MulDist(p, d, a * bk); MulDist(a, vb, bk * p);
    MulAssoc(a, bk, p);
  }

  /** The rows of HAC 14.12 on a cleared buffer. */
  method MulRows(x0: seq<limb>, a: seq<limb>, b: seq<limb>) returns (x: seq<limb>)
    requires |a| + |b| <= |x0| && ZeroFrom(x0, 0)
    ensures |x| == |x0| && Val(x) == Val(a) * Val(b)
  {
    hide Val, MulRow;
    x := x0;
    PartialStart(x, a, b);
    for k := 0 to |b|
      invariant |x| == |x0| && Partial(x, a, b, k)
    {
      RowKeeps(x, a, b, k);
      x := MulRow(x, a, k, b[k]);
    }
    assert b[..|b|] == b;
  }

  lemma PartialStart(x: seq<limb>, a: seq<limb>, b: seq<limb>)
    requires |a| + |b| <= |x| && ZeroFrom(x, 0)
    ensures Partial(x, a, b, 0)
  {
    ValZeros(x);
    assert b[..0] == [];
    MulSign(Val(a), 0);
  }

  lemma SignedProduct(sa: int, a: int, sb: int, b: int)
    requires (sa == 1 || sa == -1) && (sb == 1 || sb == -1) && a >= 0 && b >= 0
    ensures (sa * a) * (sb * b) == (sa * sb) * (a * b)
    ensures a == 0 || b == 0 ==> (sa * a) * (sb * b) == 1 * (a * b) == 0
    ensures a > 0 && b > 0 ==> (sa * sb) * (a * b) != 0
    ensures sa * sb == 1 || sa * sb == -1
  {
    MulSwap(sa, a, sb, b);
    MulSign(a, b);
  }

  /** A copy when X is that operand, so that clearing X does not destroy it. */
  method Detach(X: Mpi, A: Mpi) returns (T: Mpi)
    requires X.Valid() && A.Valid()
    ensures T.Valid() && T != X && T.Value() == A.Value() && T.Mag() == A.Mag() && T.s * T.s == 1
    ensures Sig(T.p) == Sig(A.p) && (X != A ==> T == A) && (X == A ==> fresh(T))
  {
    hide Val, Sig;
    T := A;
    if X == A {
      T := new Mpi();
      Copy(T, A);
      SigBits(T.p); SigBits(A.p);
    }
  }

  /** X = A * B, also when X is A or B. */
  method MulMpi(X: Mpi, A0: Mpi, B0: Mpi) returns (st: Status)
    requires X.Valid() && A0.Valid() && B0.Valid()
    modifies X
    ensures X.Valid()
    ensures st.Ok? ==> X.Value() == old(A0.Value() * B0.Value())
    ensures st.Ok? && X.Value() == 0 ==> X.s == 1
    ensures st == if old(Sig(A0.p) + Sig(B0.p)) > MAX_LIMBS then Fail(ERR_ALLOC_FAILED) else Ok
  {
    hide Val, Sig;
    var A := Detach(X, A0);
    var B := Detach(X, B0);
    var i := SigLimbs(A.p, 0);
    var j := SigLimbs(B.p, 0);
    ValZeroFrom(A.p, i); ValZeroFrom(B.p, j); ValEmpty();
    if i > 0 { TopNonZero(A.p, i); }
    if j > 0 { TopNonZero(B.p, j); }
    SignedProduct(A.s, A.Mag(), B.s, B.Mag());
    :- Grow(X, i + j);
    Lset(X, 0);
    SintAbsZero();
    var x := MulRows(X.p, A.p[..i], B.p[..j]);
    X.p := x;
    X.s := if i == 0 || j == 0 then 1 else A.s * B.s;
    return Ok;
  }

  lemma SintAbsZero()
    ensures IsSint(0) && SintAbs(0) == 0
  {}
}
