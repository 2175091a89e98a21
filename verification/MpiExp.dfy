/** bignum.c: Montgomery multiplication of Mpi objects and the table of powers
    that sliding-window exponentiation uses. */
module MpiExp {
  import opened Arith
  import opened Limbs
  import opened Core
  import opened Mont
  import opened MontRep
  import opened ReturnCodes
  import opened MpiObject
  import opened MpiDiv

  // ----------------------------------------------- Montgomery products of objects

  method Load(p: seq<limb>) returns (a: array<limb>)
    ensures fresh(a) && a[..] == p
  {
    a := new limb[|p|](i requires 0 <= i < |p| => p[i]);
  }

  /** The limbs montmul reads of a number below b^n are all its limbs. */
  lemma ReadLimbs(p: seq<limb>, n: nat, j: nat)
    requires n <= j <= |p| && Val(p) < Bn(n)
    ensures Val(p[..j]) == Val(p) && ZeroFrom(p, j)
  {
    hide Val, Bn;
    BnMono(n, j);
    SmallZeroFrom(p, j);
    ValZeroFrom(p, j);
  }

  lemma WrittenLimbs(p: seq<limb>, q: seq<limb>, n: nat)
    requires n <= |p| == |q| && ZeroFrom(p, n) && forall k :: n <= k < |p| ==> q[k] == p[k]
    ensures Val(q) == Val(q[..n])
  {
    ValZeroFrom(q, n);
  }

  /** An odd modulus with its constant, and room for the scratch limbs. */
  ghost predicate Ready(N: Mpi, mm: limb, T: Mpi)
    reads N, T
  {
    && N.Valid() && |N.p| >= 1 && N.Mag() % 2 == 1 && N.Value() == N.Mag() && MontConst(mm, N.p[0])
    && T.Valid() && |T.p| >= 2 * |N.p| + 1 && T != N
  }

  /** core_montmul on the buffers of A, B, N and T; the first two may be one. */
  method MontMulLimbs(a: seq<limb>, b: seq<limb>, same: bool, m: seq<limb>, mm: limb, t0: seq<limb>) returns (x: seq<limb>, t: seq<limb>)
    requires 1 <= |m| <= |a| && |b| >= 1 && |t0| >= 2 * |m| + 1 && (same ==> a == b)
    requires MontConst(mm, m[0]) && 0 < Val(m) && Val(b[..Min(|b|, |m| + 2)]) <= Val(m)
    ensures |x| == |a| && |t| == |t0| && forall k :: |m| <= k < |a| ==> x[k] == a[k]
    ensures MontProduct(Val(x[..|m|]), Val(a[..|m|]), Val(b[..Min(|b|, |m| + 2)]), Val(m), |m|)
  {
    hide Val, Bn, MontProduct, MontConst;
    var n := |m|;
    var X := Load(a);
    var B := X;
    if !same { B := Load(b); }
    var N := Load(m);
    var T := Load(t0);
    assert X[0..n] == a[..n] && N[0..n] == m && B[0..Min(|b|, n + 2)] == b[..Min(|b|, n + 2)];
    CoreMontmul(X, 0, X, 0, B, 0, |b|, N, 0, n, mm, T, 0);
    x, t := X[..], T[..];
    assert x[..n] == X[0..n];
  }

  /** mpi_montmul: A = A*B*R^-1 mod N, limbs of A above those of N ignored. */
  method MontMul(A: Mpi, B: Mpi, N: Mpi, mm: limb, T: Mpi)
    requires A.Valid() && B.Valid() && Ready(N, mm, T) && A != N && T != A && T != B
    requires |A.p| >= |N.p| && |B.p| >= 1 && A.Mag() < Bn(|N.p|) && B.Mag() <= N.Mag()
    modifies A, T
    ensures A.Valid() && A.s == old(A.s) && |A.p| == old(|A.p|) && Ready(N, mm, T)
    ensures MontProduct(A.Mag(), old(A.Mag()), old(B.Mag()), N.Mag(), |N.p|)
  {
    hide Val, Bn, MontProduct, MontConst;
    var n, bl := |N.p|, |B.p|;
    ValBound(N.p);
    ReadLimbs(A.p, n, n);
    if n + 2 <= bl { ReadLimbs(B.p, n, n + 2); } else { assert B.p[..bl] == B.p; }
    var x, t := MontMulLimbs(A.p, B.p, A == B, N.p, mm, T.p);
    WrittenLimbs(A.p, x, n);
    A.p := x;
    T.p := t;
  }

  /** Z stands for v in Montgomery form, in a buffer as long as N's. */
  ghost predicate Stands(Z: Mpi, v: int, N: Mpi)
    reads Z, N
  {
    Z.Valid() && Z.s == 1 && |N.p| <= |Z.p| && Rep(Z.Mag(), v, N.Mag(), |N.p|)
  }

  method MulStands(A: Mpi, B: Mpi, N: Mpi, mm: limb, T: Mpi, ghost a: int, ghost b: int)
    requires Ready(N, mm, T) && A != N && T != A && T != B && Stands(A, a, N) && Stands(B, b, N)
    modifies A, T
    ensures Ready(N, mm, T) && Stands(A, a * b, N)
  {
    hide Val, Bn, MontProduct, MontConst, Rep;
    ghost var x, y, n := A.Mag(), B.Mag(), |N.p|;
    RepBound(x, a, N.Mag(), n); RepBound(y, b, N.Mag(), n);
    ValBound(N.p);
    MontMul(A, B, N, mm, T);
    RepMul(x, a, y, b, A.Mag(), N.Mag(), n);
  }

  /** montmul by R^2 mod N. */
  method Enter(A: Mpi, RR: Mpi, N: Mpi, mm: limb, T: Mpi)
    requires Ready(N, mm, T) && A.Valid() && RR.Valid() && A != N && T != A && T != RR && A != RR
    requires |A.p| >= |N.p| && A.s == 1 && A.Mag() < N.Mag() && |RR.p| >= 1 && RR.Mag() < N.Mag()
    requires Cong(RR.Mag(), Bn(|N.p|) * Bn(|N.p|), N.Mag())
    modifies A, T
    ensures Ready(N, mm, T) && Stands(A, old(A.Mag()), N) && |A.p| == old(|A.p|)
  {
    hide Val, Bn, MontProduct, MontConst, Rep, Cong;
    ghost var a := A.Mag();
    ValBound(N.p);
    MontMul(A, RR, N, mm, T);
    RepEnter(a, RR.Mag(), A.Mag(), N.Mag(), |N.p|);
  }

  /** mpi_montred: montmul by 1. */
  method MontRed(A: Mpi, N: Mpi, mm: limb, T: Mpi)
    requires A.Valid() && Ready(N, mm, T) && A != N && T != A && |A.p| >= |N.p| && A.Mag() < N.Mag()
    modifies A, T
    ensures A.Valid() && A.s == old(A.s) && |A.p| == old(|A.p|) && Ready(N, mm, T)
    ensures MontProduct(A.Mag(), old(A.Mag()), 1, N.Mag(), |N.p|)
  {
    hide Val, Bn, MontProduct, MontConst;
    ValBound(N.p);
    var U := new Mpi();
    U.p := [1];
    ValOne(U.p);
    MontMul(A, U, N, mm, T);
  }

  /** R^2 mod N becomes the form of 1. */
  method OneFrom(A: Mpi, N: Mpi, mm: limb, T: Mpi)
    requires A.Valid() && A.s == 1 && Ready(N, mm, T) && A != N && T != A && |A.p| >= |N.p| && A.Mag() < N.Mag()
    requires Cong(A.Mag(), Bn(|N.p|) * Bn(|N.p|), N.Mag())
    modifies A, T
    ensures Ready(N, mm, T) && Stands(A, 1, N)
  {
    hide Val, Bn, MontConst, Rep, Cong;
    ghost var rr := A.Mag();
    MontRed(A, N, mm, T);
    RepEnter(1, rr, A.Mag(), N.Mag(), |N.p|);
  }

  /** Out of Montgomery form: the canonical residue. */
  method Leave(A: Mpi, N: Mpi, mm: limb, T: Mpi, ghost v: int)
    requires Ready(N, mm, T) && A != N && T != A && Stands(A, v, N)
    modifies A, T
    ensures Ready(N, mm, T) && A.Valid() && A.s == 1 && A.Mag() == v % N.Mag()
  {
    hide Val, Bn, MontConst, Rep, MontProduct;
    ghost var x := A.Mag();
    RepBound(x, v, N.Mag(), |N.p|);
    MontRed(A, N, mm, T);
    RepLeave(x, v, A.Mag(), N.Mag(), |N.p|);
  }

  // ------------------------------------------------------------- table lookup

  /** mbedtls_mpi_safe_cond_assign */
  method SafeCondAssign(X: Mpi, Y: Mpi, assign: bool) returns (st: Status)
    requires X.Valid() && Y.Valid() && X != Y
    modifies X
    ensures st.Ok? && X.Valid() && |X.p| == Max(old(|X.p|), |Y.p|)
    ensures assign ==> X.s == Y.s && X.Mag() == Y.Mag()
    ensures !assign ==> X.s == old(X.s) && X.Mag() == old(X.Mag())
  {
    hide Val;
    :- Grow(X, |Y.p|);
    if assign {
      X.s := Y.s;
      ValPad(Y.p, |X.p| - |Y.p|);
      X.p := Y.p + Zeros(|X.p| - |Y.p|);
    }
    st := Ok;
  }

  /** mpi_select: every entry is visited, W[idx] is kept. */
  method Select(R: Mpi, W: seq<Mpi>, idx: nat) returns (st: Status)
    requires R.Valid() && R !in W && idx < |W| && forall i :: 0 <= i < |W| ==> W[i].Valid()
    modifies R
    ensures st.Ok? && R.Valid() && R.s == W[idx].s && R.Mag() == W[idx].Mag() && |R.p| >= |W[idx].p|
  {
    hide Val;
    for i := 0 to |W|
      invariant R.Valid()
      invariant i > idx ==> R.s == W[idx].s && R.Mag() == W[idx].Mag() && |R.p| >= |W[idx].p|
    {
      :- SafeCondAssign(R, W[i], i == idx);
    }
    st := Ok;
  }

  // -------------------------------------------------------- the table of powers

  /** The objects of an exponentiation are all different. */
  ghost predicate Separate(W: seq<Mpi>, WW: Mpi, N: Mpi, T: Mpi) {
    && (forall i, j :: 0 <= i < j < |W| ==> W[i] != W[j])
    && WW !in W && N !in W && T !in W && WW != N && WW != T && T != N
  }

  /** Entries that are filled in: 1, and the upper half. */
  predicate Filled(i: nat, w: nat)
    requires w >= 1
  {
    i == 1 || Pow2(w - 1) <= i < Pow2(w)
  }

  /** W[i] stands for a^i where filled in. W[0] is the accumulator. */
  ghost predicate Table(W: seq<Mpi>, w: nat, a: int, N: Mpi)
    requires w >= 1
    reads set i | 1 <= i < |W| :: W[i]
    reads N
  {
    && |W| == Pow2(w) >= 2
    && (forall i :: 1 <= i < |W| ==> W[i].Valid())
    && (forall i :: 1 <= i < |W| && Filled(i, w) ==> Stands(W[i], Pow(a, i), N))
  }

  /** Squaring count times. */
  method SquareTimes(Z: Mpi, count: nat, N: Mpi, mm: limb, T: Mpi, ghost a: int)
    requires Ready(N, mm, T) && Z != N && Z != T && Stands(Z, a, N)
    modifies Z, T
    ensures Ready(N, mm, T) && Stands(Z, Pow(a, Pow2(count)), N)
  {
    hide Val, Rep, MontConst, Pow, Pow2;
    Pow2Zero(); PowFirst(a);
    for i := 0 to count
      invariant Ready(N, mm, T) && Stands(Z, Pow(a, Pow2(i)), N)
    {
      MulStands(Z, Z, N, mm, T, Pow(a, Pow2(i)), Pow(a, Pow2(i)));
      Pow2Add(1, i); Pow2Zero(); PowAdd(a, Pow2(i), Pow2(i));
    }
  }

  lemma PowFirst(a: int)
    ensures Pow(a, 0) == 1 && Pow(a, 1) == a
  {
    assert Pow(a, 1) == a * Pow(a, 0);
  }

  /** W[i] = a copy of V grown to N->n + 1 limbs. */
  method CopyEntry(Z: Mpi, V: Mpi, N: Mpi, ghost v: int) returns (st: Status)
    requires Z.Valid() && N.Valid() && Z != V && Z != N && |N.p| + 1 <= MAX_LIMBS && 1 <= |N.p| && Stands(V, v, N)
    modifies Z
    ensures st.Ok? && Stands(Z, v, N)
  {
    hide Val, Rep, Sig;
    :- Grow(Z, |N.p| + 1);
    Copy(Z, V);
    st := Ok;
  }
}
