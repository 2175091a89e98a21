/** bignum_mod_raw.c: arithmetic on limb arrays below a modulus. */
module ModRaw {
  import opened Arith
  import opened Limbs
  import opened Core
  import opened Mont
  import opened MontRep
  import opened ExpCore
  import opened Fermat
  import opened MpiObject

  datatype RepSelector = RepInvalid | RepMontgomery | RepOptRed

  /** mbedtls_mpi_mod_modulus; null pointers are empty arrays. */
  class Modulus {
    var p: array<limb>
    var limbs: nat
    var bits: nat
    var rep: RepSelector
    var mm: limb
    var rr: array<limb>

    constructor ()
      ensures limbs == 0 && bits == 0 && rep.RepInvalid?
    {
      p, limbs, bits, rep, mm, rr := new limb[0], 0, 0, RepInvalid, 0, new limb[0];
    }

    /** The modulus as a number. */
    ghost function V(): nat
      reads this, p
    {
      if limbs <= p.Length then Val(p[..limbs]) else 0
    }

    /** Set up; in Montgomery form for an odd number and with both constants. */
    ghost predicate Usable()
      reads this, p, rr
    {
      && 1 <= limbs <= p.Length && p != rr
      && (rep.RepMontgomery? ==>
           && V() % 2 == 1 && MontConst(mm, p[0]) && limbs <= rr.Length
           && Val(rr[..limbs]) < V() && Cong(Val(rr[..limbs]), Bn(limbs) * Bn(limbs), V()))
    }

    /** ... and odd in any case. */
    ghost predicate Ready()
      reads this, p, rr
    {
      Usable() && V() % 2 == 1
    }
  }

  /** The limbs of x that count. */
  ghost function Num(x: array<limb>, n: nat): nat
    reads x
  {
    if n <= x.Length then Val(x[..n]) else 0
  }

  lemma FirstDifference(a: seq<limb>, b: seq<limb>, i: nat)
    requires 0 < i <= |a| == |b| && a[i..] == b[i..]
    ensures a[i - 1] == b[i - 1] ==> a[i - 1..] == b[i - 1..]
    ensures a[i - 1] < b[i - 1] ==> Val(a) < Val(b)
    ensures a[i - 1] > b[i - 1] ==> Val(a) > Val(b)
  {
    hide Val;
    var n := |a|;
    assert a[i - 1..] == [a[i - 1]] + a[i..] && b[i - 1..] == [b[i - 1]] + b[i..];
    assert a[..n] == a && b[..n] == b && a[i..n] == a[i..] && b[i..n] == b[i..];
    if a[i - 1] != b[i - 1] { CompareAt(a, b, i); CompareAbove(a, b, i, n); }
  }

  /** mbedtls_mpi_core_lt_ct: it runs to the end, remembering the first difference. */
  method LtCt(A: array<limb>, B: array<limb>, n: nat) returns (lt: bool)
    requires n <= A.Length && n <= B.Length
    ensures lt == (Val(A[..n]) < Val(B[..n]))
  {
    hide Val;
    var ret, done := false, false;
    ghost var a, b := A[..n], B[..n];
    var i := n;
    while i > 0
      invariant 0 <= i <= n
      invariant done ==> ret == (Val(a) < Val(b))
      invariant !done ==> !ret && a[i..] == b[i..]
    {
      assert A[i - 1] == a[i - 1] && B[i - 1] == b[i - 1];
      if !done { FirstDifference(a, b, i); }
      var cond := B[i - 1] < A[i - 1];
      done := done || cond;
      cond := A[i - 1] < B[i - 1];
      ret := ret || (cond && !done);
      done := done || cond;
      i := i - 1;
    }
    assert a[0..] == a && b[0..] == b;
    lt := ret;
  }

  // ------------------------------------------------- addition, subtraction, negation

  lemma AddWrap(x: seq<limb>, a: seq<limb>)
    requires |x| == |a|
    ensures var (r, c) := AddSeq(x, a, |x|);
      && Val(r) == (if Val(x) + Val(a) < Bn(|x|) then Val(x) + Val(a) else Val(x) + Val(a) - Bn(|x|))
      && c == if Val(x) + Val(a) < Bn(|x|) then 0 else 1
  {
    hide Val, Bn, Pow, AddSeq;
    var n := |x|;
    var (r, c) := AddSeq(x, a, n);
    AddSeqVal(x, a, n);
    assert x[..n] == x && a[..n] == a;
    ValBound(r); ValBound(x); ValBound(a);
    CarryCases(Val(r), c, Bn(n), Val(x) + Val(a));
  }

  lemma CarryCases(v: int, c: int, p: int, sum: int)
    requires v + c * p == sum < 2 * p && 0 <= v < p && 0 <= c
    ensures c == (if sum < p then 0 else 1) && v == if sum < p then sum else sum - p
  {
    if c >= 2 { MulMono(2, c, p); }
    if c == 1 { MulSign(1, p); }
  }

  lemma SubWrap(a: seq<limb>, b: seq<limb>)
    requires |a| == |b|
    ensures var (r, c) := SubSeq(a, b, |a|);
      && |r| == |a| && Val(r) == (if Val(a) >= Val(b) then Val(a) - Val(b) else Val(a) - Val(b) + Bn(|a|))
      && c == if Val(a) >= Val(b) then 0 else 1
  {
    hide Val, Bn, Pow, SubSeq;
    SubBorrow(a, b, |a|);
    assert a[..|a|] == a && b[..|b|] == b;
  }

  /** raw_add after its three steps. */
  lemma AddModSeq(a: seq<limb>, b: seq<limb>, m: seq<limb>)
    requires |a| == |b| == |m| && Val(a) < Val(m) && Val(b) < Val(m)
    ensures var n := |m|; var (s, carry) := AddSeq(a, b, n); var (d, borrow) := SubSeq(s, m, n);
      Val(AddIfSeq(d, m, n, Bit(carry != borrow)).0) == (Val(a) + Val(b)) % Val(m)
  {
    hide Val, Bn, Pow, AddSeq, SubSeq;
    var n := |m|;
    var (s, carry) := AddSeq(a, b, n);
    var (d, borrow) := SubSeq(s, m, n);
    AddWrap(a, b); SubWrap(s, m); AddWrap(d, m);
    ValBound(m); ValBound(s); ValBound(d);
    var v, vm, p := Val(a) + Val(b), Val(m), Bn(n);
    DivModUnique(v, vm, if v >= vm then 1 else 0, if v >= vm then v - vm else v);
  }

  /** raw_sub after its two steps. */
  lemma SubModSeq(a: seq<limb>, b: seq<limb>, m: seq<limb>)
    requires |a| == |b| == |m| && Val(a) < Val(m) && Val(b) < Val(m)
    ensures var n := |m|; var (d, c) := SubSeq(a, b, n);
      Val(AddIfSeq(d, m, n, c).0) == (Val(a) - Val(b)) % Val(m)
  {
    hide Val, Bn, Pow, AddSeq, SubSeq;
    var n := |m|;
    var (d, c) := SubSeq(a, b, n);
    SubWrap(a, b); AddWrap(d, m);
    ValBound(m);
    var x := Val(AddIfSeq(d, m, n, c).0);
    assert x == if Val(a) >= Val(b) then Val(d) else Val(d) + Val(m) - Bn(n);
    SubArith(Val(a), Val(b), Val(m), Bn(n), Val(d), x);
  }

  lemma SubArith(a: int, b: int, m: int, p: int, d: int, x: int)
    requires x == if a >= b then d else d + m - p
    requires 0 <= a && 0 <= b && a - b < m && b - a <= m && 0 < m < p
    requires d == if a >= b then a - b else a - b + p
    ensures x == (a - b) % m
  {
    if a >= b {
      DivModUnique(a - b, m, 0, a - b);
    } else {
      DivModUnique(a - b, m, -1, a - b + m);
    }
  }

  /** raw_neg after its three steps. */
  lemma NegSeqVal(a: seq<limb>, m: seq<limb>)
    requires |a| == |m| && Val(a) < Val(m)
    ensures var n := |m|; var x := SubSeq(m, a, n).0; var (d, borrow) := SubSeq(x, m, n);
      Val(AddIfSeq(d, m, n, borrow).0) == if Val(a) == 0 then 0 else Val(m) - Val(a)
  {
    hide Val, Bn, Pow, AddSeq, SubSeq;
    var n := |m|;
    var x := SubSeq(m, a, n).0;
    var (d, borrow) := SubSeq(x, m, n);
    SubWrap(m, a); SubWrap(x, m); AddWrap(d, m);
    ValBound(m);
  }

  lemma NegMod(a: int, m: int)
    requires 0 <= a < m
    ensures (m - a) % m == if a == 0 then 0 else m - a
  {
    if a == 0 { DivModUnique(m, m, 1, 0); } else { DivModUnique(m - a, m, 0, m - a); }
  }

  method RawAdd(X: array<limb>, A: array<limb>, B: array<limb>, N: Modulus)
    requires N.limbs <= N.p.Length && N.limbs <= X.Length && N.limbs <= A.Length && N.limbs <= B.Length && X != N.p
    requires Num(A, N.limbs) < N.V() && Num(B, N.limbs) < N.V()
    modifies X
    ensures OnlyWrote(X, 0, N.limbs)
    ensures Num(X, N.limbs) == old(Num(A, N.limbs) + Num(B, N.limbs)) % N.V()
  {
    hide Val, AddSeq, SubSeq;
    var n := N.limbs;
    ghost var a, b, m := A[0..n], B[0..n], N.p[0..n];
    assert A[..n] == a && B[..n] == b && N.p[..n] == m;
    AddModSeq(a, b, m);
    var carry := CoreAdd(X, 0, A, 0, B, 0, n);
    assert N.p[0..n] == m;
    var borrow := CoreSub(X, 0, X, 0, N.p, 0, n);
    assert N.p[0..n] == m;
    var c := CoreAddIf(X, 0, N.p, 0, n, Bit(carry != borrow));
    assert X[..n] == X[0..n] && N.p[..n] == m;
  }

  method RawSub(X: array<limb>, A: array<limb>, B: array<limb>, N: Modulus)
    requires N.limbs <= N.p.Length && N.limbs <= X.Length && N.limbs <= A.Length && N.limbs <= B.Length && X != N.p
    requires Num(A, N.limbs) < N.V() && Num(B, N.limbs) < N.V()
    modifies X
    ensures OnlyWrote(X, 0, N.limbs)
    ensures Num(X, N.limbs) == old(Num(A, N.limbs) - Num(B, N.limbs)) % N.V()
  {
    hide Val, AddSeq, SubSeq;
    var n := N.limbs;
    ghost var a, b, m := A[0..n], B[0..n], N.p[0..n];
    assert A[..n] == a && B[..n] == b && N.p[..n] == m;
    SubModSeq(a, b, m);
    var c := CoreSub(X, 0, A, 0, B, 0, n);
    assert N.p[0..n] == m;
    var d := CoreAddIf(X, 0, N.p, 0, n, c);
    assert X[..n] == X[0..n] && N.p[..n] == m;
  }

  method RawNeg(X: array<limb>, A: array<limb>, N: Modulus)
    requires N.limbs <= N.p.Length && N.limbs <= X.Length && N.limbs <= A.Length && X != N.p
    requires Num(A, N.limbs) < N.V()
    modifies X
    ensures OnlyWrote(X, 0, N.limbs)
    ensures Num(X, N.limbs) == (N.V() - old(Num(A, N.limbs))) % N.V()
  {
    hide Val, AddSeq, SubSeq;
    var n := N.limbs;
    ghost var a, m := A[0..n], N.p[0..n];
    assert A[..n] == a && N.p[..n] == m;
    NegSeqVal(a, m);
    NegMod(Val(a), Val(m));
    var b0 := CoreSub(X, 0, N.p, 0, A, 0, n);
    assert N.p[0..n] == m;
    var borrow := CoreSub(X, 0, X, 0, N.p, 0, n);
    assert N.p[0..n] == m;
    var c := CoreAddIf(X, 0, N.p, 0, n, borrow);
    assert X[..n] == X[0..n] && N.p[..n] == m;
  }

  // ------------------------------------------------------------- Montgomery form

  /** mbedtls_mpi_mod_raw_mul */
  method RawMul(X: array<limb>, A: array<limb>, B: array<limb>, N: Modulus, T: array<limb>)
    requires N.Ready() && N.rep.RepMontgomery? && N.limbs <= X.Length && N.limbs <= A.Length && N.limbs <= B.Length
    requires X != N.p && 2 * N.limbs + 1 <= T.Length && T !in {X, A, B, N.p}
    requires Num(A, N.limbs) < N.V() && Num(B, N.limbs) < N.V()
    modifies X, T
    ensures OnlyWrote(X, 0, N.limbs) && Num(X, N.limbs) < N.V()
    ensures MontDec(Num(X, N.limbs), N.V(), N.limbs) ==
      (MontDec(old(Num(A, N.limbs)), N.V(), N.limbs) * MontDec(old(Num(B, N.limbs)), N.V(), N.limbs)) % N.V()
  {
    hide Val, MontConst, MontDec, MontProduct, Cong, Bn;
    var n := N.limbs;
    ghost var a, b, m := Num(A, n), Num(B, n), N.V();
    assert A[0..n] == A[..n] && B[0..n] == B[..n] && N.p[0..n] == N.p[..n];
    CoreMontmul(X, 0, A, 0, B, 0, n, N.p, 0, n, N.mm, T, 0);
    assert X[0..n] == X[..n];
    MontDecMul(a, b, Num(X, n), m, n);
    ProductBelow(Num(X, n), a, b, m, n);
  }

  lemma ProductBelow(x: nat, a: nat, b: nat, m: nat, n: nat)
    requires MontProduct(x, a, b, m, n)
    ensures x < m
  {}

  /** mbedtls_mpi_core_to_mont_rep */
  method ToMont(X: array<limb>, A: array<limb>, N: Modulus, T: array<limb>)
    requires N.Ready() && N.rep.RepMontgomery? && N.limbs <= X.Length && X != N.p && X != N.rr
    requires N.limbs <= A.Length && Num(A, N.limbs) < N.V() && 2 * N.limbs + 1 <= T.Length && T !in {X, A, N.p, N.rr}
    modifies X, T
    ensures OnlyWrote(X, 0, N.limbs) && Num(X, N.limbs) < N.V()
    ensures MontDec(Num(X, N.limbs), N.V(), N.limbs) == old(Num(A, N.limbs))
  {
    hide Val, MontConst, MontDec, MontProduct, Bn, Cong, Rep;
    var n := N.limbs;
    ghost var a, m := Num(A, n), N.V();
    assert A[0..n] == A[..n] && N.p[0..n] == N.p[..n] && N.rr[0..n] == N.rr[..n];
    CoreMontmul(X, 0, A, 0, N.rr, 0, n, N.p, 0, n, N.mm, T, 0);
    assert X[0..n] == X[..n];
    RepEnter(a, Val(N.rr[..n]), Num(X, n), m, n);
    RepBound(Num(X, n), a, m, n);
    MontDecOf(Num(X, n), a, m, n);
    ModSmall(a, m);
  }

  /** mbedtls_mpi_mod_raw_to_mont_rep */
  method RawToMont(X: array<limb>, N: Modulus)
    requires N.Ready() && N.rep.RepMontgomery? && N.limbs <= X.Length && X != N.p && X != N.rr && Num(X, N.limbs) < N.V()
    modifies X
    ensures OnlyWrote(X, 0, N.limbs) && Num(X, N.limbs) < N.V()
    ensures MontDec(Num(X, N.limbs), N.V(), N.limbs) == old(Num(X, N.limbs))
  {
    hide Val, MontConst, MontDec, Bn, Cong;
    var T := new limb[2 * N.limbs + 1];
    ToMont(X, X, N, T);
  }

  /** mbedtls_mpi_mod_raw_from_mont_rep */
  method RawFromMont(X: array<limb>, N: Modulus)
    requires N.Ready() && N.rep.RepMontgomery? && N.limbs <= X.Length && X != N.p && Num(X, N.limbs) < N.V()
    modifies X
    ensures OnlyWrote(X, 0, N.limbs) && Num(X, N.limbs) == MontDec(old(Num(X, N.limbs)), N.V(), N.limbs)
  {
    hide Val, MontConst, MontDec, MontProduct, Bn, Cong, Rep;
    var n := N.limbs;
    var T := new limb[2 * n + 1];
    var one := new limb[1](_ => 1);
    ghost var x, m := Num(X, n), N.V();
    assert X[0..n] == X[..n] && N.p[0..n] == N.p[..n] && one[0..1] == [1];
    ValOne([1]);
    CoreMontmul(X, 0, X, 0, one, 0, 1, N.p, 0, n, N.mm, T, 0);
    assert X[0..n] == X[..n];
    MontDecRep(x, m, n);
    RepLeave(x, MontDec(x, m, n), Num(X, n), m, n);
    ModSmall(MontDec(x, m, n), m);
  }

  /** The exponent N - 2, for N >= 3. */
  lemma MinusTwo(m: seq<limb>)
    requires Val(m) >= 3
    ensures Val(SubIntSeq(m, 2, |m|).0) == Val(m) - 2
  {
    hide Val, Bn, Pow, SubIntSeq;
    var (r, c) := SubIntSeq(m, 2, |m|);
    SubIntSeqVal(m, 2, |m|);
    assert m[..|m|] == m;
    ValBound(r); ValBound(m);
    if c > 0 { MulMono(1, c, Bn(|m|)); } else { MulSign(0, Bn(|m|)); }
  }

  /** mbedtls_mpi_mod_raw_inv_prime: A^(N-2), which for a prime N is the inverse. */
  method RawInvPrime(X: array<limb>, A: array<limb>, N: Modulus, T: array<limb>)
    requires N.Ready() && N.rep.RepMontgomery? && N.V() >= 3 && N.limbs <= X.Length && N.limbs <= A.Length
    requires X != N.p && X != N.rr && T !in {X, A, N.p, N.rr} && N.limbs + WorkingLimbs(N.limbs, N.limbs) <= T.Length
    requires Num(A, N.limbs) < N.V()
    modifies X, T
    ensures OnlyWrote(X, 0, N.limbs) && Num(X, N.limbs) < N.V()
    ensures MontDec(Num(X, N.limbs), N.V(), N.limbs) ==
      Pow(MontDec(old(Num(A, N.limbs)), N.V(), N.limbs), N.V() - 2) % N.V()
  {
    hide Val, MontConst, MontDec, Bn, Cong, Rep, Pow, WorkingLimbs, SubIntSeq;
    var n := N.limbs;
    ghost var m, a := N.V(), MontDec(Num(A, n), N.V(), n);
    assert A[0..n] == A[..n] && N.p[0..n] == N.p[..n] && N.rr[0..n] == N.rr[..n];
    MontDecRep(Num(A, n), m, n);
    MinusTwo(N.p[..n]);
    var c := CoreSubInt(T, 0, N.p, 0, 2, n);
    ValLow(N.p[..n]);
    CoreExpMod(X, 0, A, 0, N.p, 0, n, T, 0, n, N.rr, 0, T, n, a);
    assert X[0..n] == X[..n];
    RepBound(Num(X, n), Pow(a, m - 2), m, n);
    MontDecOf(Num(X, n), Pow(a, m - 2), m, n);
  }

  /** Modulo a prime that is an inverse: x*a = 1. */
  lemma PowerIsInverse(a: nat, m: nat)
    requires Prime(m) && m >= 3 && 0 < a < m
    ensures (a * (Pow(a, m - 2) % m)) % m == 1
  {
    InverseByPower(a, m);
    hide Pow;
    CongMod(Pow(a, m - 2), m);
    CongMul(a, a, Pow(a, m - 2) % m, Pow(a, m - 2), m);
    ModSmall(1, m);
  }
}
