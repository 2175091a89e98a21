/** bignum.c: mbedtls_mpi_exp_mod. */
module MpiExpMod {
  import opened Arith
  import opened Limbs
  import opened Bits
  import opened Mont
  import opened MontRep
  import opened ExpCore
  import opened ReturnCodes
  import opened MpiObject
  import opened MpiAdd
  import opened MpiShift
  import opened MpiMod
  import opened MpiExp
  import opened MpiSlide

  const MAX_BITS: nat := 8192

  function SlideWindow(bits: nat): (w: nat)
    ensures 1 <= w <= 6 && w <= Max(1, MPI_WINDOW_SIZE)
  {
    var w := if bits > 671 then 6 else if bits > 239 then 5 else if bits > 79 then 4 else if bits > 23 then 3 else 1;
    if MPI_WINDOW_SIZE < 6 && w > MPI_WINDOW_SIZE then MPI_WINDOW_SIZE else w
  }

  /** rr is R^2 mod N for the number of limbs N has. */
  ghost predicate IsRR(RR: Mpi, N: Mpi)
    reads RR, N
  {
    && RR.Valid() && RR.s == 1 && |RR.p| > 0
    && 0 <= RR.Mag() < N.Mag() && Cong(RR.Mag(), Bn(|N.p|) * Bn(|N.p|), N.Mag())
  }

  /** RR = (1 << 2*n*biL) mod N */
  method ComputeRR(N: Mpi) returns (st: Status, RR: Mpi)
    requires N.Valid() && N.Value() >= 0
    ensures fresh(RR) && RR.Valid()
    ensures N.Value() > 0 ==> st == if 2 * |N.p| + 3 > MAX_LIMBS then Fail(ERR_ALLOC_FAILED) else Ok
    ensures N.Value() == 0 ==> st.Fail?
    ensures st.Ok? ==> IsRR(RR, N)
  {
    hide Val, Bn, Pow, Pow2, NumBits, BitsToLimbs;
    if N.Value() > 0 { SignPositive(N.s, N.Mag()); }
    var n := |N.p|;
    RR := new Mpi();
    Lset(RR, 1);
    OneShifted(n);
    :- ShiftL(RR, n * 2 * BI_L);
    ValBound(N.p);
    MulMono(1, Bn(n), Bn(n));
    :- ModMpi(RR, RR, N);
    CongMod(Bn(n) * Bn(n), N.Mag());
    st := Ok;
  }

  lemma OneShifted(n: nat)
    ensures 0 <= n * 2 * BI_L && Pow2(n * 2 * BI_L) == Bn(n) * Bn(n)
    ensures BitsToLimbs(NumBits(1) + n * 2 * BI_L) == 2 * n + 1
  {
    MulAssoc(BI_L, n, 2);
    BnPow2(2 * n); BnAdd(n, n); BnStep(0);
    hide NumBits, BitsToLimbs, Bn, Pow;
    BitsRoom(1, 1, 2 * n);
    BitsToLimbsVal(NumBits(1) + n * 2 * BI_L);
    Pow2Zero(); BitsAtLeast(1, 0);
    MulSign(2 * n, BI_L);
  }

  /** The caller's R^2 mod N if it has one; otherwise computed and left with it. */
  method GetRR(N: Mpi, prec: Mpi?) returns (st: Status, RR: Mpi)
    requires N.Valid() && N.Value() > 0
    requires prec != null ==> prec != N && prec.Valid() && (|prec.p| > 0 ==> IsRR(prec, N))
    modifies prec
    ensures RR.Valid() && (fresh(RR) || RR == prec)
    ensures st.Fail? ==> st == Fail(ERR_ALLOC_FAILED) && 2 * |N.p| + 3 > MAX_LIMBS
    ensures st.Ok? ==> IsRR(RR, N)
    ensures prec != null ==> prec.Valid() && (|prec.p| > 0 ==> IsRR(prec, N))
    ensures prec != null && st.Ok? ==> |prec.p| > 0
  {
    hide Val, Bn;
    if prec == null || |prec.p| == 0 {
      RR :- ComputeRR(N);
      if prec != null {
        prec.s, prec.p := RR.s, RR.p;
      }
    } else {
      RR := prec;
    }
    st := Ok;
  }

  /** W[1] = A mod N in a buffer of at least N->n limbs, for A >= 0. */
  method SetBase(Z: Mpi, A: Mpi, N: Mpi) returns (st: Status)
    requires Z.Valid() && A.Valid() && N.Valid() && Z != A && Z != N && N.Value() > 0 && A.s == 1
    requires |N.p| + 1 <= MAX_LIMBS && |Z.p| >= |N.p| + 1 && Z.s == 1
    modifies Z
    ensures Z.Valid() && |Z.p| >= |N.p| + 1
    ensures st.Ok? ==> Z.s == 1 && Z.Mag() == A.Mag() % N.Mag()
    ensures st.Fail? ==> st == Fail(ERR_ALLOC_FAILED) && |A.p| + 2 > MAX_LIMBS
  {
    hide Val, Sign, Sig;
    SignPositive(N.s, N.Mag());
    var c := CmpMpi(A, N);
    SignDef(A.Mag() - N.Mag());
    if c >= 0 {
      :- ModMpi(Z, A, N);
      :- Grow(Z, |N.p| + 1);
    } else {
      ModSmall(A.Mag(), N.Mag());
      Copy(Z, A);
    }
    st := Ok;
  }

  /** The table W, cleared. */
  method NewTable(count: nat) returns (W: seq<Mpi>)
    ensures |W| == count && (forall i :: 0 <= i < count ==> fresh(W[i]) && W[i].Valid() && W[i].s == 1)
    ensures forall i, j :: 0 <= i < j < count ==> W[i] != W[j]
  {
    W := [];
    for k := 0 to count
      invariant |W| == k && (forall i :: 0 <= i < k ==> fresh(W[i]) && W[i].Valid() && W[i].s == 1)
      invariant forall i, j :: 0 <= i < j < k ==> W[i] != W[j]
    {
      var Z := new Mpi();
      W := W + [Z];
    }
  }

  /** mpi_montg_init */
  method MontInit(N: Mpi) returns (mm: limb)
    requires |N.p| > 0 && N.p[0] % 2 == 1
    ensures MontConst(mm, N.p[0])
  {
    hide MontConst;
    var m := Load(N.p);
    mm := MontmulInit(m, 0);
  }

  /** W[0] stands for 1 and W[1] for A. */
  method FirstEntries(W: seq<Mpi>, A: Mpi, RR: Mpi, WW: Mpi, N: Mpi, mm: limb, T: Mpi) returns (st: Status)
    requires |W| >= 2 && Separate(W, WW, N, T) && Ready(N, mm, T) && N.Value() > 0 && |N.p| + 1 <= MAX_LIMBS
    requires W[0].Valid() && W[1].Valid() && W[1].s == 1 && |W[0].p| >= |N.p| + 1 && |W[1].p| >= |N.p| + 1
    requires A.Valid() && A.s == 1 && A !in W && A != T && IsRR(RR, N) && RR !in W && RR != T
    modifies W[0], W[1], T
    ensures st.Fail? ==> st == Fail(ERR_ALLOC_FAILED) && |A.p| + 2 > MAX_LIMBS
    ensures st.Ok? ==> Ready(N, mm, T) && Stands(W[0], 1, N) && Stands(W[1], A.Mag() % N.Mag(), N)
  {
    hide Val, Bn, Cong, MontConst, Rep, Sig;
    ghost var a := A.Mag();
    :- SetBase(W[1], A, N);
    Enter(W[1], RR, N, mm, T);
    Copy(W[0], RR);
    OneFrom(W[0], N, mm, T);
    st := Ok;
  }

  /** The table and the scratch objects, with W[0], W[1] and T grown. */
  method Allocate(X: Mpi, N: Mpi, w: nat) returns (st: Status, W: seq<Mpi>, WW: Mpi, T: Mpi)
    requires X.Valid() && N.Valid() && w >= 1
    ensures fresh(WW) && fresh(T) && (forall i :: 0 <= i < |W| ==> fresh(W[i]) && W[i].Valid()) && |W| == Pow2(w) >= 2
    ensures Separate(W, WW, N, T) && WW.Valid() && T.Valid() && W[1].s == 1
    ensures st.Ok? ==> |W[0].p| >= |N.p| + 1 && |W[1].p| >= |N.p| + 1 && |T.p| >= 2 * |N.p| + 1
    ensures st.Fail? ==> st == Fail(ERR_ALLOC_FAILED) && 2 * |N.p| + 3 > MAX_LIMBS
    ensures st.Ok? ==> |N.p| + 1 <= MAX_LIMBS
  {
    hide Val, Sig, Pow2;
    WindowElems(w, 1);
    W := NewTable(Pow2(w));
    WW := new Mpi();
    T := new Mpi();
    Copy(W[0], X);
    :- Grow(W[0], |N.p| + 1);
    :- Grow(W[1], |N.p| + 1);
    :- Grow(T, (|N.p| + 1) * 2);
    st := Ok;
  }

  /** Everything before the scan of the exponent. */
  method Prepare(X: Mpi, A: Mpi, N: Mpi, prec: Mpi?, w: nat, mm: limb)
    returns (st: Status, W: seq<Mpi>, WW: Mpi, T: Mpi)
    requires X.Valid() && A.Valid() && A.s == 1 && N.Valid() && N.Value() > 0 && N.Mag() % 2 == 1 && w >= 1 && |N.p| > 0
    requires MontConst(mm, N.p[0])
    requires prec != null ==> prec.Valid() && prec !in {N, A, X} && (|prec.p| > 0 ==> IsRR(prec, N))
    modifies prec
    ensures fresh(WW) && fresh(T) && (forall i :: 0 <= i < |W| ==> fresh(W[i])) && |W| >= 2
    ensures prec != null ==> prec.Valid() && (|prec.p| > 0 ==> IsRR(prec, N)) && (st.Ok? ==> |prec.p| > 0)
    ensures st.Ok? ==> Machine(W, w, WW, N, mm, T, A.Mag() % N.Mag(), 0)
    ensures st.Fail? ==> st == Fail(ERR_ALLOC_FAILED) && (2 * |N.p| + 3 > MAX_LIMBS || |A.p| + 2 > MAX_LIMBS)
  {
    hide Val, Bn, Cong, MontConst, Rep, Sig, Pow, Pow2, Table, Machine;
    ghost var a := A.Mag() % N.Mag();
    SignPositive(N.s, N.Mag());
    W, WW, T :- Allocate(X, N, w);
    var RR :- GetRR(N, prec);
    :- FirstEntries(W, A, RR, WW, N, mm, T);
    :- FillTable(W, w, WW, N, mm, T, a);
    MachineStart(W, w, WW, N, mm, T, a);
    st := Ok;
  }

  lemma MachineStart(W: seq<Mpi>, w: nat, WW: Mpi, N: Mpi, mm: limb, T: Mpi, a: int)
    requires w >= 1 && Separate(W, WW, N, T) && Ready(N, mm, T) && WW.Valid() && |W| >= 1
    requires Table(W, w, a, N) && Stands(W[0], 1, N)
    ensures Machine(W, w, WW, N, mm, T, a, 0)
  {}

  // ------------------------------------------------------------- the whole routine

  lemma {:induction false} SignedPower(m: int, e: nat)
    ensures Pow(-m, e) == if e % 2 == 1 then -Pow(m, e) else Pow(m, e)
  {
    if e > 0 {
      SignedPower(m, e - 1);
      MulNeg(m, Pow(m, e - 1)); MulNeg(m, -Pow(m, e - 1));
    }
  }

  /** The accumulator read as a signed result: N - x replaces x for a negative A
      and an odd exponent, also when x is 0. */
  lemma SignedResult(s: int, m: nat, e: nat, n: nat, x: int)
    requires (s == 1 || s == -1) && n > 0 && x == Pow(m % n, e) % n
    ensures var r := if s == -1 && e % 2 == 1 then n - x else x;
      && 0 <= r <= n && Cong(r, Pow(s * m, e), n)
      && (r == n <==> s == -1 && e % 2 == 1 && Pow(s * m, e) % n == 0)
  {
    var p, neg := Pow(m, e), s == -1 && e % 2 == 1;
    CongMod(m, n); CongPow(m % n, m, e, n);
    SignedPower(m, e);
    assert s * m == (if s == 1 then m else -(m as int)) && Pow(s * m, e) == if neg then -p else p;
    hide Pow;
    DivMod(p, n);
    CongMod(p, n);
    if neg {
      Negated(p, n);
      CongRefl(0, n); CongAdd(0, 0, x, p, n);
      CongIntro(n - x, -x, n, 1);
      CongTrans(n - x, -x, -p, n);
    }
  }

  /** Whether the exponent is odd, an empty buffer being even. */
  method IsOdd(E: Mpi) returns (b: bool)
    ensures b == (E.Mag() % 2 == 1)
  {
    hide Val;
    if |E.p| > 0 { ValLow(E.p); } else { ValEmpty(); }
    b := |E.p| != 0 && E.p[0] % 2 != 0;
  }

  /** |A|^E mod N, for arguments that passed the checks. */
  method RunPositive(X: Mpi, A: Mpi, E: Mpi, N: Mpi, prec: Mpi?) returns (st: Status, Z: Mpi)
    requires X.Valid() && A.Valid() && A.s == 1 && E.Valid() && N.Valid() && N.Value() > 0 && N.Mag() % 2 == 1
    requires prec != null ==> prec.Valid() && prec !in {N, A, X, E} && (|prec.p| > 0 ==> IsRR(prec, N))
    modifies prec
    ensures fresh(Z)
    ensures prec != null ==> prec.Valid() && (|prec.p| > 0 ==> IsRR(prec, N)) && (st.Ok? ==> |prec.p| > 0)
    ensures st.Ok? ==> Z.Valid() && Z.s == 1 && Z.Mag() == Pow(A.Mag() % N.Mag(), E.Mag()) % N.Mag()
    ensures st.Fail? ==> st == Fail(ERR_ALLOC_FAILED) && (2 * |N.p| + 3 > MAX_LIMBS || |A.p| + 2 > MAX_LIMBS)
  {
    hide Val, Bn, Cong, MontConst, Rep, Sig, Pow, Pow2, Table, IsRR, NumBits;
    Z := new Mpi();
    SignPositive(N.s, N.Mag());
    if |N.p| == 0 { ValEmpty(); }
    ValLow(N.p);
    var mm := MontInit(N);
    var b := Bitlen(E);
    var w := SlideWindow(b);
    ghost var a := A.Mag() % N.Mag();
    var W, WW, T :- Prepare(X, A, N, prec, w, mm);
    :- Exponentiate(W, w, WW, E, N, mm, T, a);
    Leave(W[0], N, mm, T, Pow(a, E.Mag()));
    Z := W[0];
    st := Ok;
  }

  /** Compensation for a negative A. */
  method Run(X: Mpi, A0: Mpi, E: Mpi, N: Mpi, prec: Mpi?) returns (st: Status, Z: Mpi)
    requires X.Valid() && A0.Valid() && E.Valid() && N.Valid() && N.Value() > 0 && N.Mag() % 2 == 1
    requires prec != null ==> prec.Valid() && prec !in {N, A0, X, E} && (|prec.p| > 0 ==> IsRR(prec, N))
    modifies prec
    ensures fresh(Z)
    ensures prec != null ==> prec.Valid() && (|prec.p| > 0 ==> IsRR(prec, N)) && (st.Ok? ==> |prec.p| > 0)
    ensures st.Ok? ==> var x := Pow(A0.Mag() % N.Mag(), E.Mag()) % N.Mag();
      Z.Valid() && Z.Value() == if A0.s == -1 && E.Mag() % 2 == 1 then N.Value() - x else x
    ensures st.Fail? ==> st == Fail(ERR_ALLOC_FAILED) && (2 * |N.p| + 3 > MAX_LIMBS || |A0.p| + 2 > MAX_LIMBS)
  {
    hide Val, Bn, Sig, Pow, IsRR;
    SignPositive(N.s, N.Mag());
    var neg := A0.s == -1;
    var A := A0;
    if neg {
      A := new Mpi();
      Copy(A, A0);
      A.s := 1;
    }
    Z :- RunPositive(X, A, E, N, prec);
    var odd := IsOdd(E);
    if neg && odd {
      Z.s := -1;
      :- AddMpi(Z, N, Z);
    }
    st := Ok;
  }

  /** X = A^E mod N for odd N > 0 and E >= 0. X lies in [0, N), except that a negative
      A with an odd exponent and A^E divisible by N gives X = N. */
  method ExpMod(X: Mpi, A: Mpi, E: Mpi, N: Mpi, prec: Mpi?) returns (st: Status)
    requires X.Valid() && A.Valid() && E.Valid() && N.Valid()
    requires prec != null ==> prec.Valid() && prec !in {N, A, X, E} && (|prec.p| > 0 ==> IsRR(prec, N))
    modifies X, prec
    ensures X.Valid()
    ensures st == Fail(ERR_BAD_INPUT) <==> old(N.Value() <= 0 || N.Mag() % 2 == 0 || E.Value() < 0
      || NumBits(E.Mag()) > MAX_BITS || NumBits(N.Mag()) > MAX_BITS)
    ensures st.Ok? ==>
      && 0 <= X.Value() <= old(N.Value()) && Cong(X.Value(), Pow(old(A.Value()), old(E.Mag())), old(N.Value()))
      && (X.Value() == old(N.Value()) <==>
           old(A.s) == -1 && old(E.Mag()) % 2 == 1 && Pow(old(A.Value()), old(E.Mag())) % old(N.Value()) == 0)
    ensures st.Fail? && st.code != ERR_BAD_INPUT ==>
      st == Fail(ERR_ALLOC_FAILED) && old(2 * |N.p| + 3 > MAX_LIMBS || |A.p| + 2 > MAX_LIMBS)
    ensures st.Fail? ==> X.Value() == old(X.Value())
    ensures prec != null && X != N ==> prec.Valid() && (|prec.p| > 0 ==> IsRR(prec, N)) && (st.Ok? ==> |prec.p| > 0)
  {
    hide Val, Bn, Cong, MontConst, Rep, Sig, Pow, Pow2, IsRR, NumBits, Sign;
    var c := CmpInt(N, 0);
    SignCompare(N.Value(), 0);
    if c > 0 {
      SignPositive(N.s, N.Mag());
      if |N.p| == 0 { ValEmpty(); }
      ValLow(N.p);
    }
    if c <= 0 || N.p[0] % 2 == 0 { return Fail(ERR_BAD_INPUT); }
    c := CmpInt(E, 0);
    SignDef(E.Value());
    if c < 0 { return Fail(ERR_BAD_INPUT); }
    var be := Bitlen(E);
    var bn := Bitlen(N);
    if be > MAX_BITS || bn > MAX_BITS { return Fail(ERR_BAD_INPUT); }
    var Z :- Run(X, A, E, N, prec);
    SignedResult(A.s, A.Mag(), E.Mag(), N.Mag(), Pow(A.Mag() % N.Mag(), E.Mag()) % N.Mag());
    Copy(X, Z);
    st := Ok;
  }

  /** (-3)^1 mod 3 comes out as 3. */
  method MultipleOfModulus() returns (X: Mpi)
    ensures X.Value() == 3 && Pow(-3, 1) % 3 == 0
  {
    hide Val, NumBits, Bn;
    var A := Small(-3);
    var E := Small(1);
    var N := Small(3);
    X := new Mpi();
    assert Pow(-3, 1) == -3 * Pow(-3, 0);
    SmallSigns(A.s, A.Mag(), -3); SmallSigns(E.s, E.Mag(), 1); SmallSigns(N.s, N.Mag(), 3);
    FewBits(1); FewBits(3);
    var st := ExpMod(X, A, E, N, null);
  }

  lemma SmallSigns(s: int, m: nat, z: int)
    requires (s == 1 || s == -1) && s * m == z && z != 0
    ensures m == Abs(z) && s == if z < 0 then -1 else 1
  {}

  lemma FewBits(v: nat)
    requires v < 4
    ensures NumBits(v) <= 2
  {
    assert v / 2 / 2 == 0;
  }
}
