/** bignum_mod.c: moduli and residues. */
module Residues {
  import opened Arith
  import opened Limbs
  import opened Bits
  import opened Mont
  import opened MontRep
  import opened ExpCore
  import opened Fermat
  import opened Bytes
  import opened CoreBytes
  import opened ReturnCodes
  import opened MpiObject
  import opened MpiDiv
  import opened MpiExp
  import opened MpiExpMod
  import opened ModRaw


  datatype ExtRep = ExtInvalid | ExtLe | ExtBe

  class Residue {
    var p: array<limb>
    var limbs: nat

    constructor ()
      ensures limbs == 0
    {
      p, limbs := new limb[0], 0;
    }
  }

  /** r has a buffer for N that is neither N's nor that of its constant. */
  ghost predicate Buffer(r: Residue, N: Modulus)
    reads r, N
  {
    r.limbs == N.limbs <= r.p.Length && r.p != N.p && r.p != N.rr
  }

  /** ... and holds a number below N. */
  ghost predicate Canonical(r: Residue, N: Modulus)
    reads r, r.p, N, N.p
  {
    Buffer(r, N) && Num(r.p, N.limbs) < N.V()
  }

  /** The element of Z/N that the limb array x holds. */
  ghost function Element(x: array<limb>, N: Modulus): nat
    reads x, N, N.p
  {
    if N.rep.RepMontgomery? && N.V() > 0 then MontDec(Num(x, N.limbs), N.V(), N.limbs) else Num(x, N.limbs)
  }

  // ------------------------------------------------------------------------ setup

  /** mbedtls_mpi_mod_residue_setup */
  method ResidueSetup(r: Residue, N: Modulus, p: array<limb>, pLimbs: nat) returns (st: Status)
    requires pLimbs <= p.Length && N.limbs <= N.p.Length && p != N.p && p != N.rr
    modifies r
    ensures st == if pLimbs == N.limbs && Num(p, pLimbs) < N.V() then Ok else Fail(ERR_BAD_INPUT)
    ensures st.Ok? ==> r.p == p && Canonical(r, N)
    ensures st.Fail? ==> unchanged(r)
  {
    hide Val;
    if pLimbs != N.limbs { return Fail(ERR_BAD_INPUT); }
    var lt := LtCt(p, N.p, N.limbs);
    if !lt { return Fail(ERR_BAD_INPUT); }
    r.limbs := N.limbs;
    r.p := p;
    st := Ok;
  }

  /** mbedtls_mpi_shrink */
  method Shrink(X: Mpi, n: nat) returns (st: Status)
    requires X.Valid()
    modifies X
    ensures X.Valid() && X.s == old(X.s) && X.Mag() == old(X.Mag())
    ensures st == if n > MAX_LIMBS then Fail(ERR_ALLOC_FAILED) else Ok
    ensures st.Ok? ==> |X.p| == Max(n, if old(|X.p|) <= n then 0 else Max(1, Sig(old(X.p))))
  {
    hide Val, Sig;
    if n > MAX_LIMBS { return Fail(ERR_ALLOC_FAILED); }
    if |X.p| <= n {
      st := Grow(X, n);
      return;
    }
    var i := SigLimbs(X.p, 1);
    if i < n { i := n; }
    ValZeroFrom(X.p, i);
    X.p := X.p[..i];
    st := Ok;
  }

  lemma ShrunkSize(p: seq<limb>, q: seq<limb>)
    requires Val(p) < Val(q) && |q| >= 1
    ensures Max(1, Sig(p)) <= |q|
  {
    hide Val, Sig;
    SigMono(p, q);
  }

  /** set_mont_const_square: R^2 mod N in an array of its own. */
  method MontConstSquare(p: array<limb>, n: nat) returns (st: Status, rr: array<limb>)
    requires n <= p.Length
    ensures fresh(rr)
    ensures st == if n == 0 || n >= MAX_LIMBS / 2 - 2 || Val(p[..n]) == 0 then Fail(ERR_CORRUPTION_DETECTED) else Ok
    ensures st.Ok? ==> rr.Length == n && Val(rr[..n]) < Val(p[..n]) && Cong(Val(rr[..n]), Bn(n) * Bn(n), Val(p[..n]))
  {
    hide Val, Bn, Cong, Sig;
    rr := new limb[0];
    if n == 0 || n >= MAX_LIMBS / 2 - 2 { return Fail(ERR_CORRUPTION_DETECTED), rr; }
    var N := new Mpi();
    N.p := p[..n];
    var RR;
    st, RR := ComputeRR(N);
    if st.Fail? { return Fail(ERR_CORRUPTION_DETECTED), rr; }
    ShrunkSize(RR.p, N.p);
    :- Shrink(RR, n);
    rr := Load(RR.p);
    assert rr[..n] == RR.p;
    st := Ok;
  }

  /** mbedtls_mpi_mod_modulus_setup */
  method ModulusSetup(N: Modulus, p: array<limb>, pLimbs: nat, rep: RepSelector) returns (st: Status)
    requires pLimbs <= p.Length && p.Length >= 1
    modifies N
    ensures rep.RepInvalid? ==> st == Fail(ERR_BAD_INPUT)
    ensures rep.RepOptRed? ==> st.Ok?
    ensures rep.RepMontgomery? ==>
      st == if pLimbs == 0 || pLimbs >= MAX_LIMBS / 2 - 2 || Val(p[..pLimbs]) == 0 then Fail(ERR_CORRUPTION_DETECTED) else Ok
    ensures st.Ok? ==> N.p == p && N.limbs == pLimbs && N.rep == rep && N.bits == NumBits(N.V()) && fresh(N.rr)
    ensures st.Ok? && Val(p[..pLimbs]) % 2 == 1 ==> N.Ready()
    ensures rep.RepOptRed? && pLimbs > 0 ==> N.Usable()
    ensures st.Fail? ==> N.limbs == 0 && N.rep.RepInvalid?
  {
    hide Val, Bn, Cong, MontConst, NumBits;
    N.p := p;
    N.limbs := pLimbs;
    N.bits := CoreBitlen(p[..pLimbs]);
    if pLimbs > 0 { ValLow(p[..pLimbs]); } else { assert p[..0] == []; ValEmpty(); }
    match rep {
      case RepMontgomery =>
        N.rep := rep;
        N.mm := MontmulInit(p, 0);
        var rr;
        st, rr := MontConstSquare(p, pLimbs);
        N.rr := rr;
      case RepOptRed =>
        N.rep := rep;
        N.rr := new limb[0];
        st := Ok;
      case RepInvalid =>
        st := Fail(ERR_BAD_INPUT);
    }
    if st.Fail? { ModulusFree(N); }
  }

  /** mbedtls_mpi_mod_modulus_free */
  method ModulusFree(N: Modulus)
    modifies N
    ensures N.limbs == 0 && N.bits == 0 && N.rep.RepInvalid?
  {
    N.p := new limb[0];
    N.rr := new limb[0];
    N.mm, N.limbs, N.bits, N.rep := 0, 0, 0, RepInvalid;
  }

  // ------------------------------------------------------------------- arithmetic

  /** mbedtls_mpi_mod_add */
  method ModAdd(X: Residue, A: Residue, B: Residue, N: Modulus) returns (st: Status)
    requires N.Usable() && (X.limbs == N.limbs ==> Buffer(X, N))
    requires (A.limbs == N.limbs ==> Canonical(A, N)) && (B.limbs == N.limbs ==> Canonical(B, N))
    modifies X.p
    ensures st == if X.limbs != N.limbs || A.limbs != N.limbs || B.limbs != N.limbs then Fail(ERR_BAD_INPUT) else Ok
    ensures st.Ok? ==> Canonical(X, N) && Element(X.p, N) == old(Element(A.p, N) + Element(B.p, N)) % N.V()
    ensures st.Fail? ==> X.p[..] == old(X.p[..])
  {
    hide Val, MontDec, MontConst, Cong, Bn;
    if X.limbs != N.limbs || A.limbs != N.limbs || B.limbs != N.limbs { return Fail(ERR_BAD_INPUT); }
    ghost var a, b, m := Num(A.p, N.limbs), Num(B.p, N.limbs), N.V();
    RawAdd(X.p, A.p, B.p, N);
    DivMod(a + b, m);
    if N.rep.RepMontgomery? { MontDecSum(a, b, Num(X.p, N.limbs), m, N.limbs); }
    st := Ok;
  }

  /** mbedtls_mpi_mod_sub */
  method ModSub(X: Residue, A: Residue, B: Residue, N: Modulus) returns (st: Status)
    requires N.Usable() && (X.limbs == N.limbs ==> Buffer(X, N))
    requires (A.limbs == N.limbs ==> Canonical(A, N)) && (B.limbs == N.limbs ==> Canonical(B, N))
    modifies X.p
    ensures st == if X.limbs != N.limbs || A.limbs != N.limbs || B.limbs != N.limbs then Fail(ERR_BAD_INPUT) else Ok
    ensures st.Ok? ==> Canonical(X, N) && Element(X.p, N) == old(Element(A.p, N) - Element(B.p, N)) % N.V()
    ensures st.Fail? ==> X.p[..] == old(X.p[..])
  {
    hide Val, MontDec, MontConst, Cong, Bn;
    if X.limbs != N.limbs || A.limbs != N.limbs || B.limbs != N.limbs { return Fail(ERR_BAD_INPUT); }
    ghost var a: int, b: int, m := Num(A.p, N.limbs), Num(B.p, N.limbs), N.V();
    RawSub(X.p, A.p, B.p, N);
    DivMod(a - b, m);
    if N.rep.RepMontgomery? { MontDecSum(a, b, Num(X.p, N.limbs), m, N.limbs); }
    st := Ok;
  }

  /** mbedtls_mpi_mod_mul, which is meant for Montgomery moduli only. */
  method ModMul(X: Residue, A: Residue, B: Residue, N: Modulus) returns (st: Status)
    requires (N.limbs > 0 ==> N.Ready() && N.rep.RepMontgomery?) && (X.limbs == N.limbs ==> Buffer(X, N))
    requires (A.limbs == N.limbs ==> Canonical(A, N)) && (B.limbs == N.limbs ==> Canonical(B, N))
    modifies X.p
    ensures st == if N.limbs == 0 || X.limbs != N.limbs || A.limbs != N.limbs || B.limbs != N.limbs
      then Fail(ERR_BAD_INPUT) else Ok
    ensures st.Ok? ==> Canonical(X, N) && Element(X.p, N) == old(Element(A.p, N) * Element(B.p, N)) % N.V()
    ensures st.Fail? ==> X.p[..] == old(X.p[..])
  {
    hide Val, MontDec, MontConst, Cong, Bn;
    if N.limbs == 0 { return Fail(ERR_BAD_INPUT); }
    if X.limbs != N.limbs || A.limbs != N.limbs || B.limbs != N.limbs { return Fail(ERR_BAD_INPUT); }
    var T := new limb[N.limbs * 2 + 1];
    RawMul(X.p, A.p, B.p, N, T);
    st := Ok;
  }

  /** mbedtls_mpi_core_check_zero_ct: the limbs or-ed together. */
  method CheckZeroCt(A: array<limb>, n: nat) returns (nonzero: bool)
    requires n <= A.Length
    ensures nonzero == (Num(A, n) != 0)
  {
    hide Val, BitOr;
    var bits: nat := 0;
    for i := 0 to n
      invariant bits == 0 <==> forall k :: 0 <= k < i ==> A[k] == 0
    {
      OrZero(bits, A[i]);
      bits := BitOr(bits, A[i]);
    }
    if bits == 0 { ValZeros(A[..n]); }
    if Val(A[..n]) == 0 {
      ValZeroOnly(A[..n]);
      forall k | 0 <= k < n ensures A[k] == 0 { assert A[..n][k] == 0; }
    }
    nonzero := bits != 0;
  }

  /** The inversion of mod_inv_non_mont: into Montgomery form, inverted, and back. */
  method InvNonMont(X: Residue, A: Residue, N: Modulus, T: array<limb>) returns (st: Status)
    requires N.Ready() && N.V() >= 3 && Buffer(X, N) && Canonical(A, N) && T !in {X.p, A.p, N.p, N.rr}
    requires N.limbs + WorkingLimbs(N.limbs, N.limbs) <= T.Length
    modifies X.p, T
    ensures st == if N.limbs >= MAX_LIMBS / 2 - 2 then Fail(ERR_CORRUPTION_DETECTED) else Ok
    ensures st.Ok? ==> Canonical(X, N)
    ensures st.Ok? ==> Num(X.p, N.limbs) == Pow(old(Num(A.p, N.limbs)), N.V() - 2) % N.V()
    ensures st.Fail? ==> X.p[..] == old(X.p[..])
  {
    hide Val, MontDec, MontConst, Cong, Bn, Pow, WorkingLimbs, Rep, NumBits;
    var n := N.limbs;
    ghost var a, m := Num(A.p, n), N.V();
    var Nmont := new Modulus();
    :- ModulusSetup(Nmont, N.p, N.limbs, RepMontgomery);
    WorkingRoom(n);
    ToMont(X.p, A.p, Nmont, T);
    RawInvPrime(X.p, X.p, Nmont, T);
    RawFromMont(X.p, Nmont);
    st := Ok;
  }

  lemma WorkingRoom(n: nat)
    ensures WorkingLimbs(n, n) >= 2 * n + 1
  {}

  /** mbedtls_mpi_mod_inv */
  method ModInv(X: Residue, A: Residue, N: Modulus) returns (st: Status)
    requires N.Ready() && (X.limbs == N.limbs ==> Buffer(X, N)) && (A.limbs == N.limbs ==> Canonical(A, N))
    modifies X.p
    ensures X.limbs != N.limbs || A.limbs != N.limbs || N.rep.RepInvalid? ==> st == Fail(ERR_BAD_INPUT)
    ensures X.limbs == A.limbs == N.limbs && !N.rep.RepInvalid? ==>
      st == if old(Element(A.p, N)) == 0 then Fail(ERR_BAD_INPUT)
        else if N.rep.RepOptRed? && N.limbs >= MAX_LIMBS / 2 - 2 then Fail(ERR_CORRUPTION_DETECTED) else Ok
    ensures st.Ok? ==> Canonical(X, N) && N.V() >= 3 && Element(X.p, N) == Pow(old(Element(A.p, N)), N.V() - 2) % N.V()
    ensures st.Ok? && Prime(N.V()) ==> (old(Element(A.p, N)) * Element(X.p, N)) % N.V() == 1
    ensures st.Fail? ==> X.p[..] == old(X.p[..])
  {
    hide Val, MontDec, MontConst, Cong, Bn, Pow, WorkingLimbs, Prime;
    if X.limbs != N.limbs || A.limbs != N.limbs { return Fail(ERR_BAD_INPUT); }
    ghost var a := Element(A.p, N);
    MontDecZero(Num(A.p, N.limbs), N.V(), N.limbs);
    var nz := CheckZeroCt(A.p, A.limbs);
    if !nz { return Fail(ERR_BAD_INPUT); }
    assert N.V() >= 3;
    if Prime(N.V()) { PowerIsInverse(a, N.V()); }
    var T := new limb[N.limbs + WorkingLimbs(N.limbs, N.limbs)];
    match N.rep {
      case RepMontgomery =>
        RawInvPrime(X.p, A.p, N, T);
        st := Ok;
      case RepOptRed =>
        st := InvNonMont(X, A, N, T);
      case RepInvalid =>
        st := Fail(ERR_BAD_INPUT);
    }
  }

  // -------------------------------------------------------------- input and output

  /** The number a byte string stands for. */
  function BytesValue(b: seq<byte>, ext: ExtRep): nat { if ext.ExtBe? then BeVal(b) else LeVal(b) }

  /** The len bytes of a number. */
  function ValueBytes(v: nat, len: nat, ext: ExtRep): (s: seq<byte>)
    ensures |s| == len
  {
    if ext.ExtBe? then ToBe(v, len) else ToLe(v, len)
  }

  /** What mod_read answers for a residue and modulus that are set up. */
  function ReadStatus(b: seq<byte>, ext: ExtRep, m: nat, n: nat): Status {
    if ext.ExtInvalid? then Fail(ERR_BAD_INPUT)
    else if CharsToLimbs(|b|) > n then Fail(ERR_BUFFER_TOO_SMALL)
    else if BytesValue(b, ext) >= m then Fail(ERR_BAD_INPUT)
    else Ok
  }

  /** mbedtls_mpi_mod_raw_read; a number that is too large stays in X. */
  method RawRead(X: array<limb>, N: Modulus, b: seq<byte>, ext: ExtRep) returns (st: Status)
    requires N.limbs <= N.p.Length && N.limbs <= X.Length && X != N.p
    modifies X
    ensures OnlyWrote(X, 0, N.limbs)
    ensures st == ReadStatus(b, ext, N.V(), N.limbs)
    ensures ext.ExtInvalid? || CharsToLimbs(|b|) > N.limbs ==> X[..] == old(X[..])
    ensures !ext.ExtInvalid? && CharsToLimbs(|b|) <= N.limbs ==> Num(X, N.limbs) == BytesValue(b, ext)
    ensures ext.ExtBe? && CharsToLimbs(|b|) <= N.limbs ==> Num(X, N.limbs) == BeVal(b)
    ensures ext.ExtLe? && CharsToLimbs(|b|) <= N.limbs ==> Num(X, N.limbs) == LeVal(b)
  {
    hide Val, LeVal, BeVal, CharsToLimbs;
    match ext {
      case ExtLe => st := ReadLe(X, N.limbs, b);
      case ExtBe => st := ReadBe(X, N.limbs, b);
      case ExtInvalid => return Fail(ERR_BAD_INPUT);
    }
    if st.Fail? { SameArray(X, N.limbs, old(X[..])); return; }
    var lt := LtCt(X, N.p, N.limbs);
    if !lt { return Fail(ERR_BAD_INPUT); }
  }

  lemma SameArray(X: array<limb>, n: nat, s: seq<limb>)
    requires n <= X.Length == |s| && X[..n] == s[..n] && forall k :: n <= k < |s| ==> X[k] == s[k]
    ensures X[..] == s
  {
    forall k | 0 <= k < |s| ensures X[k] == s[k] {
      if k < n { assert X[..n][k] == s[..n][k]; }
    }
  }

  /** mbedtls_mpi_mod_read */
  method ModRead(r: Residue, N: Modulus, b: seq<byte>, ext: ExtRep) returns (st: Status)
    requires r.limbs == N.limbs > 0 ==> N.Usable() && Buffer(r, N)
    modifies r`limbs, r.p
    ensures r.limbs == old(r.limbs)
    ensures r.limbs == 0 || N.limbs == 0 || r.limbs != N.limbs ==> st == Fail(ERR_BAD_INPUT) && r.p[..] == old(r.p[..])
    ensures r.limbs == N.limbs > 0 && !N.rep.RepInvalid? ==> st == ReadStatus(b, ext, N.V(), N.limbs)
    ensures st.Ok? ==> Canonical(r, N) && Element(r.p, N) == BytesValue(b, ext)
    ensures st.Ok? && ext.ExtBe? ==> Element(r.p, N) == BeVal(b)
    ensures st.Ok? && ext.ExtLe? ==> Element(r.p, N) == LeVal(b)
    ensures ext.ExtInvalid? || st == Fail(ERR_BUFFER_TOO_SMALL) ==> r.p[..] == old(r.p[..])
    ensures r.limbs == N.limbs > 0 && old(Canonical(r, N)) ==>
      (Canonical(r, N) <==> ext.ExtInvalid? || CharsToLimbs(|b|) > N.limbs || BytesValue(b, ext) < N.V())
    ensures r.limbs == N.limbs > 0 && !ext.ExtInvalid? && CharsToLimbs(|b|) <= N.limbs && BytesValue(b, ext) >= N.V() ==>
      st == Fail(ERR_BAD_INPUT) && Num(r.p, N.limbs) == BytesValue(b, ext)
  {
    hide Val, LeVal, BeVal, CharsToLimbs, MontDec, MontConst, Cong, Bn;
    if r.limbs == 0 || N.limbs == 0 { return Fail(ERR_BAD_INPUT); }
    if r.limbs != N.limbs { return Fail(ERR_BAD_INPUT); }
    :- RawRead(r.p, N, b, ext);
    r.limbs := N.limbs;
    match N.rep {
      case RepMontgomery => RawToMont(r.p, N); st := Ok;
      case RepOptRed => st := Ok;
      case RepInvalid => st := Fail(ERR_BAD_INPUT);
    }
  }

  function WriteStatus(v: nat, len: nat, ext: ExtRep): Status {
    if ext.ExtInvalid? then Fail(ERR_BAD_INPUT) else if v < B8(len) then Ok else Fail(ERR_BUFFER_TOO_SMALL)
  }

  /** mbedtls_mpi_mod_raw_write */
  method RawWrite(A: array<limb>, N: Modulus, output: array<byte>, ext: ExtRep) returns (st: Status)
    requires N.limbs <= A.Length
    modifies output
    ensures st == WriteStatus(Num(A, N.limbs), output.Length, ext)
    ensures output[..] == if st.Ok? then ValueBytes(Num(A, N.limbs), output.Length, ext) else old(output[..])
  {
    hide Val, B8, ToLe, ToBe;
    match ext {
      case ExtLe => st := WriteLe(A, N.limbs, output);
      case ExtBe => st := WriteBe(A, N.limbs, output);
      case ExtInvalid => st := Fail(ERR_BAD_INPUT);
    }
  }

  /** Converting out of Montgomery form and back restores every limb. */
  lemma Restored(x: seq<limb>, y: seq<limb>, m: nat)
    requires |x| == |y| && m % 2 == 1 && Val(x) < m && Val(y) < m && MontDec(Val(x), m, |x|) == MontDec(Val(y), m, |x|)
    ensures x == y
  {
    hide Val, MontDec, Rep;
    var n := |x|;
    MontDecRep(Val(x), m, n); MontDecRep(Val(y), m, n);
    RepUnique(Val(x), Val(y), MontDec(Val(x), m, n), MontDec(Val(y), m, n), m, n);
    ValInjective(x, y);
  }

  lemma ValueOfBytes(v: nat, len: nat)
    ensures v < B8(len) ==> BeVal(ToBe(v, len)) == v && LeVal(ToLe(v, len)) == v
  {
    hide B8, ToLe, ToBe, LeVal, BeVal;
    ToBeVal(v, len); ToLeVal(v, len);
    if v < B8(len) { ModSmall(v, B8(len)); }
  }

  /** mbedtls_mpi_mod_write: the residue is as before, whatever the outcome. */
  method ModWrite(r: Residue, N: Modulus, output: array<byte>, ext: ExtRep) returns (st: Status)
    requires r.limbs == N.limbs > 0 ==> N.Usable() && Canonical(r, N)
    modifies r.p, output
    ensures r.p[..] == old(r.p[..])
    ensures r.limbs == 0 || N.limbs == 0 || r.limbs != N.limbs ==> st == Fail(ERR_BAD_INPUT)
    ensures r.limbs == N.limbs > 0 ==> st == WriteStatus(old(Element(r.p, N)), output.Length, ext)
    ensures output[..] == if st.Ok? then ValueBytes(old(Element(r.p, N)), output.Length, ext) else old(output[..])
    ensures st.Ok? && ext.ExtBe? ==> BeVal(output[..]) == old(Element(r.p, N))
    ensures st.Ok? && ext.ExtLe? ==> LeVal(output[..]) == old(Element(r.p, N))
  {
    hide Val, MontDec, MontConst, Cong, Bn, B8, ToLe, ToBe, LeVal, BeVal;
    ValueOfBytes(Element(r.p, N), output.Length);
    if r.limbs == 0 || N.limbs == 0 { return Fail(ERR_BAD_INPUT); }
    if r.limbs != N.limbs { return Fail(ERR_BAD_INPUT); }
    var n := N.limbs;
    ghost var x := r.p[..n];
    if N.rep.RepMontgomery? { RawFromMont(r.p, N); }
    st := RawWrite(r.p, N, output, ext);
    if N.rep.RepMontgomery? {
      RawToMont(r.p, N);
      Restored(x, r.p[..n], N.V());
      SameArray(r.p, n, old(r.p[..]));
    }
  }

  /** Reading the octet 3 modulo 3 is refused and leaves 3 in the residue. */
  method RefusedStays() returns (st: Status, r: Residue, N: Modulus)
    ensures N.V() == 3 && r.limbs == N.limbs == 1 && st == Fail(ERR_BAD_INPUT)
    ensures Num(r.p, 1) == 3 && !Canonical(r, N)
  {
    hide Val, LeVal, BeVal, CharsToLimbs, MontDec, MontConst, Cong, Bn, NumBits;
    var three := new limb[1] [3];
    var zero := new limb[1] [0];
    assert three[..1] == [3] && zero[..1] == [0];
    ValOne([3]); ValOne([0]);
    N := new Modulus();
    st := ModulusSetup(N, three, 1, RepOptRed);
    r := new Residue();
    st := ResidueSetup(r, N, zero, 1);
    OneOctet(3); OneLimb();
    st := ModRead(r, N, [3], ExtBe);
  }

  lemma OneLimb()
    ensures CharsToLimbs(1) == 1
  {
    LimbBytes();
  }
}
