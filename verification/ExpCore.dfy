/** bignum_core.c: fixed-window modular exponentiation in Montgomery form. */
module ExpCore {
  import opened Arith
  import opened Limbs
  import opened Bits
  import opened Core
  import opened Mont
  import opened MontRep

  // ----------------------------------------------------------------- window

  /** MBEDTLS_MPI_WINDOW_SIZE, at most 6. */
  type WindowLimit = w: nat | 1 <= w <= 6 witness 2
  const MPI_WINDOW_SIZE: WindowLimit

  function WindowSize(ebits: nat): (w: nat)
    ensures 1 <= w <= 6
  {
    var w := if ebits > 671 then 6 else if ebits > 239 then 5 else if ebits > 79 then 4 else 1;
    if MPI_WINDOW_SIZE < 6 && w > MPI_WINDOW_SIZE then MPI_WINDOW_SIZE else w
  }

  /** Offset of the k-th n-limb entry of a table. */
  function Slot(n: nat, k: nat): nat {
    MulSign(k, n);
    k * n
  }

  lemma SlotOrder(n: nat, j: nat, k: nat)
    requires j < k
    ensures Slot(n, j) + n <= Slot(n, k)
  {
    MulMono(j + 1, k, n);
    MulDist(n, j, 1);
  }

  lemma SlotNext(n: nat, k: nat)
    ensures Slot(n, 0) == 0 && Slot(n, 1) == n && Slot(n, k + 1) == Slot(n, k) + n
  {
    MulDist(n, k, 1);
  }

  /** mbedtls_mpi_core_exp_mod_working_limbs */
  function WorkingLimbs(n: nat, eLimbs: nat): nat {
    MulSign(eLimbs, BI_L);
    var welem := Pow2(WindowSize(eLimbs * BI_L));
    Slot(n, welem) + n + (2 * n + 1)
  }

  /** Entry k of the table at offset to. */
  ghost function Entry(t: seq<limb>, to: nat, n: nat, k: nat): seq<limb> {
    if to + Slot(n, k) + n <= |t| then t[to + Slot(n, k)..to + Slot(n, k) + n] else []
  }

  /** The first count entries of the table are a^0, a^1, ... in Montgomery form. */
  ghost predicate PowersIn(t: seq<limb>, to: nat, n: nat, count: nat, a: int, vn: nat) {
    to + Slot(n, count) <= |t| &&
    forall k :: 0 <= k < count ==> Rep(Val(Entry(t, to, n, k)), Pow(a, k), vn, n)
  }

  ghost predicate Powers(T: array<limb>, to: nat, n: nat, count: nat, a: int, vn: nat)
    reads T
  {
    PowersIn(T[..], to, n, count, a, vn)
  }

  /** Writing above the table leaves it as it was. */
  lemma PowersStay(t: seq<limb>, t': seq<limb>, to: nat, n: nat, count: nat, a: int, vn: nat)
    requires PowersIn(t, to, n, count, a, vn) && |t'| == |t|
    requires forall k :: 0 <= k < to + Slot(n, count) ==> t'[k] == t[k]
    ensures PowersIn(t', to, n, count, a, vn)
  {
    hide Rep, Val, Pow, Slot;
    forall k | 0 <= k < count
      ensures Rep(Val(Entry(t', to, n, k)), Pow(a, k), vn, n)
    {
      SlotOrder(n, k, count);
      assert Entry(t', to, n, k) == Entry(t, to, n, k);
    }
  }

  lemma PowersExtend(T: array<limb>, to: nat, n: nat, count: nat, a: int, vn: nat)
    requires Powers(T, to, n, count, a, vn) && Fits(T, to, Slot(n, count + 1))
    requires Fits(T, to + Slot(n, count), n)
    requires Rep(Val(T[to + Slot(n, count)..to + Slot(n, count) + n]), Pow(a, count), vn, n)
    ensures Powers(T, to, n, count + 1, a, vn)
  {
    assert T[..][to + Slot(n, count)..to + Slot(n, count) + n] == T[to + Slot(n, count)..to + Slot(n, count) + n];
  }

  lemma PowersAt(T: array<limb>, to: nat, n: nat, count: nat, a: int, vn: nat, k: nat)
    requires Powers(T, to, n, count, a, vn) && k < count
    ensures Fits(T, to + Slot(n, k), n)
    ensures Entry(T[..], to, n, k) == T[to + Slot(n, k)..to + Slot(n, k) + n]
    ensures Rep(Val(T[to + Slot(n, k)..to + Slot(n, k) + n]), Pow(a, k), vn, n)
  {
    SlotOrder(n, k, count);
    assert T[..][to + Slot(n, k)..to + Slot(n, k) + n] == T[to + Slot(n, k)..to + Slot(n, k) + n];
  }

  lemma OneVal(d: seq<limb>)
    requires |d| >= 1 && d[0] == 1 && forall k :: 1 <= k < |d| ==> d[k] == 0
    ensures Val(d) == 1
  {
    ValSplit(d, 1); ValOne(d[..1]); ValZeros(d[1..]);
  }

  /** N holds the odd modulus vn in n limbs and mm belongs to it. */
  ghost predicate Modulus(N: array<limb>, no: nat, n: nat, mm: limb, vn: nat)
    reads N
  {
    n >= 1 && Fits(N, no, n) && Val(N[no..no + n]) == vn && vn % 2 == 1 && MontConst(mm, N[no])
  }

  /** RR = R^2 mod N in n limbs. */
  ghost predicate Square(RR: array<limb>, ro: nat, n: nat, vn: nat)
    reads RR
  {
    vn > 0 && Fits(RR, ro, n) && Val(RR[ro..ro + n]) < vn && Cong(Val(RR[ro..ro + n]), Bn(n) * Bn(n), vn)
  }

  /** montmul on operands that stand for a and b. */
  method MulRep(X: array<limb>, xo: nat, A: array<limb>, ao: nat, B: array<limb>, bo: nat,
                N: array<limb>, no: nat, n: nat, mm: limb, T: array<limb>, to: nat,
                ghost a: int, ghost b: int, ghost vn: nat)
    requires Modulus(N, no, n, mm, vn) && Alias(X, xo, N, no, n)
    requires Fits(X, xo, n) && Fits(A, ao, n) && Fits(B, bo, n) && Fits(T, to, 2 * n + 1)
    requires Apart(T, to, 2 * n + 1, X, xo, n) && Apart(T, to, 2 * n + 1, A, ao, n)
    requires Apart(T, to, 2 * n + 1, B, bo, n) && Apart(T, to, 2 * n + 1, N, no, n)
    requires Rep(Val(A[ao..ao + n]), a, vn, n) && Rep(Val(B[bo..bo + n]), b, vn, n)
    modifies X, T
    ensures OnlyWroteXT(X, X, xo, n, T, to, 2 * n + 1) && OnlyWroteXT(T, X, xo, n, T, to, 2 * n + 1)
    ensures Rep(Val(X[xo..xo + n]), a * b, vn, n)
  {
    hide Val, MontProduct, MontConst, Rep;
    ghost var va, vb := Val(A[ao..ao + n]), Val(B[bo..bo + n]);
    RepBound(vb, b, vn, n);
    CoreMontmul(X, xo, A, ao, B, bo, n, N, no, n, mm, T, to);
    RepMul(va, a, vb, b, Val(X[xo..xo + n]), vn, n);
  }

  /** W[0] = 1 in Montgomery form. */
  method WindowOne(N: array<limb>, no: nat, n: nat, mm: limb, RR: array<limb>, ro: nat,
                   T: array<limb>, to: nat, tmp: nat, ghost a: int, ghost vn: nat)
    requires Modulus(N, no, n, mm, vn) && Square(RR, ro, n, vn) && N != T && RR != T
    requires to + n <= tmp && Fits(T, tmp, 2 * n + 1)
    modifies T
    ensures OnlyWroteXT(T, T, to, n, T, tmp, 2 * n + 1)
    ensures Powers(T, to, n, 1, a, vn)
  {
    hide Val, MontProduct, MontConst, Rep, Cong, Slot, Pow, Bn, PowersIn;
    MemZero(T, to, n);
    T[to] := 1;
    OneVal(T[to..to + n]);
    CoreMontmul(T, to, T, to, RR, ro, n, N, no, n, mm, T, tmp);
    RepEnter(1, Val(RR[ro..ro + n]), Val(T[to..to + n]), vn, n);
    PowersFirst(T, to, n, a, vn);
  }

  lemma PowersFirst(T: array<limb>, to: nat, n: nat, a: int, vn: nat)
    requires Fits(T, to, n) && Rep(Val(T[to..to + n]), 1, vn, n)
    ensures Powers(T, to, n, 1, a, vn)
  {
    SlotNext(n, 0);
  }

  /** W[i] = W[i-1] * W[1] */
  method WindowNext(N: array<limb>, no: nat, n: nat, mm: limb, T: array<limb>, to: nat, tmp: nat, i: nat,
                    ghost a: int, ghost vn: nat)
    requires Modulus(N, no, n, mm, vn) && N != T && i >= 2
    requires to + Slot(n, i + 1) <= tmp && Fits(T, tmp, 2 * n + 1) && Powers(T, to, n, i, a, vn)
    modifies T
    ensures OnlyWroteXT(T, T, to + Slot(n, i), n, T, tmp, 2 * n + 1)
    ensures Powers(T, to, n, i + 1, a, vn)
  {
    hide Val, MontConst, Rep, Slot, Pow, PowersIn, Entry;
    SlotNext(n, i); SlotNext(n, i - 1); SlotOrder(n, 1, i); SlotNext(n, 0);
    PowOneMore(a, 0); PowOneMore(a, i - 1);
    PowersAt(T, to, n, i, a, vn, 1);
    PowersAt(T, to, n, i, a, vn, i - 1);
    MulRep(T, to + Slot(n, i), T, to + Slot(n, i - 1), T, to + n, N, no, n, mm, T, tmp, Pow(a, i - 1), a, vn);
    PowersStay(old(T[..]), T[..], to, n, i, a, vn);
    PowersExtend(T, to, n, i, a, vn);
  }

  lemma PowOneMore(a: int, k: nat)
    ensures Pow(a, 0) == 1 && Pow(a, k + 1) == Pow(a, k) * a
  {}

  /** W[1] = A */
  method WindowBase(A: array<limb>, ao: nat, n: nat, T: array<limb>, to: nat, ghost a: int, ghost vn: nat)
    requires Fits(A, ao, n) && Fits(T, to, n + n) && A != T && Rep(Val(A[ao..ao + n]), a, vn, n) && Powers(T, to, n, 1, a, vn)
    modifies T
    ensures OnlyWrote(T, to + n, n)
    ensures Powers(T, to, n, 2, a, vn)
  {
    hide Val, Rep, Slot, Pow;
    SlotNext(n, 0); SlotNext(n, 1);
    MemCopy(T, to + n, A, ao, n);
    PowersStay(old(T[..]), T[..], to, n, 1, a, vn);
    PowOneMore(a, 0);
    PowersExtend(T, to, n, 1, a, vn);
  }

  method PrecomputeWindow(A: array<limb>, ao: nat, N: array<limb>, no: nat, n: nat, mm: limb,
                          RR: array<limb>, ro: nat, welem: nat, T: array<limb>, to: nat, tmp: nat,
                          ghost a: int, ghost vn: nat)
    requires Modulus(N, no, n, mm, vn) && Square(RR, ro, n, vn) && welem >= 2
    requires Fits(A, ao, n) && Rep(Val(A[ao..ao + n]), a, vn, n)
    requires A != T && N != T && RR != T
    requires to + Slot(n, welem) <= tmp && Fits(T, tmp, 2 * n + 1)
    modifies T
    ensures OnlyWrote(T, to, tmp + 2 * n + 1 - to)
    ensures Powers(T, to, n, welem, a, vn)
  {
    hide Val, MontConst, Rep, Slot, Pow, Cong, Bn;
    SlotNext(n, 0); SlotOrder(n, 0, welem); SlotOrder(n, 1, welem); SlotNext(n, 1);
    WindowOne(N, no, n, mm, RR, ro, T, to, tmp, a, vn);
    WindowBase(A, ao, n, T, to, a, vn);
    for i := 2 to welem
      invariant OnlyWrote(T, to, tmp + 2 * n + 1 - to)
      invariant Powers(T, to, n, i, a, vn)
    {
      SlotNext(n, i); SlotOrder(n, i, welem);
      WindowNext(N, no, n, mm, T, to, tmp, i, a, vn);
    }
  }

  /** mbedtls_mpi_core_ct_uint_table_lookup: every entry is read, one is kept. */
  method TableLookup(D: array<limb>, dof: nat, T: array<limb>, to: nat, n: nat, count: nat, index: nat)
    requires Fits(D, dof, n) && Fits(T, to, Slot(n, count)) && Apart(D, dof, n, T, to, Slot(n, count))
    requires index < count
    modifies D
    ensures OnlyWrote(D, dof, n)
    ensures D[dof..dof + n] == old(Entry(T[..], to, n, index))
  {
    hide Slot;
    SlotOrder(n, index, count); SlotNext(n, 0);
    ghost var e := Entry(T[..], to, n, index);
    var table := to;
    for i := 0 to count
      invariant table == to + Slot(n, i)
      invariant OnlyWrote(D, dof, n)
      invariant i > index ==> D[dof..dof + n] == e
    {
      SlotNext(n, i); SlotOrder(n, i, count);
      assert i == index ==> T[table..table + n] == e;
      CondAssign(n, D, dof, T, table, Bit(i == index));
      table := table + n;
    }
  }

  // ---------------------------------------------------- the exponentiation loop

  /** X stands for a^ex. */
  ghost predicate Holds(X: array<limb>, xo: nat, n: nat, a: int, ex: nat, vn: nat)
    reads X
  {
    Fits(X, xo, n) && Rep(Val(X[xo..xo + n]), Pow(a, ex), vn, n)
  }

  method Square1(X: array<limb>, xo: nat, N: array<limb>, no: nat, n: nat, mm: limb,
                 T: array<limb>, to: nat, welem: nat, tmp: nat, ghost a: int, ghost ex: nat, ghost vn: nat)
    requires Modulus(N, no, n, mm, vn) && Holds(X, xo, n, a, ex, vn)
    requires X != N && X != T && N != T && to + Slot(n, welem) <= tmp && Fits(T, tmp, 2 * n + 1)
    requires Powers(T, to, n, welem, a, vn)
    modifies X, T
    ensures OnlyWrote(X, xo, n) && OnlyWrote(T, tmp, 2 * n + 1)
    ensures Holds(X, xo, n, a, 2 * ex, vn) && Powers(T, to, n, welem, a, vn)
  {
    hide Val, MontConst, Rep, Pow, Slot, PowersIn;
    MulRep(X, xo, X, xo, X, xo, N, no, n, mm, T, tmp, Pow(a, ex), Pow(a, ex), vn);
    PowAdd(a, ex, ex);
    PowersStay(old(T[..]), T[..], to, n, welem, a, vn);
  }

  /** Multiply X by W[window]. */
  method Flush(X: array<limb>, xo: nat, N: array<limb>, no: nat, n: nat, mm: limb,
               T: array<limb>, to: nat, welem: nat, window: nat, ghost a: int, ghost ex: nat, ghost vn: nat)
    requires Modulus(N, no, n, mm, vn) && Holds(X, xo, n, a, ex, vn) && window < welem
    requires X != N && X != T && N != T && Fits(T, to, Slot(n, welem) + n + (2 * n + 1))
    requires Powers(T, to, n, welem, a, vn)
    modifies X, T
    ensures OnlyWrote(X, xo, n) && OnlyWrote(T, to + Slot(n, welem), n + (2 * n + 1))
    ensures Holds(X, xo, n, a, ex + window, vn) && Powers(T, to, n, welem, a, vn)
  {
    hide Val, MontConst, Rep, Pow, Slot, PowersIn, Entry;
    var sel := to + Slot(n, welem);
    PowersAt(T, to, n, welem, a, vn, window);
    TableLookup(T, sel, T, to, n, welem, window);
    MulRep(X, xo, X, xo, T, sel, N, no, n, mm, T, sel + n, Pow(a, ex), Pow(a, window), vn);
    PowAdd(a, ex, window);
    PowersStay(old(T[..]), T[..], to, n, welem, a, vn);
  }

  /** (E[l] >> b) & 1 */
  function ExponentBit(x: limb, b: nat): (r: limb)
    ensures r == ShrW(x, b) % 2
  {
    BitAndMask(ShrW(x, b), 1);
    assert Pow2(1) == 2 * Pow2(0);
    BitAnd(ShrW(x, b), 1)
  }

  /** The window takes in one more bit. */
  lemma WindowShift(window: limb, bit: limb, k: nat)
    requires window < Pow2(k) && k <= 5 && bit <= 1
    ensures BitOr(ShlW(window, 1), bit) == 2 * window + bit < Pow2(k + 1) <= 64
  {
    PowMono(2, k, 5);
    hide Pow2, Pow, BitOr;
    Pow2Small(); Pow2Zero(); Pow2Add(1, 4); Pow2Add(1, k);
    ModSmall(window * 2, BASE);
    DivModUnique(2 * window, 2, window, 0);
    BitOrDisjoint(2 * window, bit, 1);
  }

  /** The bits of E not read yet, when the indices stand at limb l, bit b. */
  function Unread(l: nat, b: nat): nat {
    MulSign(l, BI_L);
    l * BI_L + b
  }

  lemma UnreadStep(l: nat, b: nat)
    requires b > 0 || l > 0
    ensures b > 0 ==> Unread(l, b - 1) + 1 == Unread(l, b)
    ensures b == 0 ==> Unread(l - 1, BI_L - 1) + 1 == Unread(l, b)
    ensures Unread(0, 0) == 0
  {
    MulDist(BI_L, l - 1, 1);
  }

  /** Before the first step nothing of E has been read; after the last, all of it. */
  lemma HighEnds(e: seq<limb>)
    ensures High(Val(e), Unread(|e|, 0)) == 0 && High(Val(e), 0) == Val(e)
  {
    hide Val, Bn, Pow2, Pow;
    BnPow2(|e|);
    ValBound(e);
    ModSmall(Val(e), Bn(|e|));
    Pow2Zero();
  }

  lemma HighStep(e: seq<limb>, l: nat, b: nat)
    requires l < |e| && b < BI_L
    ensures High(Val(e), Unread(l, b)) == 2 * High(Val(e), Unread(l, b) + 1) + ExponentBit(e[l], b)
  {
    NextBit(e, l, b);
  }

  lemma WindowElems(w: nat, k: nat)
    requires 1 <= w && k <= w
    ensures Pow2(w) >= 2 && Pow2(k) <= Pow2(w)
  {
    PowMono(2, 1, w); PowMono(2, k, w);
    assert Pow2(1) == 2 * Pow2(0);
  }

  lemma HoldsStart(X: array<limb>, xo: nat, n: nat, a: int, vn: nat)
    requires Fits(X, xo, n) && Rep(Val(X[xo..xo + n]), 1, vn, n)
    ensures Holds(X, xo, n, a, 0, vn)
  {}

  lemma HoldsEnd(X: array<limb>, xo: nat, n: nat, a: int, ex: nat, vn: nat)
    requires Holds(X, xo, n, a, ex, vn)
    ensures Rep(Val(X[xo..xo + n]), Pow(a, ex), vn, n)
  {}

  /** Where the scan of the exponent stands: next position, window and its bits. */
  datatype Scan = Scan(l: nat, b: nat, windowBits: nat, window: limb)

  ghost predicate ScanOk(p: Scan, e: seq<limb>, wsize: nat, ex: nat) {
    && p.windowBits < wsize <= 6 && p.window < Pow2(p.windowBits)
    && p.b < BI_L && p.l <= |e| && (p.b > 0 ==> p.l < |e|)
    && ex + p.window == High(Val(e), Unread(p.l, p.b))
  }

  /** Advance the scan by one bit, which joins the window. */
  method ScanBit(p: Scan, E: array<limb>, eo: nat, el: nat, wsize: nat, ghost ex: nat) returns (q: Scan)
    requires Fits(E, eo, el) && !(p.b == 0 && p.l == 0) && ScanOk(p, E[eo..eo + el], wsize, ex)
    ensures q.l < el && q.b < BI_L && Unread(q.l, q.b) + 1 == Unread(p.l, p.b)
    ensures q.windowBits == p.windowBits + 1 <= wsize && q.window < Pow2(q.windowBits)
    ensures 2 * ex + q.window == High(Val(E[eo..eo + el]), Unread(q.l, q.b))
  {
    hide Val, Pow, High, Unread, ExponentBit, ShlW, BitOr;
    ghost var e := E[eo..eo + el];
    UnreadStep(p.l, p.b);
    var l, b := p.l, p.b;
    if b == 0 { l, b := l - 1, BI_L - 1; } else { b := b - 1; }
    assert E[eo + l] == e[l];
    HighStep(e, l, b);
    WindowShift(p.window, ExponentBit(E[eo + l], b), p.windowBits);
    q := Scan(l, b, p.windowBits + 1, BitOr(ShlW(p.window, 1), ExponentBit(E[eo + l], b)));
  }

  /** The table of powers, and X = W[0]. */
  method ExpStart(X: array<limb>, xo: nat, A: array<limb>, ao: nat, N: array<limb>, no: nat, n: nat, mm: limb,
                  RR: array<limb>, ro: nat, welem: nat, T: array<limb>, to: nat, tmp: nat,
                  ghost a: int, ghost vn: nat)
    requires Modulus(N, no, n, mm, vn) && Square(RR, ro, n, vn) && welem >= 2
    requires Fits(X, xo, n) && Fits(A, ao, n) && Rep(Val(A[ao..ao + n]), a, vn, n)
    requires A != T && N != T && RR != T && X != T
    requires to + Slot(n, welem) <= tmp && Fits(T, tmp, 2 * n + 1)
    modifies X, T
    ensures OnlyWrote(X, xo, n) && OnlyWrote(T, to, tmp + 2 * n + 1 - to)
    ensures Powers(T, to, n, welem, a, vn) && Holds(X, xo, n, a, 0, vn)
  {
    hide Val, MontConst, Rep, Pow, Slot, PowersIn, Cong, Bn, Holds;
    PrecomputeWindow(A, ao, N, no, n, mm, RR, ro, welem, T, to, tmp, a, vn);
    PowersAt(T, to, n, welem, a, vn, 0); SlotNext(n, 0); PowOneMore(a, 0);
    MemCopy(X, xo, T, to, n);
    HoldsStart(X, xo, n, a, vn);
  }

  /** X = A^E in Montgomery form: A stands for a, X ends standing for a^E.
      Bits of E are read from the most significant one; X is squared for each of
      them and multiplied by a table entry whenever the window is full. */
  method CoreExpMod(X: array<limb>, xo: nat, A: array<limb>, ao: nat, N: array<limb>, no: nat, n: nat,
                    E: array<limb>, eo: nat, el: nat, RR: array<limb>, ro: nat, T: array<limb>, to: nat,
                    ghost a: int)
    requires n >= 1 && el >= 1 && Fits(X, xo, n) && Fits(A, ao, n) && Fits(N, no, n) && Fits(E, eo, el)
    requires N[no] % 2 == 1 && Square(RR, ro, n, Val(N[no..no + n]))
    requires Rep(Val(A[ao..ao + n]), a, Val(N[no..no + n]), n)
    requires Fits(T, to, WorkingLimbs(n, el)) && Apart(T, to, WorkingLimbs(n, el), E, eo, el)
    requires T != X && T != A && T != N && T != RR && X != N && X != RR && X != E
    modifies X, T
    ensures OnlyWrote(X, xo, n) && OnlyWrote(T, to, WorkingLimbs(n, el))
    ensures Rep(Val(X[xo..xo + n]), Pow(a, old(Val(E[eo..eo + el]))), Val(N[no..no + n]), n)
  {
    hide Val, MontConst, Rep, Pow, Slot, PowersIn, Cong, Bn, High, Holds, Unread;
    ghost var vn, e := Val(N[no..no + n]), E[eo..eo + el];
    ValLow(N[no..no + n]);
    MulSign(el, BI_L);
    var wsize := WindowSize(el * BI_L);
    var welem := Pow2(wsize);
    WindowElems(wsize, 1);
    var tmp := to + Slot(n, welem) + n;
    var mm := MontmulInit(N, no);
    ExpStart(X, xo, A, ao, N, no, n, mm, RR, ro, welem, T, to, tmp, a, vn);
    var p := Scan(el, 0, 0, 0);
    ghost var ex: nat := 0;
    HighEnds(e); UnreadStep(el, 0);
    var more := true;
    while more
      invariant more == !(p.b == 0 && p.l == 0) && ScanOk(p, e, wsize, ex) && (!more ==> p.window == 0)
      invariant OnlyWrote(X, xo, n) && OnlyWrote(T, to, WorkingLimbs(n, el))
      invariant Powers(T, to, n, welem, a, vn) && Holds(X, xo, n, a, ex, vn)
      decreases Unread(p.l, p.b)
    {
      assert E[eo..eo + el] == e;
      Square1(X, xo, N, no, n, mm, T, to, welem, tmp, a, ex, vn);
      assert E[eo..eo + el] == e;
      p := ScanBit(p, E, eo, el, wsize, ex);
      ex := 2 * ex;
      more := !(p.b == 0 && p.l == 0);
      if p.windowBits == wsize || !more {
        WindowElems(wsize, p.windowBits);
        Flush(X, xo, N, no, n, mm, T, to, welem, p.window, a, ex, vn);
        ex := ex + p.window;
        p := p.(window := 0, windowBits := 0);
      }
    }
    HoldsEnd(X, xo, n, a, ex, vn);
  }
}
