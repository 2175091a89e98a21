/** bignum_core.c: Montgomery initialisation and multiplication. */
module Mont {
  import opened Arith
  import opened Limbs
  import opened Core

  // ------------------------------------------------- mbedtls_mpi_core_montmul_init

  /** mm is -N^-1 modulo 2^biL, given the low limb of N. */
  predicate MontConst(mm: limb, n0: limb) {
    Cong(n0 * mm, -1, BASE)
  }

  lemma And4(y: nat)
    ensures BitAnd(y, 4) == 4 * ((y / 4) % 2)
  {
    assert BitAnd(y / 4, 1) == (y / 4) % 2;
    assert BitAnd(y / 2, 2) == 2 * BitAnd(y / 4, 1) by { assert (y / 2) / 2 == y / 4; }
    assert BitAnd(y, 4) == 2 * BitAnd(y / 2, 2);
  }

  lemma FourBitsTable(r: int, e: int)
    requires 0 <= r < 16 && r % 2 == 1 && e == 8 * (((r + 2) / 4) % 2)
    ensures (r * (r + e)) % 16 == 1
  {
    if r == 1 { assert e == 0; } else if r == 3 { assert e == 8; }
    else if r == 5 { assert e == 8; } else if r == 7 { assert e == 0; }
    else if r == 9 { assert e == 0; } else if r == 11 { assert e == 8; }
    else if r == 13 { assert e == 8; } else { assert r == 15 && e == 0; }
  }

  /** For odd n, n * (n + 8*[(n+2) & 4]/4) is 1 modulo 16. */
  lemma FourBits(n: int, x: int)
    requires n % 2 == 1
    requires Cong(x, n + 2 * (4 * (((n + 2) / 4) % 2)), 16)
    ensures Cong(n * x, 1, 16)
  {
    var r := n % 16;
    CongMod(n, 16);
    var e := 8 * (((n + 2) / 4) % 2);
    SameBitTwo(n, r);
    FourBitsTable(r, e);
    hide Cong;
    assert Cong(e, e, 16) by { CongRefl(e, 16); }
    CongAdd(n, r, e, e, 16);
    CongTrans(x, n + e, r + e, 16);
    CongMul(n, r, x, r + e, 16);
    CongOne(r * (r + e));
    CongTrans(n * x, r * (r + e), 1, 16);
  }

  lemma SameBitTwo(n: int, r: int)
    requires r == n % 16
    ensures ((n + 2) / 4) % 2 == ((r + 2) / 4) % 2 && r % 2 == n % 2
  {
    var q, k := n / 16, (r + 2) / 4;
    assert n == 16 * q + r;
    DivModUnique(n + 2, 4, 4 * q + k, (r + 2) % 4);
    DivModUnique(4 * q + k, 2, 2 * q + k / 2, k % 2);
    DivModUnique(n, 2, 8 * q + r / 2, r % 2);
  }

  lemma CongOne(v: int)
    requires v % 16 == 1
    ensures Cong(v, 1, 16)
  {}

  /** x is an inverse of n to j bits; one Newton step gives 2j bits. */
  lemma NewtonStep(n: int, x: int, x': int, j: nat)
    requires Cong(n * x, 1, Pow2(j)) && Cong(x', x * (2 - n * x), Pow2(2 * j))
    ensures Cong(n * x', 1, Pow2(2 * j))
  {
    var k := CongElim(n * x, 1, Pow2(j));
    PowAdd(2, j, j);
    CongMul(n, n, x', x * (2 - n * x), Pow2(2 * j));
    NewtonSquare(n, x, k, Pow2(j));
    CongIntro(n * (x * (2 - n * x)), 1, Pow2(2 * j), -(k * k));
  }

  lemma NewtonSquare(n: int, x: int, k: int, p: int)
    requires n * x == 1 + k * p
    ensures n * (x * (2 - n * x)) == 1 + (-(k * k)) * (p * p)
  {
    var e := k * p;
    MulAssoc(n, x, 2 - n * x);
    assert (1 + e) * (1 - e) == 1 - e * e;
    MulSwap(k, p, k, p);
  }

  /** 2^j divides 2^biL for j <= biL, so wrapping keeps congruences modulo 2^j. */
  lemma CongBase(a: int, b: int, j: nat)
    requires j <= BI_L && Cong(a, b, BASE)
    ensures Cong(a, b, Pow2(j))
  {
    PowAdd(2, j, BI_L - j);
    CongDivisor(a, b, Pow2(j), Pow2(BI_L - j));
  }

  lemma NewtonWrapped(n: limb, x: limb)
    ensures Cong(MulW(x, SubW(2, MulW(n, x))), x * (2 - n * x), BASE)
  {
    CongMod(n * x, BASE);
    WrapIsMod(2, MulW(n, x));
    CongMod(2 - MulW(n, x), BASE);
    CongAdd(2, 2, MulW(n, x), n * x, BASE);
    CongMul(x, x, SubW(2, MulW(n, x)), 2 - n * x, BASE);
    CongMod(x * SubW(2, MulW(n, x)), BASE);
  }

  /** N[0] + (((N[0] + 2) & 4) << 1) */
  function Guess(n0: limb): limb {
    And4(AddW(n0, 2));
    AddW(n0, ShlW(BitAnd(AddW(n0, 2), 4), 1))
  }

  lemma FirstGuess(n0: limb)
    requires n0 % 2 == 1
    ensures InverseTo(n0, Guess(n0), 4)
  {
    var y := AddW(n0, 2);
    And4(y);
    var a: limb := BitAnd(y, 4);
    Pow2Small();
    assert Pow(2, 1) == 2 * Pow(2, 0);
    ModSmall(a * 2, BASE);
    assert ShlW(a, 1) == 2 * a;
    WrapIsMod(n0, 2); CongMod(n0 + 2, BASE);
    CongBase(y, n0 + 2, 3);
    assert (y / 4) % 2 == ((n0 + 2) / 4) % 2;
    var x := AddW(n0, 2 * a);
    WrapIsMod(n0, 2 * a); CongMod(n0 + 2 * a, BASE);
    CongBase(x, n0 + 2 * a, 4);
    FourBits(n0, x);
  }

  /** x inverts n modulo 2^j. */
  predicate InverseTo(n: int, x: int, j: nat) {
    Cong(n * x, 1, Pow2(j))
  }

  lemma NewtonLimb(n0: limb, x: limb, j: nat)
    requires InverseTo(n0, x, j) && 2 * j <= BI_L
    ensures InverseTo(n0, MulW(x, SubW(2, MulW(n0, x))), 2 * j)
  {
    NewtonWrapped(n0, x);
    CongBase(MulW(x, SubW(2, MulW(n0, x))), x * (2 - n0 * x), 2 * j);
    NewtonStep(n0, x, MulW(x, SubW(2, MulW(n0, x))), j);
  }

  method MontmulInit(N: array<limb>, no: nat) returns (mm: limb)
    requires Fits(N, no, 1)
    ensures N[no] % 2 == 1 ==> MontConst(mm, N[no])
  {
    hide MulW, InverseTo, Guess;
    var n0 := N[no];
    var x := Guess(n0);
    ghost var j := 4;                       // correct bits so far
    var i: nat := BI_L;
    if n0 % 2 == 1 { FirstGuess(n0); }
    while i >= 8
      invariant i == 4 || IsWidth(i)
      invariant j * i == 4 * BI_L
      invariant n0 % 2 == 1 ==> InverseTo(n0, x, j)
    {
      Halving(i / 2, j, BI_L);
      if n0 % 2 == 1 { NewtonLimb(n0, x, j); }
      x := MulW(x, SubW(2, MulW(n0, x)));
      i, j := i / 2, 2 * j;
    }
    mm := AddW(SubW(BASE - 1, x), 1);       // ~x + 1
    if n0 % 2 == 1 { NegInverse(n0, x, mm); }
  }

  lemma Halving(i: nat, j: nat, w: nat)
    requires j * (2 * i) == 4 * w && i >= 4
    ensures (2 * j) * i == 4 * w && 2 * j <= w
  {
    MulMono(4, i, 2 * j);
    MulAssoc(j, 2, i);
  }

  lemma NegInverse(n0: limb, x: limb, mm: limb)
    requires InverseTo(n0, x, BI_L) && mm == AddW(SubW(BASE - 1, x), 1)
    ensures MontConst(mm, n0)
  {
    var k := if x == 0 then 0 else 1;
    var m: int, y: int := mm, x;
    var nx := -y;
    assert m == nx + k * BASE;
    CongIntro(m, nx, BASE, k);
    CongMul(n0, n0, m, nx, BASE);
    CongAdd(0, 0, n0 * x, 1, BASE);
    MulNeg(n0, x);
  }

  // ------------------------------------------------------ mbedtls_mpi_core_montmul

  /** Nothing of a was written outside x's n limbs and t's m limbs. */
  twostate predicate OnlyWroteXT(a: array<limb>, x: array<limb>, xo: nat, n: nat, t: array<limb>, to: nat, m: nat)
    reads a
  {
    forall k :: 0 <= k < a.Length
      && (a != x || k < xo || xo + n <= k) && (a != t || k < to || to + m <= k)
      ==> a[k] == old(a[k])
  }

  /** With u1 = (T[0] + u0*B[0]) * mm, the sum T + u0*B + u1*N ends in a zero limb. */
  lemma LowLimbZero(t: int, t0: limb, u0: limb, vb: int, b0: limb, vn: int, n0: limb, mm: limb)
    requires Cong(t, t0, BASE) && Cong(vb, b0, BASE) && Cong(vn, n0, BASE) && MontConst(mm, n0)
    ensures Cong(t + vb * u0 + vn * MulW(AddW(t0, MulW(u0, b0)), mm), 0, BASE)
  {
    var p := MulW(u0, b0);
    var q := AddW(t0, p);
    var u1 := MulW(q, mm);
    CongMod(u0 * b0, BASE);
    WrapIsMod(t0, p); CongMod(t0 + p, BASE);
    CongMod(q * mm, BASE);
    hide Cong, MulW, AddW;
    var w: int := t0 + u0 * b0;
    assert Cong(q, w, BASE) by {
      CongRefl(t0, BASE);
      CongAdd(t0, t0, p, u0 * b0, BASE);
      CongTrans(q, t0 + p, w, BASE);
    }
    assert Cong(t + vb * u0, w, BASE) by {
      CongRefl(u0, BASE);
      CongMul(vb, b0, u0, u0, BASE);
      CongAdd(t, t0, vb * u0, b0 * u0, BASE);
    }
    assert Cong(vn * u1, -w, BASE) by {
      CongRefl(mm, BASE);
      CongMul(q, w, mm, mm, BASE);
      CongTrans(u1, q * mm, w * mm, BASE);
      CongMul(vn, n0, u1, w * mm, BASE);
      CongRefl(w, BASE);
      CongMul(w, w, n0 * mm, -1, BASE);
      MulAssoc(n0, w, mm); MulAssoc(w, n0, mm);
      CongTrans(vn * u1, n0 * (w * mm), w * (-1), BASE);
    }
    CongAdd(t + vb * u0, w, vn * u1, -w, BASE);
  }

  /** One row: w = t + u0*B + u1*N is divisible by the base, its quotient t'
      stays below B + N, and t'*base^(i+1) = A_(i+1)*B + u'*N. */
  lemma RowArith(t: int, u0: int, u1: int, vb: int, vn: int, base: int, w: int, t': int, p: int, va: int, u: int)
    requires w == t + vb * u0 + vn * u1 && w == base * t'
    requires t * p == va * vb + u * vn
    requires 0 <= t < vb + vn && 0 <= vb && 0 <= vn && 0 <= u0 < base && 0 <= u1 < base
    ensures t' * (base * p) == (va + u0 * p) * vb + (u + u1 * p) * vn
    ensures 0 <= t' < vb + vn && w < base * (vb + vn)
  {
    MulMono(u0, base - 1, vb); MulMono(u1, base - 1, vn);
    MulDist(base - 1, vb, vn); MulDist(vb + vn, base, -1);
    MulMono(0, u0, vb); MulMono(0, u1, vn);
    MulCancelLt(t', vb + vn, base);
    MulCancelLt(-1, t', base);
    assert t' * (base * p) == w * p by { MulAssoc(t', base, p); }
    MulDist(p, t + vb * u0, vn * u1); MulDist(p, t, vb * u0);
    MulAssoc(vb, u0, p); MulAssoc(vn, u1, p);
    MulDist(vb, va, u0 * p); MulDist(vn, u, u1 * p);
  }

  lemma RowFitsArith(t: int, u0: int, u1: int, vb: int, vn: int, base: int, p: int)
    requires 0 <= t < vb + vn && 0 <= vb <= vn < p && 0 <= u0 < base && 0 <= u1 < base && 2 <= base
    ensures 0 <= vb * u0 && 0 <= vn * u1 && t + vb * u0 + vn * u1 < base * (base * p)
  {
    var s := vb + vn;
    MulMono(0, u0, vb); MulMono(0, u1, vn);
    assert vb * u0 + vn * u1 <= (base - 1) * s by {
      MulMono(u0, base - 1, vb); MulMono(u1, base - 1, vn);
      MulDist(base - 1, vb, vn);
    }
    assert (base - 1) * s == base * s - s by { MulDist(s, base, -1); }
    assert base * s <= base * (2 * p) by { MulMono(s, 2 * p, base); }
    assert base * (2 * p) == 2 * (base * p) by { MulAssoc(base, 2, p); MulAssoc(2, base, p); }
    assert 2 * (base * p) <= base * (base * p) by { MulSign(base, p); MulMono(2, base, base * p); }
  }

  /** The two multiply-accumulates of a row have room: no carry leaves n+2 limbs. */
  lemma RowFits(t: int, u0: limb, u1: limb, vb: int, vn: int, n: nat)
    requires 0 <= t < vb + vn && 0 <= vb <= vn < Bn(n)
    ensures 0 <= vb * u0 && 0 <= vn * u1 && t + vb * u0 + vn * u1 < Bn(n + 2)
  {
    BnStep(n); BnStep(n + 1);
    hide Bn, Pow;
    RowFitsArith(t, u0, u1, vb, vn, BASE, Bn(n));
  }

  /** The limbs of T after one row. */
  function RowSeq(d: seq<limb>, b: seq<limb>, m: seq<limb>, u0: limb, u1: limb): seq<limb> {
    MlaSeq(MlaSeq(d, b, u0, |d|).0, m, u1, |d|).0
  }

  function RowFactor(t0: limb, u0: limb, b0: limb, mm: limb): limb {
    MulW(AddW(t0, MulW(u0, b0)), mm)
  }

  lemma RowVal(d: seq<limb>, b: seq<limb>, m: seq<limb>, u0: limb, mm: limb)
    requires |d| == |m| + 2 && 0 < |b| <= |d| && 0 < |m| && MontConst(mm, m[0])
    requires Val(d) < Val(b) + Val(m) && Val(b) <= Val(m)
    ensures var u1 := RowFactor(d[0], u0, b[0], mm); var d' := RowSeq(d, b, m, u0, u1);
      |d'| == |d| && d'[0] == 0 && BASE * Val(d'[1..]) == Val(d) + Val(b) * u0 + Val(m) * u1
  {
    var u1 := RowFactor(d[0], u0, b[0], mm);
    var d1 := MlaSeq(d, b, u0, |d|).0;
    var d' := RowSeq(d, b, m, u0, u1);
    hide Val, Bn, Pow, MlaSeq, MulW;
    ValBound(m);
    RowFits(Val(d), u0, u1, Val(b), Val(m), |m|);
    MlaFits(d, b, u0);
    MlaFits(d1, m, u1);
    ValLow(d); ValLow(b); ValLow(m); ValLow(d');
    LowLimbZero(Val(d), d[0], u0, Val(b), b[0], Val(m), m[0], mm);
    assert d'[0] == 0 by {
      CongTrans(Val(d'), 0, 0, BASE);
      CongSmall(d'[0], 0, BASE);
    }
    ValSplit(d', 1); ValOne(d'[..1]); BnStep(0);
  }

  method MontRow(T: array<limb>, o: nat, u0: limb, B: array<limb>, bo: nat, bl: nat,
                 N: array<limb>, no: nat, n: nat, mm: limb)
    returns (ghost u1: limb)
    requires n >= 1 && bl >= 1 && Fits(T, o, n + 2) && Fits(B, bo, Min(bl, n + 2)) && Fits(N, no, n)
    requires Apart(T, o, n + 2, B, bo, Min(bl, n + 2)) && Apart(T, o, n + 2, N, no, n)
    modifies T
    ensures OnlyWrote(T, o, n + 2)
    ensures u1 == old(RowFactor(T[o], u0, B[bo], mm))
    ensures T[o..o + n + 2] == old(RowSeq(T[o..o + n + 2], B[bo..bo + Min(bl, n + 2)], N[no..no + n], u0, u1))
  {
    hide MlaSeq, RowFactor;
    var u1' := RowFactor(T[o], u0, B[bo], mm);
    u1 := u1';
    ghost var b, m := B[bo..bo + Min(bl, n + 2)], N[no..no + n];
    var c := CoreMla(T, o, n + 2, B, bo, bl, u0);
    assert N[no..no + n] == m;
    c := CoreMla(T, o, n + 2, N, no, n, u1');
  }

  /** What the outer loop knows after i rows: t is the number in the n+1 limbs of
      T from offset o, and t*R_i = A_i*B + u*N for the limbs A_i consumed. */
  ghost predicate Rows(t: nat, u: nat, a: seq<limb>, i: nat, vb: nat, vn: nat)
    requires i <= |a|
  {
    t < vb + vn && t * Bn(i) == Val(a[..i]) * vb + u * vn
  }

  lemma RowsStep(t: nat, u: nat, a: seq<limb>, i: nat, vb: nat, vn: nat, u1: limb, t': nat)
    requires i < |a| && Rows(t, u, a, i, vb, vn)
    requires BASE * t' == t + vb * a[i] + vn * u1
    ensures u1 * Bn(i) >= 0 && Rows(t', u + u1 * Bn(i), a, i + 1, vb, vn)
  {
    BnStep(i); ValTake(a, i);
    MulSign(u1, Bn(i));
    hide Val, Bn, Pow;
    RowArith(t, a[i], u1, vb, vn, BASE, BASE * t', t', Bn(i), Val(a[..i]), u);
  }

  /** T has n+2 limbs from o; the top one is zero, so its value is that of n+1. */
  lemma DropTopZero(d: seq<limb>)
    requires |d| > 0 && d[|d| - 1] == 0
    ensures Val(d) == Val(d[..|d| - 1])
  {}

  /** One row on limb sequences, from Rows at i to Rows at i + 1. */
  lemma RowsNext(d: seq<limb>, b: seq<limb>, m: seq<limb>, a: seq<limb>, i: nat, u: nat, mm: limb) returns (u': nat)
    requires |d| == |m| + 2 && 0 < |b| <= |d| && 0 < |m| && MontConst(mm, m[0]) && Val(b) <= Val(m)
    requires i < |a| && d[|d| - 1] == 0 && Rows(Val(d[..|d| - 1]), u, a, i, Val(b), Val(m))
    ensures var d' := RowSeq(d, b, m, a[i], RowFactor(d[0], a[i], b[0], mm));
      |d'| == |d| && Rows(Val(d'[1..]), u', a, i + 1, Val(b), Val(m))
  {
    DropTopZero(d);
    hide Val;
    RowVal(d, b, m, a[i], mm);
    var u1 := RowFactor(d[0], a[i], b[0], mm);
    var d' := RowSeq(d, b, m, a[i], u1);
    hide RowSeq, RowFactor;
    RowsStep(Val(d), u, a, i, Val(b), Val(m), u1, Val(d'[1..]));
    u' := u + u1 * Bn(i);
  }

  lemma RowsStart(d: seq<limb>, a: seq<limb>, vb: nat, vn: nat)
    requires vn > 0 && forall k :: 0 <= k < |d| ==> d[k] == 0
    ensures Rows(Val(d), 0, a, 0, vb, vn)
  {
    ValZeros(d);
    assert a[..0] == [];
  }

  /** Row i: T moves up one limb. */
  method MontRowAt(ai: limb, B: array<limb>, bo: nat, bl: nat, N: array<limb>, no: nat, n: nat, mm: limb,
                   T: array<limb>, o: nat, ghost a: seq<limb>, ghost i: nat, ghost u0: nat)
    returns (ghost u: nat)
    requires n >= 1 && bl >= 1 && Fits(T, o, n + 2) && Fits(B, bo, Min(bl, n + 2)) && Fits(N, no, n)
    requires Apart(T, o, n + 2, B, bo, Min(bl, n + 2)) && Apart(T, o, n + 2, N, no, n)
    requires MontConst(mm, N[no]) && Val(B[bo..bo + Min(bl, n + 2)]) <= Val(N[no..no + n])
    requires i < |a| && ai == a[i] && T[o + n + 1] == 0
    requires Rows(Val(T[o..o + n + 1]), u0, a, i, Val(B[bo..bo + Min(bl, n + 2)]), Val(N[no..no + n]))
    modifies T
    ensures OnlyWrote(T, o, n + 2)
    ensures Rows(Val(T[o + 1..o + n + 2]), u, a, i + 1, old(Val(B[bo..bo + Min(bl, n + 2)])), old(Val(N[no..no + n])))
  {
    hide Rows, Val, RowSeq, RowFactor, MontConst;
    ghost var d := T[o..o + n + 2];
    assert d[..n + 1] == T[o..o + n + 1];
    u := RowsNext(d, B[bo..bo + Min(bl, n + 2)], N[no..no + n], a, i, u0, mm);
    ghost var u1 := MontRow(T, o, ai, B, bo, bl, N, no, n, mm);
    assert T[o..o + n + 2][1..] == T[o + 1..o + n + 2];
  }

  /** All rows: T moves up one limb per row. */
  method MontRows(A: array<limb>, ao: nat, B: array<limb>, bo: nat, bl: nat,
                  N: array<limb>, no: nat, n: nat, mm: limb, T: array<limb>, to: nat)
    returns (ghost u: nat)
    requires n >= 1 && bl >= 1
    requires Fits(A, ao, n) && Fits(B, bo, Min(bl, n + 2)) && Fits(N, no, n) && Fits(T, to, 2 * n + 1)
    requires Apart(T, to, 2 * n + 1, A, ao, n) && Apart(T, to, 2 * n + 1, N, no, n)
    requires Apart(T, to, 2 * n + 1, B, bo, Min(bl, n + 2))
    requires MontConst(mm, N[no]) && 0 < Val(N[no..no + n]) && Val(B[bo..bo + Min(bl, n + 2)]) <= Val(N[no..no + n])
    requires forall k :: to <= k < to + 2 * n + 1 ==> T[k] == 0
    modifies T
    ensures OnlyWrote(T, to, 2 * n + 1)
    ensures Rows(Val(T[to + n..to + 2 * n + 1]), u, old(A[ao..ao + n]), n,
      old(Val(B[bo..bo + Min(bl, n + 2)])), old(Val(N[no..no + n])))
  {
    hide Rows, Val, RowSeq, RowFactor, MontConst;
    ghost var a, b, m := A[ao..ao + n], B[bo..bo + Min(bl, n + 2)], N[no..no + n];
    u := 0;
    RowsStart(T[to..to + n + 1], a, Val(b), Val(m));
    for i := 0 to n
      invariant OnlyWrote(T, to, 2 * n + 1)
      invariant forall k :: to + i + n + 1 <= k < to + 2 * n + 1 ==> T[k] == 0
      invariant Rows(Val(T[to + i..to + i + n + 1]), u, a, i, Val(b), Val(m))
    {
      assert A[ao + i] == a[i] && B[bo..bo + Min(bl, n + 2)] == b && N[no..no + n] == m;
      u := MontRowAt(A[ao + i], B, bo, bl, N, no, n, mm, T, to + i, a, i, u);
    }
  }

  /** The limbs montmul returns: T - N or T, chosen by carry ^ borrow. */
  function Reduced(t: seq<limb>, m: seq<limb>): (r: seq<limb>)
    requires |t| == |m| + 1
    ensures |r| == |m|
  {
    var n := |m|;
    var (x, borrow) := SubSeq(t[..n], m, n);
    if t[n] != borrow then t[..n] else x
  }

  /** For t < 2N the carry out of T and the borrow of T - N select the residue;
      the pair (carry, borrow) = (1, 0) does not occur. */
  lemma ReducedVal(t: seq<limb>, m: seq<limb>)
    requires |t| == |m| + 1 && Val(t) < 2 * Val(m)
    ensures Val(Reduced(t, m)) == if Val(t) < Val(m) then Val(t) else Val(t) - Val(m)
    ensures t[|m|] <= 1 && !(t[|m|] == 1 && SubSeq(t[..|m|], m, |m|).1 == 0)
  {
    var n := |m|;
    var lo := t[..n];
    ValBound(lo); ValBound(m);
    assert Val(t) == Val(lo) + t[n] * Bn(n);
    SubBorrow(lo, m, n);
    assert lo[..n] == lo && m[..n] == m;
    hide Val, Bn, Pow, SubSeq;
    SelectArith(Val(lo), t[n], Bn(n), Val(m), Val(SubSeq(lo, m, n).0), SubSeq(lo, m, n).1);
  }

  lemma SelectArith(lo: int, c: int, p: int, vm: int, x: int, b: int)
    requires 0 <= lo < p && 0 <= vm < p && 0 <= c && lo + c * p < 2 * vm && 0 <= b <= 1
    requires b == 0 ==> lo >= vm && x == lo - vm
    requires b == 1 ==> lo < vm && x == lo - vm + p
    ensures c <= 1 && !(c == 1 && b == 0)
    ensures (if c != b then lo else x) == if lo + c * p < vm then lo + c * p else lo + c * p - vm
  {
    if c >= 2 { MulMono(2, c, p); }
  }

  method MontFinish(X: array<limb>, xo: nat, T: array<limb>, o: nat, N: array<limb>, no: nat, n: nat)
    requires Fits(X, xo, n) && Fits(T, o, n + 1) && Fits(N, no, n)
    requires Apart(X, xo, n, T, o, n + 1) && Alias(X, xo, N, no, n)
    requires Val(T[o..o + n + 1]) < 2 * Val(N[no..no + n])
    modifies X
    ensures OnlyWrote(X, xo, n)
    ensures X[xo..xo + n] == old(Reduced(T[o..o + n + 1], N[no..no + n]))
  {
    hide Val, SubSeq;
    ghost var t, m := T[o..o + n + 1], N[no..no + n];
    ReducedVal(t, m);
    assert T[o..o + n] == t[..n];
    var carry := T[o + n];
    var borrow := CoreSub(X, xo, T, o, N, no, n);
    assert T[o..o + n] == t[..n];
    CondAssign(n, X, xo, T, o, if carry != borrow then 1 else 0);
  }

  /** x is the Montgomery product of va and vb: x < N and x*R = va*vb (mod N). */
  ghost predicate MontProduct(x: nat, va: nat, vb: nat, vn: nat, n: nat) {
    x < vn && Cong(x * Bn(n), va * vb, vn)
  }

  lemma FinishArith(t: int, u: int, va: int, vb: int, vn: int, p: int, x: int)
    requires 0 <= vb <= vn && 0 < vn && 0 <= t < vb + vn && t * p == va * vb + u * vn
    requires x == if t < vn then t else t - vn
    ensures 0 <= x < vn && Cong(x * p, va * vb, vn)
  {
    MulDist(p, t, -vn); MulNeg(vn, p);
    var k := if t < vn then u else u - p;
    MulDist(vn, u, -p); MulNeg(p, vn);
    CongIntro(x * p, va * vb, vn, k);
  }

  lemma FinishSeq(t: seq<limb>, u: nat, a: seq<limb>, vb: nat, m: seq<limb>)
    requires |t| == |m| + 1 && |a| == |m| && vb <= Val(m) && Rows(Val(t), u, a, |a|, vb, Val(m))
    ensures Val(t) < 2 * Val(m)
    ensures MontProduct(Val(Reduced(t, m)), Val(a), vb, Val(m), |m|)
  {
    assert a[..|a|] == a;
    ReducedVal(t, m);
    hide Val, Bn, Pow, Reduced;
    FinishArith(Val(t), u, Val(a), vb, Val(m), Bn(|m|), Val(Reduced(t, m)));
  }

  /** T cleared, then all rows. */
  method ClearedRows(A: array<limb>, ao: nat, B: array<limb>, bo: nat, bl: nat,
                     N: array<limb>, no: nat, n: nat, mm: limb, T: array<limb>, to: nat)
    returns (ghost u: nat)
    requires n >= 1 && bl >= 1
    requires Fits(A, ao, n) && Fits(B, bo, Min(bl, n + 2)) && Fits(N, no, n) && Fits(T, to, 2 * n + 1)
    requires Apart(T, to, 2 * n + 1, A, ao, n) && Apart(T, to, 2 * n + 1, N, no, n)
    requires Apart(T, to, 2 * n + 1, B, bo, Min(bl, n + 2))
    requires MontConst(mm, N[no]) && 0 < Val(N[no..no + n]) && Val(B[bo..bo + Min(bl, n + 2)]) <= Val(N[no..no + n])
    modifies T
    ensures OnlyWrote(T, to, 2 * n + 1)
    ensures Rows(Val(T[to + n..to + 2 * n + 1]), u, old(A[ao..ao + n]), n,
      old(Val(B[bo..bo + Min(bl, n + 2)])), old(Val(N[no..no + n])))
  {
    hide Rows, Val, MontConst;
    ghost var a, b, m := A[ao..ao + n], B[bo..bo + Min(bl, n + 2)], N[no..no + n];
    MemZero(T, to, 2 * n + 1);
    assert A[ao..ao + n] == a && B[bo..bo + Min(bl, n + 2)] == b && N[no..no + n] == m;
    u := MontRows(A, ao, B, bo, bl, N, no, n, mm, T, to);
  }

  /** X = A * B * R^-1 mod N, with R = 2^(biL*n). X may overlap A or B in any way;
      the scratch area T of 2n+1 limbs overlaps nothing. */
  method CoreMontmul(X: array<limb>, xo: nat, A: array<limb>, ao: nat, B: array<limb>, bo: nat, bl: nat,
                     N: array<limb>, no: nat, n: nat, mm: limb, T: array<limb>, to: nat)
    requires n >= 1 && bl >= 1
    requires Fits(X, xo, n) && Fits(A, ao, n) && Fits(B, bo, Min(bl, n + 2)) && Fits(N, no, n)
    requires Fits(T, to, 2 * n + 1) && Apart(T, to, 2 * n + 1, X, xo, n)
    requires Apart(T, to, 2 * n + 1, A, ao, n) && Apart(T, to, 2 * n + 1, N, no, n)
    requires Apart(T, to, 2 * n + 1, B, bo, Min(bl, n + 2)) && Alias(X, xo, N, no, n)
    requires MontConst(mm, N[no]) && 0 < Val(N[no..no + n]) && Val(B[bo..bo + Min(bl, n + 2)]) <= Val(N[no..no + n])
    modifies X, T
    ensures OnlyWroteXT(X, X, xo, n, T, to, 2 * n + 1) && OnlyWroteXT(T, X, xo, n, T, to, 2 * n + 1)
    ensures MontProduct(Val(X[xo..xo + n]), old(Val(A[ao..ao + n])),
      old(Val(B[bo..bo + Min(bl, n + 2)])), old(Val(N[no..no + n])), n)
  {
    hide MontProduct, Rows, Val, MontConst, Reduced;
    ghost var a, b, m := A[ao..ao + n], B[bo..bo + Min(bl, n + 2)], N[no..no + n];
    ghost var u := ClearedRows(A, ao, B, bo, bl, N, no, n, mm, T, to);
    assert N[no..no + n] == m;
    ghost var t := T[to + n..to + 2 * n + 1];
    FinishSeq(t, u, a, Val(b), m);
    MontFinish(X, xo, T, to + n, N, no, n);
  }
}
