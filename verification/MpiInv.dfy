/** bignum.c: modular inverse by the binary extended Euclidean algorithm. */
module MpiInv {
  import opened Arith
  import opened Limbs
  import opened Bits
  import opened Gcds
  import opened ReturnCodes
  import opened MpiObject
  import opened MpiAdd
  import opened MpiShift
  import opened MpiMod
  import opened MpiGcd

  // ------------------------------------------------------------ rows as integers

  /** x1*TA + x2*TB = t, with coefficients at most k times TB and TA, and half of
      that while t is odd. */
  ghost predicate Row(t: int, x1: int, x2: int, ta: nat, tb: nat, k: nat) {
    && x1 * ta + x2 * tb == t
    && Abs(x1) <= k * tb && Abs(x2) <= k * ta
    && (t % 2 == 1 ==> 2 * Abs(x1) <= k * tb && 2 * Abs(x2) <= k * ta)
  }

  lemma RowMono(t: int, x1: int, x2: int, ta: nat, tb: nat, k: nat, k': nat)
    requires Row(t, x1, x2, ta, tb, k) && k <= k'
    ensures Row(t, x1, x2, ta, tb, k')
  {
    MulMono(k, k', tb); MulMono(k, k', ta);
  }

  /** With t even and TA, TB not both even, either both coefficients are even, or
      adding TB to one and taking TA off the other makes them so. */
  lemma HalvingExact(x1: int, x2: int, ta: nat, tb: nat)
    requires (x1 * ta + x2 * tb) % 2 == 0 && (ta % 2 == 1 || tb % 2 == 1)
    ensures (x1 % 2 == 0 && x2 % 2 == 0) || ((x1 + tb) % 2 == 0 && (x2 - ta) % 2 == 0)
  {
    Parity(x1, ta); Parity(x2, tb);
    SumParity(x1 * ta, x2 * tb); SumParity(x1, tb); SumParity(x2, ta);
  }

  lemma SumParity(x: int, y: int)
    ensures (x + y) % 2 == 0 <==> x % 2 == y % 2
    ensures (x - y) % 2 == 0 <==> x % 2 == y % 2
  {}

  lemma Parity(x: int, y: int)
    ensures (x * y) % 2 == if x % 2 == 1 && y % 2 == 1 then 1 else 0
  {
    if x % 2 == 0 { EvenProduct(x / 2, y); }
    else if y % 2 == 0 { EvenProduct(y / 2, x); }
    else { OddProduct(x, y); }
  }

  /** The coefficients that replace x1, x2 before halving. */
  function Lift1(x1: int, x2: int, tb: nat): int { if x1 % 2 == 0 && x2 % 2 == 0 then x1 else x1 + tb }
  function Lift2(x1: int, x2: int, ta: nat): int { if x1 % 2 == 0 && x2 % 2 == 0 then x2 else x2 - ta }

  lemma RowHalved(t: int, x1: int, x2: int, ta: nat, tb: nat, k: nat)
    requires Row(t, x1, x2, ta, tb, k) && t % 2 == 0 && (ta % 2 == 1 || tb % 2 == 1)
    ensures var y1, y2 := Lift1(x1, x2, tb), Lift2(x1, x2, ta);
      && y1 % 2 == 0 && y2 % 2 == 0 && Row(t / 2, y1 / 2, y2 / 2, ta, tb, k + 1)
      && Abs(y1) <= (k + 1) * tb && Abs(y2) <= (k + 1) * ta
  {
    HalvingExact(x1, x2, ta, tb);
    var y1, y2 := Lift1(x1, x2, tb), Lift2(x1, x2, ta);
    MulDist(tb, k, 1); MulDist(ta, k, 1);
    assert y1 * ta + y2 * tb == t by {
      var a: int := ta;
      MulDist(ta, x1, tb); MulDist(tb, x2, -a); MulNeg(ta, tb);
    }
    HalfSum(y1, y2, ta, tb, t);
  }

  lemma HalfSum(y1: int, y2: int, ta: int, tb: int, t: int)
    requires y1 % 2 == 0 && y2 % 2 == 0 && y1 * ta + y2 * tb == t
    ensures (y1 / 2) * ta + (y2 / 2) * tb == t / 2
  {
    MulAssoc(2, y1 / 2, ta); MulAssoc(2, y2 / 2, tb);
  }

  /** Subtracting one odd row from another. */
  lemma RowsSubtracted(t: int, x1: int, x2: int, t': int, y1: int, y2: int, ta: nat, tb: nat, k: nat)
    requires Row(t, x1, x2, ta, tb, k) && Row(t', y1, y2, ta, tb, k) && t % 2 == 1 && t' % 2 == 1
    ensures Row(t - t', x1 - y1, x2 - y2, ta, tb, k)
  {
    MulDist(ta, x1, -y1); MulNeg(y1, ta);
    MulDist(tb, x2, -y2); MulNeg(y2, tb);
    OddMinusOdd(t, t');
  }

  lemma OddMinusOdd(t: int, t': int)
    requires t % 2 == 1 && t' % 2 == 1
    ensures (t - t') % 2 == 0
  {}

  // ------------------------------------------------------------- rows as objects

  /** The objects of one row: T and its two coefficients within limit limbs. */
  ghost predicate RowShape(T: Mpi, X1: Mpi, X2: Mpi, limit: nat)
    reads T, X1, X2
  {
    && T != X1 && T != X2 && X1 != X2 && T.Valid() && X1.Valid() && X2.Valid()
    && T.s == 1 && 1 <= |T.p| && 1 <= |X1.p| <= limit && 1 <= |X2.p| <= limit
  }

  /** TA and TB: prime to each other, and (k + 1) times either fits the limit. */
  ghost predicate Bases(TA: Mpi, TB: Mpi, limit: nat, c: nat)
    reads TA, TB
  {
    && TA.Valid() && TB.Valid() && TA.Value() == TA.Mag() && TB.Value() == TB.Mag()
    && |TA.p| <= limit && |TB.p| <= limit && Gcd(TA.Mag(), TB.Mag()) == 1
    && (c + 1) * TB.Mag() < Bn(limit) && (c + 1) * TA.Mag() < Bn(limit)
  }

  lemma RoomFor(k: nat, c: nat, v: nat, limit: nat)
    requires k <= c && (c + 1) * v < Bn(limit)
    ensures (k + 1) * v < Bn(limit) && k * v < Bn(limit)
  {
    hide Bn;
    MulMono(k + 1, c + 1, v); MulMono(k, k + 1, v);
  }

  /** X >>= 1 on an even number, whatever its sign. */
  method HalveEven(X: Mpi)
    requires X.Valid() && X.Value() % 2 == 0
    modifies X
    ensures X.Valid() && |X.p| == old(|X.p|) && X.s == old(X.s) && X.Value() == old(X.Value()) / 2
  {
    hide Val, ShiftRSeq, Pow2;
    Pow2Zero();
    ShiftR(X, 1);
  }

  lemma SignParity(s: int, v: int)
    requires s == 1 || s == -1
    ensures (s * v) % 2 == v % 2
  {}

  lemma LowBit(p: seq<limb>, s: int)
    requires |p| > 0 && (s == 1 || s == -1)
    ensures p[0] % 2 == (s * Val(p)) % 2
  {
    ValLow(p);
    hide Val;
    SignParity(s, Val(p));
  }

  method AddWithin(X: Mpi, B: Mpi, ghost limit: nat) returns (st: Status)
    requires X.Valid() && B.Valid() && X != B && 1 <= |X.p| <= limit && |B.p| <= limit
    requires Abs(X.Value() + B.Value()) < Bn(limit)
    modifies X
    ensures st.Ok? ==> X.Valid() && 1 <= |X.p| <= limit && X.Value() == old(X.Value()) + B.Value()
    ensures st.Fail? ==> st == Fail(ERR_ALLOC_FAILED) && limit > MAX_LIMBS
  {
    hide Val, Bn;
    st := AddMpi(X, X, B);
  }

  method SubWithin(X: Mpi, B: Mpi, ghost limit: nat) returns (st: Status)
    requires X.Valid() && B.Valid() && X != B && 1 <= |X.p| <= limit && |B.p| <= limit
    requires Abs(X.Value() - B.Value()) < Bn(limit)
    modifies X
    ensures st.Ok? ==> X.Valid() && 1 <= |X.p| <= limit && X.Value() == old(X.Value()) - B.Value()
    ensures st.Fail? ==> st == Fail(ERR_ALLOC_FAILED) && limit > MAX_LIMBS
  {
    hide Val, Bn;
    st := SubMpi(X, X, B);
  }

  /** The body of the two inner loops. */
  method HalveRow(T: Mpi, X1: Mpi, X2: Mpi, TA: Mpi, TB: Mpi, ghost limit: nat, ghost k: nat, ghost c: nat) returns (st: Status)
    requires RowShape(T, X1, X2, limit) && Bases(TA, TB, limit, c) && k < c
    requires TA !in {T, X1, X2} && TB !in {T, X1, X2}
    requires T.Mag() % 2 == 0 && Row(T.Mag(), X1.Value(), X2.Value(), TA.Mag(), TB.Mag(), k)
    modifies T, X1, X2
    ensures st.Ok? ==> RowShape(T, X1, X2, limit) && |T.p| == old(|T.p|)
    ensures st.Ok? ==> T.Mag() == old(T.Mag()) / 2 && Row(T.Mag(), X1.Value(), X2.Value(), TA.Mag(), TB.Mag(), k + 1)
    ensures st.Fail? ==> st == Fail(ERR_ALLOC_FAILED) && limit > MAX_LIMBS
  {
    hide Val, Bn, Row, Gcd;
    CoprimeOdd(TA.Mag(), TB.Mag());
    RowHalved(T.Mag(), X1.Value(), X2.Value(), TA.Mag(), TB.Mag(), k);
    RoomFor(k, c, TB.Mag(), limit); RoomFor(k, c, TA.Mag(), limit);
    HalveEven(T);
    LowBit(X1.p, X1.s); LowBit(X2.p, X2.s);
    if X1.p[0] % 2 != 0 || X2.p[0] % 2 != 0 {
      :- AddWithin(X1, TB, limit);
      :- SubWithin(X2, TA, limit);
    }
    HalveEven(X1);
    HalveEven(X2);
    st := Ok;
  }

  /** Halving until T is odd: what k gains, the bit length of T loses. */
  method MakeOdd(T: Mpi, X1: Mpi, X2: Mpi, TA: Mpi, TB: Mpi, ghost limit: nat, ghost k0: nat, ghost c: nat, ghost other: nat)
    returns (st: Status, ghost k: nat)
    requires RowShape(T, X1, X2, limit) && Bases(TA, TB, limit, c)
    requires TA !in {T, X1, X2} && TB !in {T, X1, X2}
    requires T.Mag() > 0 && Row(T.Mag(), X1.Value(), X2.Value(), TA.Mag(), TB.Mag(), k0)
    requires k0 + NumBits(T.Mag()) <= c && Gcd(T.Mag(), other) == 1
    modifies T, X1, X2
    ensures st.Ok? ==> RowShape(T, X1, X2, limit) && T.Mag() % 2 == 1 && T.Mag() <= old(T.Mag())
    ensures st.Ok? ==> k0 <= k && k + NumBits(T.Mag()) <= k0 + old(NumBits(T.Mag())) && Gcd(T.Mag(), other) == 1
    ensures st.Ok? ==> Row(T.Mag(), X1.Value(), X2.Value(), TA.Mag(), TB.Mag(), k)
    ensures st.Fail? ==> st == Fail(ERR_ALLOC_FAILED) && limit > MAX_LIMBS
  {
    hide Val, Bn, Row, Gcd, NumBits;
    k := k0;
    ValLow(T.p);
    while T.p[0] % 2 == 0
      invariant RowShape(T, X1, X2, limit) && T.Mag() % 2 == T.p[0] % 2
      invariant 0 < T.Mag() <= old(T.Mag()) && Row(T.Mag(), X1.Value(), X2.Value(), TA.Mag(), TB.Mag(), k)
      invariant k0 <= k && k + NumBits(T.Mag()) <= k0 + old(NumBits(T.Mag())) && Gcd(T.Mag(), other) == 1
      decreases T.Mag()
    {
      CoprimeOdd(T.Mag(), other);
      GcdHalf(T.Mag() / 2, other);
      FewerBits(T.Mag(), T.Mag());
      :- HalveRow(T, X1, X2, TA, TB, limit, k, c);
      k := k + 1;
      ValLow(T.p);
    }
    st := Ok;
  }

  /** T -= T', X1 -= X1', X2 -= X2' on odd rows. */
  method SubtractRow(T: Mpi, X1: Mpi, X2: Mpi, T': Mpi, X1': Mpi, X2': Mpi, ghost ta: nat, ghost tb: nat, ghost limit: nat, ghost k: nat)
    returns (st: Status)
    requires RowShape(T, X1, X2, limit) && RowShape(T', X1', X2', limit) && {T, X1, X2} !! {T', X1', X2'}
    requires T.Mag() % 2 == 1 && T'.Mag() % 2 == 1 && T.Mag() >= T'.Mag()
    requires Row(T.Mag(), X1.Value(), X2.Value(), ta, tb, k) && Row(T'.Mag(), X1'.Value(), X2'.Value(), ta, tb, k)
    requires k * tb < Bn(limit) && k * ta < Bn(limit)
    modifies T, X1, X2
    ensures st.Ok? ==> RowShape(T, X1, X2, limit) && T.Mag() == old(T.Mag()) - T'.Mag()
    ensures st.Ok? ==> Row(T.Mag(), X1.Value(), X2.Value(), ta, tb, k)
    ensures st.Fail? ==> st == Fail(ERR_ALLOC_FAILED) && limit > MAX_LIMBS
  {
    hide Val, Bn, Row;
    RowsSubtracted(T.Mag(), X1.Value(), X2.Value(), T'.Mag(), X1'.Value(), X2'.Value(), ta, tb, k);
    RowBounds(T.Mag() - T'.Mag(), X1.Value() - X1'.Value(), X2.Value() - X2'.Value(), ta, tb, k);
    :- SubMpi(T, T, T');
    :- SubWithin(X1, X1', limit);
    :- SubWithin(X2, X2', limit);
    st := Ok;
  }

  lemma RowBounds(t: int, x1: int, x2: int, ta: nat, tb: nat, k: nat)
    requires Row(t, x1, x2, ta, tb, k)
    ensures Abs(x1) <= k * tb && Abs(x2) <= k * ta && x1 * ta + x2 * tb == t
  {}

  /** Both rows between two passes of the outer loop. */
  ghost predicate Rows(TU: Mpi, U1: Mpi, U2: Mpi, TV: Mpi, V1: Mpi, V2: Mpi, ta: nat, tb: nat, limit: nat, k: nat, c: nat)
    reads TU, U1, U2, TV, V1, V2
  {
    && RowShape(TU, U1, U2, limit) && RowShape(TV, V1, V2, limit) && {TU, U1, U2} !! {TV, V1, V2}
    && Row(TU.Mag(), U1.Value(), U2.Value(), ta, tb, k) && Row(TV.Mag(), V1.Value(), V2.Value(), ta, tb, k)
    && k + NumBits(TU.Mag()) + NumBits(TV.Mag()) <= c && Gcd(TU.Mag(), TV.Mag()) == 1 && TV.Mag() > 0
  }

  /** Both inner loops. */
  method BothOdd(TU: Mpi, U1: Mpi, U2: Mpi, TV: Mpi, V1: Mpi, V2: Mpi, TA: Mpi, TB: Mpi, ghost limit: nat, ghost k0: nat, ghost c: nat)
    returns (st: Status, ghost k: nat)
    requires Rows(TU, U1, U2, TV, V1, V2, TA.Mag(), TB.Mag(), limit, k0, c) && Bases(TA, TB, limit, c) && TU.Mag() > 0
    requires {TA, TB} !! {TU, U1, U2, TV, V1, V2}
    modifies TU, U1, U2, TV, V1, V2
    ensures st.Ok? ==> Rows(TU, U1, U2, TV, V1, V2, TA.Mag(), TB.Mag(), limit, k, c) && k <= c
    ensures st.Ok? ==> TU.Mag() % 2 == 1 && TV.Mag() % 2 == 1 && TU.Mag() + TV.Mag() <= old(TU.Mag() + TV.Mag())
    ensures st.Fail? ==> st == Fail(ERR_ALLOC_FAILED) && limit > MAX_LIMBS
  {
    hide Val, Bn, Row, Gcd, NumBits;
    k :- MakeOdd(TU, U1, U2, TA, TB, limit, k0, c, TV.Mag());
    RowMono(TV.Mag(), V1.Value(), V2.Value(), TA.Mag(), TB.Mag(), k0, k);
    GcdSym(TU.Mag(), TV.Mag());
    ghost var k1 := k;
    k :- MakeOdd(TV, V1, V2, TA, TB, limit, k1, c, TU.Mag());
    GcdSym(TU.Mag(), TV.Mag());
    RowMono(TU.Mag(), U1.Value(), U2.Value(), TA.Mag(), TB.Mag(), k1, k);
    st := Ok;
  }

  /** One pass of the outer loop. */
  method EuclidStep(TU: Mpi, U1: Mpi, U2: Mpi, TV: Mpi, V1: Mpi, V2: Mpi, TA: Mpi, TB: Mpi, ghost limit: nat, ghost k0: nat, ghost c: nat)
    returns (st: Status, ghost k: nat)
    requires Rows(TU, U1, U2, TV, V1, V2, TA.Mag(), TB.Mag(), limit, k0, c) && Bases(TA, TB, limit, c) && TU.Mag() > 0
    requires {TA, TB} !! {TU, U1, U2, TV, V1, V2}
    modifies TU, U1, U2, TV, V1, V2
    ensures st.Ok? ==> Rows(TU, U1, U2, TV, V1, V2, TA.Mag(), TB.Mag(), limit, k, c)
    ensures st.Ok? ==> TU.Mag() + TV.Mag() < old(TU.Mag() + TV.Mag())
    ensures st.Fail? ==> st == Fail(ERR_ALLOC_FAILED) && limit > MAX_LIMBS
  {
    hide Val, Bn, Row, Gcd, NumBits, Sign;
    k :- BothOdd(TU, U1, U2, TV, V1, V2, TA, TB, limit, k0, c);
    RoomFor(k, c, TB.Mag(), limit); RoomFor(k, c, TA.Mag(), limit);
    ghost var u, v := TU.Mag(), TV.Mag();
    var cmp := CmpMpi(TU, TV);
    SignDef(TU.Mag() - TV.Mag());
    if cmp >= 0 {
      GcdSub(u, v); NumBitsMono(u - v, u);
      :- SubtractRow(TU, U1, U2, TV, V1, V2, TA.Mag(), TB.Mag(), limit, k);
    } else {
      GcdSym(u, v); GcdSub(v, u); NumBitsMono(v - u, v); GcdSym(v - u, u);
      :- SubtractRow(TV, V1, V2, TU, U1, U2, TA.Mag(), TB.Mag(), limit, k);
    }
    st := Ok;
  }

  /** The do-while loop: it ends with TV = 1, so V1*TA + V2*TB = 1. */
  method Euclid(TU: Mpi, U1: Mpi, U2: Mpi, TV: Mpi, V1: Mpi, V2: Mpi, TA: Mpi, TB: Mpi, ghost limit: nat, ghost k0: nat, ghost c: nat)
    returns (st: Status)
    requires Rows(TU, U1, U2, TV, V1, V2, TA.Mag(), TB.Mag(), limit, k0, c) && Bases(TA, TB, limit, c) && TU.Mag() > 0
    requires {TA, TB} !! {TU, U1, U2, TV, V1, V2}
    modifies TU, U1, U2, TV, V1, V2
    ensures st.Ok? ==> V1.Valid() && V1.Value() * TA.Mag() + V2.Value() * TB.Mag() == 1
    ensures st.Ok? && TB.Mag() > 0 ==> Cong(V1.Value() * TA.Mag(), 1, TB.Mag())
    ensures st.Fail? ==> st == Fail(ERR_ALLOC_FAILED) && limit > MAX_LIMBS
  {
    hide Val, Bn, Row, Gcd, NumBits, Sign;
    ghost var k := k0;
    var z := 1;
    while z != 0
      invariant Rows(TU, U1, U2, TV, V1, V2, TA.Mag(), TB.Mag(), limit, k, c)
      invariant z != 0 <==> TU.Mag() != 0
      decreases TU.Mag() + TV.Mag()
    {
      k :- EuclidStep(TU, U1, U2, TV, V1, V2, TA, TB, limit, k, c);
      z := CmpInt(TU, 0);
      SignDef(TU.Mag());
    }
    GcdZero(TV.Mag());
    RowBounds(TV.Mag(), V1.Value(), V2.Value(), TA.Mag(), TB.Mag(), k);
    if TB.Mag() > 0 { Bezout(V1.Value() * TA.Mag(), V2.Value(), TB.Mag()); }
    st := Ok;
  }

  // ----------------------------------------------------------- the whole routine

  lemma {:induction false} BelowPow2(w: nat)
    ensures w < Pow2(w)
  {
    if w > 0 { BelowPow2(w - 1); assert Pow2(w) == 2 * Pow2(w - 1); }
  }

  lemma NumBitsRoom(v: nat, n: nat)
    requires v < Bn(n)
    ensures 0 <= BI_L * n && NumBits(v) <= BI_L * n
  {
    hide NumBits, Bn;
    BnPow2(n);
    if NumBits(v) > BI_L * n { BitsAbove(v, BI_L * n); }
  }

  lemma BitsAbove(v: nat, m: nat)
    requires NumBits(v) > m
    ensures v >= Pow2(m)
  {
    hide NumBits;
    PowMono(2, m, NumBits(v) - 1);
  }

  /** Three limbs more than N are enough for every coefficient. */
  lemma CoefficientRoom(v: nat, ta: nat, n: nat)
    requires ta <= v < Bn(n) && n <= MAX_LIMBS
    ensures var c := 2 + NumBits(ta) + NumBits(v);
      (c + 1) * v < Bn(n + 3) && (c + 1) * ta < Bn(n + 3)
  {
    hide NumBits, Bn, Pow, Pow2;
    NumBitsRoom(ta, n); NumBitsRoom(v, n);
    var c := 2 + NumBits(ta) + NumBits(v);
    BitCount(c, n);
    BnAdd(3, n);
    ProductRoom(c + 1, Bn(3), v, ta, Bn(n));
  }

  lemma ProductRoom(x: int, y: int, v: int, ta: int, p: int)
    requires 0 < x < y && 0 <= ta <= v < p
    ensures x * v < y * p && x * ta < y * p
  {
    MulMono(v, p, x); MulMonoStrict(x, y, p); MulMono(ta, v, x);
  }

  lemma BitCount(c: nat, n: nat)
    requires 0 <= BI_L * n && c <= 2 + 2 * (BI_L * n) && n <= MAX_LIMBS
    ensures c + 1 < Bn(3)
  {
    hide Bn, Pow, Pow2;
    BelowPow2(BI_L);
    BnStep(2); BnStep(1); BnStep(0);
    MulMono(n, MAX_LIMBS, BI_L);
    MulMono(256, BASE, BASE); MulMono(65536, BASE * BASE, BASE);
  }

  /** V1 brought into [0, N). */
  method Canonical(V1: Mpi, N: Mpi) returns (st: Status)
    requires V1.Valid() && N.Valid() && V1 != N && N.Value() > 0
    modifies V1
    ensures V1.Valid() && st.Ok? && 0 <= V1.Value() < N.Value() && Cong(V1.Value(), old(V1.Value()), N.Value())
  {
    hide Val, Sign;
    SignPositive(N.s, N.Mag());
    ghost var n, v := N.Value(), V1.Value();
    var c := CmpInt(V1, 0);
    SignDef(V1.Value());
    while c < 0
      invariant V1.Valid() && Cong(V1.Value(), v, n) && (c < 0 <==> V1.Value() < 0)
      decreases n - V1.Value()
    {
      SignNegative(V1.s, V1.Mag());
      CongIntro(V1.Value() + n, V1.Value(), n, 1);
      :- AddMpi(V1, V1, N);
      c := CmpInt(V1, 0);
      SignDef(V1.Value());
    }
    c := CmpMpi(V1, N);
    SignDef(V1.Value() - n);
    while c >= 0
      invariant V1.Valid() && Cong(V1.Value(), v, n) && 0 <= V1.Value() && (c >= 0 <==> V1.Value() >= n)
      decreases V1.Value()
    {
      SignPositive(V1.s, V1.Mag());
      CongIntro(V1.Value() - n, V1.Value(), n, -1);
      :- SubMpi(V1, V1, N);
      c := CmpMpi(V1, N);
      SignDef(V1.Value() - n);
    }
    st := Ok;
  }

  lemma RowStart(ta: nat, tb: nat)
    requires 1 <= ta && 1 <= tb
    ensures Row(ta, 1, 0, ta, tb, 2) && Row(tb, 0, 1, ta, tb, 2)
  {
    MulSign(0, ta); MulSign(0, tb);
  }

  /** An initialised MPI set to the positive A. */
  method CopyOf(A: Mpi) returns (T: Mpi)
    requires A.Valid() && A.Value() > 0
    ensures fresh(T) && T.Valid() && T.s == 1 && T.Mag() == A.Mag() && 1 <= |T.p| <= |A.p|
  {
    hide Val, Sig;
    SignPositive(A.s, A.Mag());
    if |A.p| == 0 { ValEmpty(); }
    T := new Mpi();
    Copy(T, A);
  }

  /** An initialised MPI set to z. */
  method Const(z: int) returns (T: Mpi)
    requires IsSint(z)
    ensures fresh(T) && T.Valid() && T.Value() == z && |T.p| == 1
  {
    hide Val;
    T := new Mpi();
    Lset(T, z);
  }

  method NewRow(A: Mpi, x1: int, x2: int, ghost limit: nat) returns (T: Mpi, X1: Mpi, X2: Mpi)
    requires A.Valid() && A.Value() > 0 && IsSint(x1) && IsSint(x2) && limit > 0
    ensures fresh(T) && fresh(X1) && fresh(X2) && RowShape(T, X1, X2, limit)
    ensures T.Mag() == A.Mag() && X1.Value() == x1 && X2.Value() == x2
  {
    hide Val;
    T := CopyOf(A);
    X1 := Const(x1);
    X2 := Const(x2);
  }

  /** From TA and N to the first coefficient of the last row. */
  method Coefficient(TA: Mpi, N: Mpi) returns (st: Status, V1: Mpi)
    requires TA.Valid() && N.Valid() && 0 < TA.Value() < N.Value() && Gcd(TA.Mag(), N.Mag()) == 1 && |TA.p| <= |N.p|
    ensures fresh(V1) && V1.Valid()
    ensures st.Ok? ==> Cong(V1.Value() * TA.Value(), 1, N.Value())
    ensures st.Fail? ==> st == Fail(ERR_ALLOC_FAILED) && |N.p| + 3 > MAX_LIMBS
  {
    hide Val, Bn, Pow, Row, Gcd, NumBits, Sig, Cong;
    SignPositive(TA.s, TA.Mag()); SignPositive(N.s, N.Mag());
    ValBound(N.p);
    var TU, U1, U2 := NewRow(TA, 1, 0, |N.p| + 3);
    var TB := CopyOf(N);
    var TV, V2;
    TV, V1, V2 := NewRow(N, 0, 1, |N.p| + 3);
    RowStart(TA.Mag(), TB.Mag());
    CoefficientRoom(TB.Mag(), TA.Mag(), |N.p|);
    ghost var c := 2 + NumBits(TA.Mag()) + NumBits(TB.Mag());
    GcdSym(TU.Mag(), TV.Mag());
    st := Euclid(TU, U1, U2, TV, V1, V2, TA, TB, |N.p| + 3, 2, c);
    if st.Fail? { V1 := Const(0); }
  }

  lemma Bezout(p: int, x2: int, n: int)
    requires n > 0 && p + x2 * n == 1
    ensures Cong(p, 1, n)
  {
    MulNeg(x2, n);
    CongIntro(p, 1, n, -x2);
  }

  lemma InverseFound(a: int, ta: int, v: int, x: int, n: int)
    requires n > 0 && ta == a % n && Cong(v * ta, 1, n) && Cong(x, v, n)
    ensures Cong(a * x, 1, n)
  {
    CongMod(a, n);
    CongMul(v, x, ta, a, n);
  }

  /** X = A^-1 mod N exactly when gcd(A, N) = 1; X may be A or N. */
  method InvMod(X: Mpi, A: Mpi, N: Mpi) returns (st: Status)
    requires X.Valid() && A.Valid() && N.Valid()
    modifies X
    ensures X.Valid()
    ensures st == Fail(ERR_BAD_INPUT) <==> old(N.Value()) <= 1
    ensures st == Fail(ERR_NOT_ACCEPTABLE) <==> old(N.Value()) > 1 && Gcd(old(Abs(A.Value())), old(N.Value())) != 1
    ensures st.Ok? ==> 0 <= X.Value() < old(N.Value()) && Cong(old(A.Value()) * X.Value(), 1, old(N.Value()))
    ensures st.Fail? && st.code != ERR_BAD_INPUT && st.code != ERR_NOT_ACCEPTABLE ==>
      st.code == ERR_ALLOC_FAILED && old(|N.p| + 3 > MAX_LIMBS || |A.p| + 2 > MAX_LIMBS)
    ensures st.Fail? ==> X.Value() == old(X.Value())
  {
    hide Val, Sign, Gcd, Sig;
    var c := CmpInt(N, 1);
    SignCompare(N.Value(), 1);
    if c <= 0 { return Fail(ERR_BAD_INPUT); }
    var G := new Mpi();
    SignedMag(A.s, A.Mag()); SignPositive(N.s, N.Mag());
    :- GcdMpi(G, A, N);
    c := CmpInt(G, 1);
    SignDef(G.Value() - 1);
    if c != 0 { return Fail(ERR_NOT_ACCEPTABLE); }
    var TA := new Mpi();
    if |N.p| == 0 { ValEmpty(); }
    :- ModMpi(TA, A, N);
    GcdMod(A.Value(), N.Value());
    GcdZero(N.Value());
    SignedMag(TA.s, TA.Mag());
    var V1 :- Coefficient(TA, N);
    ghost var v := V1.Value();
    :- Canonical(V1, N);
    InverseFound(A.Value(), TA.Value(), v, V1.Value(), N.Value());
    Copy(X, V1);
    return Ok;
  }
}
