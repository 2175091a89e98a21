/** bignum.c: binary greatest common divisor and modular inverse. */
module MpiGcd {
  import opened Arith
  import opened Limbs
  import opened Bits
  import opened Gcds
  import opened ReturnCodes
  import opened MpiObject
  import opened MpiAdd
  import opened MpiShift

  // --------------------------------------------------------------------- gcd

  /** Trailing zero bits of v; none for zero. */
  function Tz(v: nat): nat {
    if v > 0 && v % 2 == 0 then 1 + Tz(v / 2) else 0
  }

  /** Trailing zeros are determined by the odd factor. */
  lemma {:induction false} TzIs(a: nat, k: nat)
    requires a % 2 == 1
    ensures a * Pow2(k) >= 0 && Tz(a * Pow2(k)) == k
    decreases k
  {
    if k == 0 { Pow2Zero(); } else {
      TzIs(a, k - 1);
      assert Pow2(k) == 2 * Pow2(k - 1);
      hide Pow2;
      MulAssoc(a, 2, Pow2(k - 1)); MulAssoc(2, a, Pow2(k - 1));
      MulSign(a, Pow2(k - 1));
    }
  }

  method TrailingZeros(T: Mpi) returns (k: nat)
    ensures k == Tz(T.Mag())
    ensures T.Mag() > 0 ==> T.Mag() == (T.Mag() / Pow2(k)) * Pow2(k) && (T.Mag() / Pow2(k)) % 2 == 1
  {
    hide Val, Pow2, Pow;
    k := Lsb(T);
    if T.Mag() > 0 {
      DivMod(T.Mag(), Pow2(k));
      TzIs(T.Mag() / Pow2(k), k);
    }
  }

  /** T >>= lsb(T): what is left is odd. */
  method DropZeros(T: Mpi)
    requires T.Valid() && T.Mag() > 0
    modifies T
    ensures T.Valid() && T.s == old(T.s) && |T.p| == old(|T.p|)
    ensures old(T.Mag()) == T.Mag() * Pow2(Tz(old(T.Mag()))) && T.Mag() % 2 == 1
  {
    hide Val, Pow2, Pow, ShiftRSeq, Tz;
    var k := TrailingZeros(T);
    ShiftR(T, k);
  }

  function Shared(a: nat, b: nat): nat { if Tz(a) <= Tz(b) then Tz(a) else Tz(b) }

  /** Invariant (I): g = 2^c * gcd(TA, TB), and c reaches lz with the zeros still shared. */
  ghost predicate BinaryGcd(ta: nat, tb: nat, c: nat, lz: nat, g: nat) {
    && tb > 0 && g == Gcd(ta, tb) * Pow2(c)
    && lz == if ta > 0 then c + Shared(ta, tb) else c
  }

  /** Both arguments made odd. */
  lemma MadeOdd(ta: nat, tb: nat, c: nat, lz: nat, g: nat, a: nat, b: nat)
    requires BinaryGcd(ta, tb, c, lz, g) && ta > 0
    requires a % 2 == 1 && b % 2 == 1 && ta == a * Pow2(Tz(ta)) && tb == b * Pow2(Tz(tb))
    ensures g == Gcd(a, b) * Pow2(lz) && a <= ta && b <= tb
  {
    hide Gcd, Pow2, Pow, Tz;
    var m := Shared(ta, tb);
    GcdOddParts(a, Tz(ta), b, Tz(tb));
    Pow2Add(m, c);
    MulAssoc(Gcd(a, b), Pow2(m), Pow2(c));
    MulMono(1, Pow2(Tz(ta)), a); MulMono(1, Pow2(Tz(tb)), b);
  }

  /** |TA - TB|/2 in place of the larger. */
  lemma Replaced(a: nat, b: nat, lz: nat, g: nat)
    requires a % 2 == 1 && b % 2 == 1 && g == Gcd(a, b) * Pow2(lz) && a >= b
    ensures BinaryGcd((a - b) / 2, b, lz, lz, g)
    ensures a > b ==> BinaryGcd(b, (a - b) / 2, lz, lz, g)
  {
    assert Tz(b) == 0;
    hide Gcd, Pow2, Tz;
    GcdSub(a, b);
    GcdHalf((a - b) / 2, b);
    GcdSym((a - b) / 2, b);
  }

  lemma FewerBits(x: nat, y: nat)
    requires x > 0 && y <= x
    ensures NumBits(y / 2) < NumBits(x)
  {
    var b := NumBits(x);
    assert b > 0 by { Pow2Zero(); }
    assert Pow2(b) == 2 * Pow2(b - 1);
    hide NumBits;
    assert y / 2 < Pow2(b - 1);
    BitsBelow(y / 2, b - 1);
  }

  /** One pass of the loop. */
  method GcdStep(TA: Mpi, TB: Mpi, ghost c: nat, ghost lz: nat, ghost g: nat) returns (st: Status)
    requires TA.Valid() && TB.Valid() && TA != TB && TA.s == TB.s == 1
    requires TA.Mag() > 0 && BinaryGcd(TA.Mag(), TB.Mag(), c, lz, g)
    modifies TA, TB
    ensures TA.Valid() && TB.Valid() && TA.s == TB.s == 1
    ensures st.Ok? && BinaryGcd(TA.Mag(), TB.Mag(), lz, lz, g)
    ensures NumBits(TA.Mag()) + NumBits(TB.Mag()) < old(NumBits(TA.Mag()) + NumBits(TB.Mag()))
  {
    hide Val, Pow2, Pow, ShiftRSeq, Tz, Gcd, BinaryGcd, Sign, NumBits;
    ghost var ta, tb := TA.Mag(), TB.Mag();
    Positive(ta, tb, c, lz, g);
    DropZeros(TA);
    DropZeros(TB);
    ghost var a, b := TA.Mag(), TB.Mag();
    MadeOdd(ta, tb, c, lz, g, a, b);
    NumBitsMono(a, ta); NumBitsMono(b, tb);
    var cmp := CmpMpi(TA, TB);
    SignDef(TA.Mag() - TB.Mag());
    Pow2Zero();
    if cmp >= 0 {
      Replaced(a, b, lz, g);
      FewerBits(a, a - b);
      :- SubAbs(TA, TA, TB);
      ShiftR(TA, 1);
    } else {
      GcdSym(a, b);
      Replaced(b, a, lz, g);
      FewerBits(b, b - a);
      :- SubAbs(TB, TB, TA);
      ShiftR(TB, 1);
    }
    st := Ok;
  }

  lemma Positive(ta: nat, tb: nat, c: nat, lz: nat, g: nat)
    requires BinaryGcd(ta, tb, c, lz, g)
    ensures tb > 0
  {}

  lemma GcdDone(tb: nat, lz: nat, g: nat, b: seq<limb>)
    requires BinaryGcd(0, tb, lz, lz, g) && 0 < g <= Val(b) && |b| <= MAX_LIMBS
    ensures g == tb * Pow2(lz) && BitsToLimbs(NumBits(tb) + lz) <= MAX_LIMBS
  {
    hide Pow2, Pow, Tz, Gcd, NumBits, BitsToLimbs, Val, Sig;
    GcdZero(tb);
    NumBitsShift(tb, lz);
    NumBitsMono(g, Val(b));
    BitsToLimbsMono(NumBits(g), NumBits(Val(b)));
    SigBits(b);
  }

  lemma GcdStart(ta: nat, tb: nat, lz: nat)
    requires tb > 0 && lz == Shared(ta, tb)
    ensures BinaryGcd(ta, tb, 0, lz, Gcd(ta, tb)) && 0 < Gcd(ta, tb) <= tb
  {
    Pow2Zero();
    assert Tz(0) == 0;
    hide Gcd, Tz, Divides;
    GcdIsGreatest(ta, tb);
    var k := DividesElim(Gcd(ta, tb), tb);
    if Gcd(ta, tb) == 0 { MulSign(k, 0); }
    MulCancelLt(0, k, Gcd(ta, tb)); MulMono(1, k, Gcd(ta, tb));
  }

  lemma SignedMag(s: int, m: nat)
    requires s == 1 || s == -1
    ensures Abs(s * m) == m
  {}

  /** G = gcd(A, B), except that gcd(A, 0) keeps the sign of A. It never fails. */
  method GcdMpi(G: Mpi, A: Mpi, B: Mpi) returns (st: Status)
    requires G.Valid() && A.Valid() && B.Valid()
    modifies G
    ensures G.Valid() && st.Ok?
    ensures old(B.Value()) == 0 ==> G.Value() == old(A.Value())
    ensures old(B.Value()) != 0 ==> G.Value() == Gcd(old(Abs(A.Value())), old(Abs(B.Value())))
    ensures G.Value() == Gcd(old(Abs(A.Value())), old(Abs(B.Value()))) <==> old(B.Value()) != 0 || old(A.Value()) >= 0
  {
    hide Val, Pow2, Pow, Tz, Gcd, BinaryGcd, Sign, NumBits, BitsToLimbs, Sig;
    SignedMag(A.s, A.Mag()); SignedMag(B.s, B.Mag());
    ghost var a, b, bp := A.Mag(), B.Mag(), B.p;
    var TA := new Mpi();
    var TB := new Mpi();
    Copy(TA, A);
    Copy(TB, B);
    var lz := TrailingZeros(TA);
    var lzt := TrailingZeros(TB);
    Pow2Zero();
    GetBitZero(TB.p);
    GcdZero(a);
    if lzt == 0 && (if |TB.p| == 0 then 0 else TB.p[0] % 2) == 0 {
      Copy(G, A);
      return Ok;
    }
    if lzt < lz { lz := lzt; }
    TA.s := 1; TB.s := 1;
    st := GcdNonZero(G, TA, TB, lz, bp);
  }

  /** The part of the routine for B != 0, on working copies of |A| and |B|. */
  method GcdNonZero(G: Mpi, TA: Mpi, TB: Mpi, lz: nat, ghost bp: seq<limb>) returns (st: Status)
    requires G.Valid() && TA.Valid() && TB.Valid() && G != TA && G != TB && TA != TB && TA.s == TB.s == 1
    requires lz == Shared(TA.Mag(), TB.Mag()) && Val(bp) == TB.Mag() > 0 && |bp| <= MAX_LIMBS
    modifies G, TA, TB
    ensures G.Valid() && st.Ok? && G.Value() == old(Gcd(TA.Mag(), TB.Mag()))
  {
    hide Val, Pow2, Pow, Tz, Gcd, BinaryGcd, NumBits, BitsToLimbs, Sig;
    ghost var g := Gcd(TA.Mag(), TB.Mag());
    GcdStart(TA.Mag(), TB.Mag(), lz);
    :- GcdLoop(TA, TB, lz, g);
    GcdDone(TB.Mag(), lz, g, bp);
    :- ShiftL(TB, lz);
    Copy(G, TB);
    return Ok;
  }

  method GcdLoop(TA: Mpi, TB: Mpi, ghost lz: nat, ghost g: nat) returns (st: Status)
    requires TA.Valid() && TB.Valid() && TA != TB && TA.s == TB.s == 1
    requires BinaryGcd(TA.Mag(), TB.Mag(), 0, lz, g)
    modifies TA, TB
    ensures TA.Valid() && TB.Valid() && TB.s == 1 && st.Ok? && BinaryGcd(0, TB.Mag(), lz, lz, g)
  {
    hide Val, Pow2, Pow, Tz, Gcd, BinaryGcd, Sign, NumBits, BitsToLimbs, Sig;
    ghost var c := 0;
    var z := CmpInt(TA, 0);
    SignDef(TA.Mag());
    while z != 0
      invariant TA.Valid() && TB.Valid() && TA.s == TB.s == 1
      invariant BinaryGcd(TA.Mag(), TB.Mag(), c, lz, g) && (z != 0 <==> TA.Mag() != 0)
      decreases NumBits(TA.Mag()) + NumBits(TB.Mag())
    {
      :- GcdStep(TA, TB, c, lz, g);
      c := lz;
      z := CmpInt(TA, 0);
      SignDef(TA.Mag());
    }
    ZeroLeft(TB.Mag(), c, lz, g);
    return Ok;
  }

  lemma ZeroLeft(tb: nat, c: nat, lz: nat, g: nat)
    requires BinaryGcd(0, tb, c, lz, g)
    ensures c == lz
  {}

  lemma GetBitZero(p: seq<limb>)
    ensures (if |p| == 0 then 0 else p[0] % 2) == Val(p) % 2 && Tz(0) == 0
  {
    if |p| > 0 { ValLow(p); }
  }

  /** gcd(-2, 0) comes out as -2. */
  method NegativeWithZero() returns (G: Mpi)
    ensures G.Value() == -2 && Gcd(Abs(-2), Abs(0)) == 2
  {
    hide Val;
    var A := Small(-2);
    var B := Small(0);
    G := new Mpi();
    var st := GcdMpi(G, A, B);
  }
}
