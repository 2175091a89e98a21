/** bignum.c: division by a small integer and reduction modulo an Mpi or a limb. */
module MpiMod {
  import opened Arith
  import opened Limbs
  import opened MulAddc
  import opened WordDiv
  import opened ReturnCodes
  import opened MpiObject
  import opened MpiAdd
  import opened MpiDiv

  method DivInt(Q: Mpi?, R: Mpi?, A: Mpi, b: int) returns (st: Status)
    requires A.Valid() && IsSint(b) && (Q != null ==> Q.Valid()) && (R != null ==> R.Valid() && R != Q)
    modifies Q, R
    ensures Q != null ==> Q.Valid() && old(|Q.p|) <= |Q.p| <= old(Max(|Q.p|, Max(1, |A.p|)))
    ensures R != null ==> R.Valid() && old(|R.p|) <= |R.p| <= old(Max(|R.p|, 1))
    ensures b == 0 ==> st == Fail(ERR_DIVISION_BY_ZERO)
    ensures b != 0 ==>
      st == if old(A.Mag()) >= Abs(b) && old(|A.p|) + 2 > MAX_LIMBS then Fail(ERR_ALLOC_FAILED) else Ok
    ensures st.Ok? && Q != null ==>
      Q.Value() == if Q == A && old(A.Value()) < 0 then -Quot(old(A.Value()), b) else Quot(old(A.Value()), b)
    ensures st.Ok? && Q != null ==>
      (Q.Value() == Quot(old(A.Value()), b) <==> !(Q == A && old(A.Value()) < 0) || old(A.Mag()) < Abs(b))
    ensures st.Ok? && R != null ==> R.Value() == if Q == A then LateRem(old(A.Value()), b) else Rem(old(A.Value()), b)
    ensures st.Ok? && R != null ==> (R.Value() == Rem(old(A.Value()), b) <==> Q != A || RemKept(old(A.Value()), b))
  {
    hide Val, Quot, Rem, LateRem, RemKept;
    var B := Small(b);
    SmallMag(B.s, B.Mag(), b);
    st := DivMpi(Q, R, A, B);
  }

  lemma SmallMag(s: int, m: nat, b: int)
    requires (s == 1 || s == -1) && s * m == b
    ensures m == Abs(b)
  {}

  lemma RemMod(a: int, b: int)
    requires b > 0
    ensures -b < Rem(a, b) < b
    ensures a % b == if Rem(a, b) < 0 then Rem(a, b) + b else Rem(a, b)
  {
    QuotRem(a, b);
    var q, r := Quot(a, b), Rem(a, b);
    if r < 0 { MulDist(b, q, -1); DivModUnique(a, b, q - 1, r + b); } else { DivModUnique(a, b, q, r); }
  }

  /** R = A mod B, in [0, B). R may be A. (With R being B the loops would not end.) */
  method ModMpi(R: Mpi, A: Mpi, B: Mpi) returns (st: Status)
    requires R.Valid() && A.Valid() && B.Valid() && R != B
    modifies R
    ensures R.Valid() && old(|R.p|) <= |R.p| <= old(Max(|R.p|, Max(1, |B.p|)))
    ensures st == if B.Value() < 0 then Fail(ERR_NEGATIVE_VALUE)
      else if B.Value() == 0 then Fail(ERR_DIVISION_BY_ZERO)
      else if old(A.Mag() >= B.Mag() && |A.p| + 2 > MAX_LIMBS) then Fail(ERR_ALLOC_FAILED) else Ok
    ensures st.Ok? ==> R.Value() == old(A.Value()) % B.Value()
    ensures st.Ok? && old(A.s) == 1 && old(R.s) == 1 ==> R.s == 1
    ensures st.Fail? ==> R.Value() == old(R.Value())
  {
    hide Val, Rem, Sign;
    var c := CmpInt(B, 0);
    SignDef(B.Value());
    if c < 0 { return Fail(ERR_NEGATIVE_VALUE); }
    :- DivMpi(null, R, A, B);
    ghost var a, b, r := old(A.Value()), B.Value(), R.Value();
    SignPositive(B.s, B.Mag());
    RemMod(a, b);
    c := CmpInt(R, 0);
    SignDef(R.Value());
    while c < 0
      invariant R.Valid() && old(|R.p|) <= |R.p| <= old(Max(|R.p|, Max(1, |B.p|)))
      invariant c < 0 <==> R.Value() < 0
      invariant R.Value() == r || (r < 0 && R.Value() == r + b)
      invariant old(A.s) == 1 && old(R.s) == 1 ==> R.s == 1
      decreases c < 0, -R.Value()
    {
      SignNegative(R.s, R.Mag());
      :- AddMpi(R, R, B);
      c := CmpInt(R, 0);
      SignDef(R.Value());
    }
    ModSmall(R.Value(), b);
    c := CmpMpi(R, B);
    SignDef(R.Value() - b);
    while c >= 0
      invariant R.Valid() && old(|R.p|) <= |R.p| <= old(Max(|R.p|, Max(1, |B.p|)))
      invariant old(A.s) == 1 && old(R.s) == 1 ==> R.s == 1
      invariant 0 <= R.Value() && R.Value() % b == a % b && (c >= 0 <==> R.Value() >= b)
      decreases R.Value() + (if c >= 0 then 0 else b - 1)
    {
      SignPositive(R.s, R.Mag());
      CongIntro(R.Value() - b, R.Value(), b, -1);
      :- SubMpi(R, R, B);
      c := CmpMpi(R, B);
      SignDef(R.Value() - b);
    }
    ModSmall(R.Value(), b);
    return Ok;
  }

  lemma SignPositive(s: int, m: nat)
    requires (s == 1 || s == -1) && s * m > 0
    ensures s == 1 && m == s * m
  {}

  lemma SignNegative(s: int, m: nat)
    requires (s == 1 || s == -1) && s * m < 0
    ensures s == -1
  {}

  // ------------------------------------------------------ modulo a small integer

  /** One half-limb h taken into the running remainder: y = (y << biH) | h; y -= (y / b) * b. */
  function HalfStep(y: limb, h: limb, b: limb): (r: limb)
    requires b > 0 && h < HALF && y < b <= HALF
    ensures r < b && r == (y * HALF + h) % b
  {
    var w: limb := ShiftIn(y, h);
    DivMod(w, b);
    hide ShiftIn;
    MulSign(w / b, b); QuotFits(w, b);
    SubW(w, MulW(DivW(w, b), b))
  }

  /** (y << biH) | h */
  function ShiftIn(y: limb, h: limb): (w: limb)
    requires h < HALF && y < HALF
    ensures w == y * HALF + h
  {
    HalfShifts(y);
    ModSmall(y, HALF);
    HalfSquared();
    DivModUnique(y * HALF, HALF, y, 0);
    DigitBound(h, y, HALF, HALF);
    BitOrDisjoint(y * HALF, h, BI_H);
    BitOr(ShlW(y, BI_H), h)
  }

  lemma QuotFits(w: limb, b: limb)
    requires b > 0
    ensures 0 <= w / b <= w && MulW(w / b, b) == (w / b) * b && 0 <= (w / b) * b <= w
  {
    DivMod(w, b);
    var q := w / b;
    MulMono(1, b, q); MulMono(0, q, b);
    ModSmall(q * b, BASE);
  }

  /** Two half steps take in a whole limb. */
  lemma LimbStep(y: limb, h: limb, l: limb, b: limb, v: nat)
    requires 0 < b <= HALF && y == v % b && h < HALF && l < HALF
    ensures HalfStep(HalfStep(y, h, b), l, b) == (h * HALF + l + BASE * v) % b
  {
    hide HalfStep;
    var y1 := HalfStep(y, h, b);
    CongMod(v, b); CongMod(y * HALF + h, b);
    CongMul(y, v, HALF, HALF, b); CongAdd(y * HALF, v * HALF, h, h, b);
    CongMul(y1, v * HALF + h, HALF, HALF, b); CongAdd(y1 * HALF, (v * HALF + h) * HALF, l, l, b);
    HalfSquared(); MulDist(HALF, v * HALF, h); MulAssoc(v, HALF, HALF);
  }

  lemma Negated(v: int, b: int)
    requires b > 0
    ensures (-v) % b == if v % b == 0 then 0 else b - v % b
  {
    var q, r := v / b, v % b;
    DivMod(v, b);
    MulNeg(q, b); MulDist(b, -q, -1);
    if r == 0 { DivModUnique(-v, b, -q, 0); } else { DivModUnique(-v, b, -q - 1, b - r); }
  }

  /** r = A mod b for a divisor of at most biH bits and its upper bound 2^biH. */
  method ModInt(A: Mpi, b: int) returns (st: Status, r: limb)
    requires A.Valid() && IsSint(b) && b <= HALF
    ensures st == if b == 0 then Fail(ERR_DIVISION_BY_ZERO) else if b < 0 then Fail(ERR_NEGATIVE_VALUE) else Ok
    ensures st.Ok? ==> r == A.Value() % b
  {
    hide Val, HalfStep, BitAnd;
    if b == 0 { return Fail(ERR_DIVISION_BY_ZERO), 0; }
    if b < 0 { return Fail(ERR_NEGATIVE_VALUE), 0; }
    if |A.p| == 0 { ValEmpty(); ModSmall(0, b); }
    if b == 1 || |A.p| == 0 { return Ok, 0; }
    Negated(A.Mag(), b);
    if b == 2 {
      ValLow(A.p);
      return Ok, A.p[0] % 2;
    }
    var d: limb := b;
    var y: limb := 0;
    var i := |A.p|;
    assert A.p[i..] == []; ValEmpty(); ModSmall(0, d);
    while i > 0
      invariant 0 <= i <= |A.p| && y == Val(A.p[i..]) % d
    {
      var x := A.p[i - 1];
      HalfShifts(x);
      LimbStep(y, x / HALF, x % HALF, d, Val(A.p[i..]));
      LowLimb(A.p, i - 1);
      y := HalfStep(y, ShrW(x, BI_H), d);
      x := ShlW(x, BI_H);
      y := HalfStep(y, ShrW(x, BI_H), d);
      i := i - 1;
    }
    assert A.p[0..] == A.p;
    if A.s < 0 && y != 0 { y := d - y; }
    return Ok, y;
  }

  lemma LowLimb(p: seq<limb>, i: nat)
    requires i < |p|
    ensures Val(p[i..]) == p[i] + BASE * Val(p[i + 1..])
  {
    ValSplit(p[i..], 1);
    assert p[i..][1..] == p[i + 1..] && p[i..][..1] == [p[i]];
    ValOne([p[i]]);
    BnStep(0);
  }
}
