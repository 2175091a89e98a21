/** Residues in Montgomery form: x stands for a when x = a*R (mod N), x < N,
    with R = 2^(biL*n). Multiplication, entry and exit of that form. */
module MontRep {
  import opened Arith
  import opened Limbs
  import opened Mont

  ghost predicate Rep(x: nat, a: int, vn: nat, n: nat) {
    x < vn && Cong(x, a * Bn(n), vn)
  }

  lemma RepBound(x: nat, a: int, vn: nat, n: nat)
    requires Rep(x, a, vn, n)
    ensures x < vn
  {}

  /** For odd N, R has an inverse modulo N. */
  ghost function RInv(vn: nat, n: nat): nat {
    BnPow2(n);
    Pow((vn + 1) / 2, BI_L * n)
  }

  lemma RInvertible(vn: nat, n: nat)
    requires vn % 2 == 1
    ensures Cong(Bn(n) * RInv(vn, n), 1, vn)
  {
    var h := (vn + 1) / 2;
    BnPow2(n);
    var e := BI_L * n;
    PowBase(2, h, e);
    CongIntro(2 * h, 1, vn, 1);
    CongPow(2 * h, 1, e, vn);
    PowOne(e);
  }

  lemma {:induction false} PowOne(e: nat)
    ensures Pow(1, e) == 1
  {
    if e > 0 { PowOne(e - 1); }
  }

  /** R can be cancelled modulo an odd N. */
  lemma CancelR(a: int, b: int, vn: nat, n: nat)
    requires vn % 2 == 1 && Cong(a * Bn(n), b * Bn(n), vn)
    ensures Cong(a, b, vn)
  {
    RInvertible(vn, n);
    CongCancel(a, b, Bn(n), RInv(vn, n), vn);
  }

  lemma RepMul(x: nat, a: int, y: nat, b: int, z: nat, vn: nat, n: nat)
    requires vn % 2 == 1 && Rep(x, a, vn, n) && Rep(y, b, vn, n) && MontProduct(z, x, y, vn, n)
    ensures Rep(z, a * b, vn, n)
  {
    hide Bn, Pow;
    var r := Bn(n);
    hide Cong;
    CongMul(x, a * r, y, b * r, vn);
    MulSwap(a, r, b, r);
    MulAssoc(a * b, r, r);
    CongTrans(z * r, x * y, ((a * b) * r) * r, vn);
    CancelR(z, (a * b) * r, vn, n);
  }

  /** Multiplying by R^2 mod N enters Montgomery form. */
  lemma RepEnter(a: nat, rr: nat, z: nat, vn: nat, n: nat)
    requires vn % 2 == 1 && Cong(rr, Bn(n) * Bn(n), vn) && MontProduct(z, a, rr, vn, n)
    ensures Rep(z, a, vn, n)
  {
    hide Bn, Pow;
    var r := Bn(n);
    CongMul(a, a, rr, r * r, vn);
    MulAssoc(a, r, r);
    CancelR(z, a * r, vn, n);
  }

  /** Multiplying by 1 leaves it, with the canonical residue. */
  lemma RepLeave(x: nat, a: int, z: nat, vn: nat, n: nat)
    requires vn % 2 == 1 && Rep(x, a, vn, n) && MontProduct(z, x, 1, vn, n)
    ensures z == a % vn
  {
    hide Bn, Pow;
    CancelR(z, a, vn, n);
    ModSmall(z, vn);
  }

  lemma RepUnique(x: nat, y: nat, a: int, b: int, vn: nat, n: nat)
    requires vn % 2 == 1 && Rep(x, a, vn, n) && Rep(y, b, vn, n)
    ensures x == y <==> Cong(a, b, vn)
  {
    hide Bn, Pow;
    if Cong(a, b, vn) {
      CongMul(a, b, Bn(n), Bn(n), vn);
      CongSmall(x, y, vn);
    }
    if x == y {
      CancelR(a, b, vn, n);
    }
  }

  /** The residue that x is the Montgomery form of. */
  ghost function MontDec(x: nat, vn: nat, n: nat): (a: nat)
    requires vn > 0
    ensures a < vn
  {
    DivMod(x * RInv(vn, n), vn);
    (x * RInv(vn, n)) % vn
  }

  lemma MontDecRep(x: nat, vn: nat, n: nat)
    requires vn % 2 == 1 && x < vn
    ensures Rep(x, MontDec(x, vn, n), vn, n)
  {
    RInvertible(vn, n);
    hide Bn, Pow, RInv;
    var i, r := RInv(vn, n), Bn(n);
    var a := (x * i) % vn;
    CongMod(x * i, vn);
    CongMul(a, x * i, r, r, vn);
    CongMul(x, x, r * i, 1, vn);
    assert (x * i) * r == x * (r * i) by { MulAssoc(x, i, r); }
  }

  lemma MontDecOf(x: nat, a: int, vn: nat, n: nat)
    requires vn % 2 == 1 && Rep(x, a, vn, n)
    ensures MontDec(x, vn, n) == a % vn
  {
    hide MontDec;
    MontDecRep(x, vn, n);
    RepUnique(x, x, MontDec(x, vn, n), a, vn, n);
    ModSmall(MontDec(x, vn, n), vn);
  }

  /** Sums and differences of forms are forms of sums and differences. */
  lemma MontDecSum(x: nat, y: nat, z: nat, vn: nat, n: nat)
    requires vn % 2 == 1 && x < vn && y < vn
    ensures z == (x + y) % vn ==> MontDec(z, vn, n) == (MontDec(x, vn, n) + MontDec(y, vn, n)) % vn
    ensures z == (x - y) % vn ==> MontDec(z, vn, n) == (MontDec(x, vn, n) - MontDec(y, vn, n)) % vn
  {
    hide MontDec, Bn, Pow;
    MontDecRep(x, vn, n); MontDecRep(y, vn, n);
    var a: int, b: int, r := MontDec(x, vn, n), MontDec(y, vn, n), Bn(n);
    CongAdd(x, a * r, y, b * r, vn);
    MulDist(r, a, b); MulDist(r, a, -b); MulNeg(b, r);
    CongMod(x + y, vn); CongMod(x - y, vn);
    if z == (x + y) % vn { DivMod(x + y, vn); MontDecOf(z, a + b, vn, n); }
    if z == (x - y) % vn { DivMod(x - y, vn); MontDecOf(z, a - b, vn, n); }
  }

  lemma MontDecMul(x: nat, y: nat, z: nat, vn: nat, n: nat)
    requires vn % 2 == 1 && x < vn && y < vn && MontProduct(z, x, y, vn, n)
    ensures MontDec(z, vn, n) == (MontDec(x, vn, n) * MontDec(y, vn, n)) % vn
  {
    hide MontDec, Bn, Pow, Rep, MontProduct;
    MontDecRep(x, vn, n); MontDecRep(y, vn, n);
    RepMul(x, MontDec(x, vn, n), y, MontDec(y, vn, n), z, vn, n);
    MontDecOf(z, MontDec(x, vn, n) * MontDec(y, vn, n), vn, n);
  }

  /** Zero is its own form, and the form of nothing else. */
  lemma MontDecZero(x: nat, vn: nat, n: nat)
    requires vn % 2 == 1 && x < vn
    ensures MontDec(x, vn, n) == 0 <==> x == 0
  {
    hide MontDec, Bn, Pow;
    MontDecRep(x, vn, n);
    MulSign(0, Bn(n));
    if x == 0 { MontDecOf(0, 0, vn, n); ModSmall(0, vn); }
    if MontDec(x, vn, n) == 0 { CongSmall(x, 0, vn); }
  }
}
