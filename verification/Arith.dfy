/** Integer facts shared by the whole project: powers, Euclidean division,
    congruences and the bit operations of C written on non-negative integers. */
module Arith {

  function Abs(x: int): nat { if x < 0 then -x else x }

  // ---------------------------------------------------------------- powers

  function Pow(b: int, e: nat): (r: int)
    decreases e
    ensures b > 0 ==> r > 0
    ensures b >= 0 ==> r >= 0
  {
    if e == 0 then 1 else
      var p := Pow(b, e - 1);
      MulSign(b, p);
      b * p
  }

  function Pow2(e: nat): (r: nat)
    ensures r > 0
  {
    Pow(2, e)
  }

  lemma MulSign(x: int, y: int)
    ensures x > 0 && y > 0 ==> x * y > 0
    ensures x >= 0 && y >= 0 ==> x * y >= 0
  {}

  lemma {:induction false} PowAdd(b: int, m: nat, n: nat)
    ensures Pow(b, m + n) == Pow(b, m) * Pow(b, n)
  {
    if m == 0 {
    } else {
      PowAdd(b, m - 1, n);
      MulAssoc(b, Pow(b, m - 1), Pow(b, n));
    }
  }

  lemma Pow2Add(m: nat, n: nat)
    ensures Pow2(m + n) == Pow2(m) * Pow2(n)
  {
    PowAdd(2, m, n);
  }

  lemma Pow2Zero()
    ensures Pow2(0) == 1 && Pow2(1) == 2
  {
    assert Pow(2, 1) == 2 * Pow(2, 0);
  }

  lemma Pow2Small()
    ensures Pow2(3) == 8 && Pow2(4) == 16 && Pow2(8) == 256
  {
    assert Pow(2, 1) == 2 && Pow(2, 2) == 4;
    PowAdd(2, 2, 2);
    PowAdd(2, 4, 4);
  }

  lemma {:induction false} PowMul(b: int, m: nat, n: nat)
    ensures 0 <= m * n
    ensures Pow(Pow(b, m), n) == Pow(b, m * n)
    decreases n
  {
    if n == 0 {
      assert m * n == 0;
    } else {
      PowMul(b, m, n - 1);
      assert m * n == m + m * (n - 1);
      PowAdd(b, m, m * (n - 1));
    }
  }

  lemma {:induction false} PowBase(a: int, b: int, n: nat)
    ensures Pow(a * b, n) == Pow(a, n) * Pow(b, n)
  {
    if n > 0 {
      PowBase(a, b, n - 1);
      MulSwap(a, b, Pow(a, n - 1), Pow(b, n - 1));
    }
  }

  lemma {:induction false} PowMono(b: int, m: nat, n: nat)
    requires b >= 1 && m <= n
    ensures Pow(b, m) <= Pow(b, n)
    decreases n
  {
    if m < n {
      PowMono(b, m, n - 1);
      assert Pow(b, n) == b * Pow(b, n - 1);
      MulMono(1, b, Pow(b, n - 1));
    }
  }

  lemma MulAssoc(x: int, y: int, z: int)
    ensures x * (y * z) == (x * y) * z
  {}

  lemma MulSwap(a: int, b: int, x: int, y: int)
    ensures (a * b) * (x * y) == (a * x) * (b * y)
  {
    MulAssoc(a, b, x * y); MulAssoc(b, x, y); MulAssoc(a, x, b * y); MulAssoc(x, b, y);
  }

  lemma MulDist(x: int, y: int, z: int)
    ensures x * (y + z) == x * y + x * z
    ensures (y + z) * x == y * x + z * x
  {}

  lemma MulNeg(x: int, y: int)
    ensures (-x) * y == -(x * y) && x * (-y) == -(x * y)
  {}

  lemma MulMono(x: int, y: int, z: int)
    requires x <= y && z >= 0
    ensures x * z <= y * z
  {}

  /** A digit d < b above a part v < p stays below b*p. */
  lemma DigitBound(v: int, d: int, p: int, b: int)
    requires 0 <= v < p && 0 <= d < b
    ensures 0 <= v + d * p < b * p
  {
    MulMono(d + 1, b, p);
    MulMono(0, d, p);
  }

  lemma MulMonoStrict(x: int, y: int, z: int)
    requires x < y && z > 0
    ensures x * z < y * z
  {}

  /** From x*z < y*z conclude x < y. */
  lemma MulCancelLt(x: int, y: int, z: int)
    requires z >= 0 && x * z < y * z
    ensures x < y
  {
    if y <= x { MulMono(y, x, z); }
  }

  // ------------------------------------------------------------- division

  /** Quotient and remainder are determined by a == q*n + r with 0 <= r < n. */
  lemma DivModUnique(a: int, n: int, q: int, r: int)
    requires n > 0 && a == q * n + r && 0 <= r < n
    ensures a / n == q && a % n == r
  {
    var q', r' := a / n, a % n;
    assert a == n * q' + r';
    assert (q - q') * n == r' - r;
    if q < q' { MulMono(q - q', -1, n); }
    if q > q' { MulMono(1, q - q', n); }
  }

  lemma ModSmall(a: int, n: int)
    requires 0 <= a < n
    ensures a % n == a && a / n == 0
  {
    DivModUnique(a, n, 0, a);
  }

  lemma DivMod(a: int, n: int)
    requires n > 0
    ensures a == (a / n) * n + a % n && 0 <= a % n < n
    ensures a >= 0 ==> a / n >= 0
  {
    if a >= 0 && a / n < 0 {
      MulMono(a / n, -1, n);
    }
  }

  /** Dividing by m and then by n is dividing by m*n. */
  lemma DivDiv(a: int, m: int, n: int)
    requires m > 0 && n > 0
    ensures m * n > 0 && (a / m) / n == a / (m * n)
    ensures a % (m * n) == a % m + m * ((a / m) % n)
  {
    MulSign(m, n);
    var q, r := a / m, a % m;
    var q', r' := q / n, q % n;
    DivMod(a, m); DivMod(q, n);
    assert a == q' * (m * n) + (m * r' + r) by {
      assert a == q * m + r;
      assert q * m == (q' * n + r') * m == q' * (m * n) + r' * m;
    }
    assert m * r' + r < m * n by { MulMono(r' + 1, n, m); }
    assert m * r' >= 0 by { MulSign(m, r'); if r' == 0 {} }
    DivModUnique(a, m * n, q', m * r' + r);
  }

  // ---------------------------------------------------------- congruences

  /** a and b have the same residue modulo n. */
  predicate Cong(a: int, b: int, n: int)
    requires n > 0
  {
    a % n == b % n
  }

  lemma CongIntro(a: int, b: int, n: int, k: int)
    requires n > 0 && a == b + k * n
    ensures Cong(a, b, n)
  {
    DivMod(b, n);
    assert a == (b / n + k) * n + b % n;
    DivModUnique(a, n, b / n + k, b % n);
  }

  lemma CongElim(a: int, b: int, n: int) returns (k: int)
    requires n > 0 && Cong(a, b, n)
    ensures a == b + k * n
  {
    k := a / n - b / n;
    DivMod(a, n); DivMod(b, n);
    assert k * n == (a / n) * n - (b / n) * n;
  }

  lemma CongRefl(a: int, n: int)
    requires n > 0
    ensures Cong(a, a, n)
  {}

  lemma CongTrans(a: int, b: int, c: int, n: int)
    requires n > 0 && Cong(a, b, n) && Cong(b, c, n)
    ensures Cong(a, c, n) && Cong(c, a, n)
  {}

  lemma CongMod(a: int, n: int)
    requires n > 0
    ensures Cong(a % n, a, n)
  {
    DivMod(a, n);
    CongIntro(a % n, a, n, -(a / n));
  }

  lemma CongAdd(a: int, b: int, c: int, d: int, n: int)
    requires n > 0 && Cong(a, b, n) && Cong(c, d, n)
    ensures Cong(a + c, b + d, n) && Cong(a - c, b - d, n)
  {
    var k := CongElim(a, b, n);
    var l := CongElim(c, d, n);
    assert (k + l) * n == k * n + l * n && (k - l) * n == k * n - l * n;
    CongIntro(a + c, b + d, n, k + l);
    CongIntro(a - c, b - d, n, k - l);
  }

  lemma CongMul(a: int, b: int, c: int, d: int, n: int)
    requires n > 0 && Cong(a, b, n) && Cong(c, d, n)
    ensures Cong(a * c, b * d, n)
  {
    var k := CongElim(a, b, n);
    var l := CongElim(c, d, n);
    MulDist(c, b, k * n); MulDist(b, d, l * n);
    MulAssoc(b, l, n); MulAssoc(k, n, c); MulAssoc(k, c, n);
    MulDist(n, b * l, k * c);
    CongIntro(a * c, b * d, n, b * l + k * c);
  }

  lemma {:induction false} CongPow(a: int, b: int, e: nat, n: int)
    requires n > 0 && Cong(a, b, n)
    ensures Cong(Pow(a, e), Pow(b, e), n)
  {
    if e > 0 {
      CongPow(a, b, e - 1, n);
      CongMul(a, b, Pow(a, e - 1), Pow(b, e - 1), n);
    }
  }

  /** A congruence modulo m*d holds modulo m. */
  lemma CongDivisor(a: int, b: int, m: int, d: int)
    requires m > 0 && d > 0 && m * d > 0 && Cong(a, b, m * d)
    ensures Cong(a, b, m)
  {
    var k := CongElim(a, b, m * d);
    MulAssoc(k, d, m);
    CongIntro(a, b, m, k * d);
  }

  /** Two representatives in [0, n) of the same class are equal. */
  lemma CongSmall(a: int, b: int, n: int)
    requires 0 <= a < n && 0 <= b < n && Cong(a, b, n)
    ensures a == b
  {
    ModSmall(a, n); ModSmall(b, n);
  }

  /** A factor with an inverse modulo n can be cancelled. */
  lemma CongCancel(a: int, b: int, r: int, rinv: int, n: int)
    requires n > 0 && Cong(r * rinv, 1, n) && Cong(a * r, b * r, n)
    ensures Cong(a, b, n)
  {
    CongMul(a * r, b * r, rinv, rinv, n);
    CongMul(a, a, r * rinv, 1, n);
    CongMul(b, b, r * rinv, 1, n);
    assert (a * r) * rinv == a * (r * rinv);
    assert (b * r) * rinv == b * (r * rinv);
  }

  // ------------------------------------------------------ bits of integers

  /** Bitwise or of two non-negative integers. */
  function BitOr(x: nat, y: nat): nat
    decreases x + y
  {
    if x == 0 && y == 0 then 0
    else 2 * BitOr(x / 2, y / 2) + (if x % 2 == 1 || y % 2 == 1 then 1 else 0)
  }

  /** Bitwise and of two non-negative integers. */
  function BitAnd(x: nat, y: nat): nat
    decreases x + y
  {
    if x == 0 || y == 0 then 0
    else 2 * BitAnd(x / 2, y / 2) + (if x % 2 == 1 && y % 2 == 1 then 1 else 0)
  }

  /** Bitwise exclusive or of two non-negative integers. */
  function BitXor(x: nat, y: nat): nat
    decreases x + y
  {
    if x == 0 && y == 0 then 0
    else 2 * BitXor(x / 2, y / 2) + (if x % 2 != y % 2 then 1 else 0)
  }

  /** Bit k of x. */
  function BitAt(x: nat, k: nat): nat {
    DivMod(x, Pow2(k));
    (x / Pow2(k)) % 2
  }

  /** The three operations bit by bit. */
  lemma {:induction false} BitOpsAt(x: nat, y: nat, k: nat)
    ensures BitAt(BitXor(x, y), k) == 1 <==> BitAt(x, k) != BitAt(y, k)
    ensures BitAt(BitAnd(x, y), k) == 1 <==> BitAt(x, k) == 1 && BitAt(y, k) == 1
    ensures BitAt(BitOr(x, y), k) == 1 <==> BitAt(x, k) == 1 || BitAt(y, k) == 1
    decreases k
  {
    HalvedOps(x, y);
    hide BitXor, BitAnd, BitOr;
    if k == 0 {
      Pow2Zero();
    } else {
      BitOpsAt(x / 2, y / 2, k - 1);
      BitBelow(x, k); BitBelow(y, k); BitBelow(BitXor(x, y), k); BitBelow(BitAnd(x, y), k); BitBelow(BitOr(x, y), k);
    }
  }

  lemma HalvedOps(x: nat, y: nat)
    ensures BitXor(x, y) / 2 == BitXor(x / 2, y / 2) && BitXor(x, y) % 2 == (if x % 2 != y % 2 then 1 else 0)
    ensures BitAnd(x, y) / 2 == BitAnd(x / 2, y / 2) && BitAnd(x, y) % 2 == (if x % 2 == 1 && y % 2 == 1 then 1 else 0)
    ensures BitOr(x, y) / 2 == BitOr(x / 2, y / 2) && BitOr(x, y) % 2 == (if x % 2 == 1 || y % 2 == 1 then 1 else 0)
  {}

  lemma BitBelow(x: nat, k: nat)
    requires k > 0
    ensures BitAt(x, k) == BitAt(x / 2, k - 1)
  {
    assert Pow2(k) == 2 * Pow2(k - 1);
    hide Pow2, Pow;
    DivDiv(x, 2, Pow2(k - 1));
  }

  lemma {:induction false} BitXorTwice(x: nat, y: nat)
    ensures BitXor(BitXor(x, y), y) == x
    decreases x + y
  {
    if x != 0 || y != 0 {
      var z := BitXor(x / 2, y / 2);
      var b := if x % 2 != y % 2 then 1 else 0;
      BitXorTwice(x / 2, y / 2);
      assert BitXor(x, y) == 2 * z + b && (2 * z + b) / 2 == z && (2 * z + b) % 2 == b;
    }
  }

  lemma {:induction false} BitXorZero(x: nat)
    ensures BitXor(x, 0) == x && BitXor(0, x) == x
  {
    if x > 0 { BitXorZero(x / 2); }
  }

  lemma {:induction false} BitXorBound(x: nat, y: nat, k: nat)
    requires x < Pow2(k) && y < Pow2(k)
    ensures BitXor(x, y) < Pow2(k)
    decreases k
  {
    if k > 0 {
      assert Pow2(k) == 2 * Pow2(k - 1);
      BitXorBound(x / 2, y / 2, k - 1);
    }
  }

  /** Exclusive or works on the bits below and above position k separately. */
  lemma {:induction false} BitXorSplit(x0: nat, x1: nat, y0: nat, y1: nat, k: nat)
    requires x0 < Pow2(k) && y0 < Pow2(k)
    ensures x0 + x1 * Pow2(k) >= 0 && y0 + y1 * Pow2(k) >= 0
    ensures BitXor(x0 + x1 * Pow2(k), y0 + y1 * Pow2(k)) == BitXor(x0, y0) + BitXor(x1, y1) * Pow2(k)
    decreases k
  {
    hide Pow2, Pow, BitXor;
    if k == 0 {
      Pow2Zero(); BitXorZero(0);
    } else {
      Pow2Add(1, k - 1); Pow2Zero();
      var p := Pow2(k - 1);
      BitXorSplit(x0 / 2, x1, y0 / 2, y1, k - 1);
      MulSign(x1, p); MulSign(y1, p);
      HalveXor(x0, x1 * p, y0, y1 * p);
      DoubleParts(x1, y1, p, BitXor(x1, y1));
    }
  }

  lemma DoubleParts(x1: int, y1: int, p: int, z: int)
    ensures x1 * (2 * p) == 2 * (x1 * p) && y1 * (2 * p) == 2 * (y1 * p) && z * (2 * p) == 2 * (z * p)
  {}

  lemma HalveXor(x0: nat, u: nat, y0: nat, v: nat)
    ensures BitXor(x0 + 2 * u, y0 + 2 * v) == 2 * BitXor(x0 / 2 + u, y0 / 2 + v) + (if x0 % 2 != y0 % 2 then 1 else 0)
    ensures BitXor(x0, y0) == 2 * BitXor(x0 / 2, y0 / 2) + (if x0 % 2 != y0 % 2 then 1 else 0)
  {
    var x, y := x0 + 2 * u, y0 + 2 * v;
    assert x / 2 == x0 / 2 + u && x % 2 == x0 % 2 && y / 2 == y0 / 2 + v && y % 2 == y0 % 2;
  }

  /** Or of a multiple of 2^k with a number below 2^k is their sum. */
  lemma {:induction false} BitOrDisjoint(x: nat, y: nat, k: nat)
    requires x % Pow2(k) == 0 && y < Pow2(k)
    ensures BitOr(x, y) == x + y && BitOr(y, x) == x + y
    decreases k
  {
    if k == 0 {
      BitOrZero(x);
    } else {
      var p := Pow2(k - 1);
      DivMod(x, Pow2(k));
      assert x == 2 * ((x / Pow2(k)) * p) by { assert Pow2(k) == 2 * p; }
      var x' := (x / Pow2(k)) * p;
      assert x / 2 == x' && x % 2 == 0;
      DivModUnique(x', p, x / Pow2(k), 0);
      BitOrDisjoint(x', y / 2, k - 1);
    }
  }

  lemma {:induction false} BitOrZero(x: nat)
    ensures BitOr(x, 0) == x && BitOr(0, x) == x
  {
    if x > 0 { BitOrZero(x / 2); }
  }

  lemma {:induction false} OrZero(x: nat, y: nat)
    ensures BitOr(x, y) == 0 <==> x == 0 && y == 0
    decreases x + y
  {
    if x != 0 || y != 0 { OrZero(x / 2, y / 2); }
  }

  /** And with 2^k - 1 keeps the low k bits. */
  lemma {:induction false} BitAndMask(x: nat, k: nat)
    ensures BitAnd(x, Pow2(k) - 1) == x % Pow2(k)
    decreases k
  {
    if k == 0 {
    } else {
      var p := Pow2(k - 1);
      assert Pow2(k) == 2 * p;
      assert (Pow2(k) - 1) / 2 == p - 1 && (Pow2(k) - 1) % 2 == 1;
      BitAndMask(x / 2, k - 1);
      DivDiv(x, 2, p);
      assert x % (2 * p) == x % 2 + 2 * ((x / 2) % p);
      if x == 0 { ModSmall(0, 2 * p); }
    }
  }

  /** And with a single bit 2^k tests that bit. */
  lemma {:induction false} BitAndBit(x: nat, k: nat)
    ensures BitAnd(x, Pow2(k)) == ((x / Pow2(k)) % 2) * Pow2(k)
    decreases k
  {
    if k == 0 {
      assert Pow2(0) == 1;
    } else {
      var p := Pow2(k - 1);
      assert Pow2(k) == 2 * p;
      BitAndBit(x / 2, k - 1);
      DivDiv(x, 2, p);
      hide Pow2;
      MulAssoc(2, (x / (2 * p)) % 2, p);
      if x == 0 { ModSmall(0, 2 * p); }
    }
  }

  type int32 = x: int | -0x8000_0000 <= x < 0x8000_0000

  /** Conversion of an unsigned number to a 32-bit int. */
  function ToInt(v: nat): (i: int32)
    ensures i <= v
  {
    DivMod(v, 0x1_0000_0000);
    var r := v % 0x1_0000_0000;
    if r >= 0x8000_0000 then r - 0x1_0000_0000 else r
  }

  lemma ToIntSmall(v: nat)
    ensures v < 0x8000_0000 ==> ToInt(v) == v
    ensures 0x8000_0000 <= v < 0x1_0000_0000 ==> ToInt(v) < 0
  {
    if v < 0x1_0000_0000 { ModSmall(v, 0x1_0000_0000); }
  }

  function Min(x: nat, y: nat): nat { if x <= y then x else y }

  function Max(x: nat, y: nat): nat { if x >= y then x else y }

  lemma SameParity(v: int, d: int, k: int)
    requires v == d + 2 * k
    ensures v % 2 == d % 2
  {}
}
