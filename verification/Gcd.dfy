/** The mathematical greatest common divisor that the binary algorithms of
    bignum.c are measured against. */
module Gcds {
  import opened Arith

  predicate Divides(d: nat, a: int) {
    if d == 0 then a == 0 else a % d == 0
  }

  lemma DividesIntro(d: nat, a: int, k: int)
    requires a == k * d
    ensures Divides(d, a)
  {
    if d > 0 { DivModUnique(a, d, k, 0); }
  }

  lemma DividesElim(d: nat, a: int) returns (k: int)
    requires Divides(d, a)
    ensures a == k * d
  {
    if d == 0 { return 0; }
    DivMod(a, d);
    return a / d;
  }

  lemma DividesSum(d: nat, a: int, b: int, x: int, y: int)
    requires Divides(d, a) && Divides(d, b)
    ensures Divides(d, x * a + y * b)
  {
    var k := DividesElim(d, a);
    var l := DividesElim(d, b);
    MulAssoc(x, k, d); MulAssoc(y, l, d); MulDist(d, x * k, y * l);
    DividesIntro(d, x * a + y * b, x * k + y * l);
  }

  lemma DividesAntisym(g: nat, h: nat)
    requires Divides(g, h) && Divides(h, g)
    ensures g == h
  {
    var k := DividesElim(g, h);
    var l := DividesElim(h, g);
    if g == 0 { MulSign(k, 0); return; }
    if h == 0 { MulSign(l, 0); return; }
    MulCancelLt(0, k, g); MulCancelLt(0, l, h);
    MulMono(1, k, g); MulMono(1, l, h);
  }

  function Gcd(a: nat, b: nat): nat
    decreases b
  {
    if b == 0 then a else Gcd(b, a % b)
  }

  /** It divides both, and every common divisor divides it. */
  lemma {:induction false} GcdIsGreatest(a: nat, b: nat)
    ensures Divides(Gcd(a, b), a) && Divides(Gcd(a, b), b)
    ensures forall d: nat :: Divides(d, a) && Divides(d, b) ==> Divides(d, Gcd(a, b))
    decreases b
  {
    if b == 0 {
      DividesIntro(a, a, 1); DividesIntro(a, 0, 0);
    } else {
      var r := a % b;
      GcdIsGreatest(b, r);
      DivMod(a, b);
      DividesSum(Gcd(b, r), b, r, a / b, 1);
      forall d: nat | Divides(d, a) && Divides(d, b) ensures Divides(d, Gcd(a, b)) {
        MulNeg(a / b, b);
        DividesSum(d, a, b, 1, -(a / b));
      }
    }
  }

  /** Two pairs with the same common divisors have the same gcd. */
  lemma GcdSame(a: nat, b: nat, a': nat, b': nat)
    requires forall d: nat :: Divides(d, a) && Divides(d, b) ==> Divides(d, a') && Divides(d, b')
    requires forall d: nat :: Divides(d, a') && Divides(d, b') ==> Divides(d, a) && Divides(d, b)
    ensures Gcd(a, b) == Gcd(a', b')
  {
    hide Divides, Gcd;
    GcdIsGreatest(a, b); GcdIsGreatest(a', b');
    DividesAntisym(Gcd(a, b), Gcd(a', b'));
  }

  lemma GcdSym(a: nat, b: nat)
    ensures Gcd(a, b) == Gcd(b, a)
  {
    hide Divides, Gcd;
    GcdSame(a, b, b, a);
  }

  /** gcd(a - b, b) = gcd(a, b) */
  lemma GcdSub(a: nat, b: nat)
    requires a >= b
    ensures Gcd(a - b, b) == Gcd(a, b)
  {
    hide Divides, Gcd;
    forall d: nat | Divides(d, a) && Divides(d, b) ensures Divides(d, a - b) {
      DividesSum(d, a, b, 1, -1);
    }
    forall d: nat | Divides(d, a - b) && Divides(d, b) ensures Divides(d, a) {
      DividesSum(d, a - b, b, 1, 1);
    }
    GcdSame(a - b, b, a, b);
  }

  /** A common factor comes out. */
  lemma {:induction false} GcdScale(a: nat, b: nat, p: nat)
    requires p > 0
    ensures a * p >= 0 && b * p >= 0 && Gcd(a * p, b * p) == Gcd(a, b) * p
    decreases b
  {
    MulSign(a, p); MulSign(b, p);
    if b == 0 {
      MulSign(0, p);
    } else {
      var q, r := a / b, a % b;
      DivMod(a, b);
      MulDist(p, q * b, r); MulAssoc(q, b, p);
      MulMonoStrict(r, b, p); MulMono(0, r, p);
      DivModUnique(a * p, b * p, q, r * p);
      GcdScale(b, r, p);
    }
  }

  lemma ProductOdd(x: int, y: int)
    requires (x * y) % 2 == 1
    ensures x % 2 == 1 && y % 2 == 1
  {
    if x % 2 == 0 { EvenProduct(x / 2, y); }
    if y % 2 == 0 { EvenProduct(y / 2, x); }
  }

  lemma EvenProduct(k: int, y: int)
    ensures ((2 * k) * y) % 2 == 0 && (y * (2 * k)) % 2 == 0
  {
    MulAssoc(2, k, y);
    SameParity((2 * k) * y, 0, k * y);
  }

  /** A divisor of an odd number that divides 2*a divides a. */
  lemma OddDivisor(d: nat, a: int, b: int)
    requires b % 2 == 1 && Divides(d, b) && Divides(d, 2 * a)
    ensures Divides(d, a)
  {
    var k := DividesElim(d, b);
    ProductOdd(k, d);
    var l := DividesElim(d, 2 * a);
    assert l % 2 == 0 by {
      if l % 2 == 1 { OddProduct(l, d); }
    }
    MulAssoc(2, l / 2, d);
    DividesIntro(d, a, l / 2);
  }

  lemma OddProduct(x: int, y: int)
    requires x % 2 == 1 && y % 2 == 1
    ensures (x * y) % 2 == 1
  {
    MulDist(y, 2 * (x / 2), 1); MulAssoc(2, x / 2, y);
    SameParity(x * y, y, (x / 2) * y);
  }

  /** Halving an even argument next to an odd one changes nothing. */
  lemma GcdHalf(a: nat, b: nat)
    requires b % 2 == 1
    ensures Gcd(2 * a, b) == Gcd(a, b)
  {
    hide Divides, Gcd;
    forall d: nat | Divides(d, 2 * a) && Divides(d, b) ensures Divides(d, a) {
      OddDivisor(d, a, b);
    }
    forall d: nat | Divides(d, a) && Divides(d, b) ensures Divides(d, 2 * a) {
      DividesSum(d, a, b, 2, 0);
    }
    GcdSame(2 * a, b, a, b);
  }

  lemma {:induction false} GcdShift(a: nat, b: nat, k: nat)
    requires b % 2 == 1
    ensures a * Pow2(k) >= 0 && Gcd(a * Pow2(k), b) == Gcd(a, b)
    decreases k
  {
    hide Gcd;
    if k > 0 {
      GcdShift(a, b, k - 1);
      assert Pow2(k) == 2 * Pow2(k - 1);
      hide Pow2;
      MulAssoc(a, 2, Pow2(k - 1)); MulAssoc(2, a, Pow2(k - 1));
      GcdHalf(a * Pow2(k - 1), b);
    } else {
      Pow2Zero();
    }
  }

  /** gcd(2^i*a, 2^j*b) = 2^min(i,j) * gcd(a, b) for odd a and b. */
  lemma GcdOddParts(a: nat, i: nat, b: nat, j: nat)
    requires a % 2 == 1 && b % 2 == 1
    ensures a * Pow2(i) >= 0 && b * Pow2(j) >= 0
    ensures Gcd(a * Pow2(i), b * Pow2(j)) == Gcd(a, b) * Pow2(if i <= j then i else j)
  {
    hide Gcd, Pow2;
    if i <= j { GcdOrdered(a, i, b, j); } else {
      GcdOrdered(b, j, a, i);
      GcdSym(a, b); GcdSym(a * Pow2(i), b * Pow2(j));
    }
  }

  lemma GcdOrdered(a: nat, i: nat, b: nat, j: nat)
    requires a % 2 == 1 && b % 2 == 1 && i <= j
    ensures a * Pow2(i) >= 0 && b * Pow2(j) >= 0
    ensures Gcd(a * Pow2(i), b * Pow2(j)) == Gcd(a, b) * Pow2(i)
  {
    Pow2Add(j - i, i);
    hide Gcd, Pow2;
    var b' := b * Pow2(j - i);
    GcdShift(b, a, j - i);
    GcdSym(b, a); GcdSym(b', a);
    GcdScale(a, b', Pow2(i));
    MulAssoc(b, Pow2(j - i), Pow2(i));
  }

  /** Numbers without a common factor are not both even. */
  lemma CoprimeOdd(a: nat, b: nat)
    requires Gcd(a, b) == 1
    ensures a % 2 == 1 || b % 2 == 1
  {
    hide Gcd;
    if a % 2 == 0 && b % 2 == 0 { GcdScale(a / 2, b / 2, 2); }
  }

  lemma GcdZero(b: nat)
    ensures Gcd(0, b) == b && Gcd(b, 0) == b
  {
    if b > 0 { ModSmall(0, b); }
  }

  /** gcd(a mod n, n) = gcd(|a|, n) */
  lemma GcdMod(a: int, n: nat)
    requires n > 0
    ensures Gcd(a % n, n) == Gcd(Abs(a), n)
  {
    hide Divides, Gcd;
    DivMod(a, n);
    var q, s := a / n, if a < 0 then -1 else 1;
    MulNeg(q, n); MulNeg(s * q, n); MulAssoc(s, q, n); MulDist(s, q * n, a % n);
    forall d: nat | Divides(d, a % n) && Divides(d, n) ensures Divides(d, Abs(a)) {
      DividesSum(d, a % n, n, s, s * q);
    }
    forall d: nat | Divides(d, Abs(a)) && Divides(d, n) ensures Divides(d, a % n) {
      DividesSum(d, Abs(a), n, s, -q);
    }
    GcdSame(a % n, n, Abs(a), n);
  }

  /** An inverse modulo n exists only for numbers prime to n. */
  lemma InverseNeedsCoprime(a: int, x: int, n: nat)
    requires n > 1 && Cong(a * x, 1, n)
    ensures Gcd(Abs(a), n) == 1
  {
    hide Divides, Gcd;
    var g := Gcd(Abs(a), n);
    GcdIsGreatest(Abs(a), n);
    var k := CongElim(a * x, 1, n);
    var s := if a < 0 then -1 else 1;
    MulAssoc(s * x, s, a); MulNeg(x, a);
    DividesSum(g, Abs(a), n, s * x, -k);
    MulNeg(k, n);
    var m := DividesElim(g, 1);
    DividesIntro(1, g, g);
    DividesAntisym(g, 1);
  }
}
