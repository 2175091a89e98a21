/** Fermat's little theorem, on which inversion by exponentiation rests. */
module Fermat {
  import opened Arith
  import opened Gcds

  predicate Prime(p: nat) {
    p > 1 && forall d :: 1 < d < p ==> p % d != 0
  }

  /** gcd(a, b) is a combination of a and b. */
  lemma {:induction false} Bezout(a: nat, b: nat) returns (x: int, y: int)
    ensures a * x + b * y == Gcd(a, b)
    decreases b
  {
    if b == 0 {
      x, y := 1, 0;
    } else {
      var q, r := a / b, a % b;
      var u, v := Bezout(b, r);
      DivMod(a, b);
      x, y := v, u - q * v;
      hide Gcd;
      assert r * v == a * v - (q * b) * v by { MulDist(v, a, -(q * b)); MulNeg(q * b, v); }
      assert b * (u - q * v) == b * u - b * (q * v) by { MulDist(b, u, -(q * v)); MulNeg(q * v, b); }
      MulAssoc(b, q, v);
    }
  }

  /** Modulo a prime every non-zero residue has an inverse. */
  lemma Invertible(a: nat, p: nat) returns (x: int)
    requires Prime(p) && 0 < a < p
    ensures Cong(a * x, 1, p)
  {
    GcdIsGreatest(a, p);
    var g := Gcd(a, p);
    var y: int;
    x, y := Bezout(a, p);
    hide Gcd;
    assert g == 1 by {
      var k := DividesElim(g, a);
      if g == 0 { MulSign(k, 0); }
      MulCancelLt(0, k, g); MulMono(1, k, g);
    }
    MulNeg(y, p);
    CongIntro(a * x, 1, p, -y);
  }

  // -------------------------------------------------- products of sequences

  function Product(s: seq<int>): int {
    if |s| == 0 then 1 else Product(s[..|s| - 1]) * s[|s| - 1]
  }

  lemma {:induction false} ProductConcat(s: seq<int>, t: seq<int>)
    ensures Product(s + t) == Product(s) * Product(t)
    decreases |t|
  {
    if |t| == 0 {
      assert s + t == s;
    } else {
      var k := |t| - 1;
      assert s + t == (s + t[..k]) + [t[k]];
      assert (s + t)[..|s + t| - 1] == s + t[..k];
      ProductConcat(s, t[..k]);
      MulAssoc(Product(s), Product(t[..k]), t[k]);
    }
  }

  lemma TakeOut(r: seq<int>, u: seq<int>, x: int, v: seq<int>)
    requires multiset(r + [x]) == multiset(u + [x] + v)
    ensures multiset(r) == multiset(u + v)
  {
    assert multiset(r + [x]) == multiset(r) + multiset{x};
    assert multiset(u + [x] + v) == multiset(u + v) + multiset{x};
    assert multiset(r) == multiset(r) + multiset{x} - multiset{x};
  }

  /** Product depends on the elements only, not on their order. */
  lemma {:induction false} ProductPermuted(s: seq<int>, t: seq<int>)
    requires multiset(s) == multiset(t)
    ensures Product(s) == Product(t)
    decreases |s|
  {
    if |s| == 0 {
      assert |multiset(t)| == 0;
    } else {
      var k, x := |s| - 1, s[|s| - 1];
      assert x in multiset(t);
      var i :| 0 <= i < |t| && t[i] == x;
      var u, v := t[..i], t[i + 1..];
      assert t == u + [x] + v;
      assert s == s[..k] + [x];
      TakeOut(s[..k], u, x, v);
      ProductPermuted(s[..k], u + v);
      ProductConcat(u, v); ProductConcat(u + [x], v);
      assert (u + [x])[..|u|] == u;
      MulAssoc(Product(u), x, Product(v)); MulAssoc(Product(u), Product(v), x);
    }
  }

  /** 1, 2, ..., m */
  function UpTo(m: nat): (s: seq<int>)
    ensures |s| == m && forall i :: 0 <= i < m ==> s[i] == i + 1
  {
    if m == 0 then [] else UpTo(m - 1) + [m]
  }

  /** a*1 mod p, ..., a*m mod p */
  function Multiples(a: nat, p: nat, m: nat): (s: seq<int>)
    requires p > 0
    ensures |s| == m && forall i :: 0 <= i < m ==> s[i] == (a * (i + 1)) % p
  {
    if m == 0 then [] else Multiples(a, p, m - 1) + [(a * m) % p]
  }

  lemma {:induction false} MultiplesProduct(a: nat, p: nat, m: nat)
    requires p > 0
    ensures Cong(Product(Multiples(a, p, m)), Pow(a, m) * Product(UpTo(m)), p)
    decreases m
  {
    if m > 0 {
      MultiplesProduct(a, p, m - 1);
      var s, u := Multiples(a, p, m), UpTo(m);
      assert s[..m - 1] == Multiples(a, p, m - 1) && u[..m - 1] == UpTo(m - 1);
      CongMod(a * m, p);
      CongMul(Product(Multiples(a, p, m - 1)), Pow(a, m - 1) * Product(UpTo(m - 1)), (a * m) % p, a * m, p);
      MulSwap(Pow(a, m - 1), Product(UpTo(m - 1)), a, m);
    }
  }

  // ------------------------------------------------ the multiples are a permutation

  predicate NoRepeats(s: seq<int>) {
    forall i, j :: 0 <= i < j < |s| ==> s[i] != s[j]
  }

  lemma {:induction false} CountOnce(s: seq<int>, x: int)
    requires NoRepeats(s)
    ensures multiset(s)[x] == if x in s then 1 else 0
  {
    if |s| > 0 {
      var k := |s| - 1;
      CountOnce(s[..k], x);
      assert s == s[..k] + [s[k]];
    }
  }

  lemma {:induction false} AsSet(s: seq<int>)
    requires NoRepeats(s)
    ensures |set x | x in s| == |s|
  {
    if |s| > 0 {
      var k := |s| - 1;
      AsSet(s[..k]);
      assert s == s[..k] + [s[k]];
      assert (set x | x in s) == (set x | x in s[..k]) + {s[k]};
    }
  }

  /** Two sequences without repeats, one within the other and as long, are permutations. */
  lemma SamePermutation(s: seq<int>, t: seq<int>)
    requires NoRepeats(s) && NoRepeats(t) && |s| == |t| && forall x :: x in s ==> x in t
    ensures multiset(s) == multiset(t)
  {
    AsSet(s); AsSet(t);
    var a, b := set x | x in s, set x | x in t;
    assert a <= b;
    SubsetEqual(a, b);
    forall x: int ensures multiset(s)[x] == multiset(t)[x] {
      CountOnce(s, x); CountOnce(t, x);
      assert x in a <==> x in b;
    }
  }

  lemma SubsetEqual(a: set<int>, b: set<int>)
    requires a <= b && |a| == |b|
    ensures a == b
  {
    assert |b - a| == 0;
  }

  lemma MultiplesDistinct(a: nat, p: nat, i: nat, j: nat)
    requires Prime(p) && 0 < a < p && i < p && j < p && Cong(a * i, a * j, p)
    ensures i == j
  {
    var x := Invertible(a, p);
    CongCancel(i, j, a, x, p);
    CongSmall(i, j, p);
  }

  lemma MultiplesPermute(a: nat, p: nat)
    requires Prime(p) && 0 < a < p
    ensures multiset(Multiples(a, p, p - 1)) == multiset(UpTo(p - 1))
  {
    var s, t := Multiples(a, p, p - 1), UpTo(p - 1);
    forall i, j | 0 <= i < j < |s| ensures s[i] != s[j] {
      if s[i] == s[j] { MultiplesDistinct(a, p, i + 1, j + 1); }
    }
    forall x | x in s ensures x in t {
      var i :| 0 <= i < |s| && s[i] == x;
      DivMod(a * (i + 1), p);
      if x == 0 {
        MulSign(a, 0); ModSmall(0, p);
        MultiplesDistinct(a, p, i + 1, 0);
      }
      assert t[x - 1] == x;
    }
    SamePermutation(s, t);
  }

  /** 1*2*...*m is prime to p for m < p, so it can be cancelled. */
  lemma {:induction false} FactorialInvertible(p: nat, m: nat) returns (x: int)
    requires Prime(p) && m < p
    ensures Cong(Product(UpTo(m)) * x, 1, p)
    decreases m
  {
    if m == 0 {
      x := 1;
    } else {
      var y := FactorialInvertible(p, m - 1);
      var z := Invertible(m, p);
      assert UpTo(m)[..m - 1] == UpTo(m - 1);
      var f := Product(UpTo(m - 1));
      x := y * z;
      CongMul(f * y, 1, m * z, 1, p);
      MulSwap(f, m, y, z);
    }
  }

  /** a^(p-1) = 1 (mod p) */
  lemma LittleTheorem(a: nat, p: nat)
    requires Prime(p) && 0 < a < p
    ensures Cong(Pow(a, p - 1), 1, p)
  {
    var f := Product(UpTo(p - 1));
    MultiplesProduct(a, p, p - 1);
    MultiplesPermute(a, p);
    ProductPermuted(Multiples(a, p, p - 1), UpTo(p - 1));
    var x := FactorialInvertible(p, p - 1);
    CongCancel(Pow(a, p - 1), 1, f, x, p);
  }

  /** a^(p-2) is the inverse of a modulo an odd prime p. */
  lemma InverseByPower(a: nat, p: nat)
    requires Prime(p) && p > 2 && 0 < a < p
    ensures Cong(a * Pow(a, p - 2), 1, p)
  {
    LittleTheorem(a, p);
    assert Pow(a, p - 1) == a * Pow(a, p - 2);
  }
}
