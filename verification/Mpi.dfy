/** bignum.c: the mbedtls_mpi object and its sign-and-magnitude arithmetic.

    An Mpi owns its limb buffer p, a sequence that operations replace; n is |p|.
    A core routine applied to that buffer is the sequence function the array
    routine is proved to compute. */
module MpiObject {
  import opened Arith
  import opened Limbs
  import opened Core
  import opened ReturnCodes

  const MAX_LIMBS := 10000

  class Mpi {
    var s: int
    var p: seq<limb>

    /** Signs are +1 or -1; no buffer exceeds the limit that grow enforces. */
    ghost predicate Valid()
      reads this
    {
      (s == 1 || s == -1) && |p| <= MAX_LIMBS
    }

    /** |X| */
    ghost function Mag(): nat
      reads this
    {
      Val(p)
    }

    /** The integer the object stands for. */
    ghost function Value(): int
      reads this
    {
      s * Val(p)
    }

    /** mbedtls_mpi_init */
    constructor ()
      ensures s == 1 && p == [] && Valid() && Value() == 0
    {
      s, p := 1, [];
    }
  }

  // ------------------------------------------------------------ resize, copy

  lemma ValPad(a: seq<limb>, k: nat)
    ensures Val(a + Zeros(k)) == Val(a)
  {
    ValConcat(a, Zeros(k));
    ValZeros(Zeros(k));
    MulSign(Bn(|a|), 0);
  }

  method Grow(X: Mpi, n: nat) returns (st: Status)
    requires X.Valid()
    modifies X
    ensures X.Valid() && X.s == old(X.s) && X.Mag() == old(X.Mag()) && X.Value() == old(X.Value())
    ensures st == if n > MAX_LIMBS then Fail(ERR_ALLOC_FAILED) else Ok
    ensures X.p == old(X.p) + Zeros(if st.Ok? && n > old(|X.p|) then n - old(|X.p|) else 0)
  {
    hide Val;
    if n > MAX_LIMBS {
      assert X.p == X.p + Zeros(0);
      return Fail(ERR_ALLOC_FAILED);
    }
    if |X.p| < n {
      ValPad(X.p, n - |X.p|);
      X.p := X.p + Zeros(n - |X.p|);
    } else {
      assert X.p == X.p + Zeros(0);
    }
    return Ok;
  }

  /** All limbs from j on are zero. */
  predicate ZeroFrom(p: seq<limb>, j: nat)
    requires j <= |p|
  {
    forall k :: j <= k < |p| ==> p[k] == 0
  }

  lemma ValZeroFrom(p: seq<limb>, j: nat)
    requires j <= |p| && ZeroFrom(p, j)
    ensures Val(p) == Val(p[..j])
  {
    ValSplit(p, j);
    ValZeros(p[j..]);
    MulSign(Bn(j), 0);
  }

  /** Number of limbs up to the most significant non-zero one. */
  function Sig(p: seq<limb>): (j: nat)
    ensures j <= |p| && ZeroFrom(p, j) && (j > 0 ==> p[j - 1] != 0)
  {
    if |p| == 0 || p[|p| - 1] != 0 then |p| else Sig(p[..|p| - 1])
  }

  lemma SigBelow(p: seq<limb>, j: nat)
    requires j <= |p| && ZeroFrom(p, j)
    ensures Sig(p) <= j
  {}

  /** The loops that look for the most significant non-zero limb. */
  method SigLimbs(p: seq<limb>, low: nat) returns (j: nat)
    requires low <= |p|
    ensures low <= j <= |p| && ZeroFrom(p, j) && (j > low ==> p[j - 1] != 0)
    ensures j == Max(low, Sig(p))
  {
    hide Sig;
    j := |p|;
    while j > low && p[j - 1] == 0
      invariant low <= j <= |p| && ZeroFrom(p, j)
    {
      j := j - 1;
    }
  }

  method Copy(X: Mpi, Y: Mpi)
    requires X.Valid() && Y.Valid()
    modifies X
    ensures X.Valid() && X.Mag() == Y.Mag() && X.Value() == Y.Value()
    ensures Y.p == old(Y.p) && Y.s == old(Y.s)
    ensures |Y.p| > 0 ==> X.s == Y.s && |X.p| > 0
    ensures |Y.p| == 0 ==> X.s == 1 || X.s == old(X.s)
    ensures old(|X.p|) <= |X.p| <= Max(old(|X.p|), |Y.p|)
    ensures X != Y && |Y.p| > 0 ==> |X.p| == Max(old(|X.p|), Max(1, Sig(Y.p)))
  {
    hide Sig;
    if X == Y { return; }
    if |Y.p| == 0 {
      if |X.p| != 0 {
        X.s := 1;
        X.p := Zeros(|X.p|);
      }
      ValZeros(X.p);
      return;
    }
    var i := SigLimbs(Y.p, 1);
    ValZeroFrom(Y.p, i);
    hide Val;
    X.s := Y.s;
    if |X.p| < i {
      var st := Grow(X, i);
    }
    ValPad(Y.p[..i], |X.p| - i);
    X.p := Y.p[..i] + Zeros(|X.p| - i);
  }

  // ------------------------------------------------------------- comparison

  function Sign(x: int): int { if x < 0 then -1 else if x == 0 then 0 else 1 }

  /** The limb of highest index in which two magnitudes differ decides. */
  lemma CompareAt(x: seq<limb>, y: seq<limb>, i: nat)
    requires 0 < i <= |x| && i <= |y| && x[i - 1] != y[i - 1]
    ensures x[i - 1] < y[i - 1] ==> Val(x[..i]) < Val(y[..i])
    ensures x[i - 1] > y[i - 1] ==> Val(x[..i]) > Val(y[..i])
  {
    ValTake(x, i - 1); ValTake(y, i - 1);
    ValBound(x[..i - 1]); ValBound(y[..i - 1]);
    hide Val, Bn, Pow;
    CompareDigits(Val(x[..i - 1]), x[i - 1], Val(y[..i - 1]), y[i - 1], Bn(i - 1));
  }

  lemma CompareDigits(v: int, a: int, w: int, b: int, p: int)
    requires 0 <= v < p && 0 <= w < p && a != b
    ensures a < b ==> v + a * p < w + b * p
    ensures a > b ==> v + a * p > w + b * p
  {
    if a < b { MulMono(a + 1, b, p); MulDist(p, a, 1); } else { MulMono(b + 1, a, p); MulDist(p, b, 1); }
  }

  /** More significant limbs means larger. */
  lemma LongerIsLarger(x: seq<limb>, i: nat, y: seq<limb>, j: nat)
    requires j < i <= |x| && j <= |y| && ZeroFrom(y, j) && x[i - 1] != 0 && ZeroFrom(x, i)
    ensures Val(x) > Val(y)
  {
    ValZeroFrom(x, i); ValZeroFrom(y, j);
    ValAtLeast(x[..i]); ValBound(y[..j]);
    BnMono(j, i - 1);
  }

  /** The scan shared by cmp_abs and cmp_mpi, below equal numbers of limbs. */
  method CompareLimbs(x: seq<limb>, y: seq<limb>, n: nat) returns (r: int)
    requires n <= |x| && n <= |y|
    ensures r == Sign(Val(x[..n]) - Val(y[..n]))
  {
    hide Val;
    var i := n;
    while i > 0
      invariant 0 <= i <= n && x[i..n] == y[i..n]
    {
      if x[i - 1] != y[i - 1] {
        CompareAt(x, y, i);
        CompareAbove(x, y, i, n);
        return if x[i - 1] > y[i - 1] then 1 else -1;
      }
      assert x[i - 1..n] == [x[i - 1]] + x[i..n] && y[i - 1..n] == [y[i - 1]] + y[i..n];
      i := i - 1;
    }
    assert x[..n] == x[0..n] && y[..n] == y[0..n];
    return 0;
  }

  lemma CompareAbove(x: seq<limb>, y: seq<limb>, i: nat, n: nat)
    requires i <= n <= |x| && n <= |y| && x[i..n] == y[i..n]
    ensures Val(x[..n]) - Val(y[..n]) == Val(x[..i]) - Val(y[..i])
  {
    ValSplit(x[..n], i); ValSplit(y[..n], i);
    assert x[..n][..i] == x[..i] && y[..n][..i] == y[..i];
    assert x[..n][i..] == x[i..n] && y[..n][i..] == y[i..n];
  }

  method CmpAbs(X: Mpi, Y: Mpi) returns (r: int)
    ensures r == Sign(X.Mag() - Y.Mag())
  {
    hide Val, Sig;
    var i := SigLimbs(X.p, 0);
    var j := SigLimbs(Y.p, 0);
    ValZeroFrom(X.p, i); ValZeroFrom(Y.p, j);
    if i == 0 && j == 0 { assert X.p[..0] == Y.p[..0]; return 0; }
    if i > j { LongerIsLarger(X.p, i, Y.p, j); return 1; }
    if j > i { LongerIsLarger(Y.p, j, X.p, i); return -1; }
    r := CompareLimbs(X.p, Y.p, i);
  }

  lemma SignedCompare(sx: int, x: int, sy: int, y: int)
    requires (sx == 1 || sx == -1) && (sy == 1 || sy == -1) && x >= 0 && y >= 0
    ensures x > y ==> Sign(sx * x - sy * y) == sx
    ensures x < y ==> Sign(sx * x - sy * y) == -sy
    ensures x > 0 && y > 0 && sx != sy ==> Sign(sx * x - sy * y) == sx
    ensures sx == sy ==> Sign(sx * x - sy * y) == sx * Sign(x - y)
    ensures x == 0 && y == 0 ==> Sign(sx * x - sy * y) == 0
  {}

  method CmpMpi(X: Mpi, Y: Mpi) returns (r: int)
    requires X.Valid() && Y.Valid()
    ensures r == Sign(X.Value() - Y.Value())
  {
    hide Val, Sign, Sig;
    var i := SigLimbs(X.p, 0);
    var j := SigLimbs(Y.p, 0);
    ValZeroFrom(X.p, i); ValZeroFrom(Y.p, j);
    SignedCompare(X.s, X.Mag(), Y.s, Y.Mag());
    if i == 0 && j == 0 {
      ValEmpty();
      return 0;
    }
    if i > j { LongerIsLarger(X.p, i, Y.p, j); return X.s; }
    if j > i { LongerIsLarger(Y.p, j, X.p, i); return -Y.s; }
    TopNonZero(X.p, i); TopNonZero(Y.p, j);
    if X.s > 0 && Y.s < 0 { return 1; }
    if Y.s > 0 && X.s < 0 { return -1; }
    var c := CompareLimbs(X.p, Y.p, i);
    r := if c > 0 then X.s else if c < 0 then -X.s else 0;
    SignCases(X.Mag() - Y.Mag());
  }

  lemma SignCases(x: int)
    ensures -1 <= Sign(x) <= 1
  {}

  lemma TopNonZero(p: seq<limb>, i: nat)
    requires 0 < i <= |p| && ZeroFrom(p, i) && p[i - 1] != 0
    ensures Val(p) > 0
  {
    ValZeroFrom(p, i);
    ValAtLeast(p[..i]);
  }
}
