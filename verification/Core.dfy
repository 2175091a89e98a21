/** bignum_core.c: carry chains and multiply-accumulate on limb arrays, in place.
    A C pointer to limbs is an array together with an offset.

    Every array method is proved to compute a function on limb sequences; what
    that function means as a number is a lemma about the function. */
module Core {
  import opened Arith
  import opened Limbs
  import opened MulAddc

  // ------------------------------------------- one step of a carry chain

  lemma AddStep(v: int, va: int, vb: int, p: int, t: int, a: int, b: int, c: int, c': int, base: int)
    requires v + c * p == va + vb
    requires t + c' * base == a + b + c
    ensures v + t * p + c' * (base * p) == va + a * p + vb + b * p
  {
    MulDist(p, t, c' * base); MulAssoc(c', base, p);
    MulDist(p, a + b, c); MulDist(p, a, b);
  }

  lemma SubStep(v: int, va: int, vb: int, p: int, t: int, a: int, b: int, c: int, c': int, base: int)
    requires v - c * p == va - vb
    requires t - c' * base == a - b - c
    ensures v + t * p - c' * (base * p) == va + a * p - vb - b * p
  {
    MulDist(p, t, -(c' * base)); MulAssoc(c', base, p);
    MulDist(p, a - b, -c); MulDist(p, a, -b);
    MulNeg(c' * base, p); MulNeg(c, p); MulNeg(b, p);
  }

  lemma MlaStep(v: int, vd: int, vs: int, p: int, d': int, d: int, s: int, b: int, c: int, c': int, base: int)
    requires v + c * p == vd + vs * b
    requires d' + c' * base == d + s * b + c
    ensures v + d' * p + c' * (base * p) == vd + d * p + (vs + s * p) * b
  {
    MulDist(p, d', c' * base); MulAssoc(c', base, p);
    MulDist(p, d + s * b, c); MulDist(p, d, s * b);
    MulDist(b, vs, s * p); MulAssoc(s, b, p); MulAssoc(s, p, b);
  }

  // ------------------------------------------------------------- addition

  /** One limb of an addition: the two comparisons of the source give the carry. */
  function AddLimb(a: limb, b: limb, c: limb): (r: (limb, limb))
    requires c <= 1
    ensures r.1 <= 1 && a + b + c == if r.1 == 0 then r.0 else r.0 + BASE
  {
    var t := AddW(c, a);
    var c1 := Bit(t < a);
    var u := AddW(t, b);
    (u, AddW(c1, Bit(u < b)))
  }

  /** Sum of the low n limbs of two operands, and the carry out. */
  function AddSeq(a: seq<limb>, b: seq<limb>, n: nat): (r: (seq<limb>, limb))
    requires n <= |a| && n <= |b|
    ensures |r.0| == n && r.1 <= 1
  {
    if n == 0 then ([], 0) else
      var (x, c) := AddSeq(a, b, n - 1);
      var (t, c') := AddLimb(a[n - 1], b[n - 1], c);
      (x + [t], c')
  }

  lemma {:induction false} AddSeqVal(a: seq<limb>, b: seq<limb>, n: nat)
    requires n <= |a| && n <= |b|
    ensures Val(AddSeq(a, b, n).0) + AddSeq(a, b, n).1 * Bn(n) == Val(a[..n]) + Val(b[..n])
  {
    hide Val, Bn, Pow;
    if n == 0 {
      ValEmpty();
    } else {
      var k := n - 1;
      AddSeqVal(a, b, k);
      var (x, c) := AddSeq(a, b, k);
      var (t, c') := AddLimb(a[k], b[k], c);
      ValSnoc(x, t); BnStep(k); ValTake(a, k); ValTake(b, k);
      AddStep(Val(x), Val(a[..k]), Val(b[..k]), Bn(k), t, a[k], b[k], c, c', BASE);
    }
  }

  method CoreAdd(X: array<limb>, xo: nat, A: array<limb>, ao: nat, B: array<limb>, bo: nat, n: nat)
    returns (c: limb)
    requires Fits(X, xo, n) && Fits(A, ao, n) && Fits(B, bo, n)
    requires Alias(X, xo, A, ao, n) && Alias(X, xo, B, bo, n)
    modifies X
    ensures OnlyWrote(X, xo, n)
    ensures (X[xo..xo + n], c) == old(AddSeq(A[ao..ao + n], B[bo..bo + n], n))
  {
    hide AddLimb, SubLimb;
    ghost var a, b := A[ao..ao + n], B[bo..bo + n];
    c := 0;
    for i := 0 to n
      invariant OnlyWrote(X, xo, i)
      invariant c == AddSeq(a, b, i).1
      invariant forall k :: 0 <= k < i ==> X[xo + k] == AddSeq(a, b, i).0[k]
    {
      assert A[ao + i] == a[i] && B[bo + i] == b[i];
      var r := AddLimb(A[ao + i], B[bo + i], c);
      X[xo + i] := r.0;
      c := r.1;
    }
    assert X[xo..xo + n] == AddSeq(a, b, n).0;
  }

  /** mbedtls_ct_mpi_uint_mask: all bits set unless the argument is zero. */
  function Mask(v: limb): limb { if v == 0 then 0 else BASE - 1 }

  lemma MaskAnd(x: limb, v: limb)
    ensures BitAnd(x, Mask(v)) == if v == 0 then 0 else x
  {
    if v != 0 {
      BitAndMask(x, BI_L);
      ModSmall(x, BASE);
    }
  }

  /** ~mask */
  function NotW(x: limb): limb { BASE - 1 - x }

  /** (src & mask) | (dest & ~mask) picks src when the condition is 1, else dest. */
  lemma MaskSelect(src: limb, dest: limb, cond: limb)
    requires cond <= 1
    ensures BitOr(BitAnd(src, Mask(cond)), BitAnd(dest, NotW(Mask(cond)))) == if cond == 1 then src else dest
  {
    MaskAnd(src, cond);
    MaskAnd(dest, 1 - cond);
    BitOrZero(src); BitOrZero(dest);
  }

  /** mbedtls_ct_mpi_uint_cond_assign */
  method CondAssign(n: nat, X: array<limb>, xo: nat, A: array<limb>, ao: nat, cond: limb)
    requires Fits(X, xo, n) && Fits(A, ao, n) && Alias(X, xo, A, ao, n) && cond <= 1
    modifies X
    ensures OnlyWrote(X, xo, n)
    ensures X[xo..xo + n] == old(if cond == 1 then A[ao..ao + n] else X[xo..xo + n])
  {
    hide BitAnd, BitOr;
    ghost var r := if cond == 1 then A[ao..ao + n] else X[xo..xo + n];
    var mask := Mask(cond);
    for i := 0 to n
      invariant OnlyWrote(X, xo, i)
      invariant forall k :: 0 <= k < i ==> X[xo + k] == r[k]
    {
      MaskSelect(A[ao + i], X[xo + i], cond);
      X[xo + i] := BitOr(BitAnd(A[ao + i], mask), BitAnd(X[xo + i], NotW(mask)));
    }
  }

  function Zeros(n: nat): (z: seq<limb>)
    ensures |z| == n && forall i :: 0 <= i < n ==> z[i] == 0
  {
    seq(n, _ => 0)
  }

  /** memset of n limbs to zero. */
  method MemZero(X: array<limb>, xo: nat, n: nat)
    requires Fits(X, xo, n)
    modifies X
    ensures OnlyWrote(X, xo, n)
    ensures forall k :: xo <= k < xo + n ==> X[k] == 0
  {
    for i := 0 to n
      invariant OnlyWrote(X, xo, i)
      invariant forall k :: xo <= k < xo + i ==> X[k] == 0
    {
      X[xo + i] := 0;
    }
  }

  /** memcpy of n limbs. */
  method MemCopy(X: array<limb>, xo: nat, A: array<limb>, ao: nat, n: nat)
    requires Fits(X, xo, n) && Fits(A, ao, n) && Alias(X, xo, A, ao, n)
    modifies X
    ensures OnlyWrote(X, xo, n)
    ensures X[xo..xo + n] == old(A[ao..ao + n])
  {
    ghost var a := A[ao..ao + n];
    for i := 0 to n
      invariant OnlyWrote(X, xo, i)
      invariant forall k :: 0 <= k < i ==> X[xo + k] == a[k]
    {
      assert A[ao + i] == a[i];
      X[xo + i] := A[ao + i];
    }
  }

  /** X + A when the condition holds, X otherwise. */
  function AddIfSeq(x: seq<limb>, a: seq<limb>, n: nat, cond: limb): (seq<limb>, limb)
    requires n == |x| == |a|
  {
    if cond == 0 then (x, 0) else AddSeq(x, a, n)
  }

  lemma {:induction false} AddSeqZeros(x: seq<limb>, z: seq<limb>, n: nat)
    requires n <= |x| && n <= |z| && forall i :: 0 <= i < n ==> z[i] == 0
    ensures AddSeq(x, z, n) == (x[..n], 0)
  {
    if n > 0 {
      AddSeqZeros(x, z, n - 1);
      assert x[..n] == x[..n - 1] + [x[n - 1]];
    }
  }

  method CoreAddIf(X: array<limb>, xo: nat, A: array<limb>, ao: nat, n: nat, cond: limb)
    returns (c: limb)
    requires Fits(X, xo, n) && Fits(A, ao, n) && Alias(X, xo, A, ao, n)
    modifies X
    ensures OnlyWrote(X, xo, n)
    ensures (X[xo..xo + n], c) == old(AddIfSeq(X[xo..xo + n], A[ao..ao + n], n, cond))
  {
    hide AddLimb, BitAnd;
    ghost var x, a := X[xo..xo + n], A[ao..ao + n];
    ghost var b := if cond == 0 then Zeros(n) else a;
    c := 0;
    var mask := Mask(cond);
    for i := 0 to n
      invariant OnlyWrote(X, xo, i)
      invariant c == AddSeq(x, b, i).1
      invariant forall k :: 0 <= k < i ==> X[xo + k] == AddSeq(x, b, i).0[k]
    {
      assert X[xo + i] == x[i] && A[ao + i] == a[i];
      MaskAnd(A[ao + i], cond);
      var add: limb := BitAnd(A[ao + i], mask);
      var r := AddLimb(X[xo + i], add, c);
      X[xo + i] := r.0;
      c := r.1;
    }
    assert X[xo..xo + n] == AddSeq(x, b, n).0;
    if cond == 0 {
      AddSeqZeros(x, b, n);
      assert x[..n] == x;
    }
  }

  // ---------------------------------------------------------- subtraction

  function SubLimb(a: limb, b: limb, c: limb): (r: (limb, limb))
    requires c <= 1
    ensures r.1 <= 1 && a - b - c == if r.1 == 0 then r.0 else r.0 - BASE
  {
    var z := Bit(a < c);
    var t := SubW(a, c);
    (SubW(t, b), AddW(Bit(t < b), z))
  }

  /** Difference of the low n limbs, and the borrow. */
  function SubSeq(a: seq<limb>, b: seq<limb>, n: nat): (r: (seq<limb>, limb))
    requires n <= |a| && n <= |b|
    ensures |r.0| == n && r.1 <= 1
  {
    if n == 0 then ([], 0) else
      var (x, c) := SubSeq(a, b, n - 1);
      var (t, c') := SubLimb(a[n - 1], b[n - 1], c);
      (x + [t], c')
  }

  lemma {:induction false} SubSeqVal(a: seq<limb>, b: seq<limb>, n: nat)
    requires n <= |a| && n <= |b|
    ensures Val(SubSeq(a, b, n).0) - SubSeq(a, b, n).1 * Bn(n) == Val(a[..n]) - Val(b[..n])
  {
    hide Val, Bn, Pow;
    if n == 0 {
      ValEmpty();
    } else {
      var k := n - 1;
      SubSeqVal(a, b, k);
      var (x, c) := SubSeq(a, b, k);
      var (t, c') := SubLimb(a[k], b[k], c);
      ValSnoc(x, t); BnStep(k); ValTake(a, k); ValTake(b, k);
      SubStep(Val(x), Val(a[..k]), Val(b[..k]), Bn(k), t, a[k], b[k], c, c', BASE);
    }
  }

  /** The borrow tells exactly whether the subtraction went below zero. */
  lemma SubBorrow(a: seq<limb>, b: seq<limb>, n: nat)
    requires n <= |a| && n <= |b|
    ensures SubSeq(a, b, n).1 == 0 ==>
      Val(a[..n]) >= Val(b[..n]) && Val(SubSeq(a, b, n).0) == Val(a[..n]) - Val(b[..n])
    ensures SubSeq(a, b, n).1 == 1 ==>
      Val(a[..n]) < Val(b[..n]) && Val(SubSeq(a, b, n).0) == Val(a[..n]) - Val(b[..n]) + Bn(n)
  {
    hide Val, Bn, Pow;
    SubSeqVal(a, b, n);
    ValBound(SubSeq(a, b, n).0);
    BorrowCases(Val(SubSeq(a, b, n).0), SubSeq(a, b, n).1, Bn(n), Val(a[..n]) - Val(b[..n]));
  }

  lemma BorrowCases(v: int, c: int, p: int, diff: int)
    requires v - c * p == diff && 0 <= v < p && 0 <= c <= 1
    ensures c == 0 ==> diff == v >= 0
    ensures c == 1 ==> diff == v - p < 0
  {}

  method CoreSub(X: array<limb>, xo: nat, A: array<limb>, ao: nat, B: array<limb>, bo: nat, n: nat)
    returns (c: limb)
    requires Fits(X, xo, n) && Fits(A, ao, n) && Fits(B, bo, n)
    requires Alias(X, xo, A, ao, n) && Alias(X, xo, B, bo, n)
    modifies X
    ensures OnlyWrote(X, xo, n)
    ensures (X[xo..xo + n], c) == old(SubSeq(A[ao..ao + n], B[bo..bo + n], n))
  {
    hide AddLimb, SubLimb;
    ghost var a, b := A[ao..ao + n], B[bo..bo + n];
    c := 0;
    for i := 0 to n
      invariant OnlyWrote(X, xo, i)
      invariant c == SubSeq(a, b, i).1
      invariant forall k :: 0 <= k < i ==> X[xo + k] == SubSeq(a, b, i).0[k]
    {
      assert A[ao + i] == a[i] && B[bo + i] == b[i];
      var r := SubLimb(A[ao + i], B[bo + i], c);
      X[xo + i] := r.0;
      c := r.1;
    }
    assert X[xo..xo + n] == SubSeq(a, b, n).0;
  }

  /** A single limb c taken off the low n limbs of a; the borrow ripples up. */
  function SubIntSeq(a: seq<limb>, c: limb, n: nat): (r: (seq<limb>, limb))
    requires n <= |a|
    ensures |r.0| == n && (n > 0 ==> r.1 <= 1)
  {
    if n == 0 then ([], c) else
      var (x, k) := SubIntSeq(a, c, n - 1);
      var t := SubW(a[n - 1], k);
      (x + [t], Bit(t > a[n - 1]))
  }

  lemma {:induction false} SubIntSeqVal(a: seq<limb>, c: limb, n: nat)
    requires n <= |a|
    ensures Val(SubIntSeq(a, c, n).0) - SubIntSeq(a, c, n).1 * Bn(n) == Val(a[..n]) - c
  {
    hide Val, Bn, Pow;
    if n == 0 {
      BnStep(0); ValEmpty();
    } else {
      var k := n - 1;
      SubIntSeqVal(a, c, k);
      var (x, b) := SubIntSeq(a, c, k);
      var t := SubW(a[k], b);
      var b' := Bit(t > a[k]);
      ValSnoc(x, t); BnStep(k); ValTake(a, k);
      SubStep(Val(x), Val(a[..k]), c, Bn(k), t, a[k], 0, b, b', BASE);
    }
  }

  method CoreSubInt(X: array<limb>, xo: nat, A: array<limb>, ao: nat, b: limb, n: nat)
    returns (c: limb)
    requires Fits(X, xo, n) && Fits(A, ao, n) && Alias(X, xo, A, ao, n)
    modifies X
    ensures OnlyWrote(X, xo, n)
    ensures (X[xo..xo + n], c) == old(SubIntSeq(A[ao..ao + n], b, n))
  {
    ghost var a := A[ao..ao + n];
    c := b;
    for i := 0 to n
      invariant OnlyWrote(X, xo, i)
      invariant c == SubIntSeq(a, b, i).1
      invariant forall k :: 0 <= k < i ==> X[xo + k] == SubIntSeq(a, b, i).0[k]
    {
      var s := A[ao + i];
      assert s == a[i];
      var t := SubW(s, c);
      c := Bit(t > s);
      X[xo + i] := t;
    }
    assert X[xo..xo + n] == SubIntSeq(a, b, n).0;
  }

  // -------------------------------------------------- multiply-accumulate

  /** Low i limbs of d + s*b: s is multiplied while it lasts, then the carry
      ripples through the rest of d. */
  function MlaSeq(d: seq<limb>, s: seq<limb>, b: limb, i: nat): (r: (seq<limb>, limb))
    requires i <= |d|
    ensures |r.0| == i
  {
    if i == 0 then ([], 0) else
      var (x, c) := MlaSeq(d, s, b, i - 1);
      if i <= |s| then
        var (t, c') := MulAddLimb(s[i - 1], d[i - 1], b, c);
        (x + [t], c')
      else
        var t := AddW(d[i - 1], c);
        (x + [t], Bit(t < c))
  }

  /** How much of s the first i limbs of d have seen. */
  function Seen(s: seq<limb>, i: nat): seq<limb> { if i <= |s| then s[..i] else s }

  /** The accumulation is exact up to limb i. */
  ghost predicate MlaExact(d: seq<limb>, s: seq<limb>, b: limb, i: nat)
    requires i <= |d|
  {
    Val(MlaSeq(d, s, b, i).0) + MlaSeq(d, s, b, i).1 * Bn(i) == Val(d[..i]) + Val(Seen(s, i)) * b
  }

  lemma {:induction false} MlaSeqVal(d: seq<limb>, s: seq<limb>, b: limb, i: nat)
    requires i <= |d|
    ensures MlaExact(d, s, b, i)
  {
    hide Val, Bn, Pow;
    if i == 0 {
      assert Seen(s, 0) == [] && d[..0] == [];
      ValEmpty();
    } else {
      MlaSeqVal(d, s, b, i - 1);
      if i <= |s| { MlaMulStep(d, s, b, i - 1); } else { MlaCarryStep(d, s, b, i - 1); }
    }
  }

  lemma MlaMulStep(d: seq<limb>, s: seq<limb>, b: limb, k: nat)
    requires k < |d| && k < |s|
    requires MlaExact(d, s, b, k)
    ensures MlaExact(d, s, b, k + 1)
  {
    hide Val, Bn, Pow;
    var (x, c) := MlaSeq(d, s, b, k);
    var (t, c') := MulAddLimb(s[k], d[k], b, c);
    BodiesAgree(s[k], d[k], b, c);
    assert t + c' * BASE == d[k] + s[k] * b + c;
    BnStep(k); ValTake(d, k); ValSnoc(x, t); ValTake(s, k);
    MlaStep(Val(x), Val(d[..k]), Val(s[..k]), Bn(k), t, d[k], s[k], b, c, c', BASE);
  }

  lemma MlaCarryStep(d: seq<limb>, s: seq<limb>, b: limb, k: nat)
    requires |s| <= k < |d|
    requires MlaExact(d, s, b, k)
    ensures MlaExact(d, s, b, k + 1)
  {
    hide Val, Bn, Pow;
    assert s[..|s|] == s;
    var (x, c) := MlaSeq(d, s, b, k);
    var t := AddW(d[k], c);
    CarryOut(d[k], c);
    BnStep(k); ValTake(d, k); ValSnoc(x, t);
    AddStep(Val(x), Val(d[..k]), Val(s) * b, Bn(k), t, d[k], 0, c, Bit(t < c), BASE);
  }

  /** When the true sum fits, all of it is in d and the carry is zero. */
  lemma MlaFits(d: seq<limb>, s: seq<limb>, b: limb)
    requires |s| <= |d| && Val(d) + Val(s) * b < Bn(|d|)
    ensures Val(MlaSeq(d, s, b, |d|).0) == Val(d) + Val(s) * b && MlaSeq(d, s, b, |d|).1 == 0
  {
    MlaSeqVal(d, s, b, |d|);
    assert d[..|d|] == d && Seen(s, |d|) == s;
    hide Val, Bn, Pow, MlaSeq;
    MulMono(if MlaSeq(d, s, b, |d|).1 == 0 then 0 else 1, MlaSeq(d, s, b, |d|).1, Bn(|d|));
  }

  /** The state of the accumulation when the pointers have moved i limbs. */
  ghost predicate MlaAt(d: array<limb>, o: nat, d0: seq<limb>, s0: seq<limb>, b: limb, i: nat, c: limb)
    reads d
  {
    && i <= |d0| && Fits(d, o, |d0|)
    && c == MlaSeq(d0, s0, b, i).1
    && (forall k :: 0 <= k < i ==> d[o + k] == MlaSeq(d0, s0, b, i).0[k])
    && (forall k :: i <= k < |d0| ==> d[o + k] == d0[k])
  }

  /** s still holds s0 from limb i on. */
  ghost predicate SourceAt(s: array<limb>, so: nat, s0: seq<limb>, i: nat)
    reads s
  {
    Fits(s, so, |s0|) && forall k :: i <= k < |s0| ==> s[so + k] == s0[k]
  }

  /** MULADDC_X1_CORE */
  method MulAddcX1(d: array<limb>, o: nat, s: array<limb>, so: nat, b: limb, c: limb, i: nat,
                   ghost d0: seq<limb>, ghost s0: seq<limb>)
    returns (c': limb)
    requires i < |s0| <= |d0| && MlaAt(d, o, d0, s0, b, i, c) && SourceAt(s, so, s0, i)
    requires s != d || so == o || Apart(d, o, |d0|, s, so, |s0|)
    modifies d
    ensures MlaAt(d, o, d0, s0, b, i + 1, c') && SourceAt(s, so, s0, i + 1)
    ensures OnlyWrote(d, o, |d0|)
  {
    assert s[so + i] == s0[i] && d[o + i] == d0[i];
    var r := MulAddLimb(s[so + i], d[o + i], b, c);
    d[o + i] := r.0;
    c' := r.1;
  }

  method MulAddcX2(d: array<limb>, o: nat, s: array<limb>, so: nat, b: limb, c: limb, i: nat,
                   ghost d0: seq<limb>, ghost s0: seq<limb>)
    returns (c': limb)
    requires i + 2 <= |s0| <= |d0| && MlaAt(d, o, d0, s0, b, i, c) && SourceAt(s, so, s0, i)
    requires s != d || so == o || Apart(d, o, |d0|, s, so, |s0|)
    modifies d
    ensures MlaAt(d, o, d0, s0, b, i + 2, c') && SourceAt(s, so, s0, i + 2)
    ensures OnlyWrote(d, o, |d0|)
  {
    c' := MulAddcX1(d, o, s, so, b, c, i, d0, s0);
    c' := MulAddcX1(d, o, s, so, b, c', i + 1, d0, s0);
  }

  method MulAddcX4(d: array<limb>, o: nat, s: array<limb>, so: nat, b: limb, c: limb, i: nat,
                   ghost d0: seq<limb>, ghost s0: seq<limb>)
    returns (c': limb)
    requires i + 4 <= |s0| <= |d0| && MlaAt(d, o, d0, s0, b, i, c) && SourceAt(s, so, s0, i)
    requires s != d || so == o || Apart(d, o, |d0|, s, so, |s0|)
    modifies d
    ensures MlaAt(d, o, d0, s0, b, i + 4, c') && SourceAt(s, so, s0, i + 4)
    ensures OnlyWrote(d, o, |d0|)
  {
    c' := MulAddcX2(d, o, s, so, b, c, i, d0, s0);
    c' := MulAddcX2(d, o, s, so, b, c', i + 2, d0, s0);
  }

  method MulAddcX8(d: array<limb>, o: nat, s: array<limb>, so: nat, b: limb, c: limb, i: nat,
                   ghost d0: seq<limb>, ghost s0: seq<limb>)
    returns (c': limb)
    requires i + 8 <= |s0| <= |d0| && MlaAt(d, o, d0, s0, b, i, c) && SourceAt(s, so, s0, i)
    requires s != d || so == o || Apart(d, o, |d0|, s, so, |s0|)
    modifies d
    ensures MlaAt(d, o, d0, s0, b, i + 8, c') && SourceAt(s, so, s0, i + 8)
    ensures OnlyWrote(d, o, |d0|)
  {
    c' := MulAddcX4(d, o, s, so, b, c, i, d0, s0);
    c' := MulAddcX4(d, o, s, so, b, c', i + 4, d0, s0);
  }

  /** The first two loops: all of s, eight limbs at a time and then one by one. */
  method MlaMultiply(d: array<limb>, o: nat, s: array<limb>, so: nat, m: nat, b: limb,
                     ghost d0: seq<limb>, ghost s0: seq<limb>)
    returns (c: limb)
    requires m == |s0| <= |d0| && MlaAt(d, o, d0, s0, b, 0, 0) && SourceAt(s, so, s0, 0)
    requires s != d || so == o || Apart(d, o, |d0|, s, so, |s0|)
    modifies d
    ensures MlaAt(d, o, d0, s0, b, m, c) && OnlyWrote(d, o, |d0|)
  {
    hide MlaSeq;
    c := 0;
    var stepsX8: nat, stepsX1: nat, i: nat := m / 8, m % 8, 0;
    while stepsX8 > 0
      invariant i + 8 * stepsX8 + stepsX1 == m
      invariant MlaAt(d, o, d0, s0, b, i, c) && SourceAt(s, so, s0, i) && OnlyWrote(d, o, |d0|)
    {
      stepsX8 := stepsX8 - 1;
      c := MulAddcX8(d, o, s, so, b, c, i, d0, s0);
      i := i + 8;
    }
    while stepsX1 > 0
      invariant i + stepsX1 == m
      invariant MlaAt(d, o, d0, s0, b, i, c) && SourceAt(s, so, s0, i) && OnlyWrote(d, o, |d0|)
    {
      stepsX1 := stepsX1 - 1;
      c := MulAddcX1(d, o, s, so, b, c, i, d0, s0);
      i := i + 1;
    }
  }

  /** The last loop: the carry runs through the limbs of d beyond s. */
  method MlaExcess(d: array<limb>, o: nat, c0: limb, m: nat, dLen: nat, ghost b: limb,
                   ghost d0: seq<limb>, ghost s0: seq<limb>)
    returns (c: limb)
    requires |s0| == m <= dLen == |d0| && MlaAt(d, o, d0, s0, b, m, c0)
    modifies d
    ensures MlaAt(d, o, d0, s0, b, dLen, c) && OnlyWrote(d, o, dLen)
  {
    c := c0;
    var excess: nat, i: nat := dLen - m, m;
    while excess > 0
      invariant m <= i && i + excess == dLen
      invariant MlaAt(d, o, d0, s0, b, i, c) && OnlyWrote(d, o, dLen)
    {
      excess := excess - 1;
      c := CarryInto(d, o, c, i, b, d0, s0);
      i := i + 1;
    }
  }

  /** d += s*b over dLen limbs; s is cut to dLen limbs. */
  method CoreMla(d: array<limb>, o: nat, dLen: nat, s: array<limb>, so: nat, sLen: nat, b: limb)
    returns (c: limb)
    requires Fits(d, o, dLen) && Fits(s, so, Min(sLen, dLen))
    requires s != d || so == o || Apart(d, o, dLen, s, so, Min(sLen, dLen))
    modifies d
    ensures OnlyWrote(d, o, dLen)
    ensures (d[o..o + dLen], c) == old(MlaSeq(d[o..o + dLen], s[so..so + Min(sLen, dLen)], b, dLen))
  {
    var m := if dLen < sLen then dLen else sLen;
    ghost var d0, s0 := d[o..o + dLen], s[so..so + m];
    c := MlaMultiply(d, o, s, so, m, b, d0, s0);
    c := MlaExcess(d, o, c, m, dLen, b, d0, s0);
    assert d[o..o + dLen] == MlaSeq(d0, s0, b, dLen).0;
  }

  /** One step of the final loop: the carry goes into a limb and comes out again. */
  method CarryInto(d: array<limb>, o: nat, c: limb, i: nat, ghost b: limb,
                   ghost d0: seq<limb>, ghost s0: seq<limb>)
    returns (c': limb)
    requires |s0| <= i < |d0| && MlaAt(d, o, d0, s0, b, i, c)
    modifies d
    ensures MlaAt(d, o, d0, s0, b, i + 1, c') && OnlyWrote(d, o, |d0|)
  {
    assert d[o + i] == d0[i];
    d[o + i] := AddW(d[o + i], c);
    c' := Bit(d[o + i] < c);
  }
}
