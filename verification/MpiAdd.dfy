/** bignum.c: unsigned and signed addition and subtraction of Mpi objects. */
module MpiAdd {
  import opened Arith
  import opened Limbs
  import opened Core
  import opened MulAddc
  import opened ReturnCodes
  import opened MpiObject

  /** The range of mbedtls_mpi_sint. */
  predicate IsSint(z: int) { -(BASE / 2) <= z < BASE / 2 }

  /** mpi_sint_abs: 0 - (mbedtls_mpi_uint) z, right for the most negative value too. */
  function SintAbs(z: int): (r: limb)
    requires IsSint(z)
    ensures r == if z < 0 then -z else z
  {
    BaseEven();
    if z >= 0 then z else SubW(0, z + BASE)
  }

  /** An on-stack MPI of one limb. */
  method Small(z: int) returns (Y: Mpi)
    requires IsSint(z)
    ensures fresh(Y) && Y.Valid() && Y.Value() == z && |Y.p| == 1
  {
    Y := new Mpi();
    Y.p := [SintAbs(z)];
    Y.s := if z < 0 then -1 else 1;
    ValOne(Y.p);
  }

  method Lset(X: Mpi, z: int)
    requires X.Valid() && IsSint(z)
    modifies X
    ensures X.Valid() && X.Value() == z && X.s == (if z < 0 then -1 else 1)
    ensures X.p == [SintAbs(z)] + Zeros(Max(old(|X.p|), 1) - 1)
  {
    hide Val;
    var st := Grow(X, 1);
    X.p := [SintAbs(z)] + Zeros(|X.p| - 1);
    X.s := if z < 0 then -1 else 1;
    ValPad([SintAbs(z)], |X.p| - 1);
    ValOne([SintAbs(z)]);
  }

  method CmpInt(X: Mpi, z: int) returns (r: int)
    requires X.Valid() && IsSint(z)
    ensures r == Sign(X.Value() - z)
  {
    var Y := Small(z);
    r := CmpMpi(X, Y);
  }

  // ------------------------------------------------------- unsigned addition

  /** The low limbs added, the rest of the buffer kept. */
  lemma AddLowVal(x: seq<limb>, b: seq<limb>, j: nat)
    requires j <= |x| && j <= |b| && ZeroFrom(b, j)
    ensures var (r, c) := AddSeq(x, b, j);
      Val(r + x[j..]) + c * Bn(j) == Val(x) + Val(b)
  {
    hide Val, Bn, Pow, AddSeq;
    var (r, c) := AddSeq(x, b, j);
    AddSeqVal(x, b, j);
    ValConcat(r, x[j..]); ValSplit(x, j);
    ValZeroFrom(b, j);
  }

  /** A carry c into limb j, and the carry out of it. */
  lemma CarryVal(p: seq<limb>, c: limb, j: nat)
    requires j < |p|
    ensures var t := AddW(p[j], c);
      Val(p[j := t]) + Bit(t < c) * Bn(j + 1) == Val(p) + c * Bn(j)
  {
    var t := AddW(p[j], c);
    CarryOut(p[j], c);
    ValUpdate(p, j, t); BnStep(j);
    hide Val, Bn, Pow;
    CarryArith(p[j], c, t, Bit(t < c), BASE, Bn(j));
  }

  lemma CarryArith(d: int, c: int, t: int, c': int, m: int, p: int)
    requires t + (if c' == 0 then 0 else m) == d + c && 0 <= c' <= 1
    ensures (t - d) * p + c' * (m * p) == c * p
  {
    MulDist(p, t, -d); MulNeg(d, p);
    MulDist(p, t, c' * m); MulAssoc(c', m, p);
    MulDist(p, d, c);
  }

  /** The final loop of add_abs: the carry moves up, growing X if it must. */
  method PropagateCarry(X: Mpi, j0: nat, c0: limb) returns (st: Status)
    requires X.Valid() && c0 <= 1 && j0 <= |X.p|
    modifies X
    ensures X.Valid() && X.s == old(X.s)
    ensures st.Ok? ==> X.Mag() == old(X.Mag()) + c0 * Bn(j0)
    ensures st.Fail? ==> st.code == ERR_ALLOC_FAILED && old(|X.p|) == MAX_LIMBS
    ensures old(|X.p|) <= |X.p| <= old(|X.p|) + 1
    ensures st.Fail? || |X.p| > old(|X.p|) ==> old(X.Mag()) + c0 * Bn(j0) >= Bn(old(|X.p|))
  {
    hide Val, Bn, Pow;
    ghost var sum := X.Mag() + c0 * Bn(j0);
    var j, c := j0, c0;
    while c != 0
      invariant X.Valid() && X.s == old(X.s) && j <= |X.p| && 0 <= c <= 1
      invariant X.Mag() + c * Bn(j) == sum
      invariant |X.p| == old(|X.p|) || (|X.p| == old(|X.p|) + 1 && c == 0 && sum >= Bn(old(|X.p|)))
      decreases MAX_LIMBS + 1 - j
    {
      if j >= |X.p| {
        :- Grow(X, j + 1);
      }
      CarryVal(X.p, c, j);
      var t := AddW(X.p[j], c);
      X.p := X.p[j := t];
      c := Bit(t < c);
      j := j + 1;
    }
    return Ok;
  }

  /** The in-place part of add_abs: |X| += |B|, B possibly being X. */
  method AddInto(X: Mpi, B: Mpi) returns (st: Status)
    requires X.Valid() && B.Valid()
    modifies X
    ensures X.Valid()
    ensures st.Ok? ==> X.s == 1 && X.Mag() == old(X.Mag() + B.Mag())
    ensures st.Fail? ==> st.code == ERR_ALLOC_FAILED && old(Max(|X.p|, |B.p|)) == MAX_LIMBS
    ensures old(|X.p|) <= |X.p| <= old(Max(|X.p|, |B.p|)) + 1
    ensures st.Fail? || |X.p| > old(Max(|X.p|, |B.p|)) ==> old(X.Mag() + B.Mag()) >= Bn(old(Max(|X.p|, |B.p|)))
  {
    hide Val, Bn, Pow, AddSeq, Sig;
    X.s := 1;
    var j := SigLimbs(B.p, 0);
    if j == 0 {
      ValZeroFrom(B.p, 0); ValEmpty();
      return Ok;
    }
    :- Grow(X, j);
    AddLowVal(X.p, B.p, j);
    var (r, c) := AddSeq(X.p, B.p, j);
    X.p := r + X.p[j..];
    :- PropagateCarry(X, j, c);
    return Ok;
  }

  method AddAbs(X: Mpi, A0: Mpi, B0: Mpi) returns (st: Status)
    requires X.Valid() && A0.Valid() && B0.Valid()
    modifies X
    ensures X.Valid()
    ensures st.Ok? ==> X.s == 1 && X.Mag() == old(A0.Mag() + B0.Mag())
    ensures st.Fail? ==> st.code == ERR_ALLOC_FAILED && old(Max(|X.p|, Max(|A0.p|, |B0.p|))) == MAX_LIMBS
    ensures old(|X.p|) <= |X.p| <= old(Max(|X.p|, Max(|A0.p|, |B0.p|))) + 1
    ensures st.Fail? || |X.p| > old(Max(|X.p|, Max(|A0.p|, |B0.p|))) ==> old(A0.Mag() + B0.Mag()) >= Bn(old(Max(|X.p|, Max(|A0.p|, |B0.p|))))
  {
    hide Val, Sig, Bn;
    var A, B := A0, B0;
    if X == B { A, B := X, A; }
    if X != A { Copy(X, A); }
    st := AddInto(X, B);
  }

  // ---------------------------------------------------- unsigned subtraction

  /** The buffer sub_abs leaves, and the final borrow: low n limbs from the
      subtraction, the borrow taken off the rest of A padded to the size of X. */
  function SubBuffer(a: seq<limb>, b: seq<limb>, n: nat, size: nat): (r: (seq<limb>, limb))
    requires n <= |a| <= size && n <= |b|
    ensures |r.0| == size
  {
    var (lo, c) := SubSeq(a, b, n);
    var hi := a[n..] + Zeros(size - |a|);
    if c == 0 then (lo + hi, 0) else
      var (h, c') := SubIntSeq(hi, c, |hi|);
      (lo + h, c')
  }

  lemma SubBufferVal(a: seq<limb>, b: seq<limb>, n: nat, size: nat)
    requires n <= |a| <= size && n <= |b| && ZeroFrom(b, n)
    ensures SubBuffer(a, b, n, size).1 == 0 <==> Val(a) >= Val(b)
    ensures SubBuffer(a, b, n, size).1 == 0 ==> Val(SubBuffer(a, b, n, size).0) == Val(a) - Val(b)
  {
    var (lo, c) := SubSeq(a, b, n);
    var hi := a[n..] + Zeros(size - |a|);
    var (h, c') := SubIntSeq(hi, c, |hi|);
    hide Val, Bn, Pow, SubSeq, SubIntSeq;
    ValZeroFrom(b, n); ValSplit(a, n); ValPad(a[n..], size - |a|);
    SubSeqVal(a, b, n);
    ValBound(lo);
    if c == 0 {
      ValConcat(lo, hi);
      SubNoBorrow(Val(lo), Bn(n), Val(a[..n]), Val(b), Val(hi));
    } else {
      SubIntSeqVal(hi, c, |hi|);
      ValConcat(lo, h);
      assert hi[..|hi|] == hi;
      ValBound(h);
      SubBufferArith(Val(lo), Bn(n), Val(a[..n]), Val(b), Val(hi), Val(h), c', Bn(|hi|));
    }
  }

  lemma SubNoBorrow(lo: int, p: int, al: int, vb: int, hi: int)
    requires lo - 0 * p == al - vb && 0 <= lo && 0 <= hi && 0 <= p
    ensures lo + p * hi == al + p * hi - vb >= 0
  {
    MulMono(0, hi, p);
  }

  lemma SubBufferArith(lo: int, p: int, al: int, vb: int, hi: int, h: int, c: int, ph: int)
    requires lo - 1 * p == al - vb && h - c * ph == hi - 1 && 0 <= c
    requires 0 <= lo < p && 0 <= h < ph && 0 <= hi
    ensures c == 0 ==> lo + p * h == al + p * hi - vb >= 0
    ensures c != 0 ==> al + p * hi - vb < 0
  {
    if c == 0 {
      MulDist(p, hi, -1); MulMono(0, h, p);
    } else {
      MulMono(1, c, ph);
      assert hi == 0;
    }
  }

  /** Give X the high limbs of A, zeros above; its low n limbs stay, because they
      may be those of B. */
  method SetHighLimbs(X: Mpi, A: Mpi, n: nat)
    requires X.Valid() && A.Valid() && n <= |A.p|
    modifies X
    ensures X.Valid() && |X.p| == old(Max(|X.p|, |A.p|))
    ensures X.p[n..] == old(A.p[n..]) + Zeros(|X.p| - old(|A.p|))
    ensures old(|X.p|) >= n ==> X.p[..n] == old(X.p[..n])
  {
    hide Val;
    var an := |A.p|;
    var g := Grow(X, an);
    if an > n && A != X {
      X.p := X.p[..n] + A.p[n..] + X.p[an..];
    }
    if |X.p| > an {
      X.p := X.p[..an] + Zeros(|X.p| - an);
    }
  }

  method SubAbs(X: Mpi, A: Mpi, B: Mpi) returns (st: Status)
    requires X.Valid() && A.Valid() && B.Valid()
    modifies X
    ensures X.Valid() && old(|X.p|) <= |X.p| <= old(Max(|X.p|, |A.p|))
    ensures st.Ok? ==> |X.p| == old(Max(|X.p|, |A.p|))
    ensures st == if old(A.Mag() >= B.Mag()) then Ok else Fail(ERR_NEGATIVE_VALUE)
    ensures st.Ok? ==> X.s == 1 && X.Mag() == old(A.Mag() - B.Mag())
  {
    hide Val, Bn, Pow, SubBuffer, SubSeq, SubIntSeq, Sig;
    ghost var a, b := A.p, B.p;
    var n := SigLimbs(B.p, 0);
    if n > |A.p| {
      TooLong(A.p, B.p, n);
      return Fail(ERR_NEGATIVE_VALUE);
    }
    SubBufferVal(a, b, n, Max(|X.p|, |A.p|));
    SubBufferIs(a, b, n, Max(|X.p|, |A.p|));
    SetHighLimbs(X, A, n);
    SubPrefix(A.p, B.p, a, b, n);
    var (lo, carry) := SubSeq(A.p, B.p, n);
    var hi := X.p[n..];
    X.p := lo + hi;
    if carry != 0 {
      var (h, c') := SubIntSeq(hi, carry, |hi|);
      X.p := lo + h;
      if c' != 0 {
        return Fail(ERR_NEGATIVE_VALUE);
      }
    }
    X.s := 1;
    return Ok;
  }

  lemma SubBufferIs(a: seq<limb>, b: seq<limb>, n: nat, size: nat)
    requires n <= |a| <= size && n <= |b|
    ensures SubBuffer(a, b, n, size) ==
      var (lo, c) := SubSeq(a, b, n);
      var hi := a[n..] + Zeros(size - |a|);
      if c == 0 then (lo + hi, 0) else (lo + SubIntSeq(hi, c, |hi|).0, SubIntSeq(hi, c, |hi|).1)
  {}

  lemma {:induction false} SubPrefix(a: seq<limb>, b: seq<limb>, a': seq<limb>, b': seq<limb>, n: nat)
    requires n <= |a| && n <= |b| && n <= |a'| && n <= |b'| && a[..n] == a'[..n] && b[..n] == b'[..n]
    ensures SubSeq(a, b, n) == SubSeq(a', b', n)
  {
    if n > 0 {
      assert a[n - 1] == a[..n][n - 1] && b[n - 1] == b[..n][n - 1];
      assert a[..n - 1] == a[..n][..n - 1] && a'[..n - 1] == a'[..n][..n - 1];
      assert b[..n - 1] == b[..n][..n - 1] && b'[..n - 1] == b'[..n][..n - 1];
      SubPrefix(a, b, a', b', n - 1);
    }
  }

  /** B with more significant limbs than A has limbs is larger. */
  lemma TooLong(a: seq<limb>, b: seq<limb>, n: nat)
    requires |a| < n <= |b| && b[n - 1] != 0 && ZeroFrom(b, n)
    ensures Val(a) < Val(b)
  {
    ValZeroFrom(b, n); ValAtLeast(b[..n]); ValBound(a); BnMono(|a|, n - 1);
  }

  // --------------------------------------------------------- signed versions

  lemma SignedSum(sa: int, a: int, sb: int, b: int, f: int)
    requires (sa == 1 || sa == -1) && (sb == 1 || sb == -1) && (f == 1 || f == -1)
    ensures sa * sb * f < 0 ==> sa * a + f * (sb * b) == sa * (a - b) == -sa * (b - a)
    ensures sa * sb * f >= 0 ==> sa * a + f * (sb * b) == sa * (a + b)
    ensures sa * sb * f >= 0 && a >= 0 && b >= 0 ==> Abs(sa * a + f * (sb * b)) == a + b
  {}

  method AddSub(X: Mpi, A: Mpi, B: Mpi, flip: int) returns (st: Status)
    requires X.Valid() && A.Valid() && B.Valid() && (flip == 1 || flip == -1)
    modifies X
    ensures X.Valid()
    ensures st.Ok? ==> X.Value() == old(A.Value() + flip * B.Value())
    ensures st.Fail? ==> st.code == ERR_ALLOC_FAILED && old(Max(|X.p|, Max(|A.p|, |B.p|))) == MAX_LIMBS
    ensures |X.p| <= old(Max(|X.p|, Max(|A.p|, |B.p|))) + 1
    ensures old(|X.p|) <= |X.p|
    ensures st.Fail? || |X.p| > old(Max(|X.p|, Max(|A.p|, |B.p|))) ==> Abs(old(A.Value() + flip * B.Value())) >= Bn(old(Max(|X.p|, Max(|A.p|, |B.p|))))
    ensures old(A.s * B.s * flip < 0) ==>
      st.Ok? && |X.p| <= old(Max(|X.p|, Max(|A.p|, |B.p|))) && (X.Value() >= 0 ==> X.s == 1)
  {
    hide Val, Sign, Bn;
    SignedSum(A.s, A.Mag(), B.s, B.Mag(), flip);
    var s := A.s;
    if A.s * B.s * flip < 0 {
      var cmp := CmpAbs(A, B);
      SignDef(A.Mag() - B.Mag());
      if cmp >= 0 {
        :- SubAbs(X, A, B);
        X.s := if cmp == 0 then 1 else s;
      } else {
        :- SubAbs(X, B, A);
        X.s := -s;
      }
    } else {
      :- AddAbs(X, A, B);
      X.s := s;
    }
    return Ok;
  }

  lemma SignDef(x: int)
    ensures Sign(x) >= 0 <==> x >= 0
    ensures Sign(x) == 0 <==> x == 0
  {}

  lemma SignCompare(x: int, y: int)
    ensures Sign(x - y) <= 0 <==> x <= y
  {}

  method AddMpi(X: Mpi, A: Mpi, B: Mpi) returns (st: Status)
    requires X.Valid() && A.Valid() && B.Valid()
    modifies X
    ensures X.Valid() && old(|X.p|) <= |X.p| <= old(Max(|X.p|, Max(|A.p|, |B.p|))) + 1
    ensures st.Ok? ==> X.Value() == old(A.Value() + B.Value())
    ensures st.Fail? ==> st.code == ERR_ALLOC_FAILED && old(Max(|X.p|, Max(|A.p|, |B.p|))) == MAX_LIMBS
    ensures st.Fail? || |X.p| > old(Max(|X.p|, Max(|A.p|, |B.p|))) ==> Abs(old(A.Value() + B.Value())) >= Bn(old(Max(|X.p|, Max(|A.p|, |B.p|))))
    ensures old(A.s != B.s) ==>
      st.Ok? && |X.p| <= old(Max(|X.p|, Max(|A.p|, |B.p|))) && (X.Value() >= 0 ==> X.s == 1)
  {
    st := AddSub(X, A, B, 1);
  }

  method SubMpi(X: Mpi, A: Mpi, B: Mpi) returns (st: Status)
    requires X.Valid() && A.Valid() && B.Valid()
    modifies X
    ensures X.Valid() && old(|X.p|) <= |X.p| <= old(Max(|X.p|, Max(|A.p|, |B.p|))) + 1
    ensures st.Ok? ==> X.Value() == old(A.Value() - B.Value())
    ensures st.Fail? ==> st.code == ERR_ALLOC_FAILED && old(Max(|X.p|, Max(|A.p|, |B.p|))) == MAX_LIMBS
    ensures st.Fail? || |X.p| > old(Max(|X.p|, Max(|A.p|, |B.p|))) ==> Abs(old(A.Value() - B.Value())) >= Bn(old(Max(|X.p|, Max(|A.p|, |B.p|))))
    ensures old(A.s == B.s) ==>
      st.Ok? && |X.p| <= old(Max(|X.p|, Max(|A.p|, |B.p|))) && (X.Value() >= 0 ==> X.s == 1)
  {
    st := AddSub(X, A, B, -1);
  }
}
