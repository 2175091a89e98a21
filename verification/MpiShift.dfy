/** bignum.c: shifts, bit length and trailing zeros of Mpi objects. */
module MpiShift {
  import opened Arith
  import opened Limbs
  import opened Core
  import opened Bits
  import opened Bytes
  import opened ReturnCodes
  import opened MpiObject

  /** BITS_TO_LIMBS */
  function BitsToLimbs(i: nat): nat {
    LimbPart(i) + (if BitPart(i) != 0 then 1 else 0)
  }

  lemma BitsToLimbsVal(i: nat)
    ensures 0 <= BitsToLimbs(i) * BI_L && i <= BitsToLimbs(i) * BI_L < i + BI_L
    ensures forall n: nat :: 0 <= n * BI_L && (n * BI_L >= i <==> n >= BitsToLimbs(i))
  {
    CountParts(i);
    hide LimbPart, BitPart;
    var l := BitsToLimbs(i);
    MulSign(l, BI_L);
    MulDist(BI_L, LimbPart(i), 1);
    forall n: nat
      ensures 0 <= n * BI_L && (n * BI_L >= i <==> n >= l)
    {
      MulSign(n, BI_L);
      if n >= l { MulMono(l, n, BI_L); } else { MulMono(n, l - 1, BI_L); MulDist(BI_L, l, -1); }
    }
  }

  /** A number below b^m, moved up e limbs, needs at most m + e limbs. */
  lemma BitsRoom(v: nat, m: nat, e: nat)
    requires v < Bn(m)
    ensures 0 <= BI_L * e && BitsToLimbs(NumBits(v) + BI_L * e) <= m + e
  {
    hide BitsToLimbs, NumBits, Bn;
    MulSign(BI_L, e);
    BnPow2(m);
    var b := NumBits(v);
    if b > BI_L * m { PowMono(2, BI_L * m, b - 1); }
    BitsToLimbsVal(b + BI_L * e);
    MulDist(BI_L, m, e);
  }

  lemma BitsToLimbsMono(i: nat, j: nat)
    requires i <= j
    ensures BitsToLimbs(i) <= BitsToLimbs(j)
  {
    BitsToLimbsVal(i); BitsToLimbsVal(j);
    hide BitsToLimbs;
    MulSign(BitsToLimbs(j), BI_L);
  }

  lemma NumBitsShift(v: nat, k: nat)
    requires v > 0
    ensures v * Pow2(k) >= 0 && NumBits(v * Pow2(k)) == NumBits(v) + k
  {
    hide NumBits;
    var b := NumBits(v);
    Pow2Add(b, k);
    assert b > 0 by { Pow2Zero(); }
    Pow2Add(b - 1, k);
    MulSign(v, Pow2(k));
    hide Pow2, Pow;
    MulMono(Pow2(b - 1), v, Pow2(k)); MulMonoStrict(v, Pow2(b), Pow2(k));
    BitLenUnique(v * Pow2(k), b + k, NumBits(v * Pow2(k)));
  }

  /** The significant limbs are those its bit length needs. */
  lemma SigBits(p: seq<limb>)
    ensures Sig(p) == BitsToLimbs(NumBits(Val(p)))
  {
    hide Val, Bn, Pow, Pow2, NumBits, BitsToLimbs, Sig;
    var j, v := Sig(p), Val(p);
    ValZeroFrom(p, j); ValBound(p[..j]);
    BitsRoom(v, j, 0);
    if j > 0 {
      ValAtLeast(p[..j]);
      BnPow2(j - 1);
      BitsAtLeast(v, BI_L * (j - 1));
      BitsToLimbsVal(NumBits(v));
      MulSign(j - 1, BI_L);
    }
  }

  lemma BitsAtLeast(v: nat, m: nat)
    requires Pow2(m) <= v
    ensures NumBits(v) > m
  {
    hide NumBits;
    if NumBits(v) <= m { PowMono(2, NumBits(v), m); }
  }

  lemma BitsBelow(v: nat, m: nat)
    requires v < Pow2(m)
    ensures NumBits(v) <= m
  {
    hide NumBits;
    if NumBits(v) > m { PowMono(2, m, NumBits(v) - 1); }
  }

  method Bitlen(X: Mpi) returns (b: nat)
    ensures b == NumBits(X.Mag()) && IsBitLen(X.Mag(), b)
  {
    b := CoreBitlen(X.p);
  }

  method ShiftR(X: Mpi, count: nat)
    requires X.Valid()
    modifies X
    ensures X.Valid() && X.s == old(X.s) && |X.p| == old(|X.p|)
    ensures X.Mag() == old(X.Mag()) / Pow2(count)
    ensures X.p == ShiftRSeq(old(X.p), count)
  {
    hide Val;
    ShiftRVal(X.p, count);
    if |X.p| != 0 {
      X.p := ShiftRSeq(X.p, count);
    } else {
      assert ShiftRSeq(X.p, count) == X.p;
    }
  }

  /** Limbs move up by v0; the ones that fall off are zero. */
  method ShiftLLimbs(p: seq<limb>, v0: nat) returns (q: seq<limb>)
    requires v0 <= |p|
    ensures q == Zeros(v0) + p[..|p| - v0]
  {
    ghost var r := Zeros(v0) + p[..|p| - v0];
    q := p;
    var i := |p|;
    while i > v0
      invariant v0 <= i <= |p| == |q|
      invariant forall k :: 0 <= k < i ==> q[k] == p[k]
      invariant forall k :: i <= k < |p| ==> q[k] == r[k]
    {
      assert r[i - 1] == p[i - 1 - v0];
      q := q[i - 1 := q[i - v0 - 1]];
      i := i - 1;
    }
    while i > 0
      invariant 0 <= i <= v0 && |q| == |p|
      invariant forall k :: i <= k < |p| ==> q[k] == r[k]
    {
      q := q[i - 1 := 0];
      i := i - 1;
    }
  }

  /** Bits move up by t within the buffer, from limb v0 on. */
  method ShiftLBits(p: seq<limb>, v0: nat, t: nat) returns (q: seq<limb>)
    requires 0 < t < BI_L && v0 <= |p| && forall k :: 0 <= k < v0 ==> p[k] == 0
    ensures q == ShlBits(p, t)
  {
    hide ShlW, ShrW, BitOr, Pow2, Pow;
    q := p;
    var r0: limb := 0;
    ShiftedZeros(p, v0, t);
    for i := v0 to |p|
      invariant |q| == |p| && q[i..] == p[i..]
      invariant r0 == if i > 0 then ShrW(p[i - 1], BI_L - t) else 0
      invariant forall k :: 0 <= k < i ==> q[k] == ShlBits(p, t)[k]
    {
      assert q[i] == q[i..][0] == p[i];
      var r1 := ShrW(q[i], BI_L - t);
      ShlLimbFits(p[i], if i > 0 then p[i - 1] else 0, t);
      q := q[i := BitOr(ShlW(q[i], t), r0)];
      r0 := r1;
    }
  }

  lemma ShiftedZeros(p: seq<limb>, v0: nat, t: nat)
    requires 0 < t < BI_L && v0 <= |p| && forall k :: 0 <= k < v0 ==> p[k] == 0
    ensures forall k :: 0 <= k < v0 ==> ShlBits(p, t)[k] == 0
    ensures ShrW(0, BI_L - t) == 0
  {
    hide Pow2;
    ModSmall(0, Pow2(BI_L - t));
    MulSign(0, Pow2(t));
  }

  /** The buffer after the two parts of the shift. */
  function ShiftLSeq(p: seq<limb>, count: nat): (r: seq<limb>)
    requires LimbPart(count) <= |p|
    ensures |r| == |p|
  {
    var q := Zeros(LimbPart(count)) + p[..|p| - LimbPart(count)];
    if BitPart(count) > 0 then ShlBits(q, BitPart(count)) else q
  }

  /** A number of b bits fits n limbs when b <= n*biL. */
  lemma FitsLimbs(v: nat, b: nat, n: nat)
    requires IsBitLen(v, b) && b <= n * BI_L
    ensures v < Bn(n)
  {
    BnPow2(n);
    PowMono(2, b, n * BI_L);
  }

  lemma ShiftLimbsVal(p: seq<limb>, v0: nat, b: nat)
    requires v0 <= |p| && IsBitLen(Val(p), b) && 0 <= (|p| - v0) * BI_L && b <= (|p| - v0) * BI_L
    ensures Val(Zeros(v0) + p[..|p| - v0]) == Val(p) * Bn(v0)
  {
    hide Val, Bn, Pow, IsBitLen;
    var m := |p| - v0;
    FitsLimbs(Val(p), b, m);
    ValDrop(p, m); ModSmall(Val(p), Bn(m));
    ValConcat(Zeros(v0), p[..m]); ValZeros(Zeros(v0));
  }

  lemma ShiftBitsVal(q: seq<limb>, t: nat)
    requires 0 < t < BI_L && Val(q) * Pow2(t) < Bn(|q|)
    ensures Val(ShlBits(q, t)) == Val(q) * Pow2(t)
  {
    hide Val, Bn, Pow, Pow2, ShlBits, Spill;
    ShlBitsPrefix(q, t, |q|);
    assert ShlBits(q, t)[..|q|] == ShlBits(q, t) && q[..|q|] == q;
    var c := Spill(q, |q|, t);
    if c > 0 { MulMono(1, c, Bn(|q|)); }
    MulSign(0, Bn(|q|));
  }

  lemma ShiftSecond(q: seq<limb>, t: nat, w: nat)
    requires t < BI_L && Val(q) * Pow2(t) == w < Bn(|q|)
    ensures Val(if t > 0 then ShlBits(q, t) else q) == w
  {
    hide Val, Bn, Pow, Pow2, ShlBits;
    if t > 0 { ShiftBitsVal(q, t); } else { Pow2Zero(); }
  }

  lemma ShiftFirst(p: seq<limb>, count: nat, b: nat)
    requires IsBitLen(Val(p), b) && 0 <= |p| * BI_L && b + count <= |p| * BI_L
    ensures LimbPart(count) <= |p|
    ensures Val(Zeros(LimbPart(count)) + p[..|p| - LimbPart(count)]) == Val(p) * Bn(LimbPart(count))
  {
    hide Val, Bn, Pow, Pow2, LimbPart, BitPart, IsBitLen;
    CountParts(count);
    PartsFit(|p|, LimbPart(count), BitPart(count), b, BI_L);
    ShiftLimbsVal(p, LimbPart(count), b);
  }

  /** The shift loses nothing: the limbs and bits pushed out are zero. */
  lemma ShiftLVal(p: seq<limb>, count: nat, b: nat)
    requires IsBitLen(Val(p), b) && 0 <= |p| * BI_L && b + count <= |p| * BI_L
    ensures LimbPart(count) <= |p| && Val(ShiftLSeq(p, count)) == Val(p) * Pow2(count)
  {
    hide Val, Bn, Pow, Pow2, LimbPart, BitPart, ShlBits, IsBitLen;
    ShiftFirst(p, count, b);
    ShiftWeights(Val(p), count);
    ShiftRoom(Val(p), b, count, |p|);
    ShiftSecond(Zeros(LimbPart(count)) + p[..|p| - LimbPart(count)], BitPart(count), Val(p) * Pow2(count));
  }

  lemma ShiftWeights(v: nat, count: nat)
    ensures v * Pow2(count) == (v * Bn(LimbPart(count))) * Pow2(BitPart(count))
  {
    hide LimbPart, BitPart, Bn, Pow2;
    CountParts(count);
    BnPow2(LimbPart(count));
    Pow2Add(LimbPart(count) * BI_L, BitPart(count));
    MulAssoc(v, Bn(LimbPart(count)), Pow2(BitPart(count)));
  }

  lemma PartsFit(n: int, v0: int, t: int, b: int, w: int)
    requires 0 <= n && 0 <= v0 && 0 <= t && 0 <= b && w > 0 && b + (v0 * w + t) <= n * w
    ensures v0 <= n && 0 <= (n - v0) * w && b <= (n - v0) * w
  {
    if v0 > n { MulMonoStrict(n, v0, w); }
    MulDist(w, n, -v0); MulNeg(v0, w);
  }

  lemma ShiftRoom(v: nat, b: nat, count: nat, n: nat)
    requires IsBitLen(v, b) && 0 <= n * BI_L && b + count <= n * BI_L
    ensures v * Pow2(count) < Bn(n)
  {
    Pow2Add(b, count);
    BnPow2(n);
    PowMono(2, b + count, n * BI_L);
    hide Pow2;
    MulMonoStrict(v, Pow2(b), Pow2(count));
  }

  method ShiftL(X: Mpi, count: nat) returns (st: Status)
    requires X.Valid()
    modifies X
    ensures X.Valid() && X.s == old(X.s)
    ensures st.Ok? ==> X.Mag() == old(X.Mag()) * Pow2(count) && X.Value() == old(X.Value()) * Pow2(count)
    ensures st.Ok? ==> |X.p| == old(Max(|X.p|, BitsToLimbs(NumBits(X.Mag()) + count)))
    ensures st.Fail? ==> st.code == ERR_ALLOC_FAILED && X.p == old(X.p)
    ensures st.Fail? <==> old(BitsToLimbs(NumBits(X.Mag()) + count)) > MAX_LIMBS
  {
    hide Val, Pow2, Pow, IsBitLen, LimbPart, BitPart, ShlBits, BitsToLimbs, NumBits;
    var v0, t1 := LimbPart(count), BitPart(count);
    var b := Bitlen(X);
    var i := b + count;
    BitsToLimbsVal(i);
    if |X.p| * BI_L < i {
      :- Grow(X, BitsToLimbs(i));
    }
    ghost var p := X.p;
    MulSign(|p|, BI_L);
    ShiftLVal(p, count, b);
    MulAssoc(X.s, X.Mag(), Pow2(count));
    if v0 > 0 {
      var q := ShiftLLimbs(X.p, v0);
      X.p := q;
    } else {
      assert X.p == Zeros(0) + X.p[..|X.p|];
    }
    if t1 > 0 {
      var q := ShiftLBits(X.p, v0, t1);
      X.p := q;
    }
    return Ok;
  }

  /** Trailing zero bits; zero has none by convention. */
  method Lsb(X: Mpi) returns (count: nat)
    ensures X.Mag() == 0 ==> count == 0
    ensures X.Mag() != 0 ==> X.Mag() % Pow2(count) == 0 && (X.Mag() / Pow2(count)) % 2 == 1
  {
    hide Val, Pow2, Pow, ShrW, High;
    var p := X.p;
    count := 0;
    Pow2Zero(); ModSmall(0, 1);
    for i := 0 to |p|
      invariant count == i * BI_L && Val(p) % Pow2(count) == 0
    {
      MulDist(BI_L, i, 1);
      for j := 0 to BI_L
        invariant count == i * BI_L + j && Val(p) % Pow2(count) == 0
      {
        BitOfLimb(p, i, j);
        NextZero(Val(p), count);
        if ShrW(p[i], j) % 2 != 0 {
          if Val(p) == 0 { ModSmall(0, Pow2(count)); }
          return;
        }
        count := count + 1;
      }
    }
    AllZero(p);
    return 0;
  }

  lemma NextZero(v: nat, r: nat)
    requires v % Pow2(r) == 0
    ensures High(v, r) % 2 == 0 ==> v % Pow2(r + 1) == 0
    ensures High(v, r) == v / Pow2(r)
  {
    var p := Pow2(r);
    assert Pow2(r + 1) == p * 2;
    DivDiv(v, p, 2);
  }

  lemma AllZero(p: seq<limb>)
    requires 0 <= |p| * BI_L && Val(p) % Pow2(|p| * BI_L) == 0
    ensures Val(p) == 0
  {
    BnPow2(|p|); ValBound(p);
    ModSmall(Val(p), Bn(|p|));
  }

  /** mbedtls_mpi_size, but one octet for zero, is what the shortest octets take. */
  lemma SizeOfOctets(v: nat)
    ensures |Octets(v)| == (if NumBits(v) == 0 then 1 else (NumBits(v) + 7) / 8)
    ensures v < B8(|Octets(v)|) && ToBe(v, |Octets(v)|) == Octets(v)
  {
    var o, b := Octets(v), NumBits(v);
    hide BeVal, B8, ToBe, Octets, NumBits, Pow2, Pow;
    BeBound(o);
    BeBytesOf(o);
    BitsOfBytes(|o|); BitsOfBytes(|o| - 1);
    if |o| > 1 {
      TopOctet(o); MulMono(1, o[0], B8(|o| - 1));
      BitsAtLeast(v, 8 * (|o| - 1));
    }
    BitsBelow(v, 8 * |o|);
    if b == 0 { Pow2Zero(); }
  }

  lemma BitsOfBytes(n: nat)
    ensures B8(n) == Pow2(8 * n)
  {
    hide Pow;
    Pow2Small();
    PowMul(2, 8, n);
  }
}
