/** bignum_core.c: limb arrays read from and written to byte buffers. */
module CoreBytes {
  import opened Arith
  import opened Limbs
  import opened Core
  import opened Bytes
  import opened ReturnCodes

  lemma LimbBytes()
    ensures CI_L >= 1 && CI_L * 8 == BI_L && BASE == B8(CI_L)
  {
    WidthFacts(BI_L);
    Pow2Small();
    PowMul(2, 8, CI_L);
  }

  lemma BnBytes(n: nat)
    ensures 0 <= n * CI_L && Bn(n) == B8(n * CI_L)
  {
    LimbBytes();
    MulSign(n, CI_L);
    PowMul(256, CI_L, n);
  }

  /** Byte i of the array lies in limb i / ciL at bit 8*(i % ciL). */
  lemma ByteIndex(i: nat)
    ensures CI_L >= 1 && i == (i / CI_L) * CI_L + i % CI_L && 0 <= i / CI_L && 0 <= i % CI_L < CI_L
  {
    LimbBytes();
    DivMod(i, CI_L);
  }

  /** CHARS_TO_LIMBS */
  function CharsToLimbs(i: nat): nat {
    ByteIndex(i);
    i / CI_L + (if i % CI_L != 0 then 1 else 0)
  }

  lemma LimbRoom(i: nat, n: nat)
    ensures 0 <= n * CI_L && (CharsToLimbs(i) <= n <==> i <= n * CI_L)
  {
    ByteIndex(i);
    MulSign(n, CI_L);
    var q, r := i / CI_L, i % CI_L;
    if n <= q - 1 { MulMono(n, q - 1, CI_L); MulDist(CI_L, q, -1); }
    if n >= q + 1 { MulMono(q + 1, n, CI_L); MulDist(CI_L, q, 1); }
  }

  /** GET_BYTE */
  function GetByte(s: seq<limb>, i: nat): (b: byte)
    requires 0 <= |s| * CI_L && i < |s| * CI_L
    ensures b == Byte(Val(s), i)
  {
    ByteIndex(i);
    InLimbs(i, |s|);
    GetByteVal(s, i);
    var x := ShrW(s[i / CI_L], (i % CI_L) * 8);
    BitAndMask(x, 8); Pow2Small();
    BitAnd(x, 255)
  }

  lemma InLimbs(i: nat, n: nat)
    requires 0 <= n * CI_L && i < n * CI_L
    ensures CI_L >= 1 && i / CI_L < n
  {
    ByteIndex(i);
    if i / CI_L >= n { MulMono(n, i / CI_L, CI_L); }
  }

  lemma GetByteVal(s: seq<limb>, i: nat)
    requires CI_L >= 1 && i / CI_L < |s|
    ensures i % CI_L >= 0 && ShrW(s[i / CI_L], (i % CI_L) * 8) % 256 == Byte(Val(s), i)
  {
    ByteIndex(i);
    var q, r := i / CI_L, i % CI_L;
    LimbBytes(); BnBytes(q); B8Add(q * CI_L, r); B8Add(r + 1, CI_L - r - 1); B8Step(r);
    BytePower(r);
    hide Val, Bn, B8, Pow, Pow2;
    ValDrop(s, q);
    LowFirst(s[q..]);
    assert s[q..][0] == s[q];
    DivDiv(Val(s), Bn(q), B8(r));
    ByteOfLimb(Val(s[q..]), s[q], Val(s[q..][1..]), B8(r), B8(CI_L - r - 1), BASE);
  }

  lemma BytePower(r: nat)
    ensures B8(r) == Pow2(r * 8)
  {
    Pow2Small();
    PowMul(2, 8, r);
  }

  lemma LowFirst(t: seq<limb>)
    requires |t| > 0
    ensures Val(t) == t[0] + BASE * Val(t[1..])
  {
    ValSplit(t, 1); ValOne(t[..1]); BnStep(0);
  }

  lemma ByteOfLimb(v: int, x: int, h: int, p: int, k: int, base: int)
    requires v == x + base * h && base == (256 * p) * k && p > 0
    ensures (v / p) % 256 == (x / p) % 256
  {
    DivMod(x, p);
    MulAssoc(p, 256, k * h); MulAssoc(256, p, k * h); MulAssoc(256 * p, k, h); 
    assert v == (x / p + 256 * (k * h)) * p + x % p by { MulDist(p, x / p, 256 * (k * h)); MulAssoc(256, k * h, p); MulAssoc(256, p, k * h); }
    DivModUnique(v, p, x / p + 256 * (k * h), x % p);
    CongIntro(v / p, x / p, 256, k * h);
  }

  // ------------------------------------------------------------- little-endian

  /** The limb that takes in byte i holds only the bytes before it. */
  lemma RoomInLimb(s: seq<limb>, q: nat, r: nat, v: nat)
    requires q < |s| && r < CI_L && Val(s) == v && 0 <= q * CI_L && v < B8(q * CI_L + r)
    ensures s[q] < B8(r)
  {
    BnBytes(q); B8Add(q * CI_L, r);
    hide Val, Bn, B8, Pow;
    ValSplit(s, q); LowFirst(s[q..]);
    assert s[q..][0] == s[q];
    RoomArith(Val(s[..q]), Bn(q), s[q], BASE, Val(s[q..][1..]), B8(r));
  }

  lemma RoomArith(lo: int, p: int, x: int, base: int, h: int, c: int)
    requires 0 <= lo && 0 < p && 0 < base && 0 <= h && lo + p * (x + base * h) < p * c
    ensures x < c
  {
    MulSign(base, h); MulSign(p, base * h);
    MulDist(p, x, base * h);
    MulCancelLt(x, c, p);
  }

  /** (x << 8r) joined to a limb below 256^r. */
  lemma JoinByte(d: limb, x: byte, r: nat)
    requires r < CI_L && d < B8(r)
    ensures x < BASE && BitOr(d, ShlW(x, r * 8)) == d + x * B8(r) < BASE
  {
    LimbBytes(); BytePower(r); B8Add(r + 1, CI_L - r - 1); B8Step(r);
    var p := B8(r);
    assert BASE == (256 * p) * B8(CI_L - r - 1);
    hide B8, Pow, Pow2, BitOr;
    MulMono(1, B8(CI_L - r - 1), 256 * p);
    DigitBound(d, x, p, 256);
    MulMono(0, x, p);
    ModSmall(x * p, BASE);
    DivModUnique(x * p, p, x, 0);
    BitOrDisjoint(x * p, d, r * 8);
  }

  lemma ReadStep(s: seq<limb>, input: seq<byte>, i: nat)
    requires i < |input| && 0 <= |s| * CI_L && i < |s| * CI_L && Val(s) == LeVal(input[..i])
    ensures CI_L >= 1 && i / CI_L < |s| && i % CI_L < CI_L
    ensures var q, r := i / CI_L, i % CI_L;
      && input[i] < BASE && BitOr(s[q], ShlW(input[i], r * 8)) < BASE
      && Val(s[q := BitOr(s[q], ShlW(input[i], r * 8))]) == LeVal(input[..i + 1])
  {
    ByteIndex(i); InLimbs(i, |s|);
    var q, r := i / CI_L, i % CI_L;
    RoomInLimb(s, q, r, LeVal(input[..i]));
    JoinByte(s[q], input[i], r);
    BnBytes(q); B8Add(q * CI_L, r);
    hide Val, Bn, B8, Pow, LeVal, BitOr, ShlW;
    var x: limb := BitOr(s[q], ShlW(input[i], r * 8));
    ValUpdate(s, q, x);
    LeTake(input, i);
    MulAssoc(input[i], B8(r), Bn(q));
  }

  /** mbedtls_mpi_core_read_le */
  method ReadLe(X: array<limb>, n: nat, input: seq<byte>) returns (st: Status)
    requires n <= X.Length
    modifies X
    ensures OnlyWrote(X, 0, n)
    ensures st == if CharsToLimbs(|input|) > n then Fail(ERR_BUFFER_TOO_SMALL) else Ok
    ensures st.Ok? ==> Val(X[..n]) == LeVal(input)
    ensures st.Fail? ==> X[..n] == old(X[..n])
  {
    hide Val, LeVal, BitOr, ShlW, CharsToLimbs;
    LimbRoom(|input|, n);
    if n < CharsToLimbs(|input|) { return Fail(ERR_BUFFER_TOO_SMALL); }
    MemZero(X, 0, n);
    ValZeros(X[..n]); LeEmpty();
    for i := 0 to |input|
      invariant OnlyWrote(X, 0, n) && Val(X[..n]) == LeVal(input[..i])
    {
      ghost var s := X[..n];
      ReadStep(s, input, i);
      var q := i / CI_L;
      X[q] := BitOr(X[q], ShlW(input[i], (i % CI_L) * 8));
      assert X[..n] == s[q := X[q]];
    }
    assert input[..|input|] == input;
    st := Ok;
  }

  lemma {:induction false} HighBytesZero(v: nat, m: nat, n: nat)
    requires m <= n && v < B8(n) && forall i :: m <= i < n ==> Byte(v, i) == 0
    ensures v < B8(m)
    decreases n
  {
    if m < n {
      ByteSplit(v, n - 1);
      ModSmall(v, B8(n));
      hide B8, Byte;
      DivMod(v, B8(n - 1));
      assert Byte(v, n - 1) == 0;
      MulSign(0, B8(n - 1));
      HighBytesZero(v, m, n - 1);
    }
  }

  lemma NoHighByte(v: nat, m: nat, i: nat)
    requires m <= i && v < B8(m)
    ensures Byte(v, i) == 0
  {
    B8Mono(m, i);
    ModSmall(v, B8(i));
  }

  /** How much of A goes out, or the reason nothing does. */
  method BytesToCopy(A: array<limb>, n: nat, len: nat) returns (st: Status, count: nat)
    requires n <= A.Length
    ensures st == if Val(A[..n]) < B8(len) then Ok else Fail(ERR_BUFFER_TOO_SMALL)
    ensures 0 <= n * CI_L && (st.Ok? ==> count == if n * CI_L < len then n * CI_L else len)
  {
    hide Val, B8, Bn, Pow, Byte;
    MulSign(n, CI_L);
    ghost var v := Val(A[..n]);
    var stored := n * CI_L;
    ValBound(A[..n]); BnBytes(n);
    if stored < len {
      B8Mono(stored, len);
      return Ok, stored;
    }
    for i := len to stored
      invariant forall k :: len <= k < i ==> Byte(v, k) == 0
    {
      var b := GetByte(A[..n], i);
      if b != 0 {
        if v < B8(len) { NoHighByte(v, len, i); }
        return Fail(ERR_BUFFER_TOO_SMALL), 0;
      }
    }
    HighBytesZero(v, len, stored);
    return Ok, len;
  }

  lemma ToLeBeyond(v: nat, k: nat, len: nat)
    requires k <= len && v < B8(k)
    ensures forall i :: k <= i < len ==> ToLe(v, len)[i] == 0
  {
    forall i | k <= i < len ensures ToLe(v, len)[i] == 0 { NoHighByte(v, k, i); }
  }

  /** mbedtls_mpi_core_write_le */
  method WriteLe(A: array<limb>, n: nat, output: array<byte>) returns (st: Status)
    requires n <= A.Length
    modifies output
    ensures st == if Val(A[..n]) < B8(output.Length) then Ok else Fail(ERR_BUFFER_TOO_SMALL)
    ensures st.Ok? ==> output[..] == ToLe(Val(A[..n]), output.Length)
    ensures st.Fail? ==> output[..] == old(output[..])
  {
    hide Val, B8, Bn, Pow, Byte, ToLe;
    ghost var v, len := Val(A[..n]), output.Length;
    var count :- BytesToCopy(A, n, output.Length);
    ValBound(A[..n]); BnBytes(n);
    ToLeBeyond(v, count, len);
    for i := 0 to count
      invariant forall k :: 0 <= k < i ==> output[k] == ToLe(v, len)[k]
    {
      output[i] := GetByte(A[..n], i);
    }
    for i := count to output.Length
      invariant forall k :: 0 <= k < i ==> output[k] == ToLe(v, len)[k]
    {
      output[i] := 0;
    }
    st := Ok;
  }

  /** mbedtls_mpi_core_write_be */
  method WriteBe(A: array<limb>, n: nat, output: array<byte>) returns (st: Status)
    requires n <= A.Length
    modifies output
    ensures st == if Val(A[..n]) < B8(output.Length) then Ok else Fail(ERR_BUFFER_TOO_SMALL)
    ensures st.Ok? ==> output[..] == ToBe(Val(A[..n]), output.Length)
    ensures st.Fail? ==> output[..] == old(output[..])
  {
    hide Val, B8, Bn, Pow, Byte, ToLe, ToBe;
    ghost var v, len := Val(A[..n]), output.Length;
    var count :- BytesToCopy(A, n, output.Length);
    ValBound(A[..n]); BnBytes(n);
    ToLeBeyond(v, count, len);
    var p := output.Length - count;
    for i := 0 to p
      invariant forall k :: 0 <= k < i ==> output[k] == ToBe(v, len)[k]
    {
      assert ToBe(v, len)[i] == ToLe(v, len)[len - 1 - i];
      output[i] := 0;
    }
    for i := 0 to count
      invariant forall k :: 0 <= k < p ==> output[k] == ToBe(v, len)[k]
      invariant forall k :: len - i <= k < len ==> output[k] == ToBe(v, len)[k]
    {
      output[p + (count - i - 1)] := GetByte(A[..n], i);
    }
    st := Ok;
  }

  // ----------------------------------------------------------------- big-endian

  /** Byte order of the host. */
  const HOST_BIG_ENDIAN: bool

  /** The limb whose bytes in memory are c, and back. */
  function HostLimb(c: seq<byte>): (x: limb)
    requires |c| == CI_L
  {
    LimbBytes(); BeBound(c);
    if HOST_BIG_ENDIAN then BeVal(c) else LeVal(c)
  }

  function MemBytes(x: limb): (c: seq<byte>)
    ensures |c| == CI_L
  {
    if HOST_BIG_ENDIAN then ToBe(x, CI_L) else ToLe(x, CI_L)
  }

  lemma MemBytesOf(c: seq<byte>)
    requires |c| == CI_L
    ensures MemBytes(HostLimb(c)) == c
  {
    BeBytesOf(c); LeBytesOf(c, CI_L);
  }

  /** mpi_bigendian_to_host_c: the bytes in memory shifted in one by one. */
  method BigendianToHostC(a: limb) returns (r: limb)
    ensures r == BeVal(MemBytes(a))
  {
    hide BeVal, ShlW, BitOr, MemBytes, B8, Pow;
    var c := MemBytes(a);
    r := 0;
    assert c[..0] == []; BeEmpty();
    for i := 0 to CI_L
      invariant r == BeVal(c[..i])
    {
      BeBound(c[..i]);
      ShiftByteIn(r, c[i], i);
      assert c[..i + 1] == c[..i] + [c[i]];
      BeSnoc(c[..i], c[i]);
      r := BitOr(ShlW(r, 8), c[i]);
    }
    assert c[..CI_L] == c;
  }

  lemma ShiftByteIn(r: limb, x: byte, i: nat)
    requires i < CI_L && r < B8(i)
    ensures BitOr(ShlW(r, 8), x) == 256 * r + x < BASE
  {
    LimbBytes(); B8Add(i + 1, CI_L - i - 1); B8Step(i); Pow2Small();
    hide B8, Pow, Pow2, BitOr;
    MulMono(1, B8(CI_L - i - 1), 256 * B8(i));
    ModSmall(256 * r, BASE);
    DivModUnique(256 * r, 256, r, 0);
    BitOrDisjoint(256 * r, x, 8);
  }

  /** mpi_bigendian_to_host: the shortcuts compute the same limb. */
  method BigendianToHost(a: limb) returns (r: limb)
    ensures r == BeVal(MemBytes(a))
  {
    if HOST_BIG_ENDIAN {
      LimbBytes();
      ToBeVal(a, CI_L); ModSmall(a, BASE);
      return a;
    }
    r := BigendianToHostC(a);
  }

  function Converted(x: limb): (r: limb) {
    BeBound(MemBytes(x)); LimbBytes();
    BeVal(MemBytes(x))
  }

  /** mbedtls_mpi_core_bigendian_to_host: limbs reversed, each converted. */
  method BigendianLimbs(A: array<limb>, n: nat)
    requires n <= A.Length
    modifies A
    ensures OnlyWrote(A, 0, n)
    ensures forall k :: 0 <= k < n ==> A[k] == Converted(old(A[n - 1 - k]))
  {
    hide BeVal, MemBytes;
    if n == 0 { return; }
    var l: int, r: int := 0, n - 1;
    while l <= r
      invariant 0 <= l <= r + 2 && l + r == n - 1
      invariant OnlyWrote(A, 0, n)
      invariant forall k :: l <= k <= r ==> A[k] == old(A[k])
      invariant forall k :: 0 <= k < l ==> A[k] == Converted(old(A[n - 1 - k]))
      invariant forall k :: r < k < n ==> A[k] == Converted(old(A[n - 1 - k]))
    {
      var tmp := BigendianToHost(A[l]);
      var right := BigendianToHost(A[r]);
      A[l] := right;
      A[r] := tmp;
      l, r := l + 1, r - 1;
    }
  }

  /** Limbs made of consecutive groups of ciL bytes. */
  lemma {:induction false} LimbsOfBytes(s: seq<limb>, b: seq<byte>)
    requires 0 <= |s| * CI_L && |b| == |s| * CI_L
    requires forall k :: 0 <= k < |s| ==> s[k] == LeVal(Group(b, k, CI_L))
    ensures Val(s) == LeVal(b)
    decreases |s|
  {
    hide Bn, B8, Pow, Val, LeVal, Group;
    if |s| == 0 {
      MulSign(0, CI_L);
      assert b == [] && s == [];
      ValEmpty(); LeEmpty();
    } else {
      var m := |s| - 1;
      GroupSplit(b, m, CI_L);
      var lo := b[..m * CI_L];
      forall k | 0 <= k < m ensures s[..m][k] == LeVal(Group(lo, k, CI_L)) { GroupPrefix(b, m, k, CI_L); }
      LimbsOfBytes(s[..m], lo);
      LeConcat(lo, Group(b, m, CI_L));
      BnBytes(m);
      assert s == s[..m] + [s[m]];
      ValSnoc(s[..m], s[m]);
    }
  }

  /** Group k of w bytes. */
  function Group(b: seq<byte>, k: nat, w: nat): seq<byte> {
    MulSign(k, w);
    if k * w + w <= |b| then b[k * w..k * w + w] else []
  }

  lemma GroupSplit(b: seq<byte>, m: nat, w: nat)
    requires 0 <= (m + 1) * w && |b| == (m + 1) * w
    ensures 0 <= m * w <= |b| && b == b[..m * w] + Group(b, m, w) && |Group(b, m, w)| == w
  {
    MulSign(m, w); MulDist(w, m, 1);
  }

  lemma GroupPrefix(b: seq<byte>, m: nat, k: nat, w: nat)
    requires k < m && 0 <= m * w <= |b|
    ensures Group(b[..m * w], k, w) == Group(b, k, w) && |Group(b, k, w)| == w
  {
    MulMono(k + 1, m, w); MulDist(w, k, 1);
  }

  lemma SliceRev(b: seq<byte>, p: nat, w: nat)
    requires p + w <= |b|
    ensures Rev(b[|b| - p - w..|b| - p]) == Rev(b)[p..p + w]
  {
    hide Rev;
    var c := b[|b| - p - w..|b| - p];
    forall i | 0 <= i < w ensures Rev(c)[i] == Rev(b)[p + i] {
      assert Rev(c)[i] == c[w - 1 - i];
    }
  }

  /** Group k from the end, reversed, is group k of the reversed bytes: q and p are the
      offsets of the two. */
  lemma GroupRev(b: seq<byte>, n: nat, k: nat, w: nat, q: nat, p: nat)
    requires k < n && q == (n - 1 - k) * w && p == k * w && q + w + p == |b|
    ensures |Group(b, n - 1 - k, w)| == w && Rev(Group(b, n - 1 - k, w)) == Group(Rev(b), k, w)
  {
    hide Rev, Group;
    GroupIs(b, n - 1 - k, q, w); GroupIs(Rev(b), k, p, w);
    SliceRev(b, p, w);
  }

  lemma GroupsAround(n: int, k: int, w: int)
    ensures (n - 1 - k) * w + w + k * w == n * w
  {
    MulDist(w, n - 1 - k, 1); MulDist(w, n - k, k);
  }

  lemma GroupIs(b: seq<byte>, k: nat, p: nat, w: nat)
    requires p == k * w && p + w <= |b|
    ensures Group(b, k, w) == b[p..p + w]
  {}

  /** The memory of X filled with bytes, seen as limbs. */
  method StoreBytes(X: array<limb>, n: nat, b: seq<byte>)
    requires n <= X.Length && 0 <= n * CI_L == |b|
    modifies X
    ensures OnlyWrote(X, 0, n)
    ensures forall k :: 0 <= k < n ==> |Group(b, k, CI_L)| == CI_L && X[k] == HostLimb(Group(b, k, CI_L))
  {
    hide HostLimb, Group;
    for i := 0 to n
      invariant OnlyWrote(X, 0, n)
      invariant forall k :: 0 <= k < i ==> |Group(b, k, CI_L)| == CI_L && X[k] == HostLimb(Group(b, k, CI_L))
    {
      assert b[..n * CI_L] == b;
      GroupPrefix(b, n, i, CI_L);
      X[i] := HostLimb(Group(b, i, CI_L));
    }
  }

  lemma ConvertedGroup(b: seq<byte>, n: nat, k: nat)
    requires k < n && 0 <= n * CI_L == |b|
    ensures |Group(b, n - 1 - k, CI_L)| == CI_L && Converted(HostLimb(Group(b, n - 1 - k, CI_L))) == LeVal(Group(Rev(b), k, CI_L))
  {
    hide Group, LeVal;
    MulSign(k, CI_L); MulSign(n - 1 - k, CI_L);
    GroupsAround(n, k, CI_L);
    GroupRev(b, n, k, CI_L, (n - 1 - k) * CI_L, k * CI_L);
    MemBytesOf(Group(b, n - 1 - k, CI_L));
  }

  lemma BigendianVal(s: seq<limb>, b: seq<byte>)
    requires 0 <= |s| * CI_L == |b|
    requires forall k :: 0 <= k < |s| ==> |Group(b, |s| - 1 - k, CI_L)| == CI_L && s[k] == Converted(HostLimb(Group(b, |s| - 1 - k, CI_L)))
    ensures Val(s) == BeVal(b)
  {
    hide Val, LeVal, Group, Converted, HostLimb;
    forall k | 0 <= k < |s| ensures s[k] == LeVal(Group(Rev(b), k, CI_L)) { ConvertedGroup(b, |s|, k); }
    LimbsOfBytes(s, Rev(b));
  }

  /** mbedtls_mpi_core_read_be */
  method ReadBe(X: array<limb>, n: nat, input: seq<byte>) returns (st: Status)
    requires n <= X.Length
    modifies X
    ensures OnlyWrote(X, 0, n)
    ensures st == if CharsToLimbs(|input|) > n then Fail(ERR_BUFFER_TOO_SMALL) else Ok
    ensures st.Ok? ==> Val(X[..n]) == BeVal(input)
    ensures st.Fail? ==> X[..n] == old(X[..n])
  {
    hide Val, BeVal, HostLimb, Converted, Group, CharsToLimbs;
    LimbRoom(|input|, n);
    if n < CharsToLimbs(|input|) { return Fail(ERR_BUFFER_TOO_SMALL); }
    if n == 0 {
      MulSign(0, CI_L);
      assert X[..0] == [] && input == []; ValEmpty(); BeEmpty();
      return Ok;
    }
    var overhead := n * CI_L - |input|;
    var b := seq(overhead, _ => 0) + input;
    BePad(overhead, input);
    StoreBytes(X, n, b);
    ghost var raw := X[..n];
    BigendianLimbs(X, n);
    forall k | 0 <= k < n ensures X[k] == Converted(HostLimb(Group(b, n - 1 - k, CI_L))) && |Group(b, n - 1 - k, CI_L)| == CI_L {
      assert X[k] == Converted(raw[n - 1 - k]);
    }
    BigendianVal(X[..n], b);
    st := Ok;
  }
}
