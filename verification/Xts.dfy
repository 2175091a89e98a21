/** aes.c: AES-XTS over any block permutation. */
module Xts {
  import opened Arith
  import opened Bytes
  import opened OctetBlocks
  import opened ReturnCodes

  const ERR_AES_INVALID_INPUT_LENGTH := -0x0022

  // ------------------------------------------------------------ multiplication by x

  /** 2^64, 2^127, 2^128. */
  const W64: nat := Pow2(64)
  const W128: nat := Pow2(128)

  lemma Words()
    ensures W128 == W64 * W64 && W64 == B8(8) && Pow2(63) * 2 == W64 && W64 >= 256
  {
    hide Pow;
    Pow2Add(64, 64);
    Pow2Small(); PowMul(2, 8, 8);
    Pow2Add(1, 63); Pow2Zero();
    PowMono(2, 8, 64);
  }

  /** x * v in GF(2)[x] modulo P = x^128 + x^7 + x^2 + x + 1, polynomials being
      numbers whose bit i is the coefficient of x^i. */
  predicate TimesX(v: nat, r: nat) {
    r < W128 && (2 * v == r || 2 * v == BitXor(r, W128 + 0x87))
  }

  /** mbedtls_gf128mul_x_ble on the two 64-bit words. */
  function Doubled(a: nat, b: nat): (nat, nat)
    requires a < W64 && b < W64
  {
    (BitXor((2 * a) % W64, if b >= Pow2(63) then 0x87 else 0), BitOr(if a >= Pow2(63) then 1 else 0, (2 * b) % W64))
  }

  lemma TopBit(a: nat)
    requires a < W64
    ensures 2 * a == (2 * a) % W64 + (if a >= Pow2(63) then W64 else 0) && 0 <= (2 * a) % W64 < W64
    ensures (2 * a) % 2 == 0 && ((2 * a) % W64) % 2 == 0
  {
    hide Pow2, Pow;
    Words();
    var h := Pow2(63);
    if a >= h {
      DivModUnique(2 * a, W64, 1, 2 * a - W64);
      assert 2 * a - W64 == 2 * (a - h);
    } else {
      ModSmall(2 * a, W64);
    }
  }

  lemma DoubledBelow(a: nat, b: nat)
    requires a < W64 && b < W64
    ensures Doubled(a, b).0 < W64
    ensures Doubled(a, b).1 == (if a >= Pow2(63) then 1 else 0) + (2 * b) % W64 < W64
  {
    hide BitXor, BitOr, Pow2, Pow;
    Words(); TopBit(a); TopBit(b);
    BitXorBound((2 * a) % W64, if b >= Pow2(63) then 0x87 else 0, 64);
    Pow2Zero();
    BitOrDisjoint((2 * b) % W64, if a >= Pow2(63) then 1 else 0, 1);
    EvenBelow((2 * b) % W64, W64, Pow2(63));
  }

  lemma EvenBelow(x: nat, w: nat, h: nat)
    requires x % 2 == 0 && x < w && w == h * 2
    ensures x + 1 < w
  {}

  /** The word operations multiply by x. */
  lemma DoubledIsTimesX(a: nat, b: nat)
    requires a < W64 && b < W64
    ensures a + b * W64 >= 0 && Doubled(a, b).0 + Doubled(a, b).1 * W64 >= 0
    ensures TimesX(a + b * W64, Doubled(a, b).0 + Doubled(a, b).1 * W64)
  {
    hide Pow2, Pow, BitOr, BitXor;
    Words(); TopBit(a); TopBit(b); DoubledBelow(a, b);
    var (ra, rb) := Doubled(a, b);
    var la, ca, lb := (2 * a) % W64, if a >= Pow2(63) then 1 else 0, (2 * b) % W64;
    assert ra == BitXor(la, if b >= Pow2(63) then 0x87 else 0);
    hide Doubled;
    MulSign(b, W64); MulSign(rb, W64);
    DigitBound(ra, rb, W64, W64);
    assert rb == ca + lb;
    if b >= Pow2(63) {
      Reduce(la, rb, W64);
      ShiftedUp(a, b, la, ca, lb, W64, 1);
    } else {
      BitXorZero(la);
      ShiftedUp(a, b, la, ca, lb, W64, 0);
    }
  }

  lemma ShiftedUp(a: int, b: int, la: int, ca: int, lb: int, w: int, cb: int)
    requires 2 * a == la + (if ca == 1 then w else 0) && 0 <= ca <= 1 && 2 * b == lb + (if cb == 1 then w else 0) && 0 <= cb <= 1
    ensures 2 * (a + b * w) == la + (ca + lb) * w + cb * (w * w)
  {
    MulDist(w, ca, lb); MulAssoc(2, b, w);
    if cb == 1 { MulDist(w, lb, w); }
    if ca == 1 { MulSign(1, w); }
  }

  /** The reduction touches the low word only. */
  lemma Reduce(la: nat, rb: nat, w: nat)
    requires w == W64 && la < w && rb < w
    ensures rb * w >= 0 && la + rb * w + 1 * (w * w) == BitXor(BitXor(la, 0x87) + rb * w, W128 + 0x87)
  {
    hide Pow2, Pow, BitXor;
    Words();
    BitXorBound(la, 0x87, 64);
    MulSign(rb, w);
    BitXorSplit(BitXor(la, 0x87), rb, 0x87, w, 64);
    BitXorTwice(la, 0x87);
    TopWord(rb, w);
    MulDist(w, rb, w);
  }

  /** rb below 2^64 next to the single bit 2^64. */
  lemma TopWord(rb: nat, w: nat)
    requires w == W64 && rb < w
    ensures BitXor(rb, w) == rb + w
  {
    hide Pow2, Pow, BitXor;
    BitXorSplit(rb, 0, 0, 1, 64);
    BitXorZero(rb); BitXorZero(1);
    MulSign(0, w);
  }

  lemma XorUnique(r: nat, s: nat, c: nat)
    requires BitXor(r, c) == BitXor(s, c)
    ensures r == s
  {
    BitXorTwice(r, c); BitXorTwice(s, c);
  }

  /** There is one such remainder. */
  lemma TimesXUnique(v: nat, r: nat, s: nat)
    requires v < W128 && TimesX(v, r) && TimesX(v, s)
    ensures r == s
  {
    hide BitXor;
    if 2 * v == r && 2 * v != s { OneRemainder(s, r); }
    if 2 * v == s && 2 * v != r { OneRemainder(r, s); }
    if 2 * v != r && 2 * v != s { XorUnique(r, s, W128 + 0x87); }
  }

  lemma OneRemainder(s: nat, r: nat)
    requires s < W128 && r < W128
    ensures BitXor(s, W128 + 0x87) != r
  {
    hide Pow2, Pow, BitXor;
    Words();
    MulMono(256, W64, W64);
    BitXorSplit(s, 0, 0x87, 1, 128);
    BitXorZero(1);
  }

  /** mbedtls_gf128mul_x_ble */
  function GfMulX(x: Block): (r: Block)
    ensures TimesX(LeVal(x), LeVal(r))
  {
    var a, b := LeVal(x[..8]), LeVal(x[8..]);
    hide Pow2, Pow, BitXor, BitOr, LeVal, ToLe, B8;
    Words();
    GfBytes(x);
    ToLe(Doubled(a, b).0, 8) + ToLe(Doubled(a, b).1, 8)
  }

  /** Two little-endian words. */
  lemma WordPair(s: seq<byte>, t: seq<byte>)
    requires |s| == 8 && |t| == 8
    ensures LeVal(t) * W64 >= 0 && LeVal(s + t) == LeVal(s) + LeVal(t) * W64 && LeVal(s) < W64 && LeVal(t) < W64
  {
    hide Pow2, Pow, LeVal, B8;
    Words();
    MulSign(LeVal(t), W64);
    LeConcat(s, t);
  }

  lemma WordBytes(w: nat)
    requires w < W64
    ensures LeVal(ToLe(w, 8)) == w
  {
    hide Pow2, Pow, LeVal, B8, ToLe;
    Words();
    ToLeVal(w, 8); ModSmall(w, W64);
  }

  lemma GfBytes(x: Block)
    ensures LeVal(x[..8]) < W64 && LeVal(x[8..]) < W64
    ensures var r := Doubled(LeVal(x[..8]), LeVal(x[8..]));
      TimesX(LeVal(x), LeVal(ToLe(r.0, 8) + ToLe(r.1, 8)))
  {
    hide Pow2, Pow, BitXor, BitOr, LeVal, ToLe, B8, TimesX, Doubled;
    WordPair(x[..8], x[8..]);
    assert x == x[..8] + x[8..];
    var a, b := LeVal(x[..8]), LeVal(x[8..]);
    DoubledBelow(a, b); DoubledIsTimesX(a, b);
    var r := Doubled(a, b);
    WordBytes(r.0); WordBytes(r.1);
    WordPair(ToLe(r.0, 8), ToLe(r.1, 8));
  }

  /** The tweak of block j: the initial one times x^j. */
  function Tweak(t: Block, j: nat): Block {
    if j == 0 then t else GfMulX(Tweak(t, j - 1))
  }

  // ------------------------------------------------------------ IEEE Std 1619-2007

  function Xor16(x: Block, y: Block): (r: Block) { XorAt(x, 0, y) }

  lemma Xor16Twice(x: Block, y: Block)
    ensures Xor16(Xor16(x, y), y) == x
  {
    hide Xor;
    forall i | 0 <= i < 16 ensures Xor16(Xor16(x, y), y)[i] == x[i] { XorTwice(x[i], y[i]); }
  }

  /** One block with tweak t: sections 5.3.1 and 5.4.1. */
  function Masked(F: Block -> Block, t: Block, x: Block): Block { Xor16(F(Xor16(x, t)), t) }

  ghost predicate Undoes(D: Block -> Block, C: Block -> Block) { forall x: Block :: D(C(x)) == x }

  lemma MaskedUndone(C: Block -> Block, D: Block -> Block, t: Block, x: Block)
    requires Undoes(D, C)
    ensures Masked(D, t, Masked(C, t, x)) == x
  {
    Xor16Twice(C(Xor16(x, t)), t);
    Xor16Twice(x, t);
  }

  // ---------------------------------------------------- data units as block lists

  /** Whole blocks and the octets that are left. */
  datatype Data = Data(bs: seq<Block>, rest: seq<byte>)

  function Blk(d: seq<byte>, j: nat): (b: Block)
    requires 16 * j + 16 <= |d|
  {
    d[16 * j..16 * j + 16]
  }

  function Split(d: seq<byte>): (x: Data)
    ensures |x.bs| == |d| / 16 && |x.rest| == |d| % 16
  {
    var n := |d| / 16;
    Data(seq(n, i requires 0 <= i < n => Blk(d, i)), d[16 * n..])
  }

  function Flat(bs: seq<Block>): (d: seq<byte>)
    ensures |d| == 16 * |bs|
  {
    if |bs| == 0 then [] else Flat(bs[..|bs| - 1]) + bs[|bs| - 1]
  }

  function Join(x: Data): seq<byte> { Flat(x.bs) + x.rest }

  lemma {:induction false} FlatIs(d: seq<byte>, bs: seq<Block>)
    requires |d| == 16 * |bs| && forall i :: 0 <= i < |bs| ==> Blk(d, i) == bs[i]
    ensures Flat(bs) == d
    decreases |bs|
  {
    if |bs| > 0 {
      var k := |bs| - 1;
      var e := d[..16 * k];
      forall i | 0 <= i < k ensures Blk(e, i) == bs[..k][i] { assert Blk(e, i) == Blk(d, i); }
      FlatIs(e, bs[..k]);
      assert d == e + Blk(d, k);
    }
  }

  /** A string with the blocks and the rest of x is the string of x. */
  lemma JoinIs(d: seq<byte>, x: Data)
    requires |d| == 16 * |x.bs| + |x.rest| && (forall i :: 0 <= i < |x.bs| ==> Blk(d, i) == x.bs[i]) && d[16 * |x.bs|..] == x.rest
    ensures Join(x) == d
  {
    var e := d[..16 * |x.bs|];
    forall i | 0 <= i < |x.bs| ensures Blk(e, i) == x.bs[i] { assert Blk(e, i) == Blk(d, i); }
    FlatIs(e, x.bs);
  }

  lemma JoinSplit(d: seq<byte>)
    ensures Join(Split(d)) == d
  {
    JoinIs(d, Split(d));
  }

  lemma {:induction false} FlatBlk(bs: seq<Block>, r: seq<byte>, i: nat)
    requires i < |bs|
    ensures Blk(Flat(bs) + r, i) == bs[i]
    decreases |bs|
  {
    var k := |bs| - 1;
    if i == k {
      assert Blk(Flat(bs) + r, k) == bs[k];
    } else {
      FlatBlk(bs[..k], bs[k] + r, i);
      assert Flat(bs) + r == Flat(bs[..k]) + (bs[k] + r);
    }
  }

  lemma SplitJoin(x: Data)
    requires |x.rest| < 16
    ensures Split(Join(x)) == x
  {
    var d := Join(x);
    forall i | 0 <= i < |x.bs| ensures Split(d).bs[i] == x.bs[i] { FlatBlk(x.bs, x.rest, i); }
    assert Split(d).bs == x.bs;
  }

  /** Each block with its own tweak. */
  function Whole(F: Block -> Block, t: Block, bs: seq<Block>): (r: seq<Block>)
    ensures |r| == |bs| && forall i :: 0 <= i < |bs| ==> r[i] == Masked(F, Tweak(t, i), bs[i])
  {
    seq(|bs|, i requires 0 <= i < |bs| => Masked(F, Tweak(t, i), bs[i]))
  }

  /** A data unit. With octets left over the last whole block lends them its tail, and
      the last two tweaks change places when decrypting: sections 5.3.2 and 5.4.2. */
  function Unit(F: Block -> Block, t: Block, x: Data, decrypt: bool): (r: Data)
    requires |x.bs| >= 1 && |x.rest| < 16
    ensures |r.bs| == |x.bs| && |r.rest| == |x.rest|
  {
    var n, b := |x.bs|, |x.rest|;
    if b == 0 then Data(Whole(F, t, x.bs), []) else
      var cc := Masked(F, Tweak(t, if decrypt then n else n - 1), x.bs[n - 1]);
      var last := Masked(F, Tweak(t, if decrypt then n - 1 else n), x.rest + cc[b..]);
      Data(Whole(F, t, x.bs[..n - 1]) + [last], cc[..b])
  }

  lemma WholeUndone(C: Block -> Block, D: Block -> Block, t: Block, bs: seq<Block>)
    requires Undoes(D, C)
    ensures Whole(D, t, Whole(C, t, bs)) == bs
  {
    hide Masked, Tweak;
    forall i | 0 <= i < |bs| ensures Whole(D, t, Whole(C, t, bs))[i] == bs[i] { MaskedUndone(C, D, Tweak(t, i), bs[i]); }
  }

  /** Decrypting undoes encrypting, with or without octets left over. */
  lemma UnitRoundTrip(C: Block -> Block, D: Block -> Block, t: Block, x: Data)
    requires Undoes(D, C) && |x.bs| >= 1 && |x.rest| < 16
    ensures Unit(D, t, Unit(C, t, x, false), true) == x
  {
    hide Masked, Tweak, Undoes, Whole;
    var n, b := |x.bs|, |x.rest|;
    if b == 0 {
      WholeUndone(C, D, t, x.bs);
    } else {
      var head := x.bs[..n - 1];
      var cc := Masked(C, Tweak(t, n - 1), x.bs[n - 1]);
      var y := x.rest + cc[b..];
      var w := Whole(C, t, head);
      assert (w + [Masked(C, Tweak(t, n), y)])[..n - 1] == w;
      WholeUndone(C, D, t, head);
      MaskedUndone(C, D, Tweak(t, n), y);
      assert y[b..] == cc[b..] && y[..b] == x.rest && cc[..b] + y[b..] == cc;
      MaskedUndone(C, D, Tweak(t, n - 1), x.bs[n - 1]);
      assert x.bs == head + [x.bs[n - 1]];
    }
  }

  // ------------------------------------- ciphertext stealing told by whole blocks

  /** A unit of whole blocks. */
  function WholeUnit(F: Block -> Block, t: Block, bs: seq<Block>, decrypt: bool): (r: seq<Block>)
    requires |bs| >= 1
    ensures |r| == |bs|
  {
    Unit(F, t, Data(bs, []), decrypt).bs
  }

  /** Section 5.3.2: CC is what the last whole block encrypts to. Its head is the last part
      of the ciphertext, and its tail, behind the last part of the plaintext, is encrypted
      as one more whole block, which takes the place of the last one. */
  lemma EncryptedSteals(C: Block -> Block, t: Block, x: Data, cc: Block, stolen: Block)
    requires |x.bs| >= 1 && 0 < |x.rest| < 16
    requires cc == WholeUnit(C, t, x.bs, false)[|x.bs| - 1] && stolen == x.rest + cc[|x.rest|..]
    ensures var n, y := |x.bs|, Unit(C, t, x, false);
      && y.bs[..n - 1] == WholeUnit(C, t, x.bs, false)[..n - 1] && y.rest == cc[..|x.rest|]
      && y.bs[n - 1] == WholeUnit(C, t, x.bs + [stolen], false)[n]
  {
    hide Masked, Tweak;
  }

  /** Section 5.4.2: PP is what the last whole block decrypts to in the place after it. Its
      head is the last part of the plaintext, and its tail, behind the last part of the
      ciphertext, is decrypted in place of the last whole block. */
  lemma DecryptedSteals(D: Block -> Block, t: Block, y: Data, filler: Block, pp: Block, stolen: Block)
    requires |y.bs| >= 1 && 0 < |y.rest| < 16
    requires pp == WholeUnit(D, t, y.bs[..|y.bs| - 1] + [filler, y.bs[|y.bs| - 1]], true)[|y.bs|]
    requires stolen == y.rest + pp[|y.rest|..]
    ensures var n, x := |y.bs|, Unit(D, t, y, true);
      x.bs == WholeUnit(D, t, y.bs[..n - 1] + [stolen], true) && x.rest == pp[..|y.rest|]
  {
    hide Masked, Tweak;
    var n := |y.bs|;
    assert (y.bs[..n - 1] + [filler, y.bs[n - 1]])[n] == y.bs[n - 1];
    var w := WholeUnit(D, t, y.bs[..n - 1] + [stolen], true);
    assert w == w[..n - 1] + [w[n - 1]];
  }

  /** The bytes of a data unit. */
  function UnitBytes(F: Block -> Block, t: Block, d: seq<byte>, decrypt: bool): (r: seq<byte>)
    requires |d| >= 16
    ensures |r| == |d|
  {
    Join(Unit(F, t, Split(d), decrypt))
  }

  /** Block j of a unit of whole blocks, in either direction: xor with the tweak, the block
      cipher, and xor with the tweak again. */
  lemma WholeBytes(F: Block -> Block, t: Block, d: seq<byte>, decrypt: bool, j: nat)
    requires |d| >= 16 && |d| % 16 == 0 && 16 * j + 16 <= |d|
    ensures var T := Tweak(t, j);
      Blk(UnitBytes(F, t, d, decrypt), j) == XorAt(F(XorAt(Blk(d, j), 0, T)), 0, T)
  {
    hide Tweak;
    FlatBlk(Unit(F, t, Split(d), decrypt).bs, Unit(F, t, Split(d), decrypt).rest, j);
  }

  /** Stealing on the bytes written when encrypting. */
  lemma EncryptedBytes(C: Block -> Block, t: Block, d: seq<byte>)
    requires |d| > 16 && |d| % 16 != 0
    ensures var n, b := |d| / 16, |d| % 16; var e := UnitBytes(C, t, d, false);
      var whole := UnitBytes(C, t, d[..16 * n], false); var cc := Blk(whole, n - 1);
      && e[..16 * (n - 1)] == whole[..16 * (n - 1)] && e[16 * n..] == cc[..b]
      && Blk(e, n - 1) == Blk(UnitBytes(C, t, d + cc[b..], false), n)
  {
    hide Masked, Tweak, Unit;
    var n, b, x := |d| / 16, |d| % 16, Split(d);
    var dw := d[..16 * n];
    SplitIs(dw, x.bs, []);
    var w := Unit(C, t, Data(x.bs, []), false);
    var cc := w.bs[n - 1];
    EncryptedSteals(C, t, x, cc, x.rest + cc[b..]);
    FlatBlk(w.bs, w.rest, n - 1);
    var y := Unit(C, t, x, false);
    HeadBytes(y, w, n - 1);
    FlatBlk(y.bs, y.rest, n - 1);
    var de := d + cc[b..];
    Extended(d, cc[b..]);
    var z := Unit(C, t, Data(x.bs + [x.rest + cc[b..]], []), false);
    FlatBlk(z.bs, z.rest, n);
  }

  lemma SplitIs(d: seq<byte>, bs: seq<Block>, r: seq<byte>)
    requires |d| == 16 * |bs| + |r| && |r| < 16 && (forall i :: 0 <= i < |bs| ==> Blk(d, i) == bs[i]) && d[16 * |bs|..] == r
    ensures Split(d) == Data(bs, r)
  {
    assert |d| / 16 == |bs|;
    assert Split(d).bs == bs;
  }

  lemma Extended(d: seq<byte>, more: seq<byte>)
    requires |d| >= 16 && |d| % 16 + |more| == 16
    ensures Split(d + more) == Data(Split(d).bs + [Split(d).rest + more], [])
  {
    var x, n := Split(d), |d| / 16;
    forall i | 0 <= i < n ensures Blk(d + more, i) == x.bs[i] {}
    assert Blk(d + more, n) == x.rest + more;
    SplitIs(d + more, x.bs + [x.rest + more], []);
  }

  lemma HeadBytes(y: Data, w: Data, k: nat)
    requires k <= |y.bs| && k <= |w.bs| && y.bs[..k] == w.bs[..k]
    ensures Join(y)[..16 * k] == Join(w)[..16 * k] == Flat(y.bs[..k])
  {
    FlatHead(y.bs, y.rest, k); FlatHead(w.bs, w.rest, k);
  }

  lemma {:induction false} FlatHead(bs: seq<Block>, r: seq<byte>, k: nat)
    requires k <= |bs|
    ensures (Flat(bs) + r)[..16 * k] == Flat(bs[..k])
    decreases |bs| - k
  {
    if k == |bs| {
      assert bs[..k] == bs && (Flat(bs) + r)[..16 * k] == Flat(bs);
    } else {
      FlatHead(bs, r, k + 1);
      assert bs[..k + 1][..k] == bs[..k];
      assert (Flat(bs) + r)[..16 * k] == (Flat(bs) + r)[..16 * (k + 1)][..16 * k];
    }
  }

  // ------------------------------------------------------------- the routine

  /** Block j of the output, and nothing else, becomes b. */
  method Put(output: array<byte>, j: nat, b: Block)
    requires 16 * j + 16 <= output.Length
    modifies output
    ensures Blk(output[..], j) == b
    ensures forall k :: 0 <= k < output.Length && !(16 * j <= k < 16 * j + 16) ==> output[k] == old(output[k])
  {
    for i := 0 to 16
      invariant forall k :: 0 <= k < i ==> output[16 * j + k] == b[k]
      invariant forall k :: 0 <= k < output.Length && !(16 * j <= k < 16 * j + i) ==> output[k] == old(output[k])
    {
      output[16 * j + i] := b[i];
    }
  }

  /** The blocks in front of block j stay when only it is written. */
  lemma OtherBlocks(o: seq<byte>, o': seq<byte>, j: nat)
    requires |o| == |o'| && 16 * j + 16 <= |o| && forall k :: 0 <= k < |o| && !(16 * j <= k < 16 * j + 16) ==> o'[k] == o[k]
    ensures forall i :: 0 <= i < j ==> Blk(o', i) == Blk(o, i)
  {}

  /** The tweak the loop uses for block j. */
  function LoopTweak(t: Block, j: nat, n: nat, swap: bool): Block {
    if swap && j == n - 1 then Tweak(t, n) else Tweak(t, j)
  }

  lemma TweakNext(t: Block, j: nat)
    ensures Tweak(t, 0) == t && Tweak(t, j + 1) == GfMulX(Tweak(t, j))
  {}

  lemma MaskedIs(F: Block -> Block, t: Block, x: Block)
    ensures Masked(F, t, x) == Xor16(F(Xor16(x, t)), t)
  {}

  /** The loop over whole blocks. */
  method WholeBlocks(F: Block -> Block, swap: bool, t: Block, input: seq<byte>, output: array<byte>, n: nat) returns (tweak: Block, prev: Block)
    requires 1 <= n && 16 * n <= |input| == output.Length
    modifies output
    ensures forall i :: 0 <= i < n ==> Blk(output[..], i) == Masked(F, LoopTweak(t, i, n, swap), Blk(input, i))
    ensures swap ==> prev == Tweak(t, n - 1)
    ensures !swap ==> tweak == Tweak(t, n)
  {
    hide GfMulX, Tweak, Masked, Xor16;
    TweakNext(t, 0);
    tweak, prev := t, Zeroes(16);
    for j := 0 to n
      invariant swap && j == n ==> prev == Tweak(t, n - 1)
      invariant !(swap && j == n) ==> tweak == Tweak(t, j)
      invariant forall i :: 0 <= i < j ==> Blk(output[..], i) == Masked(F, LoopTweak(t, i, n, swap), Blk(input, i))
    {
      if swap && j == n - 1 {
        TweakNext(t, j);
        prev := tweak;
        tweak := GfMulX(tweak);
      }
      TweakNext(t, j);
      MaskedIs(F, tweak, Blk(input, j));
      var tmp := Xor16(Blk(input, j), tweak);
      tmp := F(tmp);
      ghost var before := output[..];
      Put(output, j, Xor16(tmp, tweak));
      OtherBlocks(before, output[..], j);
      tweak := GfMulX(tweak);
    }
  }

  /** tmp: the rest of the input and the stolen tail, each xored with its part of t. */
  lemma StolenBlock(rest: seq<byte>, cc: Block, t: Block)
    requires |rest| < 16
    ensures seq(16, i requires 0 <= i < 16 => if i < |rest| then Xor(rest[i], t[i]) else Xor(cc[i], t[i])) == Xor16(rest + cc[|rest|..], t)
  {}

  /** Ciphertext stealing. */
  method Steal(F: Block -> Block, t: Block, rest: seq<byte>, output: array<byte>, n: nat)
    requires 1 <= n && 0 < |rest| < 16 && output.Length == 16 * n + |rest|
    modifies output
    ensures var cc := old(Blk(output[..], n - 1));
      && output[16 * n..] == cc[..|rest|]
      && Blk(output[..], n - 1) == Masked(F, t, rest + cc[|rest|..])
    ensures forall k :: 0 <= k < 16 * (n - 1) ==> output[k] == old(output[k])
  {
    hide XorAt, Xor;
    var b, p := |rest|, 16 * (n - 1);
    ghost var cc := Blk(output[..], n - 1);
    for i := 0 to b
      invariant forall k :: 0 <= k < 16 * n ==> output[k] == old(output[k])
      invariant forall k :: 0 <= k < i ==> output[16 * n + k] == cc[k]
    {
      output[16 * n + i] := output[p + i];
    }
    var prev := output[p..p + 16];
    forall k | 0 <= k < 16 ensures prev[k] == cc[k] {
      assert cc[k] == old(output[..])[p + k] && output[p + k] == old(output[p + k]);
    }
    assert prev == cc;
    var tmp: Block := seq(16, i requires 0 <= i < 16 => if i < b then Xor(rest[i], t[i]) else Xor(prev[i], t[i]));
    StolenBlock(rest, cc, t);
    tmp := F(tmp);
    Put(output, n - 1, Xor16(tmp, t));
  }

  /** mbedtls_aes_crypt_xts on disjoint buffers: F is the block cipher in the given
      direction, Et the encryption of the tweak key. */
  method CryptXts(decrypt: bool, F: Block -> Block, Et: Block -> Block, dataUnit: Block, input: seq<byte>, output: array<byte>)
    returns (st: Status)
    requires output.Length == |input|
    modifies output
    ensures st == if |input| < 16 || |input| > 0x100000 * 16 then Fail(ERR_AES_INVALID_INPUT_LENGTH) else Ok
    ensures st.Fail? ==> output[..] == old(output[..])
    ensures st.Ok? ==> output[..] == UnitBytes(F, Et(dataUnit), input, decrypt)
  {
    hide Masked, Tweak;
    if |input| < 16 { return Fail(ERR_AES_INVALID_INPUT_LENGTH); }
    if |input| > 0x100000 * 16 { return Fail(ERR_AES_INVALID_INPUT_LENGTH); }
    var n, b := |input| / 16, |input| % 16;
    ghost var t, x := Et(dataUnit), Split(input);
    var swap := b > 0 && decrypt;
    var tweak, prev := WholeBlocks(F, swap, Et(dataUnit), input, output, n);
    if b > 0 {
      ghost var before := output[..];
      Steal(F, if decrypt then prev else tweak, input[16 * n..], output, n);
      HeadKept(before, output[..], n);
    }
    UnitIs(output[..], F, t, x, decrypt);
    st := Ok;
  }

  lemma HeadKept(o: seq<byte>, o': seq<byte>, n: nat)
    requires |o| == |o'| && 1 <= n && 16 * n <= |o| && forall k :: 0 <= k < 16 * (n - 1) ==> o'[k] == o[k]
    ensures forall i :: 0 <= i < n - 1 ==> Blk(o', i) == Blk(o, i)
  {}

  lemma UnitIs(o: seq<byte>, F: Block -> Block, t: Block, x: Data, decrypt: bool)
    requires |x.bs| >= 1 && |x.rest| < 16 && |o| == 16 * |x.bs| + |x.rest|
    requires forall i :: 0 <= i < |x.bs| ==> Blk(o, i) == Unit(F, t, x, decrypt).bs[i]
    requires o[16 * |x.bs|..] == Unit(F, t, x, decrypt).rest
    ensures o == Join(Unit(F, t, x, decrypt))
  {
    JoinIs(o, Unit(F, t, x, decrypt));
  }

  /** Bytes in, bytes back. */
  lemma BytesRoundTrip(C: Block -> Block, D: Block -> Block, t: Block, d: seq<byte>)
    requires Undoes(D, C) && |d| >= 16
    ensures UnitBytes(D, t, UnitBytes(C, t, d, false), true) == d
  {
    UnitRoundTrip(C, D, t, Split(d));
    SplitJoin(Unit(C, t, Split(d), false));
    JoinSplit(d);
  }

  /** Encrypting, then decrypting with the inverse of the block cipher. */
  method EncryptAndDecrypt(C: Block -> Block, D: Block -> Block, Et: Block -> Block, dataUnit: Block, input: seq<byte>)
    returns (st: Status, back: seq<byte>)
    requires Undoes(D, C)
    ensures st == if |input| < 16 || |input| > 0x100000 * 16 then Fail(ERR_AES_INVALID_INPUT_LENGTH) else Ok
    ensures st.Ok? ==> back == input
  {
    hide UnitBytes, Undoes;
    back := [];
    var c, d := new byte[|input|], new byte[|input|];
    :- CryptXts(false, C, Et, dataUnit, input, c);
    BytesRoundTrip(C, D, Et(dataUnit), input);
    :- CryptXts(true, D, Et, dataUnit, c[..], d);
    return Ok, d[..];
  }
}
