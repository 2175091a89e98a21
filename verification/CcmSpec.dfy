/** CCM as RFC 3610 sections 2.2 and 2.3 define it, over any function on 16-byte
    blocks, and the same computation taken one byte at a time. */
module CcmSpec {
  import opened Arith
  import opened Bytes
  import opened OctetBlocks

  // -------------------------------------------------------------------- RFC 3610

  /** A message with its nonce, associated data and lengths. */
  datatype Params = Params(nonce: seq<byte>, adLen: nat, msgLen: nat, tagLen: nat) {
    /** The lengths CCM allows. An empty tag is for CCM*, where no length of the message
        enters the computation: it is 0 here. */
    predicate Ok() {
      && 7 <= |nonce| <= 13 && adLen < 0xFF00
      && (tagLen == 0 || (4 <= tagLen <= 16 && tagLen % 2 == 0))
      && (if tagLen == 0 then msgLen == 0 else msgLen < B8(Q()))
    }

    /** The lengths the computation goes by, when these were announced. */
    function Effective(): Params { if tagLen == 0 then this.(msgLen := 0) else this }

    /** The announced lengths are accepted; only CCM* has messages without a tag. */
    predicate Accepted(star: bool) { Effective().Ok() && (tagLen > 0 || star) }

    /** n octets of message are not too many. */
    predicate Bounds(n: nat) { tagLen == 0 || n <= msgLen }

    /** Octets in the length field. */
    function Q(): nat { if |nonce| <= 13 then 15 - |nonce| else 2 }
  }

  /** The lengths accepted, listed: tags of 4, 6 .. 16 octets and messages whose length fits
      15 octets less those of the nonce; in CCM* also no tag and any message. */
  lemma AcceptedLengths(p: Params, star: bool)
    ensures p.Accepted(star) <==>
      && |p.nonce| in {7, 8, 9, 10, 11, 12, 13} && p.adLen <= 0xFEFF
      && ((p.tagLen in {4, 6, 8, 10, 12, 14, 16} && p.msgLen < B8(15 - |p.nonce|)) || (p.tagLen == 0 && star))
  {
    hide B8;
  }

  /** B_0 */
  function B0(p: Params): (b: Block)
    requires 7 <= |p.nonce| <= 13 && (p.tagLen == 0 || 4 <= p.tagLen <= 16)
  {
    [FlagsOctet(p.adLen > 0, p.tagLen, p.Q())] + p.nonce + ToBe(p.msgLen, p.Q())
  }

  /** The flags; without a tag its field wraps around and fills all bits from 3 up. */
  function FlagsOctet(ad: bool, t: nat, q: nat): byte
    requires (t == 0 || 4 <= t <= 16) && 2 <= q <= 8
  {
    (if t == 0 then 0xF8 else (if ad then 64 else 0) + 8 * ((t - 2) / 2)) + (q - 1)
  }

  /** A_i */
  function A(p: Params, i: nat): (b: Block)
    requires 7 <= |p.nonce| <= 13
  {
    [p.Q() - 1] + p.nonce + ToBe(i, p.Q())
  }

  /** Two octets of length before the associated data. */
  function EncodeAd(a: seq<byte>): seq<byte> { if |a| == 0 then [] else ToBe(|a|, 2) + a }

  /** Zeros up to a multiple of the block length. */
  function Pad(s: seq<byte>): (r: seq<byte>)
    ensures |r| % 16 == 0
  {
    s + Zeroes((16 - |s| % 16) % 16)
  }

  /** CBC-MAC from chaining value y. */
  function Mac(E: Block -> Block, y: Block, s: seq<byte>): Block
    requires |s| % 16 == 0
    decreases |s|
  {
    if |s| == 0 then y else Mac(E, E(XorAt(y, 0, s[..16])), s[16..])
  }

  /** X_(n+1): the value before truncation to T. */
  function AuthValue(E: Block -> Block, p: Params, a: seq<byte>, m: seq<byte>): Block
    requires p.Ok()
  {
    var ad, msg := Pad(EncodeAd(a)), Pad(m);
    WholeBlocks(|ad|, |msg|);
    Mac(E, E(B0(p)), ad + msg)
  }

  lemma WholeBlocks(i: nat, j: nat)
    requires i % 16 == 0 && j % 16 == 0
    ensures (i + j) % 16 == 0
  {}

  // ------------------------------------------------- what the formatted blocks encode

  /** The fields of the flags of B_0: Adata, M' = (M - 2) / 2 and L' = L - 1. */
  lemma FlagsFields(ad: bool, t: nat, q: nat)
    requires 4 <= t <= 16 && t % 2 == 0 && 2 <= q <= 8
    ensures var f := FlagsOctet(ad, t, q);
      f / 64 == (if ad then 1 else 0) && 2 * ((f / 8) % 8) + 2 == t && f % 8 + 1 == q
  {}

  /** B_0 determines nonce, lengths of message and tag, and whether there is associated data. */
  lemma FirstBlockInjective(p: Params, r: Params)
    requires p.Ok() && r.Ok() && p.tagLen > 0 && r.tagLen > 0 && B0(p) == B0(r)
    ensures p.nonce == r.nonce && p.msgLen == r.msgLen && p.tagLen == r.tagLen && (p.adLen > 0 <==> r.adLen > 0)
  {
    hide B8, ToBe, FlagsOctet;
    var x, y, n := B0(p), B0(r), |p.nonce|;
    assert x[0] == FlagsOctet(p.adLen > 0, p.tagLen, p.Q()) && y[0] == FlagsOctet(r.adLen > 0, r.tagLen, r.Q());
    FlagsFields(p.adLen > 0, p.tagLen, p.Q()); FlagsFields(r.adLen > 0, r.tagLen, r.Q());
    assert x[1..n + 1] == p.nonce && y[1..n + 1] == r.nonce;
    assert x[n + 1..] == ToBe(p.msgLen, p.Q()) && y[n + 1..] == ToBe(r.msgLen, r.Q());
    ToBeVal(p.msgLen, p.Q()); ToBeVal(r.msgLen, r.Q());
    ModSmall(p.msgLen, B8(p.Q())); ModSmall(r.msgLen, B8(r.Q()));
  }

  /** The string that is authenticated: B_0 B_1 ... of section 2.2. */
  function Formatted(p: Params, a: seq<byte>, m: seq<byte>): (s: seq<byte>)
    requires p.Ok()
    ensures |s| % 16 == 0
  {
    var ad, msg := Pad(EncodeAd(a)), Pad(m);
    OneBlockMore(|ad|, |msg|);
    B0(p) + (ad + msg)
  }

  lemma OneBlockMore(i: nat, j: nat)
    requires i % 16 == 0 && j % 16 == 0
    ensures (16 + (i + j)) % 16 == 0
  {}

  /** The authentication value is CBC-MAC from zero over that string. */
  lemma AuthIsMac(E: Block -> Block, p: Params, a: seq<byte>, m: seq<byte>)
    requires p.Ok()
    ensures AuthValue(E, p, a, m) == Mac(E, Zeroes(16), Formatted(p, a, m))
  {
    hide B0, Pad, EncodeAd;
    var s := Formatted(p, a, m);
    assert s[..16] == B0(p) && s[16..] == Pad(EncodeAd(a)) + Pad(m);
    forall i | 0 <= i < 16 ensures XorAt(Zeroes(16), 0, B0(p))[i] == B0(p)[i] { BitXorZero(B0(p)[i]); }
    assert XorAt(Zeroes(16), 0, B0(p)) == B0(p);
  }

  /** One more block: the last step of CBC-MAC. */
  lemma MacLast(E: Block -> Block, y: Block, s: seq<byte>, b: Block)
    requires |s| % 16 == 0
    ensures Mac(E, y, s + b) == E(XorAt(Mac(E, y, s), 0, b))
  {
    hide XorAt;
    MacConcat(E, y, s, b);
    assert b[..16] == b && b[16..] == [];
    assert Mac(E, E(XorAt(Mac(E, y, s), 0, b)), []) == E(XorAt(Mac(E, y, s), 0, b));
  }

  /** Two octets of length, big-endian, and then the data. */
  lemma EncodedAd(a: seq<byte>)
    requires 0 < |a| < 0xFF00
    ensures |EncodeAd(a)| == |a| + 2 && BeVal(EncodeAd(a)[..2]) == |a| && EncodeAd(a)[2..] == a
  {
    hide ToBe, B8, BeVal;
    ToBeVal(|a|, 2);
    TwoOctets(); ModSmall(|a|, B8(2));
    assert EncodeAd(a)[..2] == ToBe(|a|, 2);
  }

  /** No formatted string is the beginning of another one: it determines nonce, associated
      data, message and tag length. */
  lemma PrefixFree(p: Params, a: seq<byte>, m: seq<byte>, r: Params, b: seq<byte>, n: seq<byte>)
    requires p.Ok() && |a| == p.adLen && |m| == p.msgLen && p.tagLen > 0
    requires r.Ok() && |b| == r.adLen && |n| == r.msgLen && r.tagLen > 0
    requires Formatted(p, a, m) <= Formatted(r, b, n)
    ensures p == r && a == b && m == n
  {
    var s, t := Formatted(p, a, m), Formatted(r, b, n);
    hide B0, B8, Pad, EncodeAd, Formatted;
    FirstBlocks(p, a, m); FirstBlocks(r, b, n);
    assert s[..16] == t[..16];
    FirstBlockInjective(p, r);
    if |a| > 0 {
      EncodedAd(a); EncodedAd(b);
      LengthOctetsIn(a, m); LengthOctetsIn(b, n);
      assert s[16..][..2] == t[16..][..2];
    }
    SameParts(EncodeAd(a), m, EncodeAd(b), n, s[16..], t[16..]);
    EncodeAdInjective(a, b);
  }

  lemma FirstBlocks(p: Params, a: seq<byte>, m: seq<byte>)
    requires p.Ok()
    ensures |Formatted(p, a, m)| >= 16 && Formatted(p, a, m)[..16] == B0(p) && Formatted(p, a, m)[16..] == Pad(EncodeAd(a)) + Pad(m)
  {}

  lemma LengthOctetsIn(a: seq<byte>, m: seq<byte>)
    requires |EncodeAd(a)| >= 2
    ensures var s := Pad(EncodeAd(a)) + Pad(m); |s| >= 2 && s[..2] == EncodeAd(a)[..2]
  {
    hide EncodeAd;
  }

  /** Padded parts of the same lengths. */
  lemma SameParts(a: seq<byte>, m: seq<byte>, b: seq<byte>, n: seq<byte>, s: seq<byte>, t: seq<byte>)
    requires |a| == |b| && |m| == |n| && s == Pad(a) + Pad(m) && t == Pad(b) + Pad(n) && s <= t
    ensures a == b && m == n
  {
    var k := |Pad(a)|;
    assert |Pad(b)| == k && |Pad(m)| == |Pad(n)|;
    assert s == t;
    assert s[..|a|] == a && t[..|b|] == b;
    assert s[k..k + |m|] == m && t[k..k + |n|] == n;
  }

  lemma EncodeAdInjective(a: seq<byte>, b: seq<byte>)
    requires |a| == |b| && EncodeAd(a) == EncodeAd(b)
    ensures a == b
  {
    if |a| > 0 {
      assert EncodeAd(a)[2..] == a && EncodeAd(b)[2..] == b;
    }
  }

  /** Packet vector 1 of RFC 3610: nonce, eight octets of header, 23 of message, M = 8. */
  const VECTOR1: Params := Params([0, 0, 0, 3, 2, 1, 0, 0xA0, 0xA1, 0xA2, 0xA3, 0xA4, 0xA5], 8, 23, 8)

  lemma PacketVector1()
    ensures VECTOR1.Ok()
    ensures B0(VECTOR1) == [0x59, 0, 0, 0, 3, 2, 1, 0, 0xA0, 0xA1, 0xA2, 0xA3, 0xA4, 0xA5, 0, 0x17]
    ensures A(VECTOR1, 1) == [1, 0, 0, 0, 3, 2, 1, 0, 0xA0, 0xA1, 0xA2, 0xA3, 0xA4, 0xA5, 0, 1]
    ensures A(VECTOR1, 0) == [1, 0, 0, 0, 3, 2, 1, 0, 0xA0, 0xA1, 0xA2, 0xA3, 0xA4, 0xA5, 0, 0]
  {
    hide ToBe, B8;
    TwoOctets();
    SmallLength(23); SmallLength(1); SmallLength(0);
  }

  lemma PacketVector1Ad()
    ensures Pad(EncodeAd([0, 1, 2, 3, 4, 5, 6, 7])) == [0, 8, 0, 1, 2, 3, 4, 5, 6, 7, 0, 0, 0, 0, 0, 0]
  {
    hide ToBe, B8;
    SmallLength(8);
  }

  lemma SmallLength(n: nat)
    requires n < 256
    ensures ToBe(n, 2) == [0, n]
  {
    B8Step(0); B8Step(1);
    assert Byte(n, 1) == 0 && Byte(n, 0) == n;
    assert ToBe(n, 2)[0] == Byte(n, 1) && ToBe(n, 2)[1] == Byte(n, 0);
  }

  /** Octet k of S_1 S_2 ... */
  function KeyStream(E: Block -> Block, p: Params, k: nat): byte
    requires 7 <= |p.nonce| <= 13
  {
    E(A(p, k / 16 + 1))[k % 16]
  }

  /** m xored with the key stream from octet k on. */
  function Ctr(E: Block -> Block, p: Params, k: nat, m: seq<byte>): (c: seq<byte>)
    requires 7 <= |p.nonce| <= 13
    ensures |c| == |m| && forall i :: 0 <= i < |m| ==> c[i] == Xor(m[i], KeyStream(E, p, k + i))
  {
    seq(|m|, i requires 0 <= i < |m| => Xor(m[i], KeyStream(E, p, k + i)))
  }

  /** U: the encrypted authentication value. */
  function Tag(E: Block -> Block, p: Params, a: seq<byte>, m: seq<byte>): (u: seq<byte>)
    requires p.Ok()
    ensures |u| == p.tagLen
  {
    XorAt(AuthValue(E, p, a, m), 0, E(A(p, 0)))[..p.tagLen]
  }

  /** A message of up to one block with a 13-octet nonce: its octets are masked with counter
      1, those of the tag with counter 0. */
  lemma ShortMessage(E: Block -> Block, p: Params, a: seq<byte>, m: seq<byte>)
    requires p.Ok() && |p.nonce| == 13 && |m| <= 16
    ensures forall i :: 0 <= i < |m| ==> Ctr(E, p, 0, m)[i] == Xor(m[i], E([1] + p.nonce + [0, 1])[i])
    ensures forall i :: 0 <= i < p.tagLen ==>
      Tag(E, p, a, m)[i] == Xor(Mac(E, Zeroes(16), Formatted(p, a, m))[i], E([1] + p.nonce + [0, 0])[i])
  {
    hide Xor, Mac, Formatted, B8, AuthValue;
    SmallLength(1); SmallLength(0);
    assert A(p, 1) == [1] + p.nonce + [0, 1] && A(p, 0) == [1] + p.nonce + [0, 0];
    AuthIsMac(E, p, a, m);
  }

  /** Encryption undone by applying it again. */
  lemma CtrTwice(E: Block -> Block, p: Params, k: nat, m: seq<byte>)
    requires 7 <= |p.nonce| <= 13
    ensures Ctr(E, p, k, Ctr(E, p, k, m)) == m
  {
    forall i | 0 <= i < |m| ensures Ctr(E, p, k, Ctr(E, p, k, m))[i] == m[i] {
      XorTwice(m[i], KeyStream(E, p, k + i));
    }
  }

  lemma CtrConcat(E: Block -> Block, p: Params, k: nat, m: seq<byte>, r: seq<byte>)
    requires 7 <= |p.nonce| <= 13
    ensures Ctr(E, p, k, m) + Ctr(E, p, k + |m|, r) == Ctr(E, p, k, m + r)
  {
    hide KeyStream, Xor, Ctr;
    var l, c := Ctr(E, p, k, m) + Ctr(E, p, k + |m|, r), Ctr(E, p, k, m + r);
    forall i | 0 <= i < |c| ensures l[i] == c[i] {
      if i >= |m| { assert c[i] == Xor(r[i - |m|], KeyStream(E, p, k + |m| + (i - |m|))); }
    }
  }

  /** Blocks of key stream that n octets use. */
  function Blocks(n: nat): nat { (n + 15) / 16 }

  /** Counter blocks are equal exactly when the counters agree in q octets. */
  lemma SameCounter(p: Params, i: nat, j: nat)
    requires 7 <= |p.nonce| <= 13
    ensures A(p, i) == A(p, j) <==> i % B8(p.Q()) == j % B8(p.Q())
  {
    hide ToBe, BeVal, B8;
    var q, b := p.Q(), 1 + |p.nonce|;
    ToBeVal(i, q); ToBeVal(j, q);
    assert A(p, i)[b..] == ToBe(i, q) && A(p, j)[b..] == ToBe(j, q);
    if i % B8(q) == j % B8(q) { BeBytesOf(ToBe(i, q)); BeBytesOf(ToBe(j, q)); }
  }

  /** The blocks of the counters from .. to are pairwise different. */
  ghost predicate AllDifferent(p: Params, from: nat, to: nat)
    requires 7 <= |p.nonce| <= 13
  {
    forall i: nat, j: nat :: from <= i < j <= to ==> A(p, i) != A(p, j)
  }

  lemma DifferentUpTo(p: Params, from: nat, to: nat)
    requires 7 <= |p.nonce| <= 13 && from <= 1
    ensures AllDifferent(p, from, to) <==> to < from + B8(p.Q())
  {
    hide A, B8;
    var w := B8(p.Q());
    if to < from + w {
      forall i: nat, j: nat | from <= i < j <= to ensures A(p, i) != A(p, j) {
        SameCounter(p, i, j);
        if i % w == j % w { CloseMultiples(i, j, w); }
      }
    } else {
      SameCounter(p, from, from + w);
      AddModulus(from, w);
      assert from < from + w <= to;
    }
  }

  lemma CloseMultiples(i: int, j: int, w: int)
    requires w > 0 && i < j < i + w
    ensures i % w != j % w
  {
    DivMod(i, w); DivMod(j, w);
    var d := j / w - i / w;
    if i % w == j % w {
      MulDist(w, j / w, -(i / w)); MulNeg(i / w, w);
      assert d * w == j - i;
      if d >= 1 { MulMono(1, d, w); } else { MulMono(d, 0, w); }
    }
  }

  lemma AddModulus(i: int, w: int)
    requires w > 0
    ensures (i + w) % w == i % w
  {
    DivMod(i, w); MulDist(w, i / w, 1);
    DivModUnique(i + w, w, i / w + 1, i % w);
  }

  /** A message of n octets uses the counters 1 .. Blocks(n), and its tag counter 0. The
      former differ exactly for at most 256^q blocks, all of them exactly for fewer. A
      message with a tag is always shorter; without one, in CCM*, no length is checked. */
  lemma CountersDistinct(p: Params, star: bool)
    requires p.Accepted(star)
    ensures AllDifferent(p, 1, Blocks(p.msgLen)) <==> Blocks(p.msgLen) <= B8(p.Q())
    ensures AllDifferent(p, 0, Blocks(p.msgLen)) <==> Blocks(p.msgLen) < B8(p.Q())
    ensures p.tagLen > 0 ==> AllDifferent(p, 0, Blocks(p.msgLen))
  {
    hide A, B8, AllDifferent;
    DifferentUpTo(p, 0, Blocks(p.msgLen)); DifferentUpTo(p, 1, Blocks(p.msgLen));
    if p.tagLen > 0 { B8Mono(1, p.Q()); B8Step(0); }
  }

  /** A 13-octet nonce leaves two octets of counter: block 65537 of a message without a
      tag has the key stream of block 1, and block 65536 the block kept for the tag. */
  lemma CounterRepeats(p: Params)
    requires |p.nonce| == 13 && p.tagLen == 0 && p.adLen < 0xFF00 && Blocks(p.msgLen) >= 65537
    ensures p.Accepted(true) && A(p, 65537) == A(p, 1) && A(p, 65536) == A(p, 0)
    ensures !AllDifferent(p, 1, Blocks(p.msgLen))
  {
    hide A, B8, AllDifferent, Pow;
    TwoOctets();
    SameCounter(p, 65537, 1); SameCounter(p, 65536, 0);
    CountersDistinct(p, true);
  }

  lemma TwoOctets()
    ensures B8(2) == 65536
  {
    hide B8;
    B8Step(0); B8Step(1);
  }

  // ------------------------------------------------------------- byte by byte

  /** A chaining value and the position in the block being filled. */
  datatype Filling = Filling(y: Block, pos: nat)

  function Feed(E: Block -> Block, f: Filling, b: byte): Filling
    requires f.pos < 16
  {
    var y := XorAt(f.y, f.pos, [b]);
    if f.pos == 15 then Filling(E(y), 0) else Filling(y, f.pos + 1)
  }

  function FeedAll(E: Block -> Block, f: Filling, s: seq<byte>): (r: Filling)
    requires f.pos < 16
    ensures r.pos < 16 && r.pos == (f.pos + |s|) % 16
  {
    if |s| == 0 then f else Feed(E, FeedAll(E, f, s[..|s| - 1]), s[|s| - 1])
  }

  function Flush(E: Block -> Block, f: Filling): Block { if f.pos == 0 then f.y else E(f.y) }

  lemma {:induction false} FeedConcat(E: Block -> Block, f: Filling, s: seq<byte>, t: seq<byte>)
    requires f.pos < 16
    ensures FeedAll(E, f, s + t) == FeedAll(E, FeedAll(E, f, s), t)
    decreases |t|
  {
    if |t| == 0 {
      assert s + t == s;
    } else {
      FeedConcat(E, f, s, t[..|t| - 1]);
      assert (s + t)[..|s + t| - 1] == s + t[..|t| - 1];
    }
  }

  /** Bytes that stay within one block are xored in together. */
  lemma {:induction false} FeedPiece(E: Block -> Block, f: Filling, s: seq<byte>)
    requires f.pos + |s| <= 16 && f.pos < 16
    ensures FeedAll(E, f, s) ==
      if f.pos + |s| == 16 then Filling(E(XorAt(f.y, f.pos, s)), 0) else Filling(XorAt(f.y, f.pos, s), f.pos + |s|)
    decreases |s|
  {
    if |s| == 0 {
      assert XorAt(f.y, f.pos, s) == f.y;
    } else {
      var k := |s| - 1;
      FeedPiece(E, f, s[..k]);
      assert XorAt(XorAt(f.y, f.pos, s[..k]), f.pos + k, [s[k]]) == XorAt(f.y, f.pos, s);
    }
  }

  /** Feeding all bytes and flushing is CBC-MAC over the padded string. */
  lemma {:induction false} FeedIsMac(E: Block -> Block, y: Block, s: seq<byte>)
    ensures Flush(E, FeedAll(E, Filling(y, 0), s)) == Mac(E, y, Pad(s))
    decreases |s|
  {
    hide XorAt, Pad;
    if |s| < 16 {
      FeedPiece(E, Filling(y, 0), s);
      LastBlock(E, y, s);
    } else {
      FeedPiece(E, Filling(y, 0), s[..16]);
      FeedConcat(E, Filling(y, 0), s[..16], s[16..]);
      assert s == s[..16] + s[16..];
      FeedIsMac(E, E(XorAt(y, 0, s[..16])), s[16..]);
      PadFirst(s);
    }
  }

  lemma PadFirst(s: seq<byte>)
    requires |s| >= 16
    ensures |Pad(s)| >= 16 && Pad(s)[..16] == s[..16] && Pad(s)[16..] == Pad(s[16..])
  {
    assert |s[16..]| % 16 == |s| % 16;
  }

  lemma LastBlock(E: Block -> Block, y: Block, s: seq<byte>)
    requires |s| < 16
    ensures Mac(E, y, Pad(s)) == if |s| == 0 then y else E(XorAt(y, 0, s))
  {
    if |s| > 0 {
      var d := Pad(s);
      assert d[..16] == d && d[16..] == [];
      forall i | 0 <= i < 16 ensures XorAt(y, 0, s)[i] == XorAt(y, 0, d)[i] { XorTwice(y[i], 0); }
      assert XorAt(y, 0, s) == XorAt(y, 0, d);
      assert Mac(E, E(XorAt(y, 0, d)), []) == E(XorAt(y, 0, d));
    }
  }

  lemma {:induction false} MacConcat(E: Block -> Block, y: Block, s: seq<byte>, t: seq<byte>)
    requires |s| % 16 == 0 && |t| % 16 == 0
    ensures Mac(E, y, s + t) == Mac(E, Mac(E, y, s), t)
    decreases |s|
  {
    if |s| == 0 {
      assert s + t == t;
    } else {
      assert (s + t)[..16] == s[..16] && (s + t)[16..] == s[16..] + t;
      MacConcat(E, E(XorAt(y, 0, s[..16])), s[16..], t);
    }
  }
}
