/** ccm.c: the streaming CCM context. mbedtls_cipher_update is a fixed function E on
    16-byte blocks and does not fail. */
module Ccm {
  import opened Arith
  import opened Bytes
  import opened OctetBlocks
  import opened CcmSpec
  import opened ReturnCodes

  const ERR_CCM_BAD_INPUT := -0x000D
  const ERR_CCM_AUTH_FAILED := -0x000F

  datatype Mode = Decrypt | Encrypt | StarDecrypt | StarEncrypt {
    predicate Encrypts() { Encrypt? || StarEncrypt? }
    predicate Star() { StarEncrypt? || StarDecrypt? }
  }

  // -------------------------------------------------- values of y and of the counter

  /** y after the associated data a, flushed once it is complete. */
  function AdY(E: Block -> Block, p: Params, a: seq<byte>): Block
    requires p.Ok()
  {
    var f := FeedAll(E, Filling(E(B0(p)), 0), ToBe(p.adLen, 2) + a);
    if |a| == 0 then E(B0(p)) else if |a| == p.adLen then Flush(E, f) else f.y
  }

  /** y after the plaintext m. */
  function MsgY(E: Block -> Block, p: Params, a: seq<byte>, m: seq<byte>): Block
    requires p.Ok()
  {
    var f := FeedAll(E, Filling(AdY(E, p, a), 0), m);
    if |m| == p.msgLen then Flush(E, f) else f.y
  }

  /** Counter blocks used up by n octets. */
  function Count(p: Params, n: nat): nat { if n == p.msgLen then Blocks(n) else n / 16 }

  /** With all data in, y is the authentication value. */
  lemma MsgYIsAuth(E: Block -> Block, p: Params, a: seq<byte>, m: seq<byte>)
    requires p.Ok() && |a| == p.adLen && |m| == p.msgLen
    ensures MsgY(E, p, a, m) == AuthValue(E, p, a, m)
  {
    hide B0, FeedAll, Mac, ToBe;
    var x := E(B0(p));
    FeedIsMac(E, x, EncodeAd(a));
    if |a| == 0 { assert EncodeAd(a) == []; PadEmpty(E, x); }
    assert AdY(E, p, a) == Mac(E, x, Pad(EncodeAd(a)));
    FeedIsMac(E, AdY(E, p, a), m);
    WholeBlocks(|Pad(EncodeAd(a))|, |Pad(m)|);
    MacConcat(E, x, Pad(EncodeAd(a)), Pad(m));
  }

  lemma PadEmpty(E: Block -> Block, x: Block)
    ensures Pad([]) == [] && Mac(E, x, Pad([])) == x
  {}

  // ---------------------------------------------------------- incrementing ctr

  /** w = v + 1 has i zero octets at its low end: the next octet goes up by one. */
  lemma NextOctet(v: nat, w: nat, i: nat)
    requires w == v + 1 && w % B8(i) == 0
    ensures Byte(w, i) == (Byte(v, i) as int + 1) % 256
    ensures Byte(v, i) == 255 ==> w % B8(i + 1) == 0
    ensures Byte(v, i) != 255 ==> forall k :: k > i ==> Byte(w, k) == Byte(v, k)
    ensures forall k: nat :: k < i ==> Byte(w, k) == 0
  {
    B8Step(i);
    OctetUp(v, w, B8(i), B8(i + 1));
    hide B8, Pow;
    var h := w / B8(i);
    if Byte(v, i) != 255 {
      forall k | k > i ensures Byte(w, k) == Byte(v, k) { HigherOctet(v, i, k, h); }
    }
    forall k: nat | k < i ensures Byte(w, k) == 0 { LowerOctet(w, i, k); }
  }

  lemma OctetUp(v: int, w: int, p: int, p': int)
    requires p > 0 && p' == 256 * p && w == v + 1 && v >= 0 && w % p == 0
    ensures w / p >= 1 && v / p == w / p - 1
    ensures (w / p) % 256 == ((v / p) % 256 + 1) % 256
    ensures (v / p) % 256 == 255 <==> (w / p) % 256 == 0
    ensures (v / p) % 256 == 255 ==> w % p' == 0
  {
    var h := w / p;
    DivMod(w, p);
    if h <= 0 { MulMono(h, 0, p); }
    assert v / p == h - 1 by { MulDist(p, h, -1); DivModUnique(v, p, h - 1, p - 1); }
    UpMod(h);
    DivDiv(w, p, 256);
    if h % 256 == 0 { MulSign(p, 0); }
  }

  lemma UpMod(h: int)
    ensures h % 256 == ((h - 1) % 256 + 1) % 256 && ((h - 1) % 256 == 255 <==> h % 256 == 0)
  {}

  lemma HigherOctet(v: nat, i: nat, k: nat, h: nat)
    requires k > i && h >= 1 && (v + 1) / B8(i) == h && v / B8(i) == h - 1 && h % 256 != 0
    ensures Byte(v + 1, k) == Byte(v, k)
  {
    B8Add(i, k - i); B8Add(1, k - i - 1); B8Step(0); B8Step(k - i - 1);
    hide B8, Pow;
    DivDiv(v, B8(i), B8(k - i)); DivDiv(v + 1, B8(i), B8(k - i));
    DivDiv(h, 256, B8(k - i - 1)); DivDiv(h - 1, 256, B8(k - i - 1));
    SameQuotient(h);
  }

  lemma SameQuotient(h: int)
    requires h % 256 != 0
    ensures (h - 1) / 256 == h / 256
  {}

  lemma LowerOctet(w: nat, i: nat, k: nat)
    requires k < i && w % B8(i) == 0
    ensures Byte(w, k) == 0
  {
    B8Add(k + 1, i - k - 1); B8Step(k);
    hide B8, Pow;
    DivMod(w, B8(i));
    var c, p := w / B8(i), B8(k);
    var d := c * B8(i - k - 1);
    MulAssoc(c, B8(i - k - 1), 256 * p); MulAssoc(d, 256, p);
    DivModUnique(w, p, d * 256, 0);
    DivModUnique(d * 256, 256, d, 0);
  }

  /** The counter octets go up by one, the carry moving on while they wrap to zero. */
  method Increment(ctr: Block, q: nat, ghost p: Params, ghost v: nat) returns (r: Block)
    requires 7 <= |p.nonce| <= 13 && q == p.Q() && ctr == A(p, v)
    ensures r == A(p, v + 1)
  {
    hide ToBe, Byte, B8;
    r := ctr;
    var i := 0;
    B8Step(0);
    var more := true;
    ghost var want := A(p, v + 1);
    assert forall j :: 0 <= j < 16 - q ==> r[j] == want[j];
    while i < q && more
      invariant 0 <= i <= q && |r| == 16
      invariant forall j :: 0 <= j < 16 - q ==> r[j] == want[j]
      invariant more ==> (v + 1) % B8(i) == 0
      invariant more ==> forall j :: 16 - q <= j < 16 - i ==> r[j] == Byte(v, 15 - j)
      invariant more ==> forall j :: 16 - i <= j < 16 ==> r[j] == 0
      invariant !more ==> r == want
    {
      NextOctet(v, v + 1, i);
      var x: int := r[15 - i];
      r := r[15 - i := (x + 1) % 256];
      if r[15 - i] != 0 {
        more := false;
        forall j | 16 - q <= j < 16 ensures r[j] == Byte(v + 1, 15 - j) {}
      }
      i := i + 1;
    }
    if more { AllZero(v + 1, q); }
  }

  lemma AllZero(w: nat, q: nat)
    requires w % B8(q) == 0
    ensures forall k: nat :: k < q ==> Byte(w, k) == 0
  {
    forall k: nat | k < q ensures Byte(w, k) == 0 { LowerOctet(w, q, k); }
  }

  // ------------------------------------------------------------------ first block

  /** The tag length field of the flags octet; for an empty tag the subtraction wraps. */
  function TagBits(t: nat): (b: byte)
    requires t == 0 || 4 <= t <= 16
  {
    if t == 0 then 0xF8 else 8 * ((t - 2) / 2)
  }

  /** The three parts of the flags octet do not overlap. */
  lemma FlagsSum(x: nat, k: nat, r: nat)
    requires (x == 0 || x == 64) && k <= 7 && r <= 7
    ensures BitOr(BitOr(BitOr(0, x), 8 * k), r) == x + 8 * k + r
  {
    hide BitOr, Pow2, Pow;
    Pow2Small(); Pow2Add(3, 3);
    BitOrZero(x);
    BitOrDisjoint(x, 8 * k, 6);
    DivModUnique(x + 8 * k, 8, x / 8 + k, 0);
    BitOrDisjoint(x + 8 * k, r, 3);
  }

  lemma Flags(ad: bool, t: nat, q: nat)
    requires (t == 0 || 4 <= t <= 16) && 2 <= q <= 8
    ensures BitOr(BitOr(BitOr(0, if ad then 64 else 0), TagBits(t)), q - 1) == FlagsOctet(ad, t, q)
  {
    hide BitOr;
    if t == 0 { FlagsFull(ad, q); } else { FlagsSum(if ad then 64 else 0, (t - 2) / 2, q - 1); }
  }

  lemma FlagsFull(ad: bool, q: nat)
    requires 2 <= q <= 8
    ensures BitOr(BitOr(BitOr(0, if ad then 64 else 0), 0xF8), q - 1) == 0xF8 + (q - 1)
  {
    assert BitOr(64, 0xF8) == 0xF8;
    hide BitOr, Pow2, Pow;
    Pow2Small();
    BitOrZero(0xF8); BitOrZero(64); BitOrZero(0);
    BitOrDisjoint(0xF8, q - 1, 3);
  }

  /** The loop that stores the length, low octet last. */
  method StoreLength(y0: Block, q: nat, len: nat) returns (y: Block, left: nat)
    requires 2 <= q <= 8
    ensures y == y0[..16 - q] + ToBe(len, q)
    ensures left > 0 <==> len >= B8(q)
  {
    hide ToBe, Byte, B8;
    y, left := y0, len;
    ghost var want := y0[..16 - q] + ToBe(len, q);
    B8Step(0);
    for i := 0 to q
      invariant left == len / B8(i)
      invariant forall j :: 0 <= j < 16 - i ==> y[j] == y0[j]
      invariant forall j :: 16 - i <= j < 16 ==> y[j] == want[j]
    {
      ShiftLength(len, i);
      y := y[15 - i := left % 256];
      left := left / 256;
    }
    LengthFits(len, B8(q));
  }

  lemma ShiftLength(len: nat, i: nat)
    ensures (len / B8(i)) / 256 == len / B8(i + 1) && (len / B8(i)) % 256 == Byte(len, i) && len / B8(i) >= 0
  {
    B8Step(i);
    hide B8;
    DivMod(len, B8(i));
    DivDiv(len, B8(i), 256);
  }

  lemma LengthFits(len: nat, p: nat)
    requires p > 0
    ensures len / p > 0 <==> len >= p
  {
    DivMod(len, p);
    var q := len / p;
    if len < p { ModSmall(len, p); } else { MulCancelLt(0, q + 1, p); if q == 0 { MulSign(0, p); } }
  }

  // --------------------------------------------------------------------- context

  class Context {
    const E: Block -> Block
    var y: Block
    var ctr: Block
    var plaintextLen: nat
    var addLen: nat
    var tagLen: nat
    var processed: nat
    var q: nat
    var mode: Mode
    var started: bool
    var lengthsSet: bool
    var authStarted: bool
    var authFinished: bool
    var error: bool

    constructor (cipher: Block -> Block)
      ensures Clear() && E == cipher
    {
      E := cipher;
      y, ctr, mode := Zeroes(16), Zeroes(16), Decrypt;
      plaintextLen, addLen, tagLen, processed, q := 0, 0, 0, 0, 0;
      started, lengthsSet, authStarted, authFinished, error := false, false, false, false, false;
    }

    /** mbedtls_ccm_clear_state was called last, or nothing. */
    ghost predicate Clear()
      reads this
    {
      && y == Zeroes(16) && ctr == Zeroes(16)
      && !started && !lengthsSet && !authStarted && !authFinished && !error
    }

    /** Only mbedtls_ccm_starts has run since. */
    ghost predicate Started(nonce: seq<byte>)
      reads this
    {
      && 7 <= |nonce| <= 13 && q == 15 - |nonce| && y == [0] + nonce + Zeroes(q)
      && ctr == [q - 1] + nonce + ToBe(1, q)
      && started && !lengthsSet && !authStarted && !authFinished && !error
    }

    /** Only mbedtls_ccm_set_lengths has run since. */
    ghost predicate LengthsSet(ad: nat, msg: nat, tag: nat)
      reads this
    {
      && addLen == ad && plaintextLen == msg && tagLen == tag && processed == 0
      && y == Zeroes(16) && lengthsSet && !started && !authStarted && !authFinished && !error
    }

    /** Associated data a and plaintext m have been taken in, m only after all of a. */
    ghost predicate At(p: Params, a: seq<byte>, m: seq<byte>)
      reads this
    {
      && p.Ok() && |a| <= p.adLen && p.Bounds(|m|) && (|m| > 0 ==> |a| == p.adLen)
      && started && lengthsSet && !error && q == p.Q()
      && addLen == p.adLen && plaintextLen == p.msgLen && tagLen == p.tagLen
      && authStarted == (|a| > 0) && authFinished == (|a| > 0 && |a| == p.adLen)
      && processed == (if |a| == p.adLen then |m| else |a|)
      && y == (if |a| == p.adLen then MsgY(E, p, a, m) else AdY(E, p, a))
      && ctr == A(p, 1 + Count(p, |m|))
    }

    method ClearState()
      modifies this
      ensures Clear()
    {
      started, lengthsSet, authStarted, authFinished, error := false, false, false, false, false;
      y := Zeroes(16);
      ctr := Zeroes(16);
    }

    /** ccm_calculate_first_block_if_ready, with both calls made. */
    method FirstBlock(ghost nonce: seq<byte>) returns (st: Status)
      requires 7 <= |nonce| <= 13 && q == 15 - |nonce| && y == [0] + nonce + Zeroes(q) && (tagLen == 0 || 4 <= tagLen <= 16)
      requires started && lengthsSet && !error
      modifies this`y, this`plaintextLen, this`error
      ensures tagLen == 0 && !mode.Star() ==> st == Fail(ERR_CCM_BAD_INPUT) && unchanged(this)
      ensures tagLen > 0 ==> plaintextLen == old(plaintextLen)
      ensures tagLen > 0 && old(plaintextLen) >= B8(q) ==> st == Fail(ERR_CCM_BAD_INPUT) && error
      ensures (if tagLen > 0 then old(plaintextLen) < B8(q) else mode.Star()) ==>
        && st.Ok? && !error && plaintextLen == (if tagLen == 0 then 0 else old(plaintextLen))
        && y == E(B0(Params(nonce, addLen, plaintextLen, tagLen)))
    {
      hide BitOr, ToBe, B8;
      if tagLen == 0 {
        if !mode.Star() { return Fail(ERR_CCM_BAD_INPUT); }
        plaintextLen := 0;
      }
      Flags(addLen > 0, tagLen, q);
      var b := BitOr(BitOr(BitOr(y[0], if addLen > 0 then 64 else 0), TagBits(tagLen)), q - 1);
      y := y[0 := b];
      var left;
      y, left := StoreLength(y, q, plaintextLen);
      if left > 0 {
        error := true;
        return Fail(ERR_CCM_BAD_INPUT);
      }
      assert y == [b] + nonce + ToBe(plaintextLen, q);
      y := E(y);
      st := Ok;
    }

    lemma NonceBytes(nonce: seq<byte>)
      requires 7 <= |nonce| <= 13
      ensures Zeroes(15 - |nonce|)[14 - |nonce| := 1] == ToBe(1, 15 - |nonce|)
    {
      var q := 15 - |nonce|;
      forall j | 0 <= j < q ensures Zeroes(q)[q - 1 := 1][j] == ToBe(1, q)[j] { OneByte(q - 1 - j); }
    }

    lemma OneByte(k: nat)
      ensures Byte(1, k) == if k == 0 then 1 else 0
    {
      if k == 0 { B8Step(0); } else { B8Mono(1, k); B8Step(0); ModSmall(1, B8(k)); }
    }

    /** mbedtls_ccm_starts */
    method Starts(m: Mode, iv: seq<byte>, ghost p: Params) returns (st: Status)
      requires Clear() || LengthsSet(p.adLen, p.msgLen, p.tagLen)
      requires lengthsSet ==> p.nonce == iv && (tagLen == 0 || (4 <= tagLen <= 16 && tagLen % 2 == 0)) && addLen < 0xFF00
      modifies this
      ensures |iv| < 7 || |iv| > 13 ==> st == Fail(ERR_CCM_BAD_INPUT) && unchanged(this)
      ensures 7 <= |iv| <= 13 ==> mode == m
      ensures 7 <= |iv| <= 13 && !old(lengthsSet) ==> st.Ok? && Started(iv)
      ensures 7 <= |iv| <= 13 && old(lengthsSet) ==>
        && st == (if p.Accepted(m.Star()) then Ok else Fail(ERR_CCM_BAD_INPUT))
        && (st.Ok? ==> At(p.Effective(), [], []))
    {
      hide ToBe, B8, FeedAll, Byte;
      if |iv| < 7 || |iv| > 13 { return Fail(ERR_CCM_BAD_INPUT); }
      mode := m;
      q := 15 - |iv|;
      NonceBytes(iv);
      ctr := ([q - 1] + iv + Zeroes(q))[15 := 1];
      assert ctr == [q - 1] + iv + Zeroes(q)[q - 1 := 1];
      y := [y[0]] + iv + y[1 + |iv|..];
      assert y == [0] + iv + Zeroes(q);
      started := true;
      if !lengthsSet { return Ok; }
      st := FirstBlock(iv);
      if st.Ok? { AtStart(p.Effective()); }
    }

    /** Nothing taken in yet. */
    lemma AtStart(p: Params)
      requires p.Ok() && started && lengthsSet && !error && q == p.Q() && !authStarted && !authFinished && processed == 0
      requires addLen == p.adLen && plaintextLen == p.msgLen && tagLen == p.tagLen
      requires y == E(B0(p)) && ctr == A(p, 1)
      ensures At(p, [], [])
    {
      assert FeedAll(E, Filling(AdY(E, p, []), 0), []) == Filling(E(B0(p)), 0);
    }

    /** mbedtls_ccm_set_lengths */
    method SetLengths(ad: nat, msg: nat, tag: nat, ghost nonce: seq<byte>) returns (st: Status)
      requires Clear() || Started(nonce)
      modifies this
      ensures mode == old(mode)
      ensures tag == 2 || tag > 16 || tag % 2 != 0 || ad >= 0xFF00 ==> st == Fail(ERR_CCM_BAD_INPUT) && unchanged(this)
      ensures !(tag == 2 || tag > 16 || tag % 2 != 0 || ad >= 0xFF00) && !old(started) ==> st.Ok? && LengthsSet(ad, msg, tag)
      ensures !(tag == 2 || tag > 16 || tag % 2 != 0 || ad >= 0xFF00) && old(started) ==>
        var p := Params(nonce, ad, msg, tag);
        && st == (if p.Accepted(mode.Star()) then Ok else Fail(ERR_CCM_BAD_INPUT))
        && (st.Ok? ==> At(p.Effective(), [], []))
    {
      hide ToBe, B8, FeedAll, Byte;
      if tag == 2 || tag > 16 || tag % 2 != 0 { return Fail(ERR_CCM_BAD_INPUT); }
      if ad >= 0xFF00 { return Fail(ERR_CCM_BAD_INPUT); }
      plaintextLen := msg;
      addLen := ad;
      tagLen := tag;
      processed := 0;
      lengthsSet := true;
      if !started { return Ok; }
      ghost var p := Params(nonce, ad, msg, tag);
      st := FirstBlock(nonce);
      if st.Ok? { AtStart(p.Effective()); }
    }

    // ------------------------------------------------------------- associated data

    /** y and position after the length octets and a. */
    ghost function AdFilling(p: Params, a: seq<byte>): (f: Filling)
      requires p.Ok()
      ensures f.pos == (|a| + 2) % 16
    {
      FeedAll(E, Filling(E(B0(p)), 0), ToBe(p.adLen, 2) + a)
    }

    /** While data is missing y is the filling's, at the end it is flushed. */
    ghost predicate Absorbed(f: Filling, last: bool)
      reads this
    {
      y == if last then Flush(E, f) else f.y
    }

    /** Xor a piece into y, and encrypt at the end of a block or of the data. */
    method Absorb(offset: nat, piece: seq<byte>, last: bool, ghost f: Filling)
      requires f == Filling(y, offset) && offset < 16 && 0 < |piece| <= 16 - offset
      modifies this`y
      ensures Absorbed(FeedAll(E, f, piece), last)
    {
      FeedPiece(E, f, piece);
      y := XorAt(y, offset, piece);
      if |piece| + offset == 16 || last {
        y := E(y);
      }
    }

    /** The two length octets. */
    method AbsorbLength(ghost p: Params)
      requires p.Ok() && addLen == p.adLen && y == E(B0(p))
      modifies this`y
      ensures Absorbed(AdFilling(p, []), false)
    {
      ghost var l := ToBe(p.adLen, 2);
      LengthOctets(addLen);
      FeedPiece(E, Filling(y, 0), l);
      assert l + [] == l;
      ghost var want := XorAt(y, 0, l);
      y := y[0 := Xor(y[0], (addLen / 256) % 256)];
      y := y[1 := Xor(y[1], addLen % 256)];
      assert y == want;
    }

    lemma LengthOctets(n: nat)
      ensures ToBe(n, 2) == [(n / 256) % 256, n % 256]
    {
      B8Step(0); B8Step(1);
      assert ToBe(n, 2)[0] == Byte(n, 1) && ToBe(n, 2)[1] == Byte(n, 0);
    }

    /** mbedtls_ccm_update_ad: any piece that does not exceed the announced length. */
    method UpdateAd(add: seq<byte>, ghost p: Params, ghost a: seq<byte>, ghost m: seq<byte>) returns (st: Status)
      requires At(p, a, m)
      modifies this
      ensures st == if |add| > 0 && |a| + |add| > p.adLen then Fail(ERR_CCM_BAD_INPUT) else Ok
      ensures st.Ok? && |add| > 0 ==> At(p, a + add, [])
      ensures st.Fail? || |add| == 0 ==> At(p, a, m)
      ensures mode == old(mode)
    {
      hide FeedAll, ToBe, B0, B8, A;
      if error { return Fail(ERR_CCM_BAD_INPUT); }
      if |add| == 0 { return Ok; }
      if authFinished { return Fail(ERR_CCM_BAD_INPUT); }
      if !authStarted {
        if |add| > addLen { return Fail(ERR_CCM_BAD_INPUT); }
        AbsorbLength(p);
        authStarted := true;
        assert a == [];
      } else if processed + |add| > addLen {
        return Fail(ERR_CCM_BAD_INPUT);
      }
      TakeAd(add, p, a);
      if processed == addLen {
        authFinished := true;
        processed := 0;
        NoMessage(p, a + add);
      }
      st := Ok;
    }

    /** The loop over the blocks that add reaches into. */
    method TakeAd(add: seq<byte>, ghost p: Params, ghost a: seq<byte>)
      requires p.Ok() && addLen == p.adLen && processed == |a| && |a| + |add| <= p.adLen
      requires Absorbed(AdFilling(p, a), |a| == p.adLen)
      modifies this`y, this`processed
      ensures processed == |a| + |add| && Absorbed(AdFilling(p, a + add), processed == p.adLen)
    {
      hide FeedAll, ToBe, B0, B8, A;
      assert a + add[..0] == a;
      var k := 0;
      while k < |add|
        invariant 0 <= k <= |add| && processed == |a| + k
        invariant Absorbed(AdFilling(p, a + add[..k]), processed == p.adLen)
      {
        var offset := (processed + 2) % 16;
        var use := if 16 - offset > |add| - k then |add| - k else 16 - offset;
        processed := processed + use;
        MoreAd(p, a, add, k, use);
        Absorb(offset, add[k..k + use], processed == addLen, AdFilling(p, a + add[..k]));
        k := k + use;
      }
      assert a + add[..|add|] == a + add;
    }

    lemma MoreAd(p: Params, a: seq<byte>, add: seq<byte>, k: nat, use: nat)
      requires p.Ok() && k + use <= |add|
      ensures AdFilling(p, a + add[..k + use]) == FeedAll(E, AdFilling(p, a + add[..k]), add[k..k + use])
    {
      hide B0, ToBe, FeedAll;
      var l := ToBe(p.adLen, 2);
      FeedConcat(E, Filling(E(B0(p)), 0), l + (a + add[..k]), add[k..k + use]);
      assert l + (a + add[..k]) + add[k..k + use] == l + (a + add[..k + use]);
    }

    lemma NoMessage(p: Params, a: seq<byte>)
      requires p.Ok()
      ensures MsgY(E, p, a, []) == AdY(E, p, a)
    {
      assert FeedAll(E, Filling(AdY(E, p, a), 0), []) == Filling(AdY(E, p, a), 0);
    }

    // ------------------------------------------------------------------- message

    ghost function MsgFilling(p: Params, a: seq<byte>, m: seq<byte>): (f: Filling)
      requires p.Ok()
      ensures f.pos == |m| % 16
    {
      FeedAll(E, Filling(AdY(E, p, a), 0), m)
    }

    /** mbedtls_ccm_crypt: part of a block of key stream. */
    method Crypt(offset: nat, input: seq<byte>) returns (output: seq<byte>)
      requires offset + |input| <= 16
      ensures |output| == |input| && forall i :: 0 <= i < |input| ==> output[i] == Xor(input[i], E(ctr)[offset + i])
    {
      var tmp := E(ctr);
      output := seq(|input|, i requires 0 <= i < |input| => Xor(input[i], tmp[offset + i]));
    }

    lemma KeyPiece(p: Params, n: nat, input: seq<byte>, output: seq<byte>)
      requires 7 <= |p.nonce| <= 13 && n % 16 + |input| <= 16 && |output| == |input|
      requires forall i :: 0 <= i < |input| ==> output[i] == Xor(input[i], E(A(p, 1 + n / 16))[n % 16 + i])
      ensures output == Ctr(E, p, n, input)
    {
      hide Xor, A;
      forall i | 0 <= i < |input| ensures output[i] == Ctr(E, p, n, input)[i] { SameBlock(n, i); }
    }

    lemma SameBlock(n: nat, i: nat)
      requires n % 16 + i < 16
      ensures (n + i) / 16 == n / 16 && (n + i) % 16 == n % 16 + i
    {}

    lemma CtrPiece(p: Params, n: nat, input: seq<byte>, k: nat, use: nat)
      requires 7 <= |p.nonce| <= 13 && k + use <= |input|
      ensures Ctr(E, p, n, input)[k..k + use] == Ctr(E, p, n + k, input[k..k + use])
    {
      hide Xor, KeyStream, Ctr;
      var l, r := Ctr(E, p, n, input)[k..k + use], Ctr(E, p, n + k, input[k..k + use]);
      forall i | 0 <= i < use ensures l[i] == r[i] {
        assert l[i] == Ctr(E, p, n, input)[k + i] == Xor(input[k + i], KeyStream(E, p, n + (k + i)));
      }
    }

    lemma CountStep(p: Params, n: nat, use: nat)
      requires (n + use <= p.msgLen || p.msgLen == 0) && 0 < use <= 16 - n % 16
      ensures Count(p, n) == n / 16
      ensures n % 16 + use == 16 || n + use == p.msgLen ==> Count(p, n + use) == n / 16 + 1
      ensures n % 16 + use < 16 && n + use != p.msgLen ==> Count(p, n + use) == n / 16
    {}

    /** One piece of at most the rest of a block, encrypted or decrypted. */
    method Piece(offset: nat, input: seq<byte>, last: bool, ghost p: Params, ghost n: nat, ghost f: Filling) returns (output: seq<byte>)
      requires 7 <= |p.nonce| <= 13 && offset == n % 16 && 0 < |input| <= 16 - offset && ctr == A(p, 1 + n / 16)
      requires f == Filling(y, offset)
      modifies this`y
      ensures output == Ctr(E, p, n, input)
      ensures Absorbed(FeedAll(E, f, if mode.Encrypts() then input else output), last)
    {
      hide FeedAll, A, Xor, Ctr, KeyStream;
      if mode.Encrypts() {
        Absorb(offset, input, last, f);
        output := Crypt(offset, input);
        KeyPiece(p, n, input, output);
      } else {
        output := Crypt(offset, input);
        KeyPiece(p, n, input, output);
        Absorb(offset, output, last, f);
      }
    }

    /** One pass of the loop of mbedtls_ccm_update: up to the end of the block. */
    method UpdatePiece(rest: seq<byte>, ghost p: Params, ghost a: seq<byte>, ghost m: seq<byte>) returns (use: nat, o: seq<byte>)
      requires At(p, a, m) && |a| == p.adLen && 0 < |rest| && p.Bounds(|m| + |rest|)
      modifies this`processed, this`y, this`ctr
      ensures 0 < use <= |rest| && o == Ctr(E, p, |m|, rest[..use])
      ensures At(p, a, m + (if mode.Encrypts() then rest[..use] else o))
    {
      hide FeedAll, ToBe, B0, B8, A, Ctr, Count, Xor, KeyStream;
      var offset := processed % 16;
      use := if 16 - offset > |rest| then |rest| else 16 - offset;
      processed := processed + use;
      CountStep(p, |m|, use);
      o := Piece(offset, rest[..use], processed == plaintextLen, p, |m|, MsgFilling(p, a, m));
      ghost var plain := if mode.Encrypts() then rest[..use] else o;
      FeedConcat(E, Filling(AdY(E, p, a), 0), m, plain);
      if use + offset == 16 || processed == plaintextLen {
        ctr := Increment(ctr, q, p, 1 + |m| / 16);
      }
    }

    /** A piece after k octets extends output and plaintext by use octets. */
    lemma Joined(p: Params, m: seq<byte>, input: seq<byte>, k: nat, use: nat, encrypts: bool)
      requires 7 <= |p.nonce| <= 13 && k + use <= |input|
      ensures var full := Ctr(E, p, |m|, input); var plain := if encrypts then input else full;
        var o := Ctr(E, p, |m| + k, input[k..][..use]);
        && full[..k] + o == full[..k + use]
        && m + plain[..k] + (if encrypts then input[k..][..use] else o) == m + plain[..k + use]
    {
      hide Ctr, Xor, KeyStream;
      CtrPiece(p, |m|, input, k, use);
      JoinedSlices(m, input, k, use);
      JoinedSlices(m, Ctr(E, p, |m|, input), k, use);
    }

    static lemma JoinedSlices(m: seq<byte>, s: seq<byte>, k: nat, use: nat)
      requires k + use <= |s|
      ensures s[k..][..use] == s[k..k + use] && s[..k] + s[k..k + use] == s[..k + use]
      ensures m + s[..k] + s[k..k + use] == m + s[..k + use]
    {}

    lemma AtFacts(p: Params, a: seq<byte>, m: seq<byte>)
      requires At(p, a, m)
      ensures p.Ok() && !error && tagLen == p.tagLen && plaintextLen == p.msgLen && p.Bounds(|m|)
      ensures |a| == p.adLen ==> processed == |m|
    {}

    /** mbedtls_ccm_update, once the associated data is complete. */
    method Update(input: seq<byte>, outputSize: nat, ghost p: Params, ghost a: seq<byte>, ghost m: seq<byte>)
      returns (st: Status, output: seq<byte>)
      requires At(p, a, m) && |a| == p.adLen
      modifies this
      ensures mode == old(mode)
      ensures st == if !p.Bounds(|m| + |input|) || outputSize < |input| then Fail(ERR_CCM_BAD_INPUT) else Ok
      ensures st.Ok? ==> output == Ctr(E, p, |m|, input) && At(p, a, m + (if mode.Encrypts() then input else output))
      ensures st.Fail? ==> output == [] && At(p, a, m)
    {
      hide At, Ctr, Xor, KeyStream;
      AtFacts(p, a, m);
      output := [];
      if error { return Fail(ERR_CCM_BAD_INPUT), output; }
      if tagLen != 0 && processed + |input| > plaintextLen { return Fail(ERR_CCM_BAD_INPUT), output; }
      if outputSize < |input| { return Fail(ERR_CCM_BAD_INPUT), output; }
      ghost var full := Ctr(E, p, |m|, input);
      ghost var plain := if mode.Encrypts() then input else full;
      assert m + plain[..0] == m;
      var k := 0;
      while k < |input|
        invariant 0 <= k <= |input| && output == full[..k] && mode == old(mode) && At(p, a, m + plain[..k])
      {
        ghost var mk := m + plain[..k];
        assert |mk| == |m| + k;
        var use, o := UpdatePiece(input[k..], p, a, mk);
        Joined(p, m, input, k, use, mode.Encrypts());
        assert o == Ctr(E, p, |m| + k, input[k..][..use]);
        output := output + o;
        k := k + use;
      }
      assert plain[..|input|] == plain;
      st := Ok;
    }

    // --------------------------------------------------------------------- tag

    /** What keeps mbedtls_ccm_finish from answering. */
    ghost predicate Missing(p: Params, a: seq<byte>, m: seq<byte>) {
      |a| < p.adLen || |m| < p.msgLen
    }

    /** mbedtls_ccm_finish */
    method Finish(tagSize: nat, ghost p: Params, ghost a: seq<byte>, ghost m: seq<byte>) returns (st: Status, tag: seq<byte>)
      requires At(p, a, m) && tagSize <= 16
      modifies this
      ensures st == if Missing(p, a, m) then Fail(ERR_CCM_BAD_INPUT) else Ok
      ensures st.Ok? ==> Clear() && |tag| == tagSize
      ensures st.Ok? && p.tagLen > 0 ==> tag == XorAt(AuthValue(E, p, a, m), 0, E(A(p, 0)))[..tagSize]
      ensures st.Fail? ==> At(p, a, m) && mode == old(mode)
    {
      hide FeedAll, ToBe, B0, B8, Count, AuthValue, Xor;
      tag := [];
      if error { return Fail(ERR_CORRUPTION_DETECTED), tag; }
      if addLen > 0 && !authFinished { return Fail(ERR_CCM_BAD_INPUT), tag; }
      if plaintextLen > 0 && processed != plaintextLen { return Fail(ERR_CCM_BAD_INPUT), tag; }
      if p.tagLen > 0 { MsgYIsAuth(E, p, a, m); }
      ghost var c := ctr;
      for i := 0 to q
        invariant unchanged(this`q, this`y) && forall j :: 0 <= j < 16 ==> ctr[j] == if j < 16 - i then c[j] else 0
      {
        ctr := ctr[15 - i := 0];
      }
      ZeroCounter(p);
      assert ctr == A(p, 0);
      var t := Crypt(0, y);
      y := t;
      assert p.tagLen > 0 ==> y == XorAt(AuthValue(E, p, a, m), 0, E(A(p, 0)));
      tag := y[..tagSize];
      ClearState();
      st := Ok;
    }

    lemma ZeroCounter(p: Params)
      requires 7 <= |p.nonce| <= 13
      ensures ToBe(0, p.Q()) == Zeroes(p.Q())
    {
      forall k | 0 <= k < p.Q() ensures ToBe(0, p.Q())[k] == 0 { ModSmall(0, B8(p.Q() - 1 - k)); }
    }
  }
}
