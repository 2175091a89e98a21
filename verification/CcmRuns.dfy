/** ccm.c: one-shot authenticated encryption and decryption, and any way of splitting
    the same work over the streaming interface. */
module CcmRuns {
  import opened Arith
  import opened Bytes
  import opened OctetBlocks
  import opened CcmSpec
  import opened ReturnCodes
  import opened Ccm

  /** The plaintext of a call. */
  function Plain(E: Block -> Block, p: Params, mode: Mode, input: seq<byte>): (m: seq<byte>)
    requires p.Ok()
    ensures |m| == |input|
  {
    if mode.Encrypts() then input else Ctr(E, p, 0, input)
  }

  // ------------------------------------------------------------------- streaming

  function Concat(chunks: seq<seq<byte>>): seq<byte> {
    if |chunks| == 0 then [] else Concat(chunks[..|chunks| - 1]) + chunks[|chunks| - 1]
  }

  lemma ConcatTake(chunks: seq<seq<byte>>, i: nat)
    requires i < |chunks|
    ensures Concat(chunks[..i + 1]) == Concat(chunks[..i]) + chunks[i]
  {
    assert chunks[..i + 1][..i] == chunks[..i];
  }

  lemma {:induction false} ConcatBound(chunks: seq<seq<byte>>, i: nat)
    requires i <= |chunks|
    ensures |Concat(chunks[..i])| <= |Concat(chunks)|
    decreases |chunks| - i
  {
    if i < |chunks| { ConcatTake(chunks, i); ConcatBound(chunks, i + 1); } else { assert chunks[..i] == chunks; }
  }

  /** starts and set_lengths in either order. */
  method Begin(ctx: Context, lengthsFirst: bool, mode: Mode, iv: seq<byte>, ad: nat, msg: nat, tag: nat) returns (st: Status)
    requires ctx.Clear() && Params(iv, ad, msg, tag).Accepted(mode.Star())
    modifies ctx
    ensures st.Ok? && ctx.At(Params(iv, ad, msg, tag).Effective(), [], []) && ctx.mode == mode
  {
    hide B8, ToBe, MsgY, AdY, A;
    ghost var p := Params(iv, ad, msg, tag);
    if lengthsFirst {
      :- ctx.SetLengths(ad, msg, tag, iv);
      :- ctx.Starts(mode, iv, p);
    } else {
      :- ctx.Starts(mode, iv, p);
      :- ctx.SetLengths(ad, msg, tag, iv);
    }
    st := Ok;
  }

  method FeedAd(ctx: Context, chunks: seq<seq<byte>>, ghost p: Params) returns (st: Status)
    requires ctx.At(p, [], []) && |Concat(chunks)| == p.adLen
    modifies ctx
    ensures st.Ok? && ctx.At(p, Concat(chunks), []) && ctx.mode == old(ctx.mode)
  {
    for i := 0 to |chunks|
      invariant ctx.At(p, Concat(chunks[..i]), []) && ctx.mode == old(ctx.mode)
    {
      ConcatTake(chunks, i); ConcatBound(chunks, i + 1);
      :- ctx.UpdateAd(chunks[i], p, Concat(chunks[..i]), []);
      assert chunks[i] == [] ==> Concat(chunks[..i + 1]) == Concat(chunks[..i]);
    }
    assert chunks[..|chunks|] == chunks;
    st := Ok;
  }

  method FeedMsg(ctx: Context, chunks: seq<seq<byte>>, ghost p: Params, ghost a: seq<byte>) returns (st: Status, out: seq<byte>)
    requires ctx.At(p, a, []) && |a| == p.adLen && p.Bounds(|Concat(chunks)|) && p.Ok()
    modifies ctx
    ensures st.Ok? && ctx.mode == old(ctx.mode) && out == Ctr(ctx.E, p, 0, Concat(chunks))
    ensures ctx.At(p, a, Plain(ctx.E, p, ctx.mode, Concat(chunks)))
  {
    hide Ctr, Xor, KeyStream, Concat, Plain;
    out := [];
    ghost var E, mode := ctx.E, ctx.mode;
    NoChunks(E, p, mode);
    assert chunks[..0] == [];
    for i := 0 to |chunks|
      invariant out == Ctr(E, p, 0, Concat(chunks[..i])) && ctx.mode == mode
      invariant ctx.At(p, a, Plain(E, p, mode, Concat(chunks[..i])))
    {
      ghost var c := Concat(chunks[..i]);
      ConcatTake(chunks, i); ConcatBound(chunks, i + 1);
      PlainJoin(E, p, mode, c, chunks[i]);
      var o :- ctx.Update(chunks[i], |chunks[i]|, p, a, Plain(E, p, mode, c));
      out := out + o;
    }
    assert chunks[..|chunks|] == chunks;
    st := Ok;
  }

  lemma NoChunks(E: Block -> Block, p: Params, mode: Mode)
    requires p.Ok()
    ensures Concat([]) == [] && Plain(E, p, mode, []) == [] && Ctr(E, p, 0, []) == []
  {}

  lemma PlainJoin(E: Block -> Block, p: Params, mode: Mode, c: seq<byte>, d: seq<byte>)
    requires p.Ok()
    ensures Ctr(E, p, 0, c) + Ctr(E, p, |c|, d) == Ctr(E, p, 0, c + d)
    ensures Plain(E, p, mode, c) + (if mode.Encrypts() then d else Ctr(E, p, |c|, d)) == Plain(E, p, mode, c + d)
  {
    hide Ctr, Xor, KeyStream;
    CtrConcat(E, p, 0, c, d);
  }

  /** From a cleared context, in either order of the first two calls and for any split
      of associated data and message: ciphertext and tag of RFC 3610, context cleared. */
  method Stream(ctx: Context, lengthsFirst: bool, mode: Mode, iv: seq<byte>,
                adChunks: seq<seq<byte>>, msgChunks: seq<seq<byte>>, tagLen: nat)
    returns (st: Status, out: seq<byte>, tag: seq<byte>)
    requires ctx.Clear() && Params(iv, |Concat(adChunks)|, |Concat(msgChunks)|, tagLen).Accepted(mode.Star())
    modifies ctx
    ensures st.Ok? && ctx.Clear()
    ensures var p := Params(iv, |Concat(adChunks)|, |Concat(msgChunks)|, tagLen).Effective();
      && out == Ctr(ctx.E, p, 0, Concat(msgChunks))
      && tag == Tag(ctx.E, p, Concat(adChunks), Plain(ctx.E, p, mode, Concat(msgChunks)))
  {
    hide Ctr, AuthValue, A;
    out, tag := [], [];
    ghost var p := Params(iv, |Concat(adChunks)|, |Concat(msgChunks)|, tagLen).Effective();
    var ad, msg := 0, 0;
    ad := Length(adChunks);
    msg := Length(msgChunks);
    :- Begin(ctx, lengthsFirst, mode, iv, ad, msg, tagLen);
    :- FeedAd(ctx, adChunks, p);
    out :- FeedMsg(ctx, msgChunks, p, Concat(adChunks));
    tag :- ctx.Finish(tagLen, p, Concat(adChunks), Plain(ctx.E, p, mode, Concat(msgChunks)));
    st := Ok;
  }

  method Length(chunks: seq<seq<byte>>) returns (n: nat)
    ensures n == |Concat(chunks)|
  {
    n := 0;
    for i := 0 to |chunks|
      invariant n == |Concat(chunks[..i])|
    {
      ConcatTake(chunks, i);
      n := n + |chunks[i]|;
    }
    assert chunks[..|chunks|] == chunks;
  }

  // -------------------------------------------------------------------- one shot

  /** starts and set_lengths, accepted exactly for lengths that CCM allows. */
  method Prepare(ctx: Context, mode: Mode, iv: seq<byte>, ad: nat, msg: nat, tag: nat) returns (st: Status)
    requires ctx.Clear()
    modifies ctx
    ensures var p := Params(iv, ad, msg, tag);
      && st == (if p.Accepted(mode.Star()) then Ok else Fail(ERR_CCM_BAD_INPUT))
      && (st.Ok? ==> ctx.At(p.Effective(), [], []) && ctx.mode == mode)
  {
    hide B8, ToBe, MsgY, AdY, A;
    :- ctx.Starts(mode, iv, Params(iv, ad, msg, tag));
    :- ctx.SetLengths(ad, msg, tag, iv);
    st := Ok;
  }

  /** ccm_auth_crypt */
  method AuthCrypt(ctx: Context, mode: Mode, iv: seq<byte>, add: seq<byte>, input: seq<byte>, tagLen: nat)
    returns (st: Status, output: seq<byte>, tag: seq<byte>)
    requires ctx.Clear()
    modifies ctx
    ensures st == if Params(iv, |add|, |input|, tagLen).Accepted(mode.Star()) then Ok else Fail(ERR_CCM_BAD_INPUT)
    ensures st.Ok? ==> var p := Params(iv, |add|, |input|, tagLen).Effective();
      && ctx.Clear() && output == Ctr(ctx.E, p, 0, input)
      && tag == Tag(ctx.E, p, add, Plain(ctx.E, p, mode, input))
  {
    hide Ctr, AuthValue, A, B8, Xor, KeyStream, FeedAll;
    output, tag := [], [];
    ghost var p := Params(iv, |add|, |input|, tagLen).Effective();
    :- Prepare(ctx, mode, iv, |add|, |input|, tagLen);
    :- ctx.UpdateAd(add, p, [], []);
    assert [] + add == add;
    assert [] + Plain(ctx.E, p, mode, input) == Plain(ctx.E, p, mode, input);
    output :- ctx.Update(input, |input|, p, add, []);
    tag :- ctx.Finish(tagLen, p, add, Plain(ctx.E, p, mode, input));
    st := Ok;
  }

  /** mbedtls_ccm_compare_tags: the differences of all octets or-ed together. */
  method CompareTags(t1: seq<byte>, t2: seq<byte>) returns (st: Status)
    requires |t1| == |t2|
    ensures st == if t1 == t2 then Ok else Fail(ERR_CCM_AUTH_FAILED)
  {
    hide BitOr, Xor;
    var diff: nat := 0;
    for i := 0 to |t1|
      invariant diff == 0 <==> t1[..i] == t2[..i]
    {
      NoDifference(t1[i], t2[i]); OrZero(diff, Xor(t1[i], t2[i]));
      assert t1[..i + 1] == t1[..i] + [t1[i]] && t2[..i + 1] == t2[..i] + [t2[i]];
      diff := BitOr(diff, Xor(t1[i], t2[i]));
    }
    assert t1[..|t1|] == t1 && t2[..|t1|] == t2;
    st := if diff != 0 then Fail(ERR_CCM_AUTH_FAILED) else Ok;
  }

  lemma NoDifference(x: byte, y: byte)
    ensures Xor(x, y) == 0 <==> x == y
  {
    XorTwice(x, y);
    BitXorZero(y);
    XorSelf(x);
  }

  lemma {:induction false} XorSelf(x: nat)
    ensures BitXor(x, x) == 0
  {
    if x > 0 { XorSelf(x / 2); }
  }

  /** What sealing gives, and what opening answers. */
  function Seal(E: Block -> Block, p: Params, a: seq<byte>, m: seq<byte>): (seq<byte>, seq<byte>)
    requires p.Ok()
  {
    (Ctr(E, p, 0, m), Tag(E, p, a, m))
  }

  datatype Opened = Accepted(m: seq<byte>) | Rejected

  function Open(E: Block -> Block, p: Params, a: seq<byte>, c: seq<byte>, t: seq<byte>): Opened
    requires p.Ok()
  {
    var m := Ctr(E, p, 0, c);
    if t == Tag(E, p, a, m) then Accepted(m) else Rejected
  }

  /** ccm_auth_decrypt: nothing of a rejected message is left in the output. */
  method AuthDecrypt(ctx: Context, mode: Mode, iv: seq<byte>, add: seq<byte>, input: seq<byte>, tag: seq<byte>)
    returns (st: Status, output: seq<byte>)
    requires ctx.Clear() && !mode.Encrypts()
    modifies ctx
    ensures !Params(iv, |add|, |input|, |tag|).Accepted(mode.Star()) ==> st == Fail(ERR_CCM_BAD_INPUT)
    ensures Params(iv, |add|, |input|, |tag|).Accepted(mode.Star()) ==>
      var p := Params(iv, |add|, |input|, |tag|).Effective();
      && ctx.Clear()
      && (Open(ctx.E, p, add, input, tag).Accepted? ==> st.Ok? && Accepted(output) == Open(ctx.E, p, add, input, tag))
      && (Open(ctx.E, p, add, input, tag).Rejected? ==> st == Fail(ERR_CCM_AUTH_FAILED) && output == Zeroes(|input|))
  {
    hide Ctr, AuthValue, A, B8;
    output := [];
    var check: seq<byte>;
    output, check :- AuthCrypt(ctx, mode, iv, add, input, |tag|);
    st := CompareTags(tag, check);
    if st.Fail? { output := Zeroes(|input|); }
  }

  /** Opening undoes sealing. */
  lemma OpenSeal(E: Block -> Block, p: Params, a: seq<byte>, m: seq<byte>)
    requires p.Ok()
    ensures Open(E, p, a, Seal(E, p, a, m).0, Seal(E, p, a, m).1) == Accepted(m)
  {
    CtrTwice(E, p, 0, m);
  }

  /** Encrypt and tag, then decrypt and check: the plaintext and success, in CCM and CCM*. */
  method RoundTrip(ctx: Context, star: bool, iv: seq<byte>, add: seq<byte>, input: seq<byte>, tagLen: nat)
    returns (st: Status, back: seq<byte>)
    requires ctx.Clear() && Params(iv, |add|, |input|, tagLen).Accepted(star)
    modifies ctx
    ensures st.Ok? && back == input && ctx.Clear()
  {
    hide Ctr, AuthValue, A, B8;
    back := [];
    ghost var p := Params(iv, |add|, |input|, tagLen).Effective();
    OpenSeal(ctx.E, p, add, input);
    var c, t :- AuthCrypt(ctx, if star then StarEncrypt else Encrypt, iv, add, input, tagLen);
    st, back := AuthDecrypt(ctx, if star then StarDecrypt else Decrypt, iv, add, c, t);
  }

  /** CCM* without a tag on 65537 blocks with a 13-octet nonce: accepted, and the first
      and the last block are xored with the same octets. */
  method RepeatedKeyStream(ctx: Context, iv: seq<byte>, input: seq<byte>) returns (st: Status, output: seq<byte>)
    requires ctx.Clear() && |iv| == 13 && |input| == 16 * 65537
    modifies ctx
    ensures st.Ok? && |output| == |input|
    ensures forall i :: 0 <= i < 16 ==> exists k: byte ::
      output[i] == Xor(input[i], k) && output[16 * 65536 + i] == Xor(input[16 * 65536 + i], k)
  {
    hide Ctr, A, B8, Xor;
    ghost var p := Params(iv, 0, |input|, 0);
    CounterRepeats(p);
    var tag;
    st, output, tag := AuthCrypt(ctx, StarEncrypt, iv, [], input, 0);
    forall i | 0 <= i < 16 ensures exists k: byte ::
      output[i] == Xor(input[i], k) && output[16 * 65536 + i] == Xor(input[16 * 65536 + i], k)
    {
      SameStream(ctx.E, p, i);
      assert output[i] == Xor(input[i], KeyStream(ctx.E, p.Effective(), i));
    }
  }

  lemma SameStream(E: Block -> Block, p: Params, i: nat)
    requires |p.nonce| == 13 && i < 16 && A(p, 65537) == A(p, 1)
    ensures KeyStream(E, p.Effective(), i) == KeyStream(E, p.Effective(), 16 * 65536 + i)
  {}
}
