/** INTEGERs of any size: asn1write.c and asn1parse.c on Mpi objects. */
module DerMpi {
  import opened Arith
  import opened Limbs
  import opened Core
  import opened Bits
  import opened Bytes
  import opened CoreBytes
  import opened ReturnCodes
  import opened MpiObject
  import opened MpiAdd
  import opened MpiShift
  import opened MpiExp
  import opened Der
  import opened DerWrite

  // ---------------------------------------------------------------- binary import

  /** mbedtls_mpi_resize_clear */
  method ResizeClear(X: Mpi, limbs: nat) returns (st: Status)
    requires X.Valid()
    modifies X
    ensures X.Valid() && st == if limbs > MAX_LIMBS then Fail(ERR_ALLOC_FAILED) else Ok
    ensures st.Ok? ==> X.s == 1 && X.p == Zeros(limbs)
    ensures st.Fail? ==> X.s == 1 && X.p == []
  {
    if limbs == 0 {
      X.s, X.p := 1, [];
      return Ok;
    }
    if |X.p| == limbs {
      X.p, X.s := Zeros(limbs), 1;
      return Ok;
    }
    X.s, X.p := 1, [];
    st := Grow(X, limbs);
  }

  /** mbedtls_mpi_read_binary */
  method ReadBinary(X: Mpi, buf: seq<byte>) returns (st: Status)
    requires X.Valid()
    modifies X
    ensures X.Valid() && st == if CharsToLimbs(|buf|) > MAX_LIMBS then Fail(ERR_ALLOC_FAILED) else Ok
    ensures st.Ok? ==> X.s == 1 && X.Value() == BeVal(buf) && |X.p| == CharsToLimbs(|buf|)
  {
    hide Val, BeVal, CharsToLimbs;
    var limbs := CharsToLimbs(|buf|);
    :- ResizeClear(X, limbs);
    var a := Load(X.p);
    :- ReadBe(a, limbs, buf);
    assert a[..limbs] == a[..];
    X.p := a[..];
    st := Ok;
  }

  /** mbedtls_asn1_get_mpi */
  method GetMpi(s: seq<byte>, X: Mpi) returns (st: Status, rest: seq<byte>)
    requires X.Valid()
    modifies X
    ensures X.Valid()
    ensures var g := GetTag(s, INTEGER);
      && (g.Err? ==> st == Fail(g.code))
      && (g.Got? ==> rest == g.rest[g.v..])
      && (g.Got? ==> st == if CharsToLimbs(g.v) > MAX_LIMBS then Fail(ERR_ALLOC_FAILED) else Ok)
      && (st.Ok? ==> X.Value() == BeVal(g.rest[..g.v]))
  {
    hide GetTag, BeVal, CharsToLimbs;
    rest := [];
    var g := GetTag(s, INTEGER);
    if g.Err? { return Fail(g.code), rest; }
    st := ReadBinary(X, g.rest[..g.v]);
    rest := g.rest[g.v..];
  }

  // ---------------------------------------------------------------------- writing

  /** mbedtls_mpi_write_binary of the shortest length. */
  method WriteBinary(X: Mpi, len: nat) returns (st: Status, b: seq<byte>)
    ensures st == if X.Mag() < B8(len) then Ok else Fail(ERR_BUFFER_TOO_SMALL)
    ensures st.Ok? ==> b == ToBe(X.Mag(), len)
  {
    hide Val, B8, ToBe;
    var a := Load(X.p);
    var out := new byte[len];
    assert a[..|X.p|] == X.p;
    st := WriteBe(a, |X.p|, out);
    b := out[..];
  }

  /** The contents written: the magnitude, with a zero octet in front where the sign bit
      of a positive number would be set. */
  function MpiContent(s: int, v: nat): seq<byte> { if s == 1 then IntContent(v) else Octets(v) }

  /** The shortest octets of |X| at the cursor. */
  method PushMagnitude(c: Cursor, X: Mpi) returns (ok: bool, len: nat)
    requires c.Valid()
    modifies c, c.buf
    ensures c.Valid() && c.Kept(old(c.p), old(c.Tail()))
    ensures len == |Octets(X.Mag())| && ok == (old(c.Room()) >= len)
    ensures ok ==> c.p == old(c.p) - len && c.Tail() == Octets(X.Mag()) + old(c.Tail())
  {
    hide Val, Octets, NumBits, ToBe, B8, Cursor.Tail, Cursor.Kept, BeVal;
    SizeOfOctets(X.Mag());
    c.KeptHere();
    var bits := Bitlen(X);
    len := (bits + 7) / 8;
    if len == 0 { len := 1; }
    ok := c.Room() >= len;
    if ok {
      var st, b := WriteBinary(X, len);
      c.PushAll(b);
    }
  }

  lemma ContentIs(s: int, v: nat)
    ensures MpiContent(s, v) == if s == 1 && Octets(v)[0] >= 0x80 then [0] + Octets(v) else Octets(v)
  {}

  /** mbedtls_asn1_write_mpi */
  method WriteMpi(c: Cursor, X: Mpi) returns (ret: int)
    requires c.Valid() && X.Valid()
    modifies c, c.buf
    ensures c.Valid() && c.Kept(old(c.p), old(c.Tail()))
    ensures Wrote(c, old(c.p), old(c.Tail()), INTEGER, MpiContent(X.s, X.Mag()), ret)
  {
    hide Val, Octets, Tlv, LenOctets, NumBits, ToBe, B8, Cursor.Tail, Cursor.Kept, IntContent, MpiContent, BeVal, SizeFits, ToInt;
    OutcomeIsSize(c.Room(), |MpiContent(X.s, X.Mag())|);
    ghost var t, v := c.Tail(), X.Mag();
    ghost var o := Octets(v);
    ContentIs(X.s, v);
    var ok, len := PushMagnitude(c, X);
    if !ok { return ERR_BUF_TOO_SMALL; }
    DerWrite.FirstByte(c, o, t);
    if X.s == 1 && c.buf[c.p] >= 0x80 {
      if c.Room() < 1 { return ERR_BUF_TOO_SMALL; }
      c.Push(0);
      assert [0] + (o + t) == ([0] + o) + t;
      len := len + 1;
    }
    ret := WriteHeader(c, INTEGER, len, MpiContent(X.s, v), t);
  }

  /** With limbs of up to 64 bits every number has a size that is an int. */
  lemma MpiSizeFits(s: int, p: seq<limb>)
    requires |p| <= MAX_LIMBS && BI_L <= 64
    ensures SizeFits(|MpiContent(s, Val(p))|)
  {
    hide Val, Octets, NumBits, Sig, BitsToLimbs, BeVal, ToBe, B8;
    var v := Val(p);
    SizeOfOctets(v); ContentIs(s, v); SigBits(p);
    BitsToLimbsVal(NumBits(v));
    MulMono(Sig(p), MAX_LIMBS, BI_L); MulMono(BI_L, 64, MAX_LIMBS);
    assert NumBits(v) <= 64 * MAX_LIMBS;
  }

  /** What is read back is the magnitude: the number itself exactly when it is not
      negative. */
  lemma MpiRoundTrip(s: int, v: nat, r: seq<byte>)
    requires (s == 1 || s == -1) && |MpiContent(s, v)| <= 0xFFFF_FFFF
    ensures var g := GetTag(Tlv(INTEGER, MpiContent(s, v)) + r, INTEGER);
      && g.Got? && BeVal(g.rest[..g.v]) == v && g.rest[g.v..] == r
      && (BeVal(g.rest[..g.v]) == s * v <==> s * v >= 0)
  {
    hide GetTag, Tlv, BeVal, IntContent;
    var c := MpiContent(s, v);
    TagRoundTrip(INTEGER, c, r);
    assert (c + r)[..|c|] == c && (c + r)[|c|..] == r;
  }

  /** write_mpi in front of what is there, then get_mpi: |X|, and behind it what was there. */
  method WriteAndGet(c: Cursor, X: Mpi, Y: Mpi) returns (ret: int, st: Status)
    requires c.Valid() && X.Valid() && Y.Valid() && X != Y
    modifies c, c.buf, Y
    ensures c.Valid() && Y.Valid() && ret == Outcome(old(c.Room()), |MpiContent(X.s, X.Mag())|)
    ensures ret >= 0 ==>
      st == if CharsToLimbs(|MpiContent(X.s, X.Mag())|) > MAX_LIMBS then Fail(ERR_ALLOC_FAILED) else Ok
    ensures ret >= 0 && st.Ok? ==> Y.Value() == X.Mag() && (Y.Value() == X.Value() <==> X.Value() >= 0)
  {
    hide Val, GetTag, Tlv, BeVal, IntContent, MpiContent, CharsToLimbs, Cursor.Tail, Cursor.Kept, LenOctets;
    ghost var t := c.Tail();
    ret := WriteMpi(c, X);
    st := Ok;
    if ret < 0 { return; }
    OutcomeIsSize(old(c.Room()), |MpiContent(X.s, X.Mag())|);
    MpiRoundTrip(X.s, X.Mag(), t);
    WrittenTag(X.s, X.Mag(), t);
    TailIs(c);
    var rest;
    st, rest := GetMpi(c.buf[c.p..], Y);
  }

  lemma TailIs(c: Cursor)
    requires c.Valid()
    ensures c.buf[c.p..] == c.Tail()
  {}

  lemma WrittenTag(s: int, v: nat, r: seq<byte>)
    requires |MpiContent(s, v)| <= 0xFFFF_FFFF
    ensures var g := GetTag(Tlv(INTEGER, MpiContent(s, v)) + r, INTEGER); g.Got? && g.v == |MpiContent(s, v)|
  {
    hide GetTag, Tlv, MpiContent;
    TagRoundTrip(INTEGER, MpiContent(s, v), r);
  }

  /** -1 comes back as 1. */
  method NegativeMpi() returns (ret: int, st: Status, Y: Mpi)
    ensures ret >= 0 && st.Ok? && Y.Value() == 1
  {
    hide Val, CharsToLimbs, MpiContent, Outcome, Cursor.Tail;
    var X := Small(-1);
    OneContent(X.s, X.Mag());
    Y := new Mpi();
    var buf := new byte[8];
    var c := new Cursor(buf, 0);
    ret, st := WriteAndGet(c, X, Y);
  }

  lemma OneContent(s: int, m: nat)
    requires (s == 1 || s == -1) && s * m == -1
    ensures s == -1 && m == 1 && MpiContent(s, m) == [1] && CharsToLimbs(1) == 1
    ensures Outcome(8, 1) == 3
  {
    LimbBytes();
  }

  /** 5 is written as 02 01 05. */
  method FiveWritten() returns (ret: int, c: Cursor)
    ensures ret == 3 && c.Valid() && c.Tail() == [2, 1, 5]
  {
    hide Val, Cursor.Kept, Outcome;
    var X := Small(5);
    FiveContent(X.s, X.Mag());
    var buf := new byte[8];
    c := new Cursor(buf, 0);
    ret := WriteMpi(c, X);
    assert [2, 1, 5] + [] == [2, 1, 5];
  }

  lemma FiveContent(s: int, m: nat)
    requires (s == 1 || s == -1) && s * m == 5
    ensures s == 1 && m == 5 && MpiContent(s, m) == [5] && Tlv(INTEGER, [5]) == [2, 1, 5] && Outcome(8, 1) == 3
  {
    assert Octets(5) == [5];
    hide Octets, BeVal;
    assert LenOctets(1) == 0 && LenBytes(1) == [1];
  }
}
