/** asn1write.c: writers that fill a buffer from its end, and what the parsers make of
    their output. */
module DerWrite {
  import opened Arith
  import opened Bytes
  import opened Der
  import opened DerRead

  /** The buffer and the cursor *p, which moves down towards start. */
  class Cursor {
    const buf: array<byte>
    const start: nat
    var p: nat

    constructor (b: array<byte>, s: nat)
      requires s <= b.Length
      ensures buf == b && start == s && p == b.Length && Valid() && Tail() == []
    {
      buf, start, p := b, s, b.Length;
    }

    ghost predicate Valid()
      reads this
    {
      start <= p <= buf.Length
    }

    /** What has been written. */
    ghost function Tail(): seq<byte>
      reads this, buf
    {
      if p <= buf.Length then buf[p..] else []
    }

    function Room(): int
      reads this
    {
      p - start
    }

    /** One octet in front of what is there. */
    method Push(b: byte)
      requires Valid() && Room() >= 1
      modifies this, buf
      ensures Valid() && p == old(p) - 1 && Tail() == [b] + old(Tail()) && Kept(old(p), old(Tail()))
    {
      p := p - 1;
      buf[p] := b;
    }

    /** Nothing from position q on has changed. */
    ghost predicate Kept(q: nat, tail: seq<byte>)
      reads this, buf
    {
      p <= q <= buf.Length && buf[q..] == tail
    }

    /** What lies below does not matter to what is kept. */
    lemma KeptBelow(x: seq<byte>, q: nat, tail: seq<byte>)
      requires |x| <= q <= buf.Length && Kept(q - |x|, x + tail)
      ensures Kept(q, tail)
    {
      assert buf[q..] == buf[q - |x|..][|x|..];
    }

    lemma KeptHere()
      requires Valid()
      ensures Kept(p, Tail())
    {}

    lemma KeptTail(x: seq<byte>, q: nat, tail: seq<byte>)
      requires Valid() && Tail() == x + tail && p + |x| == q <= buf.Length
      ensures Kept(q, tail)
    {
      assert buf[q..] == buf[p..][|x|..];
    }

    /** A string in front of what is there. */
    method PushAll(src: seq<byte>)
      requires Valid() && Room() >= |src|
      modifies this, buf
      ensures Valid() && p == old(p) - |src| && Tail() == src + old(Tail()) && Kept(old(p), old(Tail()))
    {
      p := p - |src|;
      for i := 0 to |src|
        invariant p == old(p) - |src|
        invariant forall k :: 0 <= k < i ==> buf[p + k] == src[k]
        invariant forall k :: p + |src| <= k < buf.Length ==> buf[k] == old(buf[k])
      {
        buf[p + i] := src[i];
      }
    }
  }

  /** The result of a writer with contents of n octets: the number of octets of the
      element as an int, or the reason for refusing. */
  function Outcome(room: int, n: nat): int32 {
    if room < n then ERR_BUF_TOO_SMALL
    else if n > 0xFFFF_FFFF then ERR_INVALID_LENGTH
    else if room < n + 2 + LenOctets(n) then ERR_BUF_TOO_SMALL
    else ToInt(n + 2 + LenOctets(n))
  }

  /** The element is written, whatever int the writer then returns. */
  predicate Enough(room: int, n: nat) { n <= 0xFFFF_FFFF && room >= n + 2 + LenOctets(n) }

  /** Contents of n octets whose size with tag and length is an int. The writers count in
      size_t and return an int: larger sizes come out negative or, from 2^32 on, wrapped. */
  predicate SizeFits(n: nat) { n + 2 + LenOctets(n) < 0x8000_0000 }

  lemma FitsFacts(n: nat)
    ensures SizeFits(n) <==> ToInt(n + 2 + LenOctets(n)) == n + 2 + LenOctets(n)
    ensures SizeFits(n) ==> ToInt(n) == n
  {
    ToIntSmall(n + 2 + LenOctets(n)); ToIntSmall(n);
  }

  /** The int returned is the number of octets exactly for sizes that fit, given the room. */
  lemma OutcomeIsSize(room: int, n: nat)
    ensures Outcome(room, n) == n + 2 + LenOctets(n) <==> SizeFits(n) && room >= n + 2 + LenOctets(n)
    ensures SizeFits(n) ==> (Outcome(room, n) >= 0 <==> room >= n + 2 + LenOctets(n))
    ensures Outcome(room, n) >= 0 ==> Enough(room, n)
  {
    hide LenOctets, ToInt;
    FitsFacts(n);
  }

  /** An element of 2^32 + 3 octets has the result 3. */
  lemma WrappedSize(room: int)
    ensures !SizeFits(0xFFFF_FFFD)
    ensures room >= 0x1_0000_0003 ==> Outcome(room, 0xFFFF_FFFD) == 3
  {}

  /** An element over content was written in front of tail, which began at p: the result
      for the room there was, the octets if they fitted, and the result is their number
      exactly when that is an int. */
  ghost predicate Wrote(c: Cursor, p: nat, tail: seq<byte>, tag: byte, content: seq<byte>, ret: int)
    reads c, c.buf
  {
    var room := p - c.start;
    && ret == Outcome(room, |content|)
    && (Enough(room, |content|) ==> c.p == p - |Tlv(tag, content)| && c.Tail() == Tlv(tag, content) + tail)
    && (ret == |Tlv(tag, content)| <==> SizeFits(|content|) && room >= |Tlv(tag, content)|)
  }

  lemma LenUnfolded(n: nat)
    requires 0x80 <= n <= 0xFFFF_FFFF
    ensures LenOctets(n) == 1 ==> LenBytes(n) == [0x81, Byte(n, 0)]
    ensures LenOctets(n) == 2 ==> LenBytes(n) == [0x82, Byte(n, 1), Byte(n, 0)]
    ensures LenOctets(n) == 3 ==> LenBytes(n) == [0x83, Byte(n, 2), Byte(n, 1), Byte(n, 0)]
    ensures LenOctets(n) == 4 ==> LenBytes(n) == [0x84, Byte(n, 3), Byte(n, 2), Byte(n, 1), Byte(n, 0)]
  {
    hide ToBe, Byte;
  }

  /** mbedtls_asn1_write_len */
  method WriteLen(c: Cursor, len: nat) returns (ret: int)
    requires c.Valid()
    modifies c, c.buf
    ensures c.Valid() && c.Kept(old(c.p), old(c.Tail()))
    ensures ret == if len > 0xFFFF_FFFF then ERR_INVALID_LENGTH
      else if old(c.Room()) < 1 + LenOctets(len) then ERR_BUF_TOO_SMALL else 1 + LenOctets(len)
    ensures ret > 0 ==> c.p == old(c.p) - ret && c.Tail() == LenBytes(len) + old(c.Tail())
    ensures ret < 0 ==> c.p == old(c.p)
  {
    hide Byte, LenBytes;
    if len < 0x80 {
      if c.Room() < 1 { return ERR_BUF_TOO_SMALL; }
      ShortLen(len);
      c.Push(len);
      return 1;
    }
    if len <= 0xFFFF_FFFF { LenUnfolded(len); }
    if len <= 0xFF {
      if c.Room() < 2 { return ERR_BUF_TOO_SMALL; }
      LongLen(c, 0x81, [Byte(len, 0)], len);
      return 2;
    }
    if len <= 0xFFFF {
      if c.Room() < 3 { return ERR_BUF_TOO_SMALL; }
      LongLen(c, 0x82, [Byte(len, 1), Byte(len, 0)], len);
      return 3;
    }
    if len <= 0xFF_FFFF {
      if c.Room() < 4 { return ERR_BUF_TOO_SMALL; }
      LongLen(c, 0x83, [Byte(len, 2), Byte(len, 1), Byte(len, 0)], len);
      return 4;
    }
    if len > 0xFFFF_FFFF { return ERR_INVALID_LENGTH; }
    if c.Room() < 5 { return ERR_BUF_TOO_SMALL; }
    LongLen(c, 0x84, [Byte(len, 3), Byte(len, 2), Byte(len, 1), Byte(len, 0)], len);
    return 5;
  }

  /** The length octets, last first, and their number. */
  method LongLen(c: Cursor, first: byte, octets: seq<byte>, ghost len: nat)
    requires c.Valid() && c.Room() >= 1 + |octets| && LenBytes(len) == [first] + octets
    modifies c, c.buf
    ensures c.Valid() && c.Kept(old(c.p), old(c.Tail()))
    ensures c.p == old(c.p) - (1 + |octets|) && c.Tail() == LenBytes(len) + old(c.Tail())
  {
    hide LenBytes, Cursor.Tail, Cursor.Kept;
    ghost var q, t := c.p, c.Tail();
    c.PushAll(octets);
    c.Push(first);
    assert [first] + (octets + t) == ([first] + octets) + t;
    c.KeptTail(LenBytes(len), q, t);
  }

  lemma ShortLen(n: nat)
    requires n < 0x80
    ensures LenBytes(n) == [n]
  {}

  /** mbedtls_asn1_write_tag */
  method WriteTag(c: Cursor, tag: byte) returns (ret: int)
    requires c.Valid()
    modifies c, c.buf
    ensures c.Valid() && c.Kept(old(c.p), old(c.Tail()))
    ensures ret == if old(c.Room()) < 1 then ERR_BUF_TOO_SMALL else 1
    ensures ret > 0 ==> c.p == old(c.p) - 1 && c.Tail() == [tag] + old(c.Tail())
    ensures ret < 0 ==> c.p == old(c.p)
  {
    if c.Room() < 1 { return ERR_BUF_TOO_SMALL; }
    c.Push(tag);
    ret := 1;
  }

  /** Tag and length in front of contents that are already there. */
  method WriteHeader(c: Cursor, tag: byte, n: nat, ghost content: seq<byte>, ghost t: seq<byte>) returns (ret: int)
    requires c.Valid() && n == |content| && c.Tail() == content + t
    modifies c, c.buf
    ensures c.Valid() && old(c.p) + n <= c.buf.Length && c.Kept(old(c.p) + n, t)
    ensures ret == if n > 0xFFFF_FFFF then ERR_INVALID_LENGTH
      else if old(c.Room()) < 2 + LenOctets(n) then ERR_BUF_TOO_SMALL else ToInt(n + 2 + LenOctets(n))
    ensures n <= 0xFFFF_FFFF && old(c.Room()) >= 2 + LenOctets(n) ==>
      c.p == old(c.p) - (2 + LenOctets(n)) && c.Tail() == Tlv(tag, content) + t
  {
    hide LenBytes, LenOctets, SizeFits, ToInt, Tlv, Cursor.Tail, Cursor.Kept;
    TailSize(c, content, t);
    TlvParts(tag, content, t);
    ghost var q := c.p + n;
    var len := n;
    var r := WriteLen(c, n);
    if r < 0 { c.KeptBelow(content, q, t); return r; }
    len := len + r;
    ghost var l := LenBytes(n) + content;
    r := WriteTag(c, tag);
    if r < 0 { c.KeptBelow(l, q, t); return r; }
    c.KeptTail(Tlv(tag, content), q, t);
    ret := ToInt(len + r);
  }

  lemma TlvParts(tag: byte, content: seq<byte>, t: seq<byte>)
    ensures var l := LenBytes(|content|) + content;
      LenBytes(|content|) + (content + t) == l + t && [tag] + (l + t) == Tlv(tag, content) + t
  {
    hide LenOctets;
  }

  lemma TailLength(c: Cursor)
    requires c.Valid()
    ensures |c.Tail()| == c.buf.Length - c.p
  {}

  lemma TailSize(c: Cursor, content: seq<byte>, t: seq<byte>)
    requires c.Valid() && c.Tail() == content + t
    ensures c.p + |content| <= c.buf.Length
  {
    assert |c.Tail()| == c.buf.Length - c.p;
  }

  /** The result for a string: raw_buffer returns the number of octets as an int, and
      length and tag are then written for that many of them. */
  function StringOutcome(room: int, n: nat): int32 {
    var r := ToInt(n);
    if room < n then ERR_BUF_TOO_SMALL else if r < 0 then r else Outcome(room - n + r, r)
  }

  lemma StringOutcomeIsSize(room: int, n: nat)
    ensures StringOutcome(room, n) == n + 2 + LenOctets(n) <==> SizeFits(n) && room >= n + 2 + LenOctets(n)
    ensures SizeFits(n) ==> StringOutcome(room, n) == Outcome(room, n)
  {
    hide LenOctets, ToInt;
    FitsFacts(n); OutcomeIsSize(room, n);
  }

  /** A raw buffer, then length and tag: octet strings and OIDs. */
  method WriteString(c: Cursor, tag: byte, content: seq<byte>) returns (ret: int)
    requires c.Valid()
    modifies c, c.buf
    ensures c.Valid() && c.Kept(old(c.p), old(c.Tail()))
    ensures ret == StringOutcome(old(c.Room()), |content|)
    ensures ret == |Tlv(tag, content)| <==> SizeFits(|content|) && old(c.Room()) >= |Tlv(tag, content)|
    ensures SizeFits(|content|) && ret >= 0 ==> c.p == old(c.p) - ret && c.Tail() == Tlv(tag, content) + old(c.Tail())
    ensures var r := ToInt(|content|); old(c.Room()) >= |content| && r < 0 ==> c.Tail() == content + old(c.Tail())
    ensures var r := ToInt(|content|); 0 <= r && old(c.Room()) >= |content| + 2 + LenOctets(r) ==>
      && c.p == old(c.p) - (|content| + 2 + LenOctets(r))
      && c.Tail() == Tlv(tag, content[..r]) + (content[r..] + old(c.Tail()))
  {
    hide LenOctets, Tlv, Cursor.Tail, Cursor.Kept, SizeFits, ToInt;
    FitsFacts(|content|); StringOutcomeIsSize(c.Room(), |content|); OutcomeIsSize(c.Room(), |content|);
    ghost var q, t := c.p, c.Tail();
    var r := WriteRaw(c, content);
    if r < 0 { return r; }
    PartOf(content, r, t); ToIntSmall(r);
    ret := WriteHeader(c, tag, r, content[..r], content[r..] + t);
    c.KeptBelow(content[r..], q, t);
  }

  /** A string of 2^32 + 5 octets: the result is 7, and the element is over five octets. */
  method WrappedString(c: Cursor, tag: byte, content: seq<byte>) returns (ret: int)
    requires c.Valid() && |content| == 0x1_0000_0005 && c.Room() >= |content| + 2
    modifies c, c.buf
    ensures c.Valid() && ret == 7 && !SizeFits(|content|)
    ensures c.Tail() == Tlv(tag, content[..5]) + (content[5..] + old(c.Tail()))
  {
    hide Tlv, Cursor.Tail, Cursor.Kept;
    assert ToInt(0x1_0000_0005) == 5;
    ret := WriteString(c, tag, content);
  }

  /** mbedtls_asn1_write_raw_buffer */
  method WriteRaw(c: Cursor, content: seq<byte>) returns (ret: int)
    requires c.Valid()
    modifies c, c.buf
    ensures c.Valid() && c.Kept(old(c.p), old(c.Tail()))
    ensures ret == if old(c.Room()) < |content| then ERR_BUF_TOO_SMALL else ToInt(|content|)
    ensures old(c.Room()) >= |content| ==> c.p == old(c.p) - |content| && c.Tail() == content + old(c.Tail())
  {
    hide Cursor.Tail, Cursor.Kept;
    c.KeptHere();
    if c.Room() < |content| { return ERR_BUF_TOO_SMALL; }
    c.PushAll(content);
    ret := ToInt(|content|);
  }

  lemma PartOf(content: seq<byte>, n: nat, t: seq<byte>)
    requires n == ToInt(|content|)
    ensures n <= |content| && content + t == content[..n] + (content[n..] + t)
    ensures n == |content| ==> content[..n] == content && content[n..] + t == t
  {
    DivMod(|content|, 0x1_0000_0000);
  }

  // --------------------------------------------------------------------- integers

  /** The contents asn1_write_tagged_int produces. A negative int is cut to its low
      octet: the loop stops as soon as the shifted value is not positive. */
  function TaggedContent(val: int): (s: seq<byte>)
    ensures |s| >= 1 && s[0] < 0x80
  {
    IntContent(Positive(val))
  }

  lemma OctetsStep(v: nat)
    ensures v >= 256 ==> Octets(v) == Octets(v / 256) + [v % 256]
    ensures v < 256 ==> Octets(v) == [v]
  {}

  /** The int without the bits that are lost: a negative one keeps its low octet. */
  function Positive(val: int): nat { if val >= 0 then val else val % 256 }

  lemma LowOctet(val: int)
    ensures Positive(val) % 256 == val % 256
    ensures val / 256 > 0 ==> Positive(val) >= 256 && Positive(val) / 256 == val / 256
    ensures val / 256 <= 0 ==> Positive(val) < 256
  {}

  /** The loop that writes the low octet and shifts it out. */
  method PushOctets(c: Cursor, val0: int) returns (ok: bool)
    requires c.Valid()
    modifies c, c.buf
    ensures c.Valid() && c.Kept(old(c.p), old(c.Tail()))
    ensures var o := Octets(Positive(val0));
      && ok == (old(c.Room()) >= |o|)
      && (ok ==> c.p == old(c.p) - |o| && c.Tail() == o + old(c.Tail()))
  {
    hide Octets, Cursor.Tail, Cursor.Kept, Positive;
    ghost var o, q, t := Octets(Positive(val0)), c.p, c.Tail();
    var val := val0;
    ghost var done: seq<byte> := [];
    assert [] + t == t && o + [] == o;
    var more := true;
    while more
      invariant c.Valid() && c.Tail() == done + t && c.p == q - |done|
      invariant more ==> o == Octets(Positive(val)) + done
      invariant !more ==> done == o
      decreases more, if val > 0 then val else 0
    {
      NextOctetDown(val, done, t);
      if c.Room() < 1 {
        c.KeptTail(done, q, t);
        return false;
      }
      var b: byte := val % 256;
      c.Push(b);
      done := [b] + done;
      val := val / 256;
      more := val > 0;
    }
    c.KeptTail(done, q, t);
    ok := true;
  }

  /** The low octet taken off in front of those already written. */
  lemma NextOctetDown(val: int, done: seq<byte>, t: seq<byte>)
    ensures [val % 256] + (done + t) == ([val % 256] + done) + t && (val > 0 ==> val / 256 < val)
    ensures var o := Octets(Positive(val)) + done;
      && |o| >= 1 + |done|
      && o == (if val / 256 > 0 then Octets(Positive(val / 256)) + ([val % 256] + done) else [val % 256] + done)
  {
    hide Octets, Positive;
    OctetsStep(Positive(val)); LowOctet(val); PositiveIs(val / 256);
  }

  lemma PositiveIs(v: int)
    ensures v > 0 ==> Positive(v) == v
  {}

  lemma FewOctets(v: nat)
    requires v < 0x8000_0000
    ensures |Octets(v)| <= 4
  {
    hide Octets;
    var a := v / 256;
    var b := a / 256;
    var c := b / 256;
    assert c < 256;
    OctetsStep(v); OctetsStep(a); OctetsStep(b); OctetsStep(c);
  }

  lemma ShortInt(val: int32)
    ensures var n := |TaggedContent(val)|;
      SizeFits(n) && n <= 5 && ToInt(n + 2 + LenOctets(n)) == n + 2 + LenOctets(n)
  {
    hide Octets, ToInt;
    FewOctets(Positive(val));
    FitsFacts(|TaggedContent(val)|);
  }

  /** asn1_write_tagged_int */
  method WriteTaggedInt(c: Cursor, val: int32, tag: byte) returns (ret: int)
    requires c.Valid()
    modifies c, c.buf
    ensures c.Valid() && c.Kept(old(c.p), old(c.Tail()))
    ensures ret == Outcome(old(c.Room()), |TaggedContent(val)|)
    ensures ret >= 0 ==> c.p == old(c.p) - ret && c.Tail() == Tlv(tag, TaggedContent(val)) + old(c.Tail())
  {
    hide Octets, Tlv, LenOctets, Cursor.Tail, Cursor.Kept, Positive, SizeFits, ToInt;
    ShortInt(val); OutcomeIsSize(c.Room(), |TaggedContent(val)|);
    ghost var o, q, t := Octets(Positive(val)), c.p, c.Tail();
    var len := c.p;
    var ok := PushOctets(c, val);
    if !ok { return ERR_BUF_TOO_SMALL; }
    FirstByte(c, o, t);
    if c.buf[c.p] >= 0x80 {
      if c.Room() < 1 { return ERR_BUF_TOO_SMALL; }
      c.Push(0);
      assert [0] + (o + t) == ([0] + o) + t;
    }
    ghost var content := TaggedContent(val);
    len := len - c.p;
    ret := WriteHeader(c, tag, len, content, t);
  }

  lemma FirstByte(c: Cursor, o: seq<byte>, t: seq<byte>)
    requires c.Valid() && c.Tail() == o + t && |o| > 0
    ensures c.p < c.buf.Length && c.buf[c.p] == o[0]
  {
    assert c.Tail()[0] == o[0];
  }

  /** What is read back is what was written exactly when it is not negative. */
  lemma TaggedIntRoundTrip(val: int32, tag: byte, r: seq<byte>)
    ensures IntSpec(Tlv(tag, TaggedContent(val)) + r, tag) == Got(Positive(val), r)
    ensures IntSpec(Tlv(tag, TaggedContent(val)) + r, tag) == Got(val, r) <==> val >= 0
  {
    hide IntSpec, Tlv, IntContent;
    IntRoundTrip(Positive(val), tag, r);
  }

  /** -256 is written so that it reads as 0. */
  lemma NegativeInt()
    ensures IntSpec(Tlv(INTEGER, TaggedContent(-256)), INTEGER) == Got(0, [])
  {
    assert Positive(-256) == 0;
    hide IntSpec, Tlv, IntContent, TaggedContent, Positive, LenOctets;
    TaggedIntRoundTrip(-256, INTEGER, []);
    var s := Tlv(INTEGER, TaggedContent(-256));
    assert s + [] == s;
  }

  // ------------------------------------------------------------------ bit strings

  /** mbedtls_asn1_write_bitstring */
  method WriteBitstring(c: Cursor, buf: seq<byte>, bits: nat) returns (ret: int)
    requires c.Valid() && bits <= 8 * |buf|
    modifies c, c.buf
    ensures c.Valid() && c.Kept(old(c.p), old(c.Tail()))
    ensures Wrote(c, old(c.p), old(c.Tail()), BIT_STRING, BitContent(buf, bits), ret)
  {
    hide Tlv, LenOctets, Cursor.Tail, Cursor.Kept, BitContent, SizeFits, ToInt;
    OutcomeIsSize(c.Room(), |BitContent(buf, bits)|);
    ghost var t := c.Tail();
    var byteLen := (bits + 7) / 8;
    c.KeptHere();
    if c.Room() < byteLen + 1 { return ERR_BUF_TOO_SMALL; }
    PushBits(c, buf, bits, byteLen);
    ret := WriteHeader(c, BIT_STRING, byteLen + 1, BitContent(buf, bits), t);
  }

  /** A bit string of 2^32 - 4 octets is written, and the result is 3. */
  method WrappedBitstring(c: Cursor, buf: seq<byte>) returns (ret: int)
    requires c.Valid() && |buf| == 0xFFFF_FFFC && c.Room() >= 0x1_0000_0003
    modifies c, c.buf
    ensures c.Valid() && ret == 3 && c.Tail() == Tlv(BIT_STRING, BitContent(buf, 8 * |buf|)) + old(c.Tail())
  {
    hide Tlv, Cursor.Tail, Cursor.Kept, BitContent;
    WrappedSize(c.Room());
    ret := WriteBitstring(c, buf, 8 * |buf|);
  }

  /** The octets with the unused bits zeroed, and their number in front. */
  method PushBits(c: Cursor, buf: seq<byte>, bits: nat, byteLen: nat)
    requires c.Valid() && bits <= 8 * |buf| && byteLen == (bits + 7) / 8 && c.Room() >= byteLen + 1
    modifies c, c.buf
    ensures c.Valid() && c.p == old(c.p) - (byteLen + 1) && c.Tail() == BitContent(buf, bits) + old(c.Tail())
  {
    hide Cursor.Tail, Cursor.Kept, Masked, BitContent;
    var unused := byteLen * 8 - bits;
    ContentParts(buf, bits, c.Tail());
    if byteLen > 0 {
      var k := byteLen - 1;
      c.Push(Masked(buf[k], unused));
      c.PushAll(buf[..k]);
    }
    c.Push(unused);
  }

  lemma ContentParts(buf: seq<byte>, bits: nat, t: seq<byte>)
    requires bits <= 8 * |buf|
    ensures var n := (bits + 7) / 8; var u := n * 8 - bits;
      BitContent(buf, bits) + t == [u] + (if n > 0 then buf[..n - 1] + ([Masked(buf[n - 1], u)] + t) else t)
  {
    hide Masked;
  }

  /** The number of bits up to the last one that is set. */
  function Trimmed(buf: seq<byte>, bits: nat): (n: nat)
    requires bits <= 8 * |buf|
    ensures n <= bits && (n > 0 ==> Bit(buf, n - 1) == 1) && forall i :: n <= i < bits ==> Bit(buf, i) == 0
  {
    if bits == 0 || Bit(buf, bits - 1) == 1 then bits else Trimmed(buf, bits - 1)
  }

  lemma TrimStep(buf: seq<byte>, bits: nat)
    requires 0 < bits <= 8 * |buf|
    ensures Bit(buf, bits - 1) == 0 || Bit(buf, bits - 1) == 1
    ensures Trimmed(buf, bits) == if Bit(buf, bits - 1) == 1 then bits else Trimmed(buf, bits - 1)
    ensures Trimmed(buf, 0) == 0
  {}

  lemma NextBitDown(buf: seq<byte>, bits: nat, cur: nat)
    requires 0 < bits <= 8 * |buf| && cur == buf[(bits - 1) / 8] / Pow2(7 - (bits - 1) % 8)
    ensures cur % 2 == Bit(buf, bits - 1)
    ensures (bits - 1) % 8 != 0 ==> (bits - 2) / 8 == (bits - 1) / 8 && cur / 2 == buf[(bits - 2) / 8] / Pow2(7 - (bits - 2) % 8)
    ensures bits > 1 && (bits - 1) % 8 == 0 ==> (bits - 2) / 8 == (bits - 1) / 8 - 1 && Pow2(7 - (bits - 2) % 8) == 1
  {
    var i := bits - 1;
    if i % 8 != 0 {
      DivDiv(buf[i / 8], Pow2(7 - i % 8), 2);
      assert 7 - (i - 1) % 8 == 7 - i % 8 + 1;
    }
  }

  /** mbedtls_asn1_write_named_bitstring: trailing zero bits left out. */
  method WriteNamedBitstring(c: Cursor, buf: seq<byte>, bits0: nat) returns (ret: int)
    requires c.Valid() && bits0 <= 8 * |buf|
    modifies c, c.buf
    ensures c.Valid() && c.Kept(old(c.p), old(c.Tail()))
    ensures Wrote(c, old(c.p), old(c.Tail()), BIT_STRING, BitContent(buf, Trimmed(buf, bits0)), ret)
  {
    hide Wrote, Tlv, BitContent, Cursor.Tail, Cursor.Kept, Trimmed;
    var bits := TrimBits(buf, bits0);
    ret := WriteBitstring(c, buf, bits);
  }

  /** The loop over the bits from the last one. */
  method TrimBits(buf: seq<byte>, bits0: nat) returns (bits: nat)
    requires bits0 <= 8 * |buf|
    ensures bits == Trimmed(buf, bits0)
  {
    hide Pow2, Trimmed, Bit;
    bits := bits0;
    if bits == 0 { return; }
    var cur := (bits + 7) / 8 - 1;
    var unused := (bits + 7) / 8 * 8 - bits;
    assert cur == (bits - 1) / 8 && unused == 7 - (bits - 1) % 8;
    var shifted: nat := buf[cur] / Pow2(unused);
    while true
      invariant 0 < bits <= bits0 && Trimmed(buf, bits) == Trimmed(buf, bits0)
      invariant cur == (bits - 1) / 8 && shifted == buf[cur] / Pow2(7 - (bits - 1) % 8)
      decreases bits
    {
      NextBitDown(buf, bits, shifted);
      TrimStep(buf, bits);
      var bit := shifted % 2;
      shifted := shifted / 2;
      if bit != 0 { break; }
      bits := bits - 1;
      if bits == 0 { break; }
      if bits % 8 == 0 {
        cur := cur - 1;
        shifted := buf[cur];
      }
    }
    TrimStep(buf, bits0);
  }

  /** Read back, a named bit string has lost trailing zero bits only. */
  lemma NamedRoundTrip(buf: seq<byte>, bits: nat, i: nat)
    requires bits <= 8 * |buf| && (bits + 7) / 8 < 0xFFFF_FFFF && i < bits
    ensures var n := Trimmed(buf, bits); var c := BitContent(buf, n);
      && GetBitstring(Tlv(BIT_STRING, c)) == Got(BitString(c[1..], (8 - n % 8) % 8), [])
      && Bit(buf, i) == if i < n then Bit(c[1..], i) else 0
  {
    hide Tlv, GetBitstring, BitContent, Bit;
    var n := Trimmed(buf, bits);
    BitstringRoundTrip(buf, n);
    if i < n { BitsKept(buf, n, i); }
  }

  // -------------------------------------------------------- algorithm identifiers

  /** The result for an OID of that many octets and par octets of parameters. */
  function AlgOutcome(room: int, oid: nat, par: nat): int32 {
    var left := if par == 0 then room - 2 else room;
    var r := StringOutcome(left, oid);
    if left < 0 then ERR_BUF_TOO_SMALL
    else if r < 0 then r
    else
      var len := (if par == 0 then 2 else par) + r;
      Outcome(left - oid - 2 - LenOctets(ToInt(oid)) + len, len)
  }

  /** mbedtls_asn1_write_algorithm_identifier: par octets of parameters are at the
      cursor already, or a NULL is written. */
  method WriteAlg(c: Cursor, oid: seq<byte>, par: nat) returns (ret: int)
    requires c.Valid() && par <= |c.Tail()|
    modifies c, c.buf
    ensures c.Valid() && ret == AlgOutcome(old(c.Room()), |oid|, par)
    ensures var params := if par == 0 then Tlv(NULL_TAG, []) else old(c.Tail()[..par]);
      var rest := old(c.Tail()[par..]);
      var enc := Tlv(SEQUENCE, Tlv(OID, oid) + params);
      && (ret == |enc| <==> |enc| < 0x8000_0000 && old(c.Room()) >= |enc| - par)
      && (|enc| < 0x8000_0000 ==> (ret >= 0 <==> old(c.Room()) >= |enc| - par))
      && (|enc| < 0x8000_0000 && ret >= 0 ==> c.Tail() == enc + rest)
  {
    hide Tlv, Cursor.Tail, Cursor.Kept, SizeFits, LenOctets, ToInt;
    ghost var rest := c.Tail()[par..];
    ghost var params := if par == 0 then Tlv(NULL_TAG, []) else c.Tail()[..par];
    ghost var content := Tlv(OID, oid) + params;
    AlgSizes(oid, params);
    var len := WriteParams(c, par);
    if len < 0 { return len; }
    TailLength(c);
    StringResult(c.Room(), |oid|);
    var r := WriteString(c, OID, oid);
    if r < 0 { return r; }
    len := len + r;
    TailLength(c);
    if SizeFits(|oid|) { assert Tlv(OID, oid) + (params + rest) == content + rest; }
    OutcomeIsSize(c.Room() + len, len);
    ret := WriteSequence(c, len, content, rest);
  }

  /** A NULL unless there are parameters; their number of octets. */
  method WriteParams(c: Cursor, par: nat) returns (len: int)
    requires c.Valid() && par <= |c.Tail()|
    modifies c, c.buf
    ensures c.Valid() && |Tlv(NULL_TAG, [])| == 2
    ensures len == if par > 0 then par else if old(c.Room()) < 2 then ERR_BUF_TOO_SMALL else 2
    ensures len >= 0 ==> c.Room() == old(c.Room()) - (if par == 0 then 2 else 0)
    ensures len >= 0 ==> c.Tail() == (if par == 0 then Tlv(NULL_TAG, []) else old(c.Tail()[..par])) + old(c.Tail()[par..])
  {
    hide Tlv, Cursor.Tail, Cursor.Kept, SizeFits, LenOctets, ToInt;
    ghost var t := c.Tail();
    NullFits();
    StringResult(c.Room(), 0);
    if par == 0 {
      len := WriteString(c, NULL_TAG, []);
      assert t[0..] == t;
    } else {
      len := par;
      assert t[..par] + t[par..] == t;
    }
  }

  /** What a result that is not an error says about the room. */
  lemma StringResult(room: int, n: nat)
    ensures StringOutcome(room, n) >= 0 ==>
      && ToInt(n) >= 0 && room >= n + 2 + LenOctets(ToInt(n)) && StringOutcome(room, n) <= n + 2 + LenOctets(ToInt(n))
    ensures SizeFits(n) ==> (StringOutcome(room, n) >= 0 <==> room >= n + 2 + LenOctets(n))
    ensures SizeFits(n) && StringOutcome(room, n) >= 0 ==> StringOutcome(room, n) == n + 2 + LenOctets(n)
  {
    hide LenOctets, ToInt;
    FitsFacts(n); StringOutcomeIsSize(room, n); OutcomeIsSize(room, n);
  }

  /** The SEQUENCE header over the len octets at the cursor. */
  method WriteSequence(c: Cursor, len: nat, ghost content: seq<byte>, ghost rest: seq<byte>) returns (ret: int)
    requires c.Valid() && len <= |c.Tail()|
    modifies c, c.buf
    ensures c.Valid() && ret == Outcome(old(c.Room()) + len, len)
    ensures len == |content| && old(c.Tail()) == content + rest && Enough(old(c.Room()) + len, len) ==>
      c.Tail() == Tlv(SEQUENCE, content) + rest
  {
    hide Tlv, Cursor.Tail, Cursor.Kept, LenOctets, ToInt;
    ghost var here := c.Tail();
    assert here == here[..len] + here[len..];
    if len == |content| && here == content + rest { assert here[..len] == content && here[len..] == rest; }
    ret := WriteHeader(c, SEQUENCE, len, here[..len], here[len..]);
  }

  lemma NullFits()
    ensures SizeFits(0) && |Tlv(NULL_TAG, [])| == 2 && ToInt(0) == 0 && LenOctets(0) == 0
  {}

  lemma AlgSizes(oid: seq<byte>, params: seq<byte>)
    ensures var content := Tlv(OID, oid) + params;
      && |Tlv(OID, oid)| == |oid| + 2 + LenOctets(|oid|)
      && |Tlv(SEQUENCE, content)| == |content| + 2 + LenOctets(|content|)
      && (SizeFits(|content|) <==> |Tlv(SEQUENCE, content)| < 0x8000_0000)
      && (SizeFits(|content|) ==> SizeFits(|oid|) && |content| <= 0xFFFF_FFFF)
  {}

  /** Elements octet by octet, one for each tag and each form of the length. */
  lemma WrittenInt()
    ensures Tlv(INTEGER, TaggedContent(128)) == [0x02, 2, 0, 0x80]
  {}

  lemma WrittenBits()
    ensures Tlv(BIT_STRING, BitContent([0xB7], 6)) == [0x03, 2, 2, 0xB4]
    ensures Bit([0x80], 0) == 1 && Bit([0x80], 7) == 0
  {
    Pow2Small();
  }

  lemma WrittenAlg()
    ensures Tlv(SEQUENCE, Tlv(OID, [0x2A]) + Tlv(NULL_TAG, [])) == [0x30, 5, 0x06, 1, 0x2A, 0x05, 0]
  {}

  lemma WrittenLengths()
    ensures LenBytes(127) == [0x7F] && LenBytes(128) == [0x81, 0x80] && LenBytes(300) == [0x82, 1, 0x2C]
    ensures LenBytes(0x1_0000) == [0x83, 1, 0, 0] && LenBytes(0x100_0000) == [0x84, 1, 0, 0, 0]
  {
    B8Step(0); B8Step(1); B8Step(2);
    LenUnfolded(128); LenUnfolded(300); LenUnfolded(0x1_0000); LenUnfolded(0x100_0000);
  }
}
