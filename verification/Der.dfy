/** The DER encodings that asn1write.c produces and asn1parse.c reads (ITU-T X.690). */
module Der {
  import opened Arith
  import opened Bytes

  const ERR_OUT_OF_DATA := -0x0060
  const ERR_UNEXPECTED_TAG := -0x0062
  const ERR_INVALID_LENGTH := -0x0064
  const ERR_LENGTH_MISMATCH := -0x0066
  const ERR_BUF_TOO_SMALL := -0x006C

  const INTEGER: byte := 0x02
  const BIT_STRING: byte := 0x03
  const NULL_TAG: byte := 0x05
  const OID: byte := 0x06
  const SEQUENCE: byte := 0x30

  // -------------------------------------------------------------------- lengths

  /** Octets of a length in long form; 0 for the short form. */
  function LenOctets(n: nat): nat {
    if n < 0x80 then 0 else if n <= 0xFF then 1 else if n <= 0xFFFF then 2 else if n <= 0xFF_FFFF then 3 else 4
  }

  /** Section 8.1.3, shortest form as section 10.1 asks. */
  function LenBytes(n: nat): (s: seq<byte>)
    ensures |s| == 1 + LenOctets(n)
  {
    if n < 0x80 then [n] else [0x80 + LenOctets(n)] + ToBe(n, LenOctets(n))
  }

  function Tlv(tag: byte, content: seq<byte>): (s: seq<byte>)
    ensures |s| == 2 + LenOctets(|content|) + |content|
  {
    [tag] + LenBytes(|content|) + content
  }

  /** Result of a parser: a value and the bytes after it. */
  datatype Parsed<T> = Got(v: T, rest: seq<byte>) | Err(code: int)

  /** mbedtls_asn1_get_len on the bytes up to end. */
  function GetLen(s: seq<byte>): (r: Parsed<nat>)
    ensures r.Got? ==> r.v <= |r.rest| < |s| <= |r.rest| + 5 && r.rest == s[|s| - |r.rest|..]
  {
    if |s| < 1 then Err(ERR_OUT_OF_DATA)
    else if s[0] < 0x80 then CheckLen(s[0], s[1..])
    else
      var k := s[0] - 0x80;
      if k == 0 || k > 4 then Err(ERR_INVALID_LENGTH)
      else if |s| < k + 1 then Err(ERR_OUT_OF_DATA)
      else CheckLen(BeVal(s[1..k + 1]), s[k + 1..])
  }

  /** A length beyond the end of the data is refused. */
  function CheckLen(n: nat, rest: seq<byte>): Parsed<nat> {
    if n > |rest| then Err(ERR_OUT_OF_DATA) else Got(n, rest)
  }

  /** mbedtls_asn1_get_tag */
  function GetTag(s: seq<byte>, tag: byte): (r: Parsed<nat>)
    ensures r.Got? ==> r.v <= |r.rest| && |r.rest| + 2 <= |s| <= |r.rest| + 6 && s[0] == tag && r.rest == s[|s| - |r.rest|..]
  {
    if |s| < 1 then Err(ERR_OUT_OF_DATA)
    else if s[0] != tag then Err(ERR_UNEXPECTED_TAG)
    else GetLen(s[1..])
  }

  /** Section 8.1.3.5: one to four octets give the length, big-endian, leading zeros included. */
  lemma LongLength(c: seq<byte>, r: seq<byte>)
    requires 1 <= |c| <= 4
    ensures GetLen([0x80 + |c|] + c + r) == if BeVal(c) <= |r| then Got(BeVal(c), r) else Err(ERR_OUT_OF_DATA)
  {
    hide BeVal;
    var s := [0x80 + |c|] + c + r;
    assert s[1..|c| + 1] == c && s[|c| + 1..] == r;
  }

  lemma LenBounds(n: nat)
    requires n <= 0xFFFF_FFFF
    ensures n < B8(LenOctets(n)) || n < 0x80
  {
    B8Step(0); B8Step(1); B8Step(2); B8Step(3);
  }

  /** A written length is read back, if the data is all there. */
  lemma LenRoundTrip(n: nat, r: seq<byte>)
    requires n <= 0xFFFF_FFFF
    ensures GetLen(LenBytes(n) + r) == if n <= |r| then Got(n, r) else Err(ERR_OUT_OF_DATA)
  {
    var s, k := LenBytes(n) + r, LenOctets(n);
    LenBounds(n);
    if n < 0x80 {
      assert s[1..] == r;
    } else {
      hide ToBe, BeVal, B8;
      assert s[0] == 0x80 + k && s[1..k + 1] == ToBe(n, k) && s[k + 1..] == r;
      ToBeVal(n, k);
      ModSmall(n, B8(k));
    }
  }

  lemma TagRoundTrip(tag: byte, c: seq<byte>, r: seq<byte>)
    requires |c| <= 0xFFFF_FFFF
    ensures GetTag(Tlv(tag, c) + r, tag) == Got(|c|, c + r)
  {
    hide LenBytes, GetLen;
    var s := Tlv(tag, c) + r;
    assert s[1..] == LenBytes(|c|) + (c + r);
    LenRoundTrip(|c|, c + r);
  }

  // -------------------------------------------------------------------- integers

  /** Contents of a non-negative INTEGER: section 8.3. */
  function IntContent(v: nat): (s: seq<byte>)
    ensures |s| >= 1 && BeVal(s) == v && s[0] < 0x80
  {
    var o := Octets(v);
    if o[0] >= 0x80 then LeadingZero(o); [0] + o else o
  }

  lemma LeadingZero(o: seq<byte>)
    ensures BeVal([0] + o) == BeVal(o)
  {
    BePad(1, o);
    assert seq(1, _ => 0) == [0];
  }

  /** Minimal: no shorter string with a clear top bit has that value. */
  lemma IntContentMinimal(v: nat, s: seq<byte>)
    requires |s| >= 1 && s[0] < 0x80 && BeVal(s) == v
    ensures |IntContent(v)| <= |s|
  {
    hide Octets, BeVal, B8;
    var o := Octets(v);
    if |o| > 1 {
      TopOctet(o);
      MulMono(1, o[0], B8(|o| - 1));
      if |s| < |o| { BeBound(s); B8Mono(|s|, |o| - 1); }
    }
    if |s| == |o| { SameLength(s, o); }
  }

  lemma SameLength(s: seq<byte>, o: seq<byte>)
    requires |s| == |o| && BeVal(s) == BeVal(o)
    ensures s == o
  {
    BeBytesOf(s); BeBytesOf(o);
  }
}
