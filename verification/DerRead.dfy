/** asn1parse.c: integers, bit strings, sequences and algorithm identifiers. */
module DerRead {
  import opened Arith
  import opened Bytes
  import opened Der

  // -------------------------------------------------------------------- integers

  /** What an INTEGER or ENUMERATED that fits a 32-bit int is read as. */
  function IntSpec(s: seq<byte>, tag: byte): Parsed<nat> {
    match GetTag(s, tag)
    case Err(c) => Err(c)
    case Got(n, t) =>
      if n == 0 || t[0] >= 0x80 || BeVal(t[..n]) >= 0x8000_0000 then Err(ERR_INVALID_LENGTH)
      else Got(BeVal(t[..n]), t[n..])
  }

  /** Octets in an int. */
  const INT_SIZE := 4

  lemma DropZero(c: seq<byte>)
    requires |c| >= 1 && c[0] == 0
    ensures BeVal(c) == BeVal(c[1..])
  {
    hide BeVal;
    assert c == [0] + c[1..];
    LeadingZero(c[1..]);
  }

  /** Without leading zeros, the length and the top octet tell whether it fits. */
  lemma FitsInt(c: seq<byte>)
    requires |c| > 0 ==> c[0] != 0
    ensures BeVal(c) < 0x8000_0000 <==> !(|c| > INT_SIZE || (|c| == INT_SIZE && c[0] >= 0x80))
  {
    B8Step(0); B8Step(1); B8Step(2); B8Step(3);
    assert B8(3) == 0x100_0000 && B8(4) == 0x1_0000_0000;
    hide BeVal, B8;
    if |c| == 0 {
      assert c == []; BeEmpty();
    } else {
      TopOctet(c);
      if |c| > INT_SIZE { B8Mono(4, |c| - 1); MulMono(1, c[0], B8(|c| - 1)); }
      if |c| < INT_SIZE { BeBound(c); B8Mono(|c|, 3); }
    }
  }

  /** asn1_get_tagged_int */
  method GetTaggedInt(s: seq<byte>, tag: byte) returns (r: Parsed<nat>)
    ensures r == IntSpec(s, tag)
  {
    hide BeVal, GetTag, BitOr;
    var g := GetTag(s, tag);
    if g.Err? { return Err(g.code); }
    var len, p := g.v, g.rest;
    if len == 0 { return Err(ERR_INVALID_LENGTH); }
    if p[0] >= 0x80 { return Err(ERR_INVALID_LENGTH); }
    ghost var t, v := g.rest, BeVal(g.rest[..len]);
    ghost var n := len;
    while len > 0 && p[0] == 0
      invariant 0 <= len <= |p| && BeVal(p[..len]) == v && p[len..] == t[n..]
      decreases len
    {
      DropZero(p[..len]);
      assert p[..len][1..] == p[1..][..len - 1];
      p := p[1..];
      len := len - 1;
    }
    if len > 0 { assert p[..len][0] == p[0]; }
    FitsInt(p[..len]);
    if len > INT_SIZE { return Err(ERR_INVALID_LENGTH); }
    if len == INT_SIZE && p[0] >= 0x80 { return Err(ERR_INVALID_LENGTH); }
    var val := ReadInt(p, len);
    assert p[len..] == t[n..];
    r := Got(val, p[len..]);
  }

  /** The octets shifted into an int one by one. */
  method ReadInt(p: seq<byte>, len: nat) returns (val: nat)
    requires len <= |p| && BeVal(p[..len]) < 0x8000_0000
    ensures val == BeVal(p[..len])
  {
    hide BeVal, BitOr;
    val := 0;
    assert p[..0] == []; BeEmpty();
    for i := 0 to len
      invariant val == BeVal(p[..i])
    {
      assert p[..i + 1] == p[..i] + [p[i]];
      BeSnoc(p[..i], p[i]);
      OrByte(val, p[i]);
      val := BitOr(val * 256, p[i]);
    }
  }

  lemma OrByte(x: nat, b: byte)
    ensures BitOr(x * 256, b) == x * 256 + b
  {
    hide BitOr;
    Pow2Small();
    DivModUnique(x * 256, 256, x, 0);
    BitOrDisjoint(x * 256, b, 8);
  }

  /** Every non-negative int is read back. */
  lemma IntRoundTrip(v: nat, tag: byte, r: seq<byte>)
    requires v < 0x8000_0000
    ensures IntSpec(Tlv(tag, IntContent(v)) + r, tag) == Got(v, r)
  {
    hide BeVal, GetTag, Tlv, IntContent;
    var c := IntContent(v);
    ShortContent(v);
    TagRoundTrip(tag, c, r);
    assert (c + r)[..|c|] == c && (c + r)[|c|..] == r;
  }

  lemma ShortContent(v: nat)
    requires v < 0x8000_0000
    ensures |IntContent(v)| <= 5
  {
    hide BeVal;
    B8Step(0); B8Step(1); B8Step(2); B8Step(3);
    assert B8(4) == 0x1_0000_0000;
    ToBeVal(v, 5);
    B8Mono(4, 5);
    ModSmall(v, B8(5));
    assert ToBe(v, 5)[0] == Byte(v, 4);
    ModSmall(v, B8(4));
    IntContentMinimal(v, ToBe(v, 5));
  }

  // ------------------------------------------------------------------ bit strings

  datatype BitString = BitString(octets: seq<byte>, unused: nat)

  /** mbedtls_asn1_get_bitstring; the bit string must end where the data ends. */
  function GetBitstring(s: seq<byte>): Parsed<BitString> {
    match GetTag(s, BIT_STRING)
    case Err(c) => Err(c)
    case Got(n, t) =>
      if n < 1 then Err(ERR_OUT_OF_DATA)
      else if t[0] > 7 then Err(ERR_INVALID_LENGTH)
      else if n != |t| then Err(ERR_LENGTH_MISMATCH)
      else Got(BitString(t[1..n], t[0]), [])
  }

  /** Bit i of a bit string, the first being the top bit of the first octet. */
  function Bit(o: seq<byte>, i: nat): nat
    requires i < 8 * |o|
  {
    (o[i / 8] / Pow2(7 - i % 8)) % 2
  }

  /** The first `bits` bits of buf, bits beyond them zero: section 8.6 and 11.2.1. */
  function BitContent(buf: seq<byte>, bits: nat): (c: seq<byte>)
    requires bits <= 8 * |buf|
    ensures |c| == 1 + (bits + 7) / 8
  {
    var n := (bits + 7) / 8;
    if n == 0 then [0] else [8 * n - bits] + buf[..n - 1] + [Masked(buf[n - 1], 8 * n - bits)]
  }

  /** x & ~((1 << u) - 1) */
  function Masked(x: byte, u: nat): byte
    requires u <= 7
  {
    x - x % Pow2(u)
  }

  lemma BitstringRoundTrip(buf: seq<byte>, bits: nat)
    requires bits <= 8 * |buf| && (bits + 7) / 8 < 0xFFFF_FFFF
    ensures var c := BitContent(buf, bits);
      GetBitstring(Tlv(BIT_STRING, c)) == Got(BitString(c[1..], (8 - bits % 8) % 8), [])
  {
    hide GetTag, Tlv, Masked;
    var c := BitContent(buf, bits);
    TagRoundTrip(BIT_STRING, c, []);
    assert Tlv(BIT_STRING, c) + [] == Tlv(BIT_STRING, c) && c + [] == c;
  }

  /** The octets read carry the bits written, and zeros after them. */
  lemma BitsKept(buf: seq<byte>, bits: nat, i: nat)
    requires bits <= 8 * |buf| && i < 8 * ((bits + 7) / 8)
    ensures Bit(BitContent(buf, bits)[1..], i) == if i < bits then Bit(buf, i) else 0
  {
    var n := (bits + 7) / 8;
    var c := BitContent(buf, bits)[1..];
    assert c == buf[..n - 1] + [Masked(buf[n - 1], 8 * n - bits)];
    if i / 8 == n - 1 {
      MaskedBit(buf[n - 1], 8 * n - bits, 7 - i % 8);
    } else {
      assert c[i / 8] == buf[i / 8];
    }
  }

  lemma MaskedBit(x: byte, u: nat, k: nat)
    requires u <= 7 && k <= 7
    ensures (Masked(x, u) / Pow2(k)) % 2 == if k >= u then (x / Pow2(k)) % 2 else 0
  {
    var p, q := Pow2(u), Pow2(k);
    var h, r := x / p, x % p;
    DivMod(x, p);
    assert Masked(x, u) == h * p;
    if k >= u {
      var d := Pow2(k - u);
      Pow2Add(u, k - u);
      DivDiv(x, p, d);
      DivModUnique(h * p, p, h, 0);
      DivDiv(h * p, p, d);
    } else {
      var d := Pow2(u - k - 1);
      Pow2Add(u - k, k);
      MulAssoc(h, 2 * d, q);
      DivModUnique(h * p, q, h * (2 * d), 0);
      MulAssoc(h, 2, d); MulAssoc(2, h, d);
    }
  }

  // -------------------------------------------------------------------- sequences

  /** An element of a SEQUENCE OF: tag and contents. */
  datatype Elem = Elem(tag: byte, body: seq<byte>)

  /** The masks of mbedtls_asn1_traverse_sequence_of. */
  datatype Masks = Masks(mustMask: byte, mustVal: byte, mayMask: byte, mayVal: byte)

  function Prepend(es: seq<Elem>, r: Parsed<seq<Elem>>): Parsed<seq<Elem>> {
    if r.Err? then r else Got(es + r.v, r.rest)
  }

  /** What the callback answers for an element, given those it saw before: 0 to go on. */
  type Callback = (seq<Elem>, Elem) -> int

  /** The answer for the elements e, at most one, after those before. */
  function Answer(cb: Callback, before: seq<Elem>, e: seq<Elem>): int { if |e| == 0 then 0 else cb(before, e[0]) }

  /** The elements that the callback sees, in order, or the first error. */
  function Visited(t: seq<byte>, m: Masks, cb: Callback, before: seq<Elem>): Parsed<seq<Elem>>
    decreases |t|
  {
    if |t| == 0 then Got([], [])
    else if BitAnd(t[0], m.mustMask) != m.mustVal then Err(ERR_UNEXPECTED_TAG)
    else match GetLen(t[1..])
      case Err(c) => Err(c)
      case Got(n, r) =>
        var e := if BitAnd(t[0], m.mayMask) == m.mayVal then [Elem(t[0], r[..n])] else [];
        if Answer(cb, before, e) != 0 then Err(Answer(cb, before, e)) else Prepend(e, Visited(r[n..], m, cb, before + e))
  }

  /** The first answer other than 0. */
  function FirstRefusal(es: seq<Elem>, cb: Callback, before: seq<Elem>): int {
    if |es| == 0 then 0
    else if cb(before, es[0]) != 0 then cb(before, es[0])
    else FirstRefusal(es[1..], cb, before + [es[0]])
  }

  /** A callback that collects all elements. */
  function Collect(before: seq<Elem>, e: Elem): int { 0 }

  /** A well-formed sequence is visited to its end, or to the first element refused. */
  lemma {:induction false} VisitedByCallback(t: seq<byte>, m: Masks, cb: Callback, before: seq<Elem>)
    requires Visited(t, m, Collect, before).Got?
    ensures var all := Visited(t, m, Collect, before); var code := FirstRefusal(all.v, cb, before);
      Visited(t, m, cb, before) == if code == 0 then all else Err(code)
    decreases |t|
  {
    hide GetLen, BitAnd;
    if |t| > 0 {
      var l := GetLen(t[1..]);
      var e := if BitAnd(t[0], m.mayMask) == m.mayVal then [Elem(t[0], l.rest[..l.v])] else [];
      var more := Visited(l.rest[l.v..], m, Collect, before + e);
      VisitedByCallback(l.rest[l.v..], m, cb, before + e);
      assert e != [] ==> (e + more.v)[1..] == more.v;
      assert e == [] ==> e + more.v == more.v && before + e == before;
    }
  }

  /** mbedtls_asn1_traverse_sequence_of with a callback and its list of elements. */
  method TraverseSequenceOf(s: seq<byte>, m: Masks, cb: Callback) returns (r: Parsed<seq<Elem>>)
    ensures var g := GetTag(s, SEQUENCE);
      r == if g.Err? then Err(g.code) else if g.v != |g.rest| then Err(ERR_LENGTH_MISMATCH) else Visited(g.rest, m, cb, [])
  {
    hide GetTag, GetLen, BitAnd;
    var g := GetTag(s, SEQUENCE);
    if g.Err? { return Err(g.code); }
    if g.v != |g.rest| { return Err(ERR_LENGTH_MISMATCH); }
    var p, seen := g.rest, [];
    PrependNone(Visited(p, m, cb, seen));
    while |p| > 0
      invariant Visited(g.rest, m, cb, []) == Prepend(seen, Visited(p, m, cb, seen))
      decreases |p|
    {
      var tag := p[0];
      if BitAnd(tag, m.mustMask) != m.mustVal { return Err(ERR_UNEXPECTED_TAG); }
      var l := GetLen(p[1..]);
      if l.Err? { return Err(l.code); }
      var e := if BitAnd(tag, m.mayMask) == m.mayVal then [Elem(tag, l.rest[..l.v])] else [];
      if |e| > 0 {
        var ret := cb(seen, e[0]);
        if ret != 0 { return Err(ret); }
      }
      PrependTwice(seen, e, Visited(l.rest[l.v..], m, cb, seen + e));
      seen := seen + e;
      p := l.rest[l.v..];
    }
    assert seen + [] == seen;
    r := Got(seen, []);
  }

  lemma PrependNone(r: Parsed<seq<Elem>>)
    ensures Prepend([], r) == r
  {
    if r.Got? { assert [] + r.v == r.v; }
  }

  lemma PrependTwice(a: seq<Elem>, b: seq<Elem>, r: Parsed<seq<Elem>>)
    ensures Prepend(a, Prepend(b, r)) == Prepend(a + b, r)
  {
    if r.Got? { assert a + (b + r.v) == (a + b) + r.v; }
  }

  /** mbedtls_asn1_get_sequence_of */
  method GetSequenceOf(s: seq<byte>, tag: byte) returns (r: Parsed<seq<Elem>>)
    ensures r == SequenceSpec(s, tag)
    ensures r.Got? ==> r.rest == [] && IsSequenceOf(s, tag, r.v)
  {
    hide GetTag, Visited, Tiles;
    r := TraverseSequenceOf(s, Masks(0xFF, tag, 0, 0), Collect);
    if r.Got? { VisitedTiles(GetTag(s, SEQUENCE).rest, tag, r.v, []); }
  }

  function SequenceSpec(s: seq<byte>, tag: byte): Parsed<seq<Elem>> {
    var g := GetTag(s, SEQUENCE);
    if g.Err? then Err(g.code)
    else if g.v != |g.rest| then Err(ERR_LENGTH_MISMATCH)
    else Visited(g.rest, Masks(0xFF, tag, 0, 0), Collect, [])
  }

  /** s is one SEQUENCE whose contents the elements tile. */
  ghost predicate IsSequenceOf(s: seq<byte>, tag: byte, es: seq<Elem>) {
    GetTag(s, SEQUENCE).Got? && GetTag(s, SEQUENCE).v == |GetTag(s, SEQUENCE).rest| && Tiles(GetTag(s, SEQUENCE).rest, tag, es)
  }

  /** The elements, each behind its tag and length, make up t with nothing left over. */
  ghost predicate Tiles(t: seq<byte>, tag: byte, es: seq<Elem>)
    decreases |es|
  {
    if |es| == 0 then |t| == 0 else
      && |t| > 0 && t[0] == tag == es[0].tag && GetLen(t[1..]).Got?
      && es[0].body == GetLen(t[1..]).rest[..GetLen(t[1..]).v]
      && Tiles(GetLen(t[1..]).rest[GetLen(t[1..]).v..], tag, es[1..])
  }

  lemma FullMask(x: byte)
    ensures BitAnd(x, 0xFF) == x && BitAnd(x, 0) == 0
  {
    NoMask(x);
    hide BitAnd, Pow2, Pow;
    Pow2Small();
    BitAndMask(x, 8);
    ModSmall(x, 256);
  }

  lemma NoMask(x: byte)
    ensures BitAnd(x, 0) == 0
  {}

  /** Success means tiling, and tiling means success. */
  lemma {:induction false} VisitedTiles(t: seq<byte>, tag: byte, es: seq<Elem>, before: seq<Elem>)
    ensures Visited(t, Masks(0xFF, tag, 0, 0), Collect, before) == Got(es, []) <==> Tiles(t, tag, es)
    ensures Visited(t, Masks(0xFF, tag, 0, 0), Collect, before).Got? ==> Visited(t, Masks(0xFF, tag, 0, 0), Collect, before).rest == []
    decreases |t|
  {
    hide GetLen, BitAnd;
    if |t| > 0 {
      FullMask(t[0]);
      var l := GetLen(t[1..]);
      if t[0] == tag && l.Got? {
        var u := l.rest[l.v..];
        var rest := if |es| > 0 then es[1..] else [];
        var e := Elem(tag, l.rest[..l.v]);
        VisitedTiles(u, tag, rest, before + [e]);
        var v := Visited(u, Masks(0xFF, tag, 0, 0), Collect, before + [e]);
        if |es| > 0 {
          assert es == [es[0]] + rest;
          if v.Got? && [e] + v.v == es { assert v.v == ([e] + v.v)[1..]; }
        }
      }
    }
  }

  /** Written elements: a SEQUENCE OF with the given contents. */
  function Elements(tag: byte, cs: seq<seq<byte>>): seq<byte> {
    if |cs| == 0 then [] else Tlv(tag, cs[0]) + Elements(tag, cs[1..])
  }

  function AsElems(tag: byte, cs: seq<seq<byte>>): (es: seq<Elem>)
    ensures |es| == |cs| && forall i :: 0 <= i < |cs| ==> es[i] == Elem(tag, cs[i])
  {
    seq(|cs|, i requires 0 <= i < |cs| => Elem(tag, cs[i]))
  }

  lemma {:induction false} ElementsTile(tag: byte, cs: seq<seq<byte>>)
    requires forall i :: 0 <= i < |cs| ==> |cs[i]| <= 0xFFFF_FFFF
    ensures Tiles(Elements(tag, cs), tag, AsElems(tag, cs))
    decreases |cs|
  {
    if |cs| > 0 {
      hide GetLen, Tlv;
      ElementsTile(tag, cs[1..]);
      TlvLen(tag, cs[0], Elements(tag, cs[1..]));
      assert AsElems(tag, cs)[1..] == AsElems(tag, cs[1..]);
    }
  }

  /** What a parser finds at a written element. */
  lemma TlvLen(tag: byte, c: seq<byte>, r: seq<byte>)
    requires |c| <= 0xFFFF_FFFF
    ensures var s := Tlv(tag, c) + r;
      s[0] == tag && GetLen(s[1..]) == Got(|c|, c + r) && (c + r)[..|c|] == c && (c + r)[|c|..] == r
  {
    hide GetLen, LenBytes;
    var s := Tlv(tag, c) + r;
    assert s[1..] == LenBytes(|c|) + (c + r);
    LenRoundTrip(|c|, c + r);
  }

  /** A written SEQUENCE OF is split into what was put in. */
  lemma SequenceRoundTrip(tag: byte, cs: seq<seq<byte>>)
    requires (forall i :: 0 <= i < |cs| ==> |cs[i]| <= 0xFFFF_FFFF) && |Elements(tag, cs)| <= 0xFFFF_FFFF
    ensures SequenceSpec(Tlv(SEQUENCE, Elements(tag, cs)), tag) == Got(AsElems(tag, cs), [])
  {
    hide GetTag, Tlv, Visited, Tiles, Elements;
    var t := Elements(tag, cs);
    ElementsTile(tag, cs);
    VisitedTiles(t, tag, AsElems(tag, cs), []);
    TagRoundTrip(SEQUENCE, t, []);
    assert Tlv(SEQUENCE, t) + [] == Tlv(SEQUENCE, t) && t + [] == t;
  }

  // ------------------------------------------------------- algorithm identifiers

  datatype Params = NoParams | Params(tag: byte, body: seq<byte>)
  datatype Alg = Alg(oid: seq<byte>, params: Params)

  /** mbedtls_asn1_get_alg */
  function GetAlg(s: seq<byte>): Parsed<Alg> {
    match GetTag(s, SEQUENCE)
    case Err(c) => Err(c)
    case Got(n, t) =>
      if |t| < 1 then Err(ERR_OUT_OF_DATA) else
      match GetTag(t[..n], OID)
      case Err(c) => Err(c)
      case Got(k, u) =>
        var w := u[k..];
        if |w| == 0 then Got(Alg(u[..k], NoParams), t[n..]) else
        match GetLen(w[1..])
        case Err(c) => Err(c)
        case Got(j, z) =>
          if j != |z| then Err(ERR_LENGTH_MISMATCH) else Got(Alg(u[..k], Params(w[0], z)), t[n..])
  }

  /** Contents of an AlgorithmIdentifier. */
  function AlgContent(a: Alg): seq<byte> {
    Tlv(OID, a.oid) + (if a.params.NoParams? then [] else Tlv(a.params.tag, a.params.body))
  }

  lemma AlgRoundTrip(a: Alg, r: seq<byte>)
    requires |AlgContent(a)| <= 0xFFFF_FFFF
    ensures GetAlg(Tlv(SEQUENCE, AlgContent(a)) + r) == Got(a, r)
  {
    hide GetTag, GetLen, Tlv;
    var c := AlgContent(a);
    var q := if a.params.NoParams? then [] else Tlv(a.params.tag, a.params.body);
    TagRoundTrip(SEQUENCE, c, r);
    assert (c + r)[..|c|] == c && (c + r)[|c|..] == r;
    TagRoundTrip(OID, a.oid, q);
    assert (a.oid + q)[..|a.oid|] == a.oid && (a.oid + q)[|a.oid|..] == q;
    if a.params.Params? {
      TlvLen(a.params.tag, a.params.body, []);
      assert q + [] == q && a.params.body + [] == a.params.body;
    }
  }
}
