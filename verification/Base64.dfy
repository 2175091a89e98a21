/** base64.c: encoding, and decoding in two passes (RFC 1521 section 5.2). */
module Base64 {
  import opened Arith
  import opened Bytes
  import opened ReturnCodes

  const ERR_BASE64_BUFFER_TOO_SMALL := -0x002A
  const ERR_BASE64_INVALID_CHARACTER := -0x002C

  const CR: byte := 13
  const LF: byte := 10
  const SP: byte := 32
  const EQ: byte := 61

  // ----------------------------------------------------------------------- digits

  /** mbedtls_ct_base64_enc_char */
  function EncChar(v: nat): (c: byte)
    requires v < 64
    ensures DecValue(c) == v
  {
    if v <= 25 then 65 + v else if v <= 51 then 97 + v - 26 else if v <= 61 then 48 + v - 52 else if v == 62 then 43 else 47
  }

  /** mbedtls_ct_base64_dec_value */
  function DecValue(c: byte): (v: int)
    ensures -1 <= v < 64
  {
    if 65 <= c <= 90 then c - 65
    else if 97 <= c <= 122 then c - 97 + 26
    else if 48 <= c <= 57 then c - 48 + 52
    else if c == 43 then 62 else if c == 47 then 63 else -1
  }

  const CAPITALS := "ABCDEFGHIJKLMNOPQRSTUVWXYZ"
  const SMALL := "abcdefghijklmnopqrstuvwxyz"
  const ALPHABET: string := CAPITALS + SMALL + "0123456789+/"

  /** Digit v is the v-th character of the alphabet of RFC 1521 section 5.2, and the pad
      character is =. */
  lemma EncodedDigit(v: nat)
    requires v < 64
    ensures |ALPHABET| == 64 && EncChar(v) == ALPHABET[v] as int
    ensures EQ == '=' as int && CR == '\r' as int && LF == '\n' as int && SP == ' ' as int
  {
    if v < 26 { Letters(v); } else if v < 52 { Letters(v - 26); } else { assert ALPHABET[v] == "0123456789+/"[v - 52]; }
  }

  lemma Letters(i: nat)
    requires i < 26
    ensures CAPITALS[i] as int == 65 + i && SMALL[i] as int == 97 + i
  {}

  /** The digits are the characters of the alphabet, each standing for its place. */
  lemma DecodedDigit(c: byte)
    ensures forall v: nat :: v < 64 && c == ALPHABET[v] as int ==> DecValue(c) == v
    ensures DecValue(c) == -1 || exists v: nat :: v < 64 && c == ALPHABET[v] as int
  {
    forall v: nat | v < 64 && c == ALPHABET[v] as int ensures DecValue(c) == v { EncodedDigit(v); }
    if DecValue(c) != -1 {
      EncodedDigit(DecValue(c));
      assert c == EncChar(DecValue(c));
    }
  }

  predicate IsDigit(c: byte) { DecValue(c) >= 0 }
  predicate IsSpace(c: byte) { c == CR || c == LF || c == SP }

  /** Four digits for three octets. */
  function Quad(a: byte, b: byte, c: byte): seq<byte> {
    [EncChar(a / 4), EncChar((a % 4) * 16 + b / 16), EncChar((b % 16) * 4 + c / 64), EncChar(c % 64)]
  }

  /** Three octets and their four digits are the same number of 24 bits, high end first. */
  lemma QuadNumber(a: byte, b: byte, c: byte)
    ensures forall i :: 0 <= i < 4 ==> DecValue(Quad(a, b, c)[i]) >= 0
    ensures var x: int, y: int, z: int := a, b, c; var q := Quad(a, b, c);
      ((DecValue(q[0]) * 64 + DecValue(q[1])) * 64 + DecValue(q[2])) * 64 + DecValue(q[3]) == (x * 256 + y) * 256 + z
  {}

  /** The encoding of a byte string. */
  function Encoded(s: seq<byte>): seq<byte> {
    if |s| == 0 then []
    else if |s| == 1 then Quad(s[0], 0, 0)[..2] + [EQ, EQ]
    else if |s| == 2 then Quad(s[0], s[1], 0)[..3] + [EQ]
    else Quad(s[0], s[1], s[2]) + Encoded(s[3..])
  }

  lemma {:induction false} EncodedLength(s: seq<byte>)
    ensures |Encoded(s)| == 4 * ((|s| + 2) / 3)
    decreases |s|
  {
    if |s| >= 3 {
      EncodedLength(s[3..]);
      assert (|s| + 2) / 3 == (|s| - 3 + 2) / 3 + 1;
    }
  }

  /** Whole groups of three in front. */
  lemma {:induction false} EncodedGroups(s: seq<byte>, t: seq<byte>)
    requires |s| % 3 == 0
    ensures Encoded(s + t) == Encoded(s) + Encoded(t)
    decreases |s|
  {
    if |s| == 0 {
      assert s + t == t;
    } else {
      assert (s + t)[3..] == s[3..] + t;
      EncodedGroups(s[3..], t);
    }
  }

  lemma EncodedNext(s: seq<byte>, i: nat)
    requires i + 3 <= |s| && i % 3 == 0
    ensures Encoded(s[..i + 3]) == Encoded(s[..i]) + Quad(s[i], s[i + 1], s[i + 2])
  {
    assert s[..i + 3] == s[..i] + s[i..i + 3];
    EncodedGroups(s[..i], s[i..i + 3]);
    assert s[i..i + 3][3..] == [];
    assert Encoded(s[i..i + 3]) == Quad(s[i], s[i + 1], s[i + 2]) + Encoded([]);
  }

  method PutAll(dst: array<byte>, p: nat, q: seq<byte>)
    requires p + |q| <= dst.Length
    modifies dst
    ensures dst[..p + |q|] == old(dst[..p]) + q
    ensures forall i :: p + |q| <= i < dst.Length ==> dst[i] == old(dst[i])
  {
    for k := 0 to |q|
      invariant forall i :: p + k <= i < dst.Length ==> dst[i] == old(dst[i])
      invariant forall i :: 0 <= i < p ==> dst[i] == old(dst[i])
      invariant forall i :: 0 <= i < k ==> dst[p + i] == q[i]
    {
      dst[p + k] := q[k];
    }
  }

  /** mbedtls_base64_encode; a destination of length dst.Length. */
  method Encode(dst: array<byte>, src: seq<byte>) returns (st: Status, olen: nat)
    modifies dst
    ensures |src| > 0 ==> st == if dst.Length < |Encoded(src)| + 1 then Fail(ERR_BASE64_BUFFER_TOO_SMALL) else Ok
    ensures |src| == 0 ==> st.Ok?
    ensures st.Ok? ==> olen == |Encoded(src)| <= dst.Length && dst[..olen] == Encoded(src)
    ensures st.Ok? && |src| > 0 ==> dst[olen] == 0
    ensures st.Fail? ==> olen == |Encoded(src)| + 1
  {
    hide Quad, Encoded;
    EncodedLength(src);
    EncodedShort(0, 0);
    if |src| == 0 { return Ok, 0; }
    var n := |src| / 3 + (if |src| % 3 != 0 then 1 else 0);
    n := n * 4;
    if dst.Length < n + 1 { return Fail(ERR_BASE64_BUFFER_TOO_SMALL), n + 1; }
    n := (|src| / 3) * 3;
    var p := EncodeWhole(dst, src, n);
    if n < |src| {
      EncodeRest(dst, src, n, p);
      p := p + 4;
    } else {
      assert src[..n] == src;
    }
    olen := p;
    dst[p] := 0;
    st := Ok;
  }

  /** The loop over whole groups of three octets. */
  method EncodeWhole(dst: array<byte>, src: seq<byte>, n: nat) returns (p: nat)
    requires n <= |src| && n % 3 == 0 && 4 * n <= 3 * dst.Length
    modifies dst
    ensures 3 * p == 4 * n && dst[..p] == Encoded(src[..n])
  {
    hide Quad, Encoded;
    var i := 0;
    p := 0;
    assert src[..0] == [];
    EncodedShort(0, 0);
    while i < n
      invariant 0 <= i <= n && i % 3 == 0 && 3 * p == 4 * i && dst[..p] == Encoded(src[..i])
    {
      EncodedNext(src, i);
      QuadLength(src[i], src[i + 1], src[i + 2]);
      PutAll(dst, p, Quad(src[i], src[i + 1], src[i + 2]));
      i, p := i + 3, p + 4;
    }
  }

  /** One or two octets left. */
  method EncodeRest(dst: array<byte>, src: seq<byte>, i: nat, p: nat)
    requires i % 3 == 0 && i < |src| <= i + 2 && p + 4 <= dst.Length && dst[..p] == Encoded(src[..i])
    modifies dst
    ensures dst[..p + 4] == Encoded(src)
  {
    hide Quad, Encoded;
    assert src == src[..i] + src[i..];
    EncodedGroups(src[..i], src[i..]);
    var c1 := src[i];
    var c2: byte := if i + 1 < |src| then src[i + 1] else 0;
    QuadLength(c1, c2, 0);
    EncodedShort(c1, c2);
    var q := if i + 1 < |src| then Quad(c1, c2, 0)[..3] + [EQ] else Quad(c1, c2, 0)[..2] + [EQ, EQ];
    assert src[i..] == if i + 1 < |src| then [c1, c2] else [c1];
    PutAll(dst, p, q);
  }

  lemma QuadLength(a: byte, b: byte, c: byte)
    ensures |Quad(a, b, c)| == 4
  {}

  lemma EncodedShort(a: byte, b: byte)
    ensures Encoded([]) == [] && Encoded([a]) == Quad(a, 0, 0)[..2] + [EQ, EQ] && Encoded([a, b]) == Quad(a, b, 0)[..3] + [EQ]
  {}

  // --------------------------------------------------------------- accepted texts

  /** The text without line breaks and spaces. */
  function Clean(s: seq<byte>): (c: seq<byte>)
    ensures |c| <= |s|
  {
    if |s| == 0 then []
    else if IsSpace(s[|s| - 1]) then Clean(s[..|s| - 1])
    else Clean(s[..|s| - 1]) + [s[|s| - 1]]
  }

  lemma CleanNext(s: seq<byte>, i: nat)
    requires i < |s|
    ensures Clean(s[..i + 1]) == if IsSpace(s[i]) then Clean(s[..i]) else Clean(s[..i]) + [s[i]]
  {
    assert s[..i + 1][..i] == s[..i];
  }

  lemma {:induction false} CleanPrefix(s: seq<byte>, i: nat)
    requires i <= |s|
    ensures Clean(s[..i]) <= Clean(s)
    decreases |s| - i
  {
    if i == |s| { assert s[..i] == s; } else { CleanPrefix(s, i + 1); CleanNext(s, i); }
  }

  /** Number of = signs. */
  function Equals(c: seq<byte>): (e: nat)
    ensures e <= |c|
  {
    if |c| == 0 then 0 else Equals(c[..|c| - 1]) + (if c[|c| - 1] == EQ then 1 else 0)
  }

  lemma {:induction false} EqualsPrefix(c: seq<byte>, d: seq<byte>)
    requires c <= d
    ensures Equals(c) <= Equals(d)
    decreases |d|
  {
    if |c| < |d| { EqualsPrefix(c, d[..|d| - 1]); } else { assert c == d; }
  }

  /** Digits, then at most two = signs. */
  predicate Shaped(c: seq<byte>) {
    && (forall i :: 0 <= i < |c| ==> IsDigit(c[i]) || c[i] == EQ)
    && (forall i, j :: 0 <= i < j < |c| && c[i] == EQ ==> c[j] == EQ)
    && Equals(c) <= 2
  }

  lemma ShapedPrefix(c: seq<byte>, d: seq<byte>)
    requires c <= d && Shaped(d)
    ensures Shaped(c)
  {
    EqualsPrefix(c, d);
  }

  /** Spaces only before a line break or at the end, carriage returns only before a
      line feed. */
  predicate SpacedAt(s: seq<byte>, i: nat)
    requires i < |s|
  {
    && (s[i] == SP ==> i + 1 == |s| || IsSpace(s[i + 1]))
    && (s[i] == CR ==> i + 1 < |s| && s[i + 1] == LF)
  }

  /** The texts that the first pass accepts. */
  predicate Accepts(s: seq<byte>) {
    (forall i :: 0 <= i < |s| ==> SpacedAt(s, i)) && Shaped(Clean(s))
  }

  lemma Refused(s: seq<byte>, i: nat)
    requires i < |s| && !IsSpace(s[i]) && !Shaped(Clean(s[..i]) + [s[i]])
    ensures !Accepts(s)
  {
    CleanNext(s, i); CleanPrefix(s, i + 1);
    if Accepts(s) { ShapedPrefix(Clean(s[..i + 1]), Clean(s)); }
  }

  lemma OneMore(c: seq<byte>, x: byte)
    requires Shaped(c) && !IsSpace(x)
    ensures Equals(c + [x]) == Equals(c) + (if x == EQ then 1 else 0)
    ensures Shaped(c + [x]) <==> if x == EQ then Equals(c) < 2 else IsDigit(x) && Equals(c) == 0
  {
    assert (c + [x])[..|c|] == c;
    NoEquals(c);
    if Shaped(c + [x]) && x != EQ {
      assert (c + [x])[|c|] == x;
      forall i | 0 <= i < |c| ensures c[i] != EQ { assert (c + [x])[i] == c[i]; }
    }
  }

  lemma {:induction false} NoEquals(c: seq<byte>)
    ensures Equals(c) == 0 <==> forall i :: 0 <= i < |c| ==> c[i] != EQ
  {
    if |c| > 0 { NoEquals(c[..|c| - 1]); }
  }

  /** First pass: validity, and the number of digits and = signs. */
  method FirstPass(src: seq<byte>) returns (ok: bool, n: nat, equals: nat)
    ensures ok == Accepts(src)
    ensures ok ==> n == |Clean(src)| && equals == Equals(Clean(src))
  {
    hide Clean, Equals, Shaped, IsDigit;
    var i := 0;
    n, equals := 0, 0;
    assert src[..0] == [];
    Empty();
    while i < |src|
      invariant 0 <= i <= |src| && (forall j :: 0 <= j < i ==> SpacedAt(src, j))
      invariant n == |Clean(src[..i])| && equals == Equals(Clean(src[..i])) && Shaped(Clean(src[..i]))
    {
      var spaces := false;
      while i < |src| && src[i] == SP
        invariant 0 <= i <= |src| && (forall j :: 0 <= j < i && !(spaces && j == i - 1) ==> SpacedAt(src, j))
        invariant spaces ==> i > 0 && src[i - 1] == SP
        invariant n == |Clean(src[..i])| && equals == Equals(Clean(src[..i])) && Shaped(Clean(src[..i]))
        decreases |src| - i
      {
        CleanNext(src, i);
        i := i + 1;
        spaces := true;
      }
      if i == |src| {
        break;
      }
      CleanNext(src, i);
      if |src| - i >= 2 && src[i] == CR && src[i + 1] == LF {
        i := i + 1;
        continue;
      }
      if src[i] == LF {
        i := i + 1;
        continue;
      }
      if spaces {
        assert !SpacedAt(src, if src[i] == CR then i else i - 1);
        return false, n, equals;
      }
      if src[i] == CR {
        assert !SpacedAt(src, i);
      } else {
        OneMore(Clean(src[..i]), src[i]);
        if !Shaped(Clean(src[..i]) + [src[i]]) { Refused(src, i); }
      }
      if src[i] > 127 { HighChar(src[i]); return false, n, equals; }
      if src[i] == EQ {
        equals := equals + 1;
        if equals > 2 { return false, n, equals; }
      } else {
        if equals != 0 { return false, n, equals; }
        if DecValue(src[i]) < 0 { NotDigit(src[i]); return false, n, equals; }
        NotDigit(src[i]);
      }
      n := n + 1;
      i := i + 1;
    }
    assert src[..|src|] == src;
    ok := true;
  }

  lemma Empty()
    ensures Clean([]) == [] && Equals([]) == 0 && Shaped([])
  {}

  lemma HighChar(c: byte)
    requires c > 127
    ensures !IsDigit(c)
  {}

  lemma NotDigit(c: byte)
    ensures IsDigit(c) <==> DecValue(c) >= 0
  {}

  // ------------------------------------------------------------------ second pass

  /** Accumulator, digits in it, = signs seen, octets written. */
  datatype Acc = Acc(x: nat, digits: nat, equals: nat, out: seq<byte>)

  /** The accumulator moved up six bits in 32-bit arithmetic, a digit joined to it. */
  function Shifted(x: nat, c: byte): nat {
    (x * 64) % 0x1_0000_0000 + (if c == EQ || DecValue(c) < 0 then 0 else DecValue(c))
  }

  /** The octets of a full accumulator. */
  function Octets(x: nat, equals: nat): seq<byte> {
    [(x / 65536) % 256] + (if equals <= 1 then [(x / 256) % 256] else []) + (if equals <= 0 then [x % 256] else [])
  }

  function Take(a: Acc, c: byte): Acc {
    var x, e := Shifted(a.x, c), a.equals + (if c == EQ then 1 else 0);
    if a.digits + 1 == 4 then Acc(x, 0, e, a.out + Octets(x, e)) else Acc(x, a.digits + 1, e, a.out)
  }

  function TakeAll(c: seq<byte>): Acc {
    if |c| == 0 then Acc(0, 0, 0, []) else Take(TakeAll(c[..|c| - 1]), c[|c| - 1])
  }

  /** The size the first pass computes. */
  function Size(n: nat, equals: nat): int {
    6 * (n / 8) + (6 * (n % 8) + 7) / 8 - equals
  }

  lemma SizeIs(n: nat, e: nat)
    ensures Size(n, e) == (6 * n + 7) / 8 - e
  {}

  /** Octets written after d digits and e = signs. */
  function Written(d: nat, e: nat): int {
    3 * (d / 4) + (if d % 4 + e >= 4 then d % 4 - 1 else 0)
  }

  lemma {:induction false} TakenLength(c: seq<byte>)
    requires Shaped(c)
    ensures var a := TakeAll(c); var e := Equals(c);
      a.equals == e && a.digits == |c| % 4 && |a.out| == Written(|c| - e, e)
  {
    hide Shifted, Octets, Written, TakeAll, IsDigit;
    if |c| == 0 {
      TakeNone();
      assert c == [];
      WrittenNone();
    } else {
      var k := |c| - 1;
      var p := c[..k];
      ShapedPrefix(p, c);
      TakenLength(p);
      var e := Equals(p);
      NoEquals(p);
      assert c == p + [c[k]];
      TakeNext(p, c[k]);
      OctetCount(Shifted(TakeAll(p).x, c[k]), Equals(c));
      if c[k] != EQ {
        forall i | 0 <= i < k ensures p[i] != EQ { assert p[i] == c[i]; }
        WrittenDigit(k, |TakeAll(p).out|);
      } else {
        WrittenEqual(k - e, e);
      }
    }
  }

  lemma WrittenNone()
    ensures Written(0, 0) == 0
  {}

  lemma OctetCount(x: nat, e: nat)
    requires e <= 2
    ensures |Octets(x, e)| == 3 - e
  {}

  lemma WrittenDigit(d: nat, w: int)
    requires w == Written(d, 0)
    ensures Written(d + 1, 0) == if d % 4 == 3 then w + 3 else w
    ensures (d + 1) % 4 == if d % 4 == 3 then 0 else d % 4 + 1
  {}

  lemma WrittenEqual(d: nat, e: nat)
    requires e <= 1
    ensures Written(d, e + 1) == if (d + e) % 4 == 3 then Written(d, e) + 3 - (e + 1) else Written(d, e)
    ensures (d + e + 1) % 4 == if (d + e) % 4 == 3 then 0 else (d + e) % 4 + 1
  {
    var q, r := d / 4, d % 4;
    assert d == 4 * q + r;
  }

  /** The second pass writes no more than the first pass announced. */
  lemma EnoughRoom(c: seq<byte>)
    requires Shaped(c)
    ensures 0 <= |TakeAll(c).out| <= Size(|c|, Equals(c))
  {
    TakenLength(c);
    SizeIs(|c|, Equals(c));
    RoomArith(|c| - Equals(c), Equals(c));
  }

  lemma RoomArith(d: nat, e: nat)
    requires e <= 2
    ensures Written(d, e) <= (6 * (d + e) + 7) / 8 - e
  {
    var q, r := d / 4, d % 4;
    assert d == 4 * q + r;
    assert (6 * (d + e) + 7) / 8 == 3 * q + (6 * (r + e) + 7) / 8;
  }

  lemma {:induction false} OutGrows(c: seq<byte>, d: seq<byte>)
    requires c <= d
    ensures TakeAll(c).out <= TakeAll(d).out
    decreases |d|
  {
    if |c| < |d| { OutGrows(c, d[..|d| - 1]); } else { assert c == d; }
  }

  lemma TakeNext(c: seq<byte>, x: byte)
    ensures TakeAll(c + [x]) == Take(TakeAll(c), x)
  {
    assert (c + [x])[..|c|] == c;
  }

  /** Second pass: dst[..p] holds what has been decoded, within the n octets. */
  method SecondPass(dst: array<byte>, src: seq<byte>, ghost n: nat) returns (p: nat)
    requires Accepts(src) && n == Size(|Clean(src)|, Equals(Clean(src))) <= dst.Length
    modifies dst
    ensures p <= n && dst[..p] == TakeAll(Clean(src)).out
    ensures forall k :: n <= k < dst.Length ==> dst[k] == old(dst[k])
  {
    hide Clean, Equals, Shaped, IsDigit, Take, TakeAll, Size, Accepts, DecValue;
    Empty(); TakeNone(); Whole(src);
    ghost var all := TakeAll(Clean(src)).out;
    p := 0;
    var x, digits, equals := 0, 0, 0;
    assert src[..0] == [];
    for i := 0 to |src|
      invariant p <= n && TakeAll(Clean(src[..i])) == Acc(x, digits, equals, dst[..p])
      invariant forall k :: n <= k < dst.Length ==> dst[k] == old(dst[k])
    {
      CleanNext(src, i); CleanPrefix(src, i + 1);
      OutGrows(Clean(src[..i + 1]), Clean(src));
      if src[i] == CR || src[i] == LF || src[i] == SP { continue; }
      TakeNext(Clean(src[..i]), src[i]);
      TakeIs(Acc(x, digits, equals, dst[..p]), src[i]);
      x := Shifted(x, src[i]);
      if src[i] == EQ { equals := equals + 1; }
      digits := digits + 1;
      if digits == 4 {
        digits := 0;
        ghost var next := dst[..p] + Octets(x, equals);
        PutAll(dst, p, Octets(x, equals));
        p := p + |Octets(x, equals)|;
      }
    }
    assert src[..|src|] == src;
  }

  lemma TakeIs(a: Acc, c: byte)
    ensures Take(a, c) ==
      var x, e := Shifted(a.x, c), a.equals + (if c == EQ then 1 else 0);
      if a.digits + 1 == 4 then Acc(x, 0, e, a.out + Octets(x, e)) else Acc(x, a.digits + 1, e, a.out)
  {}

  lemma TakeNone()
    ensures TakeAll([]) == Acc(0, 0, 0, [])
  {}

  lemma Whole(src: seq<byte>)
    requires Accepts(src)
    ensures |TakeAll(Clean(src)).out| <= Size(|Clean(src)|, Equals(Clean(src)))
  {
    EnoughRoom(Clean(src));
  }

  /** mbedtls_base64_decode */
  method Decode(dst: array<byte>, src: seq<byte>) returns (st: Status, olen: nat)
    modifies dst
    ensures !Accepts(src) ==> st == Fail(ERR_BASE64_INVALID_CHARACTER) && dst[..] == old(dst[..])
    ensures Accepts(src) && |Clean(src)| == 0 ==> st.Ok? && olen == 0
    ensures Accepts(src) && |Clean(src)| > 0 ==>
      st == if dst.Length < Size(|Clean(src)|, Equals(Clean(src))) then Fail(ERR_BASE64_BUFFER_TOO_SMALL) else Ok
    ensures Accepts(src) && st.Ok? ==> olen <= dst.Length && dst[..olen] == TakeAll(Clean(src)).out
    ensures Accepts(src) && st.Fail? ==> olen == Size(|Clean(src)|, Equals(Clean(src))) && dst[..] == old(dst[..])
  {
    hide Clean, Equals, Shaped, TakeAll, Size, Accepts;
    var ok, n, equals := FirstPass(src);
    if !ok { return Fail(ERR_BASE64_INVALID_CHARACTER), 0; }
    TakeNone(); Whole(src);
    if n == 0 { assert Clean(src) == []; return Ok, 0; }
    var size: nat := Size(n, equals);
    if dst.Length < size { return Fail(ERR_BASE64_BUFFER_TOO_SMALL), size; }
    olen := SecondPass(dst, src, size);
    st := Ok;
  }

  // --------------------------------------------------------------------- round trip

  /** One more digit shifts the low bits up. */
  lemma ShiftLow(x: nat, v: nat, m: nat)
    requires v < 64 && (m == 1 || m == 64 || m == 4096 || m == 262144)
    ensures ((x * 64) % 0x1_0000_0000 + v) % (64 * m) == (x % m) * 64 + v
  {
    var y := (x * 64) % 0x1_0000_0000;
    var k := 0x1_0000_0000 / (64 * m);
    assert 0x1_0000_0000 == k * (64 * m);
    DivMod(x * 64, 0x1_0000_0000);
    DivMod(x, m);
    var q, h := x / m, (x * 64) / 0x1_0000_0000;
    MulAssoc(h, k, 64 * m);
    assert x * 64 == q * (64 * m) + (x % m) * 64 by { MulDist(64, q * m, x % m); MulAssoc(q, m, 64); }
    MulDist(64 * m, q, -(h * k)); MulNeg(h * k, 64 * m);
    DivModUnique(y + v, 64 * m, q - h * k, (x % m) * 64 + v);
  }

  /** After four digits the low 24 bits are theirs. */
  lemma FourDigits(x: nat, c: seq<byte>)
    requires |c| == 4 && forall i :: 0 <= i < 4 ==> c[i] == EQ || IsDigit(c[i])
    ensures Shifted(Shifted(Shifted(Shifted(x, c[0]), c[1]), c[2]), c[3]) % 0x100_0000 ==
      ((Low(c[0]) * 64 + Low(c[1])) * 64 + Low(c[2])) * 64 + Low(c[3])
  {
    var x1 := Shifted(x, c[0]);
    var x2 := Shifted(x1, c[1]);
    var x3 := Shifted(x2, c[2]);
    ShiftLow(x, Low(c[0]), 1); ShiftLow(x1, Low(c[1]), 64); ShiftLow(x2, Low(c[2]), 4096); ShiftLow(x3, Low(c[3]), 262144);
  }

  /** The bits a character contributes. */
  function Low(c: byte): (v: nat)
    ensures v < 64
  {
    if c == EQ || DecValue(c) < 0 then 0 else DecValue(c)
  }

  lemma LowOctets(x: nat, e: nat)
    ensures Octets(x, e) == Octets(x % 0x100_0000, e)
  {
    var q, r := x / 0x100_0000, x % 0x100_0000;
    assert x == 0x100_0000 * q + r;
    assert x / 65536 == 256 * q + r / 65536 && x / 256 == 65536 * q + r / 256;
    DivModUnique(256 * q + r / 65536, 256, q, r / 65536);
    CongIntro(65536 * q + r / 256, r / 256, 256, 256 * q);
    CongIntro(x, r, 256, 65536 * q);
  }

  /** A group of four that starts with an empty accumulator. */
  lemma TakeFour(p: seq<byte>, c: seq<byte>)
    requires |c| == 4 && (forall i :: 0 <= i < 4 ==> c[i] == EQ || IsDigit(c[i])) && TakeAll(p).digits == 0
    ensures var e := TakeAll(p).equals + Equals(c);
      var v := ((Low(c[0]) * 64 + Low(c[1])) * 64 + Low(c[2])) * 64 + Low(c[3]);
      && TakeAll(p + c).digits == 0 && TakeAll(p + c).equals == e
      && TakeAll(p + c).out == TakeAll(p).out + Octets(v, e)
  {
    hide Shifted, Octets;
    var a := TakeAll(p);
    TakeNext(p, c[0]); TakeNext(p + [c[0]], c[1]); TakeNext(p + [c[0]] + [c[1]], c[2]);
    TakeNext(p + [c[0]] + [c[1]] + [c[2]], c[3]);
    assert p + c == p + [c[0]] + [c[1]] + [c[2]] + [c[3]];
    CountFour(c);
    FourDigits(a.x, c);
    LowOctets(Shifted(Shifted(Shifted(Shifted(a.x, c[0]), c[1]), c[2]), c[3]), a.equals + Equals(c));
  }

  lemma CountFour(c: seq<byte>)
    requires |c| == 4
    ensures Equals(c) == (if c[0] == EQ then 1 else 0) + (if c[1] == EQ then 1 else 0) + (if c[2] == EQ then 1 else 0) + (if c[3] == EQ then 1 else 0)
  {
    var d := c[..3];
    assert d[..2] == c[..2] && c[..2][..1] == c[..1] && c[..1][..0] == [];
    assert Equals(c) == Equals(d) + (if c[3] == EQ then 1 else 0);
    assert Equals(d) == Equals(c[..2]) + (if c[2] == EQ then 1 else 0);
    assert Equals(c[..2]) == Equals(c[..1]) + (if c[1] == EQ then 1 else 0);
    assert Equals(c[..1]) == Equals([]) + (if c[0] == EQ then 1 else 0);
  }

  lemma LowEnc(v: nat)
    requires v < 64
    ensures EncChar(v) != EQ && IsDigit(EncChar(v)) && Low(EncChar(v)) == v
  {}

  /** The 24 bits of a quad are its three octets. */
  lemma QuadBits(a: byte, b: byte, c: byte)
    ensures var q := Quad(a, b, c);
      && (forall i :: 0 <= i < 4 ==> IsDigit(q[i]) && q[i] != EQ)
      && Low(q[0]) == a / 4 && Low(q[1]) == (a % 4) * 16 + b / 16 && Low(q[2]) == (b % 16) * 4 + c / 64 && Low(q[3]) == c % 64
  {
    LowEnc(a / 4); LowEnc((a % 4) * 16 + b / 16); LowEnc((b % 16) * 4 + c / 64); LowEnc(c % 64);
  }

  lemma JoinedBits(a: byte, b: byte, c: byte)
    ensures ((a / 4 * 64 + ((a % 4) * 16 + b / 16)) * 64 + ((b % 16) * 4 + c / 64)) * 64 + c % 64 == a * 65536 + b * 256 + c
    ensures Octets(a * 65536 + b * 256 + c, 0) == [a, b, c]
    ensures Octets(a * 65536 + b * 256 + c, 1) == [a, b] && Octets(a * 65536 + b * 256 + c, 2) == [a]
  {
    var v := a * 65536 + b * 256 + c;
    DivModUnique(v, 65536, a, b * 256 + c);
    DivModUnique(v, 256, a * 256 + b, c);
    DivModUnique(a * 256 + b, 256, a, b);
  }

  /** Encoded octets come back, behind any number of whole groups. */
  lemma {:induction false} TakeEncoded(p: seq<byte>, s: seq<byte>)
    requires TakeAll(p).digits == 0 && TakeAll(p).equals == 0
    ensures TakeAll(p + Encoded(s)).out == TakeAll(p).out + s
    decreases |s|
  {
    hide TakeAll, Octets, Quad, Low, IsDigit, Equals;
    if |s| == 0 {
      EncodedShort(0, 0);
      assert s == [] && p + [] == p;
    } else if |s| <= 2 {
      var a: byte, b: byte := s[0], if |s| == 2 then s[1] else 0;
      QuadBits(a, b, 0); QuadLength(a, b, 0); JoinedBits(a, b, 0); EncodedShort(a, b); EqualSign();
      var c := Encoded(s);
      assert s == if |s| == 2 then [a, b] else [a];
      CountFour(c);
      TakeFour(p, c);
      PartBits(a, b);
    } else {
      var q := Quad(s[0], s[1], s[2]);
      QuadBits(s[0], s[1], s[2]); QuadLength(s[0], s[1], s[2]); JoinedBits(s[0], s[1], s[2]);
      CountFour(q);
      TakeFour(p, q);
      TakeEncoded(p + q, s[3..]);
      assert p + Encoded(s) == (p + q) + Encoded(s[3..]);
      assert s == [s[0], s[1], s[2]] + s[3..];
    }
  }

  lemma EqualSign()
    ensures Low(EQ) == 0 && !IsDigit(EQ)
  {}

  lemma PartBits(a: byte, b: byte)
    ensures ((a / 4 * 64 + ((a % 4) * 16 + b / 16)) * 64 + (b % 16) * 4) * 64 + 0 == a * 65536 + b * 256
    ensures ((a / 4 * 64 + (a % 4) * 16) * 64 + 0) * 64 + 0 == a * 65536
  {}

  /** Decoding gives back what was encoded. */
  lemma DecodeEncoded(s: seq<byte>)
    ensures TakeAll(Encoded(s)).out == s
  {
    TakeNone();
    TakeEncoded([], s);
    assert [] + Encoded(s) == Encoded(s);
  }

  /** s is c with line breaks, LF or CRLF, put in. */
  predicate Broken(s: seq<byte>, c: seq<byte>) {
    Clean(s) == c && forall i :: 0 <= i < |s| ==> NoSpaceAt(s, i)
  }

  predicate NoSpaceAt(s: seq<byte>, i: nat)
    requires i < |s|
  {
    s[i] != SP && (s[i] == CR ==> i + 1 < |s| && s[i + 1] == LF)
  }

  lemma {:induction false} CleanConcat(s: seq<byte>, t: seq<byte>)
    ensures Clean(s + t) == Clean(s) + Clean(t)
    decreases |t|
  {
    if |t| == 0 {
      assert s + t == s;
    } else {
      assert (s + t)[..|s + t| - 1] == s + t[..|t| - 1];
      CleanConcat(s, t[..|t| - 1]);
    }
  }

  /** A line break may go anywhere but inside a CRLF. */
  lemma InsertBreak(s: seq<byte>, c: seq<byte>, i: nat, br: seq<byte>, r: seq<byte>)
    requires i <= |s| && r == s[..i] + br + s[i..]
    requires Broken(s, c) && (i > 0 ==> s[i - 1] != CR) && (br == [LF] || br == [CR, LF])
    ensures Broken(r, c)
  {
    hide Clean;
    var a, b := s[..i], s[i..];
    assert s == a + b;
    CleanConcat(a, b); CleanConcat(a, br); CleanConcat(a + br, b); CleanBreak();
    assert Clean(br) == [] && Clean(a) + [] == Clean(a);
    assert Clean(r) == c;
    forall k | 0 <= k < |r| ensures NoSpaceAt(r, k) {
      BreakAt(s, i, br, r, k);
    }
  }

  lemma BreakAt(s: seq<byte>, i: nat, br: seq<byte>, r: seq<byte>, k: nat)
    requires i <= |s| && (i > 0 ==> s[i - 1] != CR) && (br == [LF] || br == [CR, LF]) && r == s[..i] + br + s[i..] && k < |r|
    requires forall j :: 0 <= j < |s| ==> NoSpaceAt(s, j)
    ensures NoSpaceAt(r, k)
  {
    var n := |br|;
    if k < i {
      assert NoSpaceAt(s, k) && r[k] == s[k];
      if k + 1 < i { assert r[k + 1] == s[k + 1]; }
    } else if k < i + n {
      assert r[k] == br[k - i];
      if k + 1 < i + n { assert r[k + 1] == br[k + 1 - i]; }
    } else {
      var j := k - n;
      assert NoSpaceAt(s, j) && |r| == |s| + n && r[k] == s[j];
      if j + 1 < |s| { assert r[k + 1] == s[j + 1]; }
    }
  }

  lemma CleanBreak()
    ensures Clean([LF]) == [] && Clean([CR, LF]) == []
  {
    assert [LF][..0] == [] && [CR, LF][..1] == [CR] && [CR][..0] == [];
  }

  lemma {:induction false} CleanDigits(c: seq<byte>)
    requires forall i :: 0 <= i < |c| ==> IsDigit(c[i]) || c[i] == EQ
    ensures Clean(c) == c
  {
    if |c| > 0 {
      CleanDigits(c[..|c| - 1]);
      assert c == c[..|c| - 1] + [c[|c| - 1]];
    }
  }

  lemma {:induction false} EncodedShaped(s: seq<byte>)
    ensures Shaped(Encoded(s)) && Equals(Encoded(s)) == (3 - |s| % 3) % 3
    decreases |s|
  {
    hide Quad, IsDigit, Equals;
    if |s| == 0 {
      EncodedShort(0, 0); Empty();
    } else if |s| <= 2 {
      var a: byte, b: byte := s[0], if |s| == 2 then s[1] else 0;
      QuadBits(a, b, 0); QuadLength(a, b, 0); EncodedShort(a, b);
      assert s == if |s| == 2 then [a, b] else [a];
      CountFour(Encoded(s));
    } else {
      var q, r := Quad(s[0], s[1], s[2]), Encoded(s[3..]);
      QuadBits(s[0], s[1], s[2]); QuadLength(s[0], s[1], s[2]);
      EncodedShaped(s[3..]);
      CountFour(q);
      EqualsConcat(q, r);
      QuadInFront(q, r);
    }
  }

  lemma QuadInFront(q: seq<byte>, r: seq<byte>)
    requires (forall i :: 0 <= i < |q| ==> IsDigit(q[i]) && q[i] != EQ) && Shaped(r) && Equals(q + r) <= 2
    ensures Shaped(q + r)
  {
    hide IsDigit, Equals;
    var c := q + r;
    forall i | 0 <= i < |c| ensures IsDigit(c[i]) || c[i] == EQ {
      if i >= |q| { assert c[i] == r[i - |q|]; }
    }
    forall i, j | 0 <= i < j < |c| && c[i] == EQ ensures c[j] == EQ {
      if i >= |q| { assert c[i] == r[i - |q|] && c[j] == r[j - |q|]; }
    }
  }

  lemma {:induction false} EqualsConcat(s: seq<byte>, t: seq<byte>)
    ensures Equals(s + t) == Equals(s) + Equals(t)
    decreases |t|
  {
    if |t| == 0 {
      assert s + t == s;
    } else {
      assert (s + t)[..|s + t| - 1] == s + t[..|t| - 1];
      EqualsConcat(s, t[..|t| - 1]);
    }
  }

  /** An encoding, whole or broken into lines, is accepted and decodes to its octets. */
  lemma RoundTrip(x: seq<byte>, s: seq<byte>)
    requires Broken(s, Encoded(x))
    ensures Accepts(s) && TakeAll(Clean(s)).out == x
  {
    hide Clean, TakeAll, Shaped;
    EncodedShaped(x);
    DecodeEncoded(x);
    forall i | 0 <= i < |s| ensures SpacedAt(s, i) { assert NoSpaceAt(s, i); }
  }

  /** The encoding itself is such a text. */
  lemma Unbroken(x: seq<byte>)
    ensures Broken(Encoded(x), Encoded(x))
  {
    hide Encoded, Equals;
    EncodedShaped(x);
    CleanDigits(Encoded(x));
    forall i | 0 <= i < |Encoded(x)| ensures NoSpaceAt(Encoded(x), i) {
      assert IsDigit(Encoded(x)[i]) || Encoded(x)[i] == EQ;
    }
  }

  /** |x| bytes are the room asked for to decode an encoding, broken or not. */
  lemma SizeOfEncoded(x: seq<byte>)
    ensures Size(|Encoded(x)|, Equals(Encoded(x))) == |x|
  {
    hide Encoded, Equals;
    EncodedShaped(x); EncodedLength(x);
  }

  /** Encoding, then decoding into a buffer of the original length. */
  method EncodeAndDecode(x: seq<byte>) returns (st: Status, y: seq<byte>)
    ensures st.Ok? && y == x
  {
    hide Encoded, Equals, Broken, Accepts, TakeAll, Size, Clean;
    EncodedLength(x); SizeOfEncoded(x);
    Unbroken(x); RoundTrip(x, Encoded(x)); BrokenText(Encoded(x), Encoded(x));
    var text, dst := new byte[4 * ((|x| + 2) / 3) + 1], new byte[|x|];
    var n :- Encode(text, x);
    var m :- Decode(dst, text[..n]);
    return Ok, dst[..m];
  }

  lemma BrokenText(s: seq<byte>, c: seq<byte>)
    requires Broken(s, c)
    ensures Clean(s) == c
  {}

  /** "Man", "Ma" and "M" are encoded as "TWFu", "TWE=" and "TQ==". */
  lemma EncodedExamples()
    ensures Encoded(['M' as int, 'a' as int, 'n' as int]) == ['T' as int, 'W' as int, 'F' as int, 'u' as int]
    ensures Encoded(['M' as int, 'a' as int]) == ['T' as int, 'W' as int, 'E' as int, '=' as int]
    ensures Encoded(['M' as int]) == ['T' as int, 'Q' as int, '=' as int, '=' as int]
  {
    var s: seq<byte> := ['M' as int, 'a' as int, 'n' as int];
    assert s[3..] == [] && Encoded(s[3..]) == [];
  }
}
