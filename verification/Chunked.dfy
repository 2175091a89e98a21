/** httpc.c: reading a chunked message body (section 7.1 of RFC 9112) from a transport
    that hands over exactly the bytes asked for while it has them. */
module Chunked {
  import opened Arith
  import opened Bytes
  import opened Radix

  const ERR_FAIL := -1
  const LINE_BUFFER := 1024

  const CR: byte := 13
  const LF: byte := 10

  /** httpc_recv on a modelled byte stream. */
  class Transport {
    var rest: seq<byte>

    constructor (data: seq<byte>)
      ensures rest == data
    {
      rest := data;
    }

    method Recv(n: nat) returns (b: seq<byte>)
      modifies this
      ensures b == old(rest)[..Min(n, |old(rest)|)] && rest == old(rest)[Min(n, |old(rest)|)..]
    {
      var k := Min(n, |rest|);
      b := rest[..k];
      rest := rest[k..];
    }
  }

  // ---------------------------------------------------------------------- one line

  /** The line ends at s[i] == LF after a CR. */
  predicate EndsAt(s: seq<byte>, i: nat)
    requires i < |s|
  {
    s[i] == LF && i > 0 && s[i - 1] == CR
  }

  /** Index of the LF that ends the first line, or |s|. */
  function LineEnd(s: seq<byte>, i: nat): (k: nat)
    requires i <= |s|
    ensures i <= k <= |s| && (k < |s| ==> EndsAt(s, k)) && forall j :: i <= j < k ==> !EndsAt(s, j)
    decreases |s| - i
  {
    if i == |s| || EndsAt(s, i) then i else LineEnd(s, i + 1)
  }

  /** httpc_read_one_line: bytes up to the CR, the LF consumed; or a full buffer; or the
      end of the data. */
  method ReadOneLine(t: Transport, buf: array<byte>) returns (count: nat)
    requires buf.Length > 0
    modifies t, buf
    ensures var s := old(t.rest); var e := LineEnd(s, 0);
      && count == Min(e, buf.Length) && buf[..count] == s[..count]
      && t.rest == if e < |s| && e < buf.Length then s[e + 1..] else s[count..]
    ensures count == 0 <==> |old(t.rest)| == 0
  {
    ghost var s := t.rest;
    ghost var e := LineEnd(s, 0);
    count := 0;
    var lastByte: byte := 0;
    while true
      invariant 0 <= count <= e && count < buf.Length && t.rest == s[count..] && buf[..count] == s[..count]
      invariant lastByte == if count == 0 then 0 else s[count - 1]
      decreases |s| - count
    {
      var b := t.Recv(1);
      if |b| == 0 { break; }
      assert b[0] == s[count];
      assert t.rest == s[count + 1..];
      if b[0] == LF && lastByte == CR {
        assert EndsAt(s, count);
        break;
      }
      assert !EndsAt(s, count) && count < e;
      lastByte := b[0];
      buf[count] := b[0];
      count := count + 1;
      assert buf[..count] == s[..count];
      if count >= buf.Length { break; }
    }
  }

  // ------------------------------------------------------------------ strtoul, base 16

  predicate IsHex(c: byte) { CharValue(c) < 16 }

  /** Length of the run of hexadecimal digits from i on. */
  function HexEnd(s: seq<byte>, i: nat): (k: nat)
    requires i <= |s|
    ensures i <= k <= |s| && (forall j :: i <= j < k ==> IsHex(s[j])) && (k < |s| ==> !IsHex(s[k]))
    decreases |s| - i
  {
    if i == |s| || !IsHex(s[i]) then i else HexEnd(s, i + 1)
  }

  predicate IsBlank(c: byte) { c == 32 || 9 <= c <= 13 }

  function SkipBlanks(s: seq<byte>, i: nat): (k: nat)
    requires i <= |s|
    ensures i <= k <= |s| && (i < |s| && !IsBlank(s[i]) ==> k == i)
    decreases |s| - i
  {
    if i < |s| && IsBlank(s[i]) then SkipBlanks(s, i + 1) else i
  }

  type LongMax = x: nat | x == 0xFFFF_FFFF || x == 0xFFFF_FFFF_FFFF_FFFF witness 0xFFFF_FFFF

  /** The largest unsigned long, of either width. */
  const ULONG_MAX: LongMax

  /** strtoul(s, NULL, 16): blanks, a sign, 0x, digits. What is too large becomes
      ULONG_MAX, and a minus sign negates in the unsigned type. */
  function Strtoul16(s: seq<byte>): (r: nat)
    ensures r <= ULONG_MAX
  {
    var i := SkipBlanks(s, 0);
    var neg := i < |s| && s[i] == 45;
    var j := if i < |s| && (s[i] == 45 || s[i] == 43) then i + 1 else i;
    var k := if j + 2 < |s| && s[j] == 48 && (s[j + 1] == 120 || s[j + 1] == 88) && IsHex(s[j + 2]) then j + 2 else j;
    var v: int := StrVal(16, s[k..HexEnd(s, k)]);
    if v > ULONG_MAX then ULONG_MAX else if neg && v > 0 then ULONG_MAX + 1 - v else v
  }

  /** The string ends at the first NUL. */
  function CString(s: seq<byte>): (r: seq<byte>)
    ensures r <= s
  {
    if |s| == 0 || s[0] == 0 then [] else [s[0]] + CString(s[1..])
  }

  lemma {:induction false} NoNul(s: seq<byte>)
    requires forall i :: 0 <= i < |s| ==> s[i] != 0
    ensures CString(s) == s
  {
    if |s| > 0 { NoNul(s[1..]); }
  }

  // --------------------------------------------------------------------- one chunk

  /** A size line: hexadecimal digits, then nothing or an extension. */
  ghost predicate SizeLine(line: seq<byte>, n: nat) {
    exists d: nat :: SizeDigits(line, n, d)
  }

  ghost predicate SizeDigits(line: seq<byte>, n: nat, d: nat) {
    && 0 < d <= |line| && (forall i :: 0 <= i < d ==> IsHex(line[i])) && StrVal(16, line[..d]) == n
    && (d < |line| ==> line[d] == 59 || line[d] == 32 || line[d] == 9)
    && (forall i :: 0 <= i < |line| ==> line[i] != CR && line[i] != 0)
  }

  lemma SizeRead(line: seq<byte>, n: nat)
    requires SizeLine(line, n) && n < 0x8000_0000
    ensures CString(line) == line && ToInt(Strtoul16(line)) == n
  {
    var d: nat :| SizeDigits(line, n, d);
    NoNul(line);
    assert IsHex(line[0]);
    if d > 1 { assert IsHex(line[1]); }
    HexStops(line, 0, d);
    assert line[0..d] == line[..d];
    ToIntSmall(n);
  }

  lemma {:induction false} HexStops(s: seq<byte>, i: nat, d: nat)
    requires i <= d <= |s| && (forall j :: i <= j < d ==> IsHex(s[j])) && (d < |s| ==> !IsHex(s[d]))
    ensures HexEnd(s, i) == d
    decreases d - i
  {
    if i < d { HexStops(s, i + 1, d); }
  }

  /** A line followed by CRLF: it ends there. */
  lemma LineEndsAt(line: seq<byte>, more: seq<byte>, i: nat)
    requires (forall k :: 0 <= k < |line| ==> line[k] != CR) && i <= |line| + 1
    ensures LineEnd(line + [CR, LF] + more, i) == |line| + 1
    decreases |line| + 1 - i
  {
    var s := line + [CR, LF] + more;
    assert s[|line|] == CR && s[|line| + 1] == LF;
    if i <= |line| {
      assert i < |line| ==> s[i] == line[i];
      assert i > 0 && i - 1 < |line| ==> s[i - 1] == line[i - 1];
      LineEndsAt(line, more, i + 1);
    }
  }

  /** What the call does with the bytes after a size line for n: result and bytes used. */
  function AfterLine(n: int, more: seq<byte>, size: nat): (r: (int, nat))
    ensures r.1 <= |more| && r.0 <= size && r.0 <= |more|
  {
    if n <= 0 || n > size then (ERR_FAIL, 0) else (Min(n, |more|), Min(n + 2, |more|))
  }

  /** The size line as the call sees it and the bytes after it: up to the CRLF; or, where
      the buffer fills up or the data ends first, all that was read but the last byte. */
  function SplitLine(s: seq<byte>): (seq<byte>, seq<byte>)
    requires |s| > 0
  {
    var e := LineEnd(s, 0);
    var k := Min(e, LINE_BUFFER);
    (s[..k - 1], if e < |s| && e < LINE_BUFFER then s[e + 1..] else s[k..])
  }

  method CopyTo(buf: array<byte>, b: seq<byte>)
    requires |b| <= buf.Length
    modifies buf
    ensures buf[..|b|] == b
  {
    for i := 0 to |b|
      invariant forall k :: 0 <= k < i ==> buf[k] == b[k]
    {
      buf[i] := b[i];
    }
  }

  /** The part of the routine after the size line. */
  method TakeChunk(t: Transport, buf: array<byte>, len: int) returns (ret: int)
    modifies t, buf
    ensures var s := old(t.rest); var r := AfterLine(len, s, buf.Length);
      && ret == r.0 && t.rest == s[r.1..]
      && (ret < 0 ==> buf[..] == old(buf[..])) && (ret >= 0 ==> buf[..ret] == s[..ret])
  {
    ghost var s := t.rest;
    if len < 0 { return ERR_FAIL; }
    if len == 0 { return ERR_FAIL; }
    if len > buf.Length { return ERR_FAIL; }
    var b := t.Recv(len);
    CopyTo(buf, b);
    TwoReads(s, len);
    var c := t.Recv(2);
    ret := |b|;
  }

  lemma TwoReads(s: seq<byte>, n: nat)
    ensures var u := s[Min(n, |s|)..]; u[Min(2, |u|)..] == s[Min(n + 2, |s|)..]
  {}

  /** httpc_chunked_recv. When no byte could be read, the routine stores a NUL at
      index -1 of its line buffer: inside says that the index is in range, and nothing
      is modelled beyond that store. */
  method ChunkedRecv(t: Transport, buf: array<byte>) returns (inside: bool, ret: int)
    modifies t, buf
    ensures inside <==> |old(t.rest)| > 0
    ensures !inside ==> t.rest == [] && buf[..] == old(buf[..])
    ensures ret <= buf.Length
    ensures inside ==> var (line, u) := SplitLine(old(t.rest));
      var r := AfterLine(ToInt(Strtoul16(CString(line))), u, buf.Length);
      && ret == r.0 && t.rest == u[r.1..]
      && (ret >= 0 ==> buf[..ret] == u[..ret]) && (ret < 0 ==> buf[..] == old(buf[..]))
  {
    hide LineEnd, Strtoul16, CString;
    var tmp := new byte[LINE_BUFFER];
    ghost var s := t.rest;
    ret := ERR_FAIL;
    var count := ReadOneLine(t, tmp);
    inside := count >= 1;
    if inside {
      assert tmp[..count - 1] == SplitLine(s).0;
      var len := ToInt(Strtoul16(CString(tmp[..count - 1])));
      ret := TakeChunk(t, buf, len);
    }
  }

  /** A stream at its end. */
  method AtEnd(buf: array<byte>) returns (inside: bool)
    modifies buf
    ensures !inside
  {
    var t := new Transport([]);
    var ret;
    inside, ret := ChunkedRecv(t, buf);
  }

  // ----------------------------------------------------------------------- the body

  /** A chunk with its size line. */
  datatype Chunk = Chunk(line: seq<byte>, data: seq<byte>)

  ghost predicate Framed(c: Chunk, size: nat) {
    SizeLine(c.line, |c.data|) && |c.line| + 2 <= LINE_BUFFER && |c.data| <= size && size < 0x8000_0000
  }

  function Frame(c: Chunk): seq<byte> { c.line + [CR, LF] + c.data + [CR, LF] }

  function Body(cs: seq<Chunk>): seq<byte> { if |cs| == 0 then [] else Frame(cs[0]) + Body(cs[1..]) }

  /** A stream that starts with a size line. */
  lemma AtSizeLine(line: seq<byte>, n: nat, tail: seq<byte>, s: seq<byte>)
    requires s == line + [CR, LF] + tail && SizeLine(line, n) && |line| + 2 <= LINE_BUFFER && n < 0x8000_0000
    ensures |s| > 0 && SplitLine(s) == (line, tail) && ToInt(Strtoul16(CString(line))) == n
  {
    hide LineEnd, Strtoul16, CString, ToInt, SizeLine;
    NoCr(line, n);
    LineEndsAt(line, tail, 0);
    SizeRead(line, n);
    assert s[..|line|] == line;
  }

  /** A stream that starts with a chunk. */
  lemma AtChunk(c: Chunk, more: seq<byte>, size: nat, s: seq<byte>)
    requires s == Frame(c) + more && Framed(c, size) && |c.data| > 0
    ensures |s| > 0 && ToInt(Strtoul16(CString(c.line))) == |c.data| <= size
    ensures var (line, u) := SplitLine(s);
      line == c.line && |c.data| + 2 <= |u| && u[..|c.data|] == c.data && u[|c.data| + 2..] == more
  {
    hide SplitLine, Strtoul16, CString, ToInt, SizeLine;
    var tail := c.data + [CR, LF] + more;
    assert s == c.line + [CR, LF] + tail;
    AtSizeLine(c.line, |c.data|, tail, s);
    assert tail[..|c.data|] == c.data && tail[|c.data| + 2..] == more;
  }

  lemma NoCr(line: seq<byte>, n: nat)
    requires SizeLine(line, n)
    ensures forall k :: 0 <= k < |line| ==> line[k] != CR
  {}

  /** The bytes from chunk i on: more chunks, the last size line and what follows it. */
  function Remaining(cs: seq<Chunk>, last: seq<byte>, trailer: seq<byte>): seq<byte> {
    Body(cs) + (last + [CR, LF] + trailer)
  }

  /** One call reads one chunk, whatever follows it. */
  method RecvChunk(t: Transport, buf: array<byte>, ghost c: Chunk, ghost more: seq<byte>) returns (inside: bool, ret: int)
    requires t.rest == Frame(c) + more && Framed(c, buf.Length) && |c.data| > 0
    modifies t, buf
    ensures inside && ret == |c.data| <= buf.Length && buf[..ret] == c.data && t.rest == more
  {
    hide SplitLine, Strtoul16, CString, ToInt, Framed, Frame;
    AtChunk(c, more, buf.Length, t.rest);
    inside, ret := ChunkedRecv(t, buf);
  }

  /** Up to the next size line; the call that reads the zero size delivers nothing and
      stops behind it. */
  method RecvNext(t: Transport, buf: array<byte>, ghost cs: seq<Chunk>, ghost last: seq<byte>, ghost trailer: seq<byte>)
    returns (inside: bool, ret: int)
    requires t.rest == Remaining(cs, last, trailer)
    requires |cs| > 0 ==> Framed(cs[0], buf.Length) && |cs[0].data| > 0
    requires SizeLine(last, 0) && |last| + 2 <= LINE_BUFFER
    modifies t, buf
    ensures inside
    ensures |cs| > 0 ==> ret == |cs[0].data| <= buf.Length && buf[..ret] == cs[0].data && t.rest == Remaining(cs[1..], last, trailer)
    ensures |cs| == 0 ==> ret == ERR_FAIL && buf[..] == old(buf[..]) && t.rest == trailer
  {
    hide SplitLine, Strtoul16, CString, ToInt, SizeLine, Framed, Frame;
    ghost var s := t.rest;
    if |cs| > 0 {
      assert s == Frame(cs[0]) + Remaining(cs[1..], last, trailer);
      AtChunk(cs[0], Remaining(cs[1..], last, trailer), buf.Length, s);
    } else {
      assert s == last + [CR, LF] + trailer;
      AtSizeLine(last, 0, trailer, s);
    }
    inside, ret := ChunkedRecv(t, buf);
  }

  /** Repeated calls return the chunks in order. */
  method RecvBody(t: Transport, buf: array<byte>, ghost cs: seq<Chunk>, ghost last: seq<byte>, ghost trailer: seq<byte>)
    returns (chunks: seq<seq<byte>>)
    requires t.rest == Remaining(cs, last, trailer)
    requires forall i :: 0 <= i < |cs| ==> Framed(cs[i], buf.Length) && |cs[i].data| > 0
    requires SizeLine(last, 0) && |last| + 2 <= LINE_BUFFER
    modifies t, buf
    ensures |chunks| == |cs| && (forall i :: 0 <= i < |cs| ==> chunks[i] == cs[i].data) && t.rest == trailer
  {
    hide Framed, Remaining, SizeLine;
    chunks := [];
    ghost var i := 0;
    assert cs[0..] == cs;
    var more := true;
    while more
      invariant 0 <= i <= |cs| && |chunks| == i && (forall k :: 0 <= k < i ==> chunks[k] == cs[k].data)
      invariant more ==> t.rest == Remaining(cs[i..], last, trailer)
      invariant !more ==> i == |cs| && t.rest == trailer
      decreases |cs| - i, more
    {
      assert i < |cs| ==> cs[i..][1..] == cs[i + 1..];
      var inside, ret := RecvNext(t, buf, cs[i..], last, trailer);
      if ret > 0 {
        chunks := chunks + [buf[..ret]];
        i := i + 1;
      } else {
        more := false;
      }
    }
  }

  /** A body cut off before its last size line: the chunks are returned, and the call
      after them leaves the line buffer. */
  method RecvTruncated(t: Transport, buf: array<byte>, cs: seq<Chunk>) returns (inside: bool)
    requires t.rest == Body(cs)
    requires forall i :: 0 <= i < |cs| ==> Framed(cs[i], buf.Length) && |cs[i].data| > 0
    modifies t, buf
    ensures !inside && t.rest == []
  {
    hide Framed, Frame;
    assert cs[0..] == cs;
    var ret;
    for i := 0 to |cs|
      invariant t.rest == Body(cs[i..])
    {
      assert cs[i..][1..] == cs[i + 1..];
      inside, ret := RecvChunk(t, buf, cs[i], Body(cs[i + 1..]));
      assert inside && ret == |cs[i].data|;
    }
    inside, ret := ChunkedRecv(t, buf);
  }

  /** A chunk of which only a part arrives: the call returns that part. */
  method RecvPart(t: Transport, buf: array<byte>, ghost c: Chunk, ghost part: seq<byte>) returns (inside: bool, ret: int)
    requires Framed(c, buf.Length) && |c.data| > 0 && part < c.data && t.rest == c.line + [CR, LF] + part
    modifies t, buf
    ensures inside && ret == |part| <= buf.Length && buf[..ret] == part && t.rest == []
  {
    hide SplitLine, Strtoul16, CString, ToInt, SizeLine;
    AtSizeLine(c.line, |c.data|, part, t.rest);
    inside, ret := ChunkedRecv(t, buf);
    assert part[..|part|] == part;
  }

  /** A chunk of ten octets announced as "a". */
  method LowerCaseSize(t: Transport, buf: array<byte>, data: seq<byte>, last: seq<byte>) returns (ret: int)
    requires |data| == 10 && buf.Length == 10 && SizeLine(last, 0) && |last| + 2 <= LINE_BUFFER
    requires t.rest == ['a' as int, 13, 10] + data + [13, 10] + last + [13, 10]
    modifies t, buf
    ensures ret == 10 && buf[..] == data
  {
    ghost var c := Chunk(['a' as int], data);
    SizeA();
    hide SizeLine;
    assert Body([c]) == Frame(c) + Body([]);
    assert t.rest == Remaining([c], last, []);
    var inside;
    inside, ret := RecvNext(t, buf, [c], last, []);
    assert buf[..10] == buf[..];
  }

  lemma SizeA()
    ensures SizeLine(['a' as int], 10)
  {
    var line: seq<byte> := ['a' as int];
    assert line[..0] == [] && line[..1] == line;
    assert StrVal(16, line) == 10;
    assert SizeDigits(line, 10, 1);
  }

  /** What strtoul makes of blanks, signs, a prefix, either case and other characters. */
  lemma StrtoulExamples()
    ensures Strtoul16([' ' as int, 9, '+' as int, '0' as int, 'x' as int, '1' as int, 'F' as int, 'g' as int]) == 31
    ensures Strtoul16(['-' as int, '1' as int]) == ULONG_MAX && Strtoul16([]) == 0 && Strtoul16(['x' as int]) == 0
  {
    ExampleLong(); ExampleMinus();
  }

  lemma ExampleLong()
    ensures Strtoul16([' ' as int, 9, '+' as int, '0' as int, 'x' as int, '1' as int, 'F' as int, 'g' as int]) == 31
  {
    var s: seq<byte> := [' ' as int, 9, '+' as int, '0' as int, 'x' as int, '1' as int, 'F' as int, 'g' as int];
    StrTwo(16, '1' as int, 'F' as int);
    assert SkipBlanks(s, 0) == SkipBlanks(s, 1) == SkipBlanks(s, 2) == 2;
    HexStops(s, 5, 7);
    assert s[5..7] == ['1' as int, 'F' as int];
  }

  lemma ExampleMinus()
    ensures Strtoul16(['-' as int, '1' as int]) == ULONG_MAX
  {
    var s: seq<byte> := ['-' as int, '1' as int];
    StrOne(16, '1' as int);
    HexStops(s, 1, 2);
    assert s[1..2] == ['1' as int];
  }
}
