/** bignum.c: numbers read from and written to ASCII strings. */
module MpiString {
  import opened Arith
  import opened Limbs
  import opened Bits
  import opened Bytes
  import opened CoreBytes
  import opened Radix
  import opened ReturnCodes
  import opened MpiObject
  import opened MpiAdd
  import opened MpiShift
  import opened MpiMul
  import opened MpiDiv
  import opened MpiMod

  // ----------------------------------------------------------- hexadecimal input

  lemma LimbNibbles()
    ensures CI_L >= 1 && BASE == Pow(16, 2 * CI_L)
  {
    hide Pow2;
    LimbBytes();
    assert Pow(16, 2) == 16 * Pow(16, 1) && Pow(16, 1) == 16 * Pow(16, 0);
    PowMul(16, 2, CI_L);
  }

  lemma BnNibbles(n: nat)
    ensures 0 <= n * (2 * CI_L) && Bn(n) == Pow(16, n * (2 * CI_L))
  {
    LimbNibbles();
    MulSign(n, 2 * CI_L);
    PowMul(16, 2 * CI_L, n);
  }

  lemma NibblePower(r: nat)
    ensures Pow(16, r) == Pow2(4 * r) && Pow(16, r + 1) == 16 * Pow(16, r)
  {
    Pow2Small();
    PowMul(2, 4, r);
  }

  lemma NibbleIndex(j: nat)
    ensures CI_L >= 1 && j == (j / (2 * CI_L)) * (2 * CI_L) + j % (2 * CI_L) && 0 <= j / (2 * CI_L) && 0 <= j % (2 * CI_L) < 2 * CI_L
  {
    LimbNibbles();
    DivMod(j, 2 * CI_L);
  }

  /** The limb that takes in nibble j holds only the nibbles before it. */
  lemma RoomForNibble(s: seq<limb>, q: nat, r: nat, v: nat)
    requires q < |s| && Val(s) == v && 0 <= q * (2 * CI_L) && v < Pow(16, q * (2 * CI_L) + r)
    ensures s[q] < Pow(16, r)
  {
    BnNibbles(q); PowAdd(16, q * (2 * CI_L), r);
    hide Val, Bn, Pow;
    ValSplit(s, q); LowFirst(s[q..]);
    assert s[q..][0] == s[q];
    RoomArith(Val(s[..q]), Bn(q), s[q], BASE, Val(s[q..][1..]), Pow(16, r));
  }

  lemma JoinNibble(d: limb, x: nat, r: nat)
    requires r < 2 * CI_L && d < Pow(16, r) && x < 16
    ensures x < BASE && BitOr(d, ShlW(x, 4 * r)) == d + x * Pow(16, r) < BASE
  {
    hide Pow, Pow2, BitOr;
    LimbNibbles(); NibblePower(r); PowAdd(16, r + 1, 2 * CI_L - r - 1);
    var p := Pow(16, r);
    NibbleRoom(d, x, p, Pow(16, 2 * CI_L - r - 1), BASE);
    MulSign(x, p);
    ModSmall(x * p, BASE);
    DivModUnique(x * p, p, x, 0);
    BitOrDisjoint(x * p, d, 4 * r);
  }

  lemma NibbleRoom(d: int, x: int, p: int, c: int, base: int)
    requires 0 <= d < p && 0 <= x < 16 && c >= 1 && base == (16 * p) * c
    ensures 0 <= x * p <= d + x * p < base
  {
    MulMono(1, c, 16 * p);
    DigitBound(d, x, p, 16);
    MulMono(0, x, p);
  }

  /** One character from the right: nibble j = q*2*ciL + r. */
  lemma NibbleStep(p: seq<limb>, s: seq<byte>, i: nat, q: nat, r: nat)
    requires 0 < i <= |s| && q < |p| && r < 2 * CI_L && 0 <= q * (2 * CI_L) && q * (2 * CI_L) + r == |s| - i
    requires Valid(16, s[i..]) && CharValue(s[i - 1]) < 16 && Val(p) == StrVal(16, s[i..])
    ensures CharValue(s[i - 1]) < BASE
    ensures var x := BitOr(p[q], ShlW(CharValue(s[i - 1]), 4 * r));
      x < BASE && Val(p[q := x]) == StrVal(16, s[i - 1..])
  {
    hide Val, Bn, Pow, StrVal, BitOr, ShlW, CharValue, Valid;
    var d := CharValue(s[i - 1]);
    StrBound(16, s[i..]);
    RoomForNibble(p, q, r, Val(p));
    JoinNibble(p[q], d, r);
    BnNibbles(q); PowAdd(16, q * (2 * CI_L), r);
    var x: limb := BitOr(p[q], ShlW(d, 4 * r));
    ValUpdate(p, q, x);
    assert s[i - 1..] == [s[i - 1]] + s[i..];
    StrCons(16, s[i - 1], s[i..]);
    MulAssoc(d, Pow(16, r), Bn(q));
  }

  /** BITS_TO_LIMBS(slen << 2) limbs have room for every nibble. */
  lemma NibbleLimb(j: nat, slen: nat)
    requires j < slen
    ensures CI_L >= 1 && 0 <= j / (2 * CI_L) < BitsToLimbs(4 * slen)
  {
    hide BitsToLimbs;
    NibbleIndex(j); LimbBytes();
    BitsToLimbsVal(4 * slen);
    NibbleLimbArith(j / (2 * CI_L), j % (2 * CI_L), 2 * CI_L, j, slen, BitsToLimbs(4 * slen), BI_L);
  }

  lemma NibbleLimbArith(q: int, r: int, w: int, j: int, slen: int, n: int, bits: int)
    requires j == q * w + r && 0 <= r && j < slen && n * bits >= 4 * slen && bits == 4 * w && w > 0
    ensures q < n
  {
    if q >= n { MulMono(n, q, w); MulAssoc(4, n, w); MulAssoc(n, 4, w); }
  }

  /** Radix 16: the digits or-ed into place from the last one. */
  method ReadHex(X: Mpi, s: seq<byte>) returns (st: Status)
    requires X.Valid()
    modifies X
    ensures X.Valid()
    ensures st == if BitsToLimbs(4 * |s|) > MAX_LIMBS then Fail(ERR_ALLOC_FAILED)
      else if Valid(16, s) then Ok else Fail(ERR_INVALID_CHARACTER)
    ensures st.Ok? ==> X.s == 1 && X.Mag() == StrVal(16, s)
  {
    hide Val, StrVal, BitOr, ShlW, CharValue, BitsToLimbs;
    :- Grow(X, BitsToLimbs(4 * |s|));
    Lset(X, 0); SintAbsZero();
    var i := |s|;
    assert s[i..] == []; StrEmpty(16);
    while i > 0
      invariant 0 <= i <= |s| && X.Valid() && X.s == 1 && |X.p| >= BitsToLimbs(4 * |s|)
      invariant Valid(16, s[i..]) && Val(X.p) == StrVal(16, s[i..])
    {
      var j := |s| - i;
      var d := CharValue(s[i - 1]);
      if d >= 16 { return Fail(ERR_INVALID_CHARACTER); }
      NibbleLimb(j, |s|); NibbleIndex(j);
      NibbleStep(X.p, s, i, j / (2 * CI_L), j % (2 * CI_L));
      assert s[i - 1..] == [s[i - 1]] + s[i..];
      X.p := X.p[j / (2 * CI_L) := BitOr(X.p[j / (2 * CI_L)], ShlW(d, 4 * (j % (2 * CI_L))))];
      i := i - 1;
    }
    assert s[0..] == s;
    st := Ok;
  }

  // ------------------------------------------------------------- other radices

  /** mbedtls_mpi_add_int */
  method AddInt(X: Mpi, A: Mpi, b: int) returns (st: Status)
    requires X.Valid() && A.Valid() && IsSint(b)
    modifies X
    ensures X.Valid() && (st.Ok? ==> X.Value() == old(A.Value()) + b)
    ensures st.Fail? ==> st.code == ERR_ALLOC_FAILED && Abs(old(A.Value()) + b) >= Bn(MAX_LIMBS)
  {
    hide Val, Bn;
    var B := Small(b);
    st := AddMpi(X, A, B);
  }

  lemma {:induction false} StrPrefix(radix: nat, s: seq<byte>, i: nat)
    requires radix >= 1 && i <= |s|
    ensures StrVal(radix, s[..i]) <= StrVal(radix, s)
    decreases |s| - i
  {
    hide CharValue;
    if i == |s| { assert s[..i] == s; } else {
      StrPrefix(radix, s, i + 1);
      assert s[..i + 1] == s[..i] + [s[i]];
      StrSnoc(radix, s[..i], s[i]);
      MulMono(1, radix, StrVal(radix, s[..i]));
    }
  }

  /** As many significant limbs as the limit allows: a large number. */
  lemma ManyLimbs(p: seq<limb>)
    requires Sig(p) + 1 > MAX_LIMBS
    ensures Val(p) >= Bn(MAX_LIMBS - 1)
  {
    hide Val, Bn, Sig;
    var j := Sig(p);
    ValZeroFrom(p, j); ValAtLeast(p[..j]); BnMono(MAX_LIMBS - 1, j - 1);
  }

  /** Reading fails at digit i, for a number that already fills the limit. */
  ghost predicate FullAt(radix: nat, s: seq<byte>, i: nat)
    requires i < |s|
  {
    Valid(radix, s[..i + 1]) && StrVal(radix, s[..i]) >= Bn(MAX_LIMBS - 1)
  }

  ghost predicate TooLong(radix: nat, s: seq<byte>) {
    exists i :: 0 <= i < |s| && FullAt(radix, s, i)
  }

  /** One limb to spare or not, by value. */
  lemma LimbToSpare(p: seq<limb>)
    requires |p| <= MAX_LIMBS
    ensures Sig(p) + 1 > MAX_LIMBS <==> Val(p) >= Bn(MAX_LIMBS - 1)
  {
    hide Val, Bn, Sig;
    if Sig(p) + 1 > MAX_LIMBS { ManyLimbs(p); } else {
      ValZeroFrom(p, Sig(p)); ValBound(p[..Sig(p)]);
      BnMono(Sig(p), MAX_LIMBS - 1);
    }
  }

  /** With a limb to spare the next digit fits. */
  lemma NextFits(v: nat, radix: nat, d: nat)
    requires 2 <= radix <= 16 && d < radix && v < Bn(MAX_LIMBS - 1)
    ensures v * radix + d < Bn(MAX_LIMBS)
  {
    hide Bn, Pow, Pow2;
    BnStep(MAX_LIMBS - 1);
    NextFitsArith(v, radix, d, Bn(MAX_LIMBS - 1), BASE);
  }

  lemma NextFitsArith(v: int, radix: int, d: int, w: int, base: int)
    requires 0 <= v < w && 0 <= d < radix <= base
    ensures v * radix + d < w * base
  {
    MulMono(v + 1, w, radix); MulDist(radix, v, 1); MulMono(radix, base, w);
  }

  /** X = X * radix + digit, for each digit. */
  method ReadDigits(X: Mpi, radix: nat, s: seq<byte>) returns (st: Status)
    requires X.Valid() && 2 <= radix <= 16
    modifies X
    ensures X.Valid()
    ensures st == if TooLong(radix, s) then Fail(ERR_ALLOC_FAILED)
      else if Valid(radix, s) then Ok else Fail(ERR_INVALID_CHARACTER)
    ensures st.Ok? ==> X.Value() == StrVal(radix, s)
  {
    hide Val, Bn, StrVal, CharValue, Sig;
    Lset(X, 0);
    var T := new Mpi();
    assert s[..0] == []; StrEmpty(radix);
    for i := 0 to |s|
      invariant X.Valid() && T.Valid() && Valid(radix, s[..i]) && X.Value() == StrVal(radix, s[..i]) && T != X
      invariant forall k :: 0 <= k < i ==> !FullAt(radix, s, k)
    {
      assert s[..i + 1] == s[..i] + [s[i]];
      StrSnoc(radix, s[..i], s[i]);
      var d := CharValue(s[i]);
      if d >= radix {
        NoneBeyond(radix, s, i);
        return Fail(ERR_INVALID_CHARACTER);
      }
      LimbToSpare(X.p); MagValue(X.s, X.Mag());
      assert FullAt(radix, s, i) <==> Sig(X.p) + 1 > MAX_LIMBS;
      :- MulInt(T, X, radix);
      NextFits(StrVal(radix, s[..i]), radix, d);
      :- AddInt(X, T, d);
    }
    assert s[..|s|] == s;
    st := Ok;
  }

  lemma NoneBeyond(radix: nat, s: seq<byte>, i: nat)
    requires i < |s| && CharValue(s[i]) >= radix
    ensures !Valid(radix, s) && forall k :: i <= k < |s| ==> !FullAt(radix, s, k)
  {
    forall k | i <= k < |s| ensures !FullAt(radix, s, k) { assert s[..k + 1][i] == s[i]; }
  }

  lemma MagValue(s: int, m: nat)
    requires (s == 1 || s == -1) && s * m >= 0
    ensures s * m == m
  {}

  /** The text after an optional minus sign. */
  function Unsigned(s: seq<byte>): seq<byte> { if |s| > 0 && s[0] == MINUS then s[1..] else s }

  /** The number a text stands for. */
  function TextValue(radix: nat, s: seq<byte>): int {
    var v: int := StrVal(radix, Unsigned(s));
    if |s| > 0 && s[0] == MINUS then -v else v
  }

  /** How reading the text after the sign ends. */
  ghost function TextStatus(radix: nat, t: seq<byte>): Status {
    if (if radix == 16 then BitsToLimbs(4 * |t|) > MAX_LIMBS else TooLong(radix, t)) then Fail(ERR_ALLOC_FAILED)
    else if Valid(radix, t) then Ok else Fail(ERR_INVALID_CHARACTER)
  }

  /** mbedtls_mpi_read_string on a string without its NUL. */
  method ReadString(X: Mpi, radix: int, s: seq<byte>) returns (st: Status)
    requires X.Valid()
    modifies X
    ensures X.Valid()
    ensures radix < 2 || radix > 16 ==> st == Fail(ERR_BAD_INPUT) && X.Value() == old(X.Value())
    ensures 2 <= radix <= 16 ==> st == TextStatus(radix, Unsigned(s))
    ensures 2 <= radix <= 16 && st.Ok? ==> X.Value() == TextValue(radix, s)
  {
    hide Val, Bn, StrVal, NumBits, BitsToLimbs;
    if radix < 2 || radix > 16 { return Fail(ERR_BAD_INPUT); }
    if |s| == 0 {
      X.s, X.p := 1, [];
      ValEmpty(); StrEmpty(radix); BitsToLimbsVal(0);
      return Ok;
    }
    var sign, t := 1, s;
    if s[0] == MINUS { sign, t := -1, s[1..]; }
    if radix == 16 {
      :- ReadHex(X, t);
    } else {
      :- ReadDigits(X, radix, t);
    }
    MagValue(X.s, X.Mag());
    var b := Bitlen(X);
    ZeroBits(X.Mag());
    if sign < 0 && b != 0 { X.s := -1; }
    st := Ok;
  }

  lemma ZeroBits(v: nat)
    ensures NumBits(v) == 0 <==> v == 0
  {}

  // -------------------------------------------------------------------- printing

  /** buf[..p] is as it was and text follows it. */
  twostate predicate Appended(buf: array<byte>, p: nat, text: seq<byte>)
    reads buf
  {
    p + |text| <= buf.Length && buf[..p] == old(buf[..p]) && buf[p..p + |text|] == text
  }

  /** The characters at the end of the space moved to its start. */
  method MoveDown(buf: array<byte>, p: nat, from: nat, n: nat)
    requires p <= from && from + n <= buf.Length
    modifies buf
    ensures Appended(buf, p, old(buf[from..from + n]))
  {
    ghost var text := buf[from..from + n];
    for i := 0 to n
      invariant forall k :: 0 <= k < p ==> buf[k] == old(buf[k])
      invariant forall k :: 0 <= k < i ==> buf[p + k] == text[k]
      invariant forall k :: i <= k < n ==> buf[from + k] == text[k]
    {
      buf[p + i] := buf[from + i];
    }
  }

  /** T divided by radix, and the digit that is left. */
  method NextDigit(T: Mpi, radix: nat) returns (st: Status, x: byte, zero: bool)
    requires T.Valid() && 2 <= radix <= 16 && T.Value() >= 0
    modifies T
    ensures T.Valid() && |T.p| <= Max(1, old(|T.p|))
    ensures st == if old(T.Value()) >= radix && old(|T.p|) + 2 > MAX_LIMBS then Fail(ERR_ALLOC_FAILED) else Ok
    ensures 0 <= old(T.Value()) % radix < 16
    ensures st.Ok? ==> T.Value() == old(T.Value()) / radix && x == DigitChar(old(T.Value()) % radix) && zero == (T.Value() == 0)
    ensures st.Ok? && old(T.Value()) > 0 ==> T.Value() < old(T.Value())
    ensures st.Ok? ==> T.Value() >= 0
  {
    hide Val, Quot, Sign, DigitChar, CharValue;
    HalfSquared();
    x, zero := 0, false;
    ghost var v := T.Value();
    DivideDown(v, radix); DivMod(v, radix);
    var r :- ModInt(T, radix);
    :- DivInt(T, null, T, radix);
    x := DigitChar(r);
    var c := CmpInt(T, 0);
    SignDef(T.Value());
    zero := c == 0;
    st := Ok;
  }

  /** One character in front of those at the end. */
  method PutBefore(buf: array<byte>, p: nat, end: nat, hi: nat, x: byte)
    requires p < end <= hi <= buf.Length
    modifies buf
    ensures buf[end - 1..hi] == [x] + old(buf[end..hi]) && buf[..p] == old(buf[..p])
  {
    buf[end - 1] := x;
  }

  /** The digits, last one first, at the end of the space buf[p..hi]. */
  method DigitsAtEnd(T: Mpi, radix: nat, buf: array<byte>, p: nat, hi: nat) returns (st: Status, end: nat)
    requires T.Valid() && 2 <= radix <= 16 && p <= hi <= buf.Length && T.Value() >= 0
    modifies T, buf
    ensures p <= end <= hi && buf[..p] == old(buf[..p])
    ensures st == if hi > p && old(T.Value() >= radix && |T.p| + 2 > MAX_LIMBS) then Fail(ERR_ALLOC_FAILED)
      else if |Digits(old(T.Value()), radix)| <= hi - p then Ok else Fail(ERR_BUFFER_TOO_SMALL)
    ensures st.Ok? ==> buf[end..hi] == Digits(old(T.Value()), radix)
  {
    hide Val, Digits, DigitChar, CharValue;
    ghost var v, full := T.Value(), T.Value() >= radix && |T.p| + 2 > MAX_LIMBS;
    ghost var d := Digits(v, radix);
    end := hi;
    var more := true;
    assert d + [] == d && buf[end..hi] == [];
    while more
      invariant T.Valid() && 0 <= T.Value() <= v && |T.p| <= Max(1, old(|T.p|))
      invariant if end < hi then !full else T.Value() == v && |T.p| == old(|T.p|) && more
      invariant p <= end <= hi && buf[..p] == old(buf[..p])
      invariant d == if more then Digits(T.Value(), radix) + buf[end..hi] else buf[end..hi]
      decreases more, T.Value()
    {
      DigitsStep(T.Value(), radix);
      if hi - end >= hi - p { return Fail(ERR_BUFFER_TOO_SMALL), end; }
      var x, z :- NextDigit(T, radix);
      PutBefore(buf, p, end, hi, x);
      end := end - 1;
      more := !z;
    }
    st := Ok;
  }

  /** mpi_write_hlp: digits from the end of the space, then moved to its start. */
  method WriteHlp(T: Mpi, radix: nat, buf: array<byte>, p: nat, buflen: nat) returns (st: Status, q: nat)
    requires T.Valid() && 2 <= radix <= 16 && p + buflen <= buf.Length && T.Value() >= 0
    modifies T, buf
    ensures st == if buflen > 0 && old(T.Value() >= radix && |T.p| + 2 > MAX_LIMBS) then Fail(ERR_ALLOC_FAILED)
      else if |Digits(old(T.Value()), radix)| <= buflen then Ok else Fail(ERR_BUFFER_TOO_SMALL)
    ensures st.Ok? ==> Appended(buf, p, Digits(old(T.Value()), radix)) && q == p + |Digits(old(T.Value()), radix)|
  {
    hide Val, Digits;
    q := p;
    var end :- DigitsAtEnd(T, radix, buf, p, p + buflen);
    MoveDown(buf, p, end, p + buflen - end);
    q := p + (p + buflen - end);
    st := Ok;
  }

  lemma DivideDown(v: nat, radix: nat)
    requires 2 <= radix <= 16
    ensures Quot(v, radix) == v / radix && (v > 0 ==> v / radix < v) && v / radix >= 0
  {
    DivMod(v, radix);
    if v >= radix { Shorter(v, radix); } else { ModSmall(v, radix); }
  }

  /** The text of |X| in radix 16: two digits an octet, nothing for an empty buffer. */
  function HexText(v: nat, limbs: nat): seq<byte> { if limbs == 0 then [] else Hex(Octets(v)) }

  /** Octet j of limb i is octet i*ciL + j of the number. */
  lemma OctetAt(p: seq<limb>, i: nat, j: nat, m: nat)
    requires i < |p| && j < CI_L && m == i * CI_L + j
    ensures ShrW(p[i], j * 8) % 256 == Byte(Val(p), m)
  {
    hide Val, Byte, ShrW;
    LimbBytes();
    DivModUnique(m, CI_L, i, j);
    GetByteVal(p, m);
  }

  /** v without its m low octets. */
  function Above(v: nat, m: nat): nat {
    DivMod(v, B8(m));
    v / B8(m)
  }

  /** What has been printed once the octets from m up are done. */
  ghost predicate HexSoFar(v: nat, m: nat, started: bool, text: seq<byte>) {
    var h := Above(v, m);
    if started then (h > 0 || m == 0) && text == Hex(Octets(h)) else h == 0 && text == [] && m > 0
  }

  lemma NextHigh(v: nat, m: nat)
    requires m > 0
    ensures Above(v, m - 1) == 256 * Above(v, m) + Byte(v, m - 1)
  {
    B8Step(m - 1);
    hide B8, Pow;
    DivMod(v, B8(m - 1)); DivMod(v, B8(m));
    DivDiv(v, B8(m - 1), 256);
    DivMod(v / B8(m - 1), 256);
  }

  /** One octet more. */
  lemma HexNext(v: nat, m: nat, started: bool, text: seq<byte>)
    requires m > 0 && HexSoFar(v, m, started, text)
    ensures var c := Byte(v, m - 1);
      if c == 0 && !started && m != 1 then HexSoFar(v, m - 1, false, text)
      else HexSoFar(v, m - 1, true, text + [DigitChar(c / 16), DigitChar(c % 16)])
  {
    hide Above, B8, Byte, Hex, Octets, DigitChar, BeVal, CharValue;
    var h, c := Above(v, m), Byte(v, m - 1);
    NextHigh(v, m);
    if h > 0 {
      OctetsMore(h, c);
      HexSnoc(Octets(h), c);
    } else {
      OctetsMore(h, c);
      HexSnoc([], c); HexNone();
      assert [] + [c] == [c] && [] + [DigitChar(c / 16), DigitChar(c % 16)] == [DigitChar(c / 16), DigitChar(c % 16)];
    }
  }

  lemma OctetsMore(h: nat, c: byte)
    ensures Octets(256 * h + c) == if h > 0 then Octets(h) + [c] else [c]
  {
    var v := 256 * h + c;
    if h > 0 { DivModUnique(v, 256, h, c); }
  }

  lemma HexNone()
    ensures Hex([]) == []
  {}

  lemma {:induction false} OctetsMono(a: nat, b: nat)
    requires a <= b
    ensures |Octets(a)| <= |Octets(b)|
    decreases b
  {
    if a >= 256 { OctetsMono(a / 256, b / 256); }
  }

  lemma HexLength(v: nat, m: nat, started: bool, text: seq<byte>)
    requires HexSoFar(v, m, started, text)
    ensures |text| <= 2 * |Octets(v)|
  {
    hide Octets, Hex, B8;
    var h := Above(v, m);
    DivMod(v, B8(m));
    MulMono(1, B8(m), h);
    OctetsMono(h, v);
  }

  /** One step of the two loops of the hexadecimal printer. */
  method HexOctet(buf: array<byte>, p: nat, text0: seq<byte>, started0: bool, c: byte, last: bool, ghost v: nat, ghost m: nat)
    returns (text: seq<byte>, started: bool)
    requires m > 0 && last == (m == 1) && c == Byte(v, m - 1) && HexSoFar(v, m, started0, text0)
    requires p + |text0| <= buf.Length && p + 2 * |Octets(v)| <= buf.Length && buf[p..p + |text0|] == text0
    modifies buf
    ensures HexSoFar(v, m - 1, started, text) && p + |text| <= buf.Length
    ensures buf[..p] == old(buf[..p]) && buf[p..p + |text|] == text
  {
    hide Octets, Hex, Byte, DigitChar, HexSoFar;
    HexNext(v, m, started0, text0);
    if c == 0 && !started0 && !last {
      HexLength(v, m - 1, false, text0);
      return text0, started0;
    }
    text := text0 + [DigitChar(c / 16), DigitChar(c % 16)];
    HexLength(v, m - 1, true, text);
    buf[p + |text0|] := DigitChar(c / 16);
    buf[p + |text0| + 1] := DigitChar(c % 16);
    assert buf[p..p + |text|] == text;
    started := true;
  }

  /** Radix 16: the octets from the top one, leading zeros skipped. */
  method WriteHex(X: Mpi, buf: array<byte>, p: nat) returns (q: nat)
    requires p + 2 * |Octets(X.Mag())| <= buf.Length
    modifies buf
    ensures Appended(buf, p, HexText(X.Mag(), |X.p|)) && q == p + |HexText(X.Mag(), |X.p|)|
  {
    hide Val, Octets, Hex, Byte, B8, Bn, HexSoFar, ShrW;
    ghost var v := X.Mag();
    var text: seq<byte> := [];
    var k := false;
    LimbBytes();
    var i := |X.p|;
    if i > 0 { HexStart(X.p); }
    while i > 0
      invariant 0 <= i <= |X.p| && 0 <= i * CI_L
      invariant |X.p| > 0 ==> HexSoFar(v, i * CI_L, k, text)
      invariant |X.p| == 0 ==> text == []
      invariant p + |text| <= buf.Length && buf[..p] == old(buf[..p]) && buf[p..p + |text|] == text
    {
      MulDist(CI_L, i - 1, 1); MulSign(i - 1, CI_L);
      var j := CI_L;
      while j > 0
        invariant 0 <= j <= CI_L && HexSoFar(v, (i - 1) * CI_L + j, k, text)
        invariant p + |text| <= buf.Length && buf[..p] == old(buf[..p]) && buf[p..p + |text|] == text
      {
        OctetAt(X.p, i - 1, j - 1, (i - 1) * CI_L + (j - 1));
        var c: byte := ShrW(X.p[i - 1], (j - 1) * 8) % 256;
        LastOctet(i, j);
        text, k := HexOctet(buf, p, text, k, c, i + j == 2, v, (i - 1) * CI_L + j);
        j := j - 1;
      }
      i := i - 1;
    }
    MulSign(0, CI_L);
    if |X.p| > 0 { HexDone(v, k, text); }
    q := p + |text|;
  }

  lemma LastOctet(i: nat, j: nat)
    requires i > 0 && j > 0 && CI_L >= 1
    ensures (i - 1) * CI_L >= 0 && (i + j == 2 <==> (i - 1) * CI_L + j == 1)
  {
    if i > 1 { MulMono(1, i - 1, CI_L); } else { MulSign(0, CI_L); }
  }

  lemma HexStart(p: seq<limb>)
    requires |p| > 0
    ensures 0 <= |p| * CI_L && HexSoFar(Val(p), |p| * CI_L, false, [])
  {
    hide Val, Bn, Octets, Hex;
    LimbBytes();
    BnBytes(|p|); ValBound(p);
    MulMono(1, |p|, CI_L);
    ModSmall(Val(p), B8(|p| * CI_L));
  }

  lemma HexDone(v: nat, k: bool, text: seq<byte>)
    requires HexSoFar(v, 0, k, text)
    ensures text == Hex(Octets(v))
  {
    hide Hex, Octets, Pow;
    B8Step(0);
  }

  // -------------------------------------------------------------- write_string

  /** The text of X without the terminator. */
  function Text(s: int, v: nat, limbs: nat, radix: nat): seq<byte>
    requires 2 <= radix <= 16
  {
    (if s == -1 then [MINUS] else []) + Figures(v, limbs, radix)
  }

  function Figures(v: nat, limbs: nat, radix: nat): seq<byte>
    requires 2 <= radix <= 16
  {
    if radix == 16 then HexText(v, limbs) else Digits(v, radix)
  }

  /** The size asked for holds sign, digits and terminator. */
  lemma TextFits(s: int, v: nat, limbs: nat, radix: nat)
    requires 2 <= radix <= 16
    ensures |Text(s, v, limbs, radix)| + 1 <= BufferSize(NumBits(v), radix)
    ensures |Figures(v, limbs, radix)| + 2 <= BufferSize(NumBits(v), radix)
    ensures radix == 16 ==> 2 * |Octets(v)| + 2 <= BufferSize(NumBits(v), radix)
  {
    hide NumBits, Octets, Hex, Digits;
    if radix == 16 { SizeOfOctets(v); HexRoom(NumBits(v)); } else { EnoughSpace(v, radix); }
  }

  lemma HexRoom(b: nat)
    ensures 2 * (if b == 0 then 1 else (b + 7) / 8) + 2 <= BufferSize(b, 16)
  {
    var n := b / 2 / 2;
    assert n == b / 4;
    var m := (b + 7) / 8;
    assert 2 * m <= n + 2 && (n % 2 == 1 ==> 2 * m <= n + 1);
  }

  /** Divisions by the radix need two limbs to spare; radix 16 does none. */
  ghost predicate Printable(p: seq<limb>, radix: nat) { radix == 16 || Sig(p) + 2 <= MAX_LIMBS }

  lemma LargeNumber(p: seq<limb>, radix: nat)
    requires radix <= 16
    ensures Sig(p) + 2 > MAX_LIMBS ==> Val(p) >= radix
  {
    hide Val, Bn, Sig, Pow;
    var j := Sig(p);
    if j + 2 > MAX_LIMBS {
      ValZeroFrom(p, j); ValAtLeast(p[..j]); BnMono(1, j - 1); BnStep(0);
    }
  }

  /** mbedtls_mpi_write_string */
  method WriteString(X: Mpi, radix: int, buf: array<byte>) returns (st: Status, olen: nat)
    requires X.Valid()
    modifies buf
    ensures radix < 2 || radix > 16 ==> st == Fail(ERR_BAD_INPUT)
    ensures 2 <= radix <= 16 && buf.Length < BufferSize(NumBits(X.Mag()), radix) ==>
      st == Fail(ERR_BUFFER_TOO_SMALL) && olen == BufferSize(NumBits(X.Mag()), radix)
    ensures 2 <= radix <= 16 && buf.Length >= BufferSize(NumBits(X.Mag()), radix) ==>
      st == if Printable(X.p, radix) then Ok else Fail(ERR_ALLOC_FAILED)
    ensures 2 <= radix <= 16 && st.Ok? ==>
      && olen == |Text(X.s, X.Mag(), |X.p|, radix)| + 1 <= buf.Length
      && buf[..olen] == Text(X.s, X.Mag(), |X.p|, radix) + [0]
  {
    hide Val, NumBits, Octets, BufferSize, Sig, Figures, BeVal;
    olen := 0;
    if radix < 2 || radix > 16 { return Fail(ERR_BAD_INPUT), olen; }
    var bits := Bitlen(X);
    var n := BufferSize(bits, radix);
    if buf.Length < n { return Fail(ERR_BUFFER_TOO_SMALL), n; }
    TextFits(X.s, X.Mag(), |X.p|, radix);
    var p := 0;
    if X.s == -1 {
      buf[0] := MINUS;
      p := 1;
    }
    ghost var head := buf[..p];
    assert head == if X.s == -1 then [MINUS] else [];
    var q :- WriteFigures(X, radix, buf, p);
    JoinText(buf[..q], head, buf[p..q]);
    buf[q] := 0;
    assert buf[..q + 1] == buf[..q] + [0];
    olen := q + 1;
    st := Ok;
  }

  /** The digits, in either way. */
  method WriteFigures(X: Mpi, radix: nat, buf: array<byte>, p: nat) returns (st: Status, q: nat)
    requires X.Valid() && 2 <= radix <= 16 && p + |Figures(X.Mag(), |X.p|, radix)| <= buf.Length
    requires radix == 16 ==> p + 2 * |Octets(X.Mag())| <= buf.Length
    modifies buf
    ensures st == if Printable(X.p, radix) then Ok else Fail(ERR_ALLOC_FAILED)
    ensures st.Ok? ==> Appended(buf, p, Figures(X.Mag(), |X.p|, radix)) && q == p + |Figures(X.Mag(), |X.p|, radix)|
    ensures X.Mag() == old(X.Mag()) && |X.p| == old(|X.p|) && X.s == old(X.s)
  {
    hide Val, Octets, Hex, Digits, Sig, HexText, BeVal;
    q := p;
    if radix == 16 {
      q := WriteHex(X, buf, p);
      return Ok, q;
    }
    var T := new Mpi();
    Copy(T, X);
    if T.s == -1 { T.s := 1; }
    if |X.p| == 0 { ValEmpty(); }
    MagValue(1, T.Mag());
    LargeNumber(X.p, radix); DigitsStep(T.Value(), radix);
    q :- WriteHlp(T, radix, buf, p, buf.Length - p);
    st := Ok;
  }

  lemma JoinText(all: seq<byte>, head: seq<byte>, rest: seq<byte>)
    requires |head| <= |all| && all[..|head|] == head && all[|head|..] == rest
    ensures all == head + rest
  {}

  // --------------------------------------------------------------------- round trip

  /** The digits printed stand for the number. */
  lemma FiguresValue(v: nat, limbs: nat, radix: nat)
    requires 2 <= radix <= 16 && (limbs == 0 ==> v == 0)
    ensures Valid(radix, Figures(v, limbs, radix)) && StrVal(radix, Figures(v, limbs, radix)) == v
  {
    hide Digits, Hex, Octets, StrVal, BeVal, CharValue;
    if radix < 16 { DigitsValue(v, radix); }
    else if limbs == 0 { StrEmpty(16); }
    else { HexValue(Octets(v)); }
  }

  /** What is printed reads as the number printed, sign included. */
  lemma TextRoundTrip(s: int, v: nat, limbs: nat, radix: nat)
    requires 2 <= radix <= 16 && (limbs == 0 ==> v == 0) && (s == 1 || s == -1)
    ensures var t := Text(s, v, limbs, radix);
      Unsigned(t) == Figures(v, limbs, radix) && Valid(radix, Unsigned(t)) && TextValue(radix, t) == s * v
  {
    hide StrVal, Figures, Valid;
    FiguresValue(v, limbs, radix);
    NoSign(radix, Figures(v, limbs, radix));
    if s == -1 { assert ([MINUS] + Figures(v, limbs, radix))[1..] == Figures(v, limbs, radix); }
    else { assert [] + Figures(v, limbs, radix) == Figures(v, limbs, radix); }
  }

  lemma NoSign(radix: nat, f: seq<byte>)
    requires radix <= 16 && Valid(radix, f)
    ensures |f| > 0 ==> f[0] != MINUS
  {
    if |f| > 0 { assert CharValue(f[0]) < radix; }
  }

  /** What is printed can be read. */
  lemma FiguresReadable(p: seq<limb>, radix: nat)
    requires 2 <= radix <= 16 && |p| <= MAX_LIMBS && Printable(p, radix)
    ensures TextStatus(radix, Figures(Val(p), |p|, radix)).Ok?
  {
    hide Digits, Hex, Octets, StrVal, BeVal, CharValue, Val, Sig, Bn, NumBits, BitsToLimbs, Pow;
    var j, v, f := Sig(p), Val(p), Figures(Val(p), |p|, radix);
    if |p| == 0 { ValEmpty(); }
    FiguresValue(v, |p|, radix);
    if radix == 16 {
      SizeOfOctets(v);
      SigBits(p); SigAtMost(p);
      HexLimbs(NumBits(v), if |p| == 0 then 0 else |Octets(v)|, j);
    } else {
      LimbToSpare(p);
      forall i | 0 <= i < |f| ensures !FullAt(radix, f, i) { StrPrefix(radix, f, i); }
    }
  }

  lemma SigAtMost(p: seq<limb>)
    ensures Sig(p) <= |p|
  {}

  /** Eight bits an octet need no more limbs than the bits do, except for zero. */
  lemma HexLimbs(b: nat, o: nat, j: nat)
    requires o == 0 || o == (if b == 0 then 1 else (b + 7) / 8)
    requires j == BitsToLimbs(b) && j <= MAX_LIMBS
    ensures BitsToLimbs(4 * (2 * o)) <= MAX_LIMBS
  {
    hide BitsToLimbs;
    LimbBytes();
    BitsToLimbsVal(b);
    var k := if j == 0 then 1 else j;
    MulAssoc(k, CI_L, 8);
    OctetsFit(b, o, k, CI_L);
    BitsToLimbsVal(8 * o);
    assert k * BI_L >= 8 * o;
  }

  lemma OctetsFit(b: nat, o: nat, k: nat, c: nat)
    requires o <= (if b == 0 then 1 else (b + 7) / 8) && k >= 1 && c >= 1 && b <= k * (c * 8)
    ensures 8 * o <= k * (c * 8)
  {
    MulMono(1, k, c); MulAssoc(k, c, 8);
    var m := k * c;
    assert (b + 7) / 8 <= m;
  }

  /** write_string into a buffer of the size it asks for, then read_string: X again,
      whenever X can be printed at all. */
  method PrintAndParse(X: Mpi, radix: int, buf: array<byte>, Y: Mpi) returns (st: Status)
    requires X.Valid() && Y.Valid() && X != Y && 2 <= radix <= 16
    requires buf.Length >= BufferSize(NumBits(X.Mag()), radix)
    modifies buf, Y
    ensures Y.Valid() && st == if Printable(X.p, radix) then Ok else Fail(ERR_ALLOC_FAILED)
    ensures st.Ok? ==> Y.Value() == X.Value()
  {
    hide Val, StrVal, NumBits, BufferSize, Figures, BitsToLimbs, Bn, Radix.Valid, Unsigned, TextStatus, TextValue, Printable;
    var olen :- WriteString(X, radix, buf);
    ghost var t := Text(X.s, X.Mag(), |X.p|, radix);
    if |X.p| == 0 { ValEmpty(); }
    TextRoundTrip(X.s, X.Mag(), |X.p|, radix);
    FiguresReadable(X.p, radix);
    assert buf[..olen - 1] == buf[..olen][..olen - 1] == t;
    st := ReadString(Y, radix, buf[..olen - 1]);
  }

  /** "1a" in radix 16 is 26. */
  method LowerCaseRead() returns (st: Status, X: Mpi)
    ensures st.Ok? && X.Value() == 26
  {
    hide Val, Bn;
    var s: seq<byte> := ['1' as int, 'a' as int];
    X := new Mpi();
    StrTwo(16, s[0], s[1]);
    BitsToLimbsVal(8); LimbBytes();
    st := ReadString(X, 16, s);
  }

  /** -26 is printed as "-1A" with a NUL after it. */
  method NegativePrinted(buf: array<byte>) returns (st: Status, olen: nat)
    requires buf.Length >= 6
    modifies buf
    ensures st.Ok? && olen == 4 && buf[..4] == ['-' as int, '1' as int, 'A' as int, 0]
  {
    hide Val, NumBits, Text, BufferSize, Sig, Printable;
    var X := Small(-26);
    TextOf26(X.s, X.Mag(), X.p);
    st, olen := WriteString(X, 16, buf);
  }

  lemma TextOf26(s: int, m: nat, p: seq<limb>)
    requires (s == 1 || s == -1) && s * m == -26 && |p| == 1
    ensures s == -1 && m == 26 && NumBits(m) == 5 && BufferSize(5, 16) == 4 && Printable(p, 16)
    ensures Text(s, m, |p|, 16) == ['-' as int, '1' as int, 'A' as int]
  {
    assert Octets(26) == [26];
    assert Hex([26]) == [DigitChar(1), DigitChar(10)];
  }

  /** Zero is printed as "0", in radix 16 as "00", and there as nothing without limbs. */
  lemma ZeroPrinted()
    ensures Text(1, 0, 1, 10) == ['0' as int] && Text(1, 0, 1, 16) == ['0' as int, '0' as int] && Text(1, 0, 0, 16) == []
  {
    assert Octets(0) == [0];
    assert Hex([0]) == [DigitChar(0), DigitChar(0)];
  }
}
