/** Digits and numbers in radix 2 to 16, as mbedtls_mpi_write_string prints and
    mbedtls_mpi_read_string reads them. */
module Radix {
  import opened Arith
  import opened Bytes
  import opened Bits

  const MINUS: byte := 45

  /** The value of a character, or 255: mpi_get_digit before the comparison with radix. */
  function CharValue(c: byte): nat {
    if 0x30 <= c <= 0x39 then c - 0x30
    else if 0x41 <= c <= 0x46 then c - 0x37
    else if 0x61 <= c <= 0x66 then c - 0x57
    else 255
  }

  const UPPER := "0123456789ABCDEF"
  const LOWER := "0123456789abcdef"

  /** The value of a character is its place in either table, and 255 in neither. */
  lemma DigitTables(c: byte)
    ensures forall d: nat :: d < 16 ==> (c == UPPER[d] as int || c == LOWER[d] as int ==> CharValue(c) == d)
    ensures CharValue(c) == 255 || exists d: nat :: d < 16 && (c == UPPER[d] as int || c == LOWER[d] as int)
  {
    forall d: nat | d < 16 && (c == UPPER[d] as int || c == LOWER[d] as int) ensures CharValue(c) == d { TableEntry(d); }
    if CharValue(c) != 255 {
      TableEntry(CharValue(c));
      assert c == UPPER[CharValue(c)] as int || c == LOWER[CharValue(c)] as int;
    }
  }

  lemma TableEntry(d: nat)
    requires d < 16
    ensures UPPER[d] as int == (if d < 10 then 0x30 + d else 0x41 + (d - 10))
    ensures LOWER[d] as int == (if d < 10 then 0x30 + d else 0x61 + (d - 10))
  {}

  /** Digits are printed as in the upper-case table. */
  lemma DigitPrinted(d: nat)
    requires d < 16
    ensures DigitChar(d) == UPPER[d] as int && MINUS == '-' as int
  {
    TableEntry(d);
  }

  predicate Valid(radix: nat, s: seq<byte>) { forall i :: 0 <= i < |s| ==> CharValue(s[i]) < radix }

  /** The number a digit string stands for. */
  function StrVal(radix: nat, s: seq<byte>): nat {
    if |s| == 0 then 0 else
      MulSign(StrVal(radix, s[..|s| - 1]), radix);
      StrVal(radix, s[..|s| - 1]) * radix + CharValue(s[|s| - 1])
  }

  lemma StrSnoc(radix: nat, s: seq<byte>, c: byte)
    ensures StrVal(radix, s + [c]) == StrVal(radix, s) * radix + CharValue(c)
  {
    assert (s + [c])[..|s|] == s;
  }

  lemma StrEmpty(radix: nat)
    ensures StrVal(radix, []) == 0
  {}

  lemma StrOne(radix: nat, c: byte)
    ensures StrVal(radix, [c]) == CharValue(c)
  {
    hide CharValue, StrVal;
    assert [c] == [] + [c];
    StrSnoc(radix, [], c); StrEmpty(radix); MulSign(0, radix);
  }

  lemma StrTwo(radix: nat, c: byte, d: byte)
    ensures StrVal(radix, [c, d]) == CharValue(c) * radix + CharValue(d)
  {
    hide CharValue, StrVal;
    assert [c, d] == [c] + [d];
    StrSnoc(radix, [c], d); StrOne(radix, c);
  }

  /** One more digit in front. */
  lemma {:induction false} StrCons(radix: nat, c: byte, s: seq<byte>)
    requires radix > 0
    ensures StrVal(radix, [c] + s) == CharValue(c) * Pow(radix, |s|) + StrVal(radix, s)
    decreases |s|
  {
    hide CharValue;
    if |s| == 0 {
      assert [c] + s == [] + [c];
      StrSnoc(radix, [], c); StrEmpty(radix);
      assert Pow(radix, 0) == 1;
      MulSign(0, radix);
    } else {
      var k := |s| - 1;
      var a, d := s[..k], s[k];
      StrCons(radix, c, a);
      assert [c] + s == ([c] + a) + [d] && s == a + [d];
      StrSnoc(radix, [c] + a, d); StrSnoc(radix, a, d);
      assert Pow(radix, k + 1) == radix * Pow(radix, k);
      hide Pow, StrVal;
      MulDist(radix, CharValue(c) * Pow(radix, k), StrVal(radix, a));
      MulAssoc(CharValue(c), Pow(radix, k), radix);
    }
  }

  lemma {:induction false} StrBound(radix: nat, s: seq<byte>)
    requires radix > 0 && Valid(radix, s)
    ensures StrVal(radix, s) < Pow(radix, |s|)
    decreases |s|
  {
    hide CharValue;
    if |s| > 0 {
      var k := |s| - 1;
      StrBound(radix, s[..k]);
      assert s == s[..k] + [s[k]];
      StrSnoc(radix, s[..k], s[k]);
      assert Pow(radix, k + 1) == radix * Pow(radix, k);
      hide Pow, StrVal;
      MulMono(StrVal(radix, s[..k]) + 1, Pow(radix, k), radix);
      MulDist(radix, StrVal(radix, s[..k]), 1);
    }
  }

  // ------------------------------------------------------------------- printing

  function DigitChar(d: nat): (c: byte)
    requires d < 16
    ensures CharValue(c) == d
  {
    if d < 10 then 0x30 + d else 0x41 + (d - 10)
  }

  /** Shortest digits of v, high-order first. */
  function Digits(v: nat, radix: nat): (s: seq<byte>)
    requires 2 <= radix <= 16
    ensures |s| >= 1
  {
    DivMod(v, radix);
    if v < radix then [DigitChar(v)] else Shorter(v, radix); Digits(v / radix, radix) + [DigitChar(v % radix)]
  }

  lemma Shorter(v: nat, radix: nat)
    requires 2 <= radix <= v
    ensures 1 <= v / radix < v
  {
    DivMod(v, radix);
    var q := v / radix;
    if q < 1 { MulMono(q, 0, radix); }
    MulMono(2, radix, q);
  }

  lemma {:induction false} DigitsValue(v: nat, radix: nat)
    requires 2 <= radix <= 16
    ensures StrVal(radix, Digits(v, radix)) == v && Valid(radix, Digits(v, radix))
    decreases v
  {
    hide StrVal, CharValue, DigitChar;
    if v < radix {
      assert [] + [DigitChar(v)] == [DigitChar(v)];
      StrSnoc(radix, [], DigitChar(v)); StrEmpty(radix); MulSign(0, radix);
    } else {
      Shorter(v, radix);
      DivMod(v, radix);
      DigitsValue(v / radix, radix);
      StrSnoc(radix, Digits(v / radix, radix), DigitChar(v % radix));
    }
  }

  lemma DigitsStep(v: nat, radix: nat)
    requires 2 <= radix <= 16
    ensures v / radix >= 0 && 0 <= v % radix < radix
    ensures Digits(v, radix) == if v / radix == 0 then [DigitChar(v % radix)] else Digits(v / radix, radix) + [DigitChar(v % radix)]
  {
    DivMod(v, radix);
    if v < radix { ModSmall(v, radix); } else { Shorter(v, radix); }
  }

  /** The size that write_string asks for. */
  function BufferSize(bits: nat, radix: nat): nat {
    var n := (if radix >= 16 then bits / 2 / 2 else if radix >= 4 then bits / 2 else bits) + 3;
    n + n % 2
  }

  /** What is asked for a number of eight bits, such as 255: digits, sign and NUL, rounded up. */
  lemma BufferSizes()
    ensures BufferSize(8, 2) == 12 && BufferSize(8, 3) == 12 && BufferSize(8, 4) == 8 && BufferSize(8, 10) == 8
    ensures BufferSize(8, 15) == 8 && BufferSize(8, 16) == 6
  {}

  lemma BitsDropped(v: nat, radix: nat)
    requires 2 <= radix <= v
    ensures v / radix >= 1 && NumBits(v / radix) < NumBits(v)
    ensures radix >= 4 ==> NumBits(v / radix) + 2 <= NumBits(v)
  {
    Shorter(v, radix);
    SmallerQuotient(v, 2, radix);
    BitsHalf(v);
    hide NumBits;
    NumBitsMono(v / radix, v / 2);
    if radix >= 4 {
      SmallerQuotient(v, 4, radix);
      BitsHalf(v / 2);
      assert v / 4 == (v / 2) / 2;
      NumBitsMono(v / radix, v / 4);
    }
  }

  lemma BitsHalf(v: nat)
    requires v >= 1
    ensures NumBits(v) == NumBits(v / 2) + 1
  {}

  lemma SmallerQuotient(v: nat, k: nat, radix: nat)
    requires 0 < k <= radix
    ensures v / radix <= v / k
  {
    DivMod(v, radix); DivMod(v, k);
    var q, p := v / radix, v / k;
    if q > p { MulMono(p + 1, q, radix); MulMono(k, radix, p + 1); MulDist(k, p, 1); }
  }

  lemma {:induction false} DigitCount(v: nat, radix: nat)
    requires 2 <= radix <= 16
    ensures |Digits(v, radix)| <= (if radix >= 4 then NumBits(v) / 2 else NumBits(v)) + 1
    decreases v
  {
    hide NumBits, DigitChar;
    DivMod(v, radix);
    if v >= radix {
      Shorter(v, radix);
      DigitCount(v / radix, radix);
      BitsDropped(v, radix);
    }
  }

  /** Sign, digits and terminator fit. */
  lemma EnoughSpace(v: nat, radix: nat)
    requires 2 <= radix < 16
    ensures |Digits(v, radix)| + 2 <= BufferSize(NumBits(v), radix)
  {
    hide NumBits, Digits;
    DigitCount(v, radix);
  }

  // --------------------------------------------------------------- two digits an octet

  function Hex(o: seq<byte>): (s: seq<byte>)
    ensures |s| == 2 * |o|
  {
    if |o| == 0 then [] else Hex(o[..|o| - 1]) + [DigitChar(o[|o| - 1] / 16), DigitChar(o[|o| - 1] % 16)]
  }

  lemma HexSnoc(o: seq<byte>, x: byte)
    ensures Hex(o + [x]) == Hex(o) + [DigitChar(x / 16), DigitChar(x % 16)]
  {
    assert (o + [x])[..|o|] == o;
  }

  lemma {:induction false} HexValue(o: seq<byte>)
    ensures StrVal(16, Hex(o)) == BeVal(o) && Valid(16, Hex(o))
  {
    hide StrVal, CharValue, DigitChar, BeVal;
    if |o| == 0 {
      assert o == [];
      StrEmpty(16); BeEmpty();
    } else {
      var k := |o| - 1;
      var a, x := o[..k], o[k];
      HexValue(a);
      assert o == a + [x];
      HexSnoc(a, x); BeSnoc(a, x);
      var h := Hex(a);
      assert Hex(o) == (h + [DigitChar(x / 16)]) + [DigitChar(x % 16)];
      StrSnoc(16, h, DigitChar(x / 16)); StrSnoc(16, h + [DigitChar(x / 16)], DigitChar(x % 16));
    }
  }
}
