/** Byte strings and the numbers they stand for, least or most significant byte first. */
module Bytes {
  import opened Arith

  type byte = x: int | 0 <= x < 256

  /** 256^n */
  function B8(n: nat): (r: nat)
    ensures r > 0
  {
    Pow(256, n)
  }

  lemma B8Step(n: nat)
    ensures B8(n + 1) == 256 * B8(n) && B8(0) == 1
  {}

  lemma B8Add(m: nat, n: nat)
    ensures B8(m + n) == B8(m) * B8(n)
  {
    PowAdd(256, m, n);
  }

  lemma B8Mono(m: nat, n: nat)
    requires m <= n
    ensures B8(m) <= B8(n)
  {
    PowMono(256, m, n);
  }

  /** Little-endian value. */
  function LeVal(s: seq<byte>): (r: nat)
    ensures r < B8(|s|)
  {
    if |s| == 0 then (B8Step(0); 0) else
      var k := |s| - 1;
      B8Step(k);
      DigitBound(LeVal(s[..k]), s[k], B8(k), 256);
      LeVal(s[..k]) + s[k] * B8(k)
  }

  lemma LeTake(s: seq<byte>, i: nat)
    requires i < |s|
    ensures LeVal(s[..i + 1]) == LeVal(s[..i]) + s[i] * B8(i)
  {
    assert s[..i + 1][..i] == s[..i];
  }

  lemma LeEmpty()
    ensures LeVal([]) == 0
  {}

  lemma {:induction false} LeConcat(s: seq<byte>, t: seq<byte>)
    ensures LeVal(s + t) == LeVal(s) + B8(|s|) * LeVal(t)
    decreases |t|
  {
    if |t| == 0 {
      assert s + t == s;
    } else {
      var k := |t| - 1;
      LeConcat(s, t[..k]);
      assert (s + t)[..|s| + k] == s + t[..k];
      B8Add(|s|, k);
      hide B8, Pow;
      MulAssoc(t[k], B8(|s|), B8(k)); MulAssoc(B8(|s|), t[k], B8(k));
      MulDist(B8(|s|), LeVal(t[..k]), t[k] * B8(k));
    }
  }

  lemma {:induction false} LeZeros(s: seq<byte>)
    requires forall i :: 0 <= i < |s| ==> s[i] == 0
    ensures LeVal(s) == 0
  {
    if |s| > 0 { LeZeros(s[..|s| - 1]); }
  }

  /** Byte k of v. */
  function Byte(v: nat, k: nat): (b: byte) {
    DivMod(v, B8(k));
    (v / B8(k)) % 256
  }

  /** The n low bytes of v. */
  function ToLe(v: nat, n: nat): (s: seq<byte>)
    ensures |s| == n && forall k :: 0 <= k < n ==> s[k] == Byte(v, k)
  {
    if n == 0 then [] else ToLe(v, n - 1) + [Byte(v, n - 1)]
  }

  lemma {:induction false} ToLeVal(v: nat, n: nat)
    ensures LeVal(ToLe(v, n)) == v % B8(n)
    decreases n
  {
    if n == 0 {
      B8Step(0);
    } else {
      ToLeVal(v, n - 1);
      ToLeNext(v, n - 1);
    }
  }

  lemma ToLeNext(v: nat, k: nat)
    requires LeVal(ToLe(v, k)) == v % B8(k)
    ensures LeVal(ToLe(v, k + 1)) == v % B8(k + 1)
  {
    var s := ToLe(v, k + 1);
    assert s[..k] == ToLe(v, k) && s[..k + 1] == s && s[k] == Byte(v, k);
    hide LeVal, ToLe, B8, Pow, Byte;
    LeTake(s, k);
    ByteSplit(v, k);
  }

  lemma ByteSplit(v: nat, k: nat)
    ensures v % B8(k + 1) == v % B8(k) + Byte(v, k) * B8(k)
  {
    B8Step(k);
    hide B8, Pow;
    DivDiv(v, B8(k), 256);
  }

  /** The bytes of the value of s are s. */
  lemma {:induction false} ToLeOf(s: seq<byte>, k: nat)
    requires k < |s|
    ensures Byte(LeVal(s), k) == s[k]
  {
    hide LeVal, B8, Pow;
    var a, b, c := s[..k], s[k], s[k + 1..];
    assert s == s[..k + 1] + c;
    LeConcat(s[..k + 1], c); LeTake(s, k); B8Step(k);
    var h := LeVal(c);
    var v := LeVal(s);
    assert v == (b + 256 * h) * B8(k) + LeVal(a) by { MulDist(B8(k), b, 256 * h); MulAssoc(256, h, B8(k)); MulAssoc(256, B8(k), h); }
    DivModUnique(v, B8(k), b + 256 * h, LeVal(a));
    DivModUnique(b + 256 * h, 256, h, b);
  }

  lemma LeBytesOf(s: seq<byte>, n: nat)
    requires n == |s|
    ensures ToLe(LeVal(s), n) == s
  {
    forall k | 0 <= k < n ensures ToLe(LeVal(s), n)[k] == s[k] { ToLeOf(s, k); }
  }

  function Rev(s: seq<byte>): (r: seq<byte>)
    ensures |r| == |s| && forall k :: 0 <= k < |s| ==> r[k] == s[|s| - 1 - k]
  {
    if |s| == 0 then [] else Rev(s[1..]) + [s[0]]
  }

  lemma RevRev(s: seq<byte>)
    ensures Rev(Rev(s)) == s
  {
    forall k | 0 <= k < |s| ensures Rev(Rev(s))[k] == s[k] {}
  }

  lemma RevConcat(s: seq<byte>, t: seq<byte>)
    ensures Rev(s + t) == Rev(t) + Rev(s)
  {}

  /** Big-endian value. */
  function BeVal(s: seq<byte>): nat { LeVal(Rev(s)) }

  /** The big-endian bytes of v. */
  function ToBe(v: nat, n: nat): (s: seq<byte>)
    ensures |s| == n && forall k :: 0 <= k < n ==> s[k] == Byte(v, n - 1 - k)
  {
    Rev(ToLe(v, n))
  }

  lemma ToBeVal(v: nat, n: nat)
    ensures BeVal(ToBe(v, n)) == v % B8(n)
  {
    RevRev(ToLe(v, n));
    ToLeVal(v, n);
  }

  lemma BeBytesOf(s: seq<byte>)
    ensures ToBe(BeVal(s), |s|) == s
  {
    LeBytesOf(Rev(s), |s|);
    RevRev(s);
  }

  /** One more byte at the end. */
  lemma BeSnoc(s: seq<byte>, x: byte)
    ensures BeVal(s + [x]) == 256 * BeVal(s) + x
  {
    assert Rev([x]) == [x];
    RevConcat(s, [x]);
    LeConcat([x], Rev(s));
    assert [x][..0] == [];
    assert LeVal([x]) == x by { assert B8(0) == 1; }
    assert B8(1) == 256 * B8(0);
  }

  /** One more byte at the start of a little-endian string. */
  lemma LeCons(x: byte, s: seq<byte>)
    ensures LeVal([x] + s) == x + 256 * LeVal(s)
  {
    LeConcat([x], s);
    B8Step(0);
    assert [x][..0] == [];
    assert LeVal([x]) == x;
  }

  lemma BeEmpty()
    ensures BeVal([]) == 0
  {}

  lemma BePad(k: nat, s: seq<byte>)
    ensures BeVal(seq(k, _ => 0) + s) == BeVal(s)
  {
    var z: seq<byte> := seq(k, _ => 0);
    RevConcat(z, s);
    LeConcat(Rev(s), Rev(z));
    LeZeros(Rev(z));
    MulSign(B8(|s|), 0);
  }

  lemma BeBound(s: seq<byte>)
    ensures BeVal(s) < B8(|s|)
  {}

  /** Shortest big-endian octets, at least one. */
  function Octets(v: nat): (s: seq<byte>)
    ensures |s| >= 1 && BeVal(s) == v && (|s| > 1 ==> s[0] != 0)
  {
    if v < 256 then
      var s: seq<byte> := [v];
      OneOctet(v);
      s
    else
      BeSnoc(Octets(v / 256), v % 256);
      FirstOctet(Octets(v / 256));
      Octets(v / 256) + [v % 256]
  }

  lemma OneOctet(v: byte)
    ensures BeVal([v]) == v
  {
    assert [] + [v] == [v];
    BeSnoc([], v); BeEmpty();
  }

  /** A string of value 0 that is not longer than it need be is [0]. */
  lemma FirstOctet(s: seq<byte>)
    requires |s| >= 1 && (|s| > 1 ==> s[0] != 0) && BeVal(s) >= 1
    ensures s[0] != 0
  {
    if |s| == 1 {
      assert s == [s[0]];
      OneOctet(s[0]);
    }
  }

  lemma TopOctet(o: seq<byte>)
    requires |o| >= 1
    ensures o[0] * B8(|o| - 1) >= 0 && o[0] * B8(|o| - 1) <= BeVal(o) < o[0] * B8(|o| - 1) + B8(|o| - 1)
  {
    hide B8, LeVal, Rev;
    var r := Rev(o);
    var k := |o| - 1;
    LeTake(r, k);
    assert r[..k + 1] == r && r[k] == o[0];
    MulSign(o[0], B8(k));
  }
}
