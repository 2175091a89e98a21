/** Camellia as sections 2.3 and 2.4 of RFC 3713 write it out, and the proof that camellia.c
    computes it. The S-boxes and the key schedule are arbitrary. */
module Rfc3713 {
  import opened Camellia

  // ------------------------------------------------------------------ the F function

  /** The octets of a word, and of a 64-bit half, most significant first. */
  datatype Four = Four(a: bv8, b: bv8, c: bv8, d: bv8)
  datatype Eight = Eight(l: Four, r: Four)

  function OctetsOf(x: word): Four { Four(Byte3(x), Byte2(x), Byte1(x), Byte0(x)) }
  function Octets8(x: Pair): Eight { Eight(OctetsOf(x.l), OctetsOf(x.r)) }

  /** Sums of octets by name, so that proofs need not look at bits. */
  function Xor2(x: bv8, y: bv8): bv8 { x ^ y }
  function Xor5(a: bv8, b: bv8, c: bv8, d: bv8, e: bv8): bv8 { a ^ b ^ c ^ d ^ e }
  function Xor6(a: bv8, b: bv8, c: bv8, d: bv8, e: bv8, f: bv8): bv8 { a ^ b ^ c ^ d ^ e ^ f }

  function Xor4(x: Four, y: Four): Four { Four(Xor2(x.a, y.a), Xor2(x.b, y.b), Xor2(x.c, y.c), Xor2(x.d, y.d)) }

  /** y1 .. y8 of section 2.4.1 from t1 .. t8. */
  function Diffused(t: Eight): Eight {
    var (t1, t2, t3, t4) := (t.l.a, t.l.b, t.l.c, t.l.d);
    var (t5, t6, t7, t8) := (t.r.a, t.r.b, t.r.c, t.r.d);
    Eight(Four(Xor6(t1, t3, t4, t6, t7, t8), Xor6(t1, t2, t4, t5, t7, t8),
               Xor6(t1, t2, t3, t5, t6, t8), Xor6(t2, t3, t4, t5, t6, t7)),
          Four(Xor5(t1, t2, t6, t7, t8), Xor5(t2, t3, t5, t7, t8),
               Xor5(t3, t4, t5, t6, t8), Xor5(t1, t4, t5, t6, t7)))
  }

  /** F(F_IN, KE): S-boxes 1, 2, 3, 4, 2, 3, 4, 1 on the octets of F_IN ^ KE. */
  function F(S: Boxes, x: Eight, k: Eight): Eight {
    var l, r := Xor4(x.l, k.l), Xor4(x.r, k.r);
    Diffused(Eight(Four(S.s1(l.a), S.s2(l.b), S.s3(l.c), S.s4(l.d)), Four(S.s2(r.a), S.s3(r.b), S.s4(r.c), S.s1(r.d))))
  }

  lemma XorByte3(x: word, y: word)
    ensures Byte3(Xw(x, y)) == Xor2(Byte3(x), Byte3(y))
  {}

  lemma XorByte2(x: word, y: word)
    ensures Byte2(Xw(x, y)) == Xor2(Byte2(x), Byte2(y))
  {}

  lemma XorByte1(x: word, y: word)
    ensures Byte1(Xw(x, y)) == Xor2(Byte1(x), Byte1(y))
  {}

  lemma XorByte0(x: word, y: word)
    ensures Byte0(Xw(x, y)) == Xor2(Byte0(x), Byte0(y))
  {}

  lemma XorOctets(x: word, y: word)
    ensures OctetsOf(Xw(x, y)) == Xor4(OctetsOf(x), OctetsOf(y))
  {
    hide Byte3, Byte2, Byte1, Byte0, Xw, Xor2;
    XorByte3(x, y); XorByte2(x, y); XorByte1(x, y); XorByte0(x, y);
  }

  /** Rotations by whole octets. */
  lemma RotatedOctets(x: word)
    ensures var o := OctetsOf(x);
      && OctetsOf(Rotl8(x)) == Four(o.b, o.c, o.d, o.a)
      && OctetsOf(Rotl16(x)) == Four(o.c, o.d, o.a, o.b)
      && OctetsOf(Rotr8(x)) == Four(o.d, o.a, o.b, o.c)
  {}

  lemma PackOctets(o: Four)
    ensures OctetsOf(Pack(o.a, o.b, o.c, o.d)) == o
  {}

  /** The lines of Mix on octets. */
  function MixFour(p: Four, q: Four): Eight {
    var k0 := Xor4(p, Four(q.b, q.c, q.d, q.a));
    var k1 := Xor4(q, Four(k0.c, k0.d, k0.a, k0.b));
    var m0 := Xor4(k0, Four(k1.d, k1.a, k1.b, k1.c));
    var m1 := Xor4(k1, Four(m0.d, m0.a, m0.b, m0.c));
    Eight(m1, m0)
  }

  lemma MixOctets(j0: word, j1: word)
    ensures Octets8(Mix(j0, j1)) == MixFour(OctetsOf(j0), OctetsOf(j1))
  {
    hide OctetsOf, Xw, Rotl8, Rotl16, Rotr8, Xor4;
    var k0 := Xw(j0, Rotl8(j1));
    XorOctets(j0, Rotl8(j1)); RotatedOctets(j1);
    var k1 := Xw(j1, Rotl16(k0));
    XorOctets(j1, Rotl16(k0)); RotatedOctets(k0);
    var m0 := Xw(k0, Rotr8(k1));
    XorOctets(k0, Rotr8(k1)); RotatedOctets(k1);
    XorOctets(k1, Rotr8(m0)); RotatedOctets(m0);
  }

  /** The sums that the lines of Mix build up, term by term. */
  lemma Sum1(t1: bv8, t3: bv8, t4: bv8, t5: bv8, t6: bv8, t7: bv8, t8: bv8)
    ensures Xor2(Xor2(t5, Xor2(t3, t8)), Xor5(t1, t4, t5, t6, t7)) == Xor6(t1, t3, t4, t6, t7, t8)
  {
    assert (t5 ^ (t3 ^ t8)) ^ (t1 ^ t4 ^ t5 ^ t6 ^ t7) == t1 ^ t3 ^ t4 ^ t6 ^ t7 ^ t8;
  }

  lemma Sum2(t1: bv8, t2: bv8, t4: bv8, t5: bv8, t6: bv8, t7: bv8, t8: bv8)
    ensures Xor2(Xor2(t6, Xor2(t4, t5)), Xor5(t1, t2, t6, t7, t8)) == Xor6(t1, t2, t4, t5, t7, t8)
  {
    assert (t6 ^ (t4 ^ t5)) ^ (t1 ^ t2 ^ t6 ^ t7 ^ t8) == t1 ^ t2 ^ t4 ^ t5 ^ t7 ^ t8;
  }

  lemma Sum3(t1: bv8, t2: bv8, t3: bv8, t5: bv8, t6: bv8, t7: bv8, t8: bv8)
    ensures Xor2(Xor2(t7, Xor2(t1, t6)), Xor5(t2, t3, t5, t7, t8)) == Xor6(t1, t2, t3, t5, t6, t8)
  {
    assert (t7 ^ (t1 ^ t6)) ^ (t2 ^ t3 ^ t5 ^ t7 ^ t8) == t1 ^ t2 ^ t3 ^ t5 ^ t6 ^ t8;
  }

  lemma Sum4(t2: bv8, t3: bv8, t4: bv8, t5: bv8, t6: bv8, t7: bv8, t8: bv8)
    ensures Xor2(Xor2(t8, Xor2(t2, t7)), Xor5(t3, t4, t5, t6, t8)) == Xor6(t2, t3, t4, t5, t6, t7)
  {
    assert (t8 ^ (t2 ^ t7)) ^ (t3 ^ t4 ^ t5 ^ t6 ^ t8) == t2 ^ t3 ^ t4 ^ t5 ^ t6 ^ t7;
  }

  lemma Sum5(t1: bv8, t2: bv8, t6: bv8, t7: bv8, t8: bv8)
    ensures Xor2(Xor2(t1, t6), Xor2(t8, Xor2(t2, t7))) == Xor5(t1, t2, t6, t7, t8)
  {
    assert (t1 ^ t6) ^ (t8 ^ (t2 ^ t7)) == t1 ^ t2 ^ t6 ^ t7 ^ t8;
  }

  lemma Sum6(t2: bv8, t3: bv8, t5: bv8, t7: bv8, t8: bv8)
    ensures Xor2(Xor2(t2, t7), Xor2(t5, Xor2(t3, t8))) == Xor5(t2, t3, t5, t7, t8)
  {
    assert (t2 ^ t7) ^ (t5 ^ (t3 ^ t8)) == t2 ^ t3 ^ t5 ^ t7 ^ t8;
  }

  lemma Sum7(t3: bv8, t4: bv8, t5: bv8, t6: bv8, t8: bv8)
    ensures Xor2(Xor2(t3, t8), Xor2(t6, Xor2(t4, t5))) == Xor5(t3, t4, t5, t6, t8)
  {
    assert (t3 ^ t8) ^ (t6 ^ (t4 ^ t5)) == t3 ^ t4 ^ t5 ^ t6 ^ t8;
  }

  lemma Sum8(t1: bv8, t4: bv8, t5: bv8, t6: bv8, t7: bv8)
    ensures Xor2(Xor2(t4, t5), Xor2(t7, Xor2(t1, t6))) == Xor5(t1, t4, t5, t6, t7)
  {
    assert (t4 ^ t5) ^ (t7 ^ (t1 ^ t6)) == t1 ^ t4 ^ t5 ^ t6 ^ t7;
  }

  lemma MixDiffuses(p: Four, q: Four)
    ensures MixFour(p, q) == Diffused(Eight(p, q))
  {
    hide Xor2, Xor5, Xor6;
    Sum1(p.a, p.c, p.d, q.a, q.b, q.c, q.d);
    Sum2(p.a, p.b, p.d, q.a, q.b, q.c, q.d);
    Sum3(p.a, p.b, p.c, q.a, q.b, q.c, q.d);
    Sum4(p.b, p.c, p.d, q.a, q.b, q.c, q.d);
    Sum5(p.a, p.b, q.b, q.c, q.d);
    Sum6(p.b, p.c, q.a, q.c, q.d);
    Sum7(p.c, p.d, q.a, q.b, q.d);
    Sum8(p.a, p.d, q.a, q.b, q.c);
  }

  /** camellia_feistel computes F, octet by octet. */
  lemma RoundIsF(S: Boxes, x: Pair, k: Pair)
    ensures Octets8(Round(S, x, k)) == F(S, Octets8(x), Octets8(k))
  {
    hide Byte3, Byte2, Byte1, Byte0, Xw, Mix, Pack, Diffused, MixFour, Xor4;
    XorOctets(x.l, k.l); XorOctets(x.r, k.r);
    var a, b := OctetsOf(Xw(x.l, k.l)), OctetsOf(Xw(x.r, k.r));
    var p, q := Four(S.s1(a.a), S.s2(a.b), S.s3(a.c), S.s4(a.d)), Four(S.s2(b.a), S.s3(b.b), S.s4(b.c), S.s1(b.d));
    PackOctets(p); PackOctets(q);
    MixOctets(Pack(p.a, p.b, p.c, p.d), Pack(q.a, q.b, q.c, q.d));
    MixDiffuses(p, q);
  }

  // ------------------------------------------------------------------ the FL function

  /** m has one bit, and Up(m) is the bit above it, the lowest one after the highest. */
  predicate OneBit(m: word) { m != 0 && m & (m - 1) == 0 }
  function Up(m: word): word { if m == 0x8000_0000 then 1 else m + m }
  predicate On(x: word, m: word) { Aw(x, m) != 0 }

  /** Section 2.4.2 bit by bit: x2 ^= (x1 & k1) <<< 1, then x1 ^= x2 | k2. */
  lemma FLBits(x: Pair, k: Pair, m: word)
    requires OneBit(m)
    ensures var y := FL(x, k);
      && On(y.r, Up(m)) == (On(x.r, Up(m)) != (On(x.l, m) && On(k.l, m)))
      && On(y.l, m) == (On(x.l, m) != (On(y.r, m) || On(k.r, m)))
  {
    hide On, OneBit, Up, Xw, Rotl1, Aw, Ow;
    var r := FL(x, k).r;
    UpOneBit(m);
    BitOfXor(Rotl1(Aw(x.l, k.l)), x.r, Up(m)); BitOfXor(Ow(r, k.r), x.l, m);
    BitOfOr(r, k.r, m); BitOfAnd(x.l, k.l, m);
    RotatedBit(Aw(x.l, k.l), m);
  }

  lemma UpOneBit(m: word)
    requires OneBit(m)
    ensures OneBit(Up(m))
  {}

  /** A word under a mask of one bit is nothing or that bit. */
  lemma NoneOrThat(x: word, m: word)
    requires OneBit(m)
    ensures Aw(x, m) == 0 || Aw(x, m) == m
  {}

  lemma OfBits(a: word, b: word, m: word)
    requires m != 0 && (a == 0 || a == m) && (b == 0 || b == m)
    ensures (Xw(a, b) != 0) == ((a != 0) != (b != 0)) && (Aw(a, b) != 0) == (a != 0 && b != 0)
  {}

  lemma MaskedXor(x: word, y: word, m: word)
    ensures Aw(Xw(x, y), m) == Xw(Aw(x, m), Aw(y, m))
  {
    DistributeXor(x, y, m);
  }

  lemma DistributeXor(x: word, y: word, m: word)
    ensures (x ^ y) & m == (x & m) ^ (y & m)
  {}

  lemma MaskedAnd(x: word, y: word, m: word)
    ensures Aw(Aw(x, y), m) == Aw(Aw(x, m), Aw(y, m))
  {}

  lemma MaskedOr(x: word, y: word, m: word)
    ensures Aw(Ow(x, y), m) == Ow(Aw(x, m), Aw(y, m))
  {
    DistributeOr(x, y, m);
  }

  lemma DistributeOr(x: word, y: word, m: word)
    ensures (x | y) & m == (x & m) | (y & m)
  {}

  lemma OrIsZero(a: word, b: word)
    ensures Ow(a, b) == 0 <==> a == 0 && b == 0
  {}

  lemma NotNone(m: word)
    requires OneBit(m)
    ensures m != 0
  {}

  lemma BitOfXor(x: word, y: word, m: word)
    requires OneBit(m)
    ensures On(Xw(x, y), m) == (On(x, m) != On(y, m))
  {
    hide Xw, Aw, OneBit;
    NoneOrThat(x, m); NoneOrThat(y, m); MaskedXor(x, y, m); NotNone(m);
    OfBits(Aw(x, m), Aw(y, m), m);
  }

  lemma BitOfAnd(x: word, y: word, m: word)
    requires OneBit(m)
    ensures On(Aw(x, y), m) == (On(x, m) && On(y, m))
  {
    hide Aw, OneBit;
    NoneOrThat(x, m); NoneOrThat(y, m); MaskedAnd(x, y, m); NotNone(m);
    OfBits(Aw(x, m), Aw(y, m), m);
  }

  lemma BitOfOr(x: word, y: word, m: word)
    ensures On(Ow(x, y), m) == (On(x, m) || On(y, m))
  {
    hide Aw, Ow;
    MaskedOr(x, y, m);
    OrIsZero(Aw(x, m), Aw(y, m));
  }

  lemma ShiftedMask(x: word, m: word)
    ensures ((x << 1) | (x >> 31)) & (m << 1) == (x & m) << 1 && m + m == m << 1
  {}

  lemma TopMask(x: word)
    ensures ((x << 1) | (x >> 31)) & 1 == (x & 0x8000_0000) >> 31
  {}

  lemma RotatedBit(x: word, m: word)
    requires OneBit(m)
    ensures On(Rotl1(x), Up(m)) == On(x, m)
  {
    NoneOrThat(x, m); ShiftedMask(x, m); TopMask(x);
  }

  // ------------------------------------------------------------ the order of the octets

  /** The octets of a word by their weights. */
  lemma Weights(x: word)
    ensures x == (Byte3(x) as word) * 0x100_0000 + (Byte2(x) as word) * 0x1_0000 + (Byte1(x) as word) * 0x100 + (Byte0(x) as word)
  {}

  /** The first octet of a block has the highest weight. */
  lemma LoadedWeights(w: Quad)
    ensures var p: word, q: word, r: word, s: word := w[0], w[1], w[2], w[3];
      GetWord(w) == p * 0x100_0000 + q * 0x1_0000 + r * 0x100 + s
  {}

  // --------------------------------------------------------------------- the rounds

  /** Two halves of 64 bits. */
  datatype Halves = Halves(d1: Pair, d2: Pair)

  /** Six rounds: D2 ^= F(D1, k), then D1 ^= F(D2, k), and so on. */
  function Six(S: Boxes, d: Halves, k1: Pair, k2: Pair, k3: Pair, k4: Pair, k5: Pair, k6: Pair): Halves {
    var r1 := Xor(d.d2, Round(S, d.d1, k1));
    var l1 := Xor(d.d1, Round(S, r1, k2));
    var r2 := Xor(r1, Round(S, l1, k3));
    var l2 := Xor(l1, Round(S, r2, k4));
    var r3 := Xor(r2, Round(S, l2, k5));
    var l3 := Xor(l2, Round(S, r3, k6));
    Halves(l3, r3)
  }

  function SixAt(S: Boxes, d: Halves, rk: seq<word>, j: nat): Halves
    requires 2 * j + 12 <= |rk|
  {
    Six(S, d, PairAt(rk, j), PairAt(rk, j + 1), PairAt(rk, j + 2), PairAt(rk, j + 3), PairAt(rk, j + 4), PairAt(rk, j + 5))
  }

  /** D1 = FL(D1, ke), D2 = FLINV(D2, ke'). */
  function Between(d: Halves, ke1: Pair, ke2: Pair): Halves { Halves(FL(d.d1, ke1), FLInv(d.d2, ke2)) }

  /** Section 2.3.1, 128-bit keys: the subkeys in the order kw1 kw2 k1..k6 ke1 ke2 k7..k12
      ke3 ke4 k13..k18 kw3 kw4, and C = (D2, D1). */
  function Encrypt18(S: Boxes, rk: seq<word>, m: Halves): Halves
    requires |rk| >= 52
  {
    var d := Halves(Xor(m.d1, PairAt(rk, 0)), Xor(m.d2, PairAt(rk, 1)));
    var e := Between(SixAt(S, d, rk, 2), PairAt(rk, 8), PairAt(rk, 9));
    var f := Between(SixAt(S, e, rk, 10), PairAt(rk, 16), PairAt(rk, 17));
    var g := SixAt(S, f, rk, 18);
    Halves(Xor(g.d2, PairAt(rk, 24)), Xor(g.d1, PairAt(rk, 25)))
  }

  /** Section 2.3.2, 192 and 256-bit keys: one more group of six rounds. */
  function Encrypt24(S: Boxes, rk: seq<word>, m: Halves): Halves
    requires |rk| >= 68
  {
    var d := Halves(Xor(m.d1, PairAt(rk, 0)), Xor(m.d2, PairAt(rk, 1)));
    var e := Between(SixAt(S, d, rk, 2), PairAt(rk, 8), PairAt(rk, 9));
    var f := Between(SixAt(S, e, rk, 10), PairAt(rk, 16), PairAt(rk, 17));
    var g := Between(SixAt(S, f, rk, 18), PairAt(rk, 24), PairAt(rk, 25));
    var h := SixAt(S, g, rk, 26);
    Halves(Xor(h.d2, PairAt(rk, 32)), Xor(h.d1, PairAt(rk, 33)))
  }

  function HalvesOf(x: State): Halves { Halves(Left(x), Right(x)) }

  lemma RoundStep(S: Boxes, i: nat, j: nat, k: Pair, x: State)
    requires i % 8 == 0 && j < 6
    ensures var y := Step(S, i + j, k, x);
      if j % 2 == 0 then HalvesOf(y) == Halves(Left(x), Xor(Right(x), Round(S, Left(x), k)))
      else HalvesOf(y) == Halves(Xor(Left(x), Round(S, Right(x), k)), Right(x))
  {
    hide Round, Xor;
    assert (i + j) % 8 == j;
  }

  /** Steps 8g .. 8g+5 are six rounds. */
  lemma GroupIsSix(S: Boxes, ks: seq<Pair>, i: nat, x: State)
    requires i % 8 == 0 && i + 6 <= |ks|
    ensures HalvesOf(Steps(S, ks, i + 6, x)) ==
      Six(S, HalvesOf(Steps(S, ks, i, x)), ks[i], ks[i + 1], ks[i + 2], ks[i + 3], ks[i + 4], ks[i + 5])
  {
    hide Step, Steps, Round, Xor;
    StepsNext(S, ks, i, x); RoundStep(S, i, 0, ks[i], Steps(S, ks, i, x));
    StepsNext(S, ks, i + 1, x); RoundStep(S, i, 1, ks[i + 1], Steps(S, ks, i + 1, x));
    StepsNext(S, ks, i + 2, x); RoundStep(S, i, 2, ks[i + 2], Steps(S, ks, i + 2, x));
    StepsNext(S, ks, i + 3, x); RoundStep(S, i, 3, ks[i + 3], Steps(S, ks, i + 3, x));
    StepsNext(S, ks, i + 4, x); RoundStep(S, i, 4, ks[i + 4], Steps(S, ks, i + 4, x));
    StepsNext(S, ks, i + 5, x); RoundStep(S, i, 5, ks[i + 5], Steps(S, ks, i + 5, x));
  }

  /** Steps 8g+6 and 8g+7 are the FL layer. */
  lemma GroupIsBetween(S: Boxes, ks: seq<Pair>, i: nat, x: State)
    requires i % 8 == 0 && i + 8 <= |ks|
    ensures HalvesOf(Steps(S, ks, i + 8, x)) == Between(HalvesOf(Steps(S, ks, i + 6, x)), ks[i + 6], ks[i + 7])
  {
    hide Step, Steps, FL, FLInv;
    StepsNext(S, ks, i + 6, x); StepsNext(S, ks, i + 7, x);
    LayerSteps(S, i, ks, Steps(S, ks, i + 6, x));
  }

  lemma Whitened(x: State, k: seq<word>)
    requires |k| == 4
    ensures HalvesOf(Whiten(x, k)) == Halves(Xor(Left(x), PairAt(k, 0)), Xor(Right(x), PairAt(k, 1)))
  {}

  /** Eight steps and the keys they use. */
  lemma Group(S: Boxes, rk: seq<word>, nr: nat, g: nat, x: State)
    requires nr >= 1 && 2 * (StepCount(nr) + 4) <= |rk| && g < nr
    ensures var ks := StepKeys(rk, nr); var d := SixAt(S, HalvesOf(Steps(S, ks, 8 * g, x)), rk, 8 * g + 2);
      && HalvesOf(Steps(S, ks, 8 * g + 6, x)) == d
      && (g + 1 < nr ==> HalvesOf(Steps(S, ks, 8 * g + 8, x)) == Between(d, PairAt(rk, 8 * g + 8), PairAt(rk, 8 * g + 9)))
  {
    hide Steps, Six, Between, HalvesOf, PairAt;
    var ks := StepKeys(rk, nr);
    GroupIsSix(S, ks, 8 * g, x);
    if g + 1 < nr { GroupIsBetween(S, ks, 8 * g, x); }
  }

  /** The network is the encryption of RFC 3713, for both numbers of rounds. */
  lemma NetworkIs18(S: Boxes, rk: seq<word>, x: State)
    requires |rk| >= 52
    ensures HalvesOf(Network(S, rk, 3, x)) == Encrypt18(S, rk, HalvesOf(x))
  {
    hide Steps, SixAt, Between, Xor, StepKeys, Whiten;
    var y, ks := Whiten(x, FirstKeys(rk)), StepKeys(rk, 3);
    Whitened(x, FirstKeys(rk));
    NoSteps(S, ks, y);
    Group(S, rk, 3, 0, y); Group(S, rk, 3, 1, y); Group(S, rk, 3, 2, y);
    Whitened(Swap(Steps(S, ks, 22, y)), LastKeys(rk, 3));
  }

  lemma NetworkIs24(S: Boxes, rk: seq<word>, x: State)
    requires |rk| >= 68
    ensures HalvesOf(Network(S, rk, 4, x)) == Encrypt24(S, rk, HalvesOf(x))
  {
    hide Steps, SixAt, Between, Xor, StepKeys, Whiten;
    var y, ks := Whiten(x, FirstKeys(rk)), StepKeys(rk, 4);
    Whitened(x, FirstKeys(rk));
    NoSteps(S, ks, y);
    Group(S, rk, 4, 0, y); Group(S, rk, 4, 1, y); Group(S, rk, 4, 2, y); Group(S, rk, 4, 3, y);
    Whitened(Swap(Steps(S, ks, 30, y)), LastKeys(rk, 4));
  }
}
