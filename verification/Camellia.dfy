/** camellia.c: the Feistel network with its FL layers, and decryption with the round
    keys in reverse order. The S-boxes and the round keys are arbitrary. */
module Camellia {
  import opened Arith
  import opened ReturnCodes

  const ERR_CAMELLIA_BAD_INPUT_DATA := -0x0024

  type word = bv32

  datatype Boxes = Boxes(s1: bv8 -> bv8, s2: bv8 -> bv8, s3: bv8 -> bv8, s4: bv8 -> bv8)

  /** X[0..3], and two words of round key. */
  datatype State = State(a: word, b: word, c: word, d: word)
  datatype Pair = Pair(l: word, r: word)

  function Rotl1(x: word): word { (x << 1) | (x >> 31) }
  function Rotl8(x: word): word { (x << 8) | (x >> 24) }
  function Rotl16(x: word): word { (x << 16) | (x >> 16) }
  function Rotr8(x: word): word { (x >> 8) | (x << 24) }

  /** MBEDTLS_BYTE_0 to MBEDTLS_BYTE_3 */
  function Byte0(x: word): bv8 { (x & 0xFF) as bv8 }
  function Byte1(x: word): bv8 { ((x >> 8) & 0xFF) as bv8 }
  function Byte2(x: word): bv8 { ((x >> 16) & 0xFF) as bv8 }
  function Byte3(x: word): bv8 { ((x >> 24) & 0xFF) as bv8 }

  function Pack(p: bv8, q: bv8, r: bv8, s: bv8): word {
    ((p as word) << 24) | ((q as word) << 16) | ((r as word) << 8) | (s as word)
  }

  /** Word operations by name, so that proofs need not look at bits. */
  function Xw(x: word, y: word): word { x ^ y }
  function Aw(x: word, y: word): word { x & y }
  function Ow(x: word, y: word): word { x | y }

  /** The four shift-and-xor lines, giving what is xored into z: (I1, I0). */
  function Mix(j0: word, j1: word): Pair {
    var k0 := Xw(j0, Rotl8(j1));
    var k1 := Xw(j1, Rotl16(k0));
    var m0 := Xw(k0, Rotr8(k1));
    var m1 := Xw(k1, Rotr8(m0));
    Pair(m1, m0)
  }

  /** camellia_feistel without the last xor. */
  function Round(S: Boxes, x: Pair, k: Pair): Pair {
    var i0, i1 := Xw(x.l, k.l), Xw(x.r, k.r);
    Mix(Pack(S.s1(Byte3(i0)), S.s2(Byte2(i0)), S.s3(Byte1(i0)), S.s4(Byte0(i0))),
        Pack(S.s2(Byte3(i1)), S.s3(Byte2(i1)), S.s4(Byte1(i1)), S.s1(Byte0(i1))))
  }

  /** FL and FLInv on one half. */
  function FL(x: Pair, k: Pair): Pair {
    var r := Xw(Rotl1(Aw(x.l, k.l)), x.r);
    Pair(Xw(Ow(r, k.r), x.l), r)
  }

  function FLInv(y: Pair, k: Pair): Pair {
    var l := Xw(Ow(y.r, k.r), y.l);
    Pair(l, Xw(Rotl1(Aw(l, k.l)), y.r))
  }

  lemma XorTwice(x: word, y: word)
    ensures Xw(Xw(x, y), y) == x && Xw(y, Xw(y, x)) == x
  {}

  /** FL and FLInv undo each other. */
  lemma FLInverse(x: Pair, k: Pair)
    ensures FLInv(FL(x, k), k) == x && FL(FLInv(x, k), k) == x
  {
    hide Rotl1, Xw, Aw, Ow;
    var r, t := Xw(Rotl1(Aw(x.l, k.l)), x.r), Rotl1(Aw(x.l, k.l));
    XorTwice(x.l, Ow(r, k.r)); XorTwice(x.r, t);
    var l := Xw(Ow(x.r, k.r), x.l);
    XorTwice(x.r, Rotl1(Aw(l, k.l))); XorTwice(x.l, Ow(x.r, k.r));
  }

  // ------------------------------------------------------------ steps of the network

  function Left(x: State): Pair { Pair(x.a, x.b) }
  function Right(x: State): Pair { Pair(x.c, x.d) }
  function Xor(x: Pair, y: Pair): Pair { Pair(Xw(x.l, y.l), Xw(x.r, y.r)) }
  function Make(x: Pair, y: Pair): State { State(x.l, x.r, y.l, y.r) }

  /** Left and right halves exchanged. */
  function Swap(x: State): State { State(x.c, x.d, x.a, x.b) }

  /** Step i: rounds 0 .. 5 change the right and the left half in turn, then FL works
      on the left and FLInv on the right half. */
  function Step(S: Boxes, i: nat, k: Pair, x: State): State {
    var j := i % 8;
    if j == 6 then Make(FL(Left(x), k), Right(x))
    else if j == 7 then Make(Left(x), FLInv(Right(x), k))
    else if j % 2 == 0 then Make(Left(x), Xor(Right(x), Round(S, Left(x), k)))
    else Make(Xor(Left(x), Round(S, Right(x), k)), Right(x))
  }

  /** With halves exchanged, the step at the mirrored position undoes a step. */
  lemma StepUndone(S: Boxes, i: nat, j: nat, k: Pair, x: State)
    requires (i + j) % 8 == 5
    ensures Step(S, j, k, Swap(Step(S, i, k, x))) == Swap(x)
  {
    hide Round, FL, FLInv, Xor, Xw;
    Mirror(i, j);
    var l, r := Left(x), Right(x);
    if i % 8 >= 6 { FLInverse(l, k); FLInverse(r, k); }
    else { PairTwice(r, Round(S, l, k)); PairTwice(l, Round(S, r, k)); }
  }

  lemma PairTwice(x: Pair, y: Pair)
    ensures Xor(Xor(x, y), y) == x
  {
    hide Xw;
    XorTwice(x.l, y.l); XorTwice(x.r, y.r);
  }

  lemma Mirror(i: nat, j: nat)
    requires (i + j) % 8 == 5
    ensures i % 8 == 6 <==> j % 8 == 7
    ensures i % 8 == 7 <==> j % 8 == 6
    ensures i % 8 < 6 ==> (i % 8) % 2 != (j % 8) % 2
  {}

  /** The first n steps with keys ks. */
  function Steps(S: Boxes, ks: seq<Pair>, n: nat, x: State): State
    requires n <= |ks|
  {
    if n == 0 then x else Step(S, n - 1, ks[n - 1], Steps(S, ks, n - 1, x))
  }

  /** Keys in reverse order. */
  ghost predicate Reversed(ks: seq<Pair>, rs: seq<Pair>) {
    |ks| == |rs| && forall i :: 0 <= i < |ks| ==> rs[i] == ks[|ks| - 1 - i]
  }

  /** m steps with the reversed keys take back the last m steps. */
  lemma {:induction false} StepsUndone(S: Boxes, ks: seq<Pair>, rs: seq<Pair>, m: nat, x: State)
    requires Reversed(ks, rs) && |ks| % 8 == 6 && m <= |ks|
    ensures Steps(S, rs, m, Swap(Steps(S, ks, |ks|, x))) == Swap(Steps(S, ks, |ks| - m, x))
    decreases m
  {
    hide Step, Steps;
    if m == 0 {
      NoSteps(S, rs, Swap(Steps(S, ks, |ks|, x)));
    } else {
      StepsUndone(S, ks, rs, m - 1, x);
      var i := |ks| - m;
      StepsNext(S, ks, i, x);
      StepsNext(S, rs, m - 1, Swap(Steps(S, ks, |ks|, x)));
      StepUndone(S, i, m - 1, ks[i], Steps(S, ks, i, x));
    }
  }

  // ---------------------------------------------------------------- key layout

  /** Pair j of the round keys. */
  function PairAt(rk: seq<word>, j: nat): Pair
    requires 2 * j + 1 < |rk|
  {
    Pair(rk[2 * j], rk[2 * j + 1])
  }

  /** Steps for nr groups of rounds: 8*nr - 2 of them, between two whitening pairs. */
  function StepCount(nr: nat): nat
    requires nr >= 1
  {
    8 * nr - 2
  }

  function StepKeys(rk: seq<word>, nr: nat): (ks: seq<Pair>)
    requires nr >= 1 && 2 * (StepCount(nr) + 4) <= |rk|
    ensures |ks| == StepCount(nr) && forall i :: 0 <= i < |ks| ==> ks[i] == PairAt(rk, i + 2)
  {
    seq(StepCount(nr), i requires 0 <= i < StepCount(nr) => PairAt(rk, i + 2))
  }

  /** Four words of whitening key. */
  function Whiten(x: State, k: seq<word>): State
    requires |k| == 4
  {
    State(Xw(x.a, k[0]), Xw(x.b, k[1]), Xw(x.c, k[2]), Xw(x.d, k[3]))
  }

  function FirstKeys(rk: seq<word>): seq<word>
    requires |rk| >= 4
  {
    rk[..4]
  }

  function LastKeys(rk: seq<word>, nr: nat): (k: seq<word>)
    requires nr >= 1 && 2 * (StepCount(nr) + 4) <= |rk|
    ensures |k| == 4
  {
    rk[2 * (StepCount(nr) + 2)..2 * (StepCount(nr) + 4)]
  }

  /** The network: whitening, steps, and whitening of the exchanged halves. */
  function Network(S: Boxes, rk: seq<word>, nr: nat, x: State): State
    requires nr >= 1 && 2 * (StepCount(nr) + 4) <= |rk|
  {
    Whiten(Swap(Steps(S, StepKeys(rk, nr), StepCount(nr), Whiten(x, FirstKeys(rk)))), LastKeys(rk, nr))
  }

  /** The order mbedtls_camellia_setkey_dec gives the pairs: the final whitening pairs
      first, then the step keys backwards, then the initial whitening pairs. */
  ghost predicate DecOrder(rk: seq<word>, dk: seq<word>, nr: nat) {
    && nr >= 1 && 2 * (StepCount(nr) + 4) <= |rk| && 2 * (StepCount(nr) + 4) <= |dk|
    && FirstKeys(dk) == LastKeys(rk, nr) && LastKeys(dk, nr) == FirstKeys(rk)
    && Reversed(StepKeys(rk, nr), StepKeys(dk, nr))
  }

  lemma WhitenTwice(x: State, k: seq<word>)
    requires |k| == 4
    ensures Whiten(Whiten(x, k), k) == x
  {
    hide Xw;
    XorTwice(x.a, k[0]); XorTwice(x.b, k[1]); XorTwice(x.c, k[2]); XorTwice(x.d, k[3]);
  }

  /** Decryption undoes encryption. */
  lemma NetworkUndone(S: Boxes, rk: seq<word>, dk: seq<word>, nr: nat, x: State)
    requires DecOrder(rk, dk, nr)
    ensures Network(S, dk, nr, Network(S, rk, nr, x)) == x
  {
    hide Steps, Whiten;
    var n := StepCount(nr);
    var ks, rs := StepKeys(rk, nr), StepKeys(dk, nr);
    var y := Whiten(x, FirstKeys(rk));
    WhitenTwice(Swap(Steps(S, ks, n, y)), LastKeys(rk, nr));
    StepsUndone(S, ks, rs, n, y);
    NoSteps(S, ks, y);
    WhitenTwice(x, FirstKeys(rk));
  }

  lemma StepsNext(S: Boxes, ks: seq<Pair>, n: nat, x: State)
    requires n < |ks|
    ensures Steps(S, ks, n + 1, x) == Step(S, n, ks[n], Steps(S, ks, n, x))
  {}

  lemma NoSteps(S: Boxes, ks: seq<Pair>, x: State)
    ensures Steps(S, ks, 0, x) == x
  {}

  // ---------------------------------------------------------------- the routines

  /** mbedtls_camellia_context */
  class Context {
    var nr: nat
    var rk: seq<word>

    constructor ()
      ensures nr == 0 && |rk| == 68
    {
      nr, rk := 0, seq(68, _ => 0);
    }

    /** 3 groups of rounds for 128-bit keys, 4 for 192 and 256. */
    ghost predicate Valid()
      reads this
    {
      (nr == 3 || nr == 4) && |rk| == 68
    }
  }

  /** The last m of the n step pairs, last first. */
  function LastPairs(rk: seq<word>, n: nat, m: nat): (r: seq<word>)
    requires m <= n && 2 * (n + 2) <= |rk|
    ensures |r| == 2 * m && forall k :: 0 <= k < m ==> PairAt(r, k) == PairAt(rk, n + 1 - k)
  {
    if m == 0 then [] else
      var r := LastPairs(rk, n, m - 1);
      var s := r + [rk[2 * (n + 2 - m)], rk[2 * (n + 2 - m) + 1]];
      assert forall k :: 0 <= k < m - 1 ==> PairAt(s, k) == PairAt(r, k);
      s
  }

  lemma DecOrderOf(rk: seq<word>, dk: seq<word>, nr: nat)
    requires nr >= 1 && 2 * (StepCount(nr) + 4) <= |rk|
    requires 2 * (StepCount(nr) + 4) <= |dk|
    requires dk[..2 * (StepCount(nr) + 4)] == LastKeys(rk, nr) + LastPairs(rk, StepCount(nr), StepCount(nr)) + FirstKeys(rk)
    ensures DecOrder(rk, dk, nr)
  {
    var n := StepCount(nr);
    var p := LastPairs(rk, n, n);
    var ks, rs := StepKeys(rk, nr), StepKeys(dk, nr);
    hide LastPairs, LastKeys, FirstKeys, StepKeys;
    WhiteningEnds(dk, LastKeys(rk, nr), p, FirstKeys(rk), nr);
    forall i | 0 <= i < n ensures rs[i] == ks[n - 1 - i] {
      PairInside(dk, dk[..2 * (n + 4)], LastKeys(rk, nr), p, FirstKeys(rk), i);
    }
  }

  lemma WhiteningEnds(dk: seq<word>, lead: seq<word>, p: seq<word>, end: seq<word>, nr: nat)
    requires nr >= 1 && |lead| == 4 && |end| == 4 && |p| == 2 * StepCount(nr) && 2 * (StepCount(nr) + 4) <= |dk|
    requires dk[..2 * (StepCount(nr) + 4)] == lead + p + end
    ensures FirstKeys(dk) == lead && LastKeys(dk, nr) == end
  {
    var e := 2 * (StepCount(nr) + 4);
    assert FirstKeys(dk) == dk[..e][..4];
    assert LastKeys(dk, nr) == dk[..e][e - 4..];
  }

  /** A pair behind four words. */
  lemma PairInside(dk: seq<word>, d: seq<word>, lead: seq<word>, p: seq<word>, end: seq<word>, i: nat)
    requires d == lead + p + end && |lead| == 4 && 2 * i + 1 < |p| && |d| <= |dk| && d == dk[..|d|]
    ensures PairAt(dk, i + 2) == PairAt(p, i)
  {
    assert dk[2 * i + 4] == d[2 * i + 4] == p[2 * i];
    assert dk[2 * i + 5] == d[2 * i + 5] == p[2 * i + 1];
  }

  /** mbedtls_camellia_setkey_dec, given the encryption schedule in cty: RK advances
      over the words of out. */
  method SetKeyDec(ctx: Context, cty: Context)
    requires cty.Valid() && |ctx.rk| == 68
    modifies ctx
    ensures ctx.Valid() && ctx.nr == old(cty.nr) && DecOrder(old(cty.rk), ctx.rk, ctx.nr)
  {
    hide LastPairs;
    var nr, src := cty.nr, cty.rk;
    ctx.nr := nr;
    var idx := if nr == 4 then 1 else 0;
    ghost var n := StepCount(nr);
    var sk := 24 * 2 + 8 * idx * 2;
    var out := src[sk..sk + 4];
    sk := sk + 4;
    var i := 22 + 8 * idx;
    sk := sk - 6;
    NoPairs(src, n);
    while i > 0
      invariant 0 <= i <= n == 22 + 8 * idx && sk == 2 * i + 2 && |ctx.rk| == 68 && ctx.nr == nr
      invariant out == LastKeys(src, nr) + LastPairs(src, n, n - i)
    {
      MorePairs(src, n, n - i);
      out := out + src[sk..sk + 2];
      sk := sk + 2;
      i, sk := i - 1, sk - 4;
    }
    sk := sk - 2;
    out := out + src[sk..sk + 4];
    ctx.rk := out + ctx.rk[|out|..];
    assert ctx.rk[..2 * (n + 4)] == out;
    DecOrderOf(src, ctx.rk, nr);
  }

  lemma NoPairs(rk: seq<word>, n: nat)
    requires 2 * (n + 2) <= |rk|
    ensures LastPairs(rk, n, 0) == []
  {}

  lemma MorePairs(rk: seq<word>, n: nat, m: nat)
    requires m < n && 2 * (n + 2) <= |rk|
    ensures LastPairs(rk, n, m + 1) == LastPairs(rk, n, m) + rk[2 * (n + 1 - m)..2 * (n + 1 - m) + 2]
  {
    assert rk[2 * (n + 1 - m)..2 * (n + 1 - m) + 2] == [rk[2 * (n + 1 - m)], rk[2 * (n + 1 - m) + 1]];
  }

  /** One round into the right half and one into the left. */
  method TwoRounds(S: Boxes, x: State, rk: seq<word>, o: nat, ghost ks: seq<Pair>, ghost i: nat, ghost x0: State) returns (y: State)
    requires o + 4 <= |rk| && i % 8 < 6 && i % 2 == 0 && i + 2 <= |ks| && x == Steps(S, ks, i, x0)
    requires ks[i] == Pair(rk[o], rk[o + 1]) && ks[i + 1] == Pair(rk[o + 2], rk[o + 3])
    ensures y == Steps(S, ks, i + 2, x0)
  {
    hide Round, Xw, Steps;
    StepsNext(S, ks, i, x0); StepsNext(S, ks, i + 1, x0);
    OddStep(i);
    var f := Round(S, Pair(x.a, x.b), Pair(rk[o], rk[o + 1]));
    y := x.(c := Xw(x.c, f.l), d := Xw(x.d, f.r));
    var g := Round(S, Pair(y.c, y.d), Pair(rk[o + 2], rk[o + 3]));
    y := y.(a := Xw(y.a, g.l), b := Xw(y.b, g.r));
  }

  lemma OddStep(i: nat)
    requires i % 8 < 6 && i % 2 == 0
    ensures (i % 8) % 2 == 0 && (i + 1) % 8 == i % 8 + 1 && (i + 1) % 8 < 6
  {
    DivModUnique(i + 1, 8, i / 8, i % 8 + 1);
  }

  lemma InGroup(i: nat, k: nat)
    requires i % 8 == 0 && k < 3
    ensures (i + 2 * k) % 8 == 2 * k && (i + 2 * k) % 2 == 0
  {
    DivModUnique(i + 2 * k, 8, i / 8, 2 * k);
    DivModUnique(i + 2 * k, 2, 4 * (i / 8) + k, 0);
  }

  /** Six rounds. */
  method SixRounds(S: Boxes, x: State, rk: seq<word>, o: nat, ghost ks: seq<Pair>, ghost i: nat, ghost x0: State) returns (y: State)
    requires i % 8 == 0 && i + 6 <= |ks| && x == Steps(S, ks, i, x0) && o == 2 * i + 4 && o + 12 <= |rk|
    requires forall j :: 0 <= j < |ks| && 2 * j + 5 < |rk| ==> ks[j] == PairAt(rk, j + 2)
    ensures y == Steps(S, ks, i + 6, x0)
  {
    hide Steps, Step;
    y := x;
    for k := 0 to 3
      invariant y == Steps(S, ks, i + 2 * k, x0)
    {
      assert ks[i + 2 * k] == PairAt(rk, i + 2 * k + 2) && ks[i + 2 * k + 1] == PairAt(rk, i + 2 * k + 1 + 2);
      InGroup(i, k);
      y := TwoRounds(S, y, rk, o + 4 * k, ks, i + 2 * k, x0);
    }
  }

  /** FL into the left half and its inverse into the right. */
  method Layer(S: Boxes, x: State, rk: seq<word>, o: nat, ghost ks: seq<Pair>, ghost i: nat, ghost x0: State) returns (y: State)
    requires i % 8 == 0 && i + 8 <= |ks| && x == Steps(S, ks, i + 6, x0) && o + 4 <= |rk|
    requires ks[i + 6] == Pair(rk[o], rk[o + 1]) && ks[i + 7] == Pair(rk[o + 2], rk[o + 3])
    ensures y == Steps(S, ks, i + 8, x0)
  {
    hide Steps, FL, FLInv, Step;
    StepsNext(S, ks, i + 6, x0); StepsNext(S, ks, i + 7, x0);
    LayerSteps(S, i, ks, x);
    var f := FL(Pair(x.a, x.b), Pair(rk[o], rk[o + 1]));
    y := x.(a := f.l, b := f.r);
    var g := FLInv(Pair(y.c, y.d), Pair(rk[o + 2], rk[o + 3]));
    y := y.(c := g.l, d := g.r);
  }

  /** The part of mbedtls_camellia_crypt_ecb that works on the words of a block. */
  method CryptWords(S: Boxes, ctx: Context, input: State) returns (output: State)
    requires ctx.Valid()
    ensures output == Network(S, ctx.rk, ctx.nr, input)
  {
    hide Steps, Whiten, FL, FLInv, Xw, Round, Step;
    var nr, rk := ctx.nr, ctx.rk;
    ghost var ks := StepKeys(rk, ctx.nr);
    var x := Whiten(input, rk[..4]);
    ghost var x0 := x;
    var o := 4;
    NoSteps(S, ks, x0);
    while nr > 0
      invariant 0 <= nr <= ctx.nr
      invariant o == (if nr > 0 then 4 + 16 * (ctx.nr - nr) else 2 * (StepCount(ctx.nr) + 2))
      invariant x == Steps(S, ks, if nr > 0 then 8 * (ctx.nr - nr) else StepCount(ctx.nr), x0)
    {
      ghost var i := 8 * (ctx.nr - nr);
      nr := nr - 1;
      x := SixRounds(S, x, rk, o, ks, i, x0);
      o := o + 12;
      if nr > 0 {
        x := Layer(S, x, rk, o, ks, i, x0);
        o := o + 4;
      }
    }
    output := Whiten(State(x.c, x.d, x.a, x.b), rk[o..o + 4]);
  }

  /** The two steps between groups of rounds. */
  lemma LayerSteps(S: Boxes, i: nat, ks: seq<Pair>, x: State)
    requires i % 8 == 0 && i + 8 <= |ks|
    ensures Step(S, i + 7, ks[i + 7], Step(S, i + 6, ks[i + 6], x)) == Make(FL(Left(x), ks[i + 6]), FLInv(Right(x), ks[i + 7]))
  {
    hide FL, FLInv, Round, Xor;
    DivModUnique(i + 6, 8, i / 8, 6); DivModUnique(i + 7, 8, i / 8, 7);
  }

  // ------------------------------------------------------------------ sixteen bytes

  /** A byte, kept in a word. */
  type uchar = x: word | x <= 0xFF

  type Quad = s: seq<uchar> | |s| == 4 witness [0, 0, 0, 0]
  type Octets = s: seq<uchar> | |s| == 16 witness seq(16, _ => 0)

  /** MBEDTLS_GET_UINT32_BE */
  function GetWord(w: Quad): word {
    var p: word, q: word, r: word, s: word := w[0], w[1], w[2], w[3];
    (p << 24) | (q << 16) | (r << 8) | s
  }

  /** MBEDTLS_PUT_UINT32_BE */
  function PutWord(x: word): Quad { [x >> 24, (x >> 16) & 0xFF, (x >> 8) & 0xFF, x & 0xFF] }

  function Load(b: Octets): State { State(GetWord(b[..4]), GetWord(b[4..8]), GetWord(b[8..12]), GetWord(b[12..])) }

  function Store(x: State): Octets { PutWord(x.a) + PutWord(x.b) + PutWord(x.c) + PutWord(x.d) }

  lemma GetPut(x: word)
    ensures GetWord(PutWord(x)) == x
  {}

  lemma PutGet(w: Quad)
    ensures PutWord(GetWord(w)) == w
  {
    PutGetBits(w[0], w[1], w[2], w[3]);
  }

  lemma PutGetBits(p: word, q: word, r: word, s: word)
    requires p <= 0xFF && q <= 0xFF && r <= 0xFF && s <= 0xFF
    ensures var x := (p << 24) | (q << 16) | (r << 8) | s;
      x >> 24 == p && (x >> 16) & 0xFF == q && (x >> 8) & 0xFF == r && x & 0xFF == s
  {}

  /** Loading and storing undo each other. */
  lemma LoadOfStore(x: State)
    ensures Load(Store(x)) == x
  {
    hide GetWord, PutWord;
    var b := Store(x);
    assert b[..4] == PutWord(x.a) && b[4..8] == PutWord(x.b) && b[8..12] == PutWord(x.c) && b[12..] == PutWord(x.d);
    GetPut(x.a); GetPut(x.b); GetPut(x.c); GetPut(x.d);
  }

  lemma StoreOfLoad(b: Octets)
    ensures Store(Load(b)) == b
  {
    hide GetWord, PutWord;
    PutGet(b[..4]); PutGet(b[4..8]); PutGet(b[8..12]); PutGet(b[12..]);
    assert b[..4] + b[4..8] + b[8..12] + b[12..] == b;
  }

  const CAMELLIA_DECRYPT := 0
  const CAMELLIA_ENCRYPT := 1

  /** mbedtls_camellia_crypt_ecb; the mode does not enter but must be one of the two. */
  method CryptEcb(S: Boxes, ctx: Context, mode: int, input: Octets) returns (st: Status, output: Octets)
    requires ctx.Valid()
    ensures st == if mode == CAMELLIA_ENCRYPT || mode == CAMELLIA_DECRYPT then Ok else Fail(ERR_CAMELLIA_BAD_INPUT_DATA)
    ensures st.Ok? ==> output == Store(Network(S, ctx.rk, ctx.nr, Load(input)))
  {
    hide Network;
    output := input;
    if mode != CAMELLIA_ENCRYPT && mode != CAMELLIA_DECRYPT { return Fail(ERR_CAMELLIA_BAD_INPUT_DATA), output; }
    var x := CryptWords(S, ctx, Load(input));
    return Ok, Store(x);
  }

  /** Encryption, then decryption with the context derived from it. */
  method RoundTrip(S: Boxes, enc: Context, dec: Context, input: Octets) returns (st: Status, back: Octets)
    requires enc.Valid() && |dec.rk| == 68 && enc != dec
    modifies dec
    ensures st.Ok? && back == input
  {
    hide Network, DecOrder, Load, Store;
    back := input;
    SetKeyDec(dec, enc);
    ghost var x := Load(input);
    NetworkUndone(S, enc.rk, dec.rk, enc.nr, x);
    StoreOfLoad(input);
    LoadOfStore(Network(S, enc.rk, enc.nr, x));
    var c :- CryptEcb(S, enc, CAMELLIA_ENCRYPT, input);
    back :- CryptEcb(S, dec, CAMELLIA_DECRYPT, c);
    st := Ok;
  }
}
