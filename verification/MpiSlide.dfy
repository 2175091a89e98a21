/** bignum.c: sliding-window modular exponentiation (HAC 14.85). */
module MpiSlide {
  import opened Arith
  import opened Limbs
  import opened Bits
  import opened Mont
  import opened MontRep
  import opened ExpCore
  import opened ReturnCodes
  import opened MpiObject
  import opened MpiExp

  // ------------------------------------------------------------ filling the table

  /** W[i] = W[i - 1] * W[1] */
  method FillNext(W: seq<Mpi>, i: nat, N: Mpi, mm: limb, T: Mpi, ghost a: int) returns (st: Status)
    requires 2 <= i < |W| && W[i].Valid() && Ready(N, mm, T) && |N.p| + 1 <= MAX_LIMBS
    requires W[i] != W[i - 1] && W[i] != W[1] && N !in W && T !in W
    requires Stands(W[i - 1], Pow(a, i - 1), N) && Stands(W[1], a, N)
    modifies W[i], T
    ensures st.Ok? && Ready(N, mm, T) && Stands(W[i], Pow(a, i), N)
  {
    hide Val, Rep, MontConst, Pow;
    :- CopyEntry(W[i], W[i - 1], N, Pow(a, i - 1));
    MulStands(W[i], W[1], N, mm, T, Pow(a, i - 1), a);
    PowOneMore(a, i - 1);
    st := Ok;
  }

  /** The upper half of the table, when the window has more than one bit. */
  method FillTable(W: seq<Mpi>, w: nat, WW: Mpi, N: Mpi, mm: limb, T: Mpi, ghost a: int) returns (st: Status)
    requires w >= 1 && |W| == Pow2(w) && Separate(W, WW, N, T) && Ready(N, mm, T) && |N.p| + 1 <= MAX_LIMBS
    requires |W| >= 2 && (forall i :: 1 <= i < |W| ==> W[i].Valid()) && Stands(W[1], a, N)
    modifies set i | 2 <= i < |W| :: W[i]
    modifies T
    ensures st.Ok? && Ready(N, mm, T) && Table(W, w, a, N)
  {
    hide Val, Rep, MontConst, Pow, Pow2;
    PowFirst(a);
    if w == 1 {
      Pow2Zero();
      return Ok;
    }
    var j := Pow2(w - 1);
    HalfTable(w);
    :- CopyEntry(W[j], W[1], N, a);
    SquareTimes(W[j], w - 1, N, mm, T, a);
    for i := j + 1 to |W|
      invariant Ready(N, mm, T) && Stands(W[1], a, N)
      invariant forall k :: 1 <= k < |W| ==> W[k].Valid()
      invariant forall k :: j <= k < i ==> Stands(W[k], Pow(a, k), N)
    {
      :- FillNext(W, i, N, mm, T, a);
    }
    st := Ok;
  }

  lemma HalfTable(w: nat)
    requires w >= 2
    ensures 2 <= Pow2(w - 1) < Pow2(w) == 2 * Pow2(w - 1)
  {
    PowMono(2, 1, w - 1);
    Pow2Zero();
  }

  // ------------------------------------------------------- the exponent scanner

  /** Where the scan stands: next limb and bit, state, and the bits in the window,
      kept at the top of its w positions. */
  datatype Slide = Slide(l: nat, b: nat, state: nat, nbits: nat, window: nat)

  /** X stands for a^ex; ex followed by the window's bits is what has been read of E.
      A window always starts with a 1 bit. */
  ghost predicate SlideOk(p: Slide, e: seq<limb>, w: nat, ex: nat, bits: nat) {
    && p.b < BI_L && p.l <= |e| && (p.b > 0 ==> p.l < |e|)
    && p.state <= 2 && p.nbits < w && (p.state == 2 <==> p.nbits > 0)
    && p.window == bits * Pow2(w - p.nbits) && bits < Pow2(p.nbits) && (p.nbits > 0 ==> bits >= Pow2(p.nbits - 1))
    && ex * Pow2(p.nbits) + bits == High(Val(e), Unread(p.l, p.b))
    && (p.state == 0 ==> ex == 0)
  }

  /** One more bit joins the window. */
  lemma WindowGrows(bits: nat, nbits: nat, w: nat, ei: nat, ex: nat)
    requires nbits < w && ei <= 1 && bits < Pow2(nbits) && (nbits > 0 ==> bits >= Pow2(nbits - 1)) && (nbits == 0 ==> ei == 1)
    ensures bits * Pow2(w - nbits) >= 0 && ei * Pow2(w - (nbits + 1)) >= 0
    ensures BitOr(bits * Pow2(w - nbits), ei * Pow2(w - (nbits + 1))) == (2 * bits + ei) * Pow2(w - (nbits + 1))
    ensures Pow2(nbits) <= 2 * bits + ei < Pow2(nbits + 1)
    ensures ex * Pow2(nbits + 1) + (2 * bits + ei) == 2 * (ex * Pow2(nbits) + bits) + ei
  {
    Pow2Add(1, nbits); Pow2Add(1, w - (nbits + 1)); Pow2Zero();
    if nbits > 0 { Pow2Add(1, nbits - 1); }
    hide Pow2;
    var q := Pow2(w - (nbits + 1));
    MulSign(bits, 2 * q); MulSign(ei, q);
    MulAssoc(bits, 2, q); MulDist(q, 2 * bits, ei);
    MulMonoStrict(ei, 2, q);
    DivModUnique(bits * (2 * q), 2 * q, bits, 0);
    BitOrDisjoint(bits * (2 * q), ei * q, w - nbits);
    MulAssoc(ex, 2, Pow2(nbits)); MulAssoc(2, ex, Pow2(nbits));
  }

  // ------------------------------------------------------ lookup and multiply

  /** W[0] *= W[idx], through a lookup of the whole table. */
  method LookupMul(W: seq<Mpi>, idx: nat, WW: Mpi, N: Mpi, mm: limb, T: Mpi, ghost x: int, ghost y: int) returns (st: Status)
    requires idx < |W| && Separate(W, WW, N, T) && Ready(N, mm, T) && WW.Valid()
    requires (forall i :: 0 <= i < |W| ==> W[i].Valid()) && Stands(W[0], x, N) && Stands(W[idx], y, N)
    modifies W[0], WW, T
    ensures st.Ok? && Ready(N, mm, T) && WW.Valid() && Stands(W[0], x * y, N)
  {
    hide Val, Rep, MontConst;
    :- Select(WW, W, idx);
    MulStands(W[0], WW, N, mm, T, x, y);
    st := Ok;
  }

  /** The accumulator, the table and the scratch objects between steps. */
  ghost predicate Machine(W: seq<Mpi>, w: nat, WW: Mpi, N: Mpi, mm: limb, T: Mpi, a: int, ex: nat)
    requires w >= 1
    reads set i | 0 <= i < |W| :: W[i]
    reads WW, N, T
  {
    && Separate(W, WW, N, T) && Ready(N, mm, T) && WW.Valid()
    && Table(W, w, a, N) && Stands(W[0], Pow(a, ex), N)
  }

  /** X = X^2 */
  method SquareX(W: seq<Mpi>, w: nat, WW: Mpi, N: Mpi, mm: limb, T: Mpi, ghost a: int, ghost ex: nat) returns (st: Status)
    requires w >= 1 && Machine(W, w, WW, N, mm, T, a, ex)
    modifies W[0], WW, T
    ensures st.Ok? && Machine(W, w, WW, N, mm, T, a, 2 * ex)
  {
    hide Val, Rep, MontConst, Pow;
    st := LookupMul(W, 0, WW, N, mm, T, Pow(a, ex), Pow(a, ex));
    PowAdd(a, ex, ex);
    st := Ok;
  }

  /** X = X * W[idx] for an entry that is filled in. */
  method MulX(W: seq<Mpi>, w: nat, idx: nat, WW: Mpi, N: Mpi, mm: limb, T: Mpi, ghost a: int, ghost ex: nat) returns (st: Status)
    requires w >= 1 && Machine(W, w, WW, N, mm, T, a, ex) && 1 <= idx < |W| && Filled(idx, w)
    modifies W[0], WW, T
    ensures st.Ok? && Machine(W, w, WW, N, mm, T, a, ex + idx)
  {
    hide Val, Rep, MontConst, Pow, Pow2;
    st := LookupMul(W, idx, WW, N, mm, T, Pow(a, ex), Pow(a, idx));
    PowAdd(a, ex, idx);
    st := Ok;
  }

  /** A full window: w squarings and one multiplication. */
  method FlushWindow(W: seq<Mpi>, w: nat, window: nat, WW: Mpi, N: Mpi, mm: limb, T: Mpi, ghost a: int, ghost ex: nat) returns (st: Status)
    requires w >= 1 && Machine(W, w, WW, N, mm, T, a, ex) && Pow2(w - 1) <= window < Pow2(w)
    modifies W[0], WW, T
    ensures st.Ok? && 0 <= ex * Pow2(w) && Machine(W, w, WW, N, mm, T, a, ex * Pow2(w) + window)
  {
    hide Val, Rep, MontConst, Pow, Pow2;
    ghost var x := ex;
    Pow2Zero();
    for i := 0 to w
      invariant x == ex * Pow2(i) && Machine(W, w, WW, N, mm, T, a, x)
    {
      :- SquareX(W, w, WW, N, mm, T, a, x);
      Doubled(ex, i);
      x := 2 * x;
    }
    :- MulX(W, w, window, WW, N, mm, T, a, x);
    st := Ok;
  }

  lemma Doubled(ex: nat, i: nat)
    ensures 0 <= ex * Pow2(i) && 2 * (ex * Pow2(i)) == ex * Pow2(i + 1)
  {
    Pow2Add(1, i); Pow2Zero();
    hide Pow2;
    MulSign(ex, Pow2(i));
    MulAssoc(ex, 2, Pow2(i)); MulAssoc(2, ex, Pow2(i));
  }

  // ------------------------------------------------------------- the main loop

  /** What joining bit ei does to a window, and a full window to the exponent. */
  lemma SlideJoin(p: Slide, q: Slide, e: seq<limb>, w: nat, ex: nat, bits: nat, ei: nat)
    requires SlideOk(p, e, w, ex, bits) && ei <= 1 && (p.nbits == 0 ==> ei == 1)
    requires q.b < BI_L && q.l < |e|
    requires High(Val(e), Unread(q.l, q.b)) == 2 * High(Val(e), Unread(p.l, p.b)) + ei
    ensures var n := p.nbits + 1;
      && ei * Pow2(w - n) >= 0 && BitOr(p.window, ei * Pow2(w - n)) == (2 * bits + ei) * Pow2(w - n)
      && Pow2(n - 1) <= 2 * bits + ei < Pow2(n)
      && 0 <= ex * Pow2(n) && ex * Pow2(n) + (2 * bits + ei) == High(Val(e), Unread(q.l, q.b))
  {
    hide Val, High, Unread, Pow2, BitOr;
    MulSign(ex, Pow2(p.nbits + 1));
    WindowGrows(bits, p.nbits, w, ei, ex);
  }

  /** One bit of the exponent. */
  method SlideStep(p: Slide, W: seq<Mpi>, w: nat, WW: Mpi, E: Mpi, N: Mpi, mm: limb, T: Mpi, ghost a: int, ghost ex0: nat, ghost bits0: nat)
    returns (st: Status, q: Slide, ghost ex: nat, ghost bits: nat)
    requires w >= 1 && |W| >= 1 && Machine(W, w, WW, N, mm, T, a, ex0) && E !in W && E != WW && E != T
    requires SlideOk(p, E.p, w, ex0, bits0) && !(p.b == 0 && p.l == 0)
    modifies W[0], WW, T
    ensures st.Ok? && Machine(W, w, WW, N, mm, T, a, ex) && SlideOk(q, E.p, w, ex, bits)
    ensures Unread(q.l, q.b) < Unread(p.l, p.b)
  {
    hide Val, Rep, MontConst, Pow, Pow2, High, Unread, ExponentBit, BitOr, Machine;
    Pow2Zero();
    UnreadStep(p.l, p.b);
    var l, b := p.l, p.b;
    if b == 0 { l, b := l - 1, BI_L; }
    b := b - 1;
    q, ex, bits := p.(l := l, b := b), ex0, bits0;
    HighStep(E.p, l, b);
    BitIsBit(E.p[l], b);
    var ei := ExponentBit(E.p[l], b);
    if ei == 0 && p.state == 0 {
      return Ok, q, ex, bits;
    }
    if ei == 0 && p.state == 1 {
      :- SquareX(W, w, WW, N, mm, T, a, ex);
      ex := 2 * ex;
      return Ok, q, ex, bits;
    }
    var nbits := p.nbits + 1;
    SlideJoin(p, q, E.p, w, ex, bits, ei);
    var window := BitOr(p.window, ei * Pow2(w - nbits));
    bits := 2 * bits + ei;
    q := q.(state := 2, nbits := nbits, window := window);
    if nbits == w {
      :- FlushWindow(W, w, window, WW, N, mm, T, a, ex);
      ex, bits := ex * Pow2(w) + bits, 0;
      MulSign(0, Pow2(w));
      q := q.(state := 1, nbits := 0, window := 0);
    }
    st := Ok;
  }

  lemma BitIsBit(x: limb, b: nat)
    ensures 0 <= ExponentBit(x, b) <= 1
  {}

  /** All bits of E, most significant first. */
  method SlideAll(W: seq<Mpi>, w: nat, WW: Mpi, E: Mpi, N: Mpi, mm: limb, T: Mpi, ghost a: int)
    returns (st: Status, p: Slide, ghost ex: nat, ghost bits: nat)
    requires w >= 1 && |W| >= 1 && Machine(W, w, WW, N, mm, T, a, 0) && E !in W && E != WW && E != T
    modifies W[0], WW, T
    ensures st.Ok? && Machine(W, w, WW, N, mm, T, a, ex) && SlideOk(p, E.p, w, ex, bits) && p.b == 0 && p.l == 0
  {
    hide Val, Rep, MontConst, Pow, Pow2, High, Unread, SlideOk, Machine;
    p, ex, bits := Slide(|E.p|, 0, 0, 0, 0), 0, 0;
    SlideStart(E.p, w);
    while !(p.b == 0 && p.l == 0)
      invariant Machine(W, w, WW, N, mm, T, a, ex) && SlideOk(p, E.p, w, ex, bits)
      decreases Unread(p.l, p.b)
    {
      p, ex, bits :- SlideStep(p, W, w, WW, E, N, mm, T, a, ex, bits);
    }
    st := Ok;
  }

  lemma SlideStart(e: seq<limb>, w: nat)
    requires w >= 1
    ensures SlideOk(Slide(|e|, 0, 0, 0, 0), e, w, 0, 0)
  {
    HighEnds(e);
    Pow2Zero();
    hide Val, High, Unread, Pow2;
    MulSign(0, Pow2(w));
  }

  // -------------------------------------------------------- the remaining bits

  /** After i + 1 shifts, bit w of the window is bit m = nbits - i - 1 of its content. */
  lemma TailBit(bits: nat, m: nat, w: nat)
    requires m <= w
    ensures bits * Pow2(w - m) >= 0
    ensures BitAnd(bits * Pow2(w - m), Pow2(w)) != 0 <==> (bits / Pow2(m)) % 2 == 1
    ensures bits / Pow2(m) == 2 * (bits / Pow2(m + 1)) + (bits / Pow2(m)) % 2
  {
    Pow2Add(m, w - m); Pow2Add(m, 1); Pow2Zero();
    hide Pow2, BitAnd;
    var h, r := bits / Pow2(m), bits % Pow2(m);
    DivMod(bits, Pow2(m));
    MulDist(Pow2(w - m), h * Pow2(m), r); MulAssoc(h, Pow2(m), Pow2(w - m));
    MulMonoStrict(r, Pow2(m), Pow2(w - m)); MulMono(0, r, Pow2(w - m)); MulSign(h, Pow2(w));
    DivModUnique(bits * Pow2(w - m), Pow2(w), h, r * Pow2(w - m));
    BitAndBit(bits * Pow2(w - m), w);
    MulSign(0, Pow2(w));
    DivDiv(bits, Pow2(m), 2);
  }

  /** The bits left in the window: a squaring each, and W[1] for a 1. */
  method SlideTail(W: seq<Mpi>, w: nat, p: Slide, WW: Mpi, N: Mpi, mm: limb, T: Mpi, ghost a: int, ghost ex: nat, ghost bits: nat)
    returns (st: Status)
    requires w >= 1 && Machine(W, w, WW, N, mm, T, a, ex)
    requires p.nbits < w && p.window == bits * Pow2(w - p.nbits) && bits < Pow2(p.nbits)
    modifies W[0], WW, T
    ensures st.Ok? && 0 <= ex * Pow2(p.nbits) && Machine(W, w, WW, N, mm, T, a, ex * Pow2(p.nbits) + bits)
  {
    hide Val, Rep, MontConst, Pow, Pow2, BitAnd;
    var window := p.window;
    ghost var x := ex;
    Pow2Zero(); ModSmall(bits, Pow2(p.nbits));
    for i := 0 to p.nbits
      invariant Machine(W, w, WW, N, mm, T, a, x)
      invariant window == bits * Pow2(w - p.nbits + i) && x == ex * Pow2(i) + bits / Pow2(p.nbits - i)
    {
      ghost var m := p.nbits - i - 1;
      TailBit(bits, m, w);
      Doubled(bits, w - m - 1); Doubled(ex, i);
      :- SquareX(W, w, WW, N, mm, T, a, x);
      x := 2 * x;
      window := 2 * window;
      if BitAnd(window, Pow2(w)) != 0 {
        :- MulX(W, w, 1, WW, N, mm, T, a, x);
        x := x + 1;
      }
    }
    MulSign(ex, Pow2(p.nbits));
    st := Ok;
  }

  /** W[0] = a^E in Montgomery form. */
  method Exponentiate(W: seq<Mpi>, w: nat, WW: Mpi, E: Mpi, N: Mpi, mm: limb, T: Mpi, ghost a: int) returns (st: Status)
    requires w >= 1 && |W| >= 1 && Machine(W, w, WW, N, mm, T, a, 0) && E !in W && E != WW && E != T
    modifies W[0], WW, T
    ensures st.Ok? && Machine(W, w, WW, N, mm, T, a, E.Mag())
  {
    hide Val, Rep, MontConst, Pow, Pow2, High, Unread, Machine;
    var p, ex, bits :- SlideAll(W, w, WW, E, N, mm, T, a);
    HighEnds(E.p); UnreadStep(0, 1);
    :- SlideTail(W, w, p, WW, N, mm, T, a, ex, bits);
    st := Ok;
  }
}
