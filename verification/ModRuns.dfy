/** Runs of residue operations over one modulus, against the same computation on
    elements of Z/m. */
module ModRuns {
  import opened Arith
  import opened Limbs
  import opened Mont
  import opened MontRep
  import opened Fermat
  import opened Bytes
  import opened CoreBytes
  import opened ReturnCodes
  import opened ModRaw
  import opened Residues

  /** A call of the interface on numbered residues. */
  datatype Call =
    | Read(d: nat, bytes: seq<byte>, ext: ExtRep)
    | Add(d: nat, a: nat, b: nat)
    | Sub(d: nat, a: nat, b: nat)
    | Mul(d: nat, a: nat, b: nat)
    | Inv(d: nat, a: nat)
    | Write(a: nat, len: nat, ext: ExtRep)

  /** What a caller sees of a call. */
  datatype Answer = Answer(st: Status, bytes: seq<byte>)

  /** An element, or a buffer left with a number that mod_read refused. */
  datatype Cell = Elem(v: nat) | Refused

  // --------------------------------------------------------- the computation in Z/m

  function InverseIn(a: nat, m: nat): (x: nat)
    requires Prime(m) && m >= 3 && 0 < a < m
    ensures x < m && (a * x) % m == 1
  {
    PowerIsInverse(a, m);
    DivMod(Pow(a, m - 2), m);
    Pow(a, m - 2) % m
  }

  /** There is only one. */
  lemma InverseUnique(a: nat, m: nat, x: nat, y: nat)
    requires m >= 3 && x < m && y < m && (a * x) % m == 1 && (a * y) % m == 1
    ensures x == y
  {
    ModSmall(1, m);
    CongMul(a * x, 1, y, y, m); CongMul(a * y, 1, x, x, m);
    MulAssoc(a, x, y); MulAssoc(a, y, x);
    CongSmall(x, y, m);
  }

  /** Operands hold elements; inversion is for prime moduli. */
  predicate Defined(c: Call, env: seq<Cell>, m: nat) {
    match c
    case Read(d, _, _) => d < |env|
    case Add(d, a, b) => d < |env| && a < |env| && b < |env| && env[a].Elem? && env[b].Elem?
    case Sub(d, a, b) => d < |env| && a < |env| && b < |env| && env[a].Elem? && env[b].Elem?
    case Mul(d, a, b) => d < |env| && a < |env| && b < |env| && env[a].Elem? && env[b].Elem?
    case Inv(d, a) => d < |env| && a < |env| && env[a].Elem? && env[a].v < m && Prime(m) && m >= 3
    case Write(a, _, _) => a < |env| && env[a].Elem?
  }

  /** The call on elements of Z/m; n limbs bound the input that read accepts. */
  function Step(c: Call, env: seq<Cell>, m: nat, n: nat): (r: (Answer, seq<Cell>))
    requires m > 0 && Defined(c, env, m)
    ensures |r.1| == |env|
  {
    match c
    case Read(d, bytes, ext) =>
      var st := ReadStatus(bytes, ext, m, n);
      (Answer(st, []),
       if st.Ok? then env[d := Elem(BytesValue(bytes, ext))]
       else if ext.ExtInvalid? || CharsToLimbs(|bytes|) > n then env else env[d := Refused])
    case Add(d, a, b) => (Answer(Ok, []), env[d := Elem((env[a].v + env[b].v) % m)])
    case Sub(d, a, b) => DivMod(env[a].v - env[b].v, m); (Answer(Ok, []), env[d := Elem((env[a].v - env[b].v) % m)])
    case Mul(d, a, b) => DivMod(env[a].v * env[b].v, m); (Answer(Ok, []), env[d := Elem((env[a].v * env[b].v) % m)])
    case Inv(d, a) =>
      if env[a].v == 0 then (Answer(Fail(ERR_BAD_INPUT), []), env)
      else (Answer(Ok, []), env[d := Elem(InverseIn(env[a].v, m))])
    case Write(a, len, ext) =>
      var st := WriteStatus(env[a].v, len, ext);
      (Answer(st, if st.Ok? then ValueBytes(env[a].v, len, ext) else []), env)
  }

  /** Every call of the run is defined where it is made. */
  predicate RunDefined(cs: seq<Call>, env: seq<Cell>, m: nat, n: nat)
    requires m > 0
    decreases |cs|, 0
  {
    |cs| == 0 || (RunDefined(cs[..|cs| - 1], env, m, n)
      && Defined(cs[|cs| - 1], Run(cs[..|cs| - 1], env, m, n).1, m))
  }

  /** Answers and final cells of a run in Z/m. */
  function Run(cs: seq<Call>, env: seq<Cell>, m: nat, n: nat): (r: (seq<Answer>, seq<Cell>))
    requires m > 0 && RunDefined(cs, env, m, n)
    ensures |r.1| == |env| && |r.0| == |cs|
    decreases |cs|, 1
  {
    if |cs| == 0 then ([], env) else
      var (out, e) := Run(cs[..|cs| - 1], env, m, n);
      var (x, e') := Step(cs[|cs| - 1], e, m, n);
      (out + [x], e')
  }

  /** Elements stay in [0, m). */
  ghost predicate Reduced(env: seq<Cell>, m: nat) {
    forall i :: 0 <= i < |env| && env[i].Elem? ==> env[i].v < m
  }

  lemma StepReduced(c: Call, env: seq<Cell>, m: nat, n: nat)
    requires m > 0 && Defined(c, env, m) && Reduced(env, m)
    ensures Reduced(Step(c, env, m, n).1, m)
  {
    hide InverseIn, Prime, CharsToLimbs, BytesValue;
    match c {
      case Add(d, a, b) => DivMod(env[a].v + env[b].v, m);
      case Sub(d, a, b) => DivMod(env[a].v - env[b].v, m);
      case Mul(d, a, b) => DivMod(env[a].v * env[b].v, m);
      case _ =>
    }
  }

  /** Reading in one byte order and writing in the same number of bytes: the bytes again,
      or reversed in the other order. */
  lemma ReadThenWrite(b: seq<byte>, ext: ExtRep, out: ExtRep, m: nat, n: nat)
    requires m > 0 && !ext.ExtInvalid? && !out.ExtInvalid? && ReadStatus(b, ext, m, n).Ok?
    ensures var cs := [Read(0, b, ext), Write(0, |b|, out)];
      && RunDefined(cs, [Refused], m, n)
      && var x := Run(cs, [Refused], m, n).0;
      && x[0] == Answer(Ok, []) && x[1].st.Ok? && |x[1].bytes| == |b|
      && forall i :: 0 <= i < |b| ==> x[1].bytes[i] == if ext == out then b[i] else b[|b| - 1 - i]
  {
    hide LeVal, BeVal, B8, ToLe, ToBe, CharsToLimbs, Run, RunDefined;
    var c, d, env := Read(0, b, ext), Write(0, |b|, out), [Refused];
    NoCalls(env, m, n);
    OneMoreCall([], c, env, m, n);
    assert [] + [c] == [c] && [c] + [d] == [c, d] && env[0 := Elem(BytesValue(b, ext))] == [Elem(BytesValue(b, ext))];
    OneMoreCall([c], d, env, m, n);
    SameBytes(b);
  }

  lemma NoCalls(env: seq<Cell>, m: nat, n: nat)
    requires m > 0
    ensures RunDefined([], env, m, n) && Run([], env, m, n) == ([], env)
  {}

  lemma OneMoreCall(cs: seq<Call>, c: Call, env: seq<Cell>, m: nat, n: nat)
    requires m > 0 && RunDefined(cs, env, m, n) && Defined(c, Run(cs, env, m, n).1, m)
    ensures RunDefined(cs + [c], env, m, n)
    ensures var e := Run(cs, env, m, n); var s := Step(c, e.1, m, n);
      Run(cs + [c], env, m, n) == (e.0 + [s.0], s.1)
  {
    hide Step, Defined;
    assert (cs + [c])[..|cs|] == cs;
  }

  lemma SameBytes(b: seq<byte>)
    ensures LeVal(b) < B8(|b|) && BeVal(b) < B8(|b|)
    ensures ToBe(BeVal(b), |b|) == b && ToLe(LeVal(b), |b|) == b && ToLe(BeVal(b), |b|) == Rev(b) && ToBe(LeVal(b), |b|) == Rev(b)
  {
    BeBytesOf(b); LeBytesOf(b, |b|); LeBytesOf(Rev(b), |b|);
  }

  // ------------------------------------------------------------------ the residues

  /** The residues hold the elements of env; their buffers are all different. */
  ghost predicate Matches(rs: seq<Residue>, N: Modulus, env: seq<Cell>)
    reads N, N.p, set i | 0 <= i < |rs| :: rs[i], set i | 0 <= i < |rs| :: rs[i].p
  {
    && |rs| == |env|
    && (forall i :: 0 <= i < |rs| ==> Buffer(rs[i], N))
    && (forall i, j :: 0 <= i < j < |rs| ==> rs[i] != rs[j] && rs[i].p != rs[j].p)
    && (forall i :: 0 <= i < |rs| && env[i].Elem? ==> Canonical(rs[i], N) && Element(rs[i].p, N) == env[i].v)
  }

  /** What all calls share: N is in Montgomery form and the residues hold env. */
  ghost predicate Machine(rs: seq<Residue>, N: Modulus, env: seq<Cell>)
    reads N, N.p, N.rr, set i | 0 <= i < |rs| :: rs[i], set i | 0 <= i < |rs| :: rs[i].p
  {
    N.Ready() && N.rep.RepMontgomery? && Matches(rs, N, env) && Reduced(env, N.V())
  }

  method DoRead(c: Call, rs: seq<Residue>, N: Modulus, ghost env: seq<Cell>) returns (x: Answer)
    requires c.Read? && Machine(rs, N, env) && Defined(c, env, N.V())
    modifies rs[c.d], rs[c.d].p
    ensures rs[c.d].limbs == old(rs[c.d].limbs) && rs[c.d].p == old(rs[c.d].p)
    ensures x == Step(c, env, N.V(), N.limbs).0 && Matches(rs, N, Step(c, env, N.V(), N.limbs).1)
  {
    hide Val, MontDec, MontConst, Cong, Bn, CharsToLimbs, BytesValue;
    var st := ModRead(rs[c.d], N, c.bytes, c.ext);
    x := Answer(st, []);
  }

  method DoAdd(c: Call, rs: seq<Residue>, N: Modulus, ghost env: seq<Cell>) returns (x: Answer)
    requires c.Add? && Machine(rs, N, env) && Defined(c, env, N.V())
    modifies rs[c.d].p
    ensures x == Step(c, env, N.V(), N.limbs).0 && Matches(rs, N, Step(c, env, N.V(), N.limbs).1)
  {
    hide Val, MontDec, MontConst, Cong, Bn;
    DivMod(env[c.a].v + env[c.b].v, N.V());
    var st := ModAdd(rs[c.d], rs[c.a], rs[c.b], N);
    x := Answer(st, []);
  }

  method DoSub(c: Call, rs: seq<Residue>, N: Modulus, ghost env: seq<Cell>) returns (x: Answer)
    requires c.Sub? && Machine(rs, N, env) && Defined(c, env, N.V())
    modifies rs[c.d].p
    ensures x == Step(c, env, N.V(), N.limbs).0 && Matches(rs, N, Step(c, env, N.V(), N.limbs).1)
  {
    hide Val, MontDec, MontConst, Cong, Bn;
    DivMod(env[c.a].v - env[c.b].v, N.V());
    var st := ModSub(rs[c.d], rs[c.a], rs[c.b], N);
    x := Answer(st, []);
  }

  method DoMul(c: Call, rs: seq<Residue>, N: Modulus, ghost env: seq<Cell>) returns (x: Answer)
    requires c.Mul? && Machine(rs, N, env) && Defined(c, env, N.V())
    modifies rs[c.d].p
    ensures x == Step(c, env, N.V(), N.limbs).0 && Matches(rs, N, Step(c, env, N.V(), N.limbs).1)
  {
    hide Val, MontDec, MontConst, Cong, Bn;
    DivMod(env[c.a].v * env[c.b].v, N.V());
    var st := ModMul(rs[c.d], rs[c.a], rs[c.b], N);
    x := Answer(st, []);
  }

  method DoInv(c: Call, rs: seq<Residue>, N: Modulus, ghost env: seq<Cell>) returns (x: Answer)
    requires c.Inv? && Machine(rs, N, env) && Defined(c, env, N.V())
    modifies rs[c.d].p
    ensures x == Step(c, env, N.V(), N.limbs).0 && Matches(rs, N, Step(c, env, N.V(), N.limbs).1)
  {
    hide Val, MontDec, MontConst, Cong, Bn, Prime, Pow;
    var st := ModInv(rs[c.d], rs[c.a], N);
    x := Answer(st, []);
    if st.Ok? {
      InverseUnique(env[c.a].v, N.V(), Element(rs[c.d].p, N), InverseIn(env[c.a].v, N.V()));
    }
  }

  method DoWrite(c: Call, rs: seq<Residue>, N: Modulus, ghost env: seq<Cell>) returns (x: Answer)
    requires c.Write? && Machine(rs, N, env) && Defined(c, env, N.V())
    modifies rs[c.a].p
    ensures x == Step(c, env, N.V(), N.limbs).0 && Matches(rs, N, Step(c, env, N.V(), N.limbs).1)
  {
    hide Val, MontDec, MontConst, Cong, Bn, B8, ToLe, ToBe;
    var output := new byte[c.len];
    var st := ModWrite(rs[c.a], N, output, c.ext);
    x := Answer(st, if st.Ok? then output[..] else []);
  }

  /** One call: the answer and the residues agree with Z/m. */
  method DoCall(c: Call, rs: seq<Residue>, N: Modulus, ghost env: seq<Cell>) returns (x: Answer)
    requires Machine(rs, N, env) && Defined(c, env, N.V())
    modifies set i | 0 <= i < |rs| :: rs[i]
    modifies set i | 0 <= i < |rs| :: rs[i].p
    ensures forall i :: 0 <= i < |rs| ==> rs[i].p == old(rs[i].p)
    ensures unchanged(N) && unchanged(N.p) && unchanged(N.rr)
    ensures x == Step(c, env, N.V(), N.limbs).0 && Machine(rs, N, Step(c, env, N.V(), N.limbs).1)
  {
    hide Val, MontDec, MontConst, Cong, Bn, Step;
    StepReduced(c, env, N.V(), N.limbs);
    match c {
      case Read(_, _, _) => x := DoRead(c, rs, N, env);
      case Inv(_, _) => x := DoInv(c, rs, N, env);
      case Write(_, _, _) => x := DoWrite(c, rs, N, env);
      case Add(_, _, _) => x := DoAdd(c, rs, N, env);
      case Sub(_, _, _) => x := DoSub(c, rs, N, env);
      case Mul(_, _, _) => x := DoMul(c, rs, N, env);
    }
  }

  lemma Positive(rs: seq<Residue>, N: Modulus, env: seq<Cell>)
    requires Machine(rs, N, env)
    ensures N.V() > 0
  {}

  /** Any run: the answers are those of the run in Z/m, and so are the residues. */
  method Execute(cs: seq<Call>, rs: seq<Residue>, N: Modulus, ghost env: seq<Cell>) returns (out: seq<Answer>)
    requires Machine(rs, N, env) && RunDefined(cs, env, N.V(), N.limbs)
    modifies set i | 0 <= i < |rs| :: rs[i]
    modifies set i | 0 <= i < |rs| :: rs[i].p
    ensures unchanged(N) && unchanged(N.p) && N.V() > 0
    ensures RunDefined(cs, env, N.V(), N.limbs) && out == Run(cs, env, N.V(), N.limbs).0
    ensures Machine(rs, N, Run(cs, env, N.V(), N.limbs).1)
  {
    hide Val, MontDec, MontConst, Cong, Bn, Step, Defined, Machine;
    ghost var m, n := N.V(), N.limbs;
    Positive(rs, N, env);
    out := [];
    var i := 0;
    assert cs[..0] == [];
    DefinedPrefix(cs, env, m, n, 0);
    while i < |cs|
      invariant 0 <= i <= |cs| && unchanged(N) && unchanged(N.p)
      invariant RunDefined(cs[..i], env, m, n) && out == Run(cs[..i], env, m, n).0
      invariant Machine(rs, N, Run(cs[..i], env, m, n).1)
      invariant forall k :: 0 <= k < |rs| ==> rs[k].p == old(rs[k].p)
    {
      DefinedPrefix(cs, env, m, n, i + 1);
      assert cs[..i + 1][..i] == cs[..i];
      var x := DoCall(cs[i], rs, N, Run(cs[..i], env, m, n).1);
      out := out + [x];
      i := i + 1;
    }
    assert cs[..|cs|] == cs;
  }

  lemma {:induction false} DefinedPrefix(cs: seq<Call>, env: seq<Cell>, m: nat, n: nat, i: nat)
    requires m > 0 && RunDefined(cs, env, m, n) && i <= |cs|
    ensures RunDefined(cs[..i], env, m, n)
    decreases |cs|
  {
    if i == |cs| { assert cs[..i] == cs; } else {
      assert cs[..|cs| - 1][..i] == cs[..i];
      DefinedPrefix(cs[..|cs| - 1], env, m, n, i);
    }
  }
}
