/** The gadgets of src/flp/gadgets.rs: evaluation on field elements, evaluation on wire polynomials
    by direct multiplication and by FFT, and the agreement of the two. */
module Gadgets {
  import opened Field
  import opened Powers
  import opened Sums
  import opened Fft
  import opened InverseFft
  import opened Polynomial

  /** `FFT_THRESHOLD`: wire polynomials at least this long are multiplied by FFT. */
  const FFT_THRESHOLD: nat := 30

  function NextPowerOfTwo(n: nat): (r: nat)
    requires 1 <= n
    ensures n <= r
  {
    Exp2(Log2(n))
  }

  /** `wire_poly_len`. */
  function WirePolyLen(numCalls: nat): (r: nat)
    ensures numCalls < r
  {
    NextPowerOfTwo(1 + numCalls)
  }

  /** `gadget_poly_len`. */
  function GadgetPolyLen(degree: nat, wireLen: nat): (r: nat)
    requires 1 <= wireLen
    ensures 1 <= r
  {
    degree * (wireLen - 1) + 1
  }

  datatype Gadget =
    | MulGadget(numCalls: nat)
    | PolyEvalGadget(poly: seq<elem>, numCalls: nat)
    | ParallelSum(inner: Gadget, chunks: nat)
  {
    function Arity(): nat {
      match this
      case MulGadget(_) => 2
      case PolyEvalGadget(_, _) => 1
      case ParallelSum(inner, chunks) => chunks * inner.Arity()
    }

    function Degree(): nat {
      match this
      case MulGadget(_) => 2
      case PolyEvalGadget(poly, _) => if TrimLen(poly) == 0 then 0 else TrimLen(poly) - 1
      case ParallelSum(inner, _) => inner.Degree()
    }

    function Calls(): nat {
      match this
      case MulGadget(n) => n
      case PolyEvalGadget(_, n) => n
      case ParallelSum(inner, _) => inner.Calls()
    }

    /** Polynomial evaluation needs a non-constant polynomial whose leading coefficient is not
        zero; sums range over multiplications or polynomial evaluations. */
    predicate WellFormed() {
      match this
      case MulGadget(_) => true
      case PolyEvalGadget(poly, _) => 2 <= |poly| && TrimLen(poly) == |poly|
      case ParallelSum(inner, chunks) => !inner.ParallelSum? && inner.WellFormed() && 1 <= chunks
    }

    /** `call`. */
    function Call(inp: seq<elem>): elem
      requires |inp| == Arity()
      decreases this, 0
    {
      match this
      case MulGadget(_) => Mul(inp[0], inp[1])
      case PolyEvalGadget(poly, _) => Eval(poly, inp[0])
      case ParallelSum(inner, chunks) => CallChunks(inner, chunks, inp)
    }

    /** The length of the buffer in which the gadget polynomial is computed. */
    function MemLen(): (n: nat)
      ensures 1 <= n
    {
      hide *;
      NextPowerOfTwo(GadgetPolyLen(Degree(), WirePolyLen(Calls())))
    }
  }

  /** Number of inputs before the last chunk. */
  function Cut(inner: Gadget, chunks: nat): (cut: nat)
    requires 1 <= chunks
    ensures cut + inner.Arity() == chunks * inner.Arity()
    ensures cut == (chunks - 1) * inner.Arity()
  {
    MulDistrib(chunks - 1, 1, inner.Arity());
    (chunks - 1) * inner.Arity()
  }

  /** The inner gadget summed over the first `chunks` chunks of the input. */
  function CallChunks(inner: Gadget, chunks: nat, inp: seq<elem>): elem
    requires |inp| == chunks * inner.Arity()
    decreases inner, 1, chunks
  {
    if chunks == 0 then 0
    else
      var cut := Cut(inner, chunks);
      Add(CallChunks(inner, chunks - 1, inp[..cut]), inner.Call(inp[cut..]))
  }

  // ------------------------------------------------------------------ reference polynomials

  function PowPoly(f: seq<elem>, i: nat): (r: seq<elem>)
    requires f != []
    ensures |r| == i * (|f| - 1) + 1
  {
    if i == 0 then [1] else
      assert i * (|f| - 1) == (i - 1) * (|f| - 1) + (|f| - 1);
      MulPoly(PowPoly(f, i - 1), f)
  }

  /** The sum over t < i of poly[t] * f^t. */
  function ComposePrefix(poly: seq<elem>, f: seq<elem>, i: nat): (r: seq<elem>)
    requires f != [] && i <= |poly|
    ensures |r| == if i == 0 then 0 else (i - 1) * (|f| - 1) + 1
  {
    if i == 0 then [] else
      assert i >= 2 ==> (i - 1) * (|f| - 1) == (i - 2) * (|f| - 1) + (|f| - 1);
      AddPoly(ComposePrefix(poly, f, i - 1), ScalePoly(poly[i - 1], PowPoly(f, i - 1)))
  }

  ghost predicate Wires(inp: seq<seq<elem>>, m: nat) {
    forall j :: 0 <= j < |inp| ==> |inp[j]| == m
  }

  /** The gadget applied to polynomials. */
  function GadgetPoly(g: Gadget, inp: seq<seq<elem>>): seq<elem>
    requires |inp| == g.Arity() && g.WellFormed()
    requires forall j :: 0 <= j < |inp| ==> inp[j] != []
    decreases g, 0
  {
    match g
    case MulGadget(_) => MulPoly(inp[0], inp[1])
    case PolyEvalGadget(poly, _) => ComposePrefix(poly, inp[0], |poly|)
    case ParallelSum(inner, chunks) => ChunksPoly(inner, chunks, inp)
  }

  function ChunksPoly(inner: Gadget, chunks: nat, inp: seq<seq<elem>>): seq<elem>
    requires |inp| == chunks * inner.Arity() && inner.WellFormed()
    requires forall j :: 0 <= j < |inp| ==> inp[j] != []
    decreases inner, 1, chunks
  {
    if chunks == 0 then []
    else
      var cut := Cut(inner, chunks);
      AddPoly(ChunksPoly(inner, chunks - 1, inp[..cut]), GadgetPoly(inner, inp[cut..]))
  }

  function EvalAll(inp: seq<seq<elem>>, r: elem): (vs: seq<elem>)
    ensures |vs| == |inp| && forall j :: 0 <= j < |inp| ==> vs[j] == Eval(inp[j], r)
  {
    seq(|inp|, j requires 0 <= j < |inp| => Eval(inp[j], r))
  }

  // ------------------------------------------------------------------ homomorphism

  lemma {:induction false} EvalPow(f: seq<elem>, i: nat, x: elem)
    requires f != []
    ensures Eval(PowPoly(f, i), x) == Pow(Eval(f, x), i)
  {
    hide Mul, Add;
    if i == 0 {
      assert ([1])[1..] == [];
      MulZero(x);
      AddZero(1);
    } else {
      EvalPow(f, i - 1, x);
      EvalMul(PowPoly(f, i - 1), f, x);
      MulComm(Pow(Eval(f, x), i - 1), Eval(f, x));
    }
  }

  lemma {:induction false} EvalCompose(poly: seq<elem>, f: seq<elem>, i: nat, x: elem)
    requires f != [] && i <= |poly|
    ensures Eval(ComposePrefix(poly, f, i), x) == Eval(poly[..i], Eval(f, x))
  {
    hide Mul, Add, PowPoly;
    if i > 0 {
      EvalCompose(poly, f, i - 1, x);
      EvalAdd(ComposePrefix(poly, f, i - 1), ScalePoly(poly[i - 1], PowPoly(f, i - 1)), x);
      EvalScale(poly[i - 1], PowPoly(f, i - 1), x);
      EvalPow(f, i - 1, x);
      assert poly[..i] == poly[..i - 1] + [poly[i - 1]];
      EvalAppend(poly[..i - 1], poly[i - 1], Eval(f, x));
    }
  }

  /** Evaluating the gadget polynomial at r is calling the gadget on the wires evaluated at r. */
  lemma {:induction false} GadgetHomomorphism(g: Gadget, inp: seq<seq<elem>>, r: elem)
    requires |inp| == g.Arity() && g.WellFormed()
    requires forall j :: 0 <= j < |inp| ==> inp[j] != []
    ensures Eval(GadgetPoly(g, inp), r) == g.Call(EvalAll(inp, r))
    decreases g, 0
  {
    hide Mul, Add, Eval;
    match g
    case MulGadget(_) => EvalMul(inp[0], inp[1], r);
    case PolyEvalGadget(poly, _) =>
      EvalCompose(poly, inp[0], |poly|, r);
      assert poly[..|poly|] == poly;
    case ParallelSum(inner, chunks) => ChunksHomomorphism(inner, chunks, inp, r);
  }

  lemma {:induction false} ChunksHomomorphism(inner: Gadget, chunks: nat, inp: seq<seq<elem>>, r: elem)
    requires |inp| == chunks * inner.Arity() && inner.WellFormed()
    requires forall j :: 0 <= j < |inp| ==> inp[j] != []
    ensures Eval(ChunksPoly(inner, chunks, inp), r) == CallChunks(inner, chunks, EvalAll(inp, r))
    decreases inner, 1, chunks
  {
    hide *;
    var vs := EvalAll(inp, r);
    if chunks == 0 {
      ChunksNil(inner, inp, vs, r);
    } else {
      var cut := Cut(inner, chunks);
      ChunksPolyStep(inner, chunks, inp);
      CallChunksStep(inner, chunks, vs);
      EvalAdd(ChunksPoly(inner, chunks - 1, inp[..cut]), GadgetPoly(inner, inp[cut..]), r);
      ChunksHomomorphism(inner, chunks - 1, inp[..cut], r);
      GadgetHomomorphism(inner, inp[cut..], r);
      assert vs[..cut] == EvalAll(inp[..cut], r);
      assert vs[cut..] == EvalAll(inp[cut..], r);
    }
  }

  lemma {:induction false} ChunksNil(inner: Gadget, inp: seq<seq<elem>>, vs: seq<elem>, r: elem)
    requires |inp| == |vs| == 0 * inner.Arity() && inner.WellFormed()
    ensures Eval(ChunksPoly(inner, 0, inp), r) == 0 == CallChunks(inner, 0, vs)
  {
  }

  lemma {:induction false} ChunksPolyStep(inner: Gadget, chunks: nat, inp: seq<seq<elem>>)
    requires 1 <= chunks && |inp| == chunks * inner.Arity() && inner.WellFormed()
    requires forall j :: 0 <= j < |inp| ==> inp[j] != []
    ensures var cut := Cut(inner, chunks);
            ChunksPoly(inner, chunks, inp) == AddPoly(ChunksPoly(inner, chunks - 1, inp[..cut]), GadgetPoly(inner, inp[cut..]))
  {
  }

  lemma {:induction false} CallChunksStep(inner: Gadget, chunks: nat, vs: seq<elem>)
    requires 1 <= chunks && |vs| == chunks * inner.Arity()
    ensures var cut := Cut(inner, chunks);
            CallChunks(inner, chunks, vs) == Add(CallChunks(inner, chunks - 1, vs[..cut]), inner.Call(vs[cut..]))
  {
  }

  /** The gadget polynomial of wires of length m fits the proof. */
  lemma {:induction false} GadgetPolyFits(g: Gadget, inp: seq<seq<elem>>, m: nat)
    requires |inp| == g.Arity() && g.WellFormed() && 1 <= m && Wires(inp, m)
    ensures |GadgetPoly(g, inp)| <= GadgetPolyLen(g.Degree(), m)
    decreases g, 0
  {
    match g
    case MulGadget(_) =>
    case PolyEvalGadget(poly, _) =>
    case ParallelSum(inner, chunks) => ChunksPolyFits(inner, chunks, inp, m);
  }

  lemma {:induction false} ChunksPolyFits(inner: Gadget, chunks: nat, inp: seq<seq<elem>>, m: nat)
    requires |inp| == chunks * inner.Arity() && inner.WellFormed() && 1 <= m && Wires(inp, m)
    ensures |ChunksPoly(inner, chunks, inp)| <= GadgetPolyLen(inner.Degree(), m)
    decreases inner, 1, chunks
  {
    hide *;
    if chunks == 0 {
      ChunksPolyEmpty(inner, inp, m);
    } else {
      var cut := Cut(inner, chunks);
      WiresSplit(inp, m, cut);
      ChunksPolyStep(inner, chunks, inp);
      ChunksPolyFits(inner, chunks - 1, inp[..cut], m);
      GadgetPolyFits(inner, inp[cut..], m);
    }
  }

  lemma {:induction false} WiresSplit(inp: seq<seq<elem>>, m: nat, cut: nat)
    requires 1 <= m && Wires(inp, m) && cut <= |inp|
    ensures Wires(inp[..cut], m) && Wires(inp[cut..], m) && forall j :: 0 <= j < |inp| ==> inp[j] != []
  {
  }

  lemma {:induction false} ChunksPolyEmpty(inner: Gadget, inp: seq<seq<elem>>, m: nat)
    requires |inp| == 0 * inner.Arity() && inner.WellFormed() && 1 <= m
    ensures |ChunksPoly(inner, 0, inp)| <= GadgetPolyLen(inner.Degree(), m)
  {
    MulDistrib(inner.Degree(), 0, m - 1);
  }

  // ------------------------------------------------------------------ what call_poly writes

  datatype GadgetResult = GadgetOk | GadgetError | FftFailed(err: FftResult)

  /** `gadget_call_poly_check`. */
  predicate CallPolyCheck(g: Gadget, outLen: nat, inp: seq<seq<elem>>) {
    && |inp| == g.Arity()
    && |inp| != 0
    && (forall j :: 1 <= j < |inp| ==> |inp[j]| == |inp[0]|)
    && 1 <= |inp[0]|
    && outLen == NextPowerOfTwo(GadgetPolyLen(g.Degree(), |inp[0]|))
  }

  /** `v` written over the front of `before`. */
  function Overlay(before: seq<elem>, v: seq<elem>): (r: seq<elem>)
    requires |v| <= |before|
    ensures |r| == |before|
  {
    v + before[|v|..]
  }

  /** `p` without leading zeros, but never empty. */
  function Trimmed(p: seq<elem>): (r: seq<elem>)
    requires p != []
    ensures 1 <= |r| <= |p|
  {
    p[..if TrimLen(p) == 0 then 1 else TrimLen(p)]
  }

  function AddVec(a: seq<elem>, b: seq<elem>): (r: seq<elem>)
    requires |a| == |b|
    ensures |r| == |a| && forall i :: 0 <= i < |r| ==> r[i] == Add(a[i], b[i])
  {
    seq(|a|, i requires 0 <= i < |a| => Add(a[i], b[i]))
  }

  function Zeros(n: nat): (r: seq<elem>)
    ensures |r| == n && forall i :: 0 <= i < n ==> r[i] == 0
  {
    seq(n, _ => 0)
  }

  ghost predicate Fits(g: Gadget, n: nat, inp: seq<seq<elem>>) {
    && |inp| == g.Arity() && g.WellFormed()
    && Wires(inp, WirePolyLen(g.Calls()))
    && n == g.MemLen()
  }

  /** The contents of the output buffer after `call_poly`, as a function of its contents before:
      direct multiplication leaves everything beyond the trimmed product in place. */
  ghost function CallPolyEffect(g: Gadget, before: seq<elem>, inp: seq<seq<elem>>): (after: seq<elem>)
    requires Fits(g, |before|, inp)
    ensures |after| == |before|
    decreases g, 0
  {
    match g
    case MulGadget(_) =>
      GadgetPolyFits(g, inp, WirePolyLen(g.Calls()));
      if |inp[0]| >= FFT_THRESHOLD then PadTo(MulPoly(inp[0], inp[1]), |before|)
      else Overlay(before, Trimmed(MulPoly(inp[0], inp[1])))
    case PolyEvalGadget(poly, _) => PadTo(ComposePrefix(poly, inp[0], |poly|), |before|)
    case ParallelSum(inner, chunks) => SumEffect(inner, chunks, |before|, inp).0
  }

  /** Accumulator and partial buffer of `ParallelSum::call_poly` after `chunks` chunks; the partial
      buffer is zero only at the start. */
  ghost function SumEffect(inner: Gadget, chunks: nat, n: nat, inp: seq<seq<elem>>): (r: (seq<elem>, seq<elem>))
    requires |inp| == chunks * inner.Arity() && inner.WellFormed() && n == inner.MemLen()
    requires Wires(inp, WirePolyLen(inner.Calls()))
    ensures |r.0| == |r.1| == n
    decreases inner, 1, chunks
  {
    if chunks == 0 then (Zeros(n), Zeros(n))
    else
      var cut := Cut(inner, chunks);
      var (acc, partial) := SumEffect(inner, chunks - 1, n, inp[..cut]);
      var partial' := CallPolyEffect(inner, partial, inp[cut..]);
      (AddVec(acc, partial'), partial')
  }

  // ------------------------------------------------------------------ the gadget methods

  method CopyInto(outp: array<elem>, v: seq<elem>)
    requires |v| <= outp.Length
    modifies outp
    ensures outp[..] == Overlay(old(outp[..]), v)
  {
    for i := 0 to |v|
      invariant outp[..i] == v[..i] && outp[i..] == old(outp[i..])
    {
      outp[i] := v[i];
    }
  }

  /** `Mul::call_poly_direct`. */
  method MulDirect(outp: array<elem>, a: seq<elem>, b: seq<elem>)
    requires a != [] && b != [] && |a| + |b| - 1 <= outp.Length
    modifies outp
    ensures outp[..] == Overlay(old(outp[..]), Trimmed(MulPoly(a, b)))
  {
    hide MulPoly;
    var v := PolyMul(a, b);
    assert v == Trimmed(MulPoly(a, b)) by {
      forall k | 0 <= k < |v| ensures v[k] == Trimmed(MulPoly(a, b))[k] {
        assert Pad(v, k) == Pad(MulPoly(a, b), k);
      }
    }
    CopyInto(outp, v);
  }

  /** Interpolation recovers a polynomial from its values at the roots of unity. */
  lemma {:induction false} Interpolates(p: seq<elem>, l: nat, vals: seq<elem>)
    requires l <= MAX_ROOTS && |p| <= Exp2(l) == |vals|
    requires forall k :: 0 <= k < |vals| ==> vals[k] == Eval(p, Pow(Root(l), k))
    ensures InvDftSeq(vals, l) == PadTo(p, Exp2(l))
  {
    hide Eval, Pow, Dft, Exp2;
    forall k | 0 <= k < |vals| ensures vals[k] == DftSeq(p, l)[k] {
      DftIsEval(p, l, k);
    }
    assert vals == DftSeq(p, l);
    InverseOfDft(p, l);
  }

  /** `Mul::call_poly_fft`. */
  method MulFft(outp: array<elem>, a: seq<elem>, b: seq<elem>, n: nat, nInv: elem) returns (res: FftResult)
    requires a != [] && b != [] && |a| + |b| - 1 <= n && n == outp.Length && 2 <= n
    requires n == Exp2(Log2(n)) && nInv == Inv(Mod(n)) && MAX_ROOTS <= WORD
    modifies outp
    ensures res == if n > Exp2(MAX_ROOTS) then SizeTooLarge else Ok
    ensures res.Ok? ==> outp[..] == PadTo(MulPoly(a, b), n)
  {
    hide MulPoly, Eval, Mul, Inv, Mod, DftSeq, Log2;
    var buf := new elem[n](_ => 0);
    res := DiscreteFourierTransform(buf, a, n);
    if !res.Ok? {
      return;
    }
    res := DiscreteFourierTransform(outp, b, n);
    ghost var l, u, v := Log2(n), buf[..], outp[..];
    assert u[..n] == u && v[..n] == v;
    for i := 0 to n
      invariant outp[..] == v
      invariant forall k :: 0 <= k < n ==> buf[k] == if k < i then Mul(u[k], v[k]) else u[k]
    {
      buf[i] := Mul(buf[i], outp[i]);
    }
    ProductValues(a, b, l, u, v, buf[..]);
    Interpolates(MulPoly(a, b), l, buf[..]);
    res := InverseTransform(outp, buf[..], n, nInv);
    assert outp[..n] == outp[..];
  }

  lemma {:induction false} ProductValues(a: seq<elem>, b: seq<elem>, l: nat, u: seq<elem>, v: seq<elem>, w: seq<elem>)
    requires a != [] && b != [] && l <= MAX_ROOTS && |a| + |b| - 1 <= Exp2(l) == |w|
    requires u == DftSeq(a, l) && v == DftSeq(b, l)
    requires forall k :: 0 <= k < |w| ==> w[k] == Mul(u[k], v[k])
    ensures forall k :: 0 <= k < |w| ==> w[k] == Eval(MulPoly(a, b), Pow(Root(l), k))
  {
    hide Mul, MulPoly, Eval, Pow, Dft, Exp2;
    forall k | 0 <= k < |w| ensures w[k] == Eval(MulPoly(a, b), Pow(Root(l), k)) {
      DftIsEval(a, l, k);
      DftIsEval(b, l, k);
      EvalMul(a, b, Pow(Root(l), k));
    }
  }

  /** Adds c times `x` into the front of the buffer. */
  method AddScaled(outp: array<elem>, c: elem, x: seq<elem>)
    requires |x| <= outp.Length
    modifies outp
    ensures forall k :: 0 <= k < outp.Length ==> outp[k] == Add(old(outp[k]), Mul(c, Pad(x, k)))
  {
    hide Add, Mul;
    for j := 0 to |x|
      invariant forall k :: 0 <= k < outp.Length ==>
                  outp[k] == if k < j then Add(old(outp[k]), Mul(c, x[k])) else old(outp[k])
    {
      outp[j] := Add(outp[j], Mul(c, x[j]));
    }
    MulZero(c);
    forall k | |x| <= k < outp.Length ensures outp[k] == Add(old(outp[k]), Mul(c, Pad(x, k))) {
      AddZero(old(outp[k]));
    }
  }

  lemma {:induction false} ComposeStep(poly: seq<elem>, f: seq<elem>, i: nat, n: nat, s: seq<elem>, s': seq<elem>, x: seq<elem>)
    requires f != [] && i < |poly| && |s| == |s'| == n
    requires s == PadTo(ComposePrefix(poly, f, i), n) && SamePoly(x, PowPoly(f, i))
    requires forall k :: 0 <= k < n ==> s'[k] == Add(s[k], Mul(poly[i], Pad(x, k)))
    ensures s' == PadTo(ComposePrefix(poly, f, i + 1), n)
  {
    hide Add, Mul, PowPoly;
  }

  lemma {:induction false} ComposeFirst(poly: seq<elem>, f: seq<elem>, n: nat, s: seq<elem>)
    requires f != [] && poly != [] && |s| == n && 1 <= n
    requires s[0] == poly[0] && forall k :: 1 <= k < n ==> s[k] == 0
    ensures s == PadTo(ComposePrefix(poly, f, 1), n)
    ensures SamePoly(f, PowPoly(f, 1))
  {
    hide Add, Mul;
    var one := ScalePoly(poly[0], PowPoly(f, 0));
    MulOne(poly[0]);
    MulZero(poly[0]);
    AddZero(poly[0]);
    AddZero(0);
    forall k ensures Pad(f, k) == Pad(PowPoly(f, 1), k) {
      MulPolyCoef([1], f, k);
      assert ([1])[1..] == [];
      MulOne(Pad(f, k));
      AddZero(Pad(f, k));
    }
  }

  /** The composition of the two polynomials has at most n coefficients. */
  predicate CompositionFits(poly: seq<elem>, f: seq<elem>, n: nat)
    requires poly != [] && f != []
  {
    (|poly| - 1) * (|f| - 1) + 1 <= n
  }

  lemma {:induction false} CompositionNonEmpty(poly: seq<elem>, f: seq<elem>, n: nat)
    requires poly != [] && f != [] && CompositionFits(poly, f, n)
    ensures 1 <= n
  {
    MulDistrib(|poly| - 1, 0, |f| - 1);
  }

  lemma {:induction false} PowPolyFits(poly: seq<elem>, f: seq<elem>, i: nat, n: nat)
    requires f != [] && 1 <= i < |poly| && CompositionFits(poly, f, n)
    ensures |PowPoly(f, i)| <= n && |f| <= n
  {
    MulDistrib(|poly| - 1 - i, i, |f| - 1);
    MulDistrib(|poly| - 2, 1, |f| - 1);
  }

  /** `PolyEval::call_poly_direct`, on the zeroed buffer. */
  method PolyEvalDirect(poly: seq<elem>, outp: array<elem>, f: seq<elem>)
    requires poly != [] && f != [] && CompositionFits(poly, f, outp.Length)
    requires outp[..] == Zeros(outp.Length)
    modifies outp
    ensures outp[..] == PadTo(ComposePrefix(poly, f, |poly|), outp.Length)
  {
    hide Add, Mul, ComposePrefix, PowPoly, MulPoly, CompositionFits;
    ghost var n := outp.Length;
    CompositionNonEmpty(poly, f, n);
    outp[0] := poly[0];
    var x := f;
    ComposeFirst(poly, f, n, outp[..]);
    if 1 < |poly| {
      PowPolyFits(poly, f, 1, n);
    }
    for i := 1 to |poly|
      invariant outp[..] == PadTo(ComposePrefix(poly, f, i), n)
      invariant i < |poly| ==> SamePoly(x, PowPoly(f, i)) && 1 <= |x| <= n
    {
      ghost var s := outp[..];
      AddScaled(outp, poly[i], x);
      ComposeStep(poly, f, i, n, s, outp[..], x);
      if i < |poly| - 1 {
        ghost var x0 := x;
        x := PolyMul(x, f);
        NextPower(f, i, x0, x);
        PowPolyFits(poly, f, i + 1, n);
      }
    }
  }

  lemma {:induction false} NextPower(f: seq<elem>, i: nat, x0: seq<elem>, x: seq<elem>)
    requires f != [] && x0 != [] && SamePoly(x0, PowPoly(f, i)) && SamePoly(x, MulPoly(x0, f))
    requires |x| == if TrimLen(MulPoly(x0, f)) == 0 then 1 else TrimLen(MulPoly(x0, f))
    ensures SamePoly(x, PowPoly(f, i + 1)) && 1 <= |x| <= |PowPoly(f, i + 1)|
  {
    hide MulPoly;
    PowPolyNext(f, i);
    forall k ensures Pad(x, k) == Pad(PowPoly(f, i + 1), k) {
      MulPolySame(x0, PowPoly(f, i), f, f, k);
    }
    TrimLenSame(x, PowPoly(f, i + 1));
    TrimLenSame(x, MulPoly(x0, f));
  }

  lemma {:induction false} PowPolyNext(f: seq<elem>, i: nat)
    requires f != []
    ensures PowPoly(f, i + 1) == MulPoly(PowPoly(f, i), f) && 1 <= |PowPoly(f, i + 1)|
  {
    MulDistrib(i + 1, 0, |f| - 1);
  }

  /** `PolyEval::call_poly_fft`, on the zeroed buffer. */
  method PolyEvalFft(poly: seq<elem>, outp: array<elem>, f: seq<elem>, n: nat, nInv: elem) returns (res: FftResult)
    requires poly != [] && f != [] && CompositionFits(poly, f, n) && |f| <= n == outp.Length && 2 <= n
    requires n == Exp2(Log2(n)) && nInv == Inv(Mod(n)) && MAX_ROOTS <= WORD
    requires outp[..] == Zeros(outp.Length)
    modifies outp
    ensures res == if n > Exp2(MAX_ROOTS) then SizeTooLarge else Ok
    ensures res.Ok? ==> outp[..] == PadTo(ComposePrefix(poly, f, |poly|), n)
  {
    hide Add, Mul, ComposePrefix, PowPoly, MulPoly, Eval, Inv, Mod, DftSeq, Log2, CompositionFits, PowerValues, SamePoly, Exp2;
    var inpVals := new elem[n](_ => 0);
    res := DiscreteFourierTransform(inpVals, f, n);
    if !res.Ok? {
      return;
    }
    ghost var l, u := Log2(n), inpVals[..];
    assert inpVals[..n] == u;
    var xVals := new elem[n](i requires 0 <= i < n reads inpVals => inpVals[i]);
    var x := new elem[n](_ => 0);
    CopyInto(x, f);
    outp[0] := poly[0];
    ComposeFirst(poly, f, n, outp[..]);
    PaddedSame(f, n, x[..]);
    PowerValuesInit(f, l, u, xVals[..]);
    for i := 1 to |poly|
      invariant inpVals[..] == u
      invariant outp[..] == PadTo(ComposePrefix(poly, f, i), n)
      invariant i < |poly| ==> SamePoly(x[..], PowPoly(f, i)) && PowerValues(f, l, i, xVals[..])
    {
      ghost var s := outp[..];
      AddScaled(outp, poly[i], x[..]);
      ComposeStep(poly, f, i, n, s, outp[..], x[..]);
      if i < |poly| - 1 {
        PowPolyFits(poly, f, i + 1, n);
        RaisePower(f, x, xVals, inpVals, i, n, nInv);
      }
    }
  }

  /** The next power of the wire: its values by pointwise multiplication, its coefficients by the inverse
      transform. */
  method RaisePower(ghost f: seq<elem>, x: array<elem>, xVals: array<elem>, inpVals: array<elem>, ghost i: nat, n: nat, nInv: elem)
    requires 2 <= n == Exp2(Log2(n)) <= Exp2(MAX_ROOTS) && Log2(n) <= MAX_ROOTS <= WORD && nInv == Inv(Mod(n))
    requires x.Length == xVals.Length == inpVals.Length == n && x != xVals && x != inpVals && xVals != inpVals
    requires f != [] && |f| <= n && |PowPoly(f, i + 1)| <= n
    requires inpVals[..] == DftSeq(f, Log2(n)) && PowerValues(f, Log2(n), i, xVals[..])
    modifies x, xVals
    ensures SamePoly(x[..], PowPoly(f, i + 1)) && PowerValues(f, Log2(n), i + 1, xVals[..])
  {
    hide Mul, PowPoly, Eval, Inv, Mod, DftSeq, Log2, Exp2, PowerValues, SamePoly, PadTo, InvDftSeq;
    ghost var u, w := inpVals[..], xVals[..];
    for j := 0 to n
      invariant inpVals[..] == u
      invariant forall k :: 0 <= k < n ==> xVals[k] == if k < j then Mul(w[k], u[k]) else w[k]
    {
      xVals[j] := Mul(xVals[j], inpVals[j]);
    }
    PowerValuesStep(f, Log2(n), i, u, w, xVals[..]);
    PowerInterpolates(f, Log2(n), i + 1, xVals[..]);
    var res := InverseTransform(x, xVals[..], n, nInv);
    assert x[..n] == x[..];
    PaddedSame(PowPoly(f, i + 1), n, x[..]);
  }

  lemma {:induction false} PaddedSame(f: seq<elem>, n: nat, x: seq<elem>)
    requires |f| <= n == |x|
    requires x == PadTo(f, n) || x == Overlay(Zeros(n), f)
    ensures SamePoly(x, f)
    ensures f != [] ==> SamePoly(f, PowPoly(f, 1)) && SamePoly(x, PowPoly(f, 1))
  {
    PadSame(f, n, x);
    hide *;
    if f != [] {
      ComposeFirst([0], f, 1, [0]);
      SameTrans(x, f, PowPoly(f, 1));
    }
  }

  lemma {:induction false} PadSame(f: seq<elem>, n: nat, x: seq<elem>)
    requires |f| <= n == |x|
    requires x == PadTo(f, n) || x == Overlay(Zeros(n), f)
    ensures SamePoly(x, f)
  {
    forall k ensures Pad(x, k) == Pad(f, k) {
      if 0 <= k < n && x == PadTo(f, n) {
        assert x[k] == Pad(f, k);
      }
    }
  }

  lemma {:induction false} SameTrans(p: seq<elem>, q: seq<elem>, r: seq<elem>)
    requires SamePoly(p, q) && SamePoly(q, r)
    ensures SamePoly(p, r)
  {
  }

  /** `v[k]` is the k-th value of f raised to the i. */
  ghost predicate PowerValues(f: seq<elem>, l: nat, i: nat, v: seq<elem>)
    requires l <= MAX_ROOTS
  {
    |v| == Exp2(l) && forall k :: 0 <= k < |v| ==> v[k] == Pow(Eval(f, Pow(Root(l), k)), i)
  }

  lemma {:induction false} PowerValuesInit(f: seq<elem>, l: nat, u: seq<elem>, v: seq<elem>)
    requires l <= MAX_ROOTS && |f| <= Exp2(l) && u == DftSeq(f, l) && v == u
    ensures PowerValues(f, l, 1, v)
  {
    hide Mul, Eval, Dft, Exp2;
    forall k | 0 <= k < |v| ensures v[k] == Pow(Eval(f, Pow(Root(l), k)), 1) {
      DftIsEval(f, l, k);
      var y := Eval(f, Pow(Root(l), k));
      assert Pow(y, 1) == Mul(y, Pow(y, 0));
      MulOne(y);
    }
  }

  lemma {:induction false} PowerValuesStep(f: seq<elem>, l: nat, i: nat, u: seq<elem>, w: seq<elem>, v: seq<elem>)
    requires l <= MAX_ROOTS && |f| <= Exp2(l) == |v| && u == DftSeq(f, l) && PowerValues(f, l, i, w)
    requires forall k :: 0 <= k < |v| ==> v[k] == Mul(w[k], u[k])
    ensures PowerValues(f, l, i + 1, v)
  {
    hide Mul, Eval, Dft, Exp2, Pow;
    forall k | 0 <= k < |v| ensures v[k] == Pow(Eval(f, Pow(Root(l), k)), i + 1) {
      DftIsEval(f, l, k);
      PowNext(Eval(f, Pow(Root(l), k)), i);
    }
  }

  lemma {:induction false} PowerInterpolates(f: seq<elem>, l: nat, i: nat, v: seq<elem>)
    requires l <= MAX_ROOTS && f != [] && |PowPoly(f, i)| <= Exp2(l) && PowerValues(f, l, i, v)
    ensures InvDftSeq(v, l) == PadTo(PowPoly(f, i), Exp2(l))
  {
    hide PowPoly, Eval, Pow, Exp2;
    forall k | 0 <= k < |v| ensures v[k] == Eval(PowPoly(f, i), Pow(Root(l), k)) {
      EvalPow(f, i, Pow(Root(l), k));
    }
    Interpolates(PowPoly(f, i), l, v);
  }

  lemma {:induction false} MemLenFacts(g: Gadget)
    requires g.WellFormed()
    ensures var m := WirePolyLen(g.Calls());
            && g.MemLen() == Exp2(Log2(g.MemLen())) && GadgetPolyLen(g.Degree(), m) <= g.MemLen()
            && 1 <= g.Degree() && m <= g.MemLen()
  {
    hide Gadget.WellFormed, Log2, Exp2;
    DegreePositive(g);
    var m := WirePolyLen(g.Calls());
    MulDistrib(g.Degree() - 1, 1, m - 1);
    Log2Exp2(Log2(GadgetPolyLen(g.Degree(), m)));
  }

  lemma {:induction false} DegreePositive(g: Gadget)
    requires g.WellFormed()
    ensures 1 <= g.Degree()
  {
  }

  method ZeroOut(outp: array<elem>)
    modifies outp
    ensures outp[..] == Zeros(outp.Length)
  {
    for i := 0 to outp.Length
      invariant forall k :: 0 <= k < i ==> outp[k] == 0
    {
      outp[i] := 0;
    }
  }

  /** `call_poly`. The wire polynomials have the length that `prove` gives them. */
  method CallPoly(g: Gadget, outp: array<elem>, inp: seq<seq<elem>>) returns (res: GadgetResult)
    requires g.WellFormed() && MAX_ROOTS <= WORD
    requires CallPolyCheck(g, outp.Length, inp) ==> |inp[0]| == WirePolyLen(g.Calls())
    modifies outp
    ensures res.GadgetError? <==> !CallPolyCheck(g, outp.Length, inp)
    ensures res.GadgetError? ==> outp[..] == old(outp[..])
    ensures !res.GadgetError? ==> Fits(g, outp.Length, inp) && |inp| > 0
    ensures !res.GadgetError? && (|inp[0]| < FFT_THRESHOLD || outp.Length <= Exp2(MAX_ROOTS)) ==> res.GadgetOk?
    ensures !res.GadgetError? && !(|inp[0]| < FFT_THRESHOLD || outp.Length <= Exp2(MAX_ROOTS)) ==>
              res == FftFailed(SizeTooLarge)
    ensures res.GadgetOk? ==> outp[..] == CallPolyEffect(g, old(outp[..]), inp)
    decreases g, 0
  {
    hide Log2, MulPoly, ComposePrefix, SumEffect, Inv, Mod, Exp2, PadTo, Overlay, Trimmed, Zeros;
    if !CallPolyCheck(g, outp.Length, inp) {
      return GadgetError;
    }
    MemLenFacts(g);
    var n := g.MemLen();
    match g {
      case MulGadget(_) =>
        if |inp[0]| >= FFT_THRESHOLD {
          var r := MulFft(outp, inp[0], inp[1], n, Inv(Mod(n)));
          return if r.Ok? then GadgetOk else FftFailed(r);
        } else {
          MulDirect(outp, inp[0], inp[1]);
          return GadgetOk;
        }
      case PolyEvalGadget(poly, _) =>
        ZeroOut(outp);
        if |inp[0]| >= FFT_THRESHOLD {
          var r := PolyEvalFft(poly, outp, inp[0], n, Inv(Mod(n)));
          return if r.Ok? then GadgetOk else FftFailed(r);
        } else {
          PolyEvalDirect(poly, outp, inp[0]);
          return GadgetOk;
        }
      case ParallelSum(inner, chunks) =>
        res := SumPoly(inner, chunks, outp, inp);
    }
  }

  /** The loop of `ParallelSum::call_poly`. */
  method SumPoly(inner: Gadget, chunks: nat, outp: array<elem>, inp: seq<seq<elem>>) returns (res: GadgetResult)
    requires inner.WellFormed() && !inner.ParallelSum? && 1 <= chunks && MAX_ROOTS <= WORD
    requires |inp| == chunks * inner.Arity() && |inp| > 0 && Wires(inp, WirePolyLen(inner.Calls()))
    requires outp.Length == inner.MemLen()
    modifies outp
    ensures |inp[0]| < FFT_THRESHOLD || outp.Length <= Exp2(MAX_ROOTS) ==>
              res.GadgetOk? && outp[..] == SumEffect(inner, chunks, outp.Length, inp).0
    ensures !(|inp[0]| < FFT_THRESHOLD || outp.Length <= Exp2(MAX_ROOTS)) ==> res == FftFailed(SizeTooLarge)
    decreases inner, 1
  {
    hide Log2, SumEffect, CallPolyEffect, NextPowerOfTwo, GadgetPolyLen, Add;
    var n, a := outp.Length, inner.Arity();
    ZeroOut(outp);
    var partial := new elem[n](_ => 0);
    SumEffectZero(inner, n);
    assert outp[..] == Zeros(n) && partial[..] == Zeros(n);
    assert inp[..0] == [];
    for c := 0 to chunks
      invariant 0 <= c * a <= |inp|
      invariant (outp[..], partial[..]) == SumEffect(inner, c, n, inp[..c * a])
      invariant c > 0 ==> |inp[0]| < FFT_THRESHOLD || n <= Exp2(MAX_ROOTS)
    {
      ChunkBounds(c, chunks, a);
      var chunk := inp[c * a..(c + 1) * a];
      ghost var acc0, part0 := outp[..], partial[..];
      InnerCheck(inner, n, chunk);
      res := CallPoly(inner, partial, chunk);
      if !res.GadgetOk? {
        return;
      }
      for i := 0 to n
        invariant forall k :: 0 <= k < n ==> outp[k] == if k < i then Add(acc0[k], partial[k]) else acc0[k]
        invariant partial[..] == CallPolyEffect(inner, part0, chunk)
      {
        outp[i] := Add(outp[i], partial[i]);
      }
      assert outp[..] == AddVec(acc0, partial[..]);
      SumEffectStep(inner, c, n, inp, acc0, part0);
    }
    assert inp[..chunks * a] == inp;
    res := GadgetOk;
  }

  lemma {:induction false} ChunkBounds(c: nat, chunks: nat, a: nat)
    requires c < chunks
    ensures 0 <= c * a <= (c + 1) * a <= chunks * a && (c + 1) * a == c * a + a
  {
    MulDistrib(c, 1, a);
    MulDistrib(chunks - c - 1, c + 1, a);
  }

  lemma {:induction false} InnerCheck(inner: Gadget, n: nat, chunk: seq<seq<elem>>)
    requires inner.WellFormed() && !inner.ParallelSum? && n == inner.MemLen()
    requires |chunk| == inner.Arity() && Wires(chunk, WirePolyLen(inner.Calls()))
    ensures CallPolyCheck(inner, n, chunk)
  {
  }

  lemma {:induction false} SumEffectZero(inner: Gadget, n: nat)
    requires inner.WellFormed() && n == inner.MemLen()
    ensures 0 == 0 * inner.Arity() && SumEffect(inner, 0, n, []) == (Zeros(n), Zeros(n))
  {
  }

  lemma {:induction false} SumEffectStep(inner: Gadget, c: nat, n: nat, inp: seq<seq<elem>>, acc: seq<elem>, partial: seq<elem>)
    requires inner.WellFormed() && n == inner.MemLen() && Wires(inp, WirePolyLen(inner.Calls()))
    requires 0 <= c * inner.Arity() <= (c + 1) * inner.Arity() <= |inp|
    requires (acc, partial) == SumEffect(inner, c, n, inp[..c * inner.Arity()])
    ensures var a := inner.Arity();
            && Fits(inner, n, inp[c * a..(c + 1) * a])
            && var partial' := CallPolyEffect(inner, partial, inp[c * a..(c + 1) * a]);
               SumEffect(inner, c + 1, n, inp[..(c + 1) * a]) == (AddVec(acc, partial'), partial')
  {
    hide CallPolyEffect, NextPowerOfTwo, GadgetPolyLen, Add;
    var a := inner.Arity();
    var cut := Cut(inner, c + 1);
    var pre := inp[..(c + 1) * a];
    assert pre[..cut] == inp[..c * a] && pre[cut..] == inp[c * a..(c + 1) * a];
  }

  // ------------------------------------------------------------------ exactness

  /** Number of coefficients direct multiplication writes for a chunk of two wires. */
  function WrittenLen(chunk: seq<seq<elem>>): (len: nat)
    requires |chunk| == 2 && chunk[0] != [] && chunk[1] != []
    ensures 1 <= len
  {
    |Trimmed(MulPoly(chunk[0], chunk[1]))|
  }

  /** The inputs of a number of multiplications. */
  predicate Pairs(chunks: nat, inp: seq<seq<elem>>) {
    |inp| == 2 * chunks && forall j :: 0 <= j < |inp| ==> inp[j] != []
  }

  /** Coefficient k of the partial buffer after direct multiplication of the chunks: that of the last
      chunk whose trimmed product reached it. */
  function Leftover(chunks: nat, inp: seq<seq<elem>>, k: nat): elem
    requires Pairs(chunks, inp)
  {
    if chunks == 0 then 0
    else
      var init, chunk := inp[..2 * (chunks - 1)], inp[2 * (chunks - 1)..];
      if k < WrittenLen(chunk) then Pad(MulPoly(chunk[0], chunk[1]), k) else Leftover(chunks - 1, init, k)
  }

  /** What is added to coefficient k on behalf of chunks that did not write it. */
  function StaleSum(chunks: nat, inp: seq<seq<elem>>, k: nat): elem
    requires Pairs(chunks, inp)
  {
    if chunks == 0 then 0
    else
      var init, chunk := inp[..2 * (chunks - 1)], inp[2 * (chunks - 1)..];
      Add(StaleSum(chunks - 1, init, k), if k < WrittenLen(chunk) then 0 else Leftover(chunks - 1, init, k))
  }

  /** The leftovers of earlier chunks cancel at every coefficient of the buffer. */
  ghost predicate NothingStale(chunks: nat, inp: seq<seq<elem>>, n: nat)
    requires Pairs(chunks, inp)
  {
    forall k: nat :: k < n ==> StaleSum(chunks, inp, k) == 0
  }

  /** The two wires of chunk c. */
  function PairAt(inp: seq<seq<elem>>, c: nat): (pair: seq<seq<elem>>)
    requires 2 * c + 2 <= |inp| && forall j :: 0 <= j < |inp| ==> inp[j] != []
    ensures |pair| == 2 && pair[0] != [] && pair[1] != []
  {
    inp[2 * c..2 * c + 2]
  }

  /** No chunk's trimmed product is shorter than an earlier chunk's. */
  ghost predicate NonShrinking(chunks: nat, inp: seq<seq<elem>>)
    requires Pairs(chunks, inp)
  {
    forall c: nat, d: nat :: c < d < chunks ==> WrittenLen(PairAt(inp, c)) <= WrittenLen(PairAt(inp, d))
  }

  /** Summing direct products leaves no stale coefficients in the result. */
  ghost predicate StaleFree(g: Gadget, inp: seq<seq<elem>>)
    requires |inp| == g.Arity() && g.WellFormed() && forall j :: 0 <= j < |inp| ==> inp[j] != []
  {
    g.ParallelSum? && g.inner.MulGadget? ==>
      assert g.inner.Arity() == 2;
      |inp[0]| < FFT_THRESHOLD ==> NothingStale(g.chunks, inp, g.MemLen())
  }

  /** On a zeroed buffer, `call_poly` writes the gadget polynomial, by either path, if and only if no
      stale coefficients remain. */
  lemma {:induction false} CallPolyExactIff(g: Gadget, n: nat, inp: seq<seq<elem>>)
    requires Fits(g, n, inp)
    ensures CallPolyEffect(g, Zeros(n), inp) == PadTo(GadgetPoly(g, inp), n) <==> StaleFree(g, inp)
  {
    match g
    case MulGadget(_) =>
      hide MulPoly;
      GadgetPolyFits(g, inp, WirePolyLen(g.Calls()));
      OverlayZeros(n, MulPoly(inp[0], inp[1]));
    case PolyEvalGadget(_, _) =>
    case ParallelSum(inner, chunks) =>
      hide SumEffect, ChunksPoly, NextPowerOfTwo, NothingStale, StaleSum, GadgetPolyLen, PadTo;
      if inner.MulGadget? && |inp[0]| < FFT_THRESHOLD {
        assert inner.Arity() == 2 && |inp| == 2 * chunks && n == inner.MemLen();
        DirectSumIff(inner.numCalls, chunks, n, inp);
      } else {
        SumClean(inner, chunks, n, inp);
      }
  }

  lemma {:induction false} OverlayZeros(n: nat, p: seq<elem>)
    requires p != [] && |p| <= n
    ensures Overlay(Zeros(n), Trimmed(p)) == PadTo(p, n)
  {
  }

  /** Without direct multiplication every chunk overwrites the partial buffer. */
  lemma {:induction false} SumClean(inner: Gadget, chunks: nat, n: nat, inp: seq<seq<elem>>)
    requires |inp| == chunks * inner.Arity() && inner.WellFormed() && !inner.ParallelSum?
    requires n == inner.MemLen() && Wires(inp, WirePolyLen(inner.Calls()))
    requires inner.MulGadget? ==> WirePolyLen(inner.Calls()) >= FFT_THRESHOLD
    ensures SumEffect(inner, chunks, n, inp).0 == PadTo(ChunksPoly(inner, chunks, inp), n)
  {
    hide MulPoly, Add, NextPowerOfTwo, CallPolyEffect, GadgetPoly, ChunksPoly, SumEffect, GadgetPolyLen, WirePolyLen, Gadget.MemLen, PadTo, AddVec;
    if chunks == 0 {
      SumNil(inner, n, inp);
    } else {
      var cut := Cut(inner, chunks);
      var init, chunk := inp[..cut], inp[cut..];
      SumClean(inner, chunks - 1, n, init);
      SumEffectUnfold(inner, chunks, n, inp);
      EffectClean(inner, SumEffect(inner, chunks - 1, n, init).1, chunk);
      ChunksPolyStep(inner, chunks, inp);
      AddPadded(ChunksPoly(inner, chunks - 1, init), GadgetPoly(inner, chunk), n);
    }
  }

  lemma {:induction false} SumNil(inner: Gadget, n: nat, inp: seq<seq<elem>>)
    requires |inp| == 0 * inner.Arity() && inner.WellFormed() && n == inner.MemLen()
    ensures SumEffect(inner, 0, n, inp) == (Zeros(n), Zeros(n))
    ensures PadTo(ChunksPoly(inner, 0, inp), n) == Zeros(n)
  {
    hide NextPowerOfTwo;
  }

  lemma {:induction false} SumEffectUnfold(inner: Gadget, chunks: nat, n: nat, inp: seq<seq<elem>>)
    requires 1 <= chunks && |inp| == chunks * inner.Arity() && inner.WellFormed()
    requires n == inner.MemLen() && Wires(inp, WirePolyLen(inner.Calls()))
    ensures var cut := Cut(inner, chunks);
            var (acc, partial) := SumEffect(inner, chunks - 1, n, inp[..cut]);
            var partial' := CallPolyEffect(inner, partial, inp[cut..]);
            SumEffect(inner, chunks, n, inp) == (AddVec(acc, partial'), partial')
  {
    hide CallPolyEffect, NextPowerOfTwo, Add;
  }

  lemma {:induction false} AddPadded(p: seq<elem>, q: seq<elem>, n: nat)
    ensures AddVec(PadTo(p, n), PadTo(q, n)) == PadTo(AddPoly(p, q), n)
  {
    hide Add;
  }

  lemma {:induction false} EffectMulDirect(g: Gadget, before: seq<elem>, inp: seq<seq<elem>>)
    requires g.MulGadget? && Fits(g, |before|, inp) && |inp[0]| < FFT_THRESHOLD
    ensures 1 <= |MulPoly(inp[0], inp[1])| <= |before| && GadgetPoly(g, inp) == MulPoly(inp[0], inp[1])
    ensures CallPolyEffect(g, before, inp) == Overlay(before, Trimmed(MulPoly(inp[0], inp[1])))
  {
    GadgetPolyFits(g, inp, WirePolyLen(g.Calls()));
    MemLenFacts(g);
  }

  lemma {:induction false} EffectClean(g: Gadget, before: seq<elem>, inp: seq<seq<elem>>)
    requires Fits(g, |before|, inp) && !g.ParallelSum? && (g.MulGadget? ==> |inp[0]| >= FFT_THRESHOLD)
    ensures CallPolyEffect(g, before, inp) == PadTo(GadgetPoly(g, inp), |before|)
  {
  }

  // ------------------------------------------------------------------ sums of direct products

  ghost predicate DirectSum(calls: nat, chunks: nat, n: nat, inp: seq<seq<elem>>) {
    && |inp| == 2 * chunks && Wires(inp, WirePolyLen(calls)) && n == MulGadget(calls).MemLen()
    && 1 <= WirePolyLen(calls) < FFT_THRESHOLD
  }

  /** Accumulator and partial buffer, coefficient by coefficient. */
  ghost predicate Tracks(acc: seq<elem>, partial: seq<elem>, poly: seq<elem>, chunks: nat, inp: seq<seq<elem>>, n: nat)
    requires Pairs(chunks, inp) && |acc| == |partial| == n
  {
    && (forall k :: 0 <= k < n ==> partial[k] == Leftover(chunks, inp, k))
    && (forall k :: 0 <= k < n ==> acc[k] == Add(Pad(poly, k), StaleSum(chunks, inp, k)))
  }

  /** Summing direct products gives the sum of the products and the stale coefficients. */
  lemma {:induction false} DirectSumIs(calls: nat, chunks: nat, n: nat, inp: seq<seq<elem>>)
    requires DirectSum(calls, chunks, n, inp)
    ensures Pairs(chunks, inp) && |inp| == chunks * MulGadget(calls).Arity()
    ensures var (acc, partial) := SumEffect(MulGadget(calls), chunks, n, inp);
            Tracks(acc, partial, ChunksPoly(MulGadget(calls), chunks, inp), chunks, inp, n)
  {
    hide MulPoly, Add, NextPowerOfTwo, GadgetPolyLen, SumEffect, ChunksPoly, WirePolyLen, CallPolyEffect, Overlay, AddVec, AddPoly,
         Trimmed, Tracks, PadTo, Gadget.MemLen, GadgetPoly;
    if chunks == 0 {
      assert inp == [];
      SumNil(MulGadget(calls), n, inp);
      ChunksPolyNil(MulGadget(calls));
      TracksNil(n, inp);
    } else {
      var init := inp[..2 * (chunks - 1)];
      DirectSumIs(calls, chunks - 1, n, init);
      DirectStep(calls, chunks, n, inp);
      var (acc, partial) := SumEffect(MulGadget(calls), chunks - 1, n, init);
      TracksStep(acc, partial, ChunksPoly(MulGadget(calls), chunks - 1, init), chunks, inp, n);
    }
  }

  /** One more chunk. */
  lemma {:induction false} DirectStep(calls: nat, chunks: nat, n: nat, inp: seq<seq<elem>>)
    requires DirectSum(calls, chunks, n, inp) && 1 <= chunks
    ensures |inp| == chunks * MulGadget(calls).Arity() && Pairs(chunks, inp)
    ensures |inp[..2 * (chunks - 1)]| == (chunks - 1) * MulGadget(calls).Arity()
    ensures var inner, init, chunk := MulGadget(calls), inp[..2 * (chunks - 1)], inp[2 * (chunks - 1)..];
            var q := MulPoly(chunk[0], chunk[1]);
            var (acc, partial) := SumEffect(inner, chunks - 1, n, init);
            && 1 <= |q| <= n
            && var after := Overlay(partial, Trimmed(q));
               && SumEffect(inner, chunks, n, inp) == (AddVec(acc, after), after)
               && ChunksPoly(inner, chunks, inp) == AddPoly(ChunksPoly(inner, chunks - 1, init), q)
  {
    var inner := MulGadget(calls);
    assert inner.Arity() == 2;
    hide MulPoly, Add, NextPowerOfTwo, GadgetPolyLen, SumEffect, ChunksPoly, WirePolyLen, CallPolyEffect, Overlay, AddVec, AddPoly,
         Trimmed, PadTo, Gadget.MemLen, GadgetPoly;
    assert Cut(inner, chunks) == 2 * (chunks - 1);
    var init, chunk := inp[..2 * (chunks - 1)], inp[2 * (chunks - 1)..];
    SumEffectUnfold(inner, chunks, n, inp);
    ChunksPolyStep(inner, chunks, inp);
    EffectMulDirect(inner, SumEffect(inner, chunks - 1, n, init).1, chunk);
  }

  lemma {:induction false} TracksNil(n: nat, inp: seq<seq<elem>>)
    requires inp == []
    ensures Tracks(Zeros(n), Zeros(n), [], 0, inp, n)
  {
    AddZero(0);
  }

  lemma {:induction false} TracksStep(acc: seq<elem>, partial: seq<elem>, poly: seq<elem>, chunks: nat, inp: seq<seq<elem>>, n: nat)
    requires 1 <= chunks && Pairs(chunks, inp) && |acc| == |partial| == n
    requires Tracks(acc, partial, poly, chunks - 1, inp[..2 * (chunks - 1)], n)
    requires |MulPoly(inp[2 * (chunks - 1)..][0], inp[2 * (chunks - 1)..][1])| <= n
    ensures var chunk := inp[2 * (chunks - 1)..];
            var q := MulPoly(chunk[0], chunk[1]);
            && q != []
            && var after := Overlay(partial, Trimmed(q));
               Tracks(AddVec(acc, after), after, AddPoly(poly, q), chunks, inp, n)
  {
    var init, chunk := inp[..2 * (chunks - 1)], inp[2 * (chunks - 1)..];
    var q := MulPoly(chunk[0], chunk[1]);
    hide Add, MulPoly;
    var after := Overlay(partial, Trimmed(q));
    forall k | 0 <= k < n
      ensures after[k] == Leftover(chunks, inp, k)
      ensures AddVec(acc, after)[k] == Add(Pad(AddPoly(poly, q), k), StaleSum(chunks, inp, k))
    {
      var a, s := Pad(poly, k), StaleSum(chunks - 1, init, k);
      assert acc[k] == Add(a, s) && Pad(AddPoly(poly, q), k) == Add(a, Pad(q, k));
      AddExchange(a, s, Pad(q, k), if k < WrittenLen(chunk) then 0 else Leftover(chunks - 1, init, k));
      AddZero(Pad(q, k));
      if k < WrittenLen(chunk) {
        assert after[k] == Pad(q, k);
      } else {
        assert Pad(q, k) == 0;
        AddZero(partial[k]);
        AddComm(0, partial[k]);
      }
    }
  }

  lemma {:induction false} DirectSumIff(calls: nat, chunks: nat, n: nat, inp: seq<seq<elem>>)
    requires DirectSum(calls, chunks, n, inp)
    ensures Pairs(chunks, inp) && |inp| == chunks * MulGadget(calls).Arity()
    ensures SumEffect(MulGadget(calls), chunks, n, inp).0 == PadTo(ChunksPoly(MulGadget(calls), chunks, inp), n)
            <==> NothingStale(chunks, inp, n)
  {
    hide SumEffect, ChunksPoly, StaleSum, Add, Leftover, MulPoly, NextPowerOfTwo, WirePolyLen;
    DirectSumIs(calls, chunks, n, inp);
    var acc, poly := SumEffect(MulGadget(calls), chunks, n, inp).0, ChunksPoly(MulGadget(calls), chunks, inp);
    forall k | 0 <= k < n
      ensures acc[k] == PadTo(poly, n)[k] <==> StaleSum(chunks, inp, k) == 0
    {
      AddIsSame(Pad(poly, k), StaleSum(chunks, inp, k));
    }
  }

  lemma {:induction false} AddIsSame(a: elem, b: elem)
    ensures Add(a, b) == a <==> b == 0
  {
    hide Add, Sub;
    AddZero(a);
    AddComm(a, b);
    SubAdd(b, a);
    SubSelf(a);
  }

  /** No product reaches coefficient 2m - 1. */
  lemma {:induction false} BeyondProducts(chunks: nat, inp: seq<seq<elem>>, m: nat, k: nat)
    requires 1 <= m && Pairs(chunks, inp) && Wires(inp, m) && k >= 2 * m - 1
    ensures Leftover(chunks, inp, k) == 0 && StaleSum(chunks, inp, k) == 0
  {
    hide MulPoly, Add;
    if chunks > 0 {
      var init, chunk := inp[..2 * (chunks - 1)], inp[2 * (chunks - 1)..];
      BeyondProducts(chunks - 1, init, m, k);
      assert WrittenLen(chunk) <= |MulPoly(chunk[0], chunk[1])| == 2 * m - 1;
      AddZero(0);
    }
  }

  /** What `call_poly` writes has no coefficients beyond the gadget polynomial's length. */
  lemma {:induction false} CallPolyShort(g: Gadget, inp: seq<seq<elem>>, k: nat)
    requires Fits(g, g.MemLen(), inp) && GadgetPolyLen(g.Degree(), WirePolyLen(g.Calls())) <= k < g.MemLen()
    ensures CallPolyEffect(g, Zeros(g.MemLen()), inp)[k] == 0
  {
    hide CallPolyEffect, GadgetPoly, Gadget.MemLen, NextPowerOfTwo, StaleFree;
    if StaleFree(g, inp) {
      CallPolyExactIff(g, g.MemLen(), inp);
      GadgetPolyFits(g, inp, WirePolyLen(g.Calls()));
    } else {
      StaleIsDirect(g, g.MemLen(), inp);
      DirectSumShort(g.inner.numCalls, g.chunks, g.MemLen(), inp, k);
    }
  }

  /** Only sums of direct products can be stale. */
  lemma {:induction false} StaleIsDirect(g: Gadget, n: nat, inp: seq<seq<elem>>)
    requires Fits(g, n, inp) && !StaleFree(g, inp)
    ensures g.ParallelSum? && g.inner.MulGadget? && DirectSum(g.inner.numCalls, g.chunks, n, inp)
    ensures GadgetPolyLen(g.Degree(), WirePolyLen(g.Calls())) == 2 * WirePolyLen(g.inner.numCalls) - 1
    ensures |inp| == g.chunks * g.inner.Arity() && forall before :: |before| == n ==> CallPolyEffect(g, before, inp) == SumEffect(g.inner, g.chunks, n, inp).0
  {
    hide NothingStale, NextPowerOfTwo, SumEffect;
    assert g.inner.Arity() == 2 && g.Degree() == 2 && g.Calls() == g.inner.numCalls;
    SameMemLen(g);
  }

  lemma {:induction false} DirectSumShort(calls: nat, chunks: nat, n: nat, inp: seq<seq<elem>>, k: nat)
    requires DirectSum(calls, chunks, n, inp) && 2 * WirePolyLen(calls) - 1 <= k < n
    ensures |inp| == chunks * MulGadget(calls).Arity() && SumEffect(MulGadget(calls), chunks, n, inp).0[k] == 0
  {
    hide Add, NextPowerOfTwo, SumEffect, ChunksPoly, StaleSum, Leftover, Gadget.MemLen, WirePolyLen;
    var m := WirePolyLen(calls);
    DirectSumIs(calls, chunks, n, inp);
    BeyondProducts(chunks, inp, m, k);
    assert GadgetPolyLen(MulGadget(calls).Degree(), m) == 2 * m - 1;
    ChunksPolyFits(MulGadget(calls), chunks, inp, m);
    AddZero(0);
  }

  lemma {:induction false} SameMemLen(g: Gadget)
    requires g.ParallelSum?
    ensures g.MemLen() == g.inner.MemLen()
  {
  }

  /** Products that never get shorter leave nothing stale. */
  lemma {:induction false} NonShrinkingExact(chunks: nat, inp: seq<seq<elem>>, k: nat)
    requires Pairs(chunks, inp) && NonShrinking(chunks, inp)
    ensures StaleSum(chunks, inp, k) == 0
    ensures chunks > 0 && k >= WrittenLen(PairAt(inp, chunks - 1)) ==> Leftover(chunks, inp, k) == 0
  {
    hide WrittenLen, MulPoly, Add, NonShrinking;
    if chunks > 0 {
      var init := inp[..2 * (chunks - 1)];
      PrefixNonShrinking(chunks, inp);
      NonShrinkingExact(chunks - 1, init, k);
      AddZero(0);
      assert inp[2 * (chunks - 1)..] == PairAt(inp, chunks - 1);
    }
  }

  lemma {:induction false} PrefixNonShrinking(chunks: nat, inp: seq<seq<elem>>)
    requires chunks > 0 && Pairs(chunks, inp) && NonShrinking(chunks, inp)
    ensures var init := inp[..2 * (chunks - 1)];
            && Pairs(chunks - 1, init) && NonShrinking(chunks - 1, init)
            && (chunks > 1 ==> WrittenLen(PairAt(init, chunks - 2)) <= WrittenLen(PairAt(inp, chunks - 1)))
  {
    hide WrittenLen;
    var init := inp[..2 * (chunks - 1)];
    forall c: nat | c < chunks - 1 ensures PairAt(init, c) == PairAt(inp, c) {
    }
  }

  /** For two chunks nothing can cancel: the sum is right exactly when the second trimmed product is
      at least as long as the first. */
  lemma {:induction false} TwoChunksExactIff(inp: seq<seq<elem>>, n: nat)
    requires Pairs(2, inp) && WrittenLen(PairAt(inp, 0)) <= n
    ensures NothingStale(2, inp, n) <==> WrittenLen(PairAt(inp, 0)) <= WrittenLen(PairAt(inp, 1))
  {
    hide MulPoly, Add, WrittenLen, StaleSum, Leftover;
    if WrittenLen(PairAt(inp, 0)) <= WrittenLen(PairAt(inp, 1)) {
      forall k: nat | k < n ensures StaleSum(2, inp, k) == 0 {
        NonShrinkingExact(2, inp, k);
      }
    } else {
      TwoChunksStale(inp);
    }
  }

  lemma {:induction false} TwoChunksStale(inp: seq<seq<elem>>)
    requires Pairs(2, inp) && WrittenLen(PairAt(inp, 1)) < WrittenLen(PairAt(inp, 0))
    ensures StaleSum(2, inp, WrittenLen(PairAt(inp, 0)) - 1) != 0
  {
    hide MulPoly, Add;
    var a, b := inp[0..2], inp[2..4];
    assert inp[..2] == a && inp[2..] == b && a[..0] == [] && a[0..] == a;
    var k := WrittenLen(a) - 1;
    assert Leftover(1, a, k) == Pad(MulPoly(a[0], a[1]), k) != 0;
    AddZero(0);
    assert StaleSum(1, a, k) == Add(StaleSum(0, [], k), 0) == 0;
    AddZero(Leftover(1, a, k));
    AddComm(0, Leftover(1, a, k));
    assert StaleSum(2, inp, k) == Add(StaleSum(1, a, k), Leftover(1, a, k));
  }

  function ExampleInput(): seq<seq<elem>> { [[0, 1], [0, 1], [1, 0], [1, 0]] }

  /** Products X * X and 1 * 1 in two chunks: the coefficient of X^2 is added twice. */
  lemma {:induction false} StaleExample()
    ensures var n, inp := MulGadget(1).MemLen(), ExampleInput();
            var g := ParallelSum(MulGadget(1), 2);
            Fits(g, n, inp) && CallPolyEffect(g, Zeros(n), inp) != PadTo(GadgetPoly(g, inp), n)
  {
    hide *;
    var n, inp, g := MulGadget(1).MemLen(), ExampleInput(), ParallelSum(MulGadget(1), 2);
    ExampleGadget(n);
    CallPolyExactIff(g, n, inp);
    ExampleLengths();
    ExampleFits(n);
    TwoChunksExactIff(inp, n);
  }

  lemma {:induction false} ExampleGadget(n: nat)
    requires n == MulGadget(1).MemLen()
    ensures var g, inp := ParallelSum(MulGadget(1), 2), ExampleInput();
            && Fits(g, n, inp) && Pairs(2, inp) && |MulPoly([0, 1], [0, 1])| <= n
            && PairAt(inp, 0) == [[0, 1], [0, 1]] && PairAt(inp, 1) == [[1, 0], [1, 0]]
            && (StaleFree(g, inp) ==> NothingStale(2, inp, n))
  {
    hide MulPoly, NextPowerOfTwo, WirePolyLen, NothingStale;
    var g, inp := ParallelSum(MulGadget(1), 2), ExampleInput();
    assert g.inner.Arity() == 2 && g.Arity() == 4 && g.Degree() == 2 && g.Calls() == 1;
    ExampleShape();
    assert g.MemLen() == n;
    assert inp[0..2] == PairAt(inp, 0) && inp[2..4] == PairAt(inp, 1);
    GadgetPolyFits(MulGadget(1), PairAt(inp, 0), 2);
    MemLenFacts(MulGadget(1));
  }

  lemma {:induction false} ExampleFits(n: nat)
    requires |MulPoly([0, 1], [0, 1])| <= n
    ensures WrittenLen([[0, 1], [0, 1]]) <= n
  {
    hide MulPoly;
  }

  lemma {:induction false} ExampleShape()
    ensures |ExampleInput()| == 4 && WirePolyLen(1) == 2 && Wires(ExampleInput(), 2) && 2 < FFT_THRESHOLD
    ensures ExampleInput()[0..2] == [[0, 1], [0, 1]] && ExampleInput()[2..4] == [[1, 0], [1, 0]]
  {
    Log2Unique(2, 1);
    assert Exp2(1) == 2 && Exp2(0) == 1;
  }

  lemma {:induction false} ExampleLengths()
    ensures WrittenLen([[1, 0], [1, 0]]) < WrittenLen([[0, 1], [0, 1]])
  {
    hide MulPoly, TrimLen;
    XSquared();
    OneSquared();
  }

  lemma {:induction false} XSquared()
    ensures Pad(MulPoly([0, 1], [0, 1]), 2) == 1
  {
    hide Mul, Add, MulPoly;
    var x: seq<elem> := [0, 1];
    assert x[1..] == [1] && [1][1..] == [];
    MulPolyCoef(x, x, 2);
    MulPolyCoef([1], x, 1);
    MulPolyNil(x);
    MulOne(1);
    MulZero(0);
    AddZero(0);
    AddZero(1);
  }

  lemma {:induction false} OneSquared()
    ensures Pad(MulPoly([1, 0], [1, 0]), 1) == 0 && Pad(MulPoly([1, 0], [1, 0]), 2) == 0
  {
    hide Mul, Add, MulPoly;
    var one: seq<elem> := [1, 0];
    assert one[1..] == [0] && ([0])[1..] == [];
    MulPolyCoef(one, one, 1);
    MulPolyCoef(one, one, 2);
    MulPolyCoef([0], one, 0);
    MulPolyCoef([0], one, 1);
    MulPolyNil(one);
    MulZero(0);
    MulZero(1);
    AddZero(0);
  }

  lemma {:induction false} ChunksPolyNil(inner: Gadget)
    requires inner.WellFormed()
    ensures 0 == 0 * inner.Arity() && ChunksPoly(inner, 0, []) == []
  {
  }
}
