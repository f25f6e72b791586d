/** What acceptance means: the circuits vanish on valid inputs for every joint randomness, and by
    root counting an accepted proof forces the circuit, and then the input, to be valid. */
module FlpSoundness {
  import opened Field
  import opened Powers
  import opened Sums
  import opened Fft
  import opened InverseFft
  import opened Polynomial
  import opened Gadgets
  import opened FlpTypes
  import opened Flp
  import opened FlpCompleteness

  predicate IsBit(a: elem) { a == 0 || a == 1 }

  /** x (x - 1). */
  function BitCheck(a: elem): elem { Mul(a, Sub(a, 1)) }

  function BitChecks(x: seq<elem>): (gs: seq<elem>)
    ensures |gs| == |x| && forall i :: 0 <= i < |x| ==> gs[i] == BitCheck(x[i])
  {
    seq(|x|, i requires 0 <= i < |x| => BitCheck(x[i]))
  }

  lemma {:induction false} BitCheckIff(a: elem)
    ensures BitCheck(a) == 0 <==> IsBit(a)
  {
    hide Mul, Sub;
    if BitCheck(a) == 0 {
      MulCancel(a, Sub(a, 1));
      SubZeroEq(a, 1);
    }
    MulZero(Sub(0, 1));
    SubSelf(1);
    MulZero(1);
  }

  // ------------------------------------------------------------------ circuits as polynomials

  lemma {:induction false} RangeCheckerValue(a: elem)
    ensures Eval(RANGE_CHECKER, a) == BitCheck(a)
  {
    hide Add, Mul, Sub, Neg;
    var p := RANGE_CHECKER;
    assert p[1..] == [Neg(1), 1] && p[1..][1..] == [1] && p[1..][1..][1..] == [];
    calc {
      Eval(p, a);
      Add(0, Mul(a, Eval(p[1..], a)));
      { AddZero(Mul(a, Eval(p[1..], a))); }
      Mul(a, Eval(p[1..], a));
      Mul(a, Add(Neg(1), Mul(a, Eval(p[1..][1..], a))));
    }
    assert Eval(p[1..][1..], a) == Add(1, Mul(a, Eval([], a)));
    MulZero(a);
    AddZero(1);
    MulOne(a);
    AddComm(Neg(1), a);
    SubIsAddNeg(a, 1);
  }

  /** The Sum circuit is the weighted sum of the bit checks. */
  lemma {:induction false} SumCircuit(t: FlpType, x: seq<elem>, jr: seq<elem>)
    requires t.Valid() && t.Sum? && |x| == t.InputLen() && |jr| == 1
    ensures CircuitValue(t, x, jr) == Weighted(BitChecks(x), jr[0])
  {
    hide Weighted, Eval, BitCheck;
    forall k | 0 <= k < |x| ensures TrueOuts(t, x, jr)[k] == BitCheck(x[k]) {
      RangeCheckerValue(x[k]);
    }
    assert TrueOuts(t, x, jr) == BitChecks(x);
  }

  lemma {:induction false} PairProduct(x: seq<elem>, r: elem, chunk: nat, k: nat, u: nat)
    ensures Mul(ChunkedWire(x, r, chunk, 1, k, 2 * u), ChunkedWire(x, r, chunk, 1, k, 2 * u + 1))
         == WeightedElem(BitChecks(x), r, k * chunk + u)
  {
    hide Mul, Sub, Pow;
    var i := k * chunk + u;
    MulDistrib(k, 0, chunk);
    assert (2 * u) / 2 == u == (2 * u + 1) / 2 && (2 * u) % 2 == 0 && (2 * u + 1) % 2 == 1;
    if i < |x| {
      MulAssoc(Pow(r, i + 1), x[i], Sub(x[i], 1));
    } else {
      MulZero(Sub(0, 1));
      MulZero(Pow(r, i + 1));
    }
  }

  function RowPrefix(x: seq<elem>, r: elem, chunk: nat, k: nat, n: nat): (row: seq<elem>)
    ensures |row| == 2 * n
  {
    seq(2 * n, u requires 0 <= u => ChunkedWire(x, r, chunk, 1, k, u))
  }

  /** One call of the summed multiplication gadget adds up a block of weighted bit checks. */
  lemma {:induction false} ChunkCall(calls: nat, x: seq<elem>, r: elem, chunk: nat, k: nat, n: nat)
    requires 2 * n == n * MulGadget(calls).Arity() && 0 <= k * chunk
    ensures CallChunks(MulGadget(calls), n, RowPrefix(x, r, chunk, k, n))
         == Sums.Sum(n, u => WeightedElem(BitChecks(x), r, k * chunk + u))
  {
    hide Add, Mul, ChunkedWire, WeightedElem, BitChecks;
    var f: int -> elem := u => WeightedElem(BitChecks(x), r, k * chunk + u);
    SumExt(n, f, u => WeightedElem(BitChecks(x), r, k * chunk + u));
    if n > 0 {
      var inner, row := MulGadget(calls), RowPrefix(x, r, chunk, k, n);
      assert Cut(inner, n) == 2 * (n - 1);
      assert row[..2 * (n - 1)] == RowPrefix(x, r, chunk, k, n - 1);
      ChunkCall(calls, x, r, chunk, k, n - 1);
      SumExt(n - 1, f, u => WeightedElem(BitChecks(x), r, k * chunk + u));
      PairProduct(x, r, chunk, k, n - 1);
      assert inner.Call(row[2 * (n - 1)..]) == f(n - 1);
    }
  }

  lemma {:induction false} ChunkedTotal(t: FlpType, x: seq<elem>, jr: seq<elem>, k: nat)
    requires t.Valid() && t.Chunked() && |x| == t.InputLen() && |jr| == t.JointRandLen() && k <= t.GadgetCalls()
    ensures 0 <= k * t.chunkLength
    ensures Total(TrueOuts(t, x, jr)[..k]) == Sums.Sum(k * t.chunkLength, i => WeightedElem(BitChecks(x), jr[0], i))
  {
    hide Add, Mul, WeightedElem, BitChecks, NextPowerOfTwo, Gadget.Call;
    var chunk, outs := t.chunkLength, TrueOuts(t, x, jr);
    var f: int -> elem := i => WeightedElem(BitChecks(x), jr[0], i);
    if k == 0 {
      TotalNil();
    } else {
      ChunkedTotal(t, x, jr, k - 1);
      var base := (k - 1) * chunk;
      MulDistrib(k - 1, 1, chunk);
      assert outs[..k] == outs[..k - 1] + [outs[k - 1]];
      TotalAppend(outs[..k - 1], outs[k - 1]);
      ChunkedOut(t, x, jr, k - 1);
      SumConcat(base, chunk, f);
      SumExt(base, i => WeightedElem(BitChecks(x), jr[0], i), f);
      SumExt(chunk, i => f(base + i), u => WeightedElem(BitChecks(x), jr[0], base + u));
    }
    SumExt(k * chunk, i => WeightedElem(BitChecks(x), jr[0], i), f);
  }

  lemma {:induction false} ChunkedOut(t: FlpType, x: seq<elem>, jr: seq<elem>, k: nat)
    requires t.Valid() && t.Chunked() && |x| == t.InputLen() && |jr| == t.JointRandLen() && k < t.GadgetCalls()
    ensures 0 <= k * t.chunkLength
    ensures TrueOuts(t, x, jr)[k] == Sums.Sum(t.chunkLength, u => WeightedElem(BitChecks(x), jr[0], k * t.chunkLength + u))
  {
    hide Add, Mul, WeightedElem, BitChecks, ChunkedWire, NextPowerOfTwo;
    var chunk, calls := t.chunkLength, t.GadgetCalls();
    MulDistrib(k, 0, chunk);
    assert MulGadget(calls).Arity() == 2;
    assert WireRow(t, x, jr, 1, k) == RowPrefix(x, jr[0], chunk, k, chunk);
    ChunkCall(calls, x, jr[0], chunk, k, chunk);
  }

  /** The gadget outputs of SumVec and Histogram add up to the weighted sum of the bit checks. */
  lemma {:induction false} ChunkedCircuit(t: FlpType, x: seq<elem>, jr: seq<elem>)
    requires t.Valid() && t.Chunked() && |x| == t.InputLen() && |jr| == t.JointRandLen()
    ensures Total(TrueOuts(t, x, jr)) == Weighted(BitChecks(x), jr[0])
  {
    hide Total, Weighted, NextPowerOfTwo, TrueOuts;
    var calls := t.GadgetCalls();
    ChunkedTotal(t, x, jr, calls);
    assert TrueOuts(t, x, jr)[..calls] == TrueOuts(t, x, jr);
    ChunksCover(|x|, t.chunkLength);
    WeightedPadding(BitChecks(x), jr[0], calls * t.chunkLength);
  }

  lemma {:induction false} WeightedPadding(gs: seq<elem>, r: elem, n: nat)
    requires |gs| <= n
    ensures Sums.Sum(n, i => WeightedElem(gs, r, i)) == Weighted(gs, r)
  {
    hide Add, Mul, Pow;
    var f: int -> elem := i => WeightedElem(gs, r, i);
    SumExt(n, i => WeightedElem(gs, r, i), f);
    if n == |gs| {
      SumExt(n, f, i => WeightedElem(gs, r, i));
    } else {
      WeightedPadding(gs, r, n - 1);
      SumExt(n - 1, f, i => WeightedElem(gs, r, i));
      MulZero(Pow(r, n));
      AddZero(Weighted(gs, r));
    }
  }

  lemma {:induction false} ChunksCover(n: nat, chunk: nat)
    requires 1 <= chunk
    ensures n <= CeilDiv(n, chunk) * chunk
  {
    var q, r := DivMod(n, chunk);
    MulDistrib(q, 1, chunk);
  }

  // ------------------------------------------------------------------ valid inputs

  /** What each circuit is meant to check. */
  predicate ValidInput(t: FlpType, x: seq<elem>) {
    && |x| == t.InputLen()
    && (forall i :: 0 <= i < |x| ==> IsBit(x[i]))
    && (t.Histogram? ==> Total(x) == 1)
  }

  lemma {:induction false} BitsWeighted(x: seq<elem>, r: elem)
    requires forall i :: 0 <= i < |x| ==> IsBit(x[i])
    ensures Weighted(BitChecks(x), r) == 0
  {
    hide Mul, Pow;
    var gs := BitChecks(x);
    forall i | 0 <= i < |x| ensures WeightedElem(gs, r, i) == 0 {
      BitCheckIff(x[i]);
      MulZero(Pow(r, i + 1));
    }
    SumZero(|x|, i => WeightedElem(gs, r, i));
  }

  /** A valid input makes its circuit vanish, whatever the joint randomness. */
  lemma {:induction false} ValidVanishes(t: FlpType, x: seq<elem>, jr: seq<elem>)
    requires t.Valid() && ValidInput(t, x) && |jr| == t.JointRandLen()
    ensures CircuitValue(t, x, jr) == 0
  {
    hide Mul, Sub, Add, Total, Weighted, NextPowerOfTwo;
    match t
    case Count =>
      CountRow(x, jr, 1);
      CountValue(x);
    case Sum(_) =>
      SumCircuit(t, x, jr);
      BitsWeighted(x, jr[0]);
    case SumVec(_, _, _) =>
      ChunkedCircuit(t, x, jr);
      BitsWeighted(x, jr[0]);
    case Histogram(_, _) =>
      ChunkedCircuit(t, x, jr);
      BitsWeighted(x, jr[0]);
      SubSelf(1);
      MulZero(jr[1]);
      MulZero(Mul(jr[1], jr[1]));
      AddZero(0);
  }

  lemma {:induction false} CountValue(x: seq<elem>)
    requires |x| == 1
    ensures Sub(Mul(x[0], x[0]), x[0]) == BitCheck(x[0])
    ensures IsBit(x[0]) ==> BitCheck(x[0]) == 0
  {
    hide Mul, Sub;
    DistribSub(x[0], x[0], 1);
    MulOne(x[0]);
    BitCheckIff(x[0]);
  }

  // ------------------------------------------------------------------ what the circuits compute

  /** Count computes x^2 - x. */
  lemma {:induction false} CountCircuit(x: seq<elem>)
    requires |x| == 1
    ensures CircuitValue(Count, x, []) == Sub(Mul(x[0], x[0]), x[0])
  {
    hide Mul, Sub, NextPowerOfTwo;
    CountRow(x, [], 1);
  }

  /** SumVec computes the weighted sum of the bit checks. */
  lemma {:induction false} SumVecCircuit(t: FlpType, x: seq<elem>, jr: seq<elem>)
    requires t.Valid() && t.SumVec? && |x| == t.InputLen() && |jr| == 1
    ensures CircuitValue(t, x, jr) == Weighted(BitChecks(x), jr[0])
  {
    hide Weighted, Total, NextPowerOfTwo, TrueOuts;
    ChunkedCircuit(t, x, jr);
  }

  /** Histogram computes the weighted sum of the bit checks, times the second joint randomness value, plus
      the sum of the buckets minus one, times its square. */
  lemma {:induction false} HistogramCircuit(t: FlpType, x: seq<elem>, jr: seq<elem>)
    requires t.Valid() && t.Histogram? && |x| == t.InputLen() && |jr| == 2
    ensures CircuitValue(t, x, jr)
         == Add(Mul(jr[1], Weighted(BitChecks(x), jr[0])), Mul(Mul(jr[1], jr[1]), Sub(Total(x), 1)))
  {
    hide Weighted, Total, NextPowerOfTwo, TrueOuts, Add, Mul, Sub;
    ChunkedCircuit(t, x, jr);
  }

  /** The circuit's weights on its gadget outputs. */
  function GadgetWeights(t: FlpType, d: seq<elem>, jr: seq<elem>): elem
    requires |jr| == t.JointRandLen() && (t.Count? ==> |d| == 1)
  {
    match t
    case Count => d[0]
    case Sum(_) => Weighted(d, jr[0])
    case SumVec(_, _, _) => Total(d)
    case Histogram(_, _) => Mul(jr[1], Total(d))
  }

  /** The output of the circuit for any gadget outputs: its value on the real gadget, plus their deviation
      from the real outputs, summed with the circuit's weights. */
  lemma {:induction false} OutputDeviates(t: FlpType, x: seq<elem>, jr: seq<elem>, d: seq<elem>)
    requires t.Valid() && |x| == t.InputLen() && |jr| == t.JointRandLen() && |d| == t.GadgetCalls()
    ensures Output(t, x, AddVec(TrueOuts(t, x, jr), d), jr, 1) == Add(CircuitValue(t, x, jr), GadgetWeights(t, d, jr))
  {
    hide Output, TrueOuts, Add, GadgetWeights, FlpType.InputLen, FlpType.GadgetCalls;
    var z := Zeros(t.InputLen());
    AddVecZeros(x);
    AddZero(1);
    OutputAdd(t, x, z, TrueOuts(t, x, jr), d, jr, 1, 0);
    DeviationOutput(t, d, jr);
  }

  lemma {:induction false} DeviationOutput(t: FlpType, d: seq<elem>, jr: seq<elem>)
    requires t.Valid() && |jr| == t.JointRandLen() && |d| == t.GadgetCalls()
    ensures Output(t, Zeros(t.InputLen()), d, jr, 0) == GadgetWeights(t, d, jr)
  {
    hide Weighted, Add, Sub, Mul, NextPowerOfTwo;
    match t
    case Count => SubOfZero(d[0]);
    case Sum(_) =>
    case SumVec(_, _, _) =>
    case Histogram(length, _) =>
      TotalOfZeros(length);
      SubSelf(0);
      MulZero(Mul(jr[1], jr[1]));
      AddZero(Mul(jr[1], Total(d)));
      AddComm(0, Mul(jr[1], Total(d)));
  }

  lemma {:induction false} SubOfZero(a: elem)
    ensures Sub(a, 0) == a
  {
    ModId(a);
  }

  lemma {:induction false} TotalOfZeros(n: nat)
    ensures Total(Zeros(n)) == 0
  {
    SumZero(n, i => VecElem(Zeros(n), i));
  }

  // ------------------------------------------------------------------ soundness

  /** `decide` accepts the proof at more than 2(m-1) distinct query points. */
  ghost predicate Convincing(t: FlpType, x: seq<elem>, proof: seq<elem>, jr: seq<elem>, rs: seq<elem>)
    requires t.Valid() && |x| == t.InputLen() && |jr| == t.JointRandLen() && WireLog(t) + 1 <= MAX_ROOTS
  {
    && |proof| == t.ProofLen() && Distinct(rs) && |rs| > 2 * (WirePolyLen(t.GadgetCalls()) - 1)
    && forall i :: 0 <= i < |rs| ==> Accepts(t, QuerySpec(t, x, proof, rs[i], jr, 1))
  }

  /** Root counting: whatever proof is claimed, a convincing one carries the polynomial of the real
      gadget on the wires it commits to. */
  lemma {:induction false} ConvincingPoly(t: FlpType, x: seq<elem>, proof: seq<elem>, jr: seq<elem>, rs: seq<elem>)
    requires t.Valid() && |x| == t.InputLen() && |jr| == t.JointRandLen() && WireLog(t) + 1 <= MAX_ROOTS
    requires Convincing(t, x, proof, jr, rs) && t.TheGadget().WellFormed()
    requires t.TheGadget().Arity() == t.ProveRandLen() <= |proof| && 1 <= Exp2(WireLog(t))
    ensures var a := t.ProveRandLen();
            && SamePoly(proof[a..], GadgetPoly(t.TheGadget(), HonestWires(t, x, proof[..a], jr)))
            && Output(t, x, QueryAnswers(t, proof[a..]), jr, 1) == 0
  {
    DeclaredLengths(t);
    ProofPolyFits(t);
    hide QuerySpec, Accepts, Output, QueryAnswers, Eval, GadgetPoly, NextPowerOfTwo, Gadget.Call, Exp2, GadgetPolyLen, HonestWires;
    var a := t.ProveRandLen();
    var g, fs, poly := t.TheGadget(), HonestWires(t, x, proof[..a], jr), proof[a..];
    forall i | 0 <= i < |rs|
      ensures Eval(poly, rs[i]) == Eval(GadgetPoly(g, fs), rs[i])
      ensures Output(t, x, QueryAnswers(t, poly), jr, 1) == 0
    {
      AcceptedMeans(t, x, proof, jr, rs[i]);
      GadgetHomomorphism(g, fs, rs[i]);
    }
    GadgetPolyFits(g, fs, WirePolyLen(t.GadgetCalls()));
    AgreeEverywhere(poly, GadgetPoly(g, fs), rs);
    assert 0 < |rs| && Accepts(t, QuerySpec(t, x, proof, rs[0], jr, 1));
  }

  /** Soundness of the proof: whatever proof is claimed, if `decide` accepts at more than 2(m-1)
      distinct query points, the circuit evaluated on the real gadget is zero. */
  lemma {:induction false} ProofSoundness(t: FlpType, x: seq<elem>, proof: seq<elem>, jr: seq<elem>, rs: seq<elem>)
    requires t.Valid() && |x| == t.InputLen() && |jr| == t.JointRandLen() && WireLog(t) + 1 <= MAX_ROOTS
    requires Convincing(t, x, proof, jr, rs)
    ensures CircuitValue(t, x, jr) == 0
  {
    DeclaredLengths(t);
    ProofPolyFits(t);
    Exp2Positive(WireLog(t));
    hide QuerySpec, Accepts, Output, QueryAnswers, Eval, GadgetPoly, NextPowerOfTwo, Gadget.Call, Exp2, GadgetPolyLen, HonestWires, Convincing;
    var a := t.ProveRandLen();
    ConvincingPoly(t, x, proof, jr, rs);
    HonestAnswers(t, x, proof[..a], jr, proof[a..]);
  }

  /** Soundness of the distributed proof: whatever shares of input and proof the verifiers hold, if the
      summed verifiers are accepted at more than 2(m-1) distinct query points, the circuit is zero on
      the summed input. */
  lemma {:induction false} DistributedSoundness(t: FlpType, xs: seq<seq<elem>>, ps: seq<seq<elem>>, jr: seq<elem>, rs: seq<elem>)
    requires t.Valid() && |jr| == t.JointRandLen() && WireLog(t) + 1 <= MAX_ROOTS
    requires 1 <= |xs| == |ps| < P && AllLen(xs, t.InputLen()) && AllLen(ps, t.ProofLen())
    requires Distinct(rs) && |rs| > 2 * (WirePolyLen(t.GadgetCalls()) - 1)
    requires forall i :: 0 <= i < |rs| ==> Accepts(t, VecSum(QueryAll(t, xs, ps, rs[i], jr, Inv(Mod(|xs|))), t.VerifierLen()))
    ensures CircuitValue(t, VecSum(xs, t.InputLen()), jr) == 0
  {
    hide QuerySpec, Accepts, Inv, Mul, CircuitValue, VecSum, QueryAll, Mod, WireLog, WirePolyLen, FlpType.ProofLen, FlpType.InputLen, FlpType.VerifierLen;
    var x, proof := VecSum(xs, t.InputLen()), VecSum(ps, t.ProofLen());
    ModId(|xs|);
    assert Mul(Mod(|xs|), Inv(Mod(|xs|))) == 1;
    forall i | 0 <= i < |rs| ensures Accepts(t, QuerySpec(t, x, proof, rs[i], jr, 1)) {
      QuerySum(t, xs, ps, rs[i], jr, Inv(Mod(|xs|)));
    }
    ProofSoundness(t, x, proof, jr, rs);
  }

  /** The exact condition for completeness: an honest proof is accepted at all of more than 2(m-1)
      query points if and only if `call_poly` left no stale coefficients in it. */
  lemma {:induction false} HonestAcceptedIff(t: FlpType, x: seq<elem>, pr: seq<elem>, jr: seq<elem>, rs: seq<elem>)
    requires t.Valid() && |x| == t.InputLen() && |jr| == t.JointRandLen() && |pr| == t.ProveRandLen()
    requires ProveFits(t) && WireLog(t) + 1 <= MAX_ROOTS && CircuitValue(t, x, jr) == 0
    requires Distinct(rs) && |rs| > 2 * (WirePolyLen(t.GadgetCalls()) - 1)
    ensures Convincing(t, x, ProofSpec(t, x, pr, jr), jr, rs) <==> HonestStaleFree(t, x, pr, jr)
  {
    hide ProofSpec, HonestStaleFree, Convincing, CircuitValue, WirePolyLen, WireLog, FlpType.Valid, ProveFits;
    if HonestStaleFree(t, x, pr, jr) {
      HonestConvinces(t, x, pr, jr, rs);
    }
    if Convincing(t, x, ProofSpec(t, x, pr, jr), jr, rs) {
      ConvincedStaleFree(t, x, pr, jr, rs);
    }
  }

  lemma {:induction false} HonestConvinces(t: FlpType, x: seq<elem>, pr: seq<elem>, jr: seq<elem>, rs: seq<elem>)
    requires t.Valid() && |x| == t.InputLen() && |jr| == t.JointRandLen() && |pr| == t.ProveRandLen()
    requires ProveFits(t) && WireLog(t) + 1 <= MAX_ROOTS && CircuitValue(t, x, jr) == 0 && HonestStaleFree(t, x, pr, jr)
    requires Distinct(rs) && |rs| > 2 * (WirePolyLen(t.GadgetCalls()) - 1)
    ensures Convincing(t, x, ProofSpec(t, x, pr, jr), jr, rs)
  {
    hide ProofSpec, QuerySpec, HonestStaleFree, Accepts, CircuitValue, WirePolyLen, WireLog, FlpType.Valid, FlpType.ProofLen, FlpType.InputLen, ProveFits;
    forall i | 0 <= i < |rs| ensures Accepts(t, QuerySpec(t, x, ProofSpec(t, x, pr, jr), rs[i], jr, 1)) {
      HonestAccepted(t, x, pr, jr, rs[i]);
    }
  }

  lemma {:induction false} ConvincedStaleFree(t: FlpType, x: seq<elem>, pr: seq<elem>, jr: seq<elem>, rs: seq<elem>)
    requires t.Valid() && |x| == t.InputLen() && |jr| == t.JointRandLen() && |pr| == t.ProveRandLen()
    requires ProveFits(t) && WireLog(t) + 1 <= MAX_ROOTS && Convincing(t, x, ProofSpec(t, x, pr, jr), jr, rs)
    ensures HonestStaleFree(t, x, pr, jr)
  {
    hide GadgetPoly, ProofSpec, Output, HonestWires, QueryAnswers, StaleFree, SamePoly, FlpType.TheGadget, WirePolyLen, WireLog, Convincing,
         FlpType.Valid, FlpType.ProofLen, FlpType.InputLen, ProveFits, Exp2, GadgetPolyLen;
    ProofTail(t);
    HonestProofPoly(t, x, pr, jr);
    ConvincingPoly(t, x, ProofSpec(t, x, pr, jr), jr, rs);
  }

  /** Completeness for valid measurements: however the measurement and its honest proof are shared,
      the summed verifier is accepted, for every circuit that is never stale. */
  lemma {:induction false} ValidAccepted(t: FlpType, x: seq<elem>, pr: seq<elem>, jr: seq<elem>, r: elem,
                                         xs: seq<seq<elem>>, ps: seq<seq<elem>>)
    requires t.Valid() && ValidInput(t, x) && |jr| == t.JointRandLen() && |pr| == t.ProveRandLen()
    requires ProveFits(t) && WireLog(t) + 1 <= MAX_ROOTS && NeverStale(t)
    requires 1 <= |xs| == |ps| < P && AllLen(xs, t.InputLen()) && AllLen(ps, t.ProofLen())
    requires VecSum(xs, t.InputLen()) == x && VecSum(ps, t.ProofLen()) == ProofSpec(t, x, pr, jr)
    ensures Accepts(t, VecSum(QueryAll(t, xs, ps, r, jr, Inv(Mod(|xs|))), t.VerifierLen()))
  {
    hide QuerySpec, ProofSpec, Accepts, Inv, CircuitValue, HonestStaleFree, WireLog, Total, VecSum;
    ValidVanishes(t, x, jr);
    StaleFreeTypes(t, x, pr, jr);
    DistributedCompleteness(t, x, pr, jr, r, xs, ps);
  }

  lemma {:induction false} AcceptedMeans(t: FlpType, x: seq<elem>, proof: seq<elem>, jr: seq<elem>, r: elem)
    requires t.Valid() && |x| == t.InputLen() && |jr| == t.JointRandLen() && |proof| == t.ProofLen()
    requires WireLog(t) + 1 <= MAX_ROOTS && Accepts(t, QuerySpec(t, x, proof, r, jr, 1))
    requires t.TheGadget().Arity() == t.ProveRandLen() <= |proof|
    ensures var a := t.ProveRandLen();
            && Output(t, x, QueryAnswers(t, proof[a..]), jr, 1) == 0
            && t.TheGadget().Call(EvalAll(HonestWires(t, x, proof[..a], jr), r)) == Eval(proof[a..], r)
  {
    hide QuerySpec, Output, QueryAnswers, Eval, NextPowerOfTwo, Gadget.Call, WireTable;
    var a := t.ProveRandLen();
    QueryParts(t, x, proof, r, jr, 1);
    var v := QuerySpec(t, x, proof, r, jr, 1);
    var ws := WireValues(WireTable(t, proof[..a], x, jr, 1), WireLog(t), r);
    assert v[1..1 + a] == ws == EvalAll(HonestWires(t, x, proof[..a], jr), r);
  }

  lemma {:induction false} WeightedIsEval(gs: seq<elem>, r: elem)
    ensures Weighted(gs, r) == Eval([0] + gs, r)
  {
    hide Add, Mul, Pow;
    var p, n := [0] + gs, |gs|;
    EvalIsSum(p, r, n + 1);
    var f: int -> elem := i => Monomial(p, r, i);
    SumConcat(1, n, f);
    assert Sums.Sum(1, f) == Add(Sums.Sum(0, f), f(0));
    MulZero(Pow(r, 0));
    AddZero(0);
    forall i: nat ensures f(1 + i) == WeightedElem(gs, r, i) {
      assert Pad(p, 1 + i) == Pad(gs, i);
      MulComm(Pad(gs, i), Pow(r, i + 1));
    }
    SumExt(n, i => f(1 + i), i => WeightedElem(gs, r, i));
    AddZero(Weighted(gs, r));
    SumExt(n + 1, i => Monomial(p, r, i), f);
  }

  /** If the weighted bit checks vanish at more than |x| points, every element is a bit. */
  lemma {:induction false} WeightedSoundness(x: seq<elem>, js: seq<elem>)
    requires Distinct(js) && |js| > |x|
    requires forall i :: 0 <= i < |js| ==> Weighted(BitChecks(x), js[i]) == 0
    ensures forall k :: 0 <= k < |x| ==> IsBit(x[k])
  {
    hide Weighted, Eval, BitCheck;
    var gs := BitChecks(x);
    var p := [0] + gs;
    forall i | 0 <= i < |js| ensures Eval(p, js[i]) == 0 {
      WeightedIsEval(gs, js[i]);
    }
    RootCounting(p, js);
    forall k | 0 <= k < |x| ensures IsBit(x[k]) {
      assert Pad(p, k + 1) == gs[k];
      BitCheckIff(x[k]);
    }
  }

  /** Soundness of the joint randomness for Sum and SumVec: if some input element is neither zero
      nor one, at most as many joint randomness values as there are elements hide it. */
  lemma {:induction false} JointRandSoundness(t: FlpType, x: seq<elem>, js: seq<elem>)
    requires t.Valid() && (t.Sum? || t.SumVec?) && |x| == t.InputLen()
    requires Distinct(js) && |js| > |x|
    requires forall i :: 0 <= i < |js| ==> CircuitValue(t, x, [js[i]]) == 0
    ensures ValidInput(t, x)
  {
    hide Weighted, Total, NextPowerOfTwo, TrueOuts;
    forall i | 0 <= i < |js| ensures Weighted(BitChecks(x), js[i]) == 0 {
      if t.Sum? {
        SumCircuit(t, x, [js[i]]);
      } else {
        ChunkedCircuit(t, x, [js[i]]);
      }
    }
    WeightedSoundness(x, js);
  }

  /** Soundness for Sum and SumVec: an input for which convincing proofs exist under more joint
      randomness values than it has elements is a vector of bits. */
  lemma {:induction false} SumSoundness(t: FlpType, x: seq<elem>, js: seq<elem>, proofs: seq<seq<elem>>, points: seq<seq<elem>>)
    requires t.Valid() && (t.Sum? || t.SumVec?) && |x| == t.InputLen() && WireLog(t) + 1 <= MAX_ROOTS
    requires Distinct(js) && |js| == |proofs| == |points| > |x|
    requires forall i :: 0 <= i < |js| ==> Convincing(t, x, proofs[i], [js[i]], points[i])
    ensures ValidInput(t, x)
  {
    hide CircuitValue, Convincing, NextPowerOfTwo, WireLog;
    forall i | 0 <= i < |js| ensures CircuitValue(t, x, [js[i]]) == 0 {
      ProofSoundness(t, x, proofs[i], [js[i]], points[i]);
    }
    JointRandSoundness(t, x, js);
  }

  /** Soundness for Count: the circuit vanishes exactly on zero and one. */
  lemma {:induction false} CountSoundness(x: seq<elem>)
    requires |x| == 1
    ensures CircuitValue(Count, x, []) == 0 <==> ValidInput(Count, x)
  {
    hide Mul, Sub, NextPowerOfTwo;
    CountRow(x, [], 1);
    CountValue(x);
    BitCheckIff(x[0]);
  }

  /** One entry is one and all others are zero. */
  ghost predicate OneHot(x: seq<elem>) {
    exists k :: 0 <= k < |x| && HotAt(x, k)
  }

  predicate HotAt(x: seq<elem>, k: int) {
    0 <= k < |x| && forall j :: 0 <= j < |x| ==> x[j] == if j == k then 1 else 0
  }

  function Ones(x: seq<elem>): (n: nat)
    ensures n <= |x|
  {
    if x == [] then 0 else Ones(x[..|x| - 1]) + if x[|x| - 1] == 1 then 1 else 0
  }

  lemma {:induction false} TotalOnes(x: seq<elem>)
    requires (forall i :: 0 <= i < |x| ==> IsBit(x[i])) && |x| < P
    ensures Total(x) == Ones(x)
    ensures Ones(x) == 0 ==> forall i :: 0 <= i < |x| ==> x[i] == 0
    ensures Ones(x) == 1 ==> OneHot(x)
  {
    hide Total, Mod;
    if x == [] {
      TotalNil();
    } else {
      var n := |x| - 1;
      var init := x[..n];
      TotalOnes(init);
      assert x == init + [x[n]];
      TotalAppend(init, x[n]);
      ModId(Ones(init) + x[n]);
      if x[n] == 1 && Ones(init) == 0 {
        assert HotAt(x, n);
      } else if x[n] == 0 && Ones(init) == 1 {
        var k :| 0 <= k < n && HotAt(init, k);
        assert HotAt(x, k);
      }
    }
  }

  /** Soundness for Histogram: for each first joint randomness value out of more than `length`,
      two nonzero second values suffice to force a one-hot vector (of bits with sum one, if the field
      has no more elements than the vector). */
  lemma {:induction false} HistogramSoundness(t: FlpType, x: seq<elem>, js: seq<elem>, a: elem, b: elem)
    requires t.Valid() && t.Histogram? && |x| == t.InputLen()
    requires Distinct(js) && |js| > |x| && a != b && a != 0 && b != 0
    requires forall i :: 0 <= i < |js| ==> CircuitValue(t, x, [js[i], a]) == 0 && CircuitValue(t, x, [js[i], b]) == 0
    ensures ValidInput(t, x) && (|x| < P ==> OneHot(x))
  {
    hide Weighted, Total, NextPowerOfTwo, TrueOuts, Add, Mul, Sub, OneHot;
    var d := Sub(Total(x), 1);
    forall i | 0 <= i < |js| ensures Weighted(BitChecks(x), js[i]) == 0 && d == 0 {
      var w := Weighted(BitChecks(x), js[i]);
      ChunkedCircuit(t, x, [js[i], a]);
      ChunkedCircuit(t, x, [js[i], b]);
      TwoPoints(w, d, a, b);
    }
    WeightedSoundness(x, js);
    assert 0 < |js| && Weighted(BitChecks(x), js[0]) == 0;
    SubZeroEq(Total(x), 1);
    if |x| < P {
      TotalOnes(x);
    }
  }

  /** Soundness for Histogram, combined: convincing proofs under more first joint randomness values than
      there are buckets, each with two nonzero second values, exist for one-hot vectors only. */
  lemma {:induction false} HistogramProofSoundness(t: FlpType, x: seq<elem>, js: seq<elem>, a: elem, b: elem,
                                                   proofs: seq<(seq<elem>, seq<elem>)>, points: seq<(seq<elem>, seq<elem>)>)
    requires t.Valid() && t.Histogram? && |x| == t.InputLen() && WireLog(t) + 1 <= MAX_ROOTS
    requires Distinct(js) && |js| == |proofs| == |points| > |x| && a != b && a != 0 && b != 0
    requires forall i :: 0 <= i < |js| ==>
               Convincing(t, x, proofs[i].0, [js[i], a], points[i].0) && Convincing(t, x, proofs[i].1, [js[i], b], points[i].1)
    ensures ValidInput(t, x) && (|x| < P ==> OneHot(x))
  {
    hide CircuitValue, Convincing, NextPowerOfTwo, WireLog, OneHot, Total;
    forall i | 0 <= i < |js| ensures CircuitValue(t, x, [js[i], a]) == 0 && CircuitValue(t, x, [js[i], b]) == 0 {
      ProofSoundness(t, x, proofs[i].0, [js[i], a], points[i].0);
      ProofSoundness(t, x, proofs[i].1, [js[i], b], points[i].1);
    }
    HistogramSoundness(t, x, js, a, b);
  }

  /** A quadratic a w + a^2 d without constant term that vanishes at two nonzero points is zero. */
  lemma {:induction false} TwoPoints(w: elem, d: elem, a: elem, b: elem)
    requires a != b && a != 0 && b != 0
    requires Add(Mul(a, w), Mul(Mul(a, a), d)) == 0 && Add(Mul(b, w), Mul(Mul(b, b), d)) == 0
    ensures w == 0 && d == 0
  {
    hide Add, Mul, Sub;
    LinearFactor(w, d, a);
    LinearFactor(w, d, b);
    // w + a d == 0 == w + b d, so (a - b) d == 0
    SubExchange(w, Mul(a, d), w, Mul(b, d));
    SubSelf(w);
    SubSelf(0);
    AddZero(Sub(Mul(a, d), Mul(b, d)));
    MulComm(a, d);
    MulComm(b, d);
    DistribSub(d, a, b);
    MulCancel(d, Sub(a, b));
    SubZeroEq(a, b);
    MulZero(a);
    AddZero(w);
  }

  lemma {:induction false} LinearFactor(w: elem, d: elem, a: elem)
    requires a != 0 && Add(Mul(a, w), Mul(Mul(a, a), d)) == 0
    ensures Add(w, Mul(a, d)) == 0
  {
    hide Add, Mul;
    MulAssoc(a, a, d);
    Distrib(a, w, Mul(a, d));
    MulCancel(a, Add(w, Mul(a, d)));
  }
}
