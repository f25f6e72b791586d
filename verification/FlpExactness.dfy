/** Exactly which configurations prove correctly. `ParallelSum::call_poly` reuses its partial buffer, so
    a product that is shorter than an earlier one inherits coefficients. With one chunk, or on the FFT
    path, this never happens; in every other configuration it happens for some inputs, and for every
    measurement some randomness makes the honest proof fail. */
module FlpExactness {
  import opened Field
  import opened Powers
  import opened Sums
  import opened Fft
  import opened InverseFft
  import opened Polynomial
  import opened Gadgets
  import opened FlpTypes
  import opened Flp
  import opened FlpCompleteness
  import opened FlpSoundness

  // ------------------------------------------------------------------ a product left behind

  ghost predicate ZeroProduct(pair: seq<seq<elem>>)
    requires |pair| == 2
  {
    IsZeroPoly(MulPoly(pair[0], pair[1]))
  }

  /** The second to last product is not constant, and all others are zero. */
  ghost predicate Spike(chunks: nat, inp: seq<seq<elem>>)
    requires 2 <= chunks && Pairs(chunks, inp)
  {
    && WrittenLen(PairAt(inp, chunks - 2)) >= 2
    && forall c: nat :: c < chunks && c != chunks - 2 ==> ZeroProduct(PairAt(inp, c))
  }

  lemma {:induction false} ZeroWritten(pair: seq<seq<elem>>)
    requires |pair| == 2 && pair[0] != [] && pair[1] != [] && ZeroProduct(pair)
    ensures WrittenLen(pair) == 1 && forall k: nat :: Pad(MulPoly(pair[0], pair[1]), k) == 0
  {
    hide MulPoly;
    TrimLenSame(MulPoly(pair[0], pair[1]), []);
  }

  /** Zero products leave nothing behind. */
  lemma {:induction false} QuietPrefix(chunks: nat, inp: seq<seq<elem>>, k: nat)
    requires Pairs(chunks, inp) && forall c: nat :: c < chunks ==> ZeroProduct(PairAt(inp, c))
    ensures Leftover(chunks, inp, k) == 0 && StaleSum(chunks, inp, k) == 0
  {
    hide MulPoly, Add, WrittenLen, ZeroProduct;
    if chunks > 0 {
      var init := inp[..2 * (chunks - 1)];
      forall c: nat | c < chunks - 1 ensures ZeroProduct(PairAt(init, c)) {
        assert PairAt(init, c) == PairAt(inp, c);
      }
      QuietPrefix(chunks - 1, init, k);
      assert inp[2 * (chunks - 1)..] == PairAt(inp, chunks - 1);
      ZeroWritten(PairAt(inp, chunks - 1));
      AddZero(0);
    }
  }

  /** The leading coefficient of the spike is added twice. */
  lemma {:induction false} SpikeStale(chunks: nat, inp: seq<seq<elem>>)
    requires 2 <= chunks && Pairs(chunks, inp) && Spike(chunks, inp)
    ensures var pair := PairAt(inp, chunks - 2);
            && WrittenLen(pair) <= |MulPoly(pair[0], pair[1])|
            && StaleSum(chunks, inp, WrittenLen(pair) - 1) != 0
  {
    hide MulPoly, Add, ZeroProduct, IsZeroPoly;
    var spike, last := PairAt(inp, chunks - 2), PairAt(inp, chunks - 1);
    var k := WrittenLen(spike) - 1;
    var init, init2 := inp[..2 * (chunks - 1)], inp[..2 * (chunks - 2)];
    assert inp[2 * (chunks - 1)..] == last && init[2 * (chunks - 2)..] == spike && init[..2 * (chunks - 2)] == init2;
    forall c: nat | c < chunks - 2 ensures ZeroProduct(PairAt(init2, c)) {
      assert PairAt(init2, c) == PairAt(inp, c);
    }
    QuietPrefix(chunks - 2, init2, k);
    ZeroWritten(last);
    var top := Pad(MulPoly(spike[0], spike[1]), k);
    assert top != 0;
    AddZero(0);
    assert StaleSum(chunks - 1, init, k) == Add(StaleSum(chunks - 2, init2, k), 0) == 0;
    assert Leftover(chunks - 1, init, k) == top;
    AddZero(top);
    AddComm(0, top);
    assert StaleSum(chunks, inp, k) == Add(StaleSum(chunks - 1, init, k), Leftover(chunks - 1, init, k));
  }

  /** A product with two different values is not constant. */
  lemma {:induction false} TwoValues(pair: seq<seq<elem>>, a: elem, b: elem)
    requires |pair| == 2 && pair[0] != [] && pair[1] != []
    requires Mul(Eval(pair[0], a), Eval(pair[1], a)) != Mul(Eval(pair[0], b), Eval(pair[1], b))
    ensures WrittenLen(pair) >= 2
  {
    hide *;
    if WrittenLen(pair) == 1 {
      OneValue(pair, a);
      OneValue(pair, b);
    }
  }

  lemma {:induction false} OneValue(pair: seq<seq<elem>>, a: elem)
    requires |pair| == 2 && pair[0] != [] && pair[1] != [] && WrittenLen(pair) == 1
    ensures MulPoly(pair[0], pair[1]) != [] && Mul(Eval(pair[0], a), Eval(pair[1], a)) == MulPoly(pair[0], pair[1])[0]
  {
    hide MulPoly, Mul, Eval;
    var p := MulPoly(pair[0], pair[1]);
    EvalMul(pair[0], pair[1], a);
    TrimmedSame(p, 1);
    assert p[..1] == [p[0]];
    EvalSame(p[..1], p, a);
    EvalConstant(p[0], a);
  }

  lemma {:induction false} ZeroFactor(p: seq<elem>, q: seq<elem>)
    requires IsZeroPoly(p)
    ensures IsZeroPoly(MulPoly(p, q))
  {
    hide MulPoly;
    forall k ensures Pad(MulPoly(p, q), k) == 0 {
      MulPolySame(p, [], q, q, k);
      MulPolyNil(q);
    }
  }

  // ------------------------------------------------------------------ configurations of the gadget

  /** On a zeroed buffer, `call_poly` writes the gadget polynomial. */
  ghost predicate Exact(g: Gadget, inp: seq<seq<elem>>)
    requires Fits(g, g.MemLen(), inp)
  {
    CallPolyEffect(g, Zeros(g.MemLen()), inp) == PadTo(GadgetPoly(g, inp), g.MemLen())
  }

  function SpikeWire(chunks: nat, m: nat, j: nat): (f: seq<elem>)
    ensures |f| == m
  {
    if j == 2 * chunks - 4 then PadTo([0, 1], m) else if j == 2 * chunks - 3 then PadTo([1], m) else Zeros(m)
  }

  /** X times one in the second to last chunk, and zeros. */
  function SpikeInput(chunks: nat, m: nat): (inp: seq<seq<elem>>)
    requires 2 <= chunks
    ensures |inp| == 2 * chunks && forall j :: 0 <= j < |inp| ==> |inp[j]| == m
  {
    seq(2 * chunks, j requires 0 <= j => SpikeWire(chunks, m, j))
  }

  lemma {:induction false} SpikeInputIs(chunks: nat, m: nat)
    requires 2 <= chunks && 2 <= m
    ensures Pairs(chunks, SpikeInput(chunks, m)) && Spike(chunks, SpikeInput(chunks, m))
  {
    hide MulPoly, Eval, Mul, Add, WrittenLen;
    var inp := SpikeInput(chunks, m);
    var pair := PairAt(inp, chunks - 2);
    assert pair[0] == PadTo([0, 1], m) && pair[1] == PadTo([1], m);
    EvalSame(pair[0], [0, 1], 0);
    EvalSame(pair[0], [0, 1], 1);
    EvalSame(pair[1], [1], 0);
    EvalSame(pair[1], [1], 1);
    EvalConstant(1, 0);
    EvalConstant(1, 1);
    EvalShift([1], 0);
    EvalShift([1], 1);
    assert [0] + [1] == [0, 1];
    MulOne(1);
    MulOne(0);
    TwoValues(pair, 0, 1);
    forall c: nat | c < chunks && c != chunks - 2 ensures ZeroProduct(PairAt(inp, c)) {
      assert PairAt(inp, c)[0] == Zeros(m);
      ZeroFactor(PairAt(inp, c)[0], PairAt(inp, c)[1]);
    }
  }

  /** The exact condition for a sum of multiplications: every call writes the gadget polynomial if and
      only if there is one chunk, the FFT path is taken, or the wires are constants. */
  lemma {:induction false} ConfigurationExactIff(calls: nat, chunks: nat)
    requires 1 <= chunks
    ensures var g := ParallelSum(MulGadget(calls), chunks);
            (forall inp :: Fits(g, g.MemLen(), inp) ==> Exact(g, inp)) <==> chunks == 1 || calls == 0 || calls >= 16
  {
    hide WirePolyLen, MulPoly, Exact, StaleFree, Gadget.MemLen, Fits;
    var g := ParallelSum(MulGadget(calls), chunks);
    if chunks == 1 || calls == 0 || calls >= 16 {
      forall inp | Fits(g, g.MemLen(), inp) ensures Exact(g, inp) {
        SafeConfiguration(calls, chunks, inp);
      }
    } else {
      UnsafeConfiguration(calls, chunks);
    }
  }

  lemma {:induction false} SafeConfiguration(calls: nat, chunks: nat, inp: seq<seq<elem>>)
    requires 1 <= chunks && (chunks == 1 || calls == 0 || calls >= 16)
    requires var g := ParallelSum(MulGadget(calls), chunks); Fits(g, g.MemLen(), inp)
    ensures Exact(ParallelSum(MulGadget(calls), chunks), inp)
  {
    hide WirePolyLen, CallPolyEffect, GadgetPoly, Gadget.MemLen, NothingStale, NextPowerOfTwo;
    var g, m := ParallelSum(MulGadget(calls), chunks), WirePolyLen(calls);
    GadgetShape(calls, chunks);
    assert Wires(inp, m) && |inp| == 2 * chunks && |inp[0]| == m;
    ThresholdCalls(calls);
    ConstantWires();
    if calls < 16 {
      SafePairs(chunks, inp, m, g.MemLen());
    }
    CallPolyExactIff(g, g.MemLen(), inp);
  }

  lemma {:induction false} GadgetShape(calls: nat, chunks: nat)
    requires 1 <= chunks
    ensures var g := ParallelSum(MulGadget(calls), chunks);
            g.WellFormed() && g.inner.Arity() == 2 && g.Arity() == 2 * chunks && g.Calls() == g.inner.Calls() == calls
  {
    assert MulGadget(calls).Arity() == 2;
  }

  lemma {:induction false} SafePairs(chunks: nat, inp: seq<seq<elem>>, m: nat, n: nat)
    requires Pairs(chunks, inp) && Wires(inp, m) && (chunks == 1 || m == 1)
    ensures NothingStale(chunks, inp, n)
  {
    hide MulPoly, StaleSum, WrittenLen;
    if chunks > 1 {
      forall c: nat, d: nat | c < d < chunks ensures WrittenLen(PairAt(inp, c)) <= WrittenLen(PairAt(inp, d)) {
        ConstantProduct(PairAt(inp, c));
        ConstantProduct(PairAt(inp, d));
      }
    }
    forall k: nat | k < n ensures StaleSum(chunks, inp, k) == 0 {
      NonShrinkingExact(chunks, inp, k);
    }
  }

  lemma {:induction false} ConstantWires()
    ensures WirePolyLen(0) == 1
  {
    assert Exp2(0) == 1;
    Log2Unique(1, 0);
  }

  lemma {:induction false} ConstantProduct(pair: seq<seq<elem>>)
    requires |pair| == 2 && |pair[0]| == |pair[1]| == 1
    ensures WrittenLen(pair) == 1
  {
    hide MulPoly;
  }

  lemma {:induction false} UnsafeConfiguration(calls: nat, chunks: nat)
    requires 2 <= chunks && 1 <= calls < 16
    ensures var g, inp := ParallelSum(MulGadget(calls), chunks), SpikeInput(chunks, WirePolyLen(calls));
            Fits(g, g.MemLen(), inp) && !Exact(g, inp)
  {
    hide WirePolyLen, CallPolyEffect, GadgetPoly, Gadget.MemLen, SpikeInput, Spike, StaleFree, NextPowerOfTwo;
    var g, m := ParallelSum(MulGadget(calls), chunks), WirePolyLen(calls);
    var inp := SpikeInput(chunks, m);
    GadgetShape(calls, chunks);
    assert Wires(inp, m) && Fits(g, g.MemLen(), inp);
    ThresholdCalls(calls);
    SpikeInputIs(chunks, m);
    CallPolyExactIff(g, g.MemLen(), inp);
    SpikeNotFree(g, m, inp);
  }

  lemma {:induction false} SpikeNotFree(g: Gadget, m: nat, inp: seq<seq<elem>>)
    requires g.ParallelSum? && g.inner.MulGadget? && 2 <= g.chunks && m == WirePolyLen(g.Calls()) < FFT_THRESHOLD
    requires |inp| == 2 * g.chunks == g.Arity() && Wires(inp, m) && Pairs(g.chunks, inp) && Spike(g.chunks, inp)
    ensures g.WellFormed() && !StaleFree(g, inp)
  {
    hide WirePolyLen, Gadget.MemLen, Spike, MulPoly, StaleSum;
    SpikeStale(g.chunks, inp);
    var pair := PairAt(inp, g.chunks - 2);
    MemLenFacts(g);
    assert |MulPoly(pair[0], pair[1])| == 2 * m - 1 == GadgetPolyLen(g.Degree(), m);
    var k := WrittenLen(pair) - 1;
    assert k < g.MemLen() && StaleSum(g.chunks, inp, k) != 0;
  }

  // ------------------------------------------------------------------ configurations of the circuits

  /** Prover randomness that is one for the two wires of the second to last chunk, and zero elsewhere. */
  function SpikeSeeds(chunk: nat): (pr: seq<elem>)
    requires 2 <= chunk
    ensures |pr| == chunk * 2
  {
    seq(chunk * 2, j => if j == chunk * 2 - 4 || j == chunk * 2 - 3 then 1 else 0)
  }

  lemma {:induction false} SpikeSeedsAt(chunk: nat, c: nat)
    requires 2 <= chunk && c < chunk
    ensures SpikeSeeds(chunk)[2 * c] == SpikeSeeds(chunk)[2 * c + 1] == if c == chunk - 2 then 1 else 0
  {
  }

  /** With joint randomness zero, the even wires carry zeros after their seed. */
  lemma {:induction false} EvenRow(t: FlpType, x: seq<elem>, jr: seq<elem>, k: nat, j: nat)
    requires t.Valid() && t.Chunked() && |x| == t.InputLen() && |jr| == t.JointRandLen() && jr[0] == 0
    requires k < t.GadgetCalls() && j < t.ProveRandLen() && j % 2 == 0
    ensures WireRow(t, x, jr, 1, k)[j] == 0
  {
    hide Mul, Sub;
    var i := k * t.chunkLength + j / 2;
    MulZero(Pow(0, i));
    MulComm(0, Pow(0, i));
    if i < |x| {
      MulZero(x[i]);
      MulComm(0, x[i]);
    }
  }

  lemma {:induction false} ZeroDft(y: seq<elem>, l: nat, k: nat)
    requires l <= MAX_ROOTS && forall i :: 0 <= i < |y| ==> y[i] == 0
    ensures Dft(y, l, k) == 0
  {
    hide Mul, Pow, Exp2;
    forall m | 0 <= m < Exp2(l) ensures Term(y, 0, 1, l, k, m) == 0 {
      MulZero(Pow(Root(l), k * m));
      MulComm(0, Pow(Root(l), k * m));
    }
    SumZero(Exp2(l), m => Term(y, 0, 1, l, k, m));
  }

  lemma {:induction false} ZeroTransform(y: seq<elem>, l: nat)
    requires l <= MAX_ROOTS && forall i :: 0 <= i < |y| ==> y[i] == 0
    ensures IsZeroPoly(InvDftSeq(y, l))
  {
    hide Mul, Inv, Mod, Reflect, Exp2, Dft;
    Exp2Positive(l);
    MulZero(Inv(Mod(Exp2(l))));
    forall i | 0 <= i < Exp2(l) ensures InvDftSeq(y, l)[i] == 0 {
      ZeroDft(y, l, Reflect(Exp2(l), i));
    }
  }

  /** An even wire with seed zero is the zero polynomial. */
  lemma {:induction false} EvenWire(t: FlpType, x: seq<elem>, pr: seq<elem>, jr: seq<elem>, j: nat)
    requires t.Valid() && t.Chunked() && |x| == t.InputLen() && |jr| == t.JointRandLen() && jr[0] == 0
    requires |pr| == t.ProveRandLen() && WireLog(t) <= MAX_ROOTS && j < |pr| && j % 2 == 0 && pr[j] == 0
    ensures IsZeroPoly(HonestWires(t, x, pr, jr)[j])
  {
    hide WireRow, InvDftSeq, IsZeroPoly;
    var col := WireColumn(t, pr, x, jr, 1, j);
    forall i | 0 <= i < |col| ensures col[i] == 0 {
      if i > 0 {
        EvenRow(t, x, jr, i - 1, j);
      }
    }
    ZeroTransform(col, WireLog(t));
  }

  /** The wire polynomials take the seeds at one. */
  lemma {:induction false} WiresAtOne(t: FlpType, x: seq<elem>, pr: seq<elem>, jr: seq<elem>, j: nat)
    requires t.Valid() && |x| == t.InputLen() && |jr| == t.JointRandLen() && |pr| == t.ProveRandLen()
    requires WireLog(t) <= MAX_ROOTS && j < |pr|
    ensures Eval(HonestWires(t, x, pr, jr)[j], 1) == pr[j]
  {
    hide WireRow, Eval, InvDftSeq, Dft, Exp2;
    var l := WireLog(t);
    Exp2Positive(l);
    var f, col := HonestWires(t, x, pr, jr)[j], WireColumn(t, pr, x, jr, 1, j);
    assert f == InvDftSeq(col, l);
    DftOfInverse(col, l);
    assert DftSeq(f, l)[0] == PadTo(col, Exp2(l))[0];
    DftIsEval(f, l, 0);
    PowZero(Root(l));
  }

  lemma {:induction false} SpikeWires(t: FlpType, x: seq<elem>, jr: seq<elem>)
    requires t.Valid() && !NeverStale(t) && |x| == t.InputLen() && WireLog(t) <= MAX_ROOTS
    requires |jr| == t.JointRandLen() && jr[0] == 0
    ensures |SpikeSeeds(t.chunkLength)| == t.ProveRandLen()
    ensures var fs := HonestWires(t, x, SpikeSeeds(t.chunkLength), jr);
            Pairs(t.chunkLength, fs) && Spike(t.chunkLength, fs)
  {
    hide HonestWires, WireLog, MulPoly, WrittenLen, IsZeroPoly, FlpType.GadgetCalls, SpikeSeeds, ZeroProduct;
    var chunk, pr := t.chunkLength, SpikeSeeds(t.chunkLength);
    Exp2Positive(WireLog(t));
    CallsPositive(t);
    hide Exp2;
    var fs := HonestWires(t, x, pr, jr);
    SpikeSeedsAt(chunk, chunk - 2);
    SpikePair(t, x, pr, jr, 2 * (chunk - 2), PairAt(fs, chunk - 2));
    forall c: nat | c < chunk && c != chunk - 2 ensures ZeroProduct(PairAt(fs, c)) {
      SpikeSeedsAt(chunk, c);
      EvenPair(t, x, pr, jr, c, PairAt(fs, c));
    }
  }

  lemma {:induction false} EvenPair(t: FlpType, x: seq<elem>, pr: seq<elem>, jr: seq<elem>, c: nat, pair: seq<seq<elem>>)
    requires t.Valid() && t.Chunked() && |x| == t.InputLen() && |jr| == t.JointRandLen() && jr[0] == 0
    requires |pr| == t.ProveRandLen() && WireLog(t) <= MAX_ROOTS && 2 * c < |pr| && pr[2 * c] == 0
    requires |pair| == 2 && pair[0] == HonestWires(t, x, pr, jr)[2 * c]
    ensures ZeroProduct(pair)
  {
    hide HonestWires, WireLog, MulPoly, IsZeroPoly, FlpType.Valid, FlpType.InputLen, FlpType.JointRandLen, FlpType.ProveRandLen, FlpType.Chunked;
    Double(c);
    EvenWire(t, x, pr, jr, 2 * c);
    ZeroFactor(pair[0], pair[1]);
  }

  lemma {:induction false} Double(c: nat)
    ensures (2 * c) % 2 == 0
  {
  }

  /** The product of two wires with seed one is one at one and zero at the next root of unity. */
  lemma {:induction false} SpikePair(t: FlpType, x: seq<elem>, pr: seq<elem>, jr: seq<elem>, j: nat, pair: seq<seq<elem>>)
    requires t.Valid() && t.Chunked() && 1 <= t.GadgetCalls() && |x| == t.InputLen() && |jr| == t.JointRandLen() && jr[0] == 0
    requires |pr| == t.ProveRandLen() && WireLog(t) <= MAX_ROOTS && j + 1 < |pr| && j % 2 == 0 && pr[j] == pr[j + 1] == 1
    requires |pair| == 2 && pair[0] == HonestWires(t, x, pr, jr)[j] != [] && pair[1] == HonestWires(t, x, pr, jr)[j + 1] != []
    ensures WrittenLen(pair) >= 2
  {
    hide HonestWires, WireLog, Exp2, MulPoly, Eval, Mul, WrittenLen, WireRow, Pow;
    var fs, w := HonestWires(t, x, pr, jr), Pow(Root(WireLog(t)), 0 + 1);
    WiresAtOne(t, x, pr, jr, j);
    WiresAtOne(t, x, pr, jr, j + 1);
    WiresAtRoot(t, x, pr, jr, 0);
    EvenRow(t, x, jr, 0, j);
    assert EvalAll(fs, w)[j] == Eval(fs[j], w) == 0;
    MulOne(1);
    MulZero(Eval(fs[j + 1], w));
    MulComm(0, Eval(fs[j + 1], w));
    TwoValues(pair, 1, w);
  }

  /** In an unsafe configuration, whatever the measurement, this randomness leaves a product behind. */
  lemma {:induction false} StaleProof(t: FlpType, x: seq<elem>, jr: seq<elem>)
    requires t.Valid() && !NeverStale(t) && |x| == t.InputLen() && WireLog(t) <= MAX_ROOTS
    requires |jr| == t.JointRandLen() && jr[0] == 0
    ensures |SpikeSeeds(t.chunkLength)| == t.ProveRandLen() && !HonestStaleFree(t, x, SpikeSeeds(t.chunkLength), jr)
  {
    var chunk, pr := t.chunkLength, SpikeSeeds(t.chunkLength);
    DeclaredLengths(t);
    Exp2Positive(WireLog(t));
    ThresholdCalls(t.GadgetCalls());
    CallsPositive(t);
    var g, fs, m := t.TheGadget(), HonestWires(t, x, pr, jr), WirePolyLen(t.GadgetCalls());
    assert g.inner.Arity() == 2;
    hide HonestWires, WirePolyLen, WireLog, Exp2, StaleFree, MulPoly, Eval, Mul, WrittenLen;
    assert Pairs(chunk, fs);
    SpikeWires(t, x, jr);
    SpikeNotFree(g, m, fs);
  }

  lemma {:induction false} CallsPositive(t: FlpType)
    requires t.Valid() && t.Chunked()
    ensures t.GadgetCalls() >= 1
  {
    if t.SumVec? {
      MulAtLeast(t.bits, t.len);
    }
  }

  /** Randomness of the lengths the circuit asks for. */
  predicate Randomness(t: FlpType, pr: seq<elem>, jr: seq<elem>) {
    |pr| == t.ProveRandLen() && |jr| == t.JointRandLen()
  }

  /** The exact condition, for every measurement: no randomness makes the honest proof stale if and only
      if the circuit is Count or Sum, has one product per call, or makes at least 16 calls. */
  lemma {:induction false} StaleFreeIff(t: FlpType, x: seq<elem>)
    requires t.Valid() && |x| == t.InputLen() && WireLog(t) <= MAX_ROOTS
    ensures (forall pr: seq<elem>, jr: seq<elem> :: Randomness(t, pr, jr) ==> HonestStaleFree(t, x, pr, jr)) <==> NeverStale(t)
  {
    hide HonestStaleFree, WireLog;
    if NeverStale(t) {
      forall pr: seq<elem>, jr: seq<elem> | Randomness(t, pr, jr) ensures HonestStaleFree(t, x, pr, jr) {
        StaleFreeTypes(t, x, pr, jr);
      }
    } else {
      var jr := Zeros(t.JointRandLen());
      StaleProof(t, x, jr);
      assert Randomness(t, SpikeSeeds(t.chunkLength), jr);
    }
  }

  // ------------------------------------------------------------------ acceptance

  /** Elements below n that are not m-th roots of unity. */
  function QueryPoints(m: nat, n: nat): (rs: seq<elem>)
    requires n <= P
    ensures forall i :: 0 <= i < |rs| ==> rs[i] < n && Pow(rs[i], m) != 1
    ensures forall i, j :: 0 <= i < j < |rs| ==> rs[i] != rs[j]
  {
    if n == 0 then []
    else QueryPoints(m, n - 1) + if Pow(n - 1, m) != 1 then [n - 1] else []
  }

  /** Elements below n that are. */
  function UnityRoots(m: nat, n: nat): (rs: seq<elem>)
    requires n <= P
    ensures forall i :: 0 <= i < |rs| ==> rs[i] < n && Pow(rs[i], m) == 1
    ensures forall i, j :: 0 <= i < j < |rs| ==> rs[i] != rs[j]
    ensures |rs| + |QueryPoints(m, n)| == n
  {
    if n == 0 then []
    else UnityRoots(m, n - 1) + if Pow(n - 1, m) == 1 then [n - 1] else []
  }

  /** X^m - 1. */
  function UnityPoly(m: nat): (p: seq<elem>)
    ensures |p| == m + 1
  {
    hide MulPoly;
    AddPoly(PowPoly([0, 1], m), [Neg(1)])
  }

  lemma {:induction false} UnityPolyValue(m: nat, x: elem)
    ensures Eval(UnityPoly(m), x) == Sub(Pow(x, m), 1)
  {
    hide Mul, Add, Sub, Eval, Pow, MulPoly;
    EvalAdd(PowPoly([0, 1], m), [Neg(1)], x);
    EvalConstant(Neg(1), x);
    EvalPow([0, 1], m, x);
    EvalShift([1], x);
    EvalConstant(1, x);
    assert [0] + [1] == [0, 1];
    MulOne(x);
    SubIsAddNeg(Pow(x, m), 1);
  }

  lemma {:induction false} UnityPolyNonzero(m: nat)
    requires 1 <= m
    ensures !IsZeroPoly(UnityPoly(m))
  {
    hide Mul, Add, Sub, Eval, UnityPoly;
    UnityPolyValue(m, 0);
    MulZero(Pow(0, m - 1));
    MulComm(0, Pow(0, m - 1));
    SubZeroEq(0, 1);
    EvalNil(0);
    if IsZeroPoly(UnityPoly(m)) {
      EvalSame(UnityPoly(m), [], 0);
    }
  }

  /** There are at most m of them. */
  lemma {:induction false} FewRoots(m: nat)
    requires 1 <= m
    ensures |UnityRoots(m, P)| <= m
  {
    hide Mul, Add, Sub, Eval, Pow, UnityPoly, UnityRoots, QueryPoints, IsZeroPoly, Distinct;
    var rs := UnityRoots(m, P);
    DistinctRoots(m);
    if |rs| > m {
      forall i | 0 <= i < |rs| ensures Eval(UnityPoly(m), rs[i]) == 0 {
        UnityPolyValue(m, rs[i]);
        SubSelf(1);
      }
      RootCounting(UnityPoly(m), rs);
      UnityPolyNonzero(m);
    }
  }

  lemma {:induction false} DistinctRoots(m: nat)
    ensures Distinct(UnityRoots(m, P)) && Distinct(QueryPoints(m, P))
  {
    hide UnityRoots, QueryPoints;
  }

  /** Every honest proof of the measurement is accepted at every query point that `query` admits. */
  ghost predicate AlwaysAccepted(t: FlpType, x: seq<elem>)
    requires t.Valid() && |x| == t.InputLen() && ProveFits(t) && WireLog(t) + 1 <= MAX_ROOTS
  {
    forall pr: seq<elem>, jr: seq<elem>, r: elem :: Randomness(t, pr, jr) && Pow(r, WirePolyLen(t.GadgetCalls())) != 1 ==>
      Accepts(t, QuerySpec(t, x, ProofSpec(t, x, pr, jr), r, jr, 1))
  }

  /** The exact condition for completeness, for every valid measurement in every field of at least 47
      elements: all honest proofs are accepted if and only if the circuit is never stale. */
  lemma {:induction false} CompletenessIff(t: FlpType, x: seq<elem>)
    requires t.Valid() && ValidInput(t, x) && ProveFits(t) && WireLog(t) + 1 <= MAX_ROOTS && 47 <= P
    ensures AlwaysAccepted(t, x) <==> NeverStale(t)
  {
    hide HonestStaleFree, WireLog, WirePolyLen, Accepts, QuerySpec, ProofSpec, CircuitValue, Pow, ProveFits, Total;
    if NeverStale(t) {
      forall pr: seq<elem>, jr: seq<elem>, r: elem | Randomness(t, pr, jr) && Pow(r, WirePolyLen(t.GadgetCalls())) != 1
        ensures Accepts(t, QuerySpec(t, x, ProofSpec(t, x, pr, jr), r, jr, 1))
      {
        StaleFreeTypes(t, x, pr, jr);
        ValidVanishes(t, x, jr);
        HonestAccepted(t, x, pr, jr, r);
      }
    } else {
      RejectedProof(t, x);
    }
  }

  /** Some query point rejects the stale proof. */
  lemma {:induction false} RejectedProof(t: FlpType, x: seq<elem>)
    requires t.Valid() && ValidInput(t, x) && ProveFits(t) && WireLog(t) + 1 <= MAX_ROOTS && 47 <= P && !NeverStale(t)
    ensures !AlwaysAccepted(t, x)
  {
    hide HonestStaleFree, WireLog, WirePolyLen, Accepts, QuerySpec, ProofSpec, CircuitValue, ProveFits, Total, QueryPoints, UnityRoots, Pow;
    var pr, jr, m := SpikeSeeds(t.chunkLength), Zeros(t.JointRandLen()), WirePolyLen(t.GadgetCalls());
    StaleProof(t, x, jr);
    ValidVanishes(t, x, jr);
    ThresholdCalls(t.GadgetCalls());
    FewRoots(m);
    var rs := QueryPoints(m, P);
    assert |UnityRoots(m, P)| + |rs| == P;
    DistinctRoots(m);
    HonestAcceptedIff(t, x, pr, jr, rs);
    AcceptedConvinces(t, x, pr, jr, rs);
  }

  lemma {:induction false} AcceptedConvinces(t: FlpType, x: seq<elem>, pr: seq<elem>, jr: seq<elem>, rs: seq<elem>)
    requires t.Valid() && |x| == t.InputLen() && ProveFits(t) && WireLog(t) + 1 <= MAX_ROOTS && Randomness(t, pr, jr)
    requires Distinct(rs) && |rs| > 2 * (WirePolyLen(t.GadgetCalls()) - 1)
    requires forall i :: 0 <= i < |rs| ==> Pow(rs[i], WirePolyLen(t.GadgetCalls())) != 1
    ensures AlwaysAccepted(t, x) ==> Convincing(t, x, ProofSpec(t, x, pr, jr), jr, rs)
  {
    hide WireLog, WirePolyLen, Accepts, QuerySpec, ProofSpec, ProveFits, Pow, FlpType.ProofLen;
  }
}
