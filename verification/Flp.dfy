/** The fully linear proof system of src/flp.rs: `prove` records the gadget inputs through a shim
    and emits the gadget polynomial, `query` replays the circuit against that polynomial. */
module Flp {
  import opened Field
  import opened Powers
  import opened Sums
  import opened Fft
  import opened InverseFft
  import opened Polynomial
  import opened Gadgets
  import opened FlpTypes
  import opened Wrappers

  datatype FlpError = LengthMismatch | ShareCountTooLarge | QueryAtRootOfUnity | FftError | GadgetFailed

  // ------------------------------------------------------------------ shims

  /** A recorded wire value: row `ct` of the wire table becomes `inp`. */
  function Record(fVals: seq<seq<elem>>, ct: nat, inp: seq<elem>): (r: seq<seq<elem>>)
    requires |inp| == |fVals| && forall j :: 0 <= j < |fVals| ==> ct < |fVals[j]|
    ensures |r| == |fVals|
    ensures forall j :: 0 <= j < |r| ==> |r[j]| == |fVals[j]|
    ensures forall j, i :: 0 <= j < |r| && 0 <= i < |r[j]| ==> r[j][i] == if i == ct then inp[j] else fVals[j][i]
  {
    seq(|fVals|, j requires 0 <= j < |fVals| => fVals[j][ct := inp[j]])
  }

  /** The gadget objects the validity circuit calls: the plain gadget, the shim of `prove`, which
      records its inputs, and the shim of `query`, which also answers from the proof. */
  class Shim {
    const gadget: Gadget
    /** Answers by call number, for the query shim. */
    const pVals: seq<elem>
    const step: nat
    const isQuery: bool
    var fVals: seq<seq<elem>>
    var ct: nat

    ghost predicate Valid()
      reads this
    {
      && |fVals| == gadget.Arity()
      && (forall j :: 0 <= j < |fVals| ==> |fVals[j]| == 1 + gadget.Calls())
      && (isQuery ==> forall k :: 0 <= k <= gadget.Calls() ==> 0 <= k * step < |pVals|)
    }

    /** What the k-th call answers. */
    function Respond(k: nat, inp: seq<elem>): elem
      requires |inp| == gadget.Arity()
      requires isQuery ==> 0 <= k * step < |pVals|
    {
      if isQuery then pVals[k * step] else gadget.Call(inp)
    }

    /** `ProveShimGadget::new`. */
    constructor ForProve(inner: Gadget, proveRand: seq<elem>)
      requires |proveRand| == inner.Arity()
      ensures Valid() && gadget == inner && !isQuery && ct == 1
      ensures fVals == InitialWires(inner, proveRand)
    {
      gadget := inner;
      pVals := [];
      step := 0;
      isQuery := false;
      fVals := InitialWires(inner, proveRand);
      ct := 1;
    }

    /** `QueryShimGadget::new`, given the values of the gadget polynomial at the roots of unity. */
    constructor ForQuery(inner: Gadget, seeds: seq<elem>, vals: seq<elem>, s: nat)
      requires |seeds| == inner.Arity()
      requires forall k :: 0 <= k <= inner.Calls() ==> 0 <= k * s < |vals|
      ensures Valid() && gadget == inner && isQuery && ct == 1
      ensures fVals == InitialWires(inner, seeds) && pVals == vals && step == s
    {
      gadget := inner;
      pVals := vals;
      step := s;
      isQuery := true;
      fVals := InitialWires(inner, seeds);
      ct := 1;
    }

    /** `call` of either shim; one call too many would index past the wire table. */
    method Call(inp: seq<elem>) returns (outp: elem)
      requires Valid() && |inp| == gadget.Arity() && ct <= gadget.Calls()
      modifies this
      ensures Valid() && ct == old(ct) + 1
      ensures fVals == Record(old(fVals), old(ct), inp)
      ensures outp == Respond(old(ct), inp)
    {
      fVals := Record(fVals, ct, inp);
      if isQuery {
        outp := pVals[ct * step];
      } else {
        outp := gadget.Call(inp);
      }
      ct := ct + 1;
    }
  }

  function InitialColumn(seed: elem, calls: nat): (r: seq<elem>)
    ensures |r| == 1 + calls && r[0] == seed
  {
    [seed] + Zeros(calls)
  }

  function InitialWires(g: Gadget, seeds: seq<elem>): (r: seq<seq<elem>>)
    requires |seeds| == g.Arity()
    ensures |r| == |seeds|
    ensures forall j :: 0 <= j < |r| ==> |r[j]| == 1 + g.Calls() && r[j][0] == seeds[j]
  {
    seq(|seeds|, j requires 0 <= j < |seeds| => InitialColumn(seeds[j], g.Calls()))
  }

  // ------------------------------------------------------------------ the recorded wires

  /** Column j of the wire table: the seed, then input j of every call. */
  function WireColumn(t: FlpType, seeds: seq<elem>, x: seq<elem>, jr: seq<elem>, c: elem, j: nat): (col: seq<elem>)
    requires t.Valid() && |x| == t.InputLen() && |jr| == t.JointRandLen()
    requires |seeds| == t.ProveRandLen() && j < |seeds|
    ensures |col| == 1 + t.GadgetCalls()
  {
    [seeds[j]] + seq(t.GadgetCalls(), k requires 0 <= k < t.GadgetCalls() => WireRow(t, x, jr, c, k)[j])
  }

  function WireTable(t: FlpType, seeds: seq<elem>, x: seq<elem>, jr: seq<elem>, c: elem): (tab: seq<seq<elem>>)
    requires t.Valid() && |x| == t.InputLen() && |jr| == t.JointRandLen() && |seeds| == t.ProveRandLen()
    ensures |tab| == t.ProveRandLen()
    ensures forall j :: 0 <= j < |tab| ==> |tab[j]| == 1 + t.GadgetCalls()
  {
    seq(t.ProveRandLen(), j requires 0 <= j < t.ProveRandLen() => WireColumn(t, seeds, x, jr, c, j))
  }

  /** The wire table after the first n calls. */
  ghost predicate Recorded(t: FlpType, seeds: seq<elem>, x: seq<elem>, jr: seq<elem>, c: elem, n: nat, fVals: seq<seq<elem>>)
    requires t.Valid() && |x| == t.InputLen() && |jr| == t.JointRandLen() && |seeds| == t.ProveRandLen()
    requires n <= t.GadgetCalls()
  {
    && |fVals| == t.ProveRandLen()
    && forall j :: 0 <= j < |fVals| ==>
         && |fVals[j]| == 1 + t.GadgetCalls()
         && fVals[j][0] == seeds[j]
         && forall k :: 0 <= k < n ==> fVals[j][k + 1] == WireRow(t, x, jr, c, k)[j]
  }

  lemma {:induction false} RecordStep(t: FlpType, seeds: seq<elem>, x: seq<elem>, jr: seq<elem>, c: elem, n: nat,
                   fVals: seq<seq<elem>>, row: seq<elem>)
    requires t.Valid() && |x| == t.InputLen() && |jr| == t.JointRandLen() && |seeds| == t.ProveRandLen()
    requires n < t.GadgetCalls() && Recorded(t, seeds, x, jr, c, n, fVals)
    requires row == WireRow(t, x, jr, c, n)
    ensures Recorded(t, seeds, x, jr, c, n + 1, Record(fVals, n + 1, row))
  {
    hide WireRow;
  }

  lemma {:induction false} RecordedAll(t: FlpType, seeds: seq<elem>, x: seq<elem>, jr: seq<elem>, c: elem, fVals: seq<seq<elem>>)
    requires t.Valid() && |x| == t.InputLen() && |jr| == t.JointRandLen() && |seeds| == t.ProveRandLen()
    requires Recorded(t, seeds, x, jr, c, t.GadgetCalls(), fVals)
    ensures fVals == WireTable(t, seeds, x, jr, c)
  {
    hide WireRow;
    forall j | 0 <= j < |fVals| ensures fVals[j] == WireColumn(t, seeds, x, jr, c, j) {
      var col := WireColumn(t, seeds, x, jr, c, j);
      forall i | 0 <= i < |col| ensures fVals[j][i] == col[i] {
        if i > 0 {
          assert fVals[j][(i - 1) + 1] == WireRow(t, x, jr, c, i - 1)[j];
        }
      }
    }
  }

  // ------------------------------------------------------------------ valid

  /** The answers of a fresh shim to the circuit's calls. */
  function Answers(t: FlpType, shim: Shim, x: seq<elem>, jr: seq<elem>, c: elem, n: nat): (outs: seq<elem>)
    requires t.Valid() && |x| == t.InputLen() && |jr| == t.JointRandLen() && n <= t.GadgetCalls()
    requires shim.gadget.Arity() == t.ProveRandLen()
    requires shim.isQuery ==> forall k :: 0 <= k <= n ==> 0 <= k * shim.step < |shim.pVals|
    ensures |outs| == n
  {
    seq(n, k requires 0 <= k < n => shim.Respond(k + 1, WireRow(t, x, jr, c, k)))
  }

  /** `valid`, for every type: runs the circuit on the gadget object. */
  method RunCircuit(t: FlpType, shim: Shim, x: seq<elem>, jr: seq<elem>, numShares: nat) returns (res: Result<elem, FlpError>)
    requires t.Valid() && shim.Valid() && shim.gadget == t.TheGadget() && shim.ct == 1
    requires shim.gadget.Arity() == t.ProveRandLen() && shim.gadget.Calls() == t.GadgetCalls()
    modifies shim
    ensures shim.Valid()
    ensures res == if |x| != t.InputLen() || |jr| != t.JointRandLen() then Failure(LengthMismatch)
                   else if t.Chunked() && numShares >= P then Failure(ShareCountTooLarge)
                   else var c := Inv(Mod(numShares));
                        Success(Output(t, x, Answers(t, shim, x, jr, c, t.GadgetCalls()), jr, c))
    ensures res.Success? ==>
              shim.fVals == WireTable(t, old(Seeds(shim.fVals)), x, jr, Inv(Mod(numShares)))
  {
    hide Inv, Mod, Add, Sub, Mul, Weighted, Total, WireRow;
    ghost var seeds := Seeds(shim.fVals);
    if |x| != t.InputLen() || |jr| != t.JointRandLen() {
      return Failure(LengthMismatch);
    }
    ghost var c := Inv(Mod(numShares));
    match t {
      case Count =>
        CountRow(x, jr, c);
        var y := shim.Call([x[0], x[0]]);
        RecordStep(t, seeds, x, jr, c, 0, old(shim.fVals), [x[0], x[0]]);
        RecordedAll(t, seeds, x, jr, c, shim.fVals);
        return Success(Sub(y, x[0]));
      case Sum(_) =>
        var y := CallGadgetOnVecEntries(t, shim, x, jr, c);
        return Success(y);
      case SumVec(_, _, chunk) =>
        if numShares >= P {
          return Failure(ShareCountTooLarge);
        }
        var y := ParallelSumRangeChecks(t, shim, x, jr, chunk, Inv(Mod(numShares)));
        return Success(y);
      case Histogram(_, chunk) =>
        if numShares >= P {
          return Failure(ShareCountTooLarge);
        }
        var rangeCheck := ParallelSumRangeChecks(t, shim, x, jr, chunk, Inv(Mod(numShares)));
        var sumCheck := SumCheck(x, Inv(Mod(numShares)));
        return Success(Add(Mul(jr[1], rangeCheck), Mul(Mul(jr[1], jr[1]), sumCheck)));
    }
  }

  /** The first row of the wire table. */
  function Seeds(fVals: seq<seq<elem>>): (r: seq<elem>)
    ensures |r| == |fVals|
  {
    seq(|fVals|, j requires 0 <= j < |fVals| => Pad(fVals[j], 0))
  }

  lemma {:induction false} CountRow(x: seq<elem>, jr: seq<elem>, c: elem)
    requires |x| == 1 && |jr| == 0
    ensures WireRow(Count, x, jr, c, 0) == [x[0], x[0]]
  {
  }

  /** `call_gadget_on_vec_entries`. */
  method CallGadgetOnVecEntries(t: FlpType, shim: Shim, x: seq<elem>, jr: seq<elem>, ghost c: elem) returns (rangeCheck: elem)
    requires t.Valid() && t.Sum? && shim.Valid() && shim.gadget == t.TheGadget() && shim.ct == 1
    requires |x| == t.InputLen() && |jr| == t.JointRandLen()
    modifies shim
    ensures shim.Valid() && shim.fVals == WireTable(t, old(Seeds(shim.fVals)), x, jr, c)
    ensures rangeCheck == Weighted(Answers(t, shim, x, jr, c, t.GadgetCalls()), jr[0])
  {
    hide Add, Mul, Weighted, Pow;
    ghost var seeds := Seeds(shim.fVals);
    var rnd := jr[0];
    rangeCheck := 0;
    var r := rnd;
    WeightedNil(rnd);
    PowFirst(rnd);
    for k := 0 to |x|
      invariant shim.Valid() && shim.ct == k + 1
      invariant Recorded(t, seeds, x, jr, c, k, shim.fVals)
      invariant r == Pow(rnd, k + 1)
      invariant rangeCheck == Weighted(Answers(t, shim, x, jr, c, k), rnd)
    {
      ghost var f0 := shim.fVals;
      var y := shim.Call([x[k]]);
      rangeCheck := Add(rangeCheck, Mul(r, y));
      r := Mul(r, rnd);
      PowNext(rnd, k + 1);
      assert WireRow(t, x, jr, c, k) == [x[k]];
      assert Answers(t, shim, x, jr, c, k + 1) == Answers(t, shim, x, jr, c, k) + [y];
      WeightedAppend(Answers(t, shim, x, jr, c, k), y, rnd);
      RecordStep(t, seeds, x, jr, c, k, f0, [x[k]]);
    }
    RecordedAll(t, seeds, x, jr, c, shim.fVals);
  }

  lemma {:induction false} WeightedNil(r: elem)
    ensures Weighted([], r) == 0
  {
  }

  lemma {:induction false} PowFirst(r: elem)
    ensures Pow(r, 1) == r
  {
    assert Pow(r, 1) == Mul(r, Pow(r, 0));
    MulOne(r);
  }

  lemma {:induction false} WeightedAppend(v: seq<elem>, y: elem, r: elem)
    ensures Weighted(v + [y], r) == Add(Weighted(v, r), Mul(Pow(r, |v| + 1), y))
  {
    hide Add, Mul, Pow;
    var w := v + [y];
    SumExt(|v|, i => WeightedElem(w, r, i), i => WeightedElem(v, r, i));
  }

  lemma {:induction false} TotalAppend(v: seq<elem>, y: elem)
    ensures Total(v + [y]) == Add(Total(v), y)
  {
    hide Add;
    var w := v + [y];
    SumExt(|v|, i => VecElem(w, i), i => VecElem(v, i));
  }

  lemma {:induction false} TotalNil()
    ensures Total([]) == 0
  {
  }

  /** The sum check of `Histogram::valid`. */
  method SumCheck(x: seq<elem>, c: elem) returns (s: elem)
    ensures s == Sub(Total(x), c)
  {
    hide Add, Sub, Total, Mod;
    s := Neg(c);
    TotalNil();
    for i := 0 to |x|
      invariant s == Sub(Total(x[..i]), c)
    {
      s := Add(s, x[i]);
      assert x[..i + 1] == x[..i] + [x[i]];
      TotalAppend(x[..i], x[i]);
      AddAfterSub(Total(x[..i]), c, x[i]);
    }
    assert x[..|x|] == x;
  }

  lemma {:induction false} AddAfterSub(a: elem, c: elem, b: elem)
    ensures Add(Sub(a, c), b) == Sub(Add(a, b), c)
  {
    ModId(b);
    ModId(c);
    ModAdd(a - c, b);
    ModSub(a + b, c);
  }

  lemma {:induction false} ChunkStart(n: nat, chunk: nat, k: nat)
    requires 1 <= chunk && k < CeilDiv(n, chunk)
    ensures 0 <= k * chunk < n
    ensures k + 1 < CeilDiv(n, chunk) ==> k * chunk + chunk < n
    ensures (k + 1) * chunk == k * chunk + chunk
  {
    var q, r := DivMod(n, chunk);
    MulDistrib(k, 1, chunk);
    MulDistrib(q - k, k, chunk);
    if k + 1 <= q {
      MulDistrib(q - k - 1, k + 1, chunk);
    }
  }

  function Min(a: nat, b: nat): nat { if a < b then a else b }

  /** `parallel_sum_range_checks`. */
  method ParallelSumRangeChecks(t: FlpType, shim: Shim, x: seq<elem>, jr: seq<elem>, chunk: nat, c: elem) returns (output: elem)
    requires t.Valid() && t.Chunked() && chunk == t.chunkLength && shim.Valid() && shim.gadget == t.TheGadget() && shim.ct == 1
    requires |x| == t.InputLen() && |jr| == t.JointRandLen()
    requires shim.gadget.Arity() == t.ProveRandLen() && shim.gadget.Calls() == t.GadgetCalls()
    modifies shim
    ensures shim.Valid() && shim.fVals == WireTable(t, old(Seeds(shim.fVals)), x, jr, c)
    ensures output == Total(Answers(t, shim, x, jr, c, t.GadgetCalls()))
  {
    hide Add, Mul, Sub, Total, Pow, WireRow;
    ghost var seeds := Seeds(shim.fVals);
    output := 0;
    var rPower := jr[0];
    var padded := new elem[2 * chunk](_ => 0);
    var calls := t.GadgetCalls();
    TotalNil();
    PowFirst(jr[0]);
    for k := 0 to calls
      invariant shim.Valid() && shim.ct == k + 1
      invariant Recorded(t, seeds, x, jr, c, k, shim.fVals)
      invariant 0 <= k * chunk && (k < calls ==> rPower == Pow(jr[0], k * chunk + 1))
      invariant output == Total(Answers(t, shim, x, jr, c, k))
    {
      ghost var f0 := shim.fVals;
      ChunkStart(|x|, chunk, k);
      rPower := FillChunk(padded, x, jr[0], rPower, chunk, c, k);
      ChunkedRow(t, x, jr, c, k, padded[..]);
      var y := shim.Call(padded[..]);
      output := Add(output, y);
      assert Answers(t, shim, x, jr, c, k + 1) == Answers(t, shim, x, jr, c, k) + [y];
      TotalAppend(Answers(t, shim, x, jr, c, k), y);
      RecordStep(t, seeds, x, jr, c, k, f0, padded[..]);
    }
    RecordedAll(t, seeds, x, jr, c, shim.fVals);
  }

  lemma {:induction false} ChunkedRow(t: FlpType, x: seq<elem>, jr: seq<elem>, c: elem, k: nat, row: seq<elem>)
    requires t.Valid() && t.Chunked() && |x| == t.InputLen() && |jr| == t.JointRandLen() && k < t.GadgetCalls()
    requires |row| == t.ProveRandLen()
    requires forall u: nat :: u < |row| ==> row[u] == ChunkedWire(x, jr[0], t.chunkLength, c, k, u)
    ensures row == WireRow(t, x, jr, c, k)
  {
    hide ChunkedWire;
  }

  lemma {:induction false} WirePair(x: seq<elem>, r: elem, chunk: nat, c: elem, k: nat, i: nat)
    ensures 0 <= k * chunk
    ensures var j := k * chunk + i;
            && ChunkedWire(x, r, chunk, c, k, 2 * i) == (if j < |x| then Mul(Pow(r, j + 1), x[j]) else 0)
            && ChunkedWire(x, r, chunk, c, k, 2 * i + 1) == if j < |x| then Sub(x[j], c) else Neg(c)
  {
    hide Mul, Pow, Sub;
  }

  /** The two inner loops: arguments for one chunk, padded when the input runs out. */
  method FillChunk(padded: array<elem>, x: seq<elem>, r: elem, rPower0: elem, chunk: nat, c: elem, k: nat) returns (rPower: elem)
    requires padded.Length == 2 * chunk && 0 <= k * chunk < |x| && rPower0 == Pow(r, k * chunk + 1)
    modifies padded
    ensures forall u: nat :: u < 2 * chunk ==> padded[u] == ChunkedWire(x, r, chunk, c, k, u)
    ensures k * chunk + chunk < |x| ==> rPower == Pow(r, k * chunk + chunk + 1)
  {
    hide Mul, Sub, Pow, ChunkedWire;
    var lo := k * chunk;
    var len := Min(chunk, |x| - lo);
    rPower := rPower0;
    for i := 0 to len
      invariant rPower == Pow(r, lo + i + 1)
      invariant forall u: nat :: u < 2 * i ==> padded[u] == ChunkedWire(x, r, chunk, c, k, u)
    {
      padded[2 * i] := Mul(rPower, x[lo + i]);
      padded[2 * i + 1] := Sub(x[lo + i], c);
      WirePair(x, r, chunk, c, k, i);
      rPower := Mul(rPower, r);
      PowNext(r, lo + i + 1);
    }
    for i := len to chunk
      invariant forall u: nat :: u < 2 * i ==> padded[u] == ChunkedWire(x, r, chunk, c, k, u)
    {
      padded[2 * i] := 0;
      padded[2 * i + 1] := Neg(c);
      WirePair(x, r, chunk, c, k, i);
    }
  }

  // ------------------------------------------------------------------ prove

  /** Base-two logarithm of the wire polynomial length m. */
  function WireLog(t: FlpType): (l: nat)
    requires t.Valid()
    ensures Exp2(l) == WirePolyLen(t.GadgetCalls())
  {
    Log2(1 + t.GadgetCalls())
  }

  /** The circuit is small enough for the field's FFT. */
  predicate ProveFits(t: FlpType)
    requires t.Valid()
  {
    var m := WirePolyLen(t.GadgetCalls());
    m <= Exp2(MAX_ROOTS) && (m < FFT_THRESHOLD || t.TheGadget().MemLen() <= Exp2(MAX_ROOTS))
  }

  /** The wire polynomials interpolating the columns of the wire table. */
  ghost function WirePolys(tab: seq<seq<elem>>, l: nat): (fs: seq<seq<elem>>)
    requires l <= MAX_ROOTS
    ensures |fs| == |tab| && forall j :: 0 <= j < |fs| ==> |fs[j]| == Exp2(l) && fs[j] == InvDftSeq(tab[j], l)
  {
    seq(|tab|, j requires 0 <= j < |tab| => InvDftSeq(tab[j], l))
  }

  lemma {:induction false} SmallLog(l: nat)
    requires Exp2(l) <= Exp2(MAX_ROOTS)
    ensures l <= MAX_ROOTS
  {
    if l > MAX_ROOTS {
      Exp2Strict(MAX_ROOTS, l);
    }
  }

  /** The proof `prove` emits: the wire seeds and the buffer after `call_poly`. */
  ghost function ProofSpec(t: FlpType, x: seq<elem>, pr: seq<elem>, jr: seq<elem>): (proof: seq<elem>)
    requires t.Valid() && |x| == t.InputLen() && |jr| == t.JointRandLen() && |pr| == t.ProveRandLen()
    requires ProveFits(t)
    ensures |proof| == t.ProofLen()
  {
    hide Gadget.MemLen, NextPowerOfTwo;
    DeclaredLengths(t);
    SmallLog(WireLog(t));
    var g, fs := t.TheGadget(), WirePolys(WireTable(t, pr, x, jr, 1), WireLog(t));
    MemLenFacts(g);
    pr + CallPolyEffect(g, Zeros(g.MemLen()), fs)[..GadgetPolyLen(g.Degree(), WirePolyLen(g.Calls()))]
  }

  lemma {:induction false} InvOne()
    ensures Inv(Mod(1)) == 1
  {
    ModId(1);
    MulOne(1);
    InvUnique(1, 1);
  }

  /** `Type::prove`. */
  method Prove(t: FlpType, x: seq<elem>, proveRand: seq<elem>, jr: seq<elem>) returns (res: Result<seq<elem>, FlpError>)
    requires t.Valid() && MAX_ROOTS <= WORD
    ensures res == if |x| != t.InputLen() || |proveRand| != t.ProveRandLen() || |jr| != t.JointRandLen()
                   then Failure(LengthMismatch)
                   else if !ProveFits(t) then Failure(FftError)
                   else Success(ProofSpec(t, x, proveRand, jr))
  {
    hide Inv, Mod, Output, WireTable, CallPolyEffect, NextPowerOfTwo, Gadget.MemLen, GadgetPolyLen;
    if |x| != t.InputLen() || |proveRand| != t.ProveRandLen() || |jr| != t.JointRandLen() {
      return Failure(LengthMismatch);
    }
    DeclaredLengths(t);
    var g := t.TheGadget();
    var shim := new Shim.ForProve(g, proveRand);
    assert Seeds(shim.fVals) == proveRand;
    InvOne();
    OneShare();
    var v := RunCircuit(t, shim, x, jr, 1);
    assert v.Success?;
    var m := WirePolyLen(g.Calls());
    ghost var tab, l := shim.fVals, WireLog(t);
    assert tab == WireTable(t, proveRand, x, jr, 1);
    WireLogFacts(t);
    var fOk, f := InterpolateWires(shim.fVals, m, l);
    if !fOk {
      return Failure(FftError);
    }
    MemLenFacts(g);
    CheckPasses(g, f, m);
    var n := g.MemLen();
    var outp := new elem[n](_ => 0);
    assert outp[..] == Zeros(n);
    var r := CallPoly(g, outp, f);
    if !r.GadgetOk? {
      return Failure(FftError);
    }
    res := Success(proveRand + outp[..GadgetPolyLen(g.Degree(), m)]);
  }

  /** The interpolation loop of `prove`. */
  method InterpolateWires(fVals: seq<seq<elem>>, m: nat, ghost l: nat) returns (ok: bool, f: seq<seq<elem>>)
    requires 1 <= |fVals| && (forall j :: 0 <= j < |fVals| ==> 1 <= |fVals[j]|)
    requires 1 <= m && m == Exp2(l) && Log2(m) == l && MAX_ROOTS <= WORD
    ensures ok <==> m <= Exp2(MAX_ROOTS)
    ensures ok ==> l <= MAX_ROOTS && f == WirePolys(fVals, l)
  {
    hide Inv, Mod, InvDftSeq, Log2, Exp2;
    f := [];
    ok := true;
    for j := 0 to |fVals|
      invariant |f| == j
      invariant j > 0 ==> l <= MAX_ROOTS && m <= Exp2(MAX_ROOTS)
      invariant forall i :: 0 <= i < j ==> f[i] == InvDftSeq(fVals[i], l)
    {
      var coefficients := new elem[m](_ => 0);
      var r := InverseTransform(coefficients, fVals[j], m, Inv(Mod(m)));
      if !r.Ok? {
        return false, [];
      }
      assert coefficients[..m] == coefficients[..];
      f := f + [coefficients[..]];
    }
  }

  lemma {:induction false} OneShare()
    ensures 1 < P
  {
  }

  lemma {:induction false} WireLogFacts(t: FlpType)
    requires t.Valid()
    ensures var l, m := WireLog(t), WirePolyLen(t.GadgetCalls());
            1 <= m && Log2(m) == l && Exp2(l) == m && (m <= Exp2(MAX_ROOTS) ==> l <= MAX_ROOTS)
  {
    hide Log2, Exp2;
    Log2Exp2(WireLog(t));
    if WirePolyLen(t.GadgetCalls()) <= Exp2(MAX_ROOTS) {
      SmallLog(WireLog(t));
    }
  }

  lemma {:induction false} CheckPasses(g: Gadget, f: seq<seq<elem>>, m: nat)
    requires g.WellFormed() && |f| == g.Arity() && 1 <= g.Arity() && m == WirePolyLen(g.Calls()) && Wires(f, m)
    ensures CallPolyCheck(g, g.MemLen(), f) && |f[0]| == m
  {
  }

  // ------------------------------------------------------------------ query

  /** The gadget polynomial's answer to call k: its value at the k-th power of the m-th root. */
  function QueryAnswers(t: FlpType, poly: seq<elem>): (outs: seq<elem>)
    requires t.Valid() && WireLog(t) + 1 <= MAX_ROOTS
    ensures |outs| == t.GadgetCalls()
  {
    seq(t.GadgetCalls(), k requires 0 <= k => Dft(poly, WireLog(t) + 1, (k + 1) * 2))
  }

  ghost function WireValues(tab: seq<seq<elem>>, l: nat, r: elem): (vs: seq<elem>)
    requires l <= MAX_ROOTS
    ensures |vs| == |tab| && forall j :: 0 <= j < |tab| ==> vs[j] == Eval(InvDftSeq(tab[j], l), r)
  {
    seq(|tab|, j requires 0 <= j < |tab| => Eval(InvDftSeq(tab[j], l), r))
  }

  /** The verifier message: the circuit output, the wire polynomials at r, the gadget polynomial
      at r. */
  ghost function QuerySpec(t: FlpType, x: seq<elem>, proof: seq<elem>, r: elem, jr: seq<elem>, c: elem): (v: seq<elem>)
    requires t.Valid() && |x| == t.InputLen() && |jr| == t.JointRandLen() && |proof| == t.ProofLen()
    requires WireLog(t) + 1 <= MAX_ROOTS
    ensures |v| == t.VerifierLen()
  {
    hide NextPowerOfTwo;
    DeclaredLengths(t);
    var a := t.ProveRandLen();
    var tab := WireTable(t, proof[..a], x, jr, c);
    [Output(t, x, QueryAnswers(t, proof[a..]), jr, c)] + WireValues(tab, WireLog(t), r) + [Eval(proof[a..], r)]
  }

  lemma {:induction false} DoubleLog(l: nat, m: nat)
    requires m == Exp2(l)
    ensures 1 <= m && Log2(m) == l && Log2(m * 2) == l + 1
    ensures NextPowerOfTwo(m * 2) == 2 * m == Exp2(l + 1) && Exp2(Log2(m * 2) - Log2(m)) == 2
    ensures 2 * m > Exp2(MAX_ROOTS) <==> l + 1 > MAX_ROOTS
  {
    assert Exp2(l + 1) == m * 2 && Exp2(1) == 2 by { assert Exp2(0) == 1; }
    Log2Exp2(l);
    Log2Exp2(l + 1);
    hide Log2, Exp2;
    if l + 1 > MAX_ROOTS {
      Exp2Strict(MAX_ROOTS, l + 1);
    } else {
      Exp2Monotone(l + 1, MAX_ROOTS);
    }
  }

  /** `Type::query`. */
  method Query(t: FlpType, x: seq<elem>, proof: seq<elem>, queryRand: seq<elem>, jr: seq<elem>, numShares: nat)
    returns (res: Result<seq<elem>, FlpError>)
    requires t.Valid() && MAX_ROOTS <= WORD
    ensures res == if |x| != t.InputLen() || |proof| != t.ProofLen() || |queryRand| != t.QueryRandLen() || |jr| != t.JointRandLen()
                   then Failure(LengthMismatch)
                   else if Pow(queryRand[0], WirePolyLen(t.GadgetCalls())) == 1 then Failure(QueryAtRootOfUnity)
                   else if WireLog(t) + 1 > MAX_ROOTS then Failure(FftError)
                   else if t.Chunked() && numShares >= P then Failure(ShareCountTooLarge)
                   else Success(QuerySpec(t, x, proof, queryRand[0], jr, Inv(Mod(numShares))))
  {
    hide Inv, Mod, Output, WireTable, NextPowerOfTwo, Pow, Eval, DftSeq, InvDftSeq, Dft, GadgetPolyLen, QueryAnswers;
    if |x| != t.InputLen() || |proof| != t.ProofLen() || |queryRand| != t.QueryRandLen() || |jr| != t.JointRandLen() {
      return Failure(LengthMismatch);
    }
    DeclaredLengths(t);
    var a, r, m := t.TheGadget().Arity(), queryRand[0], WirePolyLen(t.GadgetCalls());
    if Pow(r, m) == 1 {
      return Failure(QueryAtRootOfUnity);
    }
    WireLogFacts(t);
    DoubleLog(WireLog(t), m);
    var ok, shim, pAtR := NewQueryShim(t, proof, r);
    if !ok {
      return Failure(FftError);
    }
    var v := RunCircuit(t, shim, x, jr, numShares);
    if v.Failure? {
      return Failure(v.error);
    }
    ghost var c, l := Inv(Mod(numShares)), WireLog(t);
    AnswersAreQueryAnswers(t, shim, x, jr, c, proof[a..]);
    var ws := EvaluateWires(shim.fVals, m, l, r);
    res := Success([v.value] + ws + [pAtR]);
  }

  /** `QueryShimGadget::new`: values of the proof's gadget polynomial at the roots of unity and at
      the query point. */
  method NewQueryShim(t: FlpType, proof: seq<elem>, r: elem) returns (ok: bool, shim: Shim?, pAtR: elem)
    requires t.Valid() && |proof| == t.ProofLen() && MAX_ROOTS <= WORD
    requires t.ProveRandLen() <= |proof|
    ensures ok <==> WireLog(t) + 1 <= MAX_ROOTS
    ensures ok ==>
      && shim != null && fresh(shim) && shim.Valid() && shim.ct == 1 && shim.gadget == t.TheGadget()
      && shim.isQuery && shim.step == 2
      && shim.pVals == DftSeq(proof[t.ProveRandLen()..], WireLog(t) + 1)
      && Seeds(shim.fVals) == proof[..t.ProveRandLen()]
      && pAtR == Eval(proof[t.ProveRandLen()..], r)
  {
    hide NextPowerOfTwo, Eval, DftSeq, Log2, WireLog, WirePolyLen, Exp2, FlpType.TheGadget, FlpType.ProofLen, FlpType.Valid;
    DeclaredLengths(t);
    QuerySizes(t);
    var g := t.TheGadget();
    var m, a := WirePolyLen(g.Calls()), g.Arity();
    var poly := proof[a..];
    var pVals;
    ok, pVals := ProofValues(poly, NextPowerOfTwo(m * g.Degree()), WireLog(t) + 1);
    if !ok {
      return false, null, 0;
    }
    var step := Exp2(Log2(m * g.Degree()) - Log2(m));
    pAtR := PolyEval(poly, r);
    var s := new Shim.ForQuery(g, proof[..a], pVals, step);
    assert Seeds(s.fVals) == proof[..a];
    shim := s;
  }

  /** The transform of the proof polynomial. */
  method ProofValues(poly: seq<elem>, size: nat, ghost d: nat) returns (ok: bool, vals: seq<elem>)
    requires 2 <= size == Exp2(d) && Log2(size) == d && MAX_ROOTS <= WORD
    ensures ok <==> d <= MAX_ROOTS
    ensures ok ==> vals == DftSeq(poly, d)
  {
    hide DftSeq, Log2, Exp2;
    if d > MAX_ROOTS {
      Exp2Strict(MAX_ROOTS, d);
    } else {
      Exp2Monotone(d, MAX_ROOTS);
    }
    var pVals := new elem[size](_ => 0);
    var fr := DiscreteFourierTransform(pVals, poly, size);
    if !fr.Ok? {
      return false, [];
    }
    assert pVals[..size] == pVals[..];
    return true, pVals[..];
  }

  /** `query` transforms at twice the wire polynomial length, and every second value answers a call. */
  lemma {:induction false} QuerySizes(t: FlpType)
    requires t.Valid() && t.TheGadget().Degree() == 2 && t.TheGadget().Calls() == t.GadgetCalls()
    ensures var m, size := WirePolyLen(t.TheGadget().Calls()), NextPowerOfTwo(WirePolyLen(t.TheGadget().Calls()) * t.TheGadget().Degree());
            && 1 <= m && 2 <= size == Exp2(WireLog(t) + 1) && Log2(size) == WireLog(t) + 1
            && Log2(m) <= Log2(m * t.TheGadget().Degree()) && Exp2(Log2(m * t.TheGadget().Degree()) - Log2(m)) == 2
            && forall k :: 0 <= k <= t.TheGadget().Calls() ==> 0 <= k * 2 < size
  {
    hide FlpType.TheGadget, FlpType.GadgetCalls, FlpType.Valid, WirePolyLen, NextPowerOfTwo, Gadget.Degree, Gadget.Calls, Log2, Exp2;
    var m := WirePolyLen(t.GadgetCalls());
    WireLogFacts(t);
    DoubleLog(WireLog(t), m);
  }

  /** The loop of `query` that reconstructs each wire polynomial and evaluates it. */
  method EvaluateWires(fVals: seq<seq<elem>>, m: nat, ghost l: nat, r: elem) returns (ws: seq<elem>)
    requires forall j :: 0 <= j < |fVals| ==> 1 <= |fVals[j]|
    requires 1 <= m <= Exp2(MAX_ROOTS) && m == Exp2(l) && Log2(m) == l <= MAX_ROOTS <= WORD
    ensures ws == WireValues(fVals, l, r)
  {
    hide Inv, Mod, InvDftSeq, Log2, Exp2, Eval;
    ws := [];
    for j := 0 to |fVals|
      invariant |ws| == j && forall i :: 0 <= i < j ==> ws[i] == Eval(InvDftSeq(fVals[i], l), r)
    {
      var f := new elem[m](_ => 0);
      var ir := InverseTransform(f, fVals[j], m, Inv(Mod(m)));
      assert f[..m] == f[..];
      var y := PolyEval(f[..], r);
      ws := ws + [y];
    }
  }

  lemma {:induction false} AnswersAreQueryAnswers(t: FlpType, shim: Shim, x: seq<elem>, jr: seq<elem>, c: elem, poly: seq<elem>)
    requires t.Valid() && |x| == t.InputLen() && |jr| == t.JointRandLen() && WireLog(t) + 1 <= MAX_ROOTS
    requires shim.isQuery && shim.step == 2 && shim.gadget.Arity() == t.ProveRandLen()
    requires shim.pVals == DftSeq(poly, WireLog(t) + 1)
    requires forall k :: 0 <= k <= t.GadgetCalls() ==> 0 <= k * shim.step < |shim.pVals|
    ensures Answers(t, shim, x, jr, c, t.GadgetCalls()) == QueryAnswers(t, poly)
  {
    hide Dft, WireRow;
    forall k | 0 <= k < t.GadgetCalls()
      ensures shim.Respond(k + 1, WireRow(t, x, jr, c, k)) == Dft(poly, WireLog(t) + 1, (k + 1) * 2)
    {
      assert 0 <= (k + 1) * shim.step < |shim.pVals|;
    }
  }

  // ------------------------------------------------------------------ decide

  /** `Type::decide`. */
  method Decide(t: FlpType, verifier: seq<elem>) returns (res: Result<bool, FlpError>)
    requires t.Valid()
    ensures res == if |verifier| != t.VerifierLen() then Failure(LengthMismatch)
                   else Success(Accepts(t, verifier))
  {
    hide NextPowerOfTwo;
    if |verifier| != t.VerifierLen() {
      return Failure(LengthMismatch);
    }
    DeclaredLengths(t);
    if verifier[0] != 0 {
      return Success(false);
    }
    var g := t.TheGadget();
    var nextLen := 1 + g.Arity();
    var e := g.Call(verifier[1..nextLen]);
    if e != verifier[nextLen] {
      return Success(false);
    }
    return Success(true);
  }

  /** The circuit output is zero and the gadget maps the wire values to the claimed value. */
  predicate Accepts(t: FlpType, verifier: seq<elem>)
    requires t.Valid() && |verifier| == t.VerifierLen()
  {
    DeclaredLengths(t);
    var g := t.TheGadget();
    verifier[0] == 0 && g.Call(verifier[1..1 + g.Arity()]) == verifier[1 + g.Arity()]
  }
}
