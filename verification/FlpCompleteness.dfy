/** Distributed completeness of the proof system: `query` is additive over shares, and an honest
    proof of a valid input is accepted however input and proof are shared. */
module FlpCompleteness {
  import opened Field
  import opened Powers
  import opened Sums
  import opened Fft
  import opened InverseFft
  import opened Polynomial
  import opened Gadgets
  import opened FlpTypes
  import opened Flp

  // ------------------------------------------------------------------ linearity

  lemma {:induction false} PadAdd(u: seq<elem>, v: seq<elem>, i: int)
    requires |u| == |v|
    ensures Pad(AddVec(u, v), i) == Add(Pad(u, i), Pad(v, i))
  {
    AddZero(0);
  }

  lemma {:induction false} DftAdd(u: seq<elem>, v: seq<elem>, l: nat, k: nat)
    requires |u| == |v| && l <= MAX_ROOTS
    ensures Dft(AddVec(u, v), l, k) == Add(Dft(u, l, k), Dft(v, l, k))
  {
    hide Add, Mul, Pow, Exp2;
    var n, w := Exp2(l), AddVec(u, v);
    var f: int -> elem := m => Term(u, 0, 1, l, k, m);
    var g: int -> elem := m => Term(v, 0, 1, l, k, m);
    forall m: nat ensures Term(w, 0, 1, l, k, m) == Add(f(m), g(m)) {
      var c := Pow(Root(l), k * m);
      PadAdd(u, v, m);
      MulComm(Pad(w, m), c);
      MulComm(Pad(u, m), c);
      MulComm(Pad(v, m), c);
      Distrib(c, Pad(u, m), Pad(v, m));
    }
    SumExt(n, m => Term(w, 0, 1, l, k, m), m => Add(f(m), g(m)));
    SumAdd(n, f, g);
    SumExt(n, f, m => Term(u, 0, 1, l, k, m));
    SumExt(n, g, m => Term(v, 0, 1, l, k, m));
  }

  lemma {:induction false} InvDftAdd(u: seq<elem>, v: seq<elem>, l: nat)
    requires |u| == |v| && l <= MAX_ROOTS
    ensures InvDftSeq(AddVec(u, v), l) == AddVec(InvDftSeq(u, l), InvDftSeq(v, l))
  {
    hide Add, Mul, Mod, Inv, Dft, Exp2, Reflect;
    Exp2Positive(l);
    var n, c, w := Exp2(l), Inv(Mod(Exp2(l))), AddVec(u, v);
    forall i | 0 <= i < n ensures InvDftSeq(w, l)[i] == Add(InvDftSeq(u, l)[i], InvDftSeq(v, l)[i]) {
      var k := Reflect(n, i);
      DftAdd(u, v, l, k);
      Distrib(c, Dft(u, l, k), Dft(v, l, k));
    }
  }

  lemma {:induction false} EvalAddVec(p: seq<elem>, q: seq<elem>, r: elem)
    requires |p| == |q|
    ensures Eval(AddVec(p, q), r) == Add(Eval(p, r), Eval(q, r))
  {
    hide Add, Eval;
    assert AddVec(p, q) == AddPoly(p, q) by {
      forall i | 0 <= i < |p| ensures AddVec(p, q)[i] == AddPoly(p, q)[i] {
        assert Pad(AddPoly(p, q), i) == Add(Pad(p, i), Pad(q, i));
      }
    }
    EvalAdd(p, q, r);
  }

  lemma {:induction false} WireColumnAdd(t: FlpType, s: seq<elem>, z: seq<elem>, x: seq<elem>, y: seq<elem>, jr: seq<elem>, c: elem, d: elem, j: nat)
    requires t.Valid() && |x| == |y| == t.InputLen() && |jr| == t.JointRandLen()
    requires |s| == |z| == t.ProveRandLen() && j < |s|
    ensures WireColumn(t, AddVec(s, z), AddVec(x, y), jr, Add(c, d), j)
         == AddVec(WireColumn(t, s, x, jr, c, j), WireColumn(t, z, y, jr, d, j))
  {
    hide Add, WireRow;
    forall k | 0 <= k < t.GadgetCalls()
      ensures WireRow(t, AddVec(x, y), jr, Add(c, d), k)[j] == Add(WireRow(t, x, jr, c, k)[j], WireRow(t, y, jr, d, k)[j])
    {
      WireRowAdd(t, x, y, jr, c, d, k);
    }
  }

  lemma {:induction false} WireValuesAdd(t: FlpType, s: seq<elem>, z: seq<elem>, x: seq<elem>, y: seq<elem>, jr: seq<elem>, c: elem, d: elem, r: elem)
    requires t.Valid() && |x| == |y| == t.InputLen() && |jr| == t.JointRandLen()
    requires |s| == |z| == t.ProveRandLen() && WireLog(t) <= MAX_ROOTS
    ensures WireValues(WireTable(t, AddVec(s, z), AddVec(x, y), jr, Add(c, d)), WireLog(t), r)
         == AddVec(WireValues(WireTable(t, s, x, jr, c), WireLog(t), r), WireValues(WireTable(t, z, y, jr, d), WireLog(t), r))
  {
    hide Add, WireColumn, InvDftSeq, Eval;
    var l := WireLog(t);
    forall j | 0 <= j < |s|
      ensures Eval(InvDftSeq(WireColumn(t, AddVec(s, z), AddVec(x, y), jr, Add(c, d), j), l), r)
           == Add(Eval(InvDftSeq(WireColumn(t, s, x, jr, c, j), l), r), Eval(InvDftSeq(WireColumn(t, z, y, jr, d, j), l), r))
    {
      WireColumnAdd(t, s, z, x, y, jr, c, d, j);
      InvDftAdd(WireColumn(t, s, x, jr, c, j), WireColumn(t, z, y, jr, d, j), l);
      EvalAddVec(InvDftSeq(WireColumn(t, s, x, jr, c, j), l), InvDftSeq(WireColumn(t, z, y, jr, d, j), l), r);
    }
  }

  lemma {:induction false} QueryAnswersAt(t: FlpType, p: seq<elem>, k: nat)
    requires t.Valid() && WireLog(t) + 1 <= MAX_ROOTS && k < t.GadgetCalls()
    ensures QueryAnswers(t, p)[k] == Dft(p, WireLog(t) + 1, (k + 1) * 2)
  {
    hide Dft;
  }

  lemma {:induction false} QueryAnswersAdd(t: FlpType, p: seq<elem>, q: seq<elem>)
    requires t.Valid() && WireLog(t) + 1 <= MAX_ROOTS && |p| == |q|
    ensures QueryAnswers(t, AddVec(p, q)) == AddVec(QueryAnswers(t, p), QueryAnswers(t, q))
  {
    hide Add, Dft, QueryAnswers, FlpType.Valid, FlpType.GadgetCalls, WireLog;
    forall k | 0 <= k < t.GadgetCalls()
      ensures QueryAnswers(t, AddVec(p, q))[k] == Add(QueryAnswers(t, p)[k], QueryAnswers(t, q)[k])
    {
      QueryAnswersAt(t, p, k);
      QueryAnswersAt(t, q, k);
      QueryAnswersAt(t, AddVec(p, q), k);
      DftAdd(p, q, WireLog(t) + 1, (k + 1) * 2);
    }
  }

  lemma {:induction false} AssembleAdd(o: elem, o': elem, ws: seq<elem>, ws': seq<elem>, e: elem, e': elem)
    requires |ws| == |ws'|
    ensures AddVec([o] + ws + [e], [o'] + ws' + [e']) == [Add(o, o')] + AddVec(ws, ws') + [Add(e, e')]
  {
    hide Add;
  }

  /** The three parts of a verifier message. */
  lemma {:induction false} QueryParts(t: FlpType, x: seq<elem>, proof: seq<elem>, r: elem, jr: seq<elem>, c: elem)
    requires t.Valid() && |x| == t.InputLen() && |jr| == t.JointRandLen() && |proof| == t.ProofLen()
    requires WireLog(t) + 1 <= MAX_ROOTS
    ensures var a := t.ProveRandLen();
            && a <= |proof|
            && QuerySpec(t, x, proof, r, jr, c)
               == [Output(t, x, QueryAnswers(t, proof[a..]), jr, c)]
                  + WireValues(WireTable(t, proof[..a], x, jr, c), WireLog(t), r) + [Eval(proof[a..], r)]
  {
    hide NextPowerOfTwo, GadgetPolyLen;
    DeclaredLengths(t);
  }

  /** `query` is additive in input share, proof share and constant scale together. */
  lemma {:induction false} QueryAdditive(t: FlpType, x: seq<elem>, y: seq<elem>, p: seq<elem>, q: seq<elem>, r: elem, jr: seq<elem>, c: elem, d: elem)
    requires t.Valid() && |x| == |y| == t.InputLen() && |jr| == t.JointRandLen()
    requires |p| == |q| == t.ProofLen() && WireLog(t) + 1 <= MAX_ROOTS
    ensures QuerySpec(t, AddVec(x, y), AddVec(p, q), r, jr, Add(c, d))
         == AddVec(QuerySpec(t, x, p, r, jr, c), QuerySpec(t, y, q, r, jr, d))
  {
    hide *;
    var a, l := t.ProveRandLen(), WireLog(t);
    QueryParts(t, AddVec(x, y), AddVec(p, q), r, jr, Add(c, d));
    QueryParts(t, x, p, r, jr, c);
    QueryParts(t, y, q, r, jr, d);
    assert AddVec(p, q)[..a] == AddVec(p[..a], q[..a]);
    assert AddVec(p, q)[a..] == AddVec(p[a..], q[a..]);
    WireValuesAdd(t, p[..a], q[..a], x, y, jr, c, d, r);
    QueryAnswersAdd(t, p[a..], q[a..]);
    OutputAdd(t, x, y, QueryAnswers(t, p[a..]), QueryAnswers(t, q[a..]), jr, c, d);
    EvalAddVec(p[a..], q[a..], r);
    AssembleAdd(Output(t, x, QueryAnswers(t, p[a..]), jr, c), Output(t, y, QueryAnswers(t, q[a..]), jr, d),
                WireValues(WireTable(t, p[..a], x, jr, c), l, r), WireValues(WireTable(t, q[..a], y, jr, d), l, r),
                Eval(p[a..], r), Eval(q[a..], r));
  }

  // ------------------------------------------------------------------ any number of shares

  ghost predicate AllLen(vs: seq<seq<elem>>, n: nat) {
    forall i :: 0 <= i < |vs| ==> |vs[i]| == n
  }

  function VecSum(vs: seq<seq<elem>>, n: nat): (s: seq<elem>)
    requires forall i :: 0 <= i < |vs| ==> |vs[i]| == n
    ensures |s| == n
  {
    if vs == [] then Zeros(n) else AddVec(VecSum(vs[..|vs| - 1], n), vs[|vs| - 1])
  }

  /** The verifier shares of all aggregators. */
  ghost function QueryAll(t: FlpType, xs: seq<seq<elem>>, ps: seq<seq<elem>>, r: elem, jr: seq<elem>, c: elem): (vs: seq<seq<elem>>)
    requires t.Valid() && |jr| == t.JointRandLen() && WireLog(t) + 1 <= MAX_ROOTS
    requires |xs| == |ps| && AllLen(xs, t.InputLen()) && AllLen(ps, t.ProofLen())
    ensures |vs| == |xs| && AllLen(vs, t.VerifierLen())
    ensures forall i :: 0 <= i < |vs| ==> vs[i] == QuerySpec(t, xs[i], ps[i], r, jr, c)
  {
    seq(|xs|, i requires 0 <= i < |xs| => QuerySpec(t, xs[i], ps[i], r, jr, c))
  }

  lemma {:induction false} AddVecZeros(v: seq<elem>)
    ensures AddVec(v, Zeros(|v|)) == v && AddVec(Zeros(|v|), v) == v
  {
    forall i | 0 <= i < |v| ensures AddVec(v, Zeros(|v|))[i] == v[i] && AddVec(Zeros(|v|), v)[i] == v[i] {
      AddZero(v[i]);
    }
  }

  lemma {:induction false} QueryZero(t: FlpType, r: elem, jr: seq<elem>)
    requires t.Valid() && |jr| == t.JointRandLen() && WireLog(t) + 1 <= MAX_ROOTS
    ensures QuerySpec(t, Zeros(t.InputLen()), Zeros(t.ProofLen()), r, jr, 0) == Zeros(t.VerifierLen())
  {
    hide QuerySpec, Add;
    var x, p := Zeros(t.InputLen()), Zeros(t.ProofLen());
    AddVecZeros(x);
    AddVecZeros(p);
    AddZero(0);
    QueryAdditive(t, x, x, p, p, r, jr, 0, 0);
    var v := QuerySpec(t, x, p, r, jr, 0);
    forall i | 0 <= i < |v| ensures v[i] == 0 {
      assert v[i] == Add(v[i], v[i]);
      SubAdd(v[i], v[i]);
      SubSelf(v[i]);
    }
  }

  /** Summing the verifier shares is querying the sums, with the constant scale added up. */
  lemma {:induction false} QuerySum(t: FlpType, xs: seq<seq<elem>>, ps: seq<seq<elem>>, r: elem, jr: seq<elem>, c: elem)
    requires t.Valid() && |jr| == t.JointRandLen() && WireLog(t) + 1 <= MAX_ROOTS
    requires |xs| == |ps| && AllLen(xs, t.InputLen()) && AllLen(ps, t.ProofLen())
    ensures VecSum(QueryAll(t, xs, ps, r, jr, c), t.VerifierLen())
         == QuerySpec(t, VecSum(xs, t.InputLen()), VecSum(ps, t.ProofLen()), r, jr, Mul(Mod(|xs|), c))
  {
    hide QuerySpec, Add, Mul, Mod, FlpType.Valid, FlpType.InputLen, FlpType.ProofLen, FlpType.VerifierLen, FlpType.JointRandLen, WireLog;
    var n := |xs|;
    if n == 0 {
      QueryZero(t, r, jr);
      ModId(0);
      MulZero(c);
    } else {
      var xs', ps' := xs[..n - 1], ps[..n - 1];
      var all := QueryAll(t, xs, ps, r, jr, c);
      QuerySum(t, xs', ps', r, jr, c);
      assert all[..n - 1] == QueryAll(t, xs', ps', r, jr, c);
      QueryAdditive(t, VecSum(xs', t.InputLen()), xs[n - 1], VecSum(ps', t.ProofLen()), ps[n - 1], r, jr, Mul(Mod(n - 1), c), c);
      NextMultiple(n, c);
    }
  }

  lemma {:induction false} NextMultiple(n: nat, c: elem)
    requires n > 0
    ensures Add(Mul(Mod(n - 1), c), c) == Mul(Mod(n), c)
  {
    hide Add, Mul, Mod;
    ModId(1);
    ModAdd(n - 1, 1);
    MulComm(c, Mod(n - 1));
    MulComm(c, Mod(n));
    MulOne(c);
    Distrib(c, Mod(n - 1), 1);
  }

  // ------------------------------------------------------------------ honest proofs

  /** The gadget outputs in an honest run. */
  function TrueOuts(t: FlpType, x: seq<elem>, jr: seq<elem>): (outs: seq<elem>)
    requires t.Valid() && |x| == t.InputLen() && |jr| == t.JointRandLen()
    ensures |outs| == t.GadgetCalls()
  {
    DeclaredLengths(t);
    seq(t.GadgetCalls(), k requires 0 <= k < t.GadgetCalls() => t.TheGadget().Call(WireRow(t, x, jr, 1, k)))
  }

  /** The validity circuit, evaluated on the real gadget. */
  function CircuitValue(t: FlpType, x: seq<elem>, jr: seq<elem>): elem
    requires t.Valid() && |x| == t.InputLen() && |jr| == t.JointRandLen()
  {
    Output(t, x, TrueOuts(t, x, jr), jr, 1)
  }

  /** The wire polynomials of an honest proof. */
  ghost function HonestWires(t: FlpType, x: seq<elem>, pr: seq<elem>, jr: seq<elem>): (fs: seq<seq<elem>>)
    requires t.Valid() && |x| == t.InputLen() && |jr| == t.JointRandLen() && |pr| == t.ProveRandLen()
    requires WireLog(t) <= MAX_ROOTS
    ensures |fs| == t.ProveRandLen() && Wires(fs, Exp2(WireLog(t)))
  {
    WirePolys(WireTable(t, pr, x, jr, 1), WireLog(t))
  }

  /** The wire polynomials take the recorded inputs at the powers of the root of unity. */
  lemma {:induction false} WiresAtRoot(t: FlpType, x: seq<elem>, pr: seq<elem>, jr: seq<elem>, k: nat)
    requires t.Valid() && |x| == t.InputLen() && |jr| == t.JointRandLen() && |pr| == t.ProveRandLen()
    requires WireLog(t) <= MAX_ROOTS && k < t.GadgetCalls()
    ensures EvalAll(HonestWires(t, x, pr, jr), Pow(Root(WireLog(t)), k + 1)) == WireRow(t, x, jr, 1, k)
  {
    hide WireRow, Eval, Pow, InvDftSeq, Dft, Exp2;
    var l := WireLog(t);
    var fs, row, w := HonestWires(t, x, pr, jr), WireRow(t, x, jr, 1, k), Pow(Root(WireLog(t)), k + 1);
    forall j | 0 <= j < |row| ensures Eval(fs[j], w) == row[j] {
      var col := WireColumn(t, pr, x, jr, 1, j);
      assert fs[j] == InvDftSeq(col, l);
      DftOfInverse(col, l);
      assert DftSeq(fs[j], l)[k + 1] == PadTo(col, Exp2(l))[k + 1];
      DftIsEval(fs[j], l, k + 1);
    }
  }

  lemma {:induction false} AnswerPoint(t: FlpType, poly: seq<elem>, k: nat)
    requires t.Valid() && WireLog(t) + 1 <= MAX_ROOTS && |poly| <= Exp2(WireLog(t) + 1)
    ensures Dft(poly, WireLog(t) + 1, (k + 1) * 2) == Eval(poly, Pow(Root(WireLog(t)), k + 1))
  {
    hide Eval, Pow, Dft, Exp2;
    DftIsEval(poly, WireLog(t) + 1, (k + 1) * 2);
    RootSquare(WireLog(t) + 1, k + 1);
  }

  lemma {:induction false} ProofPolyFits(t: FlpType)
    requires t.Valid()
    ensures var m := WirePolyLen(t.GadgetCalls());
            GadgetPolyLen(2, m) <= Exp2(WireLog(t) + 1) && GadgetPolyLen(2, m) == 2 * m - 1
  {
  }

  /** If the proof polynomial is the gadget polynomial, the shim answers what the gadget would. */
  lemma {:induction false} HonestAnswers(t: FlpType, x: seq<elem>, pr: seq<elem>, jr: seq<elem>, poly: seq<elem>)
    requires t.Valid() && |x| == t.InputLen() && |jr| == t.JointRandLen() && |pr| == t.ProveRandLen()
    requires WireLog(t) + 1 <= MAX_ROOTS && |poly| <= Exp2(WireLog(t) + 1)
    requires t.TheGadget().WellFormed() && t.TheGadget().Arity() == t.ProveRandLen() && 1 <= Exp2(WireLog(t))
    requires SamePoly(poly, GadgetPoly(t.TheGadget(), HonestWires(t, x, pr, jr)))
    ensures QueryAnswers(t, poly) == TrueOuts(t, x, jr)
  {
    hide Eval, Pow, Dft, Exp2, WireRow, GadgetPoly, HonestWires, Gadget.Call;
    var g, fs := t.TheGadget(), HonestWires(t, x, pr, jr);
    forall k | 0 <= k < t.GadgetCalls() ensures QueryAnswers(t, poly)[k] == TrueOuts(t, x, jr)[k] {
      var w := Pow(Root(WireLog(t)), k + 1);
      AnswerPoint(t, poly, k);
      EvalSame(poly, GadgetPoly(g, fs), w);
      GadgetHomomorphism(g, fs, w);
      WiresAtRoot(t, x, pr, jr, k);
    }
  }

  /** The honest proof carries the gadget polynomial exactly when `call_poly` left no stale
      coefficients. */
  lemma {:induction false} HonestProofPoly(t: FlpType, x: seq<elem>, pr: seq<elem>, jr: seq<elem>)
    requires t.Valid() && |x| == t.InputLen() && |jr| == t.JointRandLen() && |pr| == t.ProveRandLen()
    requires ProveFits(t) && WireLog(t) <= MAX_ROOTS && 1 <= Exp2(WireLog(t))
    requires t.TheGadget().WellFormed() && t.TheGadget().Arity() == t.ProveRandLen()
    ensures var proof := ProofSpec(t, x, pr, jr);
            && proof[..|pr|] == pr
            && (SamePoly(proof[|pr|..], GadgetPoly(t.TheGadget(), HonestWires(t, x, pr, jr)))
                <==> StaleFree(t.TheGadget(), HonestWires(t, x, pr, jr)))
  {
    DeclaredLengths(t);
    var g, fs := t.TheGadget(), HonestWires(t, x, pr, jr);
    MemLenFacts(g);
    hide GadgetPoly, CallPolyEffect, NextPowerOfTwo, GadgetPolyLen, WireTable, HonestWires, FlpType.TheGadget, Gadget.MemLen, ProofSpec, Exp2, Log2, StaleFree;
    CallPolyTruncated(g, fs);
    ProofSpecIs(t, x, pr, jr);
  }

  /** The first coefficients of the written buffer, as many as the proof has room for. */
  lemma {:induction false} CallPolyTruncated(g: Gadget, fs: seq<seq<elem>>)
    requires Fits(g, g.MemLen(), fs)
    ensures GadgetPolyLen(g.Degree(), WirePolyLen(g.Calls())) <= g.MemLen()
    ensures SamePoly(CallPolyEffect(g, Zeros(g.MemLen()), fs)[..GadgetPolyLen(g.Degree(), WirePolyLen(g.Calls()))], GadgetPoly(g, fs))
            <==> StaleFree(g, fs)
  {
    hide GadgetPoly, CallPolyEffect, NextPowerOfTwo, GadgetPolyLen, Gadget.MemLen, StaleFree, SamePoly, PadTo;
    var m, n := WirePolyLen(g.Calls()), g.MemLen();
    MemLenFacts(g);
    CallPolyExactIff(g, n, fs);
    GadgetPolyFits(g, fs, m);
    forall k | GadgetPolyLen(g.Degree(), m) <= k < n ensures CallPolyEffect(g, Zeros(n), fs)[k] == 0 {
      CallPolyShort(g, fs, k);
    }
    TruncatedSame(CallPolyEffect(g, Zeros(n), fs), GadgetPoly(g, fs), GadgetPolyLen(g.Degree(), m));
  }

  lemma {:induction false} TruncatedSame(b: seq<elem>, p: seq<elem>, len: nat)
    requires |p| <= len <= |b| && forall k :: len <= k < |b| ==> b[k] == 0
    ensures SamePoly(b[..len], p) <==> b == PadTo(p, |b|)
  {
    if SamePoly(b[..len], p) {
      forall k | 0 <= k < |b| ensures b[k] == PadTo(p, |b|)[k] {
        assert Pad(b[..len], k) == Pad(p, k);
      }
    }
    if b == PadTo(p, |b|) {
      forall k: nat ensures Pad(b[..len], k) == Pad(p, k) {
      }
    }
  }

  lemma {:induction false} ProofSpecIs(t: FlpType, x: seq<elem>, pr: seq<elem>, jr: seq<elem>)
    requires t.Valid() && |x| == t.InputLen() && |jr| == t.JointRandLen() && |pr| == t.ProveRandLen()
    requires ProveFits(t) && WireLog(t) <= MAX_ROOTS
    ensures var g := t.TheGadget();
            var n := g.MemLen();
            && Fits(g, n, HonestWires(t, x, pr, jr)) && GadgetPolyLen(g.Degree(), WirePolyLen(g.Calls())) <= n
            && ProofSpec(t, x, pr, jr)
               == pr + CallPolyEffect(g, Zeros(n), HonestWires(t, x, pr, jr))[..GadgetPolyLen(g.Degree(), WirePolyLen(g.Calls()))]
  {
    DeclaredLengths(t);
    MemLenFacts(t.TheGadget());
    hide CallPolyEffect, NextPowerOfTwo, GadgetPolyLen, WireTable;
  }

  lemma {:induction false} ProofTail(t: FlpType)
    requires t.Valid()
    ensures var a := t.ProveRandLen();
            && a <= t.ProofLen() && t.ProofLen() - a <= Exp2(WireLog(t) + 1) && 1 <= Exp2(WireLog(t))
            && t.TheGadget().WellFormed() && t.TheGadget().Arity() == a && 2 + a == t.VerifierLen()
  {
    DeclaredLengths(t);
    ProofPolyFits(t);
    Exp2Positive(WireLog(t));
    hide FlpType.TheGadget, FlpType.ProofLen, Exp2, WirePolyLen;
  }

  lemma {:induction false} WiresAtPoint(t: FlpType, x: seq<elem>, pr: seq<elem>, jr: seq<elem>, r: elem)
    requires t.Valid() && |x| == t.InputLen() && |jr| == t.JointRandLen() && |pr| == t.ProveRandLen() && WireLog(t) <= MAX_ROOTS
    ensures WireValues(WireTable(t, pr, x, jr, 1), WireLog(t), r) == EvalAll(HonestWires(t, x, pr, jr), r)
  {
    hide WireTable, Eval, InvDftSeq, WireLog;
  }

  /** The honest proof: its seeds, and the gadget polynomial. */
  lemma {:induction false} HonestProofSame(t: FlpType, x: seq<elem>, pr: seq<elem>, jr: seq<elem>)
    requires t.Valid() && |x| == t.InputLen() && |jr| == t.JointRandLen() && |pr| == t.ProveRandLen()
    requires ProveFits(t) && WireLog(t) <= MAX_ROOTS && HonestStaleFree(t, x, pr, jr)
    ensures |pr| <= t.ProofLen() && t.TheGadget().WellFormed() && t.TheGadget().Arity() == t.ProveRandLen()
    ensures var proof := ProofSpec(t, x, pr, jr);
            && proof[..|pr|] == pr
            && SamePoly(proof[|pr|..], GadgetPoly(t.TheGadget(), HonestWires(t, x, pr, jr)))
  {
    hide GadgetPoly, ProofSpec, HonestWires, StaleFree, SamePoly, WireLog, FlpType.TheGadget, FlpType.ProofLen, ProveFits, Exp2;
    ProofTail(t);
    HonestProofPoly(t, x, pr, jr);
  }

  lemma {:induction false} CircuitValueIs(t: FlpType, x: seq<elem>, jr: seq<elem>)
    requires t.Valid() && |x| == t.InputLen() && |jr| == t.JointRandLen()
    ensures CircuitValue(t, x, jr) == Output(t, x, TrueOuts(t, x, jr), jr, 1)
  {
  }

  /** The verifier of an honest proof: the circuit's value, the wires at r, and the gadget on them. */
  lemma {:induction false} HonestVerifier(t: FlpType, x: seq<elem>, pr: seq<elem>, jr: seq<elem>, r: elem)
    requires t.Valid() && |x| == t.InputLen() && |jr| == t.JointRandLen() && |pr| == t.ProveRandLen()
    requires ProveFits(t) && WireLog(t) + 1 <= MAX_ROOTS && HonestStaleFree(t, x, pr, jr)
    ensures var ws := EvalAll(HonestWires(t, x, pr, jr), r);
            && |ws| == t.TheGadget().Arity()
            && QuerySpec(t, x, ProofSpec(t, x, pr, jr), r, jr, 1) == [CircuitValue(t, x, jr)] + ws + [t.TheGadget().Call(ws)]
  {
    hide GadgetPoly, ProofSpec, QuerySpec, Output, WireTable, Eval, QueryAnswers, Gadget.Call, Exp2, StaleFree, SamePoly, InvDftSeq, TrueOuts, WireLog,
         WirePolyLen, FlpType.TheGadget, FlpType.Valid, FlpType.ProofLen, FlpType.InputLen, FlpType.ProveRandLen, ProveFits, HonestStaleFree,
         CircuitValue, WireValues, EvalAll, HonestWires, Gadget.Arity, Gadget.WellFormed, FlpType.GadgetCalls, FlpType.JointRandLen;
    ProofTail(t);
    HonestProofSame(t, x, pr, jr);
    var g, fs, proof := t.TheGadget(), HonestWires(t, x, pr, jr), ProofSpec(t, x, pr, jr);
    var poly := proof[t.ProveRandLen()..];
    HonestAnswers(t, x, pr, jr, poly);
    EvalSame(poly, GadgetPoly(g, fs), r);
    GadgetHomomorphism(g, fs, r);
    QueryParts(t, x, proof, r, jr, 1);
    WiresAtPoint(t, x, pr, jr, r);
    CircuitValueIs(t, x, jr);
  }

  /** An honest proof of an input on which the circuit vanishes is accepted. */
  lemma {:induction false} HonestAccepted(t: FlpType, x: seq<elem>, pr: seq<elem>, jr: seq<elem>, r: elem)
    requires t.Valid() && |x| == t.InputLen() && |jr| == t.JointRandLen() && |pr| == t.ProveRandLen()
    requires ProveFits(t) && WireLog(t) + 1 <= MAX_ROOTS
    requires HonestStaleFree(t, x, pr, jr) && CircuitValue(t, x, jr) == 0
    ensures Accepts(t, QuerySpec(t, x, ProofSpec(t, x, pr, jr), r, jr, 1))
  {
    hide *;
    ProofTail(t);
    HonestVerifier(t, x, pr, jr, r);
    var ws := EvalAll(HonestWires(t, x, pr, jr), r);
    AcceptedParts(t, ws, t.TheGadget().Call(ws));
  }

  lemma {:induction false} AcceptedParts(t: FlpType, ws: seq<elem>, e: elem)
    requires t.Valid() && |ws| == t.ProveRandLen() && 2 + |ws| == t.VerifierLen() && t.TheGadget().Arity() == |ws|
    requires t.TheGadget().Call(ws) == e
    ensures Accepts(t, [0] + ws + [e])
  {
    hide Gadget.Call, NextPowerOfTwo;
    var v := [0] + ws + [e];
    assert v[1..1 + |ws|] == ws;
  }

  /** Direct multiplication leaves no stale coefficients while the honest proof is computed. */
  ghost predicate HonestStaleFree(t: FlpType, x: seq<elem>, pr: seq<elem>, jr: seq<elem>)
    requires t.Valid() && |x| == t.InputLen() && |jr| == t.JointRandLen() && |pr| == t.ProveRandLen()
    requires WireLog(t) <= MAX_ROOTS
  {
    DeclaredLengths(t);
    Exp2Positive(WireLog(t));
    StaleFree(t.TheGadget(), HonestWires(t, x, pr, jr))
  }

  /** The circuits whose proofs never hold stale coefficients, whatever the input and randomness. */
  predicate NeverStale(t: FlpType)
    requires t.Valid()
  {
    t.Count? || t.Sum? || t.chunkLength == 1 || t.GadgetCalls() >= 16
  }

  /** Count and Sum sum no products; a single chunk has no predecessor; 16 calls take the FFT path. */
  lemma {:induction false} StaleFreeTypes(t: FlpType, x: seq<elem>, pr: seq<elem>, jr: seq<elem>)
    requires t.Valid() && |x| == t.InputLen() && |jr| == t.JointRandLen() && |pr| == t.ProveRandLen()
    requires WireLog(t) <= MAX_ROOTS && NeverStale(t)
    ensures HonestStaleFree(t, x, pr, jr)
  {
    if t.Chunked() {
      ThresholdCalls(t.GadgetCalls());
      hide HonestWires, WirePolyLen, WireLog, StaleSum, Gadget.MemLen;
      DeclaredLengths(t);
      Exp2Positive(WireLog(t));
      if t.GadgetCalls() < 16 {
        OneChunk(HonestWires(t, x, pr, jr), t.TheGadget().MemLen());
      }
    }
  }

  lemma {:induction false} OneChunk(inp: seq<seq<elem>>, n: nat)
    requires Pairs(1, inp)
    ensures NothingStale(1, inp, n)
  {
    hide StaleSum;
    forall k: nat | k < n ensures StaleSum(1, inp, k) == 0 {
      NonShrinkingExact(1, inp, k);
    }
  }

  /** The FFT path is taken from 16 calls on; below, wire polynomials have at most 16 coefficients. */
  lemma {:induction false} ThresholdCalls(calls: nat)
    ensures WirePolyLen(calls) >= FFT_THRESHOLD <==> calls >= 16
    ensures calls < 16 ==> WirePolyLen(calls) <= 16
  {
    SmallExponents();
    var l := Log2(1 + calls);
    hide Exp2;
    if l <= 4 {
      Exp2Monotone(l, 4);
    } else {
      Exp2Monotone(5, l);
      Exp2Monotone(4, l - 1);
    }
  }

  lemma {:induction false} SmallExponents()
    ensures Exp2(4) == 16 && Exp2(5) == 32
  {
    assert Exp2(0) == 1 && Exp2(1) == 2 && Exp2(2) == 4 && Exp2(3) == 8;
  }

  /** Completeness. However a valid input and its honest proof are split into 1 <= n < p additive
      shares, the sum of the n `query` results is accepted by `decide`. */
  lemma {:induction false} DistributedCompleteness(t: FlpType, x: seq<elem>, pr: seq<elem>, jr: seq<elem>, r: elem,
                                xs: seq<seq<elem>>, ps: seq<seq<elem>>)
    requires t.Valid() && |x| == t.InputLen() && |jr| == t.JointRandLen() && |pr| == t.ProveRandLen()
    requires ProveFits(t) && WireLog(t) + 1 <= MAX_ROOTS
    requires HonestStaleFree(t, x, pr, jr) && CircuitValue(t, x, jr) == 0
    requires 1 <= |xs| == |ps| < P && AllLen(xs, t.InputLen()) && AllLen(ps, t.ProofLen())
    requires VecSum(xs, t.InputLen()) == x && VecSum(ps, t.ProofLen()) == ProofSpec(t, x, pr, jr)
    ensures Accepts(t, VecSum(QueryAll(t, xs, ps, r, jr, Inv(Mod(|xs|))), t.VerifierLen()))
  {
    hide QuerySpec, ProofSpec, Accepts, Inv, Mul, CircuitValue, HonestStaleFree;
    QuerySum(t, xs, ps, r, jr, Inv(Mod(|xs|)));
    ModId(|xs|);
    assert Mul(Mod(|xs|), Inv(Mod(|xs|))) == 1;
    HonestAccepted(t, x, pr, jr, r);
  }
}
