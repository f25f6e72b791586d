/** Prio3 end to end: honest reports of any valid measurement finish preparation in one round with the
    same joint randomness everywhere, and unsharding a batch returns the integer totals. */
module Prio3Correct {
  import opened Wrappers
  import opened Powers
  import opened Field
  import opened Sums
  import opened Fft
  import opened Polynomial
  import opened Gadgets
  import opened FlpTypes
  import opened Flp
  import opened FlpCompleteness
  import opened FlpSoundness
  import opened FlpOutput
  import opened Prio3

  // ------------------------------------------------------------------ additive sharing

  lemma {:induction false} ExchangeShare(m: elem, h: elem, s: elem)
    ensures Add(Sub(m, h), Add(s, h)) == Add(m, s)
  {
    hide Add, Sub;
    AddComm(s, h);
    AddAssoc(Sub(m, h), h, s);
    SubAdd(m, h);
  }

  /** What was subtracted adds up to the original. */
  lemma {:induction false} MinusCancels(x: seq<elem>, hs: seq<seq<elem>>)
    requires forall i :: 0 <= i < |hs| ==> |hs[i]| == |x|
    ensures AddVec(Minus(x, hs), VecSum(hs, |x|)) == x
  {
    hide Add, Sub;
    if hs == [] {
      AddVecZeros(x);
    } else {
      var n := |hs| - 1;
      var m, s, h := Minus(x, hs[..n]), VecSum(hs[..n], |x|), hs[n];
      MinusCancels(x, hs[..n]);
      forall i | 0 <= i < |x| ensures Add(Sub(m[i], h[i]), Add(s[i], h[i])) == x[i] {
        ExchangeShare(m[i], h[i], s[i]);
        assert AddVec(m, s)[i] == x[i];
      }
    }
  }

  lemma {:induction false} VecSumFirst(a: seq<elem>, hs: seq<seq<elem>>)
    requires forall i :: 0 <= i < |hs| ==> |hs[i]| == |a|
    ensures VecSum([a] + hs, |a|) == AddVec(a, VecSum(hs, |a|))
  {
    hide Add;
    var all := [a] + hs;
    if hs == [] {
      assert all == [a] && [a][..0] == [];
      AddVecZeros(a);
      assert VecSum([a], |a|) == AddVec(Zeros(|a|), a);
    } else {
      var n := |hs| - 1;
      VecSumFirst(a, hs[..n]);
      assert all[..|all| - 1] == [a] + hs[..n] && all[|all| - 1] == hs[n];
      AddVecAssoc(a, VecSum(hs[..n], |a|), hs[n]);
    }
  }

  lemma {:induction false} AddVecAssoc(a: seq<elem>, b: seq<elem>, c: seq<elem>)
    requires |a| == |b| == |c|
    ensures AddVec(AddVec(a, b), c) == AddVec(a, AddVec(b, c))
  {
    hide Add;
    forall i | 0 <= i < |a| ensures AddVec(AddVec(a, b), c)[i] == AddVec(a, AddVec(b, c))[i] {
      AddAssoc(a[i], b[i], c[i]);
    }
  }

  /** The leader's remainder and the helpers' shares add up to the shared vector. */
  lemma {:induction false} SharesSum(x: seq<elem>, hs: seq<seq<elem>>)
    requires forall i :: 0 <= i < |hs| ==> |hs[i]| == |x|
    ensures VecSum([Minus(x, hs)] + hs, |x|) == x
  {
    hide Minus, VecSum, AddVec;
    VecSumFirst(Minus(x, hs), hs);
    MinusCancels(x, hs);
  }

  // ------------------------------------------------------------------ honest shares

  ghost predicate Sharded(prio: Prio3, x: seq<elem>, random: seq<Seed>): (b: bool)
    ensures b ==> Enough(prio, random) && |x| == prio.t.InputLen() && ProveFits(prio.t) && prio.Valid()
  {
    Enough(prio, random) && |x| == prio.t.InputLen() && ProveFits(prio.t)
  }

  /** Aggregators expand the shares that sharding made. */
  lemma {:induction false} ExpandsMeasurement(prio: Prio3, x: seq<elem>, random: seq<Seed>, agg: nat)
    requires Sharded(prio, x, random) && agg < prio.aggregators
    ensures ExpandMeasurement(prio, SharedInput(prio, x, random, agg).measurement, agg) == MeasurementShares(prio, x, random)[agg]
  {
    hide FlpType.Valid, FlpType.InputLen, FlpType.ProofLen, Minus, Take, LeaderProofs;
  }

  lemma {:induction false} ExpandsProof(prio: Prio3, x: seq<elem>, random: seq<Seed>, agg: nat, p: nat)
    requires Sharded(prio, x, random) && agg < prio.aggregators && p < prio.proofs
    ensures var s := SharedInput(prio, x, random, agg).proofs;
            (s.LeaderShare? ==> p < |s.data|) && ExpandProof(prio, s, agg, p) == ProofShares(prio, x, random, p)[agg]
  {
    hide FlpType.Valid, FlpType.InputLen, FlpType.ProofLen, Minus, Take, HonestProof, ProveFits;
  }

  /** Replacing the own part by itself changes nothing: every aggregator uses the public parts. */
  lemma {:induction false} SameParts(prio: Prio3, x: seq<elem>, random: seq<Seed>, agg: nat)
    requires Sharded(prio, x, random) && agg < prio.aggregators
    ensures Decoded(prio, SharedInput(prio, x, random, agg))
    ensures OwnParts(prio, agg, Public(prio, x, random), SharedInput(prio, x, random, agg)) == Public(prio, x, random)
  {
    hide FlpType.Valid, FlpType.InputLen, FlpType.ProofLen, Minus, Take, ProofShares, MeasurementShares, ExpandMeasurement, ProveFits;
    if prio.Joint() {
      ExpandsMeasurement(prio, x, random, agg);
      var parts := Parts(prio, x, random);
      assert parts[..agg] + [parts[agg]] + parts[agg + 1..] == parts;
    }
  }

  // ------------------------------------------------------------------ honest preparation

  /** The joint randomness that every party derives for proof p. */
  function HonestJointRand(prio: Prio3, x: seq<elem>, random: seq<Seed>, p: nat): (jr: seq<elem>)
    requires Enough(prio, random) && |x| == prio.t.InputLen()
    ensures |jr| == prio.t.JointRandLen()
  {
    JointRand(prio, Public(prio, x, random), p)
  }

  /** What the theorem asks of one proof: the circuit accepts the measurement, no stale coefficients
      are left while proving, and the query point is not a root of unity. */
  ghost predicate ProofReady(prio: Prio3, x: seq<elem>, random: seq<Seed>, p: nat)
    requires Sharded(prio, x, random) && WireLog(prio.t) + 1 <= MAX_ROOTS
  {
    && Pow(prio.xof.query(p), WirePolyLen(prio.t.GadgetCalls())) != 1
    && CircuitValue(prio.t, x, HonestJointRand(prio, x, random, p)) == 0
    && HonestStaleFree(prio.t, x, ProveRand(prio, random, p), HonestJointRand(prio, x, random, p))
  }

  ghost predicate Ready(prio: Prio3, x: seq<elem>, random: seq<Seed>): (b: bool)
    ensures b ==> Sharded(prio, x, random) && WireLog(prio.t) + 1 <= MAX_ROOTS && prio.aggregators < P
  {
    && Sharded(prio, x, random) && WireLog(prio.t) + 1 <= MAX_ROOTS && prio.aggregators < P
    && forall p :: 0 <= p < prio.proofs ==> ProofReady(prio, x, random, p)
  }

  /** The verifier shares of proof p. */
  ghost function HonestVerifiers(prio: Prio3, x: seq<elem>, random: seq<Seed>, p: nat): (vs: seq<seq<elem>>)
    requires Sharded(prio, x, random) && WireLog(prio.t) + 1 <= MAX_ROOTS
    ensures |vs| == prio.aggregators && AllLen(vs, prio.t.VerifierLen())
  {
    QueryAll(prio.t, MeasurementShares(prio, x, random), ProofShares(prio, x, random, p), prio.xof.query(p),
             HonestJointRand(prio, x, random, p), Inv(Mod(prio.aggregators)))
  }

  /** Each aggregator's query succeeds, on its share of the measurement and of the proof. */
  lemma {:induction false} HonestQuery(prio: Prio3, x: seq<elem>, random: seq<Seed>, agg: nat, p: nat)
    requires Ready(prio, x, random) && agg < prio.aggregators && p < prio.proofs
    ensures Decoded(prio, SharedInput(prio, x, random, agg))
    ensures QueryFor(prio, agg, Public(prio, x, random), SharedInput(prio, x, random, agg), p) == Success(HonestVerifiers(prio, x, random, p)[agg])
  {
    assert ProofReady(prio, x, random, p);
    hide FlpType.Valid, FlpType.InputLen, FlpType.ProofLen, Public, MeasurementShares, ProofShares, SharedInput, QuerySpec, OwnParts,
         JointRand, ExpandMeasurement, ExpandProof, Inv, Mod, Pow, WirePolyLen, WireLog, Ready, Sharded, HonestStaleFree, CircuitValue;
    SameParts(prio, x, random, agg);
    ExpandsMeasurement(prio, x, random, agg);
    ExpandsProof(prio, x, random, agg, p);
  }

  /** The verifier shares of one aggregator for the first n proofs. */
  ghost function HonestRow(prio: Prio3, x: seq<elem>, random: seq<Seed>, agg: nat, n: nat): (row: seq<seq<elem>>)
    requires Sharded(prio, x, random) && WireLog(prio.t) + 1 <= MAX_ROOTS && agg < prio.aggregators
    ensures |row| == n && forall p :: 0 <= p < n ==> row[p] == HonestVerifiers(prio, x, random, p)[agg]
  {
    seq(n, p requires 0 <= p < n => HonestVerifiers(prio, x, random, p)[agg])
  }

  lemma {:induction false} RowStep(prio: Prio3, x: seq<elem>, random: seq<Seed>, agg: nat, n: nat)
    requires Sharded(prio, x, random) && WireLog(prio.t) + 1 <= MAX_ROOTS && agg < prio.aggregators
    ensures HonestRow(prio, x, random, agg, n)
         == if n == 0 then [] else HonestRow(prio, x, random, agg, n - 1) + [HonestVerifiers(prio, x, random, n - 1)[agg]]
  {
    hide HonestVerifiers, HonestRow, Sharded, WireLog;
  }

  lemma {:induction false} HonestQueries(prio: Prio3, x: seq<elem>, random: seq<Seed>, agg: nat, n: nat)
    requires Ready(prio, x, random) && agg < prio.aggregators && n <= prio.proofs
    ensures Decoded(prio, SharedInput(prio, x, random, agg))
    ensures Queries(prio, agg, Public(prio, x, random), SharedInput(prio, x, random, agg), n)
         == Success(HonestRow(prio, x, random, agg, n))
  {
    hide Public, SharedInput, HonestVerifiers, HonestRow, QueryFor, Ready, Sharded, Decoded;
    SameParts(prio, x, random, agg);
    RowStep(prio, x, random, agg, n);
    if n > 0 {
      HonestQueries(prio, x, random, agg, n - 1);
      HonestQuery(prio, x, random, agg, n - 1);
    }
  }

  /** The joint randomness seed of the report. */
  function HonestSeed(prio: Prio3, x: seq<elem>, random: seq<Seed>): Option<Seed>
    requires Enough(prio, random) && |x| == prio.t.InputLen()
  {
    if prio.Joint() then Some(prio.xof.jointSeed(Parts(prio, x, random))) else None
  }

  ghost function HonestState(prio: Prio3, x: seq<elem>, random: seq<Seed>, agg: nat): PrepareState
    requires Sharded(prio, x, random) && agg < prio.aggregators
  {
    PrepareState(SharedInput(prio, x, random, agg).measurement, HonestSeed(prio, x, random), agg)
  }

  ghost function HonestShare(prio: Prio3, x: seq<elem>, random: seq<Seed>, agg: nat): PrepareShare
    requires Sharded(prio, x, random) && WireLog(prio.t) + 1 <= MAX_ROOTS && agg < prio.aggregators
  {
    PrepareShare(HonestRow(prio, x, random, agg, prio.proofs), if prio.Joint() then Some(Parts(prio, x, random)[agg]) else None)
  }

  /** Every aggregator prepares, and derives the same joint randomness seed. */
  lemma {:induction false} HonestPrepared(prio: Prio3, x: seq<elem>, random: seq<Seed>, agg: nat)
    requires Ready(prio, x, random) && agg < prio.aggregators
    ensures Decoded(prio, SharedInput(prio, x, random, agg))
    ensures Prepared(prio, agg, Public(prio, x, random), SharedInput(prio, x, random, agg))
         == Success((HonestState(prio, x, random, agg), HonestShare(prio, x, random, agg)))
  {
    hide FlpType.Valid, FlpType.InputLen, FlpType.ProofLen, MeasurementShares, HonestVerifiers, Queries, Ready, Sharded, ExpandMeasurement,
         OwnParts, Decoded, LeaderProofs, WireLog;
    SameParts(prio, x, random, agg);
    HonestQueries(prio, x, random, agg, prio.proofs);
    assert Queries(prio, agg, Public(prio, x, random), SharedInput(prio, x, random, agg), prio.proofs).value == HonestShare(prio, x, random, agg).verifiers;
    if prio.Joint() {
      ExpandsMeasurement(prio, x, random, agg);
      assert Parts(prio, x, random)[agg] == PartOf(prio, Blind(prio, random, agg), agg, MeasurementShares(prio, x, random)[agg]);
    }
  }

  ghost function HonestShares(prio: Prio3, x: seq<elem>, random: seq<Seed>): (s: seq<PrepareShare>)
    requires Sharded(prio, x, random) && WireLog(prio.t) + 1 <= MAX_ROOTS
    ensures |s| == prio.aggregators
  {
    seq(prio.aggregators, i requires 0 <= i < prio.aggregators => HonestShare(prio, x, random, i))
  }

  /** The sum of the verifier shares of every proof is accepted. */
  lemma {:induction false} HonestColumn(prio: Prio3, x: seq<elem>, random: seq<Seed>, p: nat)
    requires Ready(prio, x, random) && p < prio.proofs
    ensures Accepts(prio.t, VecSum(HonestVerifiers(prio, x, random, p), prio.t.VerifierLen()))
  {
    assert ProofReady(prio, x, random, p);
    assert Sharded(prio, x, random);
    hide ProofSpec, Accepts, Minus, HelperMeasurements, HelperProofs, FlpType.ProofLen, FlpType.Valid, HonestStaleFree,
         CircuitValue, Ready, Inv, Mod, QueryAll, Pow, WireLog;
    SharesSum(x, HelperMeasurements(prio, random));
    SharesSum(HonestProof(prio, x, random, p), HelperProofs(prio, random, p));
    hide VecSum;
    DistributedCompleteness(prio.t, x, ProveRand(prio, random, p), HonestJointRand(prio, x, random, p), prio.xof.query(p),
                            MeasurementShares(prio, x, random), ProofShares(prio, x, random, p));
  }

  /** The prepare message of an honest report. */
  lemma {:induction false} HonestMessage(prio: Prio3, x: seq<elem>, random: seq<Seed>)
    requires Ready(prio, x, random)
    ensures prio.Joint() ==> forall i :: 0 <= i < prio.aggregators ==> HonestShares(prio, x, random)[i].jointPart.Some?
    ensures MessageOf(prio, HonestShares(prio, x, random)) == Success(PrepareMessage(HonestSeed(prio, x, random)))
  {
    hide Accepts, VecSum, FlpType.ProofLen, FlpType.Valid, FlpType.InputLen, HonestVerifiers, Ready, Sharded, MeasurementShares, WireLog, Parts;
    var shares := HonestShares(prio, x, random);
    forall i | 0 <= i < |shares| ensures WellSized(prio, shares[i].verifiers) {
      forall p | 0 <= p < prio.proofs ensures |shares[i].verifiers[p]| == prio.t.VerifierLen() {
        assert AllLen(HonestVerifiers(prio, x, random, p), prio.t.VerifierLen());
      }
    }
    forall p | 0 <= p < prio.proofs ensures Accepts(prio.t, VecSum(VerifierShares(prio, shares, p), prio.t.VerifierLen())) {
      assert VerifierShares(prio, shares, p) == HonestVerifiers(prio, x, random, p);
      HonestColumn(prio, x, random, p);
    }
    if prio.Joint() {
      assert SentParts(shares) == Parts(prio, x, random);
    }
  }

  /** Every aggregator's output share. */
  function OutputShares(prio: Prio3, x: seq<elem>, random: seq<Seed>): (outs: seq<seq<elem>>)
    requires Enough(prio, random) && |x| == prio.t.InputLen()
    ensures |outs| == prio.aggregators && forall i :: 0 <= i < |outs| ==> |outs[i]| == OutputLen(prio.t)
  {
    TruncatedAll(prio.t, MeasurementShares(prio, x, random))
  }

  /** Completeness of preparation: for any circuit, number of aggregators and number of proofs, every
      aggregator prepares an honest report and derives the same joint randomness seed, the message is
      accepted, every aggregator finishes, and the output shares add up to the truncated measurement. */
  lemma {:induction false} HonestPreparation(prio: Prio3, x: seq<elem>, random: seq<Seed>)
    requires Ready(prio, x, random) && Decodable(prio.t)
    ensures forall i :: 0 <= i < prio.aggregators ==>
              && Decoded(prio, SharedInput(prio, x, random, i))
              && Prepared(prio, i, Public(prio, x, random), SharedInput(prio, x, random, i))
                 == Success((HonestState(prio, x, random, i), HonestShares(prio, x, random)[i]))
              && HonestState(prio, x, random, i).jointSeed == HonestSeed(prio, x, random)
    ensures prio.Joint() ==> forall i :: 0 <= i < prio.aggregators ==> HonestShares(prio, x, random)[i].jointPart.Some?
    ensures MessageOf(prio, HonestShares(prio, x, random)) == Success(PrepareMessage(HonestSeed(prio, x, random)))
    ensures forall i :: 0 <= i < prio.aggregators ==>
              Finished(prio, HonestState(prio, x, random, i), PrepareMessage(HonestSeed(prio, x, random))) == Success(OutputShares(prio, x, random)[i])
    ensures VecSum(OutputShares(prio, x, random), OutputLen(prio.t)) == Truncated(prio.t, x)
  {
    HonestMessage(prio, x, random);
    SharesSum(x, HelperMeasurements(prio, random));
    TruncatedSum(prio.t, MeasurementShares(prio, x, random));
    hide FlpType.ProofLen, FlpType.Valid, FlpType.InputLen, HonestShare, Ready, Sharded, SharedInput, Public, ExpandMeasurement, MessageOf, Prepared,
         Minus, VecSum, Decoded, WireLog, Truncated, Decodable, OutputLen;
    forall i | 0 <= i < prio.aggregators
      ensures Decoded(prio, SharedInput(prio, x, random, i))
      ensures Prepared(prio, i, Public(prio, x, random), SharedInput(prio, x, random, i))
           == Success((HonestState(prio, x, random, i), HonestShares(prio, x, random)[i]))
      ensures Finished(prio, HonestState(prio, x, random, i), PrepareMessage(HonestSeed(prio, x, random))) == Success(OutputShares(prio, x, random)[i])
    {
      HonestPrepared(prio, x, random, i);
      ExpandsMeasurement(prio, x, random, i);
    }
  }

  // ------------------------------------------------------------------ the run of one report

  /** All aggregators' preparation of a report, or the first failure. */
  ghost function PrepareAll(prio: Prio3, pub: PublicShare, inputs: seq<InputShare>, n: nat): (r: Result<(seq<PrepareState>, seq<PrepareShare>), Prio3Error>)
    requires prio.Valid() && n <= |inputs| && forall i :: 0 <= i < |inputs| ==> Decoded(prio, inputs[i])
    ensures r.Success? ==> |r.value.0| == |r.value.1| == n
    ensures r.Success? && prio.Joint() ==> forall i :: 0 <= i < n ==> r.value.1[i].jointPart.Some?
  {
    if n == 0 then Success(([], []))
    else
      match PrepareAll(prio, pub, inputs, n - 1)
      case Failure(e) => Failure(e)
      case Success((states, shares)) =>
        match Prepared(prio, n - 1, pub, inputs[n - 1])
        case Failure(e) => Failure(e)
        case Success((state, share)) => Success((states + [state], shares + [share]))
  }

  /** The output shares that the first n aggregators compute, or the first failure. */
  ghost function FinishAll(prio: Prio3, states: seq<PrepareState>, msg: PrepareMessage, n: nat): (r: Result<seq<seq<elem>>, Prio3Error>)
    requires prio.Valid() && n <= |states|
    ensures r.Success? ==> |r.value| == n
  {
    if n == 0 then Success([])
    else
      match FinishAll(prio, states, msg, n - 1)
      case Failure(e) => Failure(e)
      case Success(outs) =>
        match Finished(prio, states[n - 1], msg)
        case Failure(e) => Failure(e)
        case Success(out) => Success(outs + [out])
  }

  /** Preparation of the input shares of a report by all aggregators. */
  ghost function PrepareReport(prio: Prio3, pub: PublicShare, inputs: seq<InputShare>): (r: Result<seq<seq<elem>>, Prio3Error>)
    requires prio.Valid() && forall i :: 0 <= i < |inputs| ==> Decoded(prio, inputs[i])
    ensures r.Success? ==> |r.value| == |inputs|
  {
    match PrepareAll(prio, pub, inputs, |inputs|)
    case Failure(e) => Failure(e)
    case Success((states, shares)) =>
      match MessageOf(prio, shares)
      case Failure(e) => Failure(e)
      case Success(msg) => FinishAll(prio, states, msg, |inputs|)
  }

  /** A report: the instance for its nonce, the measurement and the client's seeds. */
  datatype Report = Report(prio: Prio3, m: Measurement, random: seq<Seed>) {
    predicate Valid() { prio.Valid() && Suits(prio.t, m) }
  }

  /** The whole run of a report, from the measurement to the output shares. */
  ghost function ReportRun(r: Report): (outs: Result<seq<seq<elem>>, Prio3Error>)
    requires r.Valid()
    ensures outs.Success? ==> |outs.value| == r.prio.aggregators
  {
    SharedDecoded(r);
    match Sharing(r.prio, r.m, r.random)
    case Failure(e) => Failure(e)
    case Success((pub, inputs)) => PrepareReport(r.prio, pub, inputs)
  }

  /** Sharing makes one decodable input share per aggregator. */
  lemma {:induction false} SharedDecoded(r: Report)
    requires r.Valid()
    ensures var s := Sharing(r.prio, r.m, r.random);
            s.Success? ==> |s.value.1| == r.prio.aggregators && forall i :: 0 <= i < |s.value.1| ==> Decoded(r.prio, s.value.1[i])
  {
    hide FlpType.Valid, FlpType.InputLen, FlpType.ProofLen, ProveFits, SharedInput, Public, EncodingOf, Decoded, Coordinate, Plain;
    var s := Sharing(r.prio, r.m, r.random);
    if s.Success? {
      var x := EncodingOf(r.prio.t, r.m).value;
      EncodingTruncates(r.prio.t, r.m);
      forall i | 0 <= i < r.prio.aggregators ensures Decoded(r.prio, s.value.1[i]) {
        SameParts(r.prio, x, r.random, i);
      }
    }
  }

  /** An honest report: the measurement is encoded without error, the circuit is never stale and fits the
      field's FFT, and no query point is a root of unity. */
  ghost predicate Honest(t: FlpType, aggregators: nat, r: Report) {
    && r.Valid() && r.prio.t == t && r.prio.aggregators == aggregators < P && |r.random| == r.prio.RandomSize()
    && EncodingOf(t, r.m).Success? && NeverStale(t) && ProveFits(t) && WireLog(t) + 1 <= MAX_ROOTS
    && forall p :: 0 <= p < r.prio.proofs ==> Pow(r.prio.xof.query(p), WirePolyLen(t.GadgetCalls())) != 1
  }

  /** Honest reports meet every condition of preparation. */
  lemma {:induction false} HonestReady(t: FlpType, aggregators: nat, r: Report)
    requires Honest(t, aggregators, r)
    ensures Decodable(t) && Ready(r.prio, EncodingOf(t, r.m).value, r.random)
  {
    EncodingTruncates(t, r.m);
    var prio, x := r.prio, EncodingOf(t, r.m).value;
    hide EncodingOf, CircuitValue, HonestStaleFree, ProveFits, WireLog, Pow, FlpType.ProofLen, Coordinate, Plain, NeverStale;
    forall p | 0 <= p < prio.proofs ensures ProofReady(prio, x, r.random, p) {
      ValidVanishes(t, x, HonestJointRand(prio, x, r.random, p));
      StaleFreeTypes(t, x, ProveRand(prio, r.random, p), HonestJointRand(prio, x, r.random, p));
    }
  }

  lemma {:induction false} PrepareAllIs(prio: Prio3, pub: PublicShare, inputs: seq<InputShare>, states: seq<PrepareState>, shares: seq<PrepareShare>, n: nat)
    requires prio.Valid() && n <= |inputs| == |states| == |shares| && forall i :: 0 <= i < |inputs| ==> Decoded(prio, inputs[i])
    requires forall i :: 0 <= i < |inputs| ==> Prepared(prio, i, pub, inputs[i]) == Success((states[i], shares[i]))
    ensures PrepareAll(prio, pub, inputs, n) == Success((states[..n], shares[..n]))
  {
    hide FlpType.Valid, Decoded, Prepared;
    if n > 0 {
      PrepareAllIs(prio, pub, inputs, states, shares, n - 1);
      assert states[..n] == states[..n - 1] + [states[n - 1]] && shares[..n] == shares[..n - 1] + [shares[n - 1]];
    }
  }

  lemma {:induction false} FinishAllIs(prio: Prio3, states: seq<PrepareState>, msg: PrepareMessage, outs: seq<seq<elem>>, n: nat)
    requires prio.Valid() && n <= |states| == |outs|
    requires forall i :: 0 <= i < |states| ==> Finished(prio, states[i], msg) == Success(outs[i])
    ensures FinishAll(prio, states, msg, n) == Success(outs[..n])
  {
    hide FlpType.Valid, Finished;
    if n > 0 {
      FinishAllIs(prio, states, msg, outs, n - 1);
      assert outs[..n] == outs[..n - 1] + [outs[n - 1]];
    }
  }

  ghost function HonestStates(prio: Prio3, x: seq<elem>, random: seq<Seed>): (s: seq<PrepareState>)
    requires Sharded(prio, x, random)
    ensures |s| == prio.aggregators && forall i :: 0 <= i < |s| ==> s[i] == HonestState(prio, x, random, i)
  {
    seq(prio.aggregators, i requires 0 <= i < prio.aggregators => HonestState(prio, x, random, i))
  }

  /** If every step succeeds, so does preparation. */
  lemma {:induction false} PrepareReportIs(prio: Prio3, pub: PublicShare, inputs: seq<InputShare>, states: seq<PrepareState>, shares: seq<PrepareShare>,
                                           msg: PrepareMessage, outs: seq<seq<elem>>)
    requires prio.Valid() && |inputs| == |states| == |shares| == |outs| && forall i :: 0 <= i < |inputs| ==> Decoded(prio, inputs[i])
    requires forall i :: 0 <= i < |inputs| ==> Prepared(prio, i, pub, inputs[i]) == Success((states[i], shares[i]))
    requires prio.Joint() ==> forall i :: 0 <= i < |shares| ==> shares[i].jointPart.Some?
    requires MessageOf(prio, shares) == Success(msg)
    requires forall i :: 0 <= i < |states| ==> Finished(prio, states[i], msg) == Success(outs[i])
    ensures PrepareReport(prio, pub, inputs) == Success(outs)
  {
    hide FlpType.Valid, Decoded, Prepared, Finished, MessageOf, PrepareAll, FinishAll;
    var n := |inputs|;
    PrepareAllIs(prio, pub, inputs, states, shares, n);
    FinishAllIs(prio, states, msg, outs, n);
    assert states[..n] == states && shares[..n] == shares && outs[..n] == outs;
  }

  /** Preparing the shares of an honest report yields its output shares. */
  lemma {:induction false} HonestReport(prio: Prio3, x: seq<elem>, random: seq<Seed>)
    requires Ready(prio, x, random) && Decodable(prio.t)
    ensures forall i :: 0 <= i < prio.aggregators ==> Decoded(prio, SharedInputs(prio, x, random)[i])
    ensures PrepareReport(prio, Public(prio, x, random), SharedInputs(prio, x, random)) == Success(OutputShares(prio, x, random))
    ensures VecSum(OutputShares(prio, x, random), OutputLen(prio.t)) == Truncated(prio.t, x)
  {
    hide Ready, Sharded, Decoded, Prepared, HonestShare, HonestState, SharedInput, Public, FlpType.Valid, Decodable, MessageOf, Finished, VecSum,
         OutputShares, HonestSeed, PrepareReport, Truncated, HonestShares, HonestStates, FlpType.InputLen, OutputLen, WireLog;
    HonestPreparation(prio, x, random);
    PrepareReportIs(prio, Public(prio, x, random), SharedInputs(prio, x, random), HonestStates(prio, x, random), HonestShares(prio, x, random),
                    PrepareMessage(HonestSeed(prio, x, random)), OutputShares(prio, x, random));
  }

  /** Every honest report runs through, and its output shares add up to the truncated measurement. */
  lemma {:induction false} HonestRun(t: FlpType, aggregators: nat, r: Report)
    requires Honest(t, aggregators, r)
    ensures var run := ReportRun(r);
            && run.Success? && AllLen(run.value, OutputLen(t))
            && VecSum(run.value, OutputLen(t)) == Truncated(t, EncodingOf(t, r.m).value)
  {
    HonestReady(t, aggregators, r);
    EncodingTruncates(t, r.m);
    SharedDecoded(r);
    hide Ready, Decoded, EncodingOf, ProveFits, WireLog, Pow, Coordinate, Plain, NeverStale, FlpType.Valid, Decodable, PrepareReport, VecSum, Truncated,
         Public, SharedInputs, OutputShares, FlpType.InputLen;
    HonestReport(r.prio, EncodingOf(t, r.m).value, r.random);
  }

  // ------------------------------------------------------------------ the run of a batch

  ghost predicate HonestBatch(t: FlpType, aggregators: nat, reports: seq<Report>) {
    forall r :: 0 <= r < |reports| ==> Honest(t, aggregators, reports[r])
  }

  /** The output shares of aggregator i. */
  function Column(grid: seq<seq<seq<elem>>>, i: nat): (c: seq<seq<elem>>)
    requires forall r :: 0 <= r < |grid| ==> i < |grid[r]|
    ensures |c| == |grid| && forall r :: 0 <= r < |c| ==> c[r] == grid[r][i]
  {
    seq(|grid|, r requires 0 <= r < |grid| => grid[r][i])
  }

  /** The output shares of all reports, or the first failure. */
  ghost function RunAll(aggregators: nat, reports: seq<Report>): (r: Result<seq<seq<seq<elem>>>, Prio3Error>)
    requires forall r :: 0 <= r < |reports| ==> reports[r].Valid() && reports[r].prio.aggregators == aggregators
    ensures r.Success? ==> |r.value| == |reports| && forall k :: 0 <= k < |reports| ==> |r.value[k]| == aggregators
  {
    if reports == [] then Success([])
    else
      var n := |reports| - 1;
      match RunAll(aggregators, reports[..n])
      case Failure(e) => Failure(e)
      case Success(grid) =>
        match ReportRun(reports[n])
        case Failure(e) => Failure(e)
        case Success(outs) => Success(grid + [outs])
  }

  /** The aggregate shares of the first n aggregators, or the first failure. */
  ghost function AggregateAll(t: FlpType, grid: seq<seq<seq<elem>>>, n: nat): (r: Result<seq<seq<elem>>, Prio3Error>)
    requires forall r :: 0 <= r < |grid| ==> n <= |grid[r]|
    ensures r.Success? ==> |r.value| == n
  {
    if n == 0 then Success([])
    else
      match AggregateAll(t, grid, n - 1)
      case Failure(e) => Failure(e)
      case Success(shares) =>
        match Aggregated(OutputLen(t), Column(grid, n - 1))
        case Failure(e) => Failure(e)
        case Success(share) => Success(shares + [share])
  }

  /** The whole run of a batch: every report is sharded and prepared, every aggregator aggregates its
      output shares, and the collector unshards. */
  ghost function BatchRun(t: FlpType, aggregators: nat, reports: seq<Report>): Result<seq<nat>, Prio3Error>
    requires forall r :: 0 <= r < |reports| ==> reports[r].Valid() && reports[r].prio.aggregators == aggregators
  {
    match RunAll(aggregators, reports)
    case Failure(e) => Failure(e)
    case Success(grid) =>
      match AggregateAll(t, grid, aggregators)
      case Failure(e) => Failure(e)
      case Success(shares) => Unsharded(t, shares)
  }

  /** The integer total of coordinate k. */
  function TotalAt(t: FlpType, reports: seq<Report>, k: nat): nat
    requires forall r :: 0 <= r < |reports| ==> Suits(t, reports[r].m) && k < |Plain(t, reports[r].m)|
  {
    if reports == [] then 0
    else TotalAt(t, reports[..|reports| - 1], k) + Plain(t, reports[|reports| - 1].m)[k]
  }

  /** A grid of shares of one length. */
  ghost predicate Grid(grid: seq<seq<seq<elem>>>, n: nat, len: nat) {
    forall r :: 0 <= r < |grid| ==> |grid[r]| == n && AllLen(grid[r], len)
  }

  /** The totals of the first n columns of a grid. */
  function ColumnTotals(grid: seq<seq<seq<elem>>>, n: nat, len: nat): (ts: seq<seq<elem>>)
    requires forall r :: 0 <= r < |grid| ==> n <= |grid[r]| && forall i :: 0 <= i < |grid[r]| ==> |grid[r][i]| == len
    ensures |ts| == n && forall i :: 0 <= i < n ==> |ts[i]| == len && ts[i] == VecSum(Column(grid, i), len)
  {
    seq(n, i requires 0 <= i < n => VecSum(Column(grid, i), len))
  }

  lemma {:induction false} AggregatesAre(t: FlpType, grid: seq<seq<seq<elem>>>, aggregators: nat, n: nat)
    requires Grid(grid, aggregators, OutputLen(t)) && n <= aggregators
    ensures AggregateAll(t, grid, n) == Success(ColumnTotals(grid, n, OutputLen(t)))
  {
    hide VecSum, OutputLen;
    if n > 0 {
      AggregatesAre(t, grid, aggregators, n - 1);
      var ts := ColumnTotals(grid, n, OutputLen(t));
      assert AllLen(Column(grid, n - 1), OutputLen(t));
      assert ts == ColumnTotals(grid, n - 1, OutputLen(t)) + [ts[n - 1]];
    }
  }

  /** Element-wise sums of two lists of vectors. */
  function PairSums(a: seq<seq<elem>>, b: seq<seq<elem>>, len: nat): (c: seq<seq<elem>>)
    requires |a| == |b| && (forall i :: 0 <= i < |a| ==> |a[i]| == len) && (forall i :: 0 <= i < |b| ==> |b[i]| == len)
    ensures |c| == |a| && forall i :: 0 <= i < |c| ==> |c[i]| == len && c[i] == AddVec(a[i], b[i])
  {
    seq(|a|, i requires 0 <= i < |a| => AddVec(a[i], b[i]))
  }

  lemma {:induction false} VecSumPairs(a: seq<seq<elem>>, b: seq<seq<elem>>, len: nat)
    requires |a| == |b| && AllLen(a, len) && AllLen(b, len)
    ensures VecSum(PairSums(a, b, len), len) == AddVec(VecSum(a, len), VecSum(b, len))
  {
    hide AddVec;
    if a == [] {
      AddVecZeros(Zeros(len));
    } else {
      var n := |a| - 1;
      VecSumPairs(a[..n], b[..n], len);
      assert PairSums(a, b, len)[..n] == PairSums(a[..n], b[..n], len);
      AddVecExchange(VecSum(a[..n], len), VecSum(b[..n], len), a[n], b[n]);
    }
  }

  lemma {:induction false} AddVecExchange(a: seq<elem>, b: seq<elem>, c: seq<elem>, d: seq<elem>)
    requires |a| == |b| == |c| == |d|
    ensures AddVec(AddVec(a, b), AddVec(c, d)) == AddVec(AddVec(a, c), AddVec(b, d))
  {
    hide Add;
    forall i | 0 <= i < |a| ensures AddVec(AddVec(a, b), AddVec(c, d))[i] == AddVec(AddVec(a, c), AddVec(b, d))[i] {
      AddExchange(a[i], b[i], c[i], d[i]);
    }
  }

  /** The totals of the rows of a grid. */
  function RowTotals(grid: seq<seq<seq<elem>>>, len: nat): (ts: seq<seq<elem>>)
    requires forall r :: 0 <= r < |grid| ==> forall i :: 0 <= i < |grid[r]| ==> |grid[r][i]| == len
    ensures |ts| == |grid| && forall r :: 0 <= r < |ts| ==> |ts[r]| == len && ts[r] == VecSum(grid[r], len)
  {
    seq(|grid|, r requires 0 <= r < |grid| => VecSum(grid[r], len))
  }

  /** Summing the columns first or the rows first is the same. */
  lemma {:induction false} GridSum(grid: seq<seq<seq<elem>>>, n: nat, len: nat)
    requires Grid(grid, n, len)
    ensures VecSum(ColumnTotals(grid, n, len), len) == VecSum(RowTotals(grid, len), len)
  {
    hide AddVec, Zeros;
    if grid == [] {
      ZeroTotals(n, len);
      assert ColumnTotals(grid, n, len) == ZeroVectors(n, len);
    } else {
      var k := |grid| - 1;
      var init, last := grid[..k], grid[k];
      GridSum(init, n, len);
      assert RowTotals(grid, len)[..k] == RowTotals(init, len);
      GridColumns(grid, n, len);
      VecSumPairs(ColumnTotals(init, n, len), last, len);
    }
  }

  lemma {:induction false} GridColumns(grid: seq<seq<seq<elem>>>, n: nat, len: nat)
    requires Grid(grid, n, len) && grid != []
    ensures var k := |grid| - 1;
            ColumnTotals(grid, n, len) == PairSums(ColumnTotals(grid[..k], n, len), grid[k], len)
  {
    hide AddVec;
    var k := |grid| - 1;
    forall i | 0 <= i < n ensures ColumnTotals(grid, n, len)[i] == PairSums(ColumnTotals(grid[..k], n, len), grid[k], len)[i] {
      assert Column(grid, i)[..k] == Column(grid[..k], i);
    }
  }

  function ZeroVectors(n: nat, len: nat): (z: seq<seq<elem>>)
    ensures |z| == n && forall i :: 0 <= i < n ==> |z[i]| == len && z[i] == Zeros(len)
  {
    seq(n, _ => Zeros(len))
  }

  lemma {:induction false} ZeroTotals(n: nat, len: nat)
    ensures VecSum(ZeroVectors(n, len), len) == Zeros(len)
  {
    hide AddVec, Zeros;
    if n > 0 {
      ZeroTotals(n - 1, len);
      assert ZeroVectors(n, len)[..n - 1] == ZeroVectors(n - 1, len);
      AddVecZeros(Zeros(len));
    }
  }

  lemma {:induction false} RunAllIs(aggregators: nat, reports: seq<Report>, grid: seq<seq<seq<elem>>>)
    requires forall r :: 0 <= r < |reports| ==> reports[r].Valid() && reports[r].prio.aggregators == aggregators
    requires |grid| == |reports| && forall r :: 0 <= r < |reports| ==> ReportRun(reports[r]) == Success(grid[r])
    ensures RunAll(aggregators, reports) == Success(grid)
  {
    hide ReportRun, Report.Valid;
    if reports != [] {
      var n := |reports| - 1;
      RunAllIs(aggregators, reports[..n], grid[..n]);
      assert grid == grid[..n] + [grid[n]];
    }
  }

  /** Running an honest batch gives, for every report, shares of its measurement. */
  lemma {:induction false} HonestRunAll(t: FlpType, aggregators: nat, reports: seq<Report>) returns (grid: seq<seq<seq<elem>>>)
    requires HonestBatch(t, aggregators, reports)
    ensures forall r :: 0 <= r < |reports| ==> reports[r].Valid() && reports[r].prio.aggregators == aggregators
    ensures RunAll(aggregators, reports) == Success(grid) && |grid| == |reports| && Grid(grid, aggregators, OutputLen(t))
    ensures forall r :: 0 <= r < |reports| ==> RowIs(t, reports[r].m, grid[r])
  {
    hide ReportRun, VecSum, Truncated, EncodingOf, OutputLen, Honest, RowIs, RunAll, AllLen;
    forall r | 0 <= r < |reports|
      ensures reports[r].Valid() && reports[r].prio.aggregators == aggregators && ReportRun(reports[r]).Success?
      ensures AllLen(ReportRun(reports[r]).value, OutputLen(t)) && RowIs(t, reports[r].m, ReportRun(reports[r]).value)
    {
      HonestReportRow(t, aggregators, reports[r]);
    }
    grid := seq(|reports|, r requires 0 <= r < |reports| => ReportRun(reports[r]).value);
    RunAllIs(aggregators, reports, grid);
  }

  /** The shares add up to the residues of what the measurement contributes. */
  ghost predicate RowIs(t: FlpType, m: Measurement, row: seq<seq<elem>>) {
    && AllLen(row, OutputLen(t)) && Suits(t, m) && |Plain(t, m)| == OutputLen(t)
    && forall k :: 0 <= k < OutputLen(t) ==> VecSum(row, OutputLen(t))[k] == Mod(Plain(t, m)[k])
  }

  lemma {:induction false} HonestReportRow(t: FlpType, aggregators: nat, r: Report)
    requires Honest(t, aggregators, r)
    ensures r.Valid() && r.prio.aggregators == aggregators && ReportRun(r).Success?
    ensures AllLen(ReportRun(r).value, OutputLen(t)) && RowIs(t, r.m, ReportRun(r).value)
  {
    HonestRun(t, aggregators, r);
    EncodingTruncates(t, r.m);
    hide ReportRun, VecSum, EncodingOf, Coordinate, Plain, Mod, FlpType.Valid;
  }

  /** Coordinate k of the sum of all truncated measurements. */
  lemma {:induction false} TotalResidue(t: FlpType, reports: seq<Report>, ts: seq<seq<elem>>, k: nat)
    requires |ts| == |reports| && AllLen(ts, OutputLen(t)) && k < OutputLen(t)
    requires forall r :: 0 <= r < |reports| ==>
               Suits(t, reports[r].m) && k < |Plain(t, reports[r].m)| && ts[r][k] == Mod(Plain(t, reports[r].m)[k])
    ensures VecSum(ts, OutputLen(t))[k] == Mod(TotalAt(t, reports, k))
  {
    hide Add, Mod, OutputLen, Plain;
    if reports == [] {
      ModId(0);
    } else {
      var n := |reports| - 1;
      TotalResidue(t, reports[..n], ts[..n], k);
      ModAdd(TotalAt(t, reports[..n], k), Plain(t, reports[n].m)[k]);
    }
  }

  /** The integer totals of a batch. */
  function Totals(t: FlpType, reports: seq<Report>): (r: seq<nat>)
    requires forall r :: 0 <= r < |reports| ==> Suits(t, reports[r].m) && |Plain(t, reports[r].m)| == OutputLen(t)
    ensures |r| == OutputLen(t)
  {
    seq(OutputLen(t), k requires 0 <= k < OutputLen(t) => TotalAt(t, reports, k))
  }

  /** End to end, for Count, Sum, SumVec and Histogram: the run of every honest batch whose integer totals
      are below the modulus returns exactly these totals. */
  lemma {:induction false} BatchResult(t: FlpType, aggregators: nat, reports: seq<Report>)
    requires HonestBatch(t, aggregators, reports)
    ensures forall r :: 0 <= r < |reports| ==>
              && reports[r].Valid() && reports[r].prio.aggregators == aggregators
              && Suits(t, reports[r].m) && |Plain(t, reports[r].m)| == OutputLen(t)
    ensures (forall k :: 0 <= k < OutputLen(t) ==> TotalAt(t, reports, k) < P)
            ==> BatchRun(t, aggregators, reports) == Success(Totals(t, reports))
  {
    var grid := HonestRunAll(t, aggregators, reports);
    forall r | 0 <= r < |reports| ensures Suits(t, reports[r].m) && |Plain(t, reports[r].m)| == OutputLen(t) {
      assert RowIs(t, reports[r].m, grid[r]);
    }
    hide Report.Valid, Honest, RunAll, VecSum, OutputLen, Plain, TotalAt, AggregateAll, ColumnTotals, RowTotals, Mod, Suits;
    var len := OutputLen(t);
    AggregatesAre(t, grid, aggregators, aggregators);
    GridSum(grid, aggregators, len);
    if forall k :: 0 <= k < len ==> TotalAt(t, reports, k) < P {
      UnshardedTotals(t, reports, RowTotals(grid, len), ColumnTotals(grid, aggregators, len));
    }
  }

  lemma {:induction false} UnshardedTotals(t: FlpType, reports: seq<Report>, rows: seq<seq<elem>>, columns: seq<seq<elem>>)
    requires AllLen(columns, OutputLen(t)) && AllLen(rows, OutputLen(t)) && |rows| == |reports|
    requires VecSum(columns, OutputLen(t)) == VecSum(rows, OutputLen(t))
    requires forall r :: 0 <= r < |reports| ==>
               && Suits(t, reports[r].m) && |Plain(t, reports[r].m)| == OutputLen(t)
               && forall k :: 0 <= k < OutputLen(t) ==> rows[r][k] == Mod(Plain(t, reports[r].m)[k])
    requires forall k :: 0 <= k < OutputLen(t) ==> TotalAt(t, reports, k) < P
    ensures Unsharded(t, columns) == Success(Totals(t, reports))
  {
    hide VecSum, OutputLen, Plain, TotalAt, Mod, Suits;
    forall k: nat | k < OutputLen(t) ensures VecSum(columns, OutputLen(t))[k] == Totals(t, reports)[k] {
      TotalResidue(t, reports, rows, k);
      ModId(TotalAt(t, reports, k));
    }
    assert ResultOf(t, VecSum(columns, OutputLen(t))).value == Totals(t, reports);
  }

  /** For Prio3Sum this is the integer sum of the measurements. */
  lemma {:induction false} SumOfBatch(bits: nat, aggregators: nat, reports: seq<Report>)
    requires HonestBatch(FlpType.Sum(bits), aggregators, reports)
    ensures forall r :: 0 <= r < |reports| ==>
              reports[r].Valid() && reports[r].prio.aggregators == aggregators && reports[r].m.Integer?
    ensures SumOf(reports) < P ==> BatchRun(FlpType.Sum(bits), aggregators, reports) == Success([SumOf(reports)])
  {
    hide Honest, BatchRun;
    BatchResult(FlpType.Sum(bits), aggregators, reports);
    SumIsTotal(bits, reports);
    assert Totals(FlpType.Sum(bits), reports) == [SumOf(reports)];
  }

  function SumOf(reports: seq<Report>): nat
    requires forall r :: 0 <= r < |reports| ==> reports[r].m.Integer?
  {
    if reports == [] then 0 else SumOf(reports[..|reports| - 1]) + reports[|reports| - 1].m.n
  }

  lemma {:induction false} SumIsTotal(bits: nat, reports: seq<Report>)
    requires forall r :: 0 <= r < |reports| ==> reports[r].m.Integer?
    ensures TotalAt(FlpType.Sum(bits), reports, 0) == SumOf(reports)
  {
    if reports != [] {
      SumIsTotal(bits, reports[..|reports| - 1]);
    }
  }
}
