/** Prio3 against any client: what an accepted report says, whatever shares the aggregators hold, and how
    sharding spends the client's seeds. */
module Prio3Soundness {
  import opened Wrappers
  import opened Powers
  import opened Field
  import opened Sums
  import opened Fft
  import opened Polynomial
  import opened Gadgets
  import opened FlpTypes
  import opened Flp
  import opened FlpCompleteness
  import opened FlpSoundness
  import opened FlpOutput
  import opened Prio3
  import opened Prio3Correct

  // ------------------------------------------------------------------ the message step

  /** Every aggregator sent one verifier share per proof. */
  ghost predicate AllSized(prio: Prio3, inputs: seq<PrepareShare>) {
    forall i :: 0 <= i < |inputs| ==> WellSized(prio, inputs[i].verifiers)
  }

  /** The sum of the received verifier shares of proof p is accepted. */
  ghost predicate ProofAccepted(prio: Prio3, inputs: seq<PrepareShare>, p: nat)
    requires prio.Valid() && p < prio.proofs && AllSized(prio, inputs)
  {
    Accepts(prio.t, VecSum(VerifierShares(prio, inputs, p), prio.t.VerifierLen()))
  }

  /** The message step succeeds exactly when all shares have the right form and number and every proof, from
      the first to the last, is accepted; the message then hashes the received parts. */
  lemma {:induction false} MessageIff(prio: Prio3, inputs: seq<PrepareShare>)
    requires prio.Valid() && (prio.Joint() ==> forall i :: 0 <= i < |inputs| ==> inputs[i].jointPart.Some?)
    ensures MessageOf(prio, inputs).Success?
            <==> && AllSized(prio, inputs) && |inputs| % 256 == prio.aggregators
                 && forall p: nat :: p < prio.proofs ==> ProofAccepted(prio, inputs, p)
    ensures MessageOf(prio, inputs).Success? ==>
              MessageOf(prio, inputs).value.jointSeed == if prio.Joint() then Some(prio.xof.jointSeed(SentParts(inputs))) else None
  {
    hide Accepts, VecSum, FlpType.Valid;
    if AllSized(prio, inputs) && |inputs| % 256 == prio.aggregators && MessageOf(prio, inputs).Failure? {
      var p :| 0 <= p < prio.proofs && !Accepts(prio.t, VecSum(VerifierShares(prio, inputs, p), prio.t.VerifierLen()));
      assert !ProofAccepted(prio, inputs, p);
    }
  }

  /** An output share is released exactly when the derived seed is the announced one and the share can be
      truncated. */
  lemma {:induction false} FinishedIff(prio: Prio3, state: PrepareState, msg: PrepareMessage)
    requires prio.Valid()
    ensures Finished(prio, state, msg).Success?
            <==> && (prio.Joint() ==> state.jointSeed == msg.jointSeed)
                 && |ExpandMeasurement(prio, state.measurement, state.agg)| == prio.t.InputLen() && Decodable(prio.t)
    ensures prio.Joint() && state.jointSeed != msg.jointSeed ==> Finished(prio, state, msg) == Failure(JointRandMismatch)
  {
    hide ExpandMeasurement, FlpType.Valid, FlpType.InputLen, Decodable, Truncated;
  }

  /** An aggregator's own part stands at its index; all other parts are the public ones. */
  lemma {:induction false} OwnPartStands(parts: seq<Seed>, agg: nat, own: Seed)
    requires agg < |parts|
    ensures |Corrected(parts, agg, own)| == |parts|
    ensures forall i :: 0 <= i < |parts| ==> Corrected(parts, agg, own)[i] == if i == agg then own else parts[i]
  {
  }

  // ------------------------------------------------------------------ accepted reports

  /** Input shares as decoding yields them. */
  ghost predicate AllDecoded(prio: Prio3, inputs: seq<InputShare>): (b: bool)
    ensures b ==> prio.Valid() && forall i :: 0 <= i < |inputs| ==> Decoded(prio, inputs[i])
    ensures b && prio.Joint() ==> forall i :: 0 <= i < |inputs| ==> inputs[i].blind.Some?
  {
    prio.Valid() && forall i :: 0 <= i < |inputs| ==> Decoded(prio, inputs[i])
  }

  /** The measurement shares that the aggregators expand. */
  function Expanded(prio: Prio3, inputs: seq<InputShare>): (xs: seq<seq<elem>>)
    requires prio.Valid()
    ensures |xs| == |inputs|
  {
    seq(|inputs|, i requires 0 <= i < |inputs| => ExpandMeasurement(prio, inputs[i].measurement, i))
  }

  ghost function ExpandedProofs(prio: Prio3, inputs: seq<InputShare>, p: nat): (ps: seq<seq<elem>>)
    requires p < prio.proofs && AllDecoded(prio, inputs)
    ensures |ps| == |inputs|
  {
    seq(|inputs|, i requires 0 <= i < |inputs| =>
      assert Decoded(prio, inputs[i]); ExpandProof(prio, inputs[i].proofs, i, p))
  }

  /** The seed that the parts of all aggregators hash to. */
  ghost function ReportSeed(prio: Prio3, inputs: seq<InputShare>): (s: Option<Seed>)
    requires AllDecoded(prio, inputs)
    ensures prio.Joint() ==> s.Some?
  {
    if prio.Joint() then
      Some(prio.xof.jointSeed(seq(|inputs|, i requires 0 <= i < |inputs| =>
        PartOf(prio, inputs[i].blind, i, ExpandMeasurement(prio, inputs[i].measurement, i)))))
    else None
  }

  /** The joint randomness of proof p from a seed. */
  function SeedRand(prio: Prio3, seed: Option<Seed>, p: nat): (jr: seq<elem>)
    requires prio.Joint() ==> seed.Some?
    ensures |jr| == prio.t.JointRandLen()
  {
    if prio.Joint() then Take(prio.xof.jointRand(seed.value), p * prio.t.JointRandLen(), prio.t.JointRandLen()) else []
  }

  /** The same instance with other query randomness, that is, another verification key. */
  function WithQuery(prio: Prio3, query: ElemStream): Prio3 { prio.(xof := prio.xof.(query := query)) }

  /** What a prepare share holds, for any input share. */
  lemma {:induction false} QueriesMean(prio: Prio3, agg: nat, pub: PublicShare, input: InputShare, n: nat)
    requires Decoded(prio, input) && n <= prio.proofs && Queries(prio, agg, pub, input, n).Success?
    ensures forall p: nat :: p < n ==> QueryFor(prio, agg, pub, input, p) == Success(Queries(prio, agg, pub, input, n).value[p])
  {
    hide QueryFor, Decoded;
    if n > 0 {
      QueriesMean(prio, agg, pub, input, n - 1);
    }
  }

  /** An aggregator prepares exactly when its index is one of the instance's and the query of every proof
      succeeds. */
  lemma {:induction false} PreparedIff(prio: Prio3, agg: nat, pub: PublicShare, input: InputShare)
    requires Decoded(prio, input)
    ensures Prepared(prio, agg, pub, input).Success?
            <==> agg < prio.aggregators && forall p: nat :: p < prio.proofs ==> QueryFor(prio, agg, pub, input, p).Success?
  {
    QueriesIff(prio, agg, pub, input, prio.proofs);
    hide Queries, QueryFor, OwnParts, PartOf, ExpandMeasurement, FlpType.Valid;
  }

  lemma {:induction false} QueriesIff(prio: Prio3, agg: nat, pub: PublicShare, input: InputShare, n: nat)
    requires Decoded(prio, input) && n <= prio.proofs
    ensures Queries(prio, agg, pub, input, n).Success? <==> forall p: nat :: p < n ==> QueryFor(prio, agg, pub, input, p).Success?
  {
    hide QueryFor, Decoded;
    if n > 0 {
      QueriesIff(prio, agg, pub, input, n - 1);
    }
  }

  lemma {:induction false} PrepareAllMeans(prio: Prio3, pub: PublicShare, inputs: seq<InputShare>, n: nat)
    requires AllDecoded(prio, inputs) && n <= |inputs|
    requires PrepareAll(prio, pub, inputs, n).Success?
    ensures var (states, shares) := PrepareAll(prio, pub, inputs, n).value;
            forall i :: 0 <= i < n ==> Prepared(prio, i, pub, inputs[i]) == Success((states[i], shares[i]))
  {
    hide Prepared, Decoded, FlpType.Valid;
    if n > 0 {
      PrepareAllMeans(prio, pub, inputs, n - 1);
    }
  }

  lemma {:induction false} FinishAllMeans(prio: Prio3, states: seq<PrepareState>, msg: PrepareMessage, n: nat)
    requires prio.Valid() && n <= |states| && FinishAll(prio, states, msg, n).Success?
    ensures forall i :: 0 <= i < n ==> Finished(prio, states[i], msg) == Success(FinishAll(prio, states, msg, n).value[i])
  {
    hide Finished, FlpType.Valid;
    if n > 0 {
      FinishAllMeans(prio, states, msg, n - 1);
    }
  }

  /** One query of an accepted report: the verifier share of the expanded shares, with the joint randomness
      of the common seed. */
  lemma {:induction false} QueryMeans(prio: Prio3, agg: nat, pub: PublicShare, input: InputShare, p: nat, seed: Option<Seed>)
    requires Decoded(prio, input) && p < prio.proofs && QueryFor(prio, agg, pub, input, p).Success?
    requires prio.Joint() ==> seed == Some(prio.xof.jointSeed(OwnParts(prio, agg, pub, input).value))
    ensures var x, proof := ExpandMeasurement(prio, input.measurement, agg), ExpandProof(prio, input.proofs, agg, p);
            && |x| == prio.t.InputLen() && |proof| == prio.t.ProofLen() && WireLog(prio.t) + 1 <= MAX_ROOTS
            && Pow(prio.xof.query(p), WirePolyLen(prio.t.GadgetCalls())) != 1
            && QueryFor(prio, agg, pub, input, p).value
               == QuerySpec(prio.t, x, proof, prio.xof.query(p), SeedRand(prio, seed, p), Inv(Mod(prio.aggregators)))
  {
    hide QuerySpec, ExpandMeasurement, ExpandProof, OwnParts, Inv, Mod, Pow, WireLog, WirePolyLen, FlpType.Valid, FlpType.ProofLen, FlpType.InputLen, Take;
  }

  /** Every finished run of preparation, whatever the shares: each aggregator's seed is the seed of the
      report, its shares have the right lengths, and the sum of the verifier shares of every proof on the
      expanded shares, at the query point, is accepted. */
  lemma {:induction false} FinishedReport(prio: Prio3, pub: PublicShare, inputs: seq<InputShare>, p: nat)
    requires AllDecoded(prio, inputs) && p < prio.proofs
    requires PrepareReport(prio, pub, inputs).Success?
    ensures |inputs| == prio.aggregators && WireLog(prio.t) + 1 <= MAX_ROOTS
    ensures prio.Joint() ==> forall i :: 0 <= i < |inputs| ==>
              ReportSeed(prio, inputs) == Some(prio.xof.jointSeed(OwnParts(prio, i, pub, inputs[i]).value))
    ensures AllLen(Expanded(prio, inputs), prio.t.InputLen()) && AllLen(ExpandedProofs(prio, inputs, p), prio.t.ProofLen())
    ensures Accepts(prio.t, VecSum(QueryAll(prio.t, Expanded(prio, inputs), ExpandedProofs(prio, inputs, p), prio.xof.query(p),
                                            SeedRand(prio, ReportSeed(prio, inputs), p), Inv(Mod(prio.aggregators))),
                                   prio.t.VerifierLen()))
  {
    var n := |inputs|;
    var (states, shares) := PrepareAll(prio, pub, inputs, n).value;
    PrepareAllMeans(prio, pub, inputs, n);
    MessageIff(prio, shares);
    var msg := MessageOf(prio, shares).value;
    FinishAllMeans(prio, states, msg, n);
    AgreedSeeds(prio, pub, inputs, states, shares, msg);
    CollectedVerifiers(prio, pub, inputs, states, shares, p);
    hide *;
    assert ProofAccepted(prio, shares, p);
  }

  /** Every index below the number of inputs is an aggregator's, so the count is exact. */
  lemma {:induction false} AgreedSeeds(prio: Prio3, pub: PublicShare, inputs: seq<InputShare>, states: seq<PrepareState>, shares: seq<PrepareShare>, msg: PrepareMessage)
    requires AllDecoded(prio, inputs) && |states| == |shares| == |inputs|
    requires forall i :: 0 <= i < |inputs| ==> Prepared(prio, i, pub, inputs[i]) == Success((states[i], shares[i]))
    requires |inputs| % 256 == prio.aggregators
    requires prio.Joint() ==> forall i :: 0 <= i < |inputs| ==> shares[i].jointPart.Some?
    requires msg.jointSeed == if prio.Joint() then Some(prio.xof.jointSeed(SentParts(shares))) else None
    requires forall i :: 0 <= i < |inputs| ==> Finished(prio, states[i], msg).Success?
    ensures |inputs| == prio.aggregators && msg.jointSeed == ReportSeed(prio, inputs)
    ensures prio.Joint() ==> forall i :: 0 <= i < |inputs| ==>
              ReportSeed(prio, inputs) == Some(prio.xof.jointSeed(OwnParts(prio, i, pub, inputs[i]).value))
  {
    hide Queries, OwnParts, ExpandMeasurement, TruncationOf, FlpType.Valid;
    if |inputs| > 0 {
      var last := |inputs| - 1;
      assert Prepared(prio, last, pub, inputs[last]).Success?;
    }
    if prio.Joint() {
      assert SentParts(shares) == seq(|inputs|, i requires 0 <= i < |inputs| =>
        PartOf(prio, inputs[i].blind, i, ExpandMeasurement(prio, inputs[i].measurement, i)));
    }
  }

  /** The received verifier shares of proof p are the queries of the expanded shares. */
  lemma {:induction false} CollectedVerifiers(prio: Prio3, pub: PublicShare, inputs: seq<InputShare>, states: seq<PrepareState>, shares: seq<PrepareShare>, p: nat)
    requires AllDecoded(prio, inputs) && |states| == |shares| == |inputs| >= 1 && p < prio.proofs
    requires forall i :: 0 <= i < |inputs| ==> Prepared(prio, i, pub, inputs[i]) == Success((states[i], shares[i]))
    requires AllSized(prio, shares)
    requires prio.Joint() ==> forall i :: 0 <= i < |inputs| ==>
               ReportSeed(prio, inputs) == Some(prio.xof.jointSeed(OwnParts(prio, i, pub, inputs[i]).value))
    ensures WireLog(prio.t) + 1 <= MAX_ROOTS
    ensures AllLen(Expanded(prio, inputs), prio.t.InputLen()) && AllLen(ExpandedProofs(prio, inputs, p), prio.t.ProofLen())
    ensures VerifierShares(prio, shares, p)
         == QueryAll(prio.t, Expanded(prio, inputs), ExpandedProofs(prio, inputs, p), prio.xof.query(p),
                     SeedRand(prio, ReportSeed(prio, inputs), p), Inv(Mod(prio.aggregators)))
  {
    hide QueryFor, QuerySpec, ReportSeed, OwnParts, ExpandMeasurement, ExpandProof, FlpType.Valid, FlpType.InputLen, FlpType.ProofLen, WireLog, Inv, Mod,
         Pow, WirePolyLen, SeedRand, Queries;
    forall i | 0 <= i < |inputs|
      ensures |Expanded(prio, inputs)[i]| == prio.t.InputLen() && |ExpandedProofs(prio, inputs, p)[i]| == prio.t.ProofLen()
      ensures WireLog(prio.t) + 1 <= MAX_ROOTS
      ensures shares[i].verifiers[p]
           == QuerySpec(prio.t, Expanded(prio, inputs)[i], ExpandedProofs(prio, inputs, p)[i], prio.xof.query(p), SeedRand(prio, ReportSeed(prio, inputs), p),
                        Inv(Mod(prio.aggregators)))
    {
      assert Decoded(prio, inputs[i]) && WellSized(prio, shares[i].verifiers);
      QueriesMean(prio, i, pub, inputs[i], prio.proofs);
      QueryMeans(prio, i, pub, inputs[i], p, ReportSeed(prio, inputs));
    }
    assert |Expanded(prio, inputs)[0]| == prio.t.InputLen();
  }

  /** Soundness: whatever the public share and the input shares, if preparation finishes under more than
      2(m-1) verification keys with distinct query points for some proof, the validity circuit is zero on
      the sum of the measurement shares, with the joint randomness that all aggregators derived. */
  lemma {:induction false} ReportSoundness(prio: Prio3, pub: PublicShare, inputs: seq<InputShare>, p: nat, queries: seq<ElemStream>, points: seq<elem>)
    requires AllDecoded(prio, inputs) && p < prio.proofs && prio.aggregators < P
    requires |points| == |queries| > 2 * (WirePolyLen(prio.t.GadgetCalls()) - 1) && Distinct(points)
    requires forall k :: 0 <= k < |queries| ==>
               && AllDecoded(WithQuery(prio, queries[k]), inputs)
               && points[k] == queries[k](p) && PrepareReport(WithQuery(prio, queries[k]), pub, inputs).Success?
    ensures AllLen(Expanded(prio, inputs), prio.t.InputLen())
    ensures CircuitValue(prio.t, VecSum(Expanded(prio, inputs), prio.t.InputLen()), SeedRand(prio, ReportSeed(prio, inputs), p)) == 0
  {
    hide *;
    var xs, ps, jr := Expanded(prio, inputs), ExpandedProofs(prio, inputs, p), SeedRand(prio, ReportSeed(prio, inputs), p);
    KeyAccepted(prio, queries[0], pub, inputs, p);
    forall k | 0 <= k < |points| ensures Accepts(prio.t, VecSum(QueryAll(prio.t, xs, ps, points[k], jr, Inv(Mod(|xs|))), prio.t.VerifierLen())) {
      KeyAccepted(prio, queries[k], pub, inputs, p);
    }
    DistributedSoundness(prio.t, xs, ps, jr, points);
  }

  /** A run that finishes under one key accepts the summed verifier at that key's point. */
  lemma {:induction false} KeyAccepted(prio: Prio3, query: ElemStream, pub: PublicShare, inputs: seq<InputShare>, p: nat)
    requires AllDecoded(prio, inputs) && p < prio.proofs
    requires AllDecoded(WithQuery(prio, query), inputs) && PrepareReport(WithQuery(prio, query), pub, inputs).Success?
    ensures prio.t.Valid() && 1 <= |inputs| == prio.aggregators && WireLog(prio.t) + 1 <= MAX_ROOTS
    ensures AllLen(Expanded(prio, inputs), prio.t.InputLen()) && AllLen(ExpandedProofs(prio, inputs, p), prio.t.ProofLen())
    ensures Accepts(prio.t, VecSum(QueryAll(prio.t, Expanded(prio, inputs), ExpandedProofs(prio, inputs, p), query(p),
                                            SeedRand(prio, ReportSeed(prio, inputs), p), Inv(Mod(|Expanded(prio, inputs)|))),
                                   prio.t.VerifierLen()))
  {
    hide QuerySpec, Accepts, Inv, Mod, VecSum, QueryAll, PrepareReport, WireLog, FlpType.Valid, FlpType.ProofLen,
         FlpType.InputLen, FlpType.VerifierLen, SeedRand, ReportSeed, Expanded, ExpandedProofs, AllDecoded, AllLen;
    KeyIrrelevant(prio, query, inputs, p);
    FinishedReport(WithQuery(prio, query), pub, inputs, p);
  }

  /** The verification key does not change what the shares expand to. */
  lemma {:induction false} KeyIrrelevant(prio: Prio3, query: ElemStream, inputs: seq<InputShare>, p: nat)
    requires AllDecoded(prio, inputs) && AllDecoded(WithQuery(prio, query), inputs) && p < prio.proofs
    ensures Expanded(WithQuery(prio, query), inputs) == Expanded(prio, inputs)
    ensures ExpandedProofs(WithQuery(prio, query), inputs, p) == ExpandedProofs(prio, inputs, p)
    ensures ReportSeed(WithQuery(prio, query), inputs) == ReportSeed(prio, inputs)
    ensures forall s: Option<Seed> :: (prio.Joint() ==> s.Some?) ==> SeedRand(WithQuery(prio, query), s, p) == SeedRand(prio, s, p)
  {
    hide Take, FlpType.Valid, FlpType.InputLen, FlpType.ProofLen;
    var other := WithQuery(prio, query);
    forall i | 0 <= i < |inputs|
      ensures ExpandMeasurement(other, inputs[i].measurement, i) == ExpandMeasurement(prio, inputs[i].measurement, i)
      ensures Expanded(other, inputs)[i] == Expanded(prio, inputs)[i]
      ensures ExpandedProofs(other, inputs, p)[i] == ExpandedProofs(prio, inputs, p)[i]
    {
      assert Decoded(prio, inputs[i]);
    }
    if prio.Joint() {
      assert seq(|inputs|, i requires 0 <= i < |inputs| => PartOf(other, inputs[i].blind, i, ExpandMeasurement(other, inputs[i].measurement, i)))
          == seq(|inputs|, i requires 0 <= i < |inputs| => PartOf(prio, inputs[i].blind, i, ExpandMeasurement(prio, inputs[i].measurement, i)));
    }
  }

  /** For Prio3Count such a report contributes zero or one. */
  lemma {:induction false} CountReport(prio: Prio3, pub: PublicShare, inputs: seq<InputShare>, p: nat, queries: seq<ElemStream>, points: seq<elem>)
    requires prio.t.Count? && AllDecoded(prio, inputs) && p < prio.proofs && prio.aggregators < P
    requires |points| == |queries| > 2 * (WirePolyLen(prio.t.GadgetCalls()) - 1) && Distinct(points)
    requires forall k :: 0 <= k < |queries| ==>
               && AllDecoded(WithQuery(prio, queries[k]), inputs)
               && points[k] == queries[k](p) && PrepareReport(WithQuery(prio, queries[k]), pub, inputs).Success?
    ensures AllLen(Expanded(prio, inputs), 1) && IsBit(VecSum(Expanded(prio, inputs), 1)[0])
  {
    hide PrepareReport, CircuitValue, WirePolyLen, Expanded, VecSum;
    ReportSoundness(prio, pub, inputs, p, queries, points);
    assert SeedRand(prio, ReportSeed(prio, inputs), p) == [];
    CountSoundness(VecSum(Expanded(prio, inputs), 1));
  }

  // ------------------------------------------------------------------ streams and seeds

  function Joined(parts: seq<seq<elem>>): seq<elem> {
    if parts == [] then [] else Joined(parts[..|parts| - 1]) + parts[|parts| - 1]
  }

  /** Consecutive pieces of a stream, joined, are the stream from its start. */
  lemma {:induction false} PiecesJoin(s: ElemStream, len: nat, pieces: seq<seq<elem>>)
    requires forall p: nat :: p < |pieces| ==> 0 <= p * len && pieces[p] == Take(s, p * len, len)
    ensures 0 <= |pieces| * len && Joined(pieces) == Take(s, 0, |pieces| * len)
  {
    if pieces != [] {
      var n := |pieces| - 1;
      PiecesJoin(s, len, pieces[..n]);
      MulDistrib(n, 1, len);
      TakeMore(s, n * len, len);
    }
  }

  lemma {:induction false} TakeMore(s: ElemStream, n: nat, k: nat)
    ensures Take(s, 0, n + k) == Take(s, 0, n) + Take(s, n, k)
  {
  }

  function JointRands(prio: Prio3, parts: Option<seq<Seed>>): (jrs: seq<seq<elem>>)
    requires prio.Joint() ==> parts.Some?
    ensures |jrs| == prio.proofs
  {
    seq(prio.proofs, p requires 0 <= p => JointRand(prio, parts, p))
  }

  function ProveRands(prio: Prio3, random: seq<Seed>): (prs: seq<seq<elem>>)
    requires Enough(prio, random)
    ensures |prs| == prio.proofs
  {
    seq(prio.proofs, p requires 0 <= p => ProveRand(prio, random, p))
  }

  function ProofShareParts(prio: Prio3, seed: Seed, agg: nat): (ps: seq<seq<elem>>)
    requires prio.Valid()
    ensures |ps| == prio.proofs
  {
    seq(prio.proofs, p requires 0 <= p => ProofShareOf(prio, seed, agg, p))
  }

  /** All proofs together read one stream from its start: the joint randomness of the seed of the parts, the
      prover randomness of the client's last seed, and a helper's proof shares of its second seed. */
  lemma {:induction false} ProofsReadOneStream(prio: Prio3, random: seq<Seed>, parts: Option<seq<Seed>>, seed: Seed, agg: nat)
    requires Enough(prio, random) && (prio.Joint() ==> parts.Some?)
    ensures 0 <= prio.proofs * prio.t.JointRandLen() && 0 <= prio.proofs * prio.t.ProveRandLen() && 0 <= prio.proofs * prio.t.ProofLen()
    ensures prio.Joint() ==>
              Joined(JointRands(prio, parts)) == Take(prio.xof.jointRand(prio.xof.jointSeed(parts.value)), 0, prio.proofs * prio.t.JointRandLen())
    ensures |random| >= 1 && Joined(ProveRands(prio, random)) == Take(prio.xof.prove(random[|random| - 1]), 0, prio.proofs * prio.t.ProveRandLen())
    ensures Joined(ProofShareParts(prio, seed, agg)) == Take(prio.xof.proofs(seed, agg), 0, prio.proofs * prio.t.ProofLen())
  {
    hide Take, Joined, FlpType.ProofLen, FlpType.ProveRandLen, FlpType.JointRandLen, FlpType.Valid;
    if prio.Joint() {
      PiecesJoin(prio.xof.jointRand(prio.xof.jointSeed(parts.value)), prio.t.JointRandLen(), JointRands(prio, parts));
    }
    PiecesJoin(prio.xof.prove(random[|random| - 1]), prio.t.ProveRandLen(), ProveRands(prio, random));
    PiecesJoin(prio.xof.proofs(seed, agg), prio.t.ProofLen(), ProofShareParts(prio, seed, agg));
  }

  /** The seeds that an input share of a helper carries: measurement, proofs and, with joint randomness, the
      blind. */
  function Carried(input: InputShare): seq<Seed> {
    (if input.measurement.HelperShare? then [input.measurement.seed] else [])
    + (if input.proofs.HelperShare? then [input.proofs.seed] else [])
    + (if input.blind.Some? then [input.blind.value] else [])
  }

  function CarriedAll(inputs: seq<InputShare>): seq<Seed> {
    if inputs == [] then [] else CarriedAll(inputs[..|inputs| - 1]) + Carried(inputs[|inputs| - 1])
  }

  /** How many seeds n helpers take. */
  function Taken(prio: Prio3, n: nat): nat { if prio.Joint() then 3 * n else 2 * n }

  lemma {:induction false} HelperCarries(prio: Prio3, x: seq<elem>, random: seq<Seed>, j: nat)
    requires Sharded(prio, x, random) && 1 <= j < prio.aggregators
    ensures Taken(prio, j) <= |random|
    ensures Carried(SharedInputs(prio, x, random)[j]) == random[Taken(prio, j - 1)..Taken(prio, j)]
  {
    hide FlpType.Valid, FlpType.InputLen, ProveFits, MeasurementShares, LeaderProofs, FlpType.JointRandLen;
  }

  lemma {:induction false} LeaderCarries(prio: Prio3, x: seq<elem>, random: seq<Seed>)
    requires Sharded(prio, x, random)
    ensures 1 <= |random| && Taken(prio, prio.aggregators - 1) <= |random| - 1
    ensures Carried(SharedInputs(prio, x, random)[0]) == random[Taken(prio, prio.aggregators - 1)..|random| - 1]
  {
    hide FlpType.Valid, FlpType.InputLen, ProveFits, MeasurementShares, LeaderProofs, FlpType.JointRandLen;
  }

  lemma {:induction false} HelpersCarry(prio: Prio3, x: seq<elem>, random: seq<Seed>, n: nat)
    requires Sharded(prio, x, random) && n < prio.aggregators
    ensures Taken(prio, n) <= |random| && CarriedAll(SharedInputs(prio, x, random)[1..n + 1]) == random[..Taken(prio, n)]
  {
    hide FlpType.Valid, Sharded, Carried, SharedInputs;
    var inputs := SharedInputs(prio, x, random);
    if n > 0 {
      HelpersCarry(prio, x, random, n - 1);
      HelperCarries(prio, x, random, n);
      assert inputs[1..n + 1][..n - 1] == inputs[1..n];
      assert random[..Taken(prio, n)] == random[..Taken(prio, n - 1)] + random[Taken(prio, n - 1)..Taken(prio, n)];
    }
  }

  /** No seed is used twice or left over: the helpers' shares carry the client's seeds in order, the leader
      carries the next one if there is joint randomness, and the last is the prover's. */
  lemma {:induction false} SeedsSpentOnce(prio: Prio3, x: seq<elem>, random: seq<Seed>)
    requires Sharded(prio, x, random)
    ensures 1 <= |random|
    ensures random == CarriedAll(SharedInputs(prio, x, random)[1..]) + Carried(SharedInputs(prio, x, random)[0]) + [random[|random| - 1]]
  {
    hide FlpType.Valid, Sharded, Carried, CarriedAll, SharedInputs, Taken;
    var inputs := SharedInputs(prio, x, random);
    var n := prio.aggregators - 1;
    HelpersCarry(prio, x, random, n);
    LeaderCarries(prio, x, random);
    assert inputs[1..] == inputs[1..n + 1];
  }
}
