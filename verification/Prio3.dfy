/** Prio3 (src/vdaf/prio3.rs): sharding, one-round preparation, aggregation and unsharding, for any of
    the modelled circuits. XOFs are arbitrary functions of what they absorb; the nonce, the verify key
    and the domain separation tags are fixed. Vectors that hold one part per proof are sequences of
    parts. */
module Prio3 {
  import opened Wrappers
  import opened Powers
  import opened Field
  import opened Sums
  import opened Fft
  import opened Polynomial
  import opened Gadgets
  import opened FlpTypes
  import opened Flp
  import opened FlpCompleteness
  import opened FlpOutput

  type Seed = seq<bv8>

  type ElemStream = nat -> elem

  /** The XOF outputs: measurement and proof shares of a helper, prover randomness, joint randomness
      part of an aggregator, joint randomness seed, joint randomness and query randomness. */
  datatype Xofs = Xofs(measurement: (Seed, nat) -> ElemStream, proofs: (Seed, nat) -> ElemStream, prove: Seed -> ElemStream,
                       jointPart: (Seed, nat, seq<elem>) -> Seed, jointSeed: seq<Seed> -> Seed, jointRand: Seed -> ElemStream,
                       query: ElemStream)

  datatype Prio3 = Prio3(t: FlpType, aggregators: nat, proofs: nat, xof: Xofs) {
    /** What the constructor checks. */
    predicate Valid() { t.Valid() && 1 <= aggregators <= 254 && 1 <= proofs <= 255 }

    predicate Joint() { t.JointRandLen() > 0 }

    /** Seeds that sharding reads. */
    function RandomSize(): nat
      requires Valid()
    {
      (aggregators - 1) * 2 + 1 + if Joint() then aggregators else 0
    }
  }

  datatype Share<T> = LeaderShare(data: T) | HelperShare(seed: Seed)

  datatype InputShare = InputShare(measurement: Share<seq<elem>>, proofs: Share<seq<seq<elem>>>, blind: Option<Seed>)

  /** The joint randomness parts, if the circuit uses joint randomness. */
  type PublicShare = Option<seq<Seed>>

  datatype PrepareState = PrepareState(measurement: Share<seq<elem>>, jointSeed: Option<Seed>, agg: nat)

  datatype PrepareShare = PrepareShare(verifiers: seq<seq<elem>>, jointPart: Option<Seed>)

  datatype PrepareMessage = PrepareMessage(jointSeed: Option<Seed>)

  datatype Prio3Error = RandomLength | BadAggregator | FlpFailed(e: FlpError) | VerifierLength | ShareCount
                      | ProofRejected | JointRandMismatch | OutputLength
                      | EncodeFailed(m: MeasurementError) | TruncateFailed(t: TruncateError) | DecodeFailed

  /** n elements of a stream from a position. */
  function Take(s: ElemStream, start: nat, n: nat): (r: seq<elem>)
    ensures |r| == n
  {
    seq(n, i requires 0 <= i => s(start + i))
  }

  function TakeAll(ss: seq<ElemStream>, start: nat, n: nat): (r: seq<seq<elem>>)
    ensures |r| == |ss| && forall i :: 0 <= i < |r| ==> |r[i]| == n && r[i] == Take(ss[i], start, n)
  {
    seq(|ss|, i requires 0 <= i < |ss| => Take(ss[i], start, n))
  }

  // ------------------------------------------------------------------ sharding

  function SubVec(a: seq<elem>, b: seq<elem>): (r: seq<elem>)
    requires |a| == |b|
    ensures |r| == |a|
  {
    seq(|a|, i requires 0 <= i < |a| => Sub(a[i], b[i]))
  }

  /** What remains of x when the shares are subtracted in turn. */
  function Minus(x: seq<elem>, hs: seq<seq<elem>>): (r: seq<elem>)
    requires forall i :: 0 <= i < |hs| ==> |hs[i]| == |x|
    ensures |r| == |x|
  {
    if hs == [] then x else SubVec(Minus(x, hs[..|hs| - 1]), hs[|hs| - 1])
  }

  /** Index of the first seed of helper j. */
  function HelperBase(prio: Prio3, j: nat): nat
    requires 1 <= j
  {
    if prio.Joint() then 3 * (j - 1) else 2 * (j - 1)
  }

  predicate Enough(prio: Prio3, random: seq<Seed>) { prio.Valid() && |random| == prio.RandomSize() }

  /** The helpers' measurement share streams. */
  function MeasurementStreams(prio: Prio3, random: seq<Seed>): (ss: seq<ElemStream>)
    requires Enough(prio, random)
    ensures |ss| == prio.aggregators - 1
  {
    seq<ElemStream>(prio.aggregators - 1, i requires 0 <= i < prio.aggregators - 1 => prio.xof.measurement(random[HelperBase(prio, i + 1)], i + 1))
  }

  function HelperMeasurements(prio: Prio3, random: seq<Seed>): (ms: seq<seq<elem>>)
    requires Enough(prio, random)
    ensures |ms| == prio.aggregators - 1 && forall i :: 0 <= i < |ms| ==> |ms[i]| == prio.t.InputLen()
  {
    TakeAll(MeasurementStreams(prio, random), 0, prio.t.InputLen())
  }

  /** Every aggregator's measurement share. */
  function MeasurementShares(prio: Prio3, x: seq<elem>, random: seq<Seed>): (ms: seq<seq<elem>>)
    requires Enough(prio, random) && |x| == prio.t.InputLen()
    ensures |ms| == prio.aggregators && forall i :: 0 <= i < |ms| ==> |ms[i]| == prio.t.InputLen()
  {
    [Minus(x, HelperMeasurements(prio, random))] + HelperMeasurements(prio, random)
  }

  function Blind(prio: Prio3, random: seq<Seed>, agg: nat): Option<Seed>
    requires Enough(prio, random) && agg < prio.aggregators
  {
    if !prio.Joint() then None
    else if agg == 0 then Some(random[3 * (prio.aggregators - 1)])
    else Some(random[HelperBase(prio, agg) + 2])
  }

  /** The joint randomness part of an aggregator with a given measurement share. */
  function PartOf(prio: Prio3, blind: Option<Seed>, agg: nat, share: seq<elem>): Seed
    requires blind.Some?
  {
    prio.xof.jointPart(blind.value, agg, share)
  }

  function Parts(prio: Prio3, x: seq<elem>, random: seq<Seed>): (parts: seq<Seed>)
    requires Enough(prio, random) && |x| == prio.t.InputLen() && prio.Joint()
    ensures |parts| == prio.aggregators
  {
    seq(prio.aggregators, i requires 0 <= i < prio.aggregators => PartOf(prio, Blind(prio, random, i), i, MeasurementShares(prio, x, random)[i]))
  }

  function Public(prio: Prio3, x: seq<elem>, random: seq<Seed>): PublicShare
    requires Enough(prio, random) && |x| == prio.t.InputLen()
  {
    if prio.Joint() then Some(Parts(prio, x, random)) else None
  }

  /** The joint randomness of proof p. */
  function JointRand(prio: Prio3, parts: Option<seq<Seed>>, p: nat): (jr: seq<elem>)
    requires prio.Joint() ==> parts.Some?
    ensures |jr| == prio.t.JointRandLen()
  {
    if prio.Joint() then Take(prio.xof.jointRand(prio.xof.jointSeed(parts.value)), p * prio.t.JointRandLen(), prio.t.JointRandLen())
    else []
  }

  /** The prover randomness of proof p. */
  function ProveRand(prio: Prio3, random: seq<Seed>, p: nat): (pr: seq<elem>)
    requires Enough(prio, random)
    ensures |pr| == prio.t.ProveRandLen()
  {
    Take(prio.xof.prove(random[prio.RandomSize() - 1]), p * prio.t.ProveRandLen(), prio.t.ProveRandLen())
  }

  /** The proof p of an honest client. */
  ghost function HonestProof(prio: Prio3, x: seq<elem>, random: seq<Seed>, p: nat): (proof: seq<elem>)
    requires Enough(prio, random) && |x| == prio.t.InputLen() && ProveFits(prio.t)
    ensures |proof| == prio.t.ProofLen()
  {
    ProofSpec(prio.t, x, ProveRand(prio, random, p), JointRand(prio, Public(prio, x, random), p))
  }

  /** Helper j's share of proof p, from its seed. */
  function ProofShareOf(prio: Prio3, seed: Seed, j: nat, p: nat): (s: seq<elem>)
    requires prio.Valid()
    ensures |s| == prio.t.ProofLen()
  {
    hide *;
    Take(prio.xof.proofs(seed, j), ProofOffset(prio, p), prio.t.ProofLen())
  }

  function ProofStreams(prio: Prio3, random: seq<Seed>): (ss: seq<ElemStream>)
    requires Enough(prio, random)
    ensures |ss| == prio.aggregators - 1
  {
    seq<ElemStream>(prio.aggregators - 1, i requires 0 <= i < prio.aggregators - 1 => prio.xof.proofs(random[HelperBase(prio, i + 1) + 1], i + 1))
  }

  /** Where proof p starts in a helper's stream of proof shares. */
  function ProofOffset(prio: Prio3, p: nat): nat
    requires prio.t.Valid()
  {
    hide *;
    p * prio.t.ProofLen()
  }

  function HelperProofs(prio: Prio3, random: seq<Seed>, p: nat): (ps: seq<seq<elem>>)
    requires Enough(prio, random)
    ensures |ps| == prio.aggregators - 1 && forall i :: 0 <= i < |ps| ==> |ps[i]| == prio.t.ProofLen()
  {
    hide *;
    TakeAll(ProofStreams(prio, random), ProofOffset(prio, p), prio.t.ProofLen())
  }

  /** Every aggregator's share of proof p. */
  ghost function ProofShares(prio: Prio3, x: seq<elem>, random: seq<Seed>, p: nat): (ps: seq<seq<elem>>)
    requires Enough(prio, random) && |x| == prio.t.InputLen() && ProveFits(prio.t)
    ensures |ps| == prio.aggregators && forall i :: 0 <= i < |ps| ==> |ps[i]| == prio.t.ProofLen()
  {
    [Minus(HonestProof(prio, x, random, p), HelperProofs(prio, random, p))] + HelperProofs(prio, random, p)
  }

  ghost function LeaderProofs(prio: Prio3, x: seq<elem>, random: seq<Seed>): (ps: seq<seq<elem>>)
    requires Enough(prio, random) && |x| == prio.t.InputLen() && ProveFits(prio.t)
    ensures |ps| == prio.proofs && forall p :: 0 <= p < |ps| ==> |ps[p]| == prio.t.ProofLen()
  {
    seq(prio.proofs, p requires 0 <= p => ProofShares(prio, x, random, p)[0])
  }

  ghost function SharedInput(prio: Prio3, x: seq<elem>, random: seq<Seed>, agg: nat): InputShare
    requires Enough(prio, random) && |x| == prio.t.InputLen() && ProveFits(prio.t) && agg < prio.aggregators
  {
    if agg == 0 then
      InputShare(LeaderShare(MeasurementShares(prio, x, random)[0]), LeaderShare(LeaderProofs(prio, x, random)), Blind(prio, random, 0))
    else
      InputShare(HelperShare(random[HelperBase(prio, agg)]), HelperShare(random[HelperBase(prio, agg) + 1]), Blind(prio, random, agg))
  }

  ghost function SharedInputs(prio: Prio3, x: seq<elem>, random: seq<Seed>): (inputs: seq<InputShare>)
    requires Enough(prio, random) && |x| == prio.t.InputLen() && ProveFits(prio.t)
    ensures |inputs| == prio.aggregators
  {
    seq(prio.aggregators, i requires 0 <= i < prio.aggregators => SharedInput(prio, x, random, i))
  }

  /** The loop that subtracts a helper's stream from the leader's share in place. */
  method SubtractStream(acc: array<elem>, s: ElemStream, start: nat)
    modifies acc
    ensures acc[..] == SubVec(old(acc[..]), Take(s, start, acc.Length))
  {
    hide Sub;
    for i := 0 to acc.Length
      invariant forall k :: 0 <= k < acc.Length ==> acc[k] == if k < i then Sub(old(acc[k]), s(start + k)) else old(acc[k])
    {
      acc[i] := Sub(acc[i], s(start + i));
    }
  }

  /** The leader's share of one vector, after every helper's stream has been subtracted. */
  method SplitVector(x: seq<elem>, streams: seq<ElemStream>, start: nat) returns (leader: seq<elem>)
    ensures leader == Minus(x, TakeAll(streams, start, |x|))
  {
    hide SubVec, Take;
    var acc := new elem[|x|](i requires 0 <= i < |x| => x[i]);
    assert acc[..] == x;
    ghost var hs := TakeAll(streams, start, |x|);
    assert hs[..0] == [];
    for j := 0 to |streams|
      invariant fresh(acc) && acc[..] == Minus(x, hs[..j])
    {
      assert hs[..j + 1][..j] == hs[..j] && hs[..j + 1][j] == hs[j];
      SubtractStream(acc, streams[j], start);
    }
    assert hs[..|streams|] == hs;
    leader := acc[..];
  }

  /** The outcome of `shard_with_random`. */
  ghost function Sharing(prio: Prio3, m: Measurement, random: seq<Seed>): Result<(PublicShare, seq<InputShare>), Prio3Error>
    requires prio.Valid() && Suits(prio.t, m)
  {
    if |random| != prio.RandomSize() then Failure(RandomLength)
    else
      match EncodingOf(prio.t, m)
      case Failure(e) => Failure(EncodeFailed(e))
      case Success(x) =>
        EncodingTruncates(prio.t, m);
        if !ProveFits(prio.t) then Failure(FlpFailed(FftError))
        else Success((Public(prio, x, random), SharedInputs(prio, x, random)))
  }

  /** `shard_with_random`. */
  method ShardWithRandom(prio: Prio3, m: Measurement, random: seq<Seed>) returns (res: Result<(PublicShare, seq<InputShare>), Prio3Error>)
    requires prio.Valid() && Suits(prio.t, m) && MAX_ROOTS <= WORD
    ensures res == Sharing(prio, m, random)
  {
    hide ProveFits, FlpType.Valid, FlpType.InputLen, EncodingOf, Public, SharedInputs, Coordinate, Plain;
    if |random| != prio.RandomSize() {
      return Failure(RandomLength);
    }
    var x := EncodeMeasurement(prio.t, m);
    if x.Failure? {
      return Failure(EncodeFailed(x.error));
    }
    EncodingTruncates(prio.t, m);
    res := ShardEncoded(prio, x.value, random);
  }

  /** The rest of `shard_with_random`, on the encoded measurement. */
  method ShardEncoded(prio: Prio3, x: seq<elem>, random: seq<Seed>) returns (res: Result<(PublicShare, seq<InputShare>), Prio3Error>)
    requires prio.Valid() && |x| == prio.t.InputLen() && MAX_ROOTS <= WORD && Enough(prio, random)
    ensures res == if !ProveFits(prio.t) then Failure(FlpFailed(FftError))
                   else Success((Public(prio, x, random), SharedInputs(prio, x, random)))
  {
    hide ProofSpec, Minus, ProveFits, FlpType.ProofLen, FlpType.Valid, FlpType.InputLen, TakeAll, Take, Parts, Blind, ProveRand, JointRand;
    var n := prio.aggregators;
    var leader := SplitVector(x, MeasurementStreams(prio, random), 0);
    var pub := Public(prio, x, random);
    var proofs: seq<seq<elem>> := [];
    for p := 0 to prio.proofs
      invariant |proofs| == p && (p > 0 ==> ProveFits(prio.t))
      invariant forall q :: 0 <= q < p ==> proofs[q] == ProofShares(prio, x, random, q)[0]
    {
      var proof := Prove(prio.t, x, ProveRand(prio, random, p), JointRand(prio, pub, p));
      if proof.Failure? {
        return Failure(FlpFailed(proof.error));
      }
      var share := SplitVector(proof.value, ProofStreams(prio, random), p * prio.t.ProofLen());
      proofs := proofs + [share];
    }
    var inputs := [InputShare(LeaderShare(leader), LeaderShare(proofs), Blind(prio, random, 0))];
    assert proofs == LeaderProofs(prio, x, random);
    for j := 1 to n
      invariant |inputs| == j && forall i :: 0 <= i < j ==> inputs[i] == SharedInput(prio, x, random, i)
    {
      inputs := inputs + [InputShare(HelperShare(random[HelperBase(prio, j)]), HelperShare(random[HelperBase(prio, j) + 1]), Blind(prio, random, j))];
    }
    assert inputs == SharedInputs(prio, x, random);
    return Success((pub, inputs));
  }

  // ------------------------------------------------------------------ preparation

  /** What `query` returns. */
  ghost function QueryOutcome(t: FlpType, x: seq<elem>, proof: seq<elem>, r: elem, jr: seq<elem>, n: nat): Result<seq<elem>, FlpError>
    requires t.Valid()
  {
    if |x| != t.InputLen() || |proof| != t.ProofLen() || |jr| != t.JointRandLen() then Failure(LengthMismatch)
    else if Pow(r, WirePolyLen(t.GadgetCalls())) == 1 then Failure(QueryAtRootOfUnity)
    else if WireLog(t) + 1 > MAX_ROOTS then Failure(FftError)
    else if t.Chunked() && n >= P then Failure(ShareCountTooLarge)
    else Success(QuerySpec(t, x, proof, r, jr, Inv(Mod(n))))
  }

  function ExpandMeasurement(prio: Prio3, share: Share<seq<elem>>, agg: nat): seq<elem>
    requires prio.Valid()
  {
    match share
    case LeaderShare(data) => data
    case HelperShare(seed) => Take(prio.xof.measurement(seed, agg), 0, prio.t.InputLen())
  }

  /** The share of proof p. A leader's share holds one vector per proof. */
  function ExpandProof(prio: Prio3, share: Share<seq<seq<elem>>>, agg: nat, p: nat): seq<elem>
    requires prio.Valid() && (share.LeaderShare? ==> p < |share.data|)
  {
    match share
    case LeaderShare(data) => data[p]
    case HelperShare(seed) => ProofShareOf(prio, seed, agg, p)
  }

  /** The parts of the public share, with the aggregator's own part in its place. */
  function Corrected(parts: seq<Seed>, agg: nat, own: Seed): seq<Seed> {
    (if agg <= |parts| then parts[..agg] else parts) + [own] + if agg + 1 <= |parts| then parts[agg + 1..] else []
  }

  /** The joint randomness parts an aggregator uses. */
  function OwnParts(prio: Prio3, agg: nat, pub: PublicShare, input: InputShare): Option<seq<Seed>>
    requires prio.Valid() && (prio.Joint() ==> input.blind.Some?)
  {
    if !prio.Joint() then None
    else
      var own := PartOf(prio, input.blind, agg, ExpandMeasurement(prio, input.measurement, agg));
      Some(Corrected(if pub.Some? then pub.value else [], agg, own))
  }

  /** The outcome of the query for proof p. */
  ghost function QueryFor(prio: Prio3, agg: nat, pub: PublicShare, input: InputShare, p: nat): Result<seq<elem>, FlpError>
    requires prio.Valid() && (prio.Joint() ==> input.blind.Some?) && (input.proofs.LeaderShare? ==> p < |input.proofs.data|)
  {
    QueryOutcome(prio.t, ExpandMeasurement(prio, input.measurement, agg), ExpandProof(prio, input.proofs, agg, p),
                 prio.xof.query(p), JointRand(prio, OwnParts(prio, agg, pub, input), p), prio.aggregators)
  }

  /** An input share as decoding yields it for this instance. */
  predicate Decoded(prio: Prio3, input: InputShare) {
    && prio.Valid()
    && (prio.Joint() ==> input.blind.Some?)
    && (input.proofs.LeaderShare? ==> |input.proofs.data| == prio.proofs)
  }

  /** The verifier shares of the first n proofs, or the first failure. */
  ghost function Queries(prio: Prio3, agg: nat, pub: PublicShare, input: InputShare, n: nat): (r: Result<seq<seq<elem>>, FlpError>)
    requires Decoded(prio, input) && n <= prio.proofs
    ensures r.Success? ==> |r.value| == n
  {
    if n == 0 then Success([])
    else
      match Queries(prio, agg, pub, input, n - 1)
      case Failure(e) => Failure(e)
      case Success(vs) =>
        match QueryFor(prio, agg, pub, input, n - 1)
        case Failure(e) => Failure(e)
        case Success(v) => Success(vs + [v])
  }

  lemma {:induction false} FirstFailureStays(prio: Prio3, agg: nat, pub: PublicShare, input: InputShare, i: nat, n: nat)
    requires Decoded(prio, input) && i <= n <= prio.proofs && Queries(prio, agg, pub, input, i).Failure?
    ensures Queries(prio, agg, pub, input, n) == Queries(prio, agg, pub, input, i)
  {
    hide QueryFor;
    if i < n {
      FirstFailureStays(prio, agg, pub, input, i, n - 1);
    }
  }

  /** The outcome of `prepare_init`. */
  ghost function Prepared(prio: Prio3, agg: nat, pub: PublicShare, input: InputShare): Result<(PrepareState, PrepareShare), Prio3Error>
    requires Decoded(prio, input)
  {
    if agg >= prio.aggregators then Failure(BadAggregator)
    else
      match Queries(prio, agg, pub, input, prio.proofs)
      case Failure(e) => Failure(FlpFailed(e))
      case Success(verifiers) =>
        var parts := OwnParts(prio, agg, pub, input);
        var seed := if prio.Joint() then Some(prio.xof.jointSeed(parts.value)) else None;
        var own := if prio.Joint() then Some(PartOf(prio, input.blind, agg, ExpandMeasurement(prio, input.measurement, agg))) else None;
        Success((PrepareState(input.measurement, seed, agg), PrepareShare(verifiers, own)))
  }

  /** `prepare_init`. */
  method PrepareInit(prio: Prio3, agg: nat, pub: PublicShare, input: InputShare)
    returns (res: Result<(PrepareState, PrepareShare), Prio3Error>)
    requires Decoded(prio, input) && MAX_ROOTS <= WORD
    ensures res == Prepared(prio, agg, pub, input)
  {
    hide QueryFor, JointRand, Corrected, Take, ProofShareOf, FlpType.ProofLen, FlpType.Valid, FlpType.InputLen;
    if agg >= prio.aggregators {
      return Failure(BadAggregator);
    }
    var x, parts := ExpandMeasurement(prio, input.measurement, agg), OwnParts(prio, agg, pub, input);
    var verifiers: seq<seq<elem>> := [];
    for p := 0 to prio.proofs
      invariant Queries(prio, agg, pub, input, p) == Success(verifiers)
    {
      var v := RunQuery(prio, agg, pub, input, x, parts, p);
      if v.Failure? {
        FirstFailureStays(prio, agg, pub, input, p + 1, prio.proofs);
        return Failure(FlpFailed(v.error));
      }
      verifiers := verifiers + [v.value];
    }
    var seed := if prio.Joint() then Some(prio.xof.jointSeed(parts.value)) else None;
    var own := if prio.Joint() then Some(PartOf(prio, input.blind, agg, x)) else None;
    return Success((PrepareState(input.measurement, seed, agg), PrepareShare(verifiers, own)));
  }

  /** One iteration of the query loop. */
  method RunQuery(prio: Prio3, agg: nat, pub: PublicShare, input: InputShare, x: seq<elem>, parts: Option<seq<Seed>>, p: nat)
    returns (v: Result<seq<elem>, FlpError>)
    requires Decoded(prio, input) && p < prio.proofs && MAX_ROOTS <= WORD
    requires x == ExpandMeasurement(prio, input.measurement, agg) && parts == OwnParts(prio, agg, pub, input)
    ensures v == QueryFor(prio, agg, pub, input, p)
  {
    hide QuerySpec, JointRand, Corrected, Take, ProofShareOf, FlpType.ProofLen, FlpType.InputLen, WireLog, WirePolyLen, Pow, Inv, Mod, ExpandMeasurement;
    v := Query(prio.t, x, ExpandProof(prio, input.proofs, agg, p), [prio.xof.query(p)], JointRand(prio, parts, p), prio.aggregators);
  }

  /** One vector of the right length per proof. */
  predicate WellSized(prio: Prio3, verifiers: seq<seq<elem>>) {
    |verifiers| == prio.proofs && forall p :: 0 <= p < |verifiers| ==> |verifiers[p]| == prio.t.VerifierLen()
  }

  /** The verifier shares for proof p. */
  function VerifierShares(prio: Prio3, inputs: seq<PrepareShare>, p: nat): (vs: seq<seq<elem>>)
    requires p < prio.proofs && forall i :: 0 <= i < |inputs| ==> WellSized(prio, inputs[i].verifiers)
    ensures |vs| == |inputs| && forall i :: 0 <= i < |vs| ==> |vs[i]| == prio.t.VerifierLen()
  {
    assert forall i :: 0 <= i < |inputs| ==> WellSized(prio, inputs[i].verifiers) && |inputs[i].verifiers[p]| == prio.t.VerifierLen();
    seq(|inputs|, i requires 0 <= i < |inputs| => inputs[i].verifiers[p])
  }

  function SentParts(inputs: seq<PrepareShare>): seq<Seed>
    requires forall i :: 0 <= i < |inputs| ==> inputs[i].jointPart.Some?
  {
    seq(|inputs|, i requires 0 <= i < |inputs| => inputs[i].jointPart.value)
  }

  /** The outcome of `prepare_shares_to_prepare_message`. The shares are counted in eight bits. */
  ghost function MessageOf(prio: Prio3, inputs: seq<PrepareShare>): Result<PrepareMessage, Prio3Error>
    requires prio.Valid() && (prio.Joint() ==> forall i :: 0 <= i < |inputs| ==> inputs[i].jointPart.Some?)
  {
    if exists i :: 0 <= i < |inputs| && !WellSized(prio, inputs[i].verifiers) then Failure(VerifierLength)
    else if |inputs| % 256 != prio.aggregators then Failure(ShareCount)
    else if exists p :: 0 <= p < prio.proofs && !Accepts(prio.t, VecSum(VerifierShares(prio, inputs, p), prio.t.VerifierLen())) then Failure(ProofRejected)
    else Success(PrepareMessage(if prio.Joint() then Some(prio.xof.jointSeed(SentParts(inputs))) else None))
  }

  /** The sum of the first n verifier shares of every proof. */
  ghost predicate SumsTo(prio: Prio3, inputs: seq<PrepareShare>, n: nat, sums: seq<seq<elem>>)
    requires n <= |inputs|
  {
    && (forall i :: 0 <= i < n ==> WellSized(prio, inputs[i].verifiers))
    && |sums| == prio.proofs
    && forall p :: 0 <= p < prio.proofs ==> sums[p] == VecSum(VerifierShares(prio, inputs[..n], p), prio.t.VerifierLen())
  }

  /** `prepare_shares_to_prepare_message`: adds up the verifier shares and decides every proof. */
  method SharesToMessage(prio: Prio3, inputs: seq<PrepareShare>) returns (res: Result<PrepareMessage, Prio3Error>)
    requires prio.Valid() && (prio.Joint() ==> forall i :: 0 <= i < |inputs| ==> inputs[i].jointPart.Some?)
    ensures res == MessageOf(prio, inputs)
  {
    hide Accepts, VecSum, FlpType.Valid;
    var sums: seq<seq<elem>> := seq(prio.proofs, _ => Zeros(prio.t.VerifierLen()));
    NothingSummed(prio, inputs, sums);
    var parts: seq<Seed> := [];
    var count := 0;
    for i := 0 to |inputs|
      invariant SumsTo(prio, inputs, i, sums) && count == i % 256
      invariant prio.Joint() ==> |parts| == i && forall k :: 0 <= k < i ==> parts[k] == inputs[k].jointPart.value
    {
      count := (count + 1) % 256;
      if !WellSized(prio, inputs[i].verifiers) {
        return Failure(VerifierLength);
      }
      if prio.Joint() {
        parts := parts + [inputs[i].jointPart.value];
      }
      AddShare(prio, inputs, i, sums);
      sums := seq(prio.proofs, p requires 0 <= p < prio.proofs => AddVec(sums[p], inputs[i].verifiers[p]));
    }
    assert inputs[..|inputs|] == inputs;
    if count != prio.aggregators {
      return Failure(ShareCount);
    }
    for p := 0 to prio.proofs
      invariant forall q :: 0 <= q < p ==> Accepts(prio.t, VecSum(VerifierShares(prio, inputs, q), prio.t.VerifierLen()))
    {
      var ok := Decide(prio.t, sums[p]);
      if ok != Success(true) {
        return Failure(ProofRejected);
      }
    }
    if prio.Joint() {
      assert parts == SentParts(inputs);
    }
    return Success(PrepareMessage(if prio.Joint() then Some(prio.xof.jointSeed(parts)) else None));
  }

  lemma {:induction false} NothingSummed(prio: Prio3, inputs: seq<PrepareShare>, sums: seq<seq<elem>>)
    requires prio.Valid() && sums == seq(prio.proofs, _ => Zeros(prio.t.VerifierLen()))
    ensures SumsTo(prio, inputs, 0, sums)
  {
  }

  lemma {:induction false} AddShare(prio: Prio3, inputs: seq<PrepareShare>, i: nat, sums: seq<seq<elem>>)
    requires prio.Valid() && i < |inputs| && SumsTo(prio, inputs, i, sums) && WellSized(prio, inputs[i].verifiers)
    ensures forall p :: 0 <= p < prio.proofs ==> |sums[p]| == prio.t.VerifierLen()
    ensures SumsTo(prio, inputs, i + 1, seq(prio.proofs, p requires 0 <= p < prio.proofs => AddVec(sums[p], inputs[i].verifiers[p])))
  {
    hide AddVec, FlpType.Valid;
    forall p | 0 <= p < prio.proofs
      ensures AddVec(sums[p], inputs[i].verifiers[p]) == VecSum(VerifierShares(prio, inputs[..i + 1], p), prio.t.VerifierLen())
    {
      var c := VerifierShares(prio, inputs[..i + 1], p);
      assert c[..i] == VerifierShares(prio, inputs[..i], p) && c[i] == inputs[i].verifiers[p];
    }
  }

  /** The outcome of `prepare_next`: the joint randomness seed is checked, and the output share is the
      truncated measurement share. */
  function Finished(prio: Prio3, state: PrepareState, msg: PrepareMessage): Result<seq<elem>, Prio3Error>
    requires prio.Valid()
  {
    if prio.Joint() && state.jointSeed != msg.jointSeed then Failure(JointRandMismatch)
    else
      match TruncationOf(prio.t, ExpandMeasurement(prio, state.measurement, state.agg))
      case Failure(e) => Failure(TruncateFailed(e))
      case Success(y) => Success(y)
  }

  /** `prepare_next`. */
  method PrepareNext(prio: Prio3, state: PrepareState, msg: PrepareMessage) returns (res: Result<seq<elem>, Prio3Error>)
    requires prio.Valid()
    ensures res == Finished(prio, state, msg)
  {
    hide TruncationOf, ExpandMeasurement, FlpType.Valid;
    if prio.Joint() && state.jointSeed != msg.jointSeed {
      return Failure(JointRandMismatch);
    }
    var y := Truncate(prio.t, ExpandMeasurement(prio, state.measurement, state.agg));
    return if y.Success? then Success(y.value) else Failure(TruncateFailed(y.error));
  }

  // ------------------------------------------------------------------ aggregation

  /** The outcome of summing shares of one length. */
  ghost function Aggregated(len: nat, shares: seq<seq<elem>>): Result<seq<elem>, Prio3Error> {
    if AllLen(shares, len) then Success(VecSum(shares, len)) else Failure(OutputLength)
  }

  /** `aggregate` and the merging loop of `unshard`: the element-wise sum of shares of one length. */
  method Aggregate(len: nat, shares: seq<seq<elem>>) returns (res: Result<seq<elem>, Prio3Error>)
    ensures res == Aggregated(len, shares)
  {
    hide AddVec;
    var acc := Zeros(len);
    assert shares[..0] == [];
    for i := 0 to |shares|
      invariant forall k :: 0 <= k < i ==> |shares[k]| == len
      invariant acc == VecSum(shares[..i], len)
    {
      if |shares[i]| != len {
        return Failure(OutputLength);
      }
      assert shares[..i + 1][..i] == shares[..i];
      acc := AddVec(acc, shares[i]);
    }
    assert shares[..|shares|] == shares;
    return Success(acc);
  }

  /** The outcome of `unshard`. */
  ghost function Unsharded(t: FlpType, shares: seq<seq<elem>>): Result<seq<nat>, Prio3Error> {
    match Aggregated(OutputLen(t), shares)
    case Failure(e) => Failure(e)
    case Success(data) => match ResultOf(t, data) case None => Failure(DecodeFailed) case Some(r) => Success(r)
  }

  /** `unshard`: merges the aggregate shares and decodes the result. */
  method Unshard(t: FlpType, shares: seq<seq<elem>>) returns (res: Result<seq<nat>, Prio3Error>)
    ensures res == Unsharded(t, shares)
  {
    hide VecSum;
    var data := Aggregate(OutputLen(t), shares);
    if data.Failure? {
      return Failure(data.error);
    }
    return Success(seq(|data.value|, k requires 0 <= k < |data.value| => data.value[k] as nat));
  }
}
