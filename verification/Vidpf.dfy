/** The verifiable incremental distributed point function of src/vidpf.rs: shares of the weight on
    the programmed path, shares of zero off it, and equal running proofs in both cases. */
module Vidpf {
  import opened Wrappers
  import opened Congruence
  import opened Idpf

  // ------------------------------------------------------------------ proofs

  type Proof = s: seq<bv8> | |s| == 32 witness seq(32, _ => 0)

  /** `xor_proof`. */
  function XorProof(a: Proof, b: Proof): Proof { seq(32, i requires 0 <= i < 32 => a[i] ^ b[i]) }

  /** `conditional_xor_proof`. */
  function ConditionalXorProof(a: Proof, b: Proof, choice: bool): Proof {
    seq(32, i requires 0 <= i < 32 => if choice then a[i] ^ b[i] else a[i])
  }

  function ZeroProof(): Proof { seq(32, _ => 0) }

  lemma {:induction false} XorProofCancels(a: Proof, b: Proof)
    ensures XorProof(a, XorProof(a, b)) == b && XorProof(b, XorProof(a, b)) == a
  {
    forall i | 0 <= i < 32
      ensures XorProof(a, XorProof(a, b))[i] == b[i] && XorProof(b, XorProof(a, b))[i] == a[i]
    {
      ByteMasks(a[i], b[i]);
    }
  }

  lemma {:induction false} ConditionalXorProofMeans(a: Proof, b: Proof, choice: bool)
    ensures ConditionalXorProof(a, b, choice) == if choice then XorProof(a, b) else a
  {
  }

  // ------------------------------------------------------------------ data

  datatype ServerId = S0 | S1

  /** `Choice::from(id)`. */
  function IdBit(id: ServerId): bool { id.S1? }

  datatype Key = Key(id: ServerId, value: Seed)

  /** A VIDPF for one nonce: the weight group, the XOF outputs and the two proof hashes. */
  datatype VidpfInstance<!W> = VidpfInstance(g: Group<W>, x: LevelXof<W>,
                                   nodeProof: (seq<bool>, Seed) -> Proof, adjust: Proof -> Proof)

  datatype VidpfPublicShare<W> = VidpfPublicShare(cw: seq<CorrectionWord<W>>, cs: seq<Proof>)

  datatype EvalState = EvalState(node: Node, proof: Proof)

  datatype ValueShare<W> = ValueShare(share: W, proof: Proof)

  datatype VidpfError = SameKeyId | LevelTooBig | IndexLevel

  /** Levels are hashed as 16-bit integers. */
  const MAX_LEVELS: nat := 0x1_0000

  // ------------------------------------------------------------------ key generation

  /** `conditional_swap_seed`. */
  function ConditionalSwap(a: Seed, b: Seed, choice: bool): (Seed, Seed) {
    if choice then (b, a) else (a, b)
  }

  /** One iteration of the loop of `gen_with_keys`. */
  function GenStep<W>(I: VidpfInstance<W>, alpha: bool, weight: W, n0: Node, n1: Node): (CorrectionWord<W>, Node, Node) {
    var (seeds0, bits0) := Extend(I.x.stream, n0.key);
    var (same0, diff0) := ConditionalSwap(seeds0.1, seeds0.0, alpha);
    var (seeds1, bits1) := Extend(I.x.stream, n1.key);
    var (same1, diff1) := ConditionalSwap(seeds1.1, seeds1.0, alpha);
    var diffBit0 := Pick(alpha, bits0);
    var diffBit1 := Pick(alpha, bits1);
    var sCw := XorSeeds(same0, same1);
    var tCwL := Xor(Xor(Xor(bits0.0, bits1.0), alpha), true);
    var tCwR := Xor(Xor(bits0.1, bits1.1), alpha);
    var tCwDiff := Pick(alpha, (tCwL, tCwR));
    var tilde0 := ConditionalXorSeeds(diff0, sCw, n0.bit);
    var tilde1 := ConditionalXorSeeds(diff1, sCw, n1.bit);
    var t0 := Xor(diffBit0, n0.bit && tCwDiff);
    var t1 := Xor(diffBit1, n1.bit && tCwDiff);
    var (s0, w0) := I.x.convert(tilde0);
    var (s1, w1) := I.x.convert(tilde1);
    var wCw := I.g.NegIf(I.g.add(I.g.Sub(w1, w0), weight), t1);
    (CorrectionWord(sCw, (tCwL, tCwR), wCw), Node(s0, t0), Node(s1, t1))
  }

  /** The VIDPF level is the IDPF level: it keeps and loses the same seeds and bits. */
  lemma {:induction false} GenStepIsGenLevel<W(!new)>(I: VidpfInstance<W>, alpha: bool, weight: W, n0: Node, n1: Node)
    requires IsGroup(I.g) && Generates(I.g, I.x) && I.g.has(weight)
    ensures GenStep(I, alpha, weight, n0, n1) == GenLevel(I.g, I.x, alpha, weight, n0, n1)
  {
    hide IsGroup, ConditionalSelectSeed, ConditionalXorSeeds, Extend, XorSeeds;
    var (seeds0, _) := Extend(I.x.stream, n0.key);
    var (seeds1, _) := Extend(I.x.stream, n1.key);
    ConditionalSelectMeans(alpha, seeds0);
    ConditionalSelectMeans(alpha, seeds1);
    ConditionalSelectMeans(!alpha, seeds0);
    ConditionalSelectMeans(!alpha, seeds1);
    var (cw, _, _) := GenLevel(I.g, I.x, alpha, weight, n0, n1);
    var e0 := I.x.convert(ConditionalXorSeeds(Pick(alpha, seeds0), cw.seed, n0.bit)).1;
    var e1 := I.x.convert(ConditionalXorSeeds(Pick(alpha, seeds1), cw.seed, n1.bit)).1;
    WeightOrder(I.g, weight, e0, e1);
  }

  /** (w1 - w0) + weight == (weight - w0) + w1. */
  lemma {:induction false} WeightOrder<W(!new)>(g: Group<W>, weight: W, w0: W, w1: W)
    requires IsGroup(g) && g.has(weight) && g.has(w0) && g.has(w1)
    ensures g.add(g.Sub(w1, w0), weight) == g.add(g.Sub(weight, w0), w1)
  {
    hide IsGroup;
    GroupZero(g, w0);
    var n := g.neg(w0);
    GroupAssoc(g, w1, n, weight);
    GroupComm(g, n, weight);
    GroupComm(g, weight, n);
    GroupComm(g, w1, g.add(weight, n));
  }

  /** Correction words, proof corrections and nodes after the first n levels. */
  function GenSpec<W>(I: VidpfInstance<W>, keys: (Key, Key), input: seq<bool>, weight: W, n: nat)
    : (r: (VidpfPublicShare<W>, Node, Node))
    requires n <= |input|
    ensures |r.0.cw| == |r.0.cs| == n
  {
    if n == 0 then
      (VidpfPublicShare([], []), Node(keys.0.value, IdBit(keys.0.id)), Node(keys.1.value, IdBit(keys.1.id)))
    else
      var (pub, n0, n1) := GenSpec(I, keys, input, weight, n - 1);
      var (cw, m0, m1) := GenStep(I, input[n - 1], weight, n0, n1);
      var cs := XorProof(I.nodeProof(input[..n], m0.key), I.nodeProof(input[..n], m1.key));
      (VidpfPublicShare(pub.cw + [cw], pub.cs + [cs]), m0, m1)
  }

  /** The public share for a whole input. */
  function Public<W>(I: VidpfInstance<W>, keys: (Key, Key), input: seq<bool>, weight: W): (pub: VidpfPublicShare<W>)
    ensures |pub.cw| == |pub.cs| == |input|
  {
    GenSpec(I, keys, input, weight, |input|).0
  }

  /** `gen_with_keys`. */
  method GenWithKeys<W>(I: VidpfInstance<W>, keys: (Key, Key), input: seq<bool>, weight: W) returns (res: Result<VidpfPublicShare<W>, VidpfError>)
    ensures res == if keys.0.id == keys.1.id then Failure(SameKeyId)
                   else if |input| > MAX_LEVELS then Failure(LevelTooBig)
                   else Success(Public(I, keys, input, weight))
  {
    hide GenStep;
    if keys.0.id == keys.1.id {
      return Failure(SameKeyId);
    }
    var n0, n1 := Node(keys.0.value, IdBit(keys.0.id)), Node(keys.1.value, IdBit(keys.1.id));
    var cw: seq<CorrectionWord<W>> := [];
    var cs: seq<Proof> := [];
    for level := 0 to |input|
      invariant level <= MAX_LEVELS
      invariant (VidpfPublicShare(cw, cs), n0, n1) == GenSpec(I, keys, input, weight, level)
    {
      var (word, m0, m1) := GenStep(I, input[level], weight, n0, n1);
      n0, n1 := m0, m1;
      cw := cw + [word];
      if level >= MAX_LEVELS {
        return Failure(LevelTooBig);
      }
      var pi0 := I.nodeProof(input[..level + 1], n0.key);
      var pi1 := I.nodeProof(input[..level + 1], n1.key);
      cs := cs + [XorProof(pi0, pi1)];
    }
    return Success(VidpfPublicShare(cw, cs));
  }

  // ------------------------------------------------------------------ evaluation

  /** `eval_next` on a level for which the public share has words. */
  function EvalNext<W>(I: VidpfInstance<W>, id: ServerId, cw: CorrectionWord<W>, cs: Proof, path: seq<bool>, st: EvalState): (EvalState, W)
    requires |path| > 0
  {
    var (node, y) := EvalLevel(I.g, I.x, id.S0?, st.node, cw, path[|path| - 1]);
    var tilde := I.nodeProof(path, node.key);
    var h2 := XorProof(ConditionalXorProof(tilde, cs, node.bit), st.proof);
    (EvalState(node, XorProof(I.adjust(h2), st.proof)), y)
  }

  /** State and share after the first n levels; the share of no level is zero. */
  function EvalSpec<W>(I: VidpfInstance<W>, key: Key, pub: VidpfPublicShare<W>, input: seq<bool>, n: nat): (EvalState, W)
    requires n <= |input| && n <= |pub.cw| && n <= |pub.cs|
  {
    if n == 0 then (EvalState(Node(key.value, IdBit(key.id)), ZeroProof()), I.g.zero)
    else EvalNext(I, key.id, pub.cw[n - 1], pub.cs[n - 1], input[..n], EvalSpec(I, key, pub, input, n - 1).0)
  }

  // ------------------------------------------------------------------ the running proof

  /** What a level contributes to the proof: the hash of the node reached, corrected by the public share
      when the control bit is set. */
  function NodeTerm<W>(I: VidpfInstance<W>, key: Key, pub: VidpfPublicShare<W>, input: seq<bool>, i: nat): Proof
    requires i < |input| && i < |pub.cw| && i < |pub.cs|
  {
    var node := EvalSpec(I, key, pub, input, i + 1).0.node;
    var hash := I.nodeProof(input[..i + 1], node.key);
    if node.bit then XorProof(hash, pub.cs[i]) else hash
  }

  function NodeTerms<W>(I: VidpfInstance<W>, key: Key, pub: VidpfPublicShare<W>, input: seq<bool>, n: nat): (ts: seq<Proof>)
    requires n <= |input| && n <= |pub.cw| && n <= |pub.cs|
    ensures |ts| == n
  {
    seq(n, i requires 0 <= i < n => NodeTerm(I, key, pub, input, i))
  }

  /** The terms hashed into a chain that starts with 32 zero bytes: each link is the previous one,
      exclusive-or the adjusted hash of the term exclusive-or the previous one. */
  function Chain(adjust: Proof -> Proof, terms: seq<Proof>): Proof {
    if terms == [] then seq(32, _ => 0)
    else
      var previous := Chain(adjust, terms[..|terms| - 1]);
      XorProof(previous, adjust(XorProof(previous, terms[|terms| - 1])))
  }

  lemma {:induction false} XorProofComm(a: Proof, b: Proof)
    ensures XorProof(a, b) == XorProof(b, a)
  {
    forall i | 0 <= i < 32 ensures XorProof(a, b)[i] == XorProof(b, a)[i] {
      XorByteComm(a[i], b[i]);
    }
  }

  lemma {:induction false} XorByteComm(a: bv8, b: bv8)
    ensures a ^ b == b ^ a
  {
  }

  /** The running proof is the chain over the terms of all levels. */
  lemma {:induction false} ProofIsChain<W>(I: VidpfInstance<W>, key: Key, pub: VidpfPublicShare<W>, input: seq<bool>, n: nat)
    requires n <= |input| && n <= |pub.cw| && n <= |pub.cs|
    ensures EvalSpec(I, key, pub, input, n).0.proof == Chain(I.adjust, NodeTerms(I, key, pub, input, n))
  {
    hide XorProof, EvalLevel;
    if n > 0 {
      ProofIsChain(I, key, pub, input, n - 1);
      var terms := NodeTerms(I, key, pub, input, n);
      assert terms[..n - 1] == NodeTerms(I, key, pub, input, n - 1);
      var st, before := EvalSpec(I, key, pub, input, n).0, EvalSpec(I, key, pub, input, n - 1).0;
      var hash := I.nodeProof(input[..n], st.node.key);
      ConditionalXorProofMeans(hash, pub.cs[n - 1], st.node.bit);
      assert terms[n - 1] == ConditionalXorProof(hash, pub.cs[n - 1], st.node.bit);
      XorProofComm(terms[n - 1], before.proof);
      XorProofComm(I.adjust(XorProof(before.proof, terms[n - 1])), before.proof);
    }
  }

  /** With a collision-free adjustment hash, different terms after a common history lead to different
      proofs. */
  lemma {:induction false} ChainBinds(adjust: Proof -> Proof, terms: seq<Proof>, a: Proof, b: Proof)
    requires forall p, q :: adjust(p) == adjust(q) ==> p == q
    ensures Chain(adjust, terms + [a]) == Chain(adjust, terms + [b]) <==> a == b
  {
    hide XorProof;
    var previous := Chain(adjust, terms);
    assert (terms + [a])[..|terms|] == terms && (terms + [b])[..|terms|] == terms;
    var p, q := XorProof(previous, a), XorProof(previous, b);
    if Chain(adjust, terms + [a]) == Chain(adjust, terms + [b]) {
      XorProofCancels(previous, adjust(p));
      XorProofCancels(previous, adjust(q));
      XorLeft(previous, adjust(p), adjust(q));
      XorLeft(previous, a, b);
    }
  }

  lemma {:induction false} XorLeft(p: Proof, a: Proof, b: Proof)
    requires XorProof(p, a) == XorProof(p, b)
    ensures a == b
  {
    hide XorProof;
    XorProofCancels(p, a);
    XorProofCancels(p, b);
  }

  function Min(a: nat, b: nat): nat { if a < b then a else b }

  /** `eval`. */
  method Eval<W>(I: VidpfInstance<W>, key: Key, pub: VidpfPublicShare<W>, input: seq<bool>) returns (res: Result<ValueShare<W>, VidpfError>)
    ensures var words := Min(|pub.cw|, |pub.cs|);
            res == if |input| > words && words <= MAX_LEVELS then Failure(IndexLevel)
                   else if |input| > MAX_LEVELS then Failure(LevelTooBig)
                   else var (st, share) := EvalSpec(I, key, pub, input, |input|);
                        Success(ValueShare(share, st.proof))
    ensures res.Success? ==> |input| <= |pub.cw| && |input| <= |pub.cs| && res.value.proof == Chain(I.adjust, NodeTerms(I, key, pub, input, |input|))
  {
    hide EvalNext, Chain, NodeTerms;
    var st := EvalState(Node(key.value, IdBit(key.id)), ZeroProof());
    var share := I.g.zero;
    for level := 0 to |input|
      invariant level <= |pub.cw| && level <= |pub.cs| && level <= MAX_LEVELS
      invariant (st, share) == EvalSpec(I, key, pub, input, level)
    {
      if level >= |pub.cw| || level >= |pub.cs| {
        return Failure(IndexLevel);
      }
      if level >= MAX_LEVELS {
        return Failure(LevelTooBig);
      }
      var (st', share') := EvalNext(I, key.id, pub.cw[level], pub.cs[level], input[..level + 1], st);
      st, share := st', share';
    }
    ProofIsChain(I, key, pub, input, |input|);
    return Success(ValueShare(share, st.proof));
  }

  // ------------------------------------------------------------------ correctness

  lemma {:induction false} GenSpecAt<W>(I: VidpfInstance<W>, keys: (Key, Key), input: seq<bool>, weight: W, n: nat, k: nat)
    requires k < n <= |input|
    ensures var (pub, _, _) := GenSpec(I, keys, input, weight, n);
            var (_, n0, n1) := GenSpec(I, keys, input, weight, k);
            var (cw, m0, m1) := GenStep(I, input[k], weight, n0, n1);
            && pub.cw[k] == cw
            && pub.cs[k] == XorProof(I.nodeProof(input[..k + 1], m0.key), I.nodeProof(input[..k + 1], m1.key))
            && (GenSpec(I, keys, input, weight, k + 1).1, GenSpec(I, keys, input, weight, k + 1).2) == (m0, m1)
  {
    hide GenStep, XorProof;
    if k < n - 1 {
      GenSpecAt(I, keys, input, weight, n - 1, k);
    }
  }

  /** Both generation and evaluation start at a key's value, with the control bit clear for S0 and set for S1. */
  lemma {:induction false} RootNodes<W>(I: VidpfInstance<W>, keys: (Key, Key), pub: VidpfPublicShare<W>, input: seq<bool>, weight: W)
    ensures GenSpec(I, keys, input, weight, 0).1 == Node(keys.0.value, keys.0.id == S1) && GenSpec(I, keys, input, weight, 0).2 == Node(keys.1.value, keys.1.id == S1)
    ensures EvalSpec(I, keys.0, pub, input, 0).0.node == Node(keys.0.value, keys.0.id == S1)
  {
  }

  /** The two evaluators after n levels: generator nodes on the path, equal nodes off it, and equal
      proofs always. */
  lemma {:induction false} EvalInvariant<W(!new)>(I: VidpfInstance<W>, keys: (Key, Key), input: seq<bool>, weight: W, x: seq<bool>, n: nat)
    requires IsGroup(I.g) && Generates(I.g, I.x) && I.g.has(weight) && keys.0.id != keys.1.id && n <= |x| <= |input|
    ensures var pub := Public(I, keys, input, weight);
            var (_, n0, n1) := GenSpec(I, keys, input, weight, n);
            var st0, st1 := EvalSpec(I, keys.0, pub, x, n).0, EvalSpec(I, keys.1, pub, x, n).0;
            && OnPath(n0, n1)
            && st0.proof == st1.proof
            && (x[..n] <= input ==> st0.node == n0 && st1.node == n1)
            && (!(x[..n] <= input) ==> st0.node == st1.node)
  {
    hide IsGroup, Generates, GenStep, GenLevel, EvalLevel, XorProof;
    if n > 0 {
      var pub := Public(I, keys, input, weight);
      var (_, n0, n1) := GenSpec(I, keys, input, weight, n - 1);
      EvalInvariant(I, keys, input, weight, x, n - 1);
      GenSpecAt(I, keys, input, weight, |input|, n - 1);
      assert x[..n][..n - 1] == x[..n - 1];
      PrefixStep(x[..n], input);
      GenStepIsGenLevel(I, input[n - 1], weight, n0, n1);
      var st0, st1 := EvalSpec(I, keys.0, pub, x, n - 1).0, EvalSpec(I, keys.1, pub, x, n - 1).0;
      NodeStep(I, keys, input[n - 1], weight, n0, n1, st0.node, st1.node, x[n - 1], x[..n - 1] <= input);
      ProofStep(I, keys, pub, input, weight, x, n);
    }
  }

  /** The node part of one step, whichever party evaluates as leader. */
  lemma {:induction false} NodeStep<W>(I: VidpfInstance<W>, keys: (Key, Key), alpha: bool, weight: W, n0: Node, n1: Node, s0: Node, s1: Node, b: bool, onPath: bool)
    requires OnPath(n0, n1)
    requires onPath ==> s0 == n0 && s1 == n1
    requires !onPath ==> s0 == s1
    ensures var (cw, m0, m1) := GenLevel(I.g, I.x, alpha, weight, n0, n1);
            var e0 := EvalLevel(I.g, I.x, keys.0.id.S0?, s0, cw, b).0;
            var e1 := EvalLevel(I.g, I.x, keys.1.id.S0?, s1, cw, b).0;
            && OnPath(m0, m1)
            && (onPath && b == alpha ==> e0 == m0 && e1 == m1)
            && (!(onPath && b == alpha) ==> e0 == e1)
  {
    var (cw, _, _) := GenLevel(I.g, I.x, alpha, weight, n0, n1);
    Corrections(I.g, I.x, alpha, weight, n0, n1, b);
    Corrections(I.g, I.x, alpha, weight, n0, n1, alpha);
    hide GenLevel, EvalLevel;
    SameNode(I.g, I.x, s0, cw, b);
    SameNode(I.g, I.x, s1, cw, b);
  }

  /** The proof part: the correction makes both parties hash the same value. */
  lemma {:induction false} ProofStep<W(!new)>(I: VidpfInstance<W>, keys: (Key, Key), pub: VidpfPublicShare<W>, input: seq<bool>, weight: W, x: seq<bool>, n: nat)
    requires IsGroup(I.g) && Generates(I.g, I.x) && I.g.has(weight) && 0 < n <= |x| <= |input| && pub == Public(I, keys, input, weight)
    requires EvalSpec(I, keys.0, pub, x, n - 1).0.proof == EvalSpec(I, keys.1, pub, x, n - 1).0.proof
    requires var (_, m0, m1) := GenSpec(I, keys, input, weight, n);
             var e0, e1 := EvalSpec(I, keys.0, pub, x, n).0.node, EvalSpec(I, keys.1, pub, x, n).0.node;
             && OnPath(m0, m1)
             && (x[..n] <= input ==> e0 == m0 && e1 == m1)
             && (!(x[..n] <= input) ==> e0 == e1)
    ensures EvalSpec(I, keys.0, pub, x, n).0.proof == EvalSpec(I, keys.1, pub, x, n).0.proof
  {
    hide IsGroup, Generates, GenStep, EvalLevel, XorProof, ConditionalXorProof;
    GenSpecAt(I, keys, input, weight, |input|, n - 1);
    var (_, m0, m1) := GenSpec(I, keys, input, weight, n);
    if x[..n] <= input {
      assert x[..n] == input[..n];
      var p0, p1 := I.nodeProof(input[..n], m0.key), I.nodeProof(input[..n], m1.key);
      XorProofCancels(p0, p1);
      ConditionalXorProofMeans(p0, pub.cs[n - 1], m0.bit);
      ConditionalXorProofMeans(p1, pub.cs[n - 1], m1.bit);
    }
  }

  /** What the shares add up to on the path: the sign depends on the order of the key identifiers. */
  function SignedWeight<W>(I: VidpfInstance<W>, keys: (Key, Key), weight: W): W {
    if keys.0.id.S0? then weight else I.g.neg(weight)
  }

  /** The sum of the two shares at level n of an input x. */
  function ShareTotal<W>(I: VidpfInstance<W>, keys: (Key, Key), pub: VidpfPublicShare<W>, x: seq<bool>, n: nat): W
    requires n <= |x| && n <= |pub.cw| && n <= |pub.cs|
  {
    I.g.add(EvalSpec(I, keys.0, pub, x, n).1, EvalSpec(I, keys.1, pub, x, n).1)
  }

  /** Correctness at every level, for both orders of the keys. */
  lemma {:induction false} VidpfCorrect<W(!new)>(I: VidpfInstance<W>, keys: (Key, Key), input: seq<bool>, weight: W, x: seq<bool>, n: nat)
    requires IsGroup(I.g) && Generates(I.g, I.x) && I.g.has(weight) && keys.0.id != keys.1.id && 1 <= n <= |x| <= |input|
    ensures ShareTotal(I, keys, Public(I, keys, input, weight), x, n)
         == if x[..n] <= input then SignedWeight(I, keys, weight) else I.g.zero
    ensures EvalSpec(I, keys.0, Public(I, keys, input, weight), x, n).0.proof
         == EvalSpec(I, keys.1, Public(I, keys, input, weight), x, n).0.proof
  {
    hide *;
    ProofsAgree(I, keys, input, weight, x, n);
    SharesAgree(I, keys, input, weight, x, n);
  }

  lemma {:induction false} ProofsAgree<W(!new)>(I: VidpfInstance<W>, keys: (Key, Key), input: seq<bool>, weight: W, x: seq<bool>, n: nat)
    requires IsGroup(I.g) && Generates(I.g, I.x) && I.g.has(weight) && keys.0.id != keys.1.id && 1 <= n <= |x| <= |input|
    ensures EvalSpec(I, keys.0, Public(I, keys, input, weight), x, n).0.proof
         == EvalSpec(I, keys.1, Public(I, keys, input, weight), x, n).0.proof
  {
    hide *;
    EvalInvariant(I, keys, input, weight, x, n);
  }

  lemma {:induction false} SharesAgree<W(!new)>(I: VidpfInstance<W>, keys: (Key, Key), input: seq<bool>, weight: W, x: seq<bool>, n: nat)
    requires IsGroup(I.g) && Generates(I.g, I.x) && I.g.has(weight) && keys.0.id != keys.1.id && 1 <= n <= |x| <= |input|
    ensures ShareTotal(I, keys, Public(I, keys, input, weight), x, n)
         == if x[..n] <= input then SignedWeight(I, keys, weight) else I.g.zero
  {
    hide *;
    var pub := Public(I, keys, input, weight);
    var (_, n0, n1) := GenSpec(I, keys, input, weight, n - 1);
    EvalInvariant(I, keys, input, weight, x, n - 1);
    GenSpecAt(I, keys, input, weight, |input|, n - 1);
    PublicIs(I, keys, input, weight);
    GenStepIsGenLevel(I, input[n - 1], weight, n0, n1);
    assert x[..n][..n - 1] == x[..n - 1];
    PrefixStep(x[..n], input);
    var s0, s1 := EvalSpec(I, keys.0, pub, x, n - 1).0.node, EvalSpec(I, keys.1, pub, x, n - 1).0.node;
    ShareOf(I, keys, pub, x, n);
    ShareSum(I, keys, input[n - 1], weight, n0, n1, s0, s1, x[n - 1], x[..n - 1] <= input);
  }

  lemma {:induction false} PublicIs<W>(I: VidpfInstance<W>, keys: (Key, Key), input: seq<bool>, weight: W)
    ensures Public(I, keys, input, weight) == GenSpec(I, keys, input, weight, |input|).0
  {
    hide GenSpec;
  }

  lemma {:induction false} ShareOf<W>(I: VidpfInstance<W>, keys: (Key, Key), pub: VidpfPublicShare<W>, x: seq<bool>, n: nat)
    requires 0 < n <= |x| && n <= |pub.cw| && n <= |pub.cs|
    ensures ShareTotal(I, keys, pub, x, n)
         == I.g.add(EvalLevel(I.g, I.x, keys.0.id.S0?, EvalSpec(I, keys.0, pub, x, n - 1).0.node, pub.cw[n - 1], x[n - 1]).1,
                    EvalLevel(I.g, I.x, keys.1.id.S0?, EvalSpec(I, keys.1, pub, x, n - 1).0.node, pub.cw[n - 1], x[n - 1]).1)
  {
    hide EvalLevel, XorProof;
  }

  lemma {:induction false} ShareSum<W(!new)>(I: VidpfInstance<W>, keys: (Key, Key), alpha: bool, weight: W, n0: Node, n1: Node, s0: Node, s1: Node, b: bool, onPath: bool)
    requires IsGroup(I.g) && Generates(I.g, I.x) && I.g.has(weight) && keys.0.id != keys.1.id && OnPath(n0, n1)
    requires onPath ==> s0 == n0 && s1 == n1
    requires !onPath ==> s0 == s1
    ensures var cw := GenLevel(I.g, I.x, alpha, weight, n0, n1).0;
            I.g.add(EvalLevel(I.g, I.x, keys.0.id.S0?, s0, cw, b).1, EvalLevel(I.g, I.x, keys.1.id.S0?, s1, cw, b).1)
            == if onPath && b == alpha then SignedWeight(I, keys, weight) else I.g.zero
  {
    hide IsGroup, Generates, GenLevel, EvalLevel;
    var g, cw := I.g, GenLevel(I.g, I.x, alpha, weight, n0, n1).0;
    LevelShares(g, I.x, alpha, weight, n0, n1, s0, cw, b, onPath);
    WordInGroup(g, I.x, alpha, weight, n0, n1);
    NegZero(g);
    if keys.0.id.S1? {
      // each party computes the negation of what it would compute in the other role
      OppositeShares(g, I.x, s0, cw, b);
      OppositeShares(g, I.x, s1, cw, b);
      var y0, y1 := EvalLevel(g, I.x, true, s0, cw, b).1, EvalLevel(g, I.x, false, s1, cw, b).1;
      ShareInGroup(g, I.x, true, s0, cw, b);
      ShareInGroup(g, I.x, false, s1, cw, b);
      GroupNegAdd(g, y0, y1);
    }
  }

  lemma {:induction false} OppositeShares<V(!new)>(g: Group<V>, x: LevelXof<V>, n: Node, cw: CorrectionWord<V>, b: bool)
    requires IsGroup(g) && Generates(g, x) && g.has(cw.value)
    ensures EvalLevel(g, x, false, n, cw, b).1 == g.neg(EvalLevel(g, x, true, n, cw, b).1)
    ensures EvalLevel(g, x, true, n, cw, b).1 == g.neg(EvalLevel(g, x, false, n, cw, b).1)
  {
    hide IsGroup, Generates, ConditionalSelectSeed, ConditionalXorSeeds, Extend;
    ShareInGroup(g, x, true, n, cw, b);
    GroupNegNeg(g, EvalLevel(g, x, true, n, cw, b).1);
  }

  lemma {:induction false} NegZero<V(!new)>(g: Group<V>)
    requires IsGroup(g)
    ensures g.neg(g.zero) == g.zero && g.has(g.zero)
  {
    assert g.has(g.zero);
    hide IsGroup;
    GroupZero(g, g.zero);
    GroupInverseUnique(g, g.zero, g.zero);
  }

  /** The promise of `gen` holds for a pair of distinct keys exactly when they are ordered S0, S1,
      or the weight is its own negation. */
  lemma {:induction false} CorrectIffOrdered<W(!new)>(I: VidpfInstance<W>, keys: (Key, Key), input: seq<bool>, weight: W, x: seq<bool>, n: nat)
    requires IsGroup(I.g) && Generates(I.g, I.x) && I.g.has(weight) && keys.0.id != keys.1.id && 1 <= n <= |x| <= |input| && x[..n] <= input
    ensures ShareTotal(I, keys, Public(I, keys, input, weight), x, n) == weight
            <==> keys.0.id == S0 || I.g.neg(weight) == weight
  {
    hide IsGroup, Generates, EvalSpec, GenSpec, ShareTotal, Public;
    VidpfCorrect(I, keys, input, weight, x, n);
  }

  /** On the empty input both shares are zero, although it is a prefix of every input. */
  lemma {:induction false} EmptyInput<W(!new)>(I: VidpfInstance<W>, keys: (Key, Key), input: seq<bool>, weight: W)
    requires IsGroup(I.g)
    ensures [] <= input && ShareTotal(I, keys, Public(I, keys, input, weight), [], 0) == I.g.zero
  {
    hide IsGroup, Public;
    NegZero(I.g);
    GroupZero(I.g, I.g.zero);
  }

  // ------------------------------------------------------------------ weights

  /** `VidpfWeight`: vectors of one length over a prime field, added and negated element by element.
      Operations on different lengths panic in the source; here they give the empty vector. */
  function WeightGroup(p: int, len: nat): Group<seq<int>>
    requires p > 1
  {
    Group((v: seq<int>) => |v| == len && forall i :: 0 <= i < |v| ==> 0 <= v[i] < p,
          seq(len, _ => 0),
          (a: seq<int>, b: seq<int>) => if |a| != |b| then [] else seq(|a|, i requires 0 <= i < |a| && |a| == |b| => Res(p, a[i] + b[i])),
          (a: seq<int>) => seq(|a|, i requires 0 <= i < |a| => Res(p, -a[i])))
  }

  lemma {:induction false} WeightsAreGroup(p: int, len: nat)
    requires p > 1
    ensures IsGroup(WeightGroup(p, len))
  {
    var g := WeightGroup(p, len);
    forall a: seq<int>, b: seq<int>, c: seq<int> ensures GroupLaws(g, a, b, c) {
      if g.has(a) && g.has(b) && g.has(c) {
        WeightLaws(p, len, a, b, c);
      }
    }
  }

  lemma {:induction false} WeightLaws(p: int, len: nat, a: seq<int>, b: seq<int>, c: seq<int>)
    requires p > 1 && WeightGroup(p, len).has(a) && WeightGroup(p, len).has(b) && WeightGroup(p, len).has(c)
    ensures GroupLaws(WeightGroup(p, len), a, b, c)
  {
    hide Res;
    var g := WeightGroup(p, len);
    forall i | 0 <= i < len
      ensures Res(p, a[i] + 0) == a[i] && Res(p, a[i] + Res(p, -a[i])) == 0
      ensures Res(p, Res(p, a[i] + b[i]) + c[i]) == Res(p, a[i] + Res(p, b[i] + c[i]))
    {
      ResidueGroup(p, a[i], b[i], c[i]);
    }
    assert g.add(a, b) == g.add(b, a);
    assert g.add(a, g.zero) == a;
    assert g.add(a, g.neg(a)) == g.zero;
    assert g.add(g.add(a, b), c) == g.add(a, g.add(b, c));
  }
}
