# A verified model of libprio-rs

libprio-rs implements verifiable distributed aggregation functions: a client splits a measurement
into secret shares, aggregators check that the shares encode a valid measurement without seeing it,
and the collector learns only the aggregate. This project models the algebra and the state machines
behind it and proves that they do what they are for:

- **The fully linear proof system** (section 7.3 of draft-irtf-cfrg-vdaf-08), from the in-place FFT up
  to `prove`, `query` and `decide`. Completeness holds for every split into shares, soundness follows
  by counting roots, and the configurations in which all honest proofs are accepted are determined
  exactly. Prio3 is built on it, with an end-to-end theorem from measurements to the unsharded result
  for Count, Sum, SumVec and Histogram, and a soundness theorem for reports of any client.
- **Distributed point functions**: the IDPF with its caches and codec, the VIDPF of
  draft-mouris-cfrg-mastic-02, and Poplar1 (section 8 of draft-irtf-cfrg-vdaf-08) with its two-round
  sketch, from sharding to exact prefix counts, and the exact condition for accepting any report.
- **Montgomery arithmetic** on one and two 64-bit limbs, with every carry.
- **Protocol and stream machines**: the ping-pong topology (section 5.8 of draft-irtf-cfrg-vdaf-08),
  the buffered rejection sampler, the fixed-key stream, the append-only binary tree with its
  explicit-stack codec.

`dafny verify dfyconfig.toml` checks the whole project.

## How the model is laid out

| files | what they hold |
|---|---|
| `Wrappers`, `Codec`, `Powers`, `Congruence`, `Sums` | options and results, byte codecs as inverse pairs, powers of two, congruences, finite sums |
| `Field` | residues modulo an arbitrary prime with a table of roots of unity; inverses by Fermat's theorem |
| `Fft`, `InverseFft`, `RecursiveFft`, `Polynomial` | transforms, interpolation, polynomial arithmetic, root counting |
| `Gadgets`, `FlpTypes`, `Flp`, `FlpCompleteness`, `FlpSoundness`, `FlpExactness` | gadgets, circuits, the proof system and its theorems |
| `Bitvector`, `FlpOutput`, `FixedPointL2`, `ChunkLength` | encodings and results, the fixed-point norm check, the choice of chunk length |
| `Prio3`, `Prio3Correct`, `Prio3Soundness` | sharding, preparation, aggregation; the honest run; what any accepted report says |
| `Idpf`, `IdpfEval`, `BitPacking`, `PublicShareCodec`, `Vidpf` | the point functions, evaluation with caches, the bit-packed codec |
| `Poplar1`, `Poplar1Correct`, `Poplar1Sound` | Poplar1, its honest runs, and when any report is accepted |
| `AggParamCodec`, `CodecLayout` | the aggregation parameter codec; what the packed encodings are as numbers |
| `MontgomeryDomain`, `Montgomery`, `Montgomery64` | limb arithmetic |
| `PingPong`, `Prng`, `BinaryTree` | the protocol and stream machines, the tree |

Modelling conventions:

- Field elements are integers below `Field.P`, an arbitrary odd prime. The table of roots satisfies
  root(0) = 1, root(1) = -1 and root(l)^2 = root(l-1), and its length is arbitrary (the source
  tabulates 20 levels); primality and these relations are the assumptions on the concrete parameters.
- Extendable output functions, AES and hashing are arbitrary total functions; randomness is a
  parameter. Values of point functions form an arbitrary abelian group, and the groups that are used
  are proved to be groups.
- Machine words are unbounded integers except where width matters: limbs and carries in the
  Montgomery files, the 16-bit product in Poplar1, bit reversal, the limits checked by the codecs and
  by the aggregation parameter.
- State that the source updates in place is a class or an array: the shim gadgets, the FFT buffers,
  the caches, the sampler, the key stream, the tree.

## What turned out not to hold everywhere

- `ParallelSum::call_poly` does not clear its partial buffer between chunks, and direct multiplication
  writes only the trimmed product, so a shorter product inherits coefficients of an earlier one. A sum
  of multiplications writes the right polynomial for all wires if and only if it has one chunk, makes
  at least 16 calls (the FFT path) or makes none (`Gadgets.StaleExample`,
  `FlpExactness.ConfigurationExactIff`). For every measurement, no randomness makes the honest proof
  wrong if and only if the circuit is Count or Sum, has chunk length one, or makes at least 16 calls
  (`FlpExactness.StaleFreeIff`), and in every field of at least 47 elements that is also the exact
  condition for all honest proofs of a valid measurement to be accepted
  (`FlpExactness.CompletenessIff`). In all other configurations joint randomness zero and a prover
  randomness that is one on the wires of the second to last chunk give a rejected proof. Per call, the
  error is exactly the sum of the leftovers (`Gadgets.CallPolyExactIff`), and for two chunks it
  vanishes exactly when the second product is not shorter (`Gadgets.TwoChunksExactIff`).
- Poplar1 skips three offsets per level with a 16-bit product, which wraps (in builds without overflow
  checks) above level 21845. An honest report is accepted for all correlation streams if and only if
  the level is the leaf level or at most 21845 (`Poplar1Correct.AcceptedIffAligned`).
- VIDPF `gen_with_keys` accepts any two distinct key identifiers; the shares add to the weight if and
  only if the keys are ordered S0, S1 or the weight is its own negation (`Vidpf.CorrectIffOrdered`).
  The empty input, a prefix of every input, evaluates to zero (`Vidpf.EmptyInput`).
- The comment above the IDPF codec describes the control bits as a big-endian byte string; the code
  emits the packed bytes in order, and the model follows the code.

## Model

| member | source | states |
|---|---|---|
| Fft.DiscreteFourierTransform | src/fft.rs:32-89 | bit-reversed copy and in-place butterflies leave the naive transform of the zero-padded input in the first `size` cells, touch nothing else, and report the three size errors exactly when they apply |
| Fft.BitRevIsReverse | src/fft.rs:122-124 | the shift-and-or expression reverses the first d bits |
| Fft.ButterflyValue | src/fft.rs:60-87 | a transform's two halves are the sum and difference of the even transform and the twisted odd transform |
| Fft.LevelStep | src/fft.rs:60-87 | if every block holds a transform of its bit-reversed part, one level of butterflies establishes the same for blocks of twice the size |
| Fft.Level | src/fft.rs:67-87 | the two inner loops with their running twiddle apply the butterfly with the right power to every cell |
| InverseFft.Orthogonality | src/fft.rs:106-119 | the powers of the root sum to 2^l when the exponent is a multiple of 2^l and to zero otherwise |
| InverseFft.DiscreteFourierTransformInvFinish | src/fft.rs:106-119 | reverses all but the first element and scales every element, once (twice for size one) |
| InverseFft.InverseTransform | src/fft.rs:93-102 | transform and finish together compute the inverse transform |
| InverseFft.InverseOfDft | src/fft.rs:93-102 | the inverse transform of the transform is the zero-padded input |
| InverseFft.DftOfInverse | src/fft.rs:93-102 | the transform of the inverse transform is the zero-padded input, so the inverse interpolates |
| RecursiveFft.HalfSize | src/polynomial.rs:49-104 | even and odd values of a transform are values of half-size transforms of the folded and the twisted input |
| RecursiveFft.FftRecurse | src/polynomial.rs:49-104 | the recursion computes every value of the transform for any root of the right order |
| RecursiveFft.FftGetRoots | src/polynomial.rs:107-126 | the powers of the root of order `count`, or of its inverse, from a generator of any larger order |
| RecursiveFft.PolyFft | src/polynomial.rs:128-162 | the recursive FFT returns the same transform as the iterative one, and with `invert` its inverse |
| Polynomial.PolyEval | src/polynomial.rs:165-177 | Horner's loop evaluates the polynomial |
| Polynomial.PolyDeg | src/polynomial.rs:180-186 | the index of the last nonzero coefficient, zero for the zero polynomial |
| Polynomial.PolyMul | src/polynomial.rs:189-200 | the product with leading zeros removed, never empty |
| Polynomial.EvalMul | src/polynomial.rs:189-200 | evaluating a product is multiplying the values |
| Polynomial.PolyRangeCheck | src/polynomial.rs:217-225 | the polynomial vanishes exactly on the range |
| Polynomial.DftIsEval | src/fft.rs:32-89 | the transform lists the values of the polynomial at the powers of the root |
| Polynomial.FactorTheorem | src/flp.rs:476-505 | p(x) = p(a) + (x - a) q(x), the step of root counting |
| Polynomial.RootCounting | src/flp.rs:476-505 | a polynomial with as many distinct roots as coefficients is zero |
| Polynomial.AgreeEverywhere | src/flp.rs:476-505 | polynomials that agree at as many points as they have coefficients are the same |
| Gadgets.MulDirect | src/flp/gadgets.rs:47-55 | writes the trimmed product and leaves the rest of the buffer as it was |
| Gadgets.MulFft | src/flp/gadgets.rs:58-72 | writes the whole zero-padded product, or fails when the size exceeds the root table |
| Gadgets.PolyEvalDirect | src/flp/gadgets.rs:138-151 | on a zeroed buffer, writes the composition of the polynomial with the wire |
| Gadgets.PolyEvalFft | src/flp/gadgets.rs:154-181 | writes the same coefficients as the direct path |
| Gadgets.SumPoly | src/flp/gadgets.rs:259-276 | the accumulation loop, including what the uncleared partial buffer contributes |
| Gadgets.CallPoly | src/flp/gadgets.rs:81-88 | for every gadget: which inputs are refused, when the FFT fails, and the exact contents of the buffer otherwise |
| Gadgets.GadgetHomomorphism | src/flp/gadgets.rs:250-276 | evaluating the gadget polynomial at r is calling the gadget on the wires evaluated at r, for every gadget |
| Gadgets.GadgetPolyFits | src/flp.rs:742-751 | the gadget polynomial has at most `gadget_poly_len` coefficients |
| Gadgets.MemLenFacts | src/flp/gadgets.rs:463-465 | the buffer length is a power of two with room for the wires and the gadget polynomial |
| Gadgets.CallPolyExactIff | src/flp/gadgets.rs:259-276 | on a zeroed buffer, `call_poly` writes the gadget polynomial by either path, if and only if no stale coefficients remain |
| Gadgets.DirectSumIs | src/flp/gadgets.rs:264-273 | for any number of chunks, a sum of direct products is the true sum plus the coefficients that earlier chunks left behind |
| Gadgets.NonShrinkingExact | src/flp/gadgets.rs:264-273 | if no trimmed product is shorter than an earlier one, nothing stale is added |
| Gadgets.TwoChunksExactIff | src/flp/gadgets.rs:264-273 | for two chunks nothing cancels: no stale coefficients if and only if the second product is at least as long |
| Gadgets.RaisePower | src/flp/gadgets.rs:154-181 | one step of the FFT path: from the values of f^i, the coefficients and the values of f^(i+1) |
| Gadgets.StaleExample | src/flp/gadgets.rs:264-273 | a concrete pair of chunks for which the written polynomial is wrong |
| FlpTypes.DeclaredLengths | src/flp/types.rs:333-361 | the proof and verifier lengths each type declares are those that `prove` and `query` derive from its gadget |
| FlpTypes.WireRowAdd | src/flp/types.rs:734-769 | gadget inputs are additive in the input share and the constant 1/shares, padded chunks included |
| FlpTypes.OutputAdd | src/flp/types.rs:406-433 | circuit outputs are additive in the input share, the gadget outputs and the constant |
| Flp.Shim.ForProve | src/flp.rs:601-616 | the wire table starts with the prover randomness in column zero |
| Flp.Shim.ForQuery | src/flp.rs:671-706 | the wire table starts with the seeds of the proof |
| Flp.Shim.Call | src/flp.rs:709-717 | each call records its inputs in the next column and answers with the gadget or with the stored value of the proof polynomial |
| Flp.CallGadgetOnVecEntries | src/flp/types.rs:678-690 | calls the gadget on each entry and returns the sum weighted by powers of the joint randomness |
| Flp.FillChunk | src/flp/types.rs:745-765 | fills a chunk of multiplication arguments, padding the last one, and keeps the power running |
| Flp.ParallelSumRangeChecks | src/flp/types.rs:734-769 | records every chunk in the wire table and returns the sum of the gadget's answers |
| Flp.SumCheck | src/flp/types.rs:416-421 | the sum of the buckets minus the share of one |
| Flp.RunCircuit | src/flp/types.rs:406-433 | for every type, the circuit's output as a function of the shim's answers, the errors, and the complete wire table it leaves |
| Flp.NewQueryShim | src/flp.rs:672-706 | stores the proof polynomial's values at the roots of unity and its value at the query point |
| Flp.Prove | src/flp.rs:225-345 | the seeds followed by the gadget polynomial of the interpolated wires; length and size errors exactly when they apply |
| Flp.Query | src/flp.rs:357-473 | circuit output, wires at the query point and claimed gadget output; refuses a query point that is an m-th root of unity |
| Flp.Decide | src/flp.rs:476-505 | accepts exactly when the output is zero and the gadget on the wire values gives the claimed value |
| FlpCompleteness.QueryAdditive | src/flp.rs:357-473 | `query` is additive in input share, proof share and constant together |
| FlpCompleteness.QuerySum | src/flp.rs:357-473 | the sum of n verifier shares is the verifier of the summed shares |
| FlpCompleteness.HonestAnswers | src/flp.rs:709-717 | if the proof carries the gadget polynomial, the query shim answers every call as the gadget would |
| FlpCompleteness.HonestProofPoly | src/flp.rs:225-345 | the honest proof carries the gadget polynomial if and only if nothing stale was added |
| FlpCompleteness.HonestAccepted | src/flp.rs:476-505 | an honest proof of an input on which the circuit vanishes is accepted at every query point |
| FlpCompleteness.StaleFreeTypes | src/flp/gadgets.rs:81-88 | Count, Sum, every circuit of chunk length one and every circuit of at least 16 calls leave nothing stale, for all inputs and randomness |
| FlpCompleteness.HonestVerifier | src/flp.rs:357-473 | the verifier of an honest proof is the circuit's value, the wires at the query point and the gadget on them |
| FlpExactness.SpikeStale | src/flp/gadgets.rs:264-273 | when only the second to last product is nonzero and it is not constant, its leading coefficient is added twice |
| FlpExactness.ConfigurationExactIff | src/flp/gadgets.rs:259-276 | `call_poly` of a sum of multiplications is right for all wires if and only if there is one chunk, no call, or at least 16 calls |
| FlpExactness.StaleProof | src/flp.rs:225-345 | in every other circuit configuration, and for every measurement, explicit randomness leaves a product behind |
| FlpExactness.StaleFreeIff | src/flp.rs:225-345 | for every input: no randomness makes the honest proof stale if and only if the configuration is Count, Sum, chunk length one, or at least 16 calls |
| FlpExactness.FewRoots | src/flp.rs:357-473 | `query` refuses at most m points |
| FlpExactness.CompletenessIff | src/flp.rs:225-505 | for every valid measurement, in fields of at least 47 elements: all honest proofs are accepted at all admitted query points if and only if the configuration is one of these |
| FlpCompleteness.DistributedCompleteness | src/flp.rs:225-505 | for every split of input and honest proof into 1 <= n < p shares, the summed verifier is accepted |
| FlpSoundness.SumCircuit | src/flp/types.rs:162-171 | the Sum circuit on the real gadget is the weighted sum of x(x-1) |
| FlpSoundness.ChunkedCircuit | src/flp/types.rs:734-769 | chunking and padding do not change the weighted sum of x(x-1) |
| FlpSoundness.CountCircuit | src/flp/types.rs:61-70 | Count computes x^2 - x for every input |
| FlpSoundness.SumVecCircuit | src/flp/types.rs:615-631 | SumVec computes the weighted sum of x(x-1) for every input and joint randomness |
| FlpSoundness.HistogramCircuit | src/flp/types.rs:406-433 | Histogram computes the range check times the second joint randomness value plus the sum check times its square, for every input |
| FlpSoundness.OutputDeviates | src/flp.rs:357-473 | with any gadget answers, the output is the circuit's value plus the answers' deviation from the gadget's, with the circuit's weights |
| FlpSoundness.ValidVanishes | src/flp/types.rs:61-70 | the circuit of every type is zero on valid inputs, for all joint randomness |
| FlpSoundness.ValidAccepted | src/flp.rs:225-505 | every valid measurement, however it and its honest proof are shared, is accepted in every configuration that is never stale |
| FlpSoundness.ConvincingPoly | src/flp.rs:476-505 | any proof accepted at more than 2(m-1) points carries the real gadget's polynomial on the wires it commits to |
| FlpSoundness.ProofSoundness | src/flp.rs:476-505 | any such proof forces the circuit on the real gadget to be zero |
| FlpSoundness.HonestAcceptedIff | src/flp.rs:225-505 | the honest proof is accepted at more than 2(m-1) points if and only if nothing stale was added |
| FlpSoundness.WeightedSoundness | src/flp/types.rs:678-690 | if the weighted bit checks vanish at more points than there are entries, every entry is a bit |
| FlpSoundness.JointRandSoundness | src/flp/types.rs:162-171 | for Sum and SumVec, an input with an entry that is no bit survives at most as many joint randomness values as it has entries |
| FlpSoundness.SumSoundness | src/flp.rs:476-505 | the two counts combined: convincing proofs under more joint randomness values than entries force a vector of bits |
| FlpSoundness.CountSoundness | src/flp/types.rs:61-70 | the Count circuit vanishes exactly on zero and one |
| FlpSoundness.HistogramSoundness | src/flp/types.rs:406-433 | the range and sum checks together force bits with sum one, which are exactly one one among zeros when the length is below the modulus |
| FlpSoundness.HistogramProofSoundness | src/flp.rs:476-505 | convincing proofs under more joint randomness values than buckets exist for one-hot vectors only |
| FlpSoundness.DistributedSoundness | src/flp.rs:476-505 | whatever shares the verifiers hold, summed verifiers accepted at more than 2(m-1) points force the circuit to be zero on the summed input |
| Bitvector.EncodeAsBitvector | src/field.rs:227-247 | the bits of the input, refusing bit lengths and inputs that are too large |
| Bitvector.DecodeBitvector | src/field.rs:261-275 | the value at two of the polynomial with these coefficients |
| Bitvector.DecodeBits | src/field.rs:261-275 | decoding the bits of m gives m |
| FixedPointL2.NormBound | src/flp/types/fixedpoint_l2.rs:253-348 | the squared norm of d entries of n bits is at most d 2^(2n-2), the bound `new` checks |
| FixedPointL2.NormFits | src/flp/types/fixedpoint_l2.rs:253-348 | whenever `new` accepts, the squared norm never wraps |
| FixedPointL2.ComputeNorm | src/flp/types/fixedpoint_l2.rs:654-680 | the loop returns the residue of the integer squared norm |
| FixedPointL2.NormPolyValue | src/flp/types/fixedpoint_l2.rs:253-348 | the gadget polynomial evaluates to the same summand |
| FixedPointL2.EncodeMeasurement | src/flp/types/fixedpoint_l2.rs:409-438 | succeeds exactly when the length is right and the squared norm is below 2^(2n-2), with the bits of entries and norm |
| FixedPointL2.ChunkedNormIs | src/flp/types/fixedpoint_l2.rs:481-573 | the chunked norm equals the norm for every chunk length, padded last chunk included |
| FixedPointL2.HonestVanishes | src/flp/types/fixedpoint_l2.rs:481-573 | the encoding of every vector of norm below one makes the circuit zero for all joint randomness |
| FixedPointL2.NormCheckSound | src/flp/types/fixedpoint_l2.rs:481-573 | bits that pass the norm check are the encoding of a vector of norm below one |
| FixedPointL2.FixedPointCircuit | src/flp/types/fixedpoint_l2.rs:481-573 | for every input, the circuit computes the range check times the second joint randomness value plus the norm comparison times its square |
| FixedPointL2.FixedPointSoundness | src/flp/types/fixedpoint_l2.rs:481-573 | a circuit that vanishes for more joint randomness values than bits forces the encoding of a vector of norm below one |
| ChunkLength.SumVecProofLength | src/flp/types.rs:646-648 | SumVec has the proof length of a Histogram over as many entries as it has bits, so one optimum serves both |
| ChunkLength.CostIsEnough | src/vdaf/prio3.rs:1533-1564 | a candidate's estimated cost bounds its real proof length |
| ChunkLength.SomeCandidate | src/vdaf/prio3.rs:1533-1564 | every chunk length costs at least as much as some searched candidate |
| ChunkLength.OptimalChunkLength | src/vdaf/prio3.rs:1533-1564 | no chunk length gives a shorter proof than the returned one |
| FlpOutput.EncodeMeasurement | src/flp/types.rs:577-598 | the circuit input of every measurement of the four types, and the first encoding error |
| FlpOutput.EncodingIff | src/flp/types.rs:577-598 | a measurement is encoded if and only if it is in range |
| FlpOutput.EncodingTruncates | src/flp/types.rs:577-640 | a successful encoding is a valid input, and truncating it gives back the measurement's integers |
| FlpOutput.Truncate | src/flp/types.rs:633-640 | every coordinate of the output, or the length and bit length errors |
| FlpOutput.TruncatedAdd | src/flp/types.rs:633-640 | truncation is linear |
| FlpOutput.TruncatedSum | src/flp/types.rs:633-640 | truncated shares of an input add up to its truncation |
| Prio3.SplitVector | src/vdaf/prio3.rs:510-687 | subtracting every helper's stream in place leaves the leader's share |
| Prio3.ShardWithRandom | src/vdaf/prio3.rs:510-687 | public share and all input shares of a measurement; the randomness, encoding and proving errors exactly when they apply |
| Prio3.ShardEncoded | src/vdaf/prio3.rs:532-687 | measurement and proof shares of an encoded measurement as functions of the randomness |
| Prio3.PrepareInit | src/vdaf/prio3.rs:1160-1281 | the prepare state and share of any public and input share, or the first error |
| Prio3.SharesToMessage | src/vdaf/prio3.rs:1283-1337 | adds up the verifier shares, rejects wrong lengths and (in eight bits) counts, and fails exactly when some proof is not accepted |
| Prio3.PrepareNext | src/vdaf/prio3.rs:1339-1376 | the truncated measurement share, refusing another joint randomness seed |
| Prio3.Aggregate | src/vdaf/prio3.rs:1379-1390 | the element-wise sum, refusing a share of another length |
| Prio3.Unshard | src/vdaf/prio3.rs:1420-1432 | the integers of the merged aggregate shares |
| Prio3Correct.SharesSum | src/vdaf/prio3.rs:510-687 | leader and helper shares add up to the shared vector |
| Prio3Correct.SameParts | src/vdaf/prio3.rs:1160-1281 | every aggregator of an honest report reconstructs the client's joint randomness parts |
| Prio3Correct.HonestPreparation | src/vdaf/prio3.rs:1160-1376 | for any aggregator and proof count, all aggregators derive the same seed, the message step accepts, all finish, and their output shares add up to the truncated measurement |
| Prio3Correct.HonestReady | src/vdaf/prio3.rs:510-687 | every honest report of any type meets the conditions of preparation |
| Prio3Correct.HonestRun | src/vdaf/prio3.rs:510-1376 | the run of an honest report, from the measurement through sharding, preparation and truncation, succeeds with shares of the truncated measurement |
| Prio3Correct.GridSum | src/vdaf/prio3.rs:1379-1432 | aggregating per aggregator and then merging is summing per report and then over reports |
| Prio3Correct.BatchResult | src/vdaf/prio3.rs:510-1432 | the run of every honest batch of Count, Sum, SumVec or Histogram reports, from measurements to `unshard`, returns the integer totals whenever these are below the modulus and the configuration is never stale |
| Prio3Correct.SumOfBatch | src/vdaf/prio3.rs:510-1432 | for Prio3Sum the run returns the integer sum of the measurements |
| Prio3Soundness.MessageIff | src/vdaf/prio3.rs:1283-1337 | the message step succeeds if and only if all shares have the right form and number and every proof, from the first to the last, is accepted |
| Prio3Soundness.FinishedIff | src/vdaf/prio3.rs:1339-1376 | an output share is released if and only if the derived seed is the announced one and the share truncates; another seed is refused |
| Prio3Soundness.OwnPartStands | src/vdaf/prio3.rs:1160-1281 | an aggregator's own joint randomness part replaces the public one at its index and no other |
| Prio3Soundness.PreparedIff | src/vdaf/prio3.rs:1160-1281 | an aggregator prepares if and only if its index is valid and every query succeeds |
| Prio3Soundness.FinishedReport | src/vdaf/prio3.rs:1160-1376 | whatever shares a finished preparation had: all aggregators derived one seed, and the summed verifiers of every proof on these shares are accepted |
| Prio3Soundness.ReportSoundness | src/vdaf/prio3.rs:1160-1376 | a report of any client that finishes under more than 2(m-1) keys with distinct query points has a measurement on which the circuit is zero |
| Prio3Soundness.CountReport | src/vdaf/prio3.rs:1160-1376 | for Prio3Count such a report contributes zero or one |
| Prio3Soundness.ProofsReadOneStream | src/vdaf/prio3.rs:431-479 | joint randomness, prover randomness and proof shares of all proofs are consecutive pieces of their streams |
| Prio3Soundness.SeedsSpentOnce | src/vdaf/prio3.rs:510-687 | sharding uses every seed of the client exactly once, in order |
| Idpf.ConditionalXorMeans | src/idpf.rs:812-828 | the masked exclusive-or applies the correction exactly when the control bit is set |
| Idpf.ConditionalSelectMeans | src/idpf.rs:832-837 | the masked selection picks the seed named by the bit |
| Idpf.ExtendKeepsStream | src/idpf.rs:230-244 | the expansion is exactly the splitting of the stream's two halves into control bits and the rest, in order, with nothing lost |
| Idpf.EvalLevelMeans | src/idpf.rs:329-359 | one evaluation step, without masks: which half is taken, when it is corrected, when the value is added, whose share is negated |
| Idpf.RootNodes | src/idpf.rs:392-459 | both parties start at their seeds, the leader's control bit clear and the helper's set |
| Idpf.Corrections | src/idpf.rs:264-324 | one level: on the programmed side both parties get the generator's next nodes, whose control bits differ; on the other side they get the same node |
| Idpf.SharesOnPath | src/idpf.rs:329-359 | shares made at the next node on the path add to the programmed value |
| Idpf.SharesLeaving | src/idpf.rs:329-359 | shares made where the path is left add to zero |
| Idpf.SharesOffPath | src/idpf.rs:329-359 | parties in the same node stay in the same node and make opposite shares |
| Idpf.GenWithRandom | src/idpf.rs:392-485 | the correction words of every level, and the three argument errors |
| Idpf.WalkInvariant | src/idpf.rs:264-359 | at every prefix: generator nodes with differing control bits on the path, equal nodes off it |
| Idpf.IdpfCorrect | src/idpf.rs:559-623 | for every input, values, seeds and non-empty prefix, the two shares merge to the programmed value on the path and to zero off it |
| IdpfEval.IdpfCache.Get | src/idpf.rs:903-975 | a hit is always a value inserted under the same key, for the three caches and any other lookup rule |
| IdpfEval.IdpfCache.Insert | src/idpf.rs:903-985 | the map keeps the first value, the ring evicts its oldest entry and never outgrows its capacity |
| IdpfEval.EvalFromNode | src/idpf.rs:490-554 | from a true node to the prefix: the uncached result, always available, and only true nodes are cached |
| IdpfEval.Eval | src/idpf.rs:559-623 | whatever a sound cache holds, the result is that of the uncached walk and the cache stays sound; the three argument errors |
| IdpfEval.EvalMany | src/idpf.rs:559-623 | over any sequence of evaluations with one cache, of the three kinds or with any rule that picks among the insertions under the key, every result is the uncached one |
| BitPacking.UnpackPack | src/idpf.rs:670-696 | unpacking packed bits gives them back followed by zero bits |
| BitPacking.PackUnpack | src/idpf.rs:714-753 | bytes whose unused bits are zero are the packed form of their bits |
| PublicShareCodec.Encode | src/idpf.rs:670-696 | packed control bits followed by seeds and values, level by level |
| PublicShareCodec.Decode | src/idpf.rs:714-753 | accepts exactly what the parser accepts, zero padding bits included |
| PublicShareCodec.DecodeEncoded | src/idpf.rs:670-753 | decoding an encoded public share, followed by anything, gives it back with the rest |
| PublicShareCodec.EncodedDecode | src/idpf.rs:714-753 | accepted bytes are the encoding of what they decode to |
| PublicShareCodec.EncodedLength | src/idpf.rs:698-706 | the encoded length, from the encoded lengths of the values |
| Vidpf.XorProofCancels | src/vidpf.rs:434-437 | the exclusive-or of two proofs turns either into the other |
| Vidpf.ConditionalXorProofMeans | src/vidpf.rs:439-442 | the masked form applies the correction exactly when chosen |
| Vidpf.WeightsAreGroup | src/vidpf.rs:467-549 | vectors of field elements of one length form an abelian group |
| Vidpf.GenWithKeys | src/vidpf.rs:111-194 | correction words and proof corrections of every level; refuses equal key identifiers and too many levels |
| Vidpf.Eval | src/vidpf.rs:198-217 | the share after the last level, and as proof the hash chain over all levels; refuses inputs longer than the correction words |
| Vidpf.ProofIsChain | src/vidpf.rs:251-259 | the running proof is the hash chain over the corrected node hashes of all levels |
| Vidpf.ChainBinds | src/vidpf.rs:251-259 | with a collision-free adjustment hash, different corrected node hashes after a common history lead to different proofs |
| Vidpf.RootNodes | src/vidpf.rs:410-417 | generation and evaluation start at a key's value, with the control bit of its identifier |
| Vidpf.GenStepIsGenLevel | src/vidpf.rs:111-194 | a VIDPF level corrects the same seeds, bits and values as an IDPF level |
| Vidpf.EvalInvariant | src/vidpf.rs:221-267 | after every level: generator nodes on the path, equal nodes off it, equal proofs always |
| Vidpf.ProofStep | src/vidpf.rs:221-267 | the proof correction makes both evaluators hash the same value |
| Vidpf.VidpfCorrect | src/vidpf.rs:111-267 | at every level the shares add to the weight (negated if the keys are swapped) on the path and to zero off it, and the proofs are equal |
| Vidpf.CorrectIffOrdered | src/vidpf.rs:95-107 | the shares add to the weight if and only if the keys are ordered S0, S1 or the weight is its own negation |
| Vidpf.EmptyInput | src/vidpf.rs:198-217 | both shares of the empty input add to zero |
| Poplar1.PairGroupIsGroup | src/vdaf/poplar1.rs:1372-1452 | pairs of data and authenticator form an abelian group |
| Poplar1.TryFromPrefixes | src/vdaf/poplar1.rs:721-762 | accepts exactly non-empty lists of increasing prefixes of one length from 1 to 65536, with the first fault otherwise |
| Poplar1.AcceptedPrefixes | src/vdaf/poplar1.rs:736-747 | the adjacent comparisons accept exactly the lists that increase throughout |
| Poplar1.AtMostOneOnPath | src/vdaf/poplar1.rs:721-762 | at most one accepted prefix is a prefix of any input |
| Poplar1.ShardWithRandom | src/vdaf/poplar1.rs:865-962 | public share and both input shares, with authenticators and correlation shares of every level |
| Poplar1.EvalAndSketch | src/vdaf/poplar1.rs:966-1016 | the data shares of all prefixes and the three sketch sums over the offsets |
| Poplar1.PrepareInit | src/vdaf/poplar1.rs:1045-1126 | state and first sketch share, with the offsets found after a 16-bit fast-forward |
| Poplar1.MergeVector | src/field.rs:849-861 | adds in place, and leaves the accumulator alone when the lengths differ |
| Poplar1.Aggregate | src/vdaf/poplar1.rs:1361-1371 | the sum of output shares, refusing another field or length |
| Poplar1.Unshard | src/vdaf/poplar1.rs:1251-1270 | the merged result as 64-bit counts, refusing leaf values that do not fit |
| Poplar1Correct.HonestShares | src/vdaf/poplar1.rs:865-1016 | shares at a prefix add to (1, authenticator) on the path and to (0, 0) off it |
| Poplar1Correct.SketchSums | src/vdaf/poplar1.rs:966-1016 | the running sketch is its offsets plus three inner products |
| Poplar1Correct.CorrTotals | src/vdaf/poplar1.rs:1305-1320 | correlation shares add to -2a + auth and a^2 + b - a auth + c |
| Poplar1Correct.OneHotSquare | src/vdaf/poplar1.rs:1324-1335 | for a one-hot vector the product with the squares is the square of the product |
| Poplar1Correct.SketchDefect | src/vdaf/poplar1.rs:1324-1335 | for any vector of zeros and ones the identity is off by twice the products of all pairs of ones |
| Poplar1Correct.RepeatedPrefix | src/vdaf/poplar1.rs:736-747 | with one prefix repeated, at any positions and modulo any modulus, the identity holds if and only if twice the product of the two verification values vanishes |
| Poplar1Correct.VerifierTotal | src/vdaf/poplar1.rs:1324-1335 | the two verifier shares add to a residue that depends only on the difference of the offsets |
| Poplar1Correct.HonestRun | src/vdaf/poplar1.rs:1128-1235 | an honest report always continues after round one; round two finishes with shares of the prefix indicator if the residue is zero and fails otherwise |
| Poplar1Correct.FastForwardExact | src/vdaf/poplar1.rs:1068-1076 | the 16-bit product is exact up to level 21845 and at no later level |
| Poplar1Correct.HonestAccepted | src/vdaf/poplar1.rs:1045-1235 | at leaf level and inner levels up to 21845, both aggregators finish after exactly two rounds with shares of the indicator |
| Poplar1Correct.WrapRejects | src/vdaf/poplar1.rs:1068-1076 | past that level some correlation streams make an honest report fail |
| Poplar1Correct.AcceptedIffAligned | src/vdaf/poplar1.rs:1045-1235 | acceptance for all correlation streams if and only if the level is aligned |
| Poplar1Correct.UnshardTotals | src/vdaf/poplar1.rs:1237-1270 | aggregating and unsharding shares of vectors returns the column sums when they fit |
| Poplar1Correct.BatchCounts | src/vdaf/poplar1.rs:865-1270 | for every honest batch smaller than the field, unsharding returns for each prefix the number of measurements that have it |
| Poplar1Sound.CorrelationsMasked | src/vdaf/poplar1.rs:1305-1320 | at every level the helper's correlation share is a fresh pair of draws at its own position, and the leader's the rest of the two sums |
| Poplar1Sound.LeaderShareHides | src/vdaf/poplar1.rs:865-962 | for fixed correlation streams and authenticators, every pair of residues is the leader's share of an inner level for some pair of draws, which changes nothing else |
| Poplar1Sound.LeafShareHides | src/vdaf/poplar1.rs:865-962 | the same for the leaf level |
| Poplar1Sound.AnyRun | src/vdaf/poplar1.rs:1045-1235 | for every public share and every pair of input shares, round one continues and round two accepts if and only if one explicit value vanishes |
| Poplar1Sound.DefectDecides | src/vdaf/poplar1.rs:1305-1335 | with the correlations of an honest client, that value is the square of the data's product minus the product with the squares, plus the authenticator's defect |
| Poplar1Sound.MessageIff | src/vdaf/poplar1.rs:1128-1165 | exactly when two shares combine, and that a single pair must add to zero |
| Poplar1Sound.PreparedIff | src/vdaf/poplar1.rs:1045-1126 | preparation starts exactly for the two aggregators and the levels of the tree |
| Poplar1Sound.PrepareNextIff | src/vdaf/poplar1.rs:1167-1235 | the state machine: which message each state takes, the verifier share of leader and helper, and that everything else is refused |
| Poplar1Sound.AggregateIff | src/vdaf/poplar1.rs:1361-1371 | aggregation succeeds exactly on shares of the right field and length |
| Poplar1Sound.UnshardIff | src/vdaf/poplar1.rs:1251-1270 | unsharding succeeds exactly when aggregation does and leaf counts fit in 64 bits |
| Poplar1Sound.FaultKinds | src/vdaf/poplar1.rs:721-762 | the reported fault is the first one, and out of order means a smaller index than the predecessor's |
| AggParamCodec.Encode | src/vdaf/poplar1.rs:776-807 | level, count and the packed prefixes in reversed order |
| AggParamCodec.Decode | src/vdaf/poplar1.rs:818-843 | accepts exactly what the specification accepts, unused bits zero and prefixes valid |
| AggParamCodec.DecodeEncoded | src/vdaf/poplar1.rs:776-843 | every parameter that can be constructed decodes from its encoding |
| AggParamCodec.EncodedDecode | src/vdaf/poplar1.rs:818-843 | accepted bytes are the encoding of the valid parameter they decode to |
| AggParamCodec.EncodedLength | src/vdaf/poplar1.rs:809-814 | the encoded length |
| CodecLayout.ParamLayout | src/vdaf/poplar1.rs:776-807 | after level and count, the prefixes read as integers are shifted together into one big-endian integer, the first least significant |
| CodecLayout.LexIsNumeric | src/vdaf/poplar1.rs:736-747 | the order of prefixes of one length is the order of their indices |
| CodecLayout.ShareLayout | src/idpf.rs:670-696 | the control bits of all levels are a little-endian number, left bit first, followed by the words |
| CodecLayout.WordsAt | src/idpf.rs:670-696 | the words stand in level order, each seed before its value |
| CodecLayout.PackNumber | src/idpf.rs:670-696 | packed bits are the little-endian bytes of the number with these binary digits |
| MontgomeryDomain.MaskSelects | src/fp.rs:203-208 | a mask of all ones or zeros selects one of two 128-bit values |
| MontgomeryDomain.MaskSelects64 | src/fp64.rs:115-127 | the same on one limb |
| MontgomeryDomain.StoresProduct | src/fp.rs:80-209 | the reduced product of two stored values stores their product |
| Montgomery.Add | src/fp.rs:34-50 | the reduced sum, with the carry of a 129-bit intermediate |
| Montgomery.Sub | src/fp.rs:54-68 | the reduced difference |
| Montgomery.ModP | src/fp.rs:276-280 | one conditional correction reduces any value below 2p |
| Montgomery.Product | src/fp.rs:93-126 | the schoolbook limbs add up to x y with no intermediate overflow |
| Montgomery.FirstCarries | src/fp.rs:136-161 | the first reduction clears the lowest limb, and the carry dropped out of the top limb is zero |
| Montgomery.SecondCarries | src/fp.rs:168-191 | the second reduction clears the next limb and keeps its carry |
| Montgomery.FinalSubtract | src/fp.rs:193-208 | the borrow chain subtracts p from a 129-bit value exactly when it is at least p |
| Montgomery.Mul | src/fp.rs:80-209 | for all x y < 2^128 p: the result is below p and times 2^128 is congruent to x y |
| Montgomery.ToMontgomery | src/fp.rs:247-249 | stores any 128-bit integer |
| Montgomery.Residue | src/fp.rs:260-262 | recovers the stored residue |
| Montgomery.RoundTrip | src/fp.rs:247-262 | residue(montgomery(x)) is x modulo p |
| Montgomery.MulStored | src/fp.rs:80-209 | multiplication of stored values stores the product |
| Montgomery.Pow | src/fp.rs:213-222 | square and multiply stores the repeated product |
| Montgomery64.Add | src/fp64.rs:33-49 | the reduced sum on one limb |
| Montgomery64.Sub | src/fp64.rs:53-67 | the reduced difference on one limb |
| Montgomery64.Mul | src/fp64.rs:79-127 | for all x y < 2^64 p: the result is below p and times 2^64 is congruent to x y |
| Montgomery64.ToMontgomery | src/fp64.rs:165-167 | stores any 64-bit integer |
| Montgomery64.Residue | src/fp64.rs:178-180 | recovers the stored residue |
| Montgomery64.RoundTrip | src/fp64.rs:165-180 | residue(montgomery(x)) is x modulo p |
| Montgomery64.Pow | src/fp64.rs:131-140 | square and multiply stores the repeated product |
| Field.Fermat | src/fp.rs:227-229 | a times a^(p-2) is one for every nonzero a |
| Field.Inv | src/fp.rs:227-229 | exponentiation by p-2 is the inverse |
| PingPong.DeliverRefines | src/topology/ping_pong.rs:586-659 | from any point of an exchange, delivering the remaining messages is the rest of the broadcast loop |
| PingPong.AdvanceRefines | src/topology/ping_pong.rs:207-242 | evaluating a transition and sending its message continues the broadcast loop |
| PingPong.PingPongRefinesBroadcast | src/topology/ping_pong.rs:493-659 | the alternating exchange ends with outputs exactly when the broadcast run does, with the same outputs, one message per round and the opening one, and the last sender given by the parity of the round count |
| PingPong.HelperIff | src/topology/ping_pong.rs:522-560 | the helper starts exactly on an initial message whose share combines with its own |
| PingPong.ContinuedIff | src/topology/ping_pong.rs:586-659 | exactly which messages a continued step takes, and which mismatch it reports |
| Prng.Prng.constructor | src/prng.rs:66-76 | the buffer holds the first bytes of the stream and the position is zero |
| Prng.Prng.ScanBuffer | src/prng.rs:80-93 | the first acceptable chunk already buffered, or that there is none |
| Prng.Prng.Refill | src/prng.rs:94-103 | shifting and refilling keeps the position in the stream |
| Prng.Prng.Get | src/prng.rs:78-104 | the element and position that unbuffered rejection sampling reaches |
| Prng.Prng.IntoNewField | src/prng.rs:108-115 | changing the field keeps the position |
| Prng.RunOps | src/prng.rs:66-115 | over any interleaving of draws and field changes, the elements that unbuffered sampling reads |
| Prng.SampleIsFirst | src/field.rs:341-366 | sampling takes the first acceptable of the consecutive chunks and ends behind it |
| Prng.CounterRecovered | src/vdaf/xof.rs:418-424 | a block input is the base with the 64-bit counter, little-endian, exclusive-or'ed into its first eight bytes |
| Prng.CountersDiffer | src/vdaf/xof.rs:418-424 | different counters below 2^64 make different block inputs |
| Prng.FixedKeyStream.Fill | src/vdaf/xof.rs:409-430 | the bytes depend only on the position in the key stream |
| Prng.FillInParts | src/vdaf/xof.rs:409-430 | any split of reads yields the key stream in order |
| BinaryTree.BinaryTree.Insert | src/bt.rs:203-212 | stores the value at a reachable empty place; otherwise nothing changes and the error says why |
| BinaryTree.BinaryTree.Get | src/bt.rs:220-222 | the value at the path |
| BinaryTree.InsertLookup | src/bt.rs:110-141 | an insert changes the map at the inserted path only |
| BinaryTree.InsertableIff | src/bt.rs:110-141 | a place accepts a value exactly when it is empty and its parent is not |
| BinaryTree.PrefixClosed | src/bt.rs:149-158 | every prefix of a stored path is stored |
| BinaryTree.RunInserts | src/bt.rs:203-222 | every run of inserts represents the same run on a map |
| BinaryTree.MapRunGrows | src/bt.rs:110-141 | the map only grows and keeps its values |
| BinaryTree.Encode | src/bt.rs:244-265 | the explicit-stack traversal emits the pre-order encoding |
| BinaryTree.Decode | src/bt.rs:269-290 | the explicit-stack decoder accepts exactly what the recursive parser accepts and builds the same tree |
| BinaryTree.ParsePreOrder | src/bt.rs:244-290 | parsing undoes encoding, whatever follows |
| BinaryTree.PreOrderParse | src/bt.rs:269-290 | parsed bytes are the encoding of the tree and the rest |
| BinaryTree.CodecInverse | src/bt.rs:334-353 | encoder and decoder are mutual inverses for every value codec that is |
| BinaryTree.PreOrderAt | src/bt.rs:244-265 | at every place of the tree: one zero byte if empty; else a one byte, the value, everything below the left child, everything below the right |

## Left out

- Flp.Prove: circuits with one gadget (Count, Sum, SumVec, Histogram), as are `Flp.Query` and `Flp.Decide`. For the fixed-point type the encoding, the norm and the circuit on real gadgets are modelled, not its proof; Average differs from Sum only in a floating-point division.
- FLP soundness is stated as counts of query points and joint randomness values, not as probabilities.
- Gadgets.CallPoly: the wire polynomials have the length that `prove` gives them; other lengths that pass the length check are not covered.
- Gadgets.PolyEvalDirect: models the call on the zeroed buffer, which is how `call_poly` reaches it.
- Gadgets.PolyEvalFft: models the call on the zeroed buffer, which is how `call_poly` reaches it.
- Polynomial.PolyMul: excludes empty operands, on which the source indexes out of bounds.
- Fft.DiscreteFourierTransform: excludes size zero and an empty input of size one, on which the source panics.
- RecursiveFft.FftRecurse: works on values; the scratch slices that the source shares between recursive calls are not modelled as memory.
- RecursiveFft.FftGetRoots: the count is a power of two from two up to the order of the last tabulated root; for count one the source indexes out of bounds.
- FixedPointL2.EncodeMeasurement: takes the entries as integers of n bits; the conversion from fixed-point numbers is not modelled.
- Prio3.ShardWithRandom: keeps one vector per proof where the source concatenates them; a histogram bucket is in range, as the source's unchecked index demands.
- Prio3.PrepareInit: expects input shares with the lengths that their decoders enforce.
- Prio3.SharesToMessage: expects joint randomness parts when the circuit uses joint randomness; the source unwraps them. The share count wraps at 256, as in builds without overflow checks.
- Poplar1.PrepareInit: expects a constructed aggregation parameter and shares decoded for the bit length; for others the source panics or reports a decoding error. The fast-forward product wraps, as in builds without overflow checks.
- PublicShareCodec.Decode: excludes zero bits, for which the source's level count underflows; truncated input and bad padding are one failure.
- AggParamCodec.Decode: the fixed-width integer codecs of src/codec.rs are assumed to be inverse pairs with lengths 2 and 4.
- BinaryTree.Decode: the value codec is assumed to be an inverse pair that consumes what it encodes.
- BinaryTree.BinaryTree.Insert: the owned tree is a value inside the object and mutable references into it are paths.
- PingPong.PingPongRefinesBroadcast: the codecs round-trip within a round; the byte format of the messages and transitions is not modelled.
- Prng.Prng.Get: terminates under a ghost bound on the distance to the next acceptable chunk, and needs encodings no longer than the buffer, as the source does.
- Prng.FixedKeyStream.Fill: the stream is read below 2^64 - 15 bytes, beyond which the source's counter arithmetic overflows.
- IdpfEval.EvalMany: only valid prefixes and aggregator numbers; the errors are in `IdpfEval.Eval`.
- Vidpf.WeightsAreGroup: weights of one length; operations on different lengths panic in the source.
- Codecs of input shares, prepare shares and messages, and the integer and length-prefixed codecs of src/codec.rs: easy members on their own.
- TurboSHAKE, AES, HMAC and system randomness: arbitrary functions and seeds.
- Field255 (src/field/field255.rs) and the literal field parameters: any prime and any table with the stated relations.
- Constant-time behaviour, multithreaded gadgets, serialization frameworks and error strings: no functional content beyond the serial code.
- Prio2, differential privacy noise, floating-point decoding, benchmarks, binaries and test doubles.
