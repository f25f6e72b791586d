/** Incremental distributed point functions (src/idpf.rs): key generation, evaluation of one level,
    and the correctness of the two evaluators on every prefix. */
module Idpf {
  import opened Wrappers

  // ------------------------------------------------------------------ values

  /** The operations of `IdpfValue` on the values `has` admits, such as residues or vectors of a
      fixed length. These values form an abelian group. */
  datatype Group<!V> = Group(has: V -> bool, zero: V, add: (V, V) -> V, neg: V -> V) {
    function Sub(a: V, b: V): V { add(a, neg(b)) }

    /** `conditional_negate`. */
    function NegIf(a: V, choice: bool): V { if choice then neg(a) else a }
  }

  ghost predicate IsGroup<V(!new)>(g: Group<V>) {
    g.has(g.zero) && forall a, b, c :: GroupLaws(g, a, b, c)
  }

  /** The laws for one choice of elements. */
  ghost predicate GroupLaws<V>(g: Group<V>, a: V, b: V, c: V) {
    g.has(a) && g.has(b) && g.has(c) ==>
      && g.has(g.add(a, b)) && g.has(g.neg(a))
      && g.add(a, b) == g.add(b, a)
      && g.add(a, g.zero) == a
      && g.add(a, g.neg(a)) == g.zero
      && g.add(g.add(a, b), c) == g.add(a, g.add(b, c))
  }

  lemma {:induction false} GroupComm<V(!new)>(g: Group<V>, a: V, b: V)
    requires IsGroup(g) && g.has(a) && g.has(b)
    ensures g.add(a, b) == g.add(b, a) && g.has(g.add(a, b))
  {
    assert GroupLaws(g, a, b, b);
  }

  lemma {:induction false} GroupAssoc<V(!new)>(g: Group<V>, a: V, b: V, c: V)
    requires IsGroup(g) && g.has(a) && g.has(b) && g.has(c)
    ensures g.add(g.add(a, b), c) == g.add(a, g.add(b, c))
    ensures g.has(g.add(a, b)) && g.has(g.add(b, c))
  {
    assert GroupLaws(g, a, b, c) && GroupLaws(g, b, c, c);
  }

  lemma {:induction false} GroupZero<V(!new)>(g: Group<V>, a: V)
    requires IsGroup(g) && g.has(a)
    ensures g.has(g.zero) && g.has(g.neg(a))
    ensures g.add(a, g.zero) == a && g.add(g.zero, a) == a
    ensures g.add(a, g.neg(a)) == g.zero && g.add(g.neg(a), a) == g.zero
  {
    assert GroupLaws(g, a, g.zero, a);
    assert GroupLaws(g, a, g.neg(a), a);
  }

  lemma {:induction false} GroupCancel<V(!new)>(g: Group<V>, a: V, b: V)
    requires IsGroup(g) && g.has(a) && g.has(b)
    ensures g.add(g.add(a, b), g.neg(b)) == a
    ensures g.add(g.add(a, g.neg(b)), b) == a
  {
    hide IsGroup;
    GroupZero(g, b);
    GroupZero(g, a);
    GroupAssoc(g, a, b, g.neg(b));
    GroupAssoc(g, a, g.neg(b), b);
  }

  lemma {:induction false} GroupInverseUnique<V(!new)>(g: Group<V>, s: V, t: V)
    requires IsGroup(g) && g.has(s) && g.has(t) && g.add(s, t) == g.zero
    ensures t == g.neg(s)
  {
    hide IsGroup;
    GroupZero(g, s);
    GroupCancel(g, t, s);
    GroupComm(g, t, s);
    GroupZero(g, g.neg(s));
  }

  lemma {:induction false} GroupNegNeg<V(!new)>(g: Group<V>, a: V)
    requires IsGroup(g) && g.has(a)
    ensures g.neg(g.neg(a)) == a
  {
    hide IsGroup;
    GroupZero(g, a);
    GroupInverseUnique(g, g.neg(a), a);
  }

  lemma {:induction false} GroupNegAdd<V(!new)>(g: Group<V>, a: V, b: V)
    requires IsGroup(g) && g.has(a) && g.has(b)
    ensures g.neg(g.add(a, b)) == g.add(g.neg(a), g.neg(b))
  {
    hide IsGroup;
    GroupZero(g, a);
    GroupZero(g, b);
    GroupComm(g, g.neg(a), g.neg(b));
    GroupComm(g, a, b);
    var s, t := g.add(a, b), g.add(g.neg(a), g.neg(b));
    GroupAssoc(g, s, g.neg(a), g.neg(b));
    GroupCancel(g, b, a);
    GroupInverseUnique(g, s, t);
  }

  // ------------------------------------------------------------------ seeds

  type Seed = s: seq<bv8> | |s| == 16 witness seq(16, _ => 0)

  /** `xor_seeds`, `and_seeds`, `or_seeds`. */
  function XorSeeds(a: Seed, b: Seed): Seed { seq(16, i requires 0 <= i < 16 => a[i] ^ b[i]) }

  function AndSeeds(a: Seed, b: Seed): Seed { seq(16, i requires 0 <= i < 16 => a[i] & b[i]) }

  function OrSeeds(a: Seed, b: Seed): Seed { seq(16, i requires 0 <= i < 16 => a[i] | b[i]) }

  /** `control_bit_to_seed_mask`: all bits of every byte equal the control bit. */
  function SeedMask(control: bool): Seed { seq(16, _ => if control then 0xFF else 0) }

  /** `conditional_xor_seeds`: selection by masking, without branching. */
  function ConditionalXorSeeds(normal: Seed, switched: Seed, control: bool): Seed {
    XorSeeds(normal, AndSeeds(switched, SeedMask(control)))
  }

  /** `conditional_select_seed`. */
  function ConditionalSelectSeed(select: bool, seeds: (Seed, Seed)): Seed {
    OrSeeds(AndSeeds(SeedMask(!select), seeds.0), AndSeeds(SeedMask(select), seeds.1))
  }

  lemma {:induction false} ByteMasks(a: bv8, b: bv8)
    ensures a ^ (b & 0xFF) == a ^ b && a ^ (b & 0) == a
    ensures (0xFF & a) | (0 & b) == a && (0 & a) | (0xFF & b) == b
    ensures a ^ (a ^ b) == b && b ^ (a ^ b) == a
  {
  }

  lemma {:induction false} ConditionalXorMeans(normal: Seed, switched: Seed, control: bool)
    ensures ConditionalXorSeeds(normal, switched, control) == if control then XorSeeds(normal, switched) else normal
  {
    forall i | 0 <= i < 16
      ensures ConditionalXorSeeds(normal, switched, control)[i] == if control then normal[i] ^ switched[i] else normal[i]
    {
      ByteMasks(normal[i], switched[i]);
    }
  }

  lemma {:induction false} ConditionalSelectMeans(select: bool, seeds: (Seed, Seed))
    ensures ConditionalSelectSeed(select, seeds) == if select then seeds.1 else seeds.0
  {
    forall i | 0 <= i < 16
      ensures ConditionalSelectSeed(select, seeds)[i] == if select then seeds.1[i] else seeds.0[i]
    {
      ByteMasks(seeds.0[i], seeds.1[i]);
    }
  }

  lemma {:induction false} XorCancels(a: Seed, b: Seed)
    ensures XorSeeds(a, XorSeeds(a, b)) == b && XorSeeds(b, XorSeeds(a, b)) == a
  {
    forall i | 0 <= i < 16
      ensures XorSeeds(a, XorSeeds(a, b))[i] == b[i] && XorSeeds(b, XorSeeds(a, b))[i] == a[i]
    {
      ByteMasks(a[i], b[i]);
    }
  }

  function Xor(a: bool, b: bool): bool { a != b }

  // ------------------------------------------------------------------ one level

  /** The two XOF invocations of a level: `stream` gives the two seeds read by `extend`, `convert`
      the next key and a pseudorandom group element. */
  datatype LevelXof<V> = LevelXof(stream: Seed -> (Seed, Seed), convert: Seed -> (Seed, V))

  /** Pseudorandom elements are values of the group. */
  ghost predicate Generates<V>(g: Group<V>, x: LevelXof<V>) {
    forall s: Seed :: g.has(x.convert(s).1)
  }

  /** The control bit is stolen from the low bit of the first byte. */
  function Steal(s: Seed): (Seed, bool) { (s[0 := s[0] & 0xFE], s[0] & 1 == 1) }

  /** `extend`: two seeds from the stream, each with its control bit stolen. */
  function Extend(stream: Seed -> (Seed, Seed), key: Seed): ((Seed, Seed), (bool, bool)) {
    var (s0, s1) := stream(key);
    ((Steal(s0).0, Steal(s1).0), (Steal(s0).1, Steal(s1).1))
  }

  /** The seed has low bit zero, and with the bit put back into the first byte it is s. */
  predicate SplitOf(s: Seed, seed: Seed, bit: bool) {
    && seed[0] & 1 == 0
    && seed[0] | (if bit then 1 else 0) == s[0]
    && forall i :: 1 <= i < 16 ==> seed[i] == s[i]
  }

  /** The expansion loses nothing: the two seeds and bits are a splitting of the two halves of the stream,
      in order, and of nothing else. */
  lemma {:induction false} ExtendKeepsStream(stream: Seed -> (Seed, Seed), key: Seed, seeds: (Seed, Seed), bits: (bool, bool))
    ensures Extend(stream, key) == (seeds, bits)
            <==> SplitOf(stream(key).0, seeds.0, bits.0) && SplitOf(stream(key).1, seeds.1, bits.1)
  {
    StealSplits(stream(key).0, seeds.0, bits.0);
    StealSplits(stream(key).1, seeds.1, bits.1);
    hide Steal, SplitOf;
  }

  lemma {:induction false} StealSplits(s: Seed, seed: Seed, bit: bool)
    ensures Steal(s) == (seed, bit) <==> SplitOf(s, seed, bit)
  {
    LowBit(s[0], seed[0], bit);
    if SplitOf(s, seed, bit) {
      assert seed == s[0 := s[0] & 0xFE];
    }
  }

  lemma {:induction false} LowBit(b: bv8, c: bv8, bit: bool)
    ensures c & 1 == 0 && c | (if bit then 1 else 0) == b <==> c == b & 0xFE && bit == (b & 1 == 1)
  {
  }

  datatype CorrectionWord<V> = CorrectionWord(seed: Seed, bits: (bool, bool), value: V)

  /** A party's key and control bit at a tree node. */
  datatype Node = Node(key: Seed, bit: bool)

  function Pick<T>(bit: bool, pair: (T, T)): T { if bit then pair.1 else pair.0 }

  /** `generate_correction_word`: the correction word of one level and both parties' next nodes. */
  function GenLevel<V>(g: Group<V>, x: LevelXof<V>, inputBit: bool, value: V, n0: Node, n1: Node): (CorrectionWord<V>, Node, Node) {
    var (seed0, bits0) := Extend(x.stream, n0.key);
    var (seed1, bits1) := Extend(x.stream, n1.key);
    var keep, lose := inputBit, !inputBit;
    var cwSeed := XorSeeds(ConditionalSelectSeed(lose, seed0), ConditionalSelectSeed(lose, seed1));
    var cwBits := (Xor(Xor(Xor(bits0.0, bits1.0), inputBit), true), Xor(Xor(bits0.1, bits1.1), inputBit));
    var cwKeep := Pick(keep, cwBits);
    var b0 := Xor(Pick(keep, bits0), cwKeep && n0.bit);
    var b1 := Xor(Pick(keep, bits1), cwKeep && n1.bit);
    var corrected0 := ConditionalXorSeeds(ConditionalSelectSeed(keep, seed0), cwSeed, n0.bit);
    var corrected1 := ConditionalXorSeeds(ConditionalSelectSeed(keep, seed1), cwSeed, n1.bit);
    var (key0, elements0) := x.convert(corrected0);
    var (key1, elements1) := x.convert(corrected1);
    var cwValue := g.NegIf(g.add(g.Sub(value, elements0), elements1), b1);
    (CorrectionWord(cwSeed, cwBits, cwValue), Node(key0, b0), Node(key1, b1))
  }

  /** `eval_next`: one party's next node and output share. */
  function EvalLevel<V>(g: Group<V>, x: LevelXof<V>, isLeader: bool, n: Node, cw: CorrectionWord<V>, inputBit: bool): (Node, V) {
    var (seeds, bits) := Extend(x.stream, n.key);
    var s0 := ConditionalXorSeeds(seeds.0, cw.seed, n.bit);
    var b0 := Xor(bits.0, cw.bits.0 && n.bit);
    var s1 := ConditionalXorSeeds(seeds.1, cw.seed, n.bit);
    var b1 := Xor(bits.1, cw.bits.1 && n.bit);
    var corrected := ConditionalSelectSeed(inputBit, (s0, s1));
    var bit := Pick(inputBit, (b0, b1));
    var (key, elements) := x.convert(corrected);
    var out := g.add(elements, if bit then cw.value else g.zero);
    (Node(key, bit), g.NegIf(out, !isLeader))
  }

  /** One step of the walk without masks: the half of the expansion that the input bit names, corrected
      by the word exactly when the control bit is set; the value is added exactly when the next control
      bit is set, and the helper's share is negated. */
  lemma {:induction false} EvalLevelMeans<V>(g: Group<V>, x: LevelXof<V>, isLeader: bool, n: Node, cw: CorrectionWord<V>, inputBit: bool)
    ensures var (seeds, bits) := Extend(x.stream, n.key);
            var half := if inputBit then seeds.1 else seeds.0;
            var bit := if inputBit then bits.1 else bits.0;
            var wordBit := if inputBit then cw.bits.1 else cw.bits.0;
            var corrected := if n.bit then XorSeeds(half, cw.seed) else half;
            var next := if n.bit then bit != wordBit else bit;
            var (key, element) := x.convert(corrected);
            var share := if next then g.add(element, cw.value) else g.add(element, g.zero);
            EvalLevel(g, x, isLeader, n, cw, inputBit) == (Node(key, next), if isLeader then share else g.neg(share))
  {
    hide ConditionalSelectSeed, ConditionalXorSeeds, Extend, XorSeeds;
    var (seeds, _) := Extend(x.stream, n.key);
    ConditionalXorMeans(seeds.0, cw.seed, n.bit);
    ConditionalXorMeans(seeds.1, cw.seed, n.bit);
    ConditionalSelectMeans(inputBit, (ConditionalXorSeeds(seeds.0, cw.seed, n.bit), ConditionalXorSeeds(seeds.1, cw.seed, n.bit)));
  }

  // ------------------------------------------------------------------ the level invariant

  /** On the programmed path the control bits differ. */
  predicate OnPath(n0: Node, n1: Node) { n0.bit != n1.bit }

  /** The corrected seeds and bits of both parties on side `b` of a node on the path. */
  lemma {:induction false} Corrections<V>(g: Group<V>, x: LevelXof<V>, alpha: bool, value: V, n0: Node, n1: Node, b: bool)
    requires OnPath(n0, n1)
    ensures var (cw, g0, g1) := GenLevel(g, x, alpha, value, n0, n1);
            var e0 := EvalLevel(g, x, true, n0, cw, b).0;
            var e1 := EvalLevel(g, x, false, n1, cw, b).0;
            && (b == alpha ==> e0 == g0 && e1 == g1 && OnPath(g0, g1))
            && (b != alpha ==> e0 == e1)
  {
    var (seed0, bits0) := Extend(x.stream, n0.key);
    var (seed1, bits1) := Extend(x.stream, n1.key);
    var (cw, g0, g1) := GenLevel(g, x, alpha, value, n0, n1);
    hide ConditionalSelectSeed, ConditionalXorSeeds, Extend, XorSeeds;
    ConditionalSelectMeans(!alpha, seed0);
    ConditionalSelectMeans(!alpha, seed1);
    ConditionalSelectMeans(alpha, seed0);
    ConditionalSelectMeans(alpha, seed1);
    ConditionalXorMeans(seed0.0, cw.seed, n0.bit);
    ConditionalXorMeans(seed0.1, cw.seed, n0.bit);
    ConditionalXorMeans(seed1.0, cw.seed, n1.bit);
    ConditionalXorMeans(seed1.1, cw.seed, n1.bit);
    var p0 := (ConditionalXorSeeds(seed0.0, cw.seed, n0.bit), ConditionalXorSeeds(seed0.1, cw.seed, n0.bit));
    var p1 := (ConditionalXorSeeds(seed1.0, cw.seed, n1.bit), ConditionalXorSeeds(seed1.1, cw.seed, n1.bit));
    ConditionalSelectMeans(b, p0);
    ConditionalSelectMeans(b, p1);
    XorCancels(Pick(!alpha, seed0), Pick(!alpha, seed1));
  }

  /** value - e0 + e1, as the correction word holds it, cancels in the sum of the two shares. */
  lemma {:induction false} ProgrammedValue<V(!new)>(g: Group<V>, value: V, e0: V, e1: V)
    requires IsGroup(g) && g.has(value) && g.has(e0) && g.has(e1)
    ensures var w := g.add(g.Sub(value, e0), e1);
            && g.add(g.add(e0, w), g.neg(g.add(e1, g.zero))) == value
            && g.add(g.add(e0, g.zero), g.neg(g.add(e1, g.neg(w)))) == value
  {
    hide IsGroup;
    GroupZero(g, e0);
    GroupZero(g, e1);
    GroupComm(g, value, g.neg(e0));
    var d := g.Sub(value, e0);
    var w := g.add(d, e1);
    GroupCancel(g, value, e0);
    GroupComm(g, d, e0);
    GroupComm(g, d, e1);
    GroupZero(g, w);
    GroupAssoc(g, e0, d, e1);
    GroupCancel(g, value, e1);
    GroupNegAdd(g, e1, g.neg(w));
    GroupNegNeg(g, w);
    GroupComm(g, g.neg(e1), w);
    GroupCancel(g, d, e1);
  }

  /** Both parties on the path: their shares at the next path node add to the programmed value. */
  lemma {:induction false} SharesOnPath<V(!new)>(g: Group<V>, x: LevelXof<V>, alpha: bool, value: V, n0: Node, n1: Node)
    requires IsGroup(g) && Generates(g, x) && g.has(value) && OnPath(n0, n1)
    ensures var cw := GenLevel(g, x, alpha, value, n0, n1).0;
            g.add(EvalLevel(g, x, true, n0, cw, alpha).1, EvalLevel(g, x, false, n1, cw, alpha).1) == value
  {
    hide IsGroup, ConditionalSelectSeed, ConditionalXorSeeds, Extend, XorSeeds;
    var (cw, g0, g1) := GenLevel(g, x, alpha, value, n0, n1);
    Corrections(g, x, alpha, value, n0, n1, alpha);
    var (seed0, _) := Extend(x.stream, n0.key);
    var (seed1, _) := Extend(x.stream, n1.key);
    SelectXor(alpha, seed0, cw.seed, n0.bit);
    SelectXor(alpha, seed1, cw.seed, n1.bit);
    var e0 := x.convert(ConditionalXorSeeds(ConditionalSelectSeed(alpha, seed0), cw.seed, n0.bit)).1;
    var e1 := x.convert(ConditionalXorSeeds(ConditionalSelectSeed(alpha, seed1), cw.seed, n1.bit)).1;
    ProgrammedValue(g, value, e0, e1);
  }

  /** Selecting after correcting is correcting after selecting. */
  lemma {:induction false} SelectXor(b: bool, seeds: (Seed, Seed), cw: Seed, bit: bool)
    ensures ConditionalSelectSeed(b, (ConditionalXorSeeds(seeds.0, cw, bit), ConditionalXorSeeds(seeds.1, cw, bit)))
         == ConditionalXorSeeds(ConditionalSelectSeed(b, seeds), cw, bit)
  {
    hide ConditionalSelectSeed, ConditionalXorSeeds, XorSeeds;
    ConditionalXorMeans(seeds.0, cw, bit);
    ConditionalXorMeans(seeds.1, cw, bit);
    ConditionalSelectMeans(b, seeds);
    ConditionalSelectMeans(b, (ConditionalXorSeeds(seeds.0, cw, bit), ConditionalXorSeeds(seeds.1, cw, bit)));
  }

  /** Parties in the same node make opposite shares. */
  lemma {:induction false} SharesOffPath<V(!new)>(g: Group<V>, x: LevelXof<V>, n: Node, cw: CorrectionWord<V>, b: bool)
    requires IsGroup(g) && Generates(g, x) && g.has(cw.value)
    ensures EvalLevel(g, x, true, n, cw, b).0 == EvalLevel(g, x, false, n, cw, b).0
    ensures g.add(EvalLevel(g, x, true, n, cw, b).1, EvalLevel(g, x, false, n, cw, b).1) == g.zero
  {
    hide IsGroup, Generates, ConditionalSelectSeed, ConditionalXorSeeds, Extend, XorSeeds;
    ShareInGroup(g, x, true, n, cw, b);
    GroupZero(g, EvalLevel(g, x, true, n, cw, b).1);
  }

  /** Parties that reach the same node by leaving the path make opposite shares. */
  lemma {:induction false} SharesLeaving<V(!new)>(g: Group<V>, x: LevelXof<V>, alpha: bool, value: V, n0: Node, n1: Node)
    requires IsGroup(g) && Generates(g, x) && g.has(value) && OnPath(n0, n1)
    ensures var cw := GenLevel(g, x, alpha, value, n0, n1).0;
            g.add(EvalLevel(g, x, true, n0, cw, !alpha).1, EvalLevel(g, x, false, n1, cw, !alpha).1) == g.zero
  {
    hide *;
    var cw := GenLevel(g, x, alpha, value, n0, n1).0;
    LeavingSeeds(g, x, alpha, value, n0, n1);
    Corrections(g, x, alpha, value, n0, n1, !alpha);
    OppositeOf(g, x, n0, n1, cw, !alpha);
    WordInGroup(g, x, alpha, value, n0, n1);
    ShareInGroup(g, x, true, n0, cw, !alpha);
    GroupZero(g, EvalLevel(g, x, true, n0, cw, !alpha).1);
  }

  /** Parties with the same corrected seed and bit make opposite shares. */
  lemma {:induction false} OppositeOf<V>(g: Group<V>, x: LevelXof<V>, n0: Node, n1: Node, cw: CorrectionWord<V>, b: bool)
    requires ConditionalXorSeeds(ConditionalSelectSeed(b, Extend(x.stream, n0.key).0), cw.seed, n0.bit)
          == ConditionalXorSeeds(ConditionalSelectSeed(b, Extend(x.stream, n1.key).0), cw.seed, n1.bit)
    requires EvalLevel(g, x, true, n0, cw, b).0 == EvalLevel(g, x, false, n1, cw, b).0
    ensures EvalLevel(g, x, false, n1, cw, b).1 == g.neg(EvalLevel(g, x, true, n0, cw, b).1)
  {
    hide ConditionalSelectSeed, ConditionalXorSeeds, Extend, XorSeeds;
    SelectXor(b, Extend(x.stream, n0.key).0, cw.seed, n0.bit);
    SelectXor(b, Extend(x.stream, n1.key).0, cw.seed, n1.bit);
  }

  /** The correction word's value is a value of the group, and so are both shares. */
  lemma {:induction false} WordInGroup<V(!new)>(g: Group<V>, x: LevelXof<V>, alpha: bool, value: V, n0: Node, n1: Node)
    requires IsGroup(g) && Generates(g, x) && g.has(value)
    ensures g.has(GenLevel(g, x, alpha, value, n0, n1).0.value)
  {
    hide IsGroup, ConditionalSelectSeed, ConditionalXorSeeds, Extend, XorSeeds;
    forall e0: V, e1: V | g.has(e0) && g.has(e1)
      ensures g.has(g.add(g.Sub(value, e0), e1)) && g.has(g.neg(g.add(g.Sub(value, e0), e1)))
    {
      WordClosed(g, value, e0, e1);
    }
  }

  lemma {:induction false} WordClosed<V(!new)>(g: Group<V>, value: V, e0: V, e1: V)
    requires IsGroup(g) && g.has(value) && g.has(e0) && g.has(e1)
    ensures g.has(g.add(g.Sub(value, e0), e1)) && g.has(g.neg(g.add(g.Sub(value, e0), e1)))
  {
    hide IsGroup;
    GroupZero(g, e0);
    GroupComm(g, value, g.neg(e0));
    GroupComm(g, g.Sub(value, e0), e1);
    GroupZero(g, g.add(g.Sub(value, e0), e1));
  }

  lemma {:induction false} ShareInGroup<V(!new)>(g: Group<V>, x: LevelXof<V>, isLeader: bool, n: Node, cw: CorrectionWord<V>, b: bool)
    requires IsGroup(g) && Generates(g, x) && g.has(cw.value)
    ensures g.has(EvalLevel(g, x, isLeader, n, cw, b).1)
  {
    assert g.has(g.zero);
    forall e: V, w: V | g.has(e) && g.has(w) ensures g.has(g.add(e, w)) && g.has(g.neg(g.add(e, w))) {
      GroupComm(g, e, w);
      GroupZero(g, g.add(e, w));
    }
    hide IsGroup, ConditionalSelectSeed, ConditionalXorSeeds, Extend, XorSeeds;
  }

  lemma {:induction false} LeavingSeeds<V>(g: Group<V>, x: LevelXof<V>, alpha: bool, value: V, n0: Node, n1: Node)
    requires OnPath(n0, n1)
    ensures var cw := GenLevel(g, x, alpha, value, n0, n1).0;
            ConditionalXorSeeds(ConditionalSelectSeed(!alpha, Extend(x.stream, n0.key).0), cw.seed, n0.bit)
            == ConditionalXorSeeds(ConditionalSelectSeed(!alpha, Extend(x.stream, n1.key).0), cw.seed, n1.bit)
  {
    var a := ConditionalSelectSeed(!alpha, Extend(x.stream, n0.key).0);
    var b := ConditionalSelectSeed(!alpha, Extend(x.stream, n1.key).0);
    var cw := GenLevel(g, x, alpha, value, n0, n1).0;
    hide ConditionalXorSeeds, ConditionalSelectSeed, Extend, XorSeeds;
    assert cw.seed == XorSeeds(a, b);
    ConditionalXorMeans(a, cw.seed, n0.bit);
    ConditionalXorMeans(b, cw.seed, n1.bit);
    XorCancels(a, b);
  }

  // ------------------------------------------------------------------ key generation

  /** An IDPF for one binder: the value groups of inner and leaf nodes and the XOF outputs. */
  datatype Instance<!VI, !VL> = Instance(gi: Group<VI>, gl: Group<VL>, stream: Seed -> (Seed, Seed),
                                         convertInner: Seed -> (Seed, VI), convertLeaf: Seed -> (Seed, VL))
  {
    function Inner(): LevelXof<VI> { LevelXof(stream, convertInner) }

    function Leaf(): LevelXof<VL> { LevelXof(stream, convertLeaf) }
  }

  ghost predicate ValidInstance<VI(!new), VL(!new)>(I: Instance<VI, VL>) {
    IsGroup(I.gi) && IsGroup(I.gl) && Generates(I.gi, I.Inner()) && Generates(I.gl, I.Leaf())
  }

  datatype PublicShare<VI, VL> = PublicShare(inner: seq<CorrectionWord<VI>>, leaf: CorrectionWord<VL>)

  datatype OutputShare<VI, VL> = InnerShare(vi: VI) | LeafShare(vl: VL)

  datatype IdpfError = EmptyInput | TooManyValues | TooFewValues | InvalidAggregator | EmptyPrefix | PrefixTooLong | MismatchedLevel

  /** Correction words and both parties' nodes after the first n inner levels. */
  function GenInner<VI, VL>(I: Instance<VI, VL>, input: seq<bool>, values: seq<VI>, random: (Seed, Seed), n: nat)
    : (r: (seq<CorrectionWord<VI>>, Node, Node))
    requires n <= |values| && n <= |input|
    ensures |r.0| == n
  {
    if n == 0 then ([], Node(random.0, false), Node(random.1, true))
    else
      var (cws, n0, n1) := GenInner(I, input, values, random, n - 1);
      var (cw, m0, m1) := GenLevel(I.gi, I.Inner(), input[n - 1], values[n - 1], n0, n1);
      (cws + [cw], m0, m1)
  }

  function GenSpec<VI, VL>(I: Instance<VI, VL>, input: seq<bool>, values: seq<VI>, leafValue: VL, random: (Seed, Seed))
    : (pub: PublicShare<VI, VL>)
    requires 1 <= |input| && |values| == |input| - 1
    ensures |pub.inner| == |values|
  {
    var (cws, n0, n1) := GenInner(I, input, values, random, |values|);
    PublicShare(cws, GenLevel(I.gl, I.Leaf(), input[|values|], leafValue, n0, n1).0)
  }

  /** `gen` with the given randomness: `gen_with_random` behind the check for an empty input. */
  method GenWithRandom<VI, VL>(I: Instance<VI, VL>, input: seq<bool>, innerValues: seq<VI>, leafValue: VL, random: (Seed, Seed))
    returns (res: Result<(PublicShare<VI, VL>, (Seed, Seed)), IdpfError>)
    ensures res == if |input| == 0 then Failure(EmptyInput)
                   else if |innerValues| > |input| - 1 then Failure(TooManyValues)
                   else if |innerValues| < |input| - 1 then Failure(TooFewValues)
                   else Success((GenSpec(I, input, innerValues, leafValue, random), random))
  {
    hide GenLevel;
    if |input| == 0 {
      return Failure(EmptyInput);
    }
    var bits := |input|;
    var n0, n1 := Node(random.0, false), Node(random.1, true);
    var cws: seq<CorrectionWord<VI>> := [];
    for level := 0 to |innerValues|
      invariant level <= bits - 1
      invariant (cws, n0, n1) == GenInner(I, input, innerValues, random, level)
    {
      if level >= bits - 1 {
        return Failure(TooManyValues);
      }
      var (cw, m0, m1) := GenLevel(I.gi, I.Inner(), input[level], innerValues[level], n0, n1);
      cws, n0, n1 := cws + [cw], m0, m1;
    }
    if |cws| != bits - 1 {
      return Failure(TooFewValues);
    }
    var (leaf, _, _) := GenLevel(I.gl, I.Leaf(), input[bits - 1], leafValue, n0, n1);
    return Success((PublicShare(cws, leaf), random));
  }

  lemma {:induction false} GenInnerAt<VI, VL>(I: Instance<VI, VL>, input: seq<bool>, values: seq<VI>, random: (Seed, Seed), n: nat, k: nat)
    requires k < n <= |values| && n <= |input|
    ensures var (_, n0, n1) := GenInner(I, input, values, random, k);
            GenInner(I, input, values, random, n).0[k] == GenLevel(I.gi, I.Inner(), input[k], values[k], n0, n1).0
  {
    hide GenLevel;
    if k < n - 1 {
      GenInnerAt(I, input, values, random, n - 1, k);
    }
  }

  // ------------------------------------------------------------------ evaluation

  /** A party's node after walking `prefix` from the root. */
  function Walk<VI, VL>(I: Instance<VI, VL>, pub: PublicShare<VI, VL>, isLeader: bool, key: Seed, prefix: seq<bool>): Node
    requires |prefix| <= |pub.inner|
  {
    var n := |prefix|;
    if n == 0 then Node(key, !isLeader)
    else EvalLevel(I.gi, I.Inner(), isLeader, Walk(I, pub, isLeader, key, prefix[..n - 1]), pub.inner[n - 1], prefix[n - 1]).0
  }

  /** A party's output share for a non-empty prefix. */
  function EvalSpec<VI, VL>(I: Instance<VI, VL>, pub: PublicShare<VI, VL>, isLeader: bool, key: Seed, prefix: seq<bool>): OutputShare<VI, VL>
    requires 1 <= |prefix| <= |pub.inner| + 1
  {
    var n := |prefix| - 1;
    var parent := Walk(I, pub, isLeader, key, prefix[..n]);
    if n < |pub.inner| then InnerShare(EvalLevel(I.gi, I.Inner(), isLeader, parent, pub.inner[n], prefix[n]).1)
    else LeafShare(EvalLevel(I.gl, I.Leaf(), isLeader, parent, pub.leaf, prefix[n]).1)
  }

  /** `IdpfOutputShare::merge`. */
  function Merge<VI, VL>(I: Instance<VI, VL>, a: OutputShare<VI, VL>, b: OutputShare<VI, VL>): Result<OutputShare<VI, VL>, IdpfError> {
    match (a, b)
    case (InnerShare(x), InnerShare(y)) => Success(InnerShare(I.gi.add(x, y)))
    case (LeafShare(x), LeafShare(y)) => Success(LeafShare(I.gl.add(x, y)))
    case _ => Failure(MismatchedLevel)
  }

  /** Both generation and evaluation start at a party's seed, with the control bit clear for the leader and set
      for the helper. */
  lemma {:induction false} RootNodes<VI, VL>(I: Instance<VI, VL>, pub: PublicShare<VI, VL>, input: seq<bool>, values: seq<VI>, random: (Seed, Seed))
    ensures GenInner(I, input, values, random, 0) == ([], Node(random.0, false), Node(random.1, true))
    ensures Walk(I, pub, true, random.0, []) == Node(random.0, false) && Walk(I, pub, false, random.1, []) == Node(random.1, true)
  {
  }

  /** The tree invariant: on the path the parties hold the generator's nodes and their control bits
      differ; off the path they hold the same node. */
  lemma {:induction false} WalkInvariant<VI, VL>(I: Instance<VI, VL>, input: seq<bool>, values: seq<VI>, leafValue: VL,
                                                 random: (Seed, Seed), prefix: seq<bool>)
    requires 1 <= |input| && |values| == |input| - 1 && |prefix| <= |values|
    ensures var pub := GenSpec(I, input, values, leafValue, random);
            var (_, n0, n1) := GenInner(I, input, values, random, |prefix|);
            var w0, w1 := Walk(I, pub, true, random.0, prefix), Walk(I, pub, false, random.1, prefix);
            && OnPath(n0, n1)
            && (prefix <= input ==> w0 == n0 && w1 == n1)
            && (!(prefix <= input) ==> w0 == w1)
    decreases |prefix|
  {
    hide GenLevel, EvalLevel;
    var n := |prefix|;
    if n > 0 {
      var init, b := prefix[..n - 1], prefix[n - 1];
      var pub := GenSpec(I, input, values, leafValue, random);
      var (_, n0, n1) := GenInner(I, input, values, random, n - 1);
      WalkInvariant(I, input, values, leafValue, random, init);
      GenInnerAt(I, input, values, random, |values|, n - 1);
      PrefixStep(prefix, input);
      Corrections(I.gi, I.Inner(), input[n - 1], values[n - 1], n0, n1, b);
      Corrections(I.gi, I.Inner(), input[n - 1], values[n - 1], n0, n1, input[n - 1]);
      if !(init <= input) {
        SameNode(I.gi, I.Inner(), Walk(I, pub, true, random.0, init), pub.inner[n - 1], b);
      }
    }
  }

  lemma {:induction false} PrefixStep(prefix: seq<bool>, input: seq<bool>)
    requires 0 < |prefix| <= |input|
    ensures var n := |prefix|;
            prefix <= input <==> prefix[..n - 1] <= input && prefix[n - 1] == input[n - 1]
  {
    var n := |prefix|;
    assert prefix == prefix[..n - 1] + [prefix[n - 1]];
  }

  lemma {:induction false} SameNode<V>(g: Group<V>, x: LevelXof<V>, n: Node, cw: CorrectionWord<V>, b: bool)
    ensures EvalLevel(g, x, true, n, cw, b).0 == EvalLevel(g, x, false, n, cw, b).0
  {
    hide ConditionalSelectSeed, ConditionalXorSeeds, Extend;
  }

  /** The value the IDPF is programmed with at a prefix. */
  function Programmed<VI, VL>(I: Instance<VI, VL>, input: seq<bool>, values: seq<VI>, leafValue: VL, prefix: seq<bool>): OutputShare<VI, VL>
    requires 1 <= |prefix| <= |input| && |values| == |input| - 1
  {
    if |prefix| < |input| then InnerShare(if prefix <= input then values[|prefix| - 1] else I.gi.zero)
    else LeafShare(if prefix <= input then leafValue else I.gl.zero)
  }

  /** Correctness: for every input, values and randomness, the two parties' shares at every
      non-empty prefix merge to the programmed value on the path and to zero off it. */
  lemma {:induction false} IdpfCorrect<VI(!new), VL(!new)>(I: Instance<VI, VL>, input: seq<bool>, values: seq<VI>, leafValue: VL,
                                        random: (Seed, Seed), prefix: seq<bool>)
    requires ValidInstance(I) && 1 <= |input| && |values| == |input| - 1 && 1 <= |prefix| <= |input|
    requires (forall i :: 0 <= i < |values| ==> I.gi.has(values[i])) && I.gl.has(leafValue)
    ensures var pub := GenSpec(I, input, values, leafValue, random);
            Merge(I, EvalSpec(I, pub, true, random.0, prefix), EvalSpec(I, pub, false, random.1, prefix))
            == Success(Programmed(I, input, values, leafValue, prefix))
  {
    hide GenLevel, EvalLevel, IsGroup, Generates;
    var n := |prefix| - 1;
    var init, b, alpha := prefix[..n], prefix[n], input[n];
    var pub := GenSpec(I, input, values, leafValue, random);
    var (_, n0, n1) := GenInner(I, input, values, random, n);
    WalkInvariant(I, input, values, leafValue, random, init);
    PrefixStep(prefix, input);
    var w0 := Walk(I, pub, true, random.0, init);
    if n < |values| {
      GenInnerAt(I, input, values, random, |values|, n);
      LevelShares(I.gi, I.Inner(), alpha, values[n], n0, n1, w0, pub.inner[n], b, init <= input);
    } else {
      LevelShares(I.gl, I.Leaf(), alpha, leafValue, n0, n1, w0, pub.leaf, b, init <= input);
    }
  }

  lemma {:induction false} LevelShares<V(!new)>(g: Group<V>, x: LevelXof<V>, alpha: bool, value: V, n0: Node, n1: Node,
                             w: Node, cw: CorrectionWord<V>, b: bool, onPath: bool)
    requires IsGroup(g) && Generates(g, x) && g.has(value) && OnPath(n0, n1)
    requires cw == GenLevel(g, x, alpha, value, n0, n1).0
    ensures onPath && b == alpha ==>
              g.add(EvalLevel(g, x, true, n0, cw, b).1, EvalLevel(g, x, false, n1, cw, b).1) == value
    ensures onPath && b != alpha ==>
              g.add(EvalLevel(g, x, true, n0, cw, b).1, EvalLevel(g, x, false, n1, cw, b).1) == g.zero
    ensures !onPath ==>
              g.add(EvalLevel(g, x, true, w, cw, b).1, EvalLevel(g, x, false, w, cw, b).1) == g.zero
  {
    hide GenLevel, EvalLevel, IsGroup, Generates;
    WordInGroup(g, x, alpha, value, n0, n1);
    SharesOnPath(g, x, alpha, value, n0, n1);
    SharesLeaving(g, x, alpha, value, n0, n1);
    SharesOffPath(g, x, w, cw, b);
  }
}
