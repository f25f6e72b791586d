/** Poplar1 (src/vdaf/poplar1.rs): sharding a measurement, the two-round sketch that the two
    aggregators run over their IDPF shares, aggregation and unsharding.

    Elements of the inner field (Field64) and of the leaf field (Field255) are residues modulo
    `pInner` and `pLeaf`. A pseudorandom generator is the function from positions to the elements
    it yields there. */
module Poplar1 {
  import opened Wrappers
  import opened Congruence
  import opened Idpf
  import IdpfEval

  // ------------------------------------------------------------------ IDPF values

  /** `Poplar1IdpfValue`: the data element and its authenticator. */
  datatype Pair = Pair(data: int, auth: int)

  predicate InField(p: int, x: int) { 0 <= x < p }

  predicate PairIn(p: int, v: Pair) { InField(p, v.data) && InField(p, v.auth) }

  function PairGroup(p: int): Group<Pair>
    requires p > 1
  {
    Group((v: Pair) => PairIn(p, v), Pair(0, 0),
          (a: Pair, b: Pair) => Pair(Res(p, a.data + b.data), Res(p, a.auth + b.auth)),
          (a: Pair) => Pair(Res(p, -a.data), Res(p, -a.auth)))
  }

  lemma {:induction false} PairGroupIsGroup(p: int)
    requires p > 1
    ensures IsGroup(PairGroup(p))
  {
    var g := PairGroup(p);
    forall a: Pair, b: Pair, c: Pair ensures GroupLaws(g, a, b, c) {
      if PairIn(p, a) && PairIn(p, b) && PairIn(p, c) {
        ResidueGroup(p, a.data, b.data, c.data);
        ResidueGroup(p, a.auth, b.auth, c.auth);
      }
    }
  }

  // ------------------------------------------------------------------ the instance

  /** Poplar1 for one nonce and verify key. `corr(seed, leaf, agg)` are the streams of correlated
      randomness of src/vdaf/poplar1.rs; `verify(level)` is the stream of verification randomness. */
  datatype Poplar = Poplar(bits: nat, pInner: int, pLeaf: int, stream: Seed -> (Seed, Seed),
                           convertInner: Seed -> (Seed, Pair), convertLeaf: Seed -> (Seed, Pair),
                           corr: (Seed, bool, nat) -> (nat -> int), verify: nat -> (nat -> int))
  {
    predicate Sized() { 1 <= bits && 1 < pInner <= 0x1_0000_0000_0000_0000 && 1 < pLeaf }

    /** Generators yield elements of the field they are asked for. */
    ghost predicate Valid() {
      && Sized()
      && (forall s: Seed :: PairIn(pInner, convertInner(s).1))
      && (forall s: Seed :: PairIn(pLeaf, convertLeaf(s).1))
    }

    function Modulus(leaf: bool): (p: int)
      ensures Sized() ==> p > 1
    {
      if leaf then pLeaf else pInner
    }

    function Idpf(): Instance<Pair, Pair>
      requires Sized()
    {
      Instance(PairGroup(pInner), PairGroup(pLeaf), stream, convertInner, convertLeaf)
    }
  }

  lemma {:induction false} InstanceValid(poplar: Poplar)
    requires poplar.Valid()
    ensures ValidInstance(poplar.Idpf())
  {
    PairGroupIsGroup(poplar.pInner);
    PairGroupIsGroup(poplar.pLeaf);
    hide IsGroup;
  }

  datatype PoplarError = InputLength | BadAggregator | Eval(e: IdpfError) | ShareCount | MismatchedFields
                       | LengthMismatch | SketchFailed | SketchLength | StateMismatch | TooLarge

  // ------------------------------------------------------------------ aggregation parameters

  datatype ParamError = NoPrefixes | TooManyPrefixes | UnequalLengths | Repeated | OutOfOrder | TooShort | TooLong

  datatype AggParam = AggParam(level: nat, prefixes: seq<seq<bool>>)

  /** The derived order on `IdpfInput`: lexicographic on bits. */
  predicate LexLess(a: seq<bool>, b: seq<bool>) {
    if b == [] then false
    else if a == [] then true
    else if a[0] == b[0] then LexLess(a[1..], b[1..])
    else b[0]
  }

  lemma {:induction false} LexOrder(a: seq<bool>, b: seq<bool>)
    ensures a == b ==> !LexLess(a, b)
    ensures LexLess(a, b) ==> !LexLess(b, a)
    ensures a == b || LexLess(a, b) || LexLess(b, a)
  {
    if a != [] && b != [] && a[0] == b[0] {
      LexOrder(a[1..], b[1..]);
      assert a == [a[0]] + a[1..] && b == [b[0]] + b[1..];
    }
  }

  lemma {:induction false} LexTransitive(a: seq<bool>, b: seq<bool>, c: seq<bool>)
    requires LexLess(a, b) && LexLess(b, c)
    ensures LexLess(a, c)
  {
    if a != [] && a[0] == b[0] == c[0] {
      LexTransitive(a[1..], b[1..], c[1..]);
    }
  }

  /** The fault found at index i, when the earlier prefixes have none. */
  function FaultAt(prefixes: seq<seq<bool>>, i: nat): Option<ParamError>
    requires i < |prefixes|
  {
    if |prefixes[i]| != |prefixes[0]| then Some(UnequalLengths)
    else if i > 0 && prefixes[i] == prefixes[i - 1] then Some(Repeated)
    else if i > 0 && LexLess(prefixes[i], prefixes[i - 1]) then Some(OutOfOrder)
    else None
  }

  /** The first fault among the first n prefixes. */
  function FirstFault(prefixes: seq<seq<bool>>, n: nat): Option<ParamError>
    requires n <= |prefixes|
  {
    if n == 0 then None
    else var earlier := FirstFault(prefixes, n - 1);
         if earlier.Some? then earlier else FaultAt(prefixes, n - 1)
  }

  /** `try_from_prefixes`. */
  method TryFromPrefixes(prefixes: seq<seq<bool>>) returns (res: Result<AggParam, ParamError>)
    ensures res == if |prefixes| == 0 then Failure(NoPrefixes)
                   else if |prefixes| > 0xFFFF_FFFF then Failure(TooManyPrefixes)
                   else if FirstFault(prefixes, |prefixes|).Some? then Failure(FirstFault(prefixes, |prefixes|).value)
                   else if |prefixes[0]| == 0 then Failure(TooShort)
                   else if |prefixes[0]| > 0x1_0000 then Failure(TooLong)
                   else Success(AggParam(|prefixes[0]| - 1, prefixes))
    ensures res.Success? <==> |prefixes| >= 1 && |prefixes[0]| >= 1 && ValidParam(AggParam(|prefixes[0]| - 1, prefixes))
  {
    if |prefixes| == 0 {
      return Failure(NoPrefixes);
    }
    if |prefixes| > 0xFFFF_FFFF {
      return Failure(TooManyPrefixes);
    }
    var len := |prefixes[0]|;
    AcceptedPrefixes(prefixes, |prefixes|);
    for i := 0 to |prefixes|
      invariant FirstFault(prefixes, i).None?
    {
      if |prefixes[i]| != len {
        FaultStays(prefixes, i + 1, |prefixes|);
        return Failure(UnequalLengths);
      }
      if i > 0 {
        var last := prefixes[i - 1];
        if prefixes[i] == last || LexLess(prefixes[i], last) {
          FaultStays(prefixes, i + 1, |prefixes|);
          return if prefixes[i] == last then Failure(Repeated) else Failure(OutOfOrder);
        }
      }
    }
    if len == 0 {
      return Failure(TooShort);
    }
    if len - 1 > 0xFFFF {
      return Failure(TooLong);
    }
    return Success(AggParam(len - 1, prefixes));
  }

  lemma {:induction false} FaultStays(prefixes: seq<seq<bool>>, i: nat, n: nat)
    requires i <= n <= |prefixes| && FirstFault(prefixes, i).Some?
    ensures FirstFault(prefixes, n) == FirstFault(prefixes, i)
  {
    if i < n {
      FaultStays(prefixes, i, n - 1);
    }
  }

  predicate Increasing(prefixes: seq<seq<bool>>) {
    forall i, j :: 0 <= i < j < |prefixes| ==> LexLess(prefixes[i], prefixes[j])
  }

  predicate SameLength(prefixes: seq<seq<bool>>, len: nat) {
    forall i :: 0 <= i < |prefixes| ==> |prefixes[i]| == len
  }

  /** What a constructed aggregation parameter satisfies. */
  predicate ValidParam(param: AggParam) {
    && 1 <= |param.prefixes| <= 0xFFFF_FFFF && param.level <= 0xFFFF
    && SameLength(param.prefixes, param.level + 1)
    && Increasing(param.prefixes)
  }

  /** The adjacent checks accept exactly the lists of one length that increase throughout. */
  lemma {:induction false} AcceptedPrefixes(prefixes: seq<seq<bool>>, n: nat)
    requires 1 <= n <= |prefixes|
    ensures FirstFault(prefixes, n).None?
            <==> SameLength(prefixes[..n], |prefixes[0]|) && Increasing(prefixes[..n])
    ensures prefixes[..|prefixes|] == prefixes
  {
    if n > 1 {
      AcceptedPrefixes(prefixes, n - 1);
      var q, last := prefixes[..n], prefixes[n - 1];
      assert forall i :: 0 <= i < n - 1 ==> q[i] == prefixes[..n - 1][i];
      LexOrder(prefixes[n - 2], last);
      if FirstFault(prefixes, n).None? {
        forall i, j | 0 <= i < j < n ensures LexLess(q[i], q[j]) {
          if j == n - 1 && i < n - 2 {
            assert LexLess(prefixes[..n - 1][i], prefixes[..n - 1][n - 2]);
            LexTransitive(prefixes[i], prefixes[n - 2], last);
          }
        }
      }
      if Increasing(q) && SameLength(q, |prefixes[0]|) {
        IncreasingPrefix(prefixes, n);
        assert LexLess(q[n - 2], q[n - 1]) && |q[n - 1]| == |prefixes[0]|;
      }
    } else {
      assert FirstFault(prefixes, 0).None?;
    }
  }

  lemma {:induction false} IncreasingPrefix(prefixes: seq<seq<bool>>, n: nat)
    requires 1 < n <= |prefixes| && Increasing(prefixes[..n]) && SameLength(prefixes[..n], |prefixes[0]|)
    ensures Increasing(prefixes[..n - 1]) && SameLength(prefixes[..n - 1], |prefixes[0]|)
  {
    var q, r := prefixes[..n], prefixes[..n - 1];
    assert forall i :: 0 <= i < n - 1 ==> r[i] == q[i];
  }

  /** Increasing prefixes are distinct, so at most one is on any path. */
  lemma {:induction false} AtMostOneOnPath(prefixes: seq<seq<bool>>, len: nat, input: seq<bool>, i: nat, j: nat)
    requires SameLength(prefixes, len) && Increasing(prefixes) && i < |prefixes| && j < |prefixes|
    requires prefixes[i] <= input && prefixes[j] <= input
    ensures i == j
  {
    assert prefixes[i] == input[..len] == prefixes[j];
    if i < j {
      LexOrder(prefixes[i], prefixes[j]);
    } else if j < i {
      LexOrder(prefixes[j], prefixes[i]);
    }
  }

  // ------------------------------------------------------------------ sharding

  /** `Poplar1InputShare`. */
  datatype InputShare = InputShare(idpfKey: Seed, corrSeed: Seed, corrInner: seq<(int, int)>, corrLeaf: (int, int))

  /** The client's coins: the IDPF seeds, the two correlation seeds and the elements `draw(k)` that
      the sharding generator yields, in order. */
  datatype Coins = Coins(idpf: (Seed, Seed), corr: (Seed, Seed), draw: nat -> int)

  /** The sharding generator yields elements of the inner field, except for the leaf authenticator
      and the last two. */
  ghost predicate DrawsInField(poplar: Poplar, coins: Coins) {
    forall k: nat :: InField(poplar.Modulus(k == poplar.bits - 1 || k >= 3 * poplar.bits - 2), coins.draw(k))
  }

  /** `compute_next_corr_shares` at position `pos` of the two correlation streams, with the helper's
      share (x, y) drawn from the sharding generator. */
  function CorrShares(p: int, c0: nat -> int, c1: nat -> int, pos: nat, auth: int, x: int, y: int): ((int, int), (int, int))
    requires p > 1
  {
    var a := Res(p, c0(pos) + c1(pos));
    var b := Res(p, c0(pos + 1) + c1(pos + 1));
    var c := Res(p, c0(pos + 2) + c1(pos + 2));
    var A := Res(p, -2 * a + auth);
    var B := Res(p, a * a + b - a * auth + c);
    ((Res(p, A - x), Res(p, B - y)), (x, y))
  }

  function AuthInner(poplar: Poplar, coins: Coins): (auths: seq<Pair>)
    requires poplar.Sized()
    ensures |auths| == poplar.bits - 1
  {
    seq(poplar.bits - 1, i requires 0 <= i => Pair(1, coins.draw(i)))
  }

  /** The correlation shares of inner level i. */
  function InnerCorr(poplar: Poplar, coins: Coins, i: nat): ((int, int), (int, int))
    requires poplar.Sized()
  {
    CorrShares(poplar.pInner, poplar.corr(coins.corr.0, false, 0), poplar.corr(coins.corr.1, false, 1), 3 * i, coins.draw(i),
               coins.draw(poplar.bits + 2 * i), coins.draw(poplar.bits + 2 * i + 1))
  }

  function LeafCorr(poplar: Poplar, coins: Coins): ((int, int), (int, int))
    requires poplar.Sized()
  {
    CorrShares(poplar.pLeaf, poplar.corr(coins.corr.0, true, 0), poplar.corr(coins.corr.1, true, 1), 0, coins.draw(poplar.bits - 1),
               coins.draw(3 * poplar.bits - 2), coins.draw(3 * poplar.bits - 1))
  }

  /** The public share of an honest report. */
  function ShardPublic(poplar: Poplar, input: seq<bool>, coins: Coins): (pub: PublicShare<Pair, Pair>)
    requires poplar.Sized() && |input| == poplar.bits
    ensures |pub.inner| == poplar.bits - 1
  {
    GenSpec(poplar.Idpf(), input, AuthInner(poplar, coins), Pair(1, coins.draw(poplar.bits - 1)), coins.idpf)
  }

  /** The input shares of the leader and of the helper. */
  function ShardInput(poplar: Poplar, coins: Coins, agg: nat): (share: InputShare)
    requires poplar.Sized()
    ensures |share.corrInner| == poplar.bits - 1
  {
    if agg == 0 then
      InputShare(coins.idpf.0, coins.corr.0, seq(poplar.bits - 1, i requires 0 <= i => InnerCorr(poplar, coins, i).0), LeafCorr(poplar, coins).0)
    else
      InputShare(coins.idpf.1, coins.corr.1, seq(poplar.bits - 1, i requires 0 <= i => InnerCorr(poplar, coins, i).1), LeafCorr(poplar, coins).1)
  }

  /** The first run over the sharding generator: the inner authenticators. */
  method DrawAuthenticators(poplar: Poplar, coins: Coins) returns (auths: seq<Pair>, read: nat)
    requires poplar.Sized()
    ensures auths == AuthInner(poplar, coins) && read == poplar.bits - 1
  {
    read, auths := 0, [];
    for i := 0 to poplar.bits - 1
      invariant read == |auths| == i
      invariant forall k :: 0 <= k < i ==> auths[k] == Pair(1, coins.draw(k))
    {
      auths := auths + [Pair(1, coins.draw(read))];
      read := read + 1;
    }
  }

  /** The run over the correlation streams of the inner levels. */
  method ShareCorrelations(poplar: Poplar, coins: Coins, auths: seq<Pair>, start: nat)
    returns (corr0: seq<(int, int)>, corr1: seq<(int, int)>, read: nat)
    requires poplar.Sized() && auths == AuthInner(poplar, coins) && start == poplar.bits
    ensures corr0 == ShardInput(poplar, coins, 0).corrInner && corr1 == ShardInput(poplar, coins, 1).corrInner
    ensures read == 3 * poplar.bits - 2
  {
    hide CorrShares;
    var c0, c1 := poplar.corr(coins.corr.0, false, 0), poplar.corr(coins.corr.1, false, 1);
    var corrRead := 0;
    corr0, corr1, read := [], [], start;
    for i := 0 to poplar.bits - 1
      invariant corrRead == 3 * i && read == poplar.bits + 2 * i && |corr0| == |corr1| == i
      invariant forall k :: 0 <= k < i ==> (corr0[k], corr1[k]) == InnerCorr(poplar, coins, k)
    {
      var (n0, n1) := CorrShares(poplar.pInner, c0, c1, corrRead, auths[i].auth, coins.draw(read), coins.draw(read + 1));
      corrRead, read := corrRead + 3, read + 2;
      corr0, corr1 := corr0 + [n0], corr1 + [n1];
    }
  }

  /** `shard_with_random`. */
  method ShardWithRandom(poplar: Poplar, input: seq<bool>, coins: Coins)
    returns (res: Result<(PublicShare<Pair, Pair>, InputShare, InputShare), PoplarError>)
    requires poplar.Sized()
    ensures res == if |input| != poplar.bits then Failure(InputLength)
                   else Success((ShardPublic(poplar, input, coins), ShardInput(poplar, coins, 0), ShardInput(poplar, coins, 1)))
  {
    hide CorrShares, GenSpec, AuthInner;
    if |input| != poplar.bits {
      return Failure(InputLength);
    }
    var auths, read := DrawAuthenticators(poplar, coins);
    var authLeaf := coins.draw(read);
    read := read + 1;
    var gen := GenWithRandom(poplar.Idpf(), input, auths, Pair(1, authLeaf), coins.idpf);
    var corr0, corr1, drawn := ShareCorrelations(poplar, coins, auths, read);
    var (l0, l1) := CorrShares(poplar.pLeaf, poplar.corr(coins.corr.0, true, 0), poplar.corr(coins.corr.1, true, 1), 0, authLeaf,
                               coins.draw(drawn), coins.draw(drawn + 1));
    var (pub, keys) := gen.value;
    return Success((pub, InputShare(keys.0, coins.corr.0, corr0, l0), InputShare(keys.1, coins.corr.1, corr1, l1)));
  }

  // ------------------------------------------------------------------ preparation

  /** `Poplar1FieldVec`: elements of the leaf or of the inner field. */
  datatype FieldVec = FieldVec(leaf: bool, elems: seq<int>)

  datatype SketchState = RoundOne(aShare: int, bShare: int, isLeader: bool) | RoundTwo

  /** `PrepareStateVariant`, with the variant as a flag. */
  datatype PrepareState = PrepareState(leaf: bool, sketch: SketchState, outputShare: seq<int>)

  datatype PrepareMessage = SketchMessage(leaf: bool, sketch: (int, int, int)) | Done

  datatype Transition = Continue(state: PrepareState, share: FieldVec) | Finish(output: FieldVec)

  /** A party's IDPF share at a prefix, in the field of that level. */
  function ShareAt(poplar: Poplar, agg: nat, pub: PublicShare<Pair, Pair>, key: Seed, prefix: seq<bool>): Pair
    requires poplar.Sized() && 1 <= |prefix| <= |pub.inner| + 1
  {
    match EvalSpec(poplar.Idpf(), pub, agg == 0, key, prefix)
    case InnerShare(v) => v
    case LeafShare(v) => v
  }

  function SharesAt(poplar: Poplar, agg: nat, pub: PublicShare<Pair, Pair>, key: Seed, prefixes: seq<seq<bool>>): (shares: seq<Pair>)
    requires poplar.Sized() && forall i :: 0 <= i < |prefixes| ==> 1 <= |prefixes[i]| <= |pub.inner| + 1
    ensures |shares| == |prefixes|
  {
    seq(|prefixes|, i requires 0 <= i < |prefixes| => ShareAt(poplar, agg, pub, key, prefixes[i]))
  }

  function Data(shares: seq<Pair>): (r: seq<int>)
    ensures |r| == |shares|
  {
    seq(|shares|, i requires 0 <= i < |shares| => shares[i].data)
  }

  /** The sketch: the offsets s plus the products of the shares with the verification randomness. */
  function SketchOf(p: int, shares: seq<Pair>, r: nat -> int, s: (int, int, int)): (int, int, int)
    requires p > 1
  {
    if shares == [] then s
    else
      var j := |shares| - 1;
      var (x, y, z) := SketchOf(p, shares[..j], r, s);
      var checked := Res(p, shares[j].data * r(j));
      (Res(p, x + checked), Res(p, y + checked * r(j)), Res(p, z + shares[j].auth * r(j)))
  }

  lemma {:induction false} SketchAppend(p: int, shares: seq<Pair>, v: Pair, r: nat -> int, s: (int, int, int))
    requires p > 1
    ensures var (x, y, z) := SketchOf(p, shares, r, s);
            var j := |shares|;
            var checked := Res(p, v.data * r(j));
            SketchOf(p, shares + [v], r, s) == (Res(p, x + checked), Res(p, y + checked * r(j)), Res(p, z + v.auth * r(j)))
  {
    hide Res;
    assert (shares + [v])[..|shares|] == shares;
  }

  lemma {:induction false} SketchNothing(p: int, r: nat -> int, s: (int, int, int))
    requires p > 1
    ensures SketchOf(p, [], r, s) == s
  {
  }

  function Triple(t: (int, int, int)): seq<int> { [t.0, t.1, t.2] }

  /** `eval_and_sketch`, reading the offsets at position `pos` of the correlation stream `c`. */
  method EvalAndSketch(poplar: Poplar, leaf: bool, agg: nat, param: AggParam, pub: PublicShare<Pair, Pair>, key: Seed, c: nat -> int, pos: nat)
    returns (res: Result<(seq<int>, seq<int>), PoplarError>)
    requires poplar.Sized() && agg <= 1 && ValidParam(param) && |pub.inner| == poplar.bits - 1
    ensures res == if param.level >= poplar.bits then Failure(Eval(PrefixTooLong))
                   else var shares := SharesAt(poplar, agg, pub, key, param.prefixes);
                        Success((Data(shares), Triple(SketchOf(poplar.Modulus(leaf), shares, poplar.verify(param.level), (c(pos), c(pos + 1), c(pos + 2))))))
  {
    hide EvalSpec, Increasing, SketchOf, Walk, Res;
    var p, r := poplar.Modulus(leaf), poplar.verify(param.level);
    var out: seq<int> := [];
    var sketch := (c(pos), c(pos + 1), c(pos + 2));
    var cache := new IdpfEval.IdpfCache(IdpfEval.RingBufferCache(|param.prefixes|));
    ghost var shares: seq<Pair> := [];
    SketchNothing(p, r, sketch);
    for i := 0 to |param.prefixes|
      invariant fresh(cache) && cache.Valid() && IdpfEval.Sound(poplar.Idpf(), pub, agg == 0, key, cache.inserted)
      invariant i > 0 ==> param.level < poplar.bits
      invariant |shares| == |out| == i
      invariant param.level < poplar.bits ==> forall k :: 0 <= k < i ==> shares[k] == ShareAt(poplar, agg, pub, key, param.prefixes[k])
      invariant forall k :: 0 <= k < i ==> out[k] == shares[k].data
      invariant sketch == SketchOf(p, shares, r, (c(pos), c(pos + 1), c(pos + 2)))
    {
      var e := IdpfEval.Eval(poplar.Idpf(), agg, pub, key, param.prefixes[i], cache);
      if e.Failure? {
        return Failure(Eval(e.error));
      }
      var share := match e.value case InnerShare(v) => v case LeafShare(v) => v;
      var checked := Res(p, share.data * r(i));
      sketch := (Res(p, sketch.0 + checked), Res(p, sketch.1 + checked * r(i)), Res(p, sketch.2 + share.auth * r(i)));
      out := out + [share.data];
      SketchAppend(p, shares, share, r, (c(pos), c(pos + 1), c(pos + 2)));
      shares := shares + [share];
    }
    assert shares == SharesAt(poplar, agg, pub, key, param.prefixes);
    assert out == Data(shares);
    return Success((out, Triple(sketch)));
  }

  /** Elements skipped before an inner level: the product is taken in 16 bits. */
  function FastForward(level: nat): nat { (3 * level) % 0x1_0000 }

  /** What `prepare_init` returns. */
  function Prepared(poplar: Poplar, agg: nat, param: AggParam, pub: PublicShare<Pair, Pair>, share: InputShare)
    : Result<(PrepareState, FieldVec), PoplarError>
    requires poplar.Sized() && ValidParam(param) && |pub.inner| == |share.corrInner| == poplar.bits - 1
  {
    if agg > 1 then Failure(BadAggregator)
    else if param.level >= poplar.bits then Failure(Eval(PrefixTooLong))
    else
      var leaf := param.level == poplar.bits - 1;
      var c, pos := poplar.corr(share.corrSeed, leaf, agg), if leaf then 0 else FastForward(param.level);
      var corr := if leaf then share.corrLeaf else share.corrInner[param.level];
      var shares := SharesAt(poplar, agg, pub, share.idpfKey, param.prefixes);
      Success((PrepareState(leaf, RoundOne(corr.0, corr.1, agg == 0), Data(shares)),
               FieldVec(leaf, Triple(SketchOf(poplar.Modulus(leaf), shares, poplar.verify(param.level), (c(pos), c(pos + 1), c(pos + 2)))))))
  }

  /** `prepare_init`, for an aggregation parameter that was constructed and shares that were decoded
      for this bit length. */
  method PrepareInit(poplar: Poplar, agg: nat, param: AggParam, pub: PublicShare<Pair, Pair>, share: InputShare)
    returns (res: Result<(PrepareState, FieldVec), PoplarError>)
    requires poplar.Sized() && ValidParam(param) && |pub.inner| == |share.corrInner| == poplar.bits - 1
    ensures res == Prepared(poplar, agg, param, pub, share)
  {
    hide SketchOf, SharesAt, Data, Increasing;
    if agg > 1 {
      return Failure(BadAggregator);
    }
    var isLeader := agg == 0;
    if param.level < poplar.bits - 1 {
      var pos := 0;
      var count := (3 * param.level) % 0x1_0000;
      for i := 0 to count
        invariant pos == i
      {
        pos := pos + 1;
      }
      var e := EvalAndSketch(poplar, false, agg, param, pub, share.idpfKey, poplar.corr(share.corrSeed, false, agg), pos);
      // an inner level is within the tree, so evaluation succeeds
      var corr := share.corrInner[param.level];
      return Success((PrepareState(false, RoundOne(corr.0, corr.1, isLeader), e.value.0), FieldVec(false, e.value.1)));
    } else {
      var e := EvalAndSketch(poplar, true, agg, param, pub, share.idpfKey, poplar.corr(share.corrSeed, true, agg), 0);
      if e.Failure? {
        return Failure(e.error);
      }
      return Success((PrepareState(true, RoundOne(share.corrLeaf.0, share.corrLeaf.1, isLeader), e.value.0), FieldVec(true, e.value.1)));
    }
  }

  /** Element-wise sum of two vectors of one length. */
  function AddVec(p: int, a: seq<int>, b: seq<int>): (r: seq<int>)
    requires p > 1 && |a| == |b|
    ensures |r| == |a|
  {
    seq(|a|, i requires 0 <= i < |a| => Res(p, a[i] + b[i]))
  }

  /** `merge_vector`: adds in place, or leaves the accumulator alone when the lengths differ. */
  method MergeVector(p: int, accumulator: array<int>, other: seq<int>) returns (ok: bool)
    requires p > 1
    modifies accumulator
    ensures ok <==> accumulator.Length == |other|
    ensures accumulator[..] == if accumulator.Length == |other| then AddVec(p, old(accumulator[..]), other) else old(accumulator[..])
  {
    if accumulator.Length != |other| {
      return false;
    }
    for i := 0 to |other|
      invariant forall k :: 0 <= k < i ==> accumulator[k] == Res(p, old(accumulator[k]) + other[k])
      invariant forall k :: i <= k < |other| ==> accumulator[k] == old(accumulator[k])
    {
      accumulator[i] := Res(p, accumulator[i] + other[i]);
    }
    return true;
  }

  /** `next_message`: three elements continue, one element must be zero. */
  function NextMessage(p: int, share0: seq<int>, share1: seq<int>): Result<Option<(int, int, int)>, PoplarError>
    requires p > 1
  {
    if |share0| != |share1| then Failure(LengthMismatch)
    else
      var sum := AddVec(p, share0, share1);
      if |sum| == 1 then (if sum[0] != 0 then Failure(SketchFailed) else Success(None))
      else if |sum| == 3 then Success(Some((sum[0], sum[1], sum[2])))
      else Failure(SketchLength)
  }

  /** `prepare_shares_to_prepare_message`. */
  function SharesToMessage(poplar: Poplar, inputs: seq<FieldVec>): Result<PrepareMessage, PoplarError>
    requires poplar.Sized()
  {
    if |inputs| != 2 then Failure(ShareCount)
    else if inputs[0].leaf != inputs[1].leaf then Failure(MismatchedFields)
    else
      match NextMessage(poplar.Modulus(inputs[0].leaf), inputs[0].elems, inputs[1].elems)
      case Failure(e) => Failure(e)
      case Success(None) => Success(Done)
      case Success(Some(z)) => Success(SketchMessage(inputs[0].leaf, z))
  }

  /** `finish_sketch`. */
  function FinishSketch(p: int, z: (int, int, int), aShare: int, bShare: int, isLeader: bool): seq<int>
    requires p > 1
  {
    var v := aShare * z.0 + bShare;
    [Res(p, if isLeader then v else v + (z.0 * z.0 - z.1 - z.2))]
  }

  /** `prepare_next`. */
  function PrepareNext(poplar: Poplar, state: PrepareState, msg: PrepareMessage): Result<Transition, PoplarError>
    requires poplar.Sized()
  {
    match (state.sketch, msg)
    case (RoundOne(a, b, isLeader), SketchMessage(leaf, z)) =>
      if state.leaf != leaf then Failure(StateMismatch)
      else Success(Continue(state.(sketch := RoundTwo), FieldVec(leaf, FinishSketch(poplar.Modulus(leaf), z, a, b, isLeader))))
    case (RoundTwo, Done) => Success(Finish(FieldVec(state.leaf, state.outputShare)))
    case _ => Failure(StateMismatch)
  }

  // ------------------------------------------------------------------ aggregation

  function Zeros(len: nat): seq<int> { seq(len, _ => 0) }

  /** The element-wise sum of shares of one field and length, or the first mismatch. */
  function AggregateOf(poplar: Poplar, leaf: bool, len: nat, shares: seq<FieldVec>): (r: Result<FieldVec, PoplarError>)
    requires poplar.Sized()
    ensures r.Success? ==> r.value.leaf == leaf && |r.value.elems| == len
  {
    if shares == [] then Success(FieldVec(leaf, Zeros(len)))
    else
      var last := shares[|shares| - 1];
      match AggregateOf(poplar, leaf, len, shares[..|shares| - 1])
      case Failure(e) => Failure(e)
      case Success(acc) =>
        if last.leaf != leaf then Failure(MismatchedFields)
        else if |last.elems| != len then Failure(LengthMismatch)
        else Success(FieldVec(leaf, AddVec(poplar.Modulus(leaf), acc.elems, last.elems)))
  }

  /** `aggregate`. */
  method Aggregate(poplar: Poplar, leaf: bool, len: nat, shares: seq<FieldVec>) returns (res: Result<FieldVec, PoplarError>)
    requires poplar.Sized()
    ensures res == AggregateOf(poplar, leaf, len, shares)
  {
    hide AddVec;
    var acc := new int[len](_ => 0);
    assert acc[..] == Zeros(len);
    for i := 0 to |shares|
      invariant fresh(acc)
      invariant AggregateOf(poplar, leaf, len, shares[..i]) == Success(FieldVec(leaf, acc[..]))
    {
      assert shares[..i + 1][..i] == shares[..i];
      if shares[i].leaf != leaf {
        FailureStays(poplar, leaf, len, shares, i + 1);
        return Failure(MismatchedFields);
      }
      var ok := MergeVector(poplar.Modulus(leaf), acc, shares[i].elems);
      if !ok {
        FailureStays(poplar, leaf, len, shares, i + 1);
        return Failure(LengthMismatch);
      }
    }
    assert shares[..|shares|] == shares;
    return Success(FieldVec(leaf, acc[..]));
  }

  lemma {:induction false} FailureStays(poplar: Poplar, leaf: bool, len: nat, shares: seq<FieldVec>, i: nat)
    requires poplar.Sized() && i <= |shares| && AggregateOf(poplar, leaf, len, shares[..i]).Failure?
    ensures AggregateOf(poplar, leaf, len, shares) == AggregateOf(poplar, leaf, len, shares[..i])
    decreases |shares|
  {
    if i < |shares| {
      var n := |shares| - 1;
      assert shares[..n][..i] == shares[..i];
      FailureStays(poplar, leaf, len, shares[..n], i);
    } else {
      assert shares[..i] == shares;
    }
  }

  /** `unshard`: leaf elements must fit in 64 bits. */
  method Unshard(poplar: Poplar, param: AggParam, aggShares: seq<FieldVec>) returns (res: Result<seq<int>, PoplarError>)
    requires poplar.Sized()
    ensures res == UnshardOf(poplar, param, aggShares)
  {
    var leaf := param.level == poplar.bits - 1;
    var sum := Aggregate(poplar, leaf, |param.prefixes|, aggShares);
    if sum.Failure? {
      return Failure(sum.error);
    }
    if !leaf {
      return Success(sum.value.elems);
    }
    for i := 0 to |sum.value.elems|
      invariant forall k :: 0 <= k < i ==> sum.value.elems[k] <= 0xFFFF_FFFF_FFFF_FFFF
    {
      if sum.value.elems[i] > 0xFFFF_FFFF_FFFF_FFFF {
        return Failure(TooLarge);
      }
    }
    return Success(sum.value.elems);
  }

  function UnshardOf(poplar: Poplar, param: AggParam, aggShares: seq<FieldVec>): Result<seq<int>, PoplarError>
    requires poplar.Sized()
  {
    var leaf := param.level == poplar.bits - 1;
    match AggregateOf(poplar, leaf, |param.prefixes|, aggShares)
    case Failure(e) => Failure(e)
    case Success(sum) =>
      if leaf && exists k :: 0 <= k < |sum.elems| && sum.elems[k] > 0xFFFF_FFFF_FFFF_FFFF then Failure(TooLarge)
      else Success(sum.elems)
  }
}
