/** Poplar1 beyond honest runs: how the client's coins are spent and what they hide, and exactly when the
    two aggregators accept, whatever report they hold. */
module Poplar1Sound {
  import opened Wrappers
  import opened Congruence
  import opened Idpf
  import opened Poplar1
  import opened Poplar1Correct
  import opened CodecLayout

  // ------------------------------------------------------------------ the correlation shares

  /** The sums A = -2a + auth and B = a^2 + b - a*auth + c that a level's correlation shares must have. */
  function CorrSums(p: int, o: (int, int, int), auth: int): (int, int)
    requires p > 1
  {
    (Res(p, -2 * o.0 + auth), Res(p, o.0 * o.0 + o.1 - o.0 * auth + o.2))
  }

  /** The offsets of inner level i, or of the leaf level: both seeds' streams added. */
  function LevelOffsets(poplar: Poplar, coins: Coins, leaf: bool, pos: nat): (int, int, int) {
    var c0, c1 := poplar.corr(coins.corr.0, leaf, 0), poplar.corr(coins.corr.1, leaf, 1);
    (c0(pos) + c1(pos), c0(pos + 1) + c1(pos + 1), c0(pos + 2) + c1(pos + 2))
  }

  /** The helper's share is a fresh pair of draws, and the leader's the rest of the sums, at every inner
      level and at the leaf level; each party gets its own seeds. */
  lemma {:induction false} CorrelationsMasked(poplar: Poplar, coins: Coins, i: nat)
    requires poplar.Sized()
    ensures i < poplar.bits - 1 ==>
              var (A, B) := CorrSums(poplar.pInner, LevelOffsets(poplar, coins, false, 3 * i), coins.draw(i));
              var x, y := coins.draw(poplar.bits + 2 * i), coins.draw(poplar.bits + 2 * i + 1);
              && ShardInput(poplar, coins, 1).corrInner[i] == (x, y)
              && ShardInput(poplar, coins, 0).corrInner[i] == (Res(poplar.pInner, A - x), Res(poplar.pInner, B - y))
    ensures var (A, B) := CorrSums(poplar.pLeaf, LevelOffsets(poplar, coins, true, 0), coins.draw(poplar.bits - 1));
            var x, y := coins.draw(3 * poplar.bits - 2), coins.draw(3 * poplar.bits - 1);
            && ShardInput(poplar, coins, 1).corrLeaf == (x, y)
            && ShardInput(poplar, coins, 0).corrLeaf == (Res(poplar.pLeaf, A - x), Res(poplar.pLeaf, B - y))
    ensures ShardInput(poplar, coins, 0).idpfKey == coins.idpf.0 && ShardInput(poplar, coins, 1).idpfKey == coins.idpf.1
    ensures ShardInput(poplar, coins, 0).corrSeed == coins.corr.0 && ShardInput(poplar, coins, 1).corrSeed == coins.corr.1
  {
    hide CorrShares, CorrSums, Res;
    if i < poplar.bits - 1 {
      MaskedShares(poplar.pInner, poplar.corr(coins.corr.0, false, 0), poplar.corr(coins.corr.1, false, 1), 3 * i, coins.draw(i),
                   coins.draw(poplar.bits + 2 * i), coins.draw(poplar.bits + 2 * i + 1));
    }
    MaskedShares(poplar.pLeaf, poplar.corr(coins.corr.0, true, 0), poplar.corr(coins.corr.1, true, 1), 0, coins.draw(poplar.bits - 1),
                 coins.draw(3 * poplar.bits - 2), coins.draw(3 * poplar.bits - 1));
  }

  lemma {:induction false} MaskedShares(p: int, c0: nat -> int, c1: nat -> int, pos: nat, auth: int, x: int, y: int)
    requires p > 1
    ensures var (A, B) := CorrSums(p, (c0(pos) + c1(pos), c0(pos + 1) + c1(pos + 1), c0(pos + 2) + c1(pos + 2)), auth);
            CorrShares(p, c0, c1, pos, auth, x, y) == ((Res(p, A - x), Res(p, B - y)), (x, y))
  {
    ReducedSums(p, (c0(pos) + c1(pos), c0(pos + 1) + c1(pos + 1), c0(pos + 2) + c1(pos + 2)), auth);
    hide Res;
  }

  /** The sums do not depend on whether the offsets are reduced first. */
  lemma {:induction false} ReducedSums(p: int, o: (int, int, int), auth: int)
    requires p > 1
    ensures CorrSums(p, o, auth) == CorrSums(p, (Res(p, o.0), Res(p, o.1), Res(p, o.2)), auth)
  {
    hide Res, Cong;
    var a, b, c := Res(p, o.0), Res(p, o.1), Res(p, o.2);
    CongRes(p, o.0);
    CongRes(p, o.1);
    CongRes(p, o.2);
    CongRefl(p, auth);
    CongRefl(p, -2);
    CongMul(p, -2, -2, a, o.0);
    CongAdd(p, -2 * a, -2 * o.0, auth, auth);
    CongEqual(p, -2 * a + auth, -2 * o.0 + auth);
    CongMul(p, a, o.0, a, o.0);
    CongMul(p, a, o.0, auth, auth);
    CongAdd(p, a * a, o.0 * o.0, b, o.1);
    CongAdd(p, a * a + b, o.0 * o.0 + o.1, a * auth, o.0 * auth);
    CongAdd(p, a * a + b - a * auth, o.0 * o.0 + o.1 - o.0 * auth, c, o.2);
    CongEqual(p, a * a + b - a * auth + c, o.0 * o.0 + o.1 - o.0 * auth + o.2);
  }

  /** The coins with other elements drawn at position k and the next one. */
  function Redrawn(coins: Coins, k: nat, x: int, y: int): Coins {
    coins.(draw := (j: nat) => if j == k then x else if j == k + 1 then y else coins.draw(j))
  }

  lemma {:induction false} MaskOf(p: int, a: int, u: int)
    requires p > 1 && InField(p, u)
    ensures Res(p, a - Res(p, a - u)) == u
  {
    hide Cong;
    CongRes(p, a - u);
    CongRefl(p, a);
    CongAdd(p, a, a, Res(p, a - u), a - u);
    CongEqual(p, a - Res(p, a - u), u);
    ResSmall(p, u);
  }

  /** Perfect hiding: with everything else fixed, every pair of residues is the leader's share of inner level
      i for some pair of draws, which changes nothing but the two shares of that level. */
  lemma {:induction false} LeaderShareHides(poplar: Poplar, coins: Coins, i: nat, u: int, v: int) returns (other: Coins)
    requires poplar.Sized() && i < poplar.bits - 1 && InField(poplar.pInner, u) && InField(poplar.pInner, v)
    ensures var k := poplar.bits + 2 * i;
            && other == Redrawn(coins, k, other.draw(k), other.draw(k + 1))
            && InField(poplar.pInner, other.draw(k)) && InField(poplar.pInner, other.draw(k + 1))
    ensures ShardInput(poplar, other, 0).corrInner[i] == (u, v)
    ensures forall j :: 0 <= j < poplar.bits - 1 && j != i ==>
              && ShardInput(poplar, other, 0).corrInner[j] == ShardInput(poplar, coins, 0).corrInner[j]
              && ShardInput(poplar, other, 1).corrInner[j] == ShardInput(poplar, coins, 1).corrInner[j]
    ensures ShardInput(poplar, other, 0).corrLeaf == ShardInput(poplar, coins, 0).corrLeaf
    ensures ShardInput(poplar, other, 1).corrLeaf == ShardInput(poplar, coins, 1).corrLeaf
    ensures AuthInner(poplar, other) == AuthInner(poplar, coins) && other.draw(poplar.bits - 1) == coins.draw(poplar.bits - 1)
  {
    hide Res, CorrShares, CorrSums;
    var p, k := poplar.pInner, poplar.bits + 2 * i;
    var (A, B) := CorrSums(p, LevelOffsets(poplar, coins, false, 3 * i), coins.draw(i));
    other := Redrawn(coins, k, Res(p, A - u), Res(p, B - v));
    MaskOf(p, A, u);
    MaskOf(p, B, v);
    CorrelationsMasked(poplar, other, i);
    OthersKept(poplar, coins, k, Res(p, A - u), Res(p, B - v), i);
  }

  /** Redrawing the pair of inner level i changes no other level and no authenticator. */
  lemma {:induction false} OthersKept(poplar: Poplar, coins: Coins, k: nat, x: int, y: int, i: nat)
    requires poplar.Sized() && i < poplar.bits - 1 && k == poplar.bits + 2 * i
    ensures var other := Redrawn(coins, k, x, y);
            && (forall j :: 0 <= j < poplar.bits - 1 && j != i ==> InnerCorr(poplar, other, j) == InnerCorr(poplar, coins, j))
            && LeafCorr(poplar, other) == LeafCorr(poplar, coins) && AuthInner(poplar, other) == AuthInner(poplar, coins)
            && other.draw(poplar.bits - 1) == coins.draw(poplar.bits - 1)
            && LevelOffsets(poplar, other, false, 3 * i) == LevelOffsets(poplar, coins, false, 3 * i)
  {
    hide Res, CorrShares;
    assert AuthInner(poplar, Redrawn(coins, k, x, y)) == AuthInner(poplar, coins);
  }

  /** The same for the leaf level. */
  lemma {:induction false} LeafShareHides(poplar: Poplar, coins: Coins, u: int, v: int) returns (other: Coins)
    requires poplar.Sized() && InField(poplar.pLeaf, u) && InField(poplar.pLeaf, v)
    ensures var k := 3 * poplar.bits - 2;
            && other == Redrawn(coins, k, other.draw(k), other.draw(k + 1))
            && InField(poplar.pLeaf, other.draw(k)) && InField(poplar.pLeaf, other.draw(k + 1))
    ensures ShardInput(poplar, other, 0).corrLeaf == (u, v)
    ensures ShardInput(poplar, other, 0).corrInner == ShardInput(poplar, coins, 0).corrInner
    ensures ShardInput(poplar, other, 1).corrInner == ShardInput(poplar, coins, 1).corrInner
    ensures AuthInner(poplar, other) == AuthInner(poplar, coins) && other.draw(poplar.bits - 1) == coins.draw(poplar.bits - 1)
  {
    var p, k := poplar.pLeaf, 3 * poplar.bits - 2;
    var (A, B) := CorrSums(p, LevelOffsets(poplar, coins, true, 0), coins.draw(poplar.bits - 1));
    other := Redrawn(coins, k, Res(p, A - u), Res(p, B - v));
    MaskOf(p, A, u);
    MaskOf(p, B, v);
    hide Res, CorrShares, CorrSums;
    CorrelationsMasked(poplar, other, 0);
    assert LevelOffsets(poplar, other, true, 0) == LevelOffsets(poplar, coins, true, 0);
    assert AuthInner(poplar, other) == AuthInner(poplar, coins);
    assert ShardInput(poplar, other, 0).corrInner == ShardInput(poplar, coins, 0).corrInner;
    assert ShardInput(poplar, other, 1).corrInner == ShardInput(poplar, coins, 1).corrInner;
  }

  // ------------------------------------------------------------------ any report

  /** What the two verifier shares add to: the received correlation sums A and B on the sketch X, Y, W with
      the offsets read. */
  ghost function VerifierValue(A: int, B: int, o: (int, int, int), X: int, Y: int, W: int): int {
    A * (o.0 + X) + B + (o.0 + X) * (o.0 + X) - (o.1 + Y) - (o.2 + W)
  }

  lemma {:induction false} AnyVerifier(p: int, z: (int, int, int), k0: (int, int), k1: (int, int), o: (int, int, int), X: int, Y: int, W: int)
    requires p > 1 && Cong(p, z.0, o.0 + X) && Cong(p, z.1, o.1 + Y) && Cong(p, z.2, o.2 + W)
    ensures Cong(p, FinishSketch(p, z, k0.0, k0.1, true)[0] + FinishSketch(p, z, k1.0, k1.1, false)[0],
                 VerifierValue(k0.0 + k1.0, k0.1 + k1.1, o, X, Y, W))
  {
    hide Res, Cong;
    var v0 := k0.0 * z.0 + k0.1;
    var v1 := k1.0 * z.0 + k1.1 + (z.0 * z.0 - z.1 - z.2);
    CongRes(p, v0);
    CongRes(p, v1);
    CongAdd(p, Res(p, v0), v0, Res(p, v1), v1);
    var A, B, Z := k0.0 + k1.0, k0.1 + k1.1, o.0 + X;
    CongRefl(p, A);
    CongRefl(p, B);
    CongMul(p, A, A, z.0, Z);
    CongAdd(p, A * z.0, A * Z, B, B);
    CongMul(p, z.0, Z, z.0, Z);
    CongAdd(p, A * z.0 + B, A * Z + B, z.0 * z.0, Z * Z);
    CongAdd(p, A * z.0 + B + z.0 * z.0, A * Z + B + Z * Z, z.1, o.1 + Y);
    CongAdd(p, A * z.0 + B + z.0 * z.0 - z.1, A * Z + B + Z * Z - (o.1 + Y), z.2, o.2 + W);
    Distributes(k0.0, k1.0, z.0);
    CongTrans(p, Res(p, v0) + Res(p, v1), v0 + v1, VerifierValue(A, B, o, X, Y, W));
  }

  lemma {:induction false} Distributes(a: int, b: int, c: int)
    ensures (a + b) * c == a * c + b * c
  {
  }

  /** The sums of both parties' shares of the prefixes, with the verification randomness of the level. */
  ghost function SketchTotal(poplar: Poplar, param: AggParam, u: seq<Pair>, w: seq<Pair>): (int, int, int) {
    var r := poplar.verify(param.level);
    (Dot(Data(u), r) + Dot(Data(w), r), Dot(Data(u), Squares(r)) + Dot(Data(w), Squares(r)), Dot(Auths(u), r) + Dot(Auths(w), r))
  }

  /** The offsets both parties read: each from its own seed's stream for the level's field. */
  function ReadOffsets(poplar: Poplar, param: AggParam, in0: InputShare, in1: InputShare): (int, int, int) {
    var leaf, pos := IsLeaf(poplar, param), ReadAt(poplar, param);
    var c0, c1 := poplar.corr(in0.corrSeed, leaf, 0), poplar.corr(in1.corrSeed, leaf, 1);
    (c0(pos) + c1(pos), c0(pos + 1) + c1(pos + 1), c0(pos + 2) + c1(pos + 2))
  }

  function ReceivedCorr(poplar: Poplar, param: AggParam, share: InputShare): (int, int)
    requires |share.corrInner| == poplar.bits - 1 && param.level < poplar.bits
  {
    if IsLeaf(poplar, param) then share.corrLeaf else share.corrInner[param.level]
  }

  /** The value that decides a report. */
  ghost function ReportValue(poplar: Poplar, param: AggParam, pub: PublicShare<Pair, Pair>, in0: InputShare, in1: InputShare): int
    requires poplar.Sized() && ValidParam(param) && |pub.inner| == |in0.corrInner| == |in1.corrInner| == poplar.bits - 1 && param.level < poplar.bits
  {
    var k0, k1 := ReceivedCorr(poplar, param, in0), ReceivedCorr(poplar, param, in1);
    var t := SketchTotal(poplar, param, SharesAt(poplar, 0, pub, in0.idpfKey, param.prefixes), SharesAt(poplar, 1, pub, in1.idpfKey, param.prefixes));
    VerifierValue(k0.0 + k1.0, k0.1 + k1.1, ReadOffsets(poplar, param, in0, in1), t.0, t.1, t.2)
  }

  function SketchFor(poplar: Poplar, param: AggParam, agg: nat, shares: seq<Pair>, seed: Seed): (int, int, int)
    requires poplar.Sized()
  {
    var leaf := IsLeaf(poplar, param);
    SketchOf(poplar.Modulus(leaf), shares, poplar.verify(param.level), OffsetsOf(poplar.corr(seed, leaf, agg), ReadAt(poplar, param)))
  }

  lemma {:induction false} AnyStart(poplar: Poplar, param: AggParam, pub: PublicShare<Pair, Pair>, in0: InputShare, in1: InputShare)
    requires poplar.Sized() && ValidParam(param) && |pub.inner| == |in0.corrInner| == |in1.corrInner| == poplar.bits - 1 && param.level < poplar.bits
    ensures var leaf, k0, k1 := IsLeaf(poplar, param), ReceivedCorr(poplar, param, in0), ReceivedCorr(poplar, param, in1);
            var u, w := SharesAt(poplar, 0, pub, in0.idpfKey, param.prefixes), SharesAt(poplar, 1, pub, in1.idpfKey, param.prefixes);
            Start(poplar, param, pub, in0, in1)
            == Running(PrepareState(leaf, RoundOne(k0.0, k0.1, true), Data(u)), PrepareState(leaf, RoundOne(k1.0, k1.1, false), Data(w)),
                       FieldVec(leaf, Triple(SketchFor(poplar, param, 0, u, in0.corrSeed))),
                       FieldVec(leaf, Triple(SketchFor(poplar, param, 1, w, in1.corrSeed))))
  {
    hide Increasing, SketchOf, SharesAt, Data;
  }

  lemma {:induction false} AnySketch(poplar: Poplar, param: AggParam, u: seq<Pair>, w: seq<Pair>, in0: InputShare, in1: InputShare)
    requires poplar.Sized()
    ensures var p := poplar.Modulus(IsLeaf(poplar, param));
            var z := SketchSum(p, SketchFor(poplar, param, 0, u, in0.corrSeed), SketchFor(poplar, param, 1, w, in1.corrSeed));
            var o, t := ReadOffsets(poplar, param, in0, in1), SketchTotal(poplar, param, u, w);
            Cong(p, z.0, o.0 + t.0) && Cong(p, z.1, o.1 + t.1) && Cong(p, z.2, o.2 + t.2)
  {
    hide Res, Cong, SketchOf, Dot, Data, Auths;
    var leaf, pos, r := IsLeaf(poplar, param), ReadAt(poplar, param), poplar.verify(param.level);
    var p := poplar.Modulus(leaf);
    var a, b := OffsetsOf(poplar.corr(in0.corrSeed, leaf, 0), pos), OffsetsOf(poplar.corr(in1.corrSeed, leaf, 1), pos);
    var s, t := SketchOf(p, u, r, a), SketchOf(p, w, r, b);
    SketchSums(p, u, r, a);
    SketchSums(p, w, r, b);
    SumOfSketches(p, s.0, t.0, a.0, Dot(Data(u), r), b.0, Dot(Data(w), r));
    SumOfSketches(p, s.1, t.1, a.1, Dot(Data(u), Squares(r)), b.1, Dot(Data(w), Squares(r)));
    SumOfSketches(p, s.2, t.2, a.2, Dot(Auths(u), r), b.2, Dot(Auths(w), r));
  }

  lemma {:induction false} SumOfSketches(p: int, s: int, t: int, a: int, x: int, b: int, y: int)
    requires p > 1 && Cong(p, s, a + x) && Cong(p, t, b + y)
    ensures Cong(p, Res(p, s + t), a + b + (x + y))
  {
    hide Res, Cong;
    CongRes(p, s + t);
    CongAdd(p, s, a + x, t, b + y);
    CongTrans(p, Res(p, s + t), s + t, a + b + (x + y));
  }

  /** Exactly when a report is accepted, for every public share and every pair of input shares: the first
      round always continues, and the second finishes with the evaluated shares if the report's value
      vanishes, and fails otherwise. */
  lemma {:induction false} AnyRun(poplar: Poplar, param: AggParam, pub: PublicShare<Pair, Pair>, in0: InputShare, in1: InputShare)
    requires poplar.Sized() && ValidParam(param) && |pub.inner| == |in0.corrInner| == |in1.corrInner| == poplar.bits - 1 && param.level < poplar.bits
    ensures var leaf, run := IsLeaf(poplar, param), Start(poplar, param, pub, in0, in1);
            && run.Running? && Round(poplar, run).Running?
            && Round(poplar, Round(poplar, run)) ==
                 if Cong(poplar.Modulus(leaf), ReportValue(poplar, param, pub, in0, in1), 0)
                 then Finished(FieldVec(leaf, Data(SharesAt(poplar, 0, pub, in0.idpfKey, param.prefixes))),
                               FieldVec(leaf, Data(SharesAt(poplar, 1, pub, in1.idpfKey, param.prefixes))))
                 else Failed(SketchFailed)
  {
    hide Res, Cong, SketchOf, SharesAt, Data, Increasing, FinishSketch, SketchFor, SketchTotal, ReadOffsets, VerifierValue, Start, Round;
    var leaf, k0, k1 := IsLeaf(poplar, param), ReceivedCorr(poplar, param, in0), ReceivedCorr(poplar, param, in1);
    var u, w := SharesAt(poplar, 0, pub, in0.idpfKey, param.prefixes), SharesAt(poplar, 1, pub, in1.idpfKey, param.prefixes);
    var x, y := SketchFor(poplar, param, 0, u, in0.corrSeed), SketchFor(poplar, param, 1, w, in1.corrSeed);
    var p, t := poplar.Modulus(leaf), SketchTotal(poplar, param, u, w);
    AnyStart(poplar, param, pub, in0, in1);
    AnySketch(poplar, param, u, w, in0, in1);
    AnyVerifier(p, SketchSum(p, x, y), k0, k1, ReadOffsets(poplar, param, in0, in1), t.0, t.1, t.2);
    TwoRounds(poplar, leaf, Data(u), Data(w), x, y, k0, k1, ReportValue(poplar, param, pub, in0, in1));
  }

  /** With correlation sums as an honest client computes them for the offsets read, the value is the
      sketch's defect: the square of the data's product minus the product with the squares, plus the
      authenticator's. */
  lemma {:induction false} DefectDecides(o: (int, int, int), auth: int, X: int, Y: int, W: int)
    ensures VerifierValue(-2 * o.0 + auth, o.0 * o.0 + o.1 - o.0 * auth + o.2, o, X, Y, W) == X * X - Y + (auth * X - W)
  {
    var a := o.0;
    calc {
      VerifierValue(-2 * a + auth, a * a + o.1 - a * auth + o.2, o, X, Y, W);
      (-2 * a + auth) * (a + X) + (a * a - a * auth) + (a + X) * (a + X) - Y - W;
      X * X - Y + (auth * X - W);
    }
  }

  // ------------------------------------------------------------------ refusals

  /** A combined message exists exactly for two shares of one field and one length, of three elements or of
      a single one that adds to zero. */
  lemma {:induction false} MessageIff(poplar: Poplar, inputs: seq<FieldVec>)
    requires poplar.Sized()
    ensures SharesToMessage(poplar, inputs).Success?
            <==> && |inputs| == 2 && inputs[0].leaf == inputs[1].leaf && |inputs[0].elems| == |inputs[1].elems|
                 && (|| |inputs[0].elems| == 3
                     || (|inputs[0].elems| == 1 && Cong(poplar.Modulus(inputs[0].leaf), inputs[0].elems[0] + inputs[1].elems[0], 0)))
  {
    if |inputs| == 2 && |inputs[0].elems| == |inputs[1].elems| == 1 {
      ResSmall(poplar.Modulus(inputs[0].leaf), 0);
    }
    hide Res;
  }

  /** Aggregation succeeds exactly on shares of the right field and length. */
  lemma {:induction false} AggregateIff(poplar: Poplar, leaf: bool, len: nat, shares: seq<FieldVec>)
    requires poplar.Sized()
    ensures AggregateOf(poplar, leaf, len, shares).Success?
            <==> forall i :: 0 <= i < |shares| ==> shares[i].leaf == leaf && |shares[i].elems| == len
  {
    hide Res;
    if shares != [] {
      var n := |shares| - 1;
      AggregateIff(poplar, leaf, len, shares[..n]);
      assert forall i :: 0 <= i < n ==> shares[..n][i] == shares[i];
    }
  }

  /** Unsharding succeeds exactly when aggregation does and, at the leaf level, every count fits in 64 bits. */
  lemma {:induction false} UnshardIff(poplar: Poplar, param: AggParam, shares: seq<FieldVec>)
    requires poplar.Sized()
    ensures var sum := AggregateOf(poplar, IsLeaf(poplar, param), |param.prefixes|, shares);
            && (UnshardOf(poplar, param, shares).Success?
                <==> sum.Success? && (IsLeaf(poplar, param) ==> forall k :: 0 <= k < |sum.value.elems| ==> sum.value.elems[k] < 0x1_0000_0000_0000_0000))
            && (UnshardOf(poplar, param, shares).Success? ==> UnshardOf(poplar, param, shares).value == sum.value.elems)
  {
    hide AggregateOf;
  }

  /** Preparation starts exactly for the two aggregators and the levels of the tree. */
  lemma {:induction false} PreparedIff(poplar: Poplar, agg: nat, param: AggParam, pub: PublicShare<Pair, Pair>, share: InputShare)
    requires poplar.Sized() && ValidParam(param) && |pub.inner| == |share.corrInner| == poplar.bits - 1
    ensures Prepared(poplar, agg, param, pub, share).Success? <==> agg <= 1 && param.level < poplar.bits
  {
    hide SketchOf, SharesAt, Data, Increasing;
  }

  /** The state machine of an aggregator: a first-round state takes only a sketch of its field, and answers with
      its verifier share; a second-round state takes only the empty message, and releases its output share
      unchanged; everything else is refused. The leader's verifier share is A*z + B; the helper's has the
      public part z^2 - y - w added. */
  lemma {:induction false} PrepareNextIff(poplar: Poplar, state: PrepareState, msg: PrepareMessage)
    requires poplar.Sized()
    ensures PrepareNext(poplar, state, msg).Success?
            <==> || (state.sketch.RoundOne? && msg.SketchMessage? && state.leaf == msg.leaf)
                 || (state.sketch.RoundTwo? && msg.Done?)
    ensures PrepareNext(poplar, state, msg).Failure? ==> PrepareNext(poplar, state, msg) == Failure(StateMismatch)
    ensures state.sketch.RoundTwo? && msg.Done? ==> PrepareNext(poplar, state, msg) == Success(Finish(FieldVec(state.leaf, state.outputShare)))
    ensures state.sketch.RoundOne? && msg.SketchMessage? && state.leaf == msg.leaf ==>
              var RoundOne(A, B, leader) := state.sketch;
              var (z, y, w) := msg.sketch;
              var verifier := if leader then A * z + B else A * z + B + (z * z - y - w);
              PrepareNext(poplar, state, msg)
              == Success(Continue(PrepareState(state.leaf, RoundTwo, state.outputShare), FieldVec(state.leaf, [Res(poplar.Modulus(state.leaf), verifier)])))
  {
    hide Res;
  }

  /** The reported fault is the first one, and its kind is what the indices of the prefix and its predecessor
      say. */
  lemma {:induction false} FaultKinds(prefixes: seq<seq<bool>>, n: nat) returns (i: nat)
    requires n <= |prefixes| && FirstFault(prefixes, n).Some?
    ensures i < n && FirstFault(prefixes, i).None?
    ensures FirstFault(prefixes, n).value
         == if |prefixes[i]| != |prefixes[0]| then UnequalLengths
            else if i > 0 && prefixes[i] == prefixes[i - 1] then Repeated
            else OutOfOrder
    ensures FirstFault(prefixes, n) == Some(OutOfOrder) ==>
              i > 0 && |prefixes[i]| == |prefixes[i - 1]| && Index(prefixes[i]) < Index(prefixes[i - 1])
  {
    if FirstFault(prefixes, n - 1).Some? {
      i := FaultKinds(prefixes, n - 1);
    } else {
      i := n - 1;
      if i > 0 {
        assert FirstFault(prefixes, i).None? && FaultAt(prefixes, i - 1).None?;
        if |prefixes[i]| == |prefixes[i - 1]| {
          LexIsNumeric(prefixes[i], prefixes[i - 1]);
        }
      }
    }
  }
}
