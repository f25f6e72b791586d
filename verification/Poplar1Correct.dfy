/** Poplar1 end to end: honest reports pass the sketch in exactly two rounds, output shares add to
    the prefix indicator, and unsharding a batch counts prefixes exactly. */
module Poplar1Correct {
  import opened Wrappers
  import opened Congruence
  import opened Idpf
  import opened Poplar1

  // ------------------------------------------------------------------ the protocol run

  /** The two aggregators between broadcast rounds. */
  datatype Run = Running(state0: PrepareState, state1: PrepareState, share0: FieldVec, share1: FieldVec)
               | Finished(out0: FieldVec, out1: FieldVec)
               | Failed(error: PoplarError)

  function Start(poplar: Poplar, param: AggParam, pub: PublicShare<Pair, Pair>, in0: InputShare, in1: InputShare): Run
    requires poplar.Sized() && ValidParam(param) && |pub.inner| == |in0.corrInner| == |in1.corrInner| == poplar.bits - 1
  {
    match (Prepared(poplar, 0, param, pub, in0), Prepared(poplar, 1, param, pub, in1))
    case (Success(a), Success(b)) => Running(a.0, b.0, a.1, b.1)
    case (Failure(e), _) => Failed(e)
    case (_, Failure(e)) => Failed(e)
  }

  /** One round: the shares are combined leader first and both aggregators take the message. */
  function Round(poplar: Poplar, run: Run): Run
    requires poplar.Sized() && run.Running?
  {
    match SharesToMessage(poplar, [run.share0, run.share1])
    case Failure(e) => Failed(e)
    case Success(msg) =>
      match (PrepareNext(poplar, run.state0, msg), PrepareNext(poplar, run.state1, msg))
      case (Success(Continue(a, x)), Success(Continue(b, y))) => Running(a, b, x, y)
      case (Success(Finish(x)), Success(Finish(y))) => Finished(x, y)
      case (Failure(e), _) => Failed(e)
      case (_, Failure(e)) => Failed(e)
      case _ => Failed(StateMismatch)
  }

  // ------------------------------------------------------------------ sketches as sums

  /** The inner product of c with the stream r, over the integers. */
  ghost function Dot(c: seq<int>, r: nat -> int): int {
    if c == [] then 0 else Dot(c[..|c| - 1], r) + c[|c| - 1] * r(|c| - 1)
  }

  ghost function Squares(r: nat -> int): nat -> int { (j: nat) => r(j) * r(j) }

  ghost function Auths(shares: seq<Pair>): (a: seq<int>)
    ensures |a| == |shares|
  {
    seq(|shares|, i requires 0 <= i < |shares| => shares[i].auth)
  }

  lemma {:induction false} DotStep(c: seq<int>, r: nat -> int)
    requires c != []
    ensures Dot(c, r) == Dot(c[..|c| - 1], r) + c[|c| - 1] * r(|c| - 1)
  {
  }

  lemma {:induction false} DotsStep(shares: seq<Pair>, r: nat -> int)
    requires shares != []
    ensures var j, last := |shares| - 1, shares[|shares| - 1];
            && Dot(Data(shares), r) == Dot(Data(shares[..j]), r) + last.data * r(j)
            && Dot(Data(shares), Squares(r)) == Dot(Data(shares[..j]), Squares(r)) + last.data * (r(j) * r(j))
            && Dot(Auths(shares), r) == Dot(Auths(shares[..j]), r) + last.auth * r(j)
  {
    var j := |shares| - 1;
    assert Data(shares)[..j] == Data(shares[..j]) && Auths(shares)[..j] == Auths(shares[..j]);
    hide Dot;
    DotStep(Data(shares), r);
    DotStep(Data(shares), Squares(r));
    DotStep(Auths(shares), r);
  }

  /** A sketch is its offsets plus three inner products. */
  lemma {:induction false} SketchSums(p: int, shares: seq<Pair>, r: nat -> int, s: (int, int, int))
    requires p > 1
    ensures var t := SketchOf(p, shares, r, s);
            && Cong(p, t.0, s.0 + Dot(Data(shares), r))
            && Cong(p, t.1, s.1 + Dot(Data(shares), Squares(r)))
            && Cong(p, t.2, s.2 + Dot(Auths(shares), r))
  {
    if shares == [] {
      assert SketchOf(p, shares, r, s) == s;
      CongRefl(p, s.0);
      CongRefl(p, s.1);
      CongRefl(p, s.2);
    } else {
      hide Res, Cong, Dot, SketchOf, Data, Auths;
      var j := |shares| - 1;
      var init, last := shares[..j], shares[j];
      SketchSums(p, init, r, s);
      var t := SketchOf(p, init, r, s);
      DotsStep(shares, r);
      SketchOfStep(p, shares, r, s);
      SketchStep(p, t, last, r(j), s.0 + Dot(Data(init), r), s.1 + Dot(Data(init), Squares(r)), s.2 + Dot(Auths(init), r));
      SquareAssoc(last.data, r(j));
    }
  }

  lemma {:induction false} SketchOfStep(p: int, shares: seq<Pair>, r: nat -> int, s: (int, int, int))
    requires p > 1 && shares != []
    ensures var j := |shares| - 1;
            var t, checked := SketchOf(p, shares[..j], r, s), Res(p, shares[j].data * r(j));
            SketchOf(p, shares, r, s) == (Res(p, t.0 + checked), Res(p, t.1 + checked * r(j)), Res(p, t.2 + shares[j].auth * r(j)))
  {
    hide Res;
  }

  lemma {:induction false} SquareAssoc(d: int, r: int)
    ensures d * r * r == d * (r * r)
  {
  }

  lemma {:induction false} SketchStep(p: int, t: (int, int, int), v: Pair, r: int, x: int, y: int, z: int)
    requires p > 1 && Cong(p, t.0, x) && Cong(p, t.1, y) && Cong(p, t.2, z)
    ensures var checked := Res(p, v.data * r);
            && Cong(p, Res(p, t.0 + checked), x + v.data * r)
            && Cong(p, Res(p, t.1 + checked * r), y + v.data * r * r)
            && Cong(p, Res(p, t.2 + v.auth * r), z + v.auth * r)
  {
    hide Res, Cong;
    var checked := Res(p, v.data * r);
    CongRes(p, v.data * r);
    CongRefl(p, r);
    CongRefl(p, v.auth * r);
    CongMul(p, checked, v.data * r, r, r);
    AddReduced(p, t.0, x, checked, v.data * r);
    AddReduced(p, t.1, y, checked * r, v.data * r * r);
    AddReduced(p, t.2, z, v.auth * r, v.auth * r);
  }

  lemma {:induction false} AddReduced(p: int, t: int, x: int, c: int, d: int)
    requires p > 1 && Cong(p, t, x) && Cong(p, c, d)
    ensures Cong(p, Res(p, t + c), x + d)
  {
    hide Res, Cong;
    CongAdd(p, t, x, c, d);
    CongRes(p, t + c);
    CongTrans(p, Res(p, t + c), t + c, x + d);
  }

  /** Inner products are additive modulo p. */
  lemma {:induction false} DotAdd(p: int, c: seq<int>, d: seq<int>, e: seq<int>, r: nat -> int)
    requires p > 1 && |c| == |d| == |e|
    requires forall i :: 0 <= i < |c| ==> Cong(p, c[i] + d[i], e[i])
    ensures Cong(p, Dot(c, r) + Dot(d, r), Dot(e, r))
  {
    hide Res, Cong;
    if c == [] {
      CongRefl(p, 0);
    } else {
      hide Dot;
      var j := |c| - 1;
      assert forall i :: 0 <= i < j ==> c[..j][i] + d[..j][i] == c[i] + d[i] && e[..j][i] == e[i];
      DotAdd(p, c[..j], d[..j], e[..j], r);
      DotStep(c, r);
      DotStep(d, r);
      DotStep(e, r);
      AddProducts(p, Dot(c[..j], r), Dot(d[..j], r), Dot(e[..j], r), c[j], d[j], e[j], r(j));
    }
  }

  lemma {:induction false} AddProducts(p: int, x: int, y: int, z: int, c: int, d: int, e: int, r: int)
    requires p > 1 && Cong(p, x + y, z) && Cong(p, c + d, e)
    ensures Cong(p, x + c * r + (y + d * r), z + e * r)
  {
    hide Res, Cong;
    CongRefl(p, r);
    CongMul(p, c + d, e, r, r);
    CongAdd(p, x + y, z, (c + d) * r, e * r);
    assert (c + d) * r == c * r + d * r;
  }

  /** 1 for the prefixes on the path of the input, 0 elsewhere. */
  function Indicator(prefixes: seq<seq<bool>>, input: seq<bool>): (e: seq<int>)
    ensures |e| == |prefixes|
  {
    seq(|prefixes|, i requires 0 <= i < |prefixes| => if prefixes[i] <= input then 1 else 0)
  }

  ghost predicate OneHot(e: seq<int>) {
    && (forall i :: 0 <= i < |e| ==> e[i] == 0 || e[i] == 1)
    && (forall i, j :: 0 <= i < |e| && 0 <= j < |e| && e[i] == 1 && e[j] == 1 ==> i == j)
  }

  lemma {:induction false} IndicatorOneHot(prefixes: seq<seq<bool>>, len: nat, input: seq<bool>)
    requires SameLength(prefixes, len) && Increasing(prefixes)
    ensures OneHot(Indicator(prefixes, input))
  {
    var e := Indicator(prefixes, input);
    forall i, j | 0 <= i < |e| && 0 <= j < |e| && e[i] == 1 && e[j] == 1 ensures i == j {
      AtMostOneOnPath(prefixes, len, input, i, j);
    }
  }

  ghost function Scaled(e: seq<int>, k: int): (s: seq<int>)
    ensures |s| == |e|
  {
    seq(|e|, i requires 0 <= i < |e| => e[i] * k)
  }

  lemma {:induction false} DotZero(e: seq<int>, r: nat -> int)
    requires forall i :: 0 <= i < |e| ==> e[i] == 0
    ensures Dot(e, r) == 0
  {
    if e != [] {
      DotZero(e[..|e| - 1], r);
    }
  }

  lemma {:induction false} DotScaled(e: seq<int>, k: int, r: nat -> int)
    ensures Dot(Scaled(e, k), r) == Dot(e, r) * k
  {
    if e != [] {
      var j := |e| - 1;
      DotScaled(e[..j], k, r);
      assert Scaled(e, k)[..j] == Scaled(e[..j], k);
      DotStep(e, r);
      DotStep(Scaled(e, k), r);
      assert Dot(e[..j], r) * k + e[j] * k * r(j) == (Dot(e[..j], r) + e[j] * r(j)) * k;
    }
  }

  /** The sketch identity: for a one-hot vector the inner product with the squares is the square of
      the inner product. Distinct prefixes are what makes the indicator one-hot. */
  lemma {:induction false} OneHotSquare(e: seq<int>, r: nat -> int)
    requires OneHot(e)
    ensures Dot(e, Squares(r)) == Dot(e, r) * Dot(e, r)
  {
    if e != [] {
      var j := |e| - 1;
      var init := e[..j];
      assert forall i :: 0 <= i < j ==> init[i] == e[i];
      assert Squares(r)(j) == r(j) * r(j);
      if e[j] == 1 {
        assert forall i :: 0 <= i < j ==> e[i] == 0;
        DotZero(init, r);
        DotZero(init, Squares(r));
      } else {
        OneHotSquare(init, r);
      }
    }
  }

  /** The products of the verification values of all pairs of ones. */
  ghost function Cross(e: seq<int>, r: nat -> int): int {
    if e == [] then 0
    else Cross(e[..|e| - 1], r) + Dot(e[..|e| - 1], r) * (e[|e| - 1] * r(|e| - 1))
  }

  /** For any vector of zeros and ones the sketch identity is off by twice these products. */
  lemma {:induction false} SketchDefect(e: seq<int>, r: nat -> int)
    requires forall i :: 0 <= i < |e| ==> e[i] == 0 || e[i] == 1
    ensures Dot(e, r) * Dot(e, r) == Dot(e, Squares(r)) + 2 * Cross(e, r)
  {
    if e != [] {
      var j := |e| - 1;
      SketchDefect(e[..j], r);
      DotStep(e, r);
      DotStep(e, Squares(r));
      assert Squares(r)(j) == r(j) * r(j);
      SquareOfSum(Dot(e[..j], r), e[j], r(j));
    }
  }

  lemma {:induction false} SquareOfSum(d: int, e: int, r: int)
    requires e == 0 || e == 1
    ensures (d + e * r) * (d + e * r) == d * d + e * (r * r) + 2 * (d * (e * r))
  {
    if e == 1 {
      assert (d + r) * (d + r) == d * d + r * r + 2 * (d * r);
    }
  }

  /** Exactly when the sketch identity holds although prefixes are repeated: for ones at i and j only, when
      twice the product of their verification values vanishes. */
  lemma {:induction false} RepeatedPrefix(p: int, e: seq<int>, r: nat -> int, i: nat, j: nat)
    requires p > 1 && i < j < |e| && forall k :: 0 <= k < |e| ==> e[k] == if k == i || k == j then 1 else 0
    ensures Cong(p, Dot(e, Squares(r)), Dot(e, r) * Dot(e, r)) <==> Cong(p, 2 * (r(i) * r(j)), 0)
  {
    SketchDefect(e, r);
    CrossOfTwo(e, r, i, j);
    hide Dot, Cross;
    var x, y := Dot(e, Squares(r)), Dot(e, r) * Dot(e, r);
    if Cong(p, x, y) {
      var k := CongTo(p, x, y);
      MinusTimes(k, p);
      CongFrom(p, 2 * (r(i) * r(j)), 0, -k);
    }
    if Cong(p, 2 * (r(i) * r(j)), 0) {
      var k := CongTo(p, 2 * (r(i) * r(j)), 0);
      MinusTimes(k, p);
      CongFrom(p, x, y, -k);
    }
  }

  lemma {:induction false} MinusTimes(k: int, p: int)
    ensures (-k) * p == -(k * p)
  {
  }

  lemma {:induction false} CrossOfTwo(e: seq<int>, r: nat -> int, i: nat, j: nat)
    requires i < j < |e| && forall k :: 0 <= k < |e| ==> e[k] == if k == i || k == j then 1 else 0
    ensures Cross(e, r) == r(i) * r(j)
  {
    var n := |e| - 1;
    var init := e[..n];
    if j < n {
      CrossOfTwo(init, r, i, j);
      assert Dot(init, r) * (0 * r(n)) == 0;
    } else {
      DotOfOne(init, r, i);
      CrossOfOne(init, r, i);
    }
  }

  lemma {:induction false} DotOfOne(e: seq<int>, r: nat -> int, i: nat)
    requires i < |e| && forall k :: 0 <= k < |e| ==> e[k] == if k == i then 1 else 0
    ensures Dot(e, r) == r(i)
  {
    var n := |e| - 1;
    DotStep(e, r);
    if i < n {
      DotOfOne(e[..n], r, i);
    } else {
      DotZero(e[..n], r);
    }
  }

  lemma {:induction false} CrossOfOne(e: seq<int>, r: nat -> int, i: nat)
    requires forall k :: 0 <= k < |e| ==> e[k] == if k == i then 1 else 0
    ensures Cross(e, r) == 0
  {
    if e != [] {
      var n := |e| - 1;
      CrossOfOne(e[..n], r, i);
      if i == n {
        DotZero(e[..n], r);
      }
    }
  }

  /** The two IDPF shares at a prefix add to (1, auth) on the path and to (0, 0) off it. */
  lemma {:induction false} HonestShares(poplar: Poplar, input: seq<bool>, coins: Coins, prefix: seq<bool>)
    requires poplar.Valid() && DrawsInField(poplar, coins) && |input| == poplar.bits && 1 <= |prefix| <= poplar.bits
    ensures var pub, p := ShardPublic(poplar, input, coins), poplar.Modulus(|prefix| == poplar.bits);
            var s0, s1 := ShareAt(poplar, 0, pub, coins.idpf.0, prefix), ShareAt(poplar, 1, pub, coins.idpf.1, prefix);
            var d := if prefix <= input then 1 else 0;
            && Res(p, s0.data + s1.data) == d
            && Res(p, s0.auth + s1.auth) == d * coins.draw(|prefix| - 1)
  {
    hide GenSpec, EvalSpec, IsGroup, Generates;
    InstanceValid(poplar);
    var auths, authLeaf := AuthInner(poplar, coins), Pair(1, coins.draw(poplar.bits - 1));
    assert poplar.Idpf().gl.has(authLeaf);
    forall i | 0 <= i < |auths| ensures poplar.Idpf().gi.has(auths[i]) {
      assert InField(poplar.pInner, coins.draw(i));
    }
    IdpfCorrect(poplar.Idpf(), input, auths, authLeaf, coins.idpf, prefix);
  }

  /** Both parties' correlation shares of a level add to A = -2a + auth and B = a^2 + b - a*auth + c. */
  lemma {:induction false} CorrTotals(p: int, c0: nat -> int, c1: nat -> int, pos: nat, auth: int, x: int, y: int)
    requires p > 1
    ensures var (k0, k1) := CorrShares(p, c0, c1, pos, auth, x, y);
            var a, b, c := c0(pos) + c1(pos), c0(pos + 1) + c1(pos + 1), c0(pos + 2) + c1(pos + 2);
            Cong(p, k0.0 + k1.0, -2 * a + auth) && Cong(p, k0.1 + k1.1, a * a + b - a * auth + c)
  {
    hide Res, Cong;
    var a, b, c := c0(pos) + c1(pos), c0(pos + 1) + c1(pos + 1), c0(pos + 2) + c1(pos + 2);
    var a', b', c' := Res(p, a), Res(p, b), Res(p, c);
    CongRes(p, a);
    CongRes(p, b);
    CongRes(p, c);
    CongRefl(p, auth);
    CongRefl(p, -2);
    CongMul(p, -2, -2, a', a);
    CongAdd(p, -2 * a', -2 * a, auth, auth);
    CongMul(p, a', a, a', a);
    CongMul(p, a', a, auth, auth);
    CongAdd(p, a' * a', a * a, b', b);
    CongAdd(p, a' * a' + b', a * a + b, a' * auth, a * auth);
    CongAdd(p, a' * a' + b' - a' * auth, a * a + b - a * auth, c', c);
    Reshare(p, -2 * a' + auth, -2 * a + auth, x);
    Reshare(p, a' * a' + b' - a' * auth + c', a * a + b - a * auth + c, y);
  }

  lemma {:induction false} Reshare(p: int, v: int, w: int, x: int)
    requires p > 1 && Cong(p, v, w)
    ensures Cong(p, Res(p, Res(p, v) - x) + x, w)
  {
    hide Res, Cong;
    CongRes(p, v);
    CongRefl(p, x);
    CongAdd(p, Res(p, v), v, x, x);
    CongRes(p, Res(p, v) - x);
    CongTrans(p, Res(p, Res(p, v) - x), Res(p, v) - x, v - x);
    CongAdd(p, Res(p, Res(p, v) - x), v - x, x, x);
    CongTrans(p, Res(p, Res(p, v) - x) + x, v - x + x, w);
  }

  /** The two verifier shares, when offsets (a', b', c') were used for the sketch and (a, b, c) for
      the correlation, add to a residue that vanishes when the offsets agree. */
  lemma {:induction false} VerifierTotal(p: int, z: (int, int, int), k0: (int, int), k1: (int, int), auth: int, X: int,
                      o: (int, int, int), o': (int, int, int))
    requires p > 1
    requires Cong(p, z.0, o'.0 + X) && Cong(p, z.1, o'.1 + X * X) && Cong(p, z.2, o'.2 + X * auth)
    requires Cong(p, k0.0 + k1.0, -2 * o.0 + auth)
    requires Cong(p, k0.1 + k1.1, o.0 * o.0 + o.1 - o.0 * auth + o.2)
    ensures Cong(p, FinishSketch(p, z, k0.0, k0.1, true)[0] + FinishSketch(p, z, k1.0, k1.1, false)[0],
                 Mismatch(o, o', X, auth))
  {
    hide Res, Cong;
    var v0 := k0.0 * z.0 + k0.1;
    var v1 := k1.0 * z.0 + k1.1 + (z.0 * z.0 - z.1 - z.2);
    CongRes(p, v0);
    CongRes(p, v1);
    CongAdd(p, Res(p, v0), v0, Res(p, v1), v1);
    var Z := o'.0 + X;
    var A, B := -2 * o.0 + auth, o.0 * o.0 + o.1 - o.0 * auth + o.2;
    CongMul(p, k0.0 + k1.0, A, z.0, Z);
    CongAdd(p, (k0.0 + k1.0) * z.0, A * Z, k0.1 + k1.1, B);
    CongMul(p, z.0, Z, z.0, Z);
    CongAdd(p, (k0.0 + k1.0) * z.0 + (k0.1 + k1.1), A * Z + B, z.0 * z.0, Z * Z);
    CongAdd(p, (k0.0 + k1.0) * z.0 + (k0.1 + k1.1) + z.0 * z.0, A * Z + B + Z * Z, z.1, o'.1 + X * X);
    var left := (k0.0 + k1.0) * z.0 + (k0.1 + k1.1) + z.0 * z.0 - z.1;
    var right := A * Z + B + Z * Z - (o'.1 + X * X);
    CongAdd(p, left, right, z.2, o'.2 + X * auth);
    assert v0 + v1 == left - z.2;
    VerifierAlgebra(o.0, o.1, o.2, o'.0, o'.1, o'.2, X, auth);
    CongTrans(p, Res(p, v0) + Res(p, v1), v0 + v1, right - (o'.2 + X * auth));
  }

  /** What remains of the sketch when its offsets differ from those of the correlation. */
  ghost function Mismatch(o: (int, int, int), o': (int, int, int), X: int, auth: int): int {
    (o'.0 - o.0) * (o'.0 - o.0 + 2 * X + auth) - (o'.1 - o.1) - (o'.2 - o.2)
  }

  lemma {:induction false} VerifierAlgebra(a: int, b: int, c: int, a': int, b': int, c': int, X: int, auth: int)
    ensures (-2 * a + auth) * (a' + X) + (a * a + b - a * auth + c) + (a' + X) * (a' + X) - (b' + X * X) - (c' + X * auth)
         == Mismatch((a, b, c), (a', b', c'), X, auth)
  {
    var d := a' - a;
    calc {
      (-2 * a + auth) * (a' + X) + a * a - a * auth + (a' + X) * (a' + X);
      (a' + X) * (a' + X) - 2 * a * (a' + X) + a * a + auth * (a' + X) - a * auth;
      (d + X) * (d + X) + auth * (d + X);
      d * (d + 2 * X + auth) + X * X + X * auth;
    }
  }

  // ------------------------------------------------------------------ one honest report

  /** The sums of both parties' correlation streams at three consecutive positions. */
  ghost function Offsets(c0: nat -> int, c1: nat -> int, pos: nat): (int, int, int) {
    (c0(pos) + c1(pos), c0(pos + 1) + c1(pos + 1), c0(pos + 2) + c1(pos + 2))
  }

  ghost predicate Honest(poplar: Poplar, input: seq<bool>, coins: Coins, param: AggParam): (h: bool)
    ensures h ==> poplar.Sized() && |input| == poplar.bits && ValidParam(param) && param.level < poplar.bits
  {
    poplar.Valid() && DrawsInField(poplar, coins) && |input| == poplar.bits && ValidParam(param) && param.level < poplar.bits
  }

  function IsLeaf(poplar: Poplar, param: AggParam): bool { param.level == poplar.bits - 1 }

  /** The sketch residue of an honest report. */
  ghost function Residue(poplar: Poplar, input: seq<bool>, coins: Coins, param: AggParam): int {
    var c0, c1 := CorrStream(poplar, coins, param, 0), CorrStream(poplar, coins, param, 1);
    Mismatch(Offsets(c0, c1, SharedAt(poplar, param)), Offsets(c0, c1, ReadAt(poplar, param)),
             Dot(Indicator(param.prefixes, input), poplar.verify(param.level)), coins.draw(param.level))
  }

  function HonestStart(poplar: Poplar, input: seq<bool>, coins: Coins, param: AggParam): Run
    requires poplar.Sized() && |input| == poplar.bits && ValidParam(param)
  {
    Start(poplar, param, ShardPublic(poplar, input, coins), ShardInput(poplar, coins, 0), ShardInput(poplar, coins, 1))
  }

  /** The IDPF shares of aggregator agg. */
  function HonestSharesAt(poplar: Poplar, input: seq<bool>, coins: Coins, param: AggParam, agg: nat): (shares: seq<Pair>)
    requires poplar.Sized() && |input| == poplar.bits && ValidParam(param) && param.level < poplar.bits
    ensures |shares| == |param.prefixes|
  {
    SharesAt(poplar, agg, ShardPublic(poplar, input, coins), ShardInput(poplar, coins, agg).idpfKey, param.prefixes)
  }

  /** c and d are shares of e. */
  predicate SharesOf(p: int, c: seq<int>, d: seq<int>, e: seq<int>)
    requires p > 1
  {
    |c| == |d| == |e| && AddVec(p, c, d) == e
  }

  /** The parties' data elements are shares of the indicator, their authenticators of its multiple. */
  ghost predicate SharesIndicator(poplar: Poplar, input: seq<bool>, coins: Coins, param: AggParam)
    requires poplar.Sized() && |input| == poplar.bits && ValidParam(param) && param.level < poplar.bits
  {
    var p, e := poplar.Modulus(IsLeaf(poplar, param)), Indicator(param.prefixes, input);
    var u, w := HonestSharesAt(poplar, input, coins, param, 0), HonestSharesAt(poplar, input, coins, param, 1);
    SharesOf(p, Data(u), Data(w), e) && SharesOf(p, Auths(u), Auths(w), Scaled(e, coins.draw(param.level)))
  }

  lemma {:induction false} ShareTotals(poplar: Poplar, input: seq<bool>, coins: Coins, param: AggParam)
    requires Honest(poplar, input, coins, param)
    ensures SharesIndicator(poplar, input, coins, param)
    ensures SharesOf(poplar.Modulus(IsLeaf(poplar, param)), Data(HonestSharesAt(poplar, input, coins, param, 0)),
                     Data(HonestSharesAt(poplar, input, coins, param, 1)), Indicator(param.prefixes, input))
  {
    hide Honest, HonestSharesAt, ValidParam, Res, poplar.Sized, SharesOf, Data, Auths, Scaled, Indicator;
    var p, e := poplar.Modulus(IsLeaf(poplar, param)), Indicator(param.prefixes, input);
    var u, w := HonestSharesAt(poplar, input, coins, param, 0), HonestSharesAt(poplar, input, coins, param, 1);
    forall i | 0 <= i < |e|
      ensures Res(p, u[i].data + w[i].data) == e[i]
      ensures Res(p, u[i].auth + w[i].auth) == e[i] * coins.draw(param.level)
    {
      HonestSharesAtIs(poplar, input, coins, param, i);
    }
    PairShares(p, u, w, e, coins.draw(param.level));
  }

  lemma {:induction false} PairShares(p: int, u: seq<Pair>, w: seq<Pair>, e: seq<int>, auth: int)
    requires p > 1 && |u| == |w| == |e|
    requires forall i :: 0 <= i < |e| ==> Res(p, u[i].data + w[i].data) == e[i] && Res(p, u[i].auth + w[i].auth) == e[i] * auth
    ensures SharesOf(p, Data(u), Data(w), e) && SharesOf(p, Auths(u), Auths(w), Scaled(e, auth))
  {
    hide Res;
  }

  lemma {:induction false} HonestSharesAtIs(poplar: Poplar, input: seq<bool>, coins: Coins, param: AggParam, i: nat)
    requires Honest(poplar, input, coins, param) && i < |param.prefixes|
    ensures var p, d := poplar.Modulus(IsLeaf(poplar, param)), Indicator(param.prefixes, input)[i];
            var v, w := HonestSharesAt(poplar, input, coins, param, 0)[i], HonestSharesAt(poplar, input, coins, param, 1)[i];
            Res(p, v.data + w.data) == d && Res(p, v.auth + w.auth) == d * coins.draw(param.level)
  {
    hide ShardPublic, ShareAt, Increasing, Res;
    HonestShares(poplar, input, coins, param.prefixes[i]);
  }

  lemma {:induction false} AddVecCong(p: int, c: seq<int>, d: seq<int>, e: seq<int>)
    requires p > 1 && SharesOf(p, c, d, e)
    ensures |c| == |d| == |e|
    ensures forall i :: 0 <= i < |c| ==> Cong(p, c[i] + d[i], e[i])
  {
    hide Res, Cong;
    forall i | 0 <= i < |c| ensures Cong(p, c[i] + d[i], e[i]) {
      assert AddVec(p, c, d)[i] == e[i];
      CongRes(p, c[i] + d[i]);
      CongSym(p, e[i], c[i] + d[i]);
    }
  }

  /** The combined first-round sketch, with X the inner product of the indicator. */
  lemma {:induction false} SketchTotals(p: int, u: seq<Pair>, w: seq<Pair>, e: seq<int>, auth: int, r: nat -> int, s: (int, int, int), t: (int, int, int))
    requires p > 1 && |u| == |w| == |e| && OneHot(e)
    requires SharesOf(p, Data(u), Data(w), e) && SharesOf(p, Auths(u), Auths(w), Scaled(e, auth))
    ensures var X, x, y := Dot(e, r), SketchOf(p, u, r, s), SketchOf(p, w, r, t);
            && Cong(p, Res(p, x.0 + y.0), s.0 + t.0 + X)
            && Cong(p, Res(p, x.1 + y.1), s.1 + t.1 + X * X)
            && Cong(p, Res(p, x.2 + y.2), s.2 + t.2 + X * auth)
  {
    hide *;
    SketchSums(p, u, r, s);
    SketchSums(p, w, r, t);
    var x, y := SketchOf(p, u, r, s), SketchOf(p, w, r, t);
    OneTotal(p, Data(u), Data(w), e, r, x.0, y.0, s.0, t.0);
    OneTotal(p, Data(u), Data(w), e, Squares(r), x.1, y.1, s.1, t.1);
    OneTotal(p, Auths(u), Auths(w), Scaled(e, auth), r, x.2, y.2, s.2, t.2);
    OneHotSquare(e, r);
    DotScaled(e, auth, r);
  }

  lemma {:induction false} DotAddVec(p: int, c: seq<int>, d: seq<int>, e: seq<int>, r: nat -> int)
    requires p > 1 && SharesOf(p, c, d, e)
    ensures Cong(p, Dot(c, r) + Dot(d, r), Dot(e, r))
  {
    AddVecCong(p, c, d, e);
    DotAdd(p, c, d, e, r);
  }

  lemma {:induction false} OneTotal(p: int, c: seq<int>, d: seq<int>, e: seq<int>, r: nat -> int, x: int, y: int, s: int, t: int)
    requires p > 1 && SharesOf(p, c, d, e)
    requires Cong(p, x, s + Dot(c, r)) && Cong(p, y, t + Dot(d, r))
    ensures Cong(p, Res(p, x + y), s + t + Dot(e, r))
  {
    hide *;
    DotAddVec(p, c, d, e, r);
    Combine(p, x, y, s, t, Dot(c, r), Dot(d, r), Dot(e, r));
  }

  lemma {:induction false} Combine(p: int, x: int, y: int, s: int, t: int, a: int, b: int, c: int)
    requires p > 1 && Cong(p, x, s + a) && Cong(p, y, t + b) && Cong(p, a + b, c)
    ensures Cong(p, Res(p, x + y), s + t + c)
  {
    hide Res, Cong;
    CongAdd(p, x, s + a, y, t + b);
    CongRefl(p, s + t);
    CongAdd(p, s + t, s + t, a + b, c);
    CongRes(p, x + y);
    CongTrans(p, Res(p, x + y), x + y, s + t + (a + b));
    CongTrans(p, Res(p, x + y), s + t + (a + b), s + t + c);
  }

  /** Every honest report, at every level: the first round always continues; the second finishes
      with shares of the indicator when the sketch residue is zero and fails otherwise. */
  lemma {:induction false} HonestRun(poplar: Poplar, input: seq<bool>, coins: Coins, param: AggParam)
    requires Honest(poplar, input, coins, param)
    ensures var p, run := poplar.Modulus(IsLeaf(poplar, param)), HonestStart(poplar, input, coins, param);
            && run.Running?
            && Round(poplar, run).Running?
            && var end := Round(poplar, Round(poplar, run));
               if Cong(p, Residue(poplar, input, coins, param), 0)
               then && end.Finished? && end.out0.leaf == end.out1.leaf == IsLeaf(poplar, param)
                    && SharesOf(p, end.out0.elems, end.out1.elems, Indicator(param.prefixes, input))
               else end == Failed(SketchFailed)
  {
    hide *;
    var (k0, k1) := LevelCorr(poplar, coins, param);
    HonestVerifier(poplar, input, coins, param);
    StartIs(poplar, input, coins, param);
    ShareTotals(poplar, input, coins, param);
    var u, w := HonestSharesAt(poplar, input, coins, param, 0), HonestSharesAt(poplar, input, coins, param, 1);
    TwoRounds(poplar, IsLeaf(poplar, param), Data(u), Data(w), HonestSketch(poplar, input, coins, param, 0), HonestSketch(poplar, input, coins, param, 1),
              k0, k1, Residue(poplar, input, coins, param));
  }

  /** The position of the offsets that aggregators read, and of those used when sharding. */
  function ReadAt(poplar: Poplar, param: AggParam): nat { if IsLeaf(poplar, param) then 0 else FastForward(param.level) }

  function SharedAt(poplar: Poplar, param: AggParam): nat { if IsLeaf(poplar, param) then 0 else 3 * param.level }

  function CorrStream(poplar: Poplar, coins: Coins, param: AggParam, agg: nat): nat -> int {
    poplar.corr(if agg == 0 then coins.corr.0 else coins.corr.1, IsLeaf(poplar, param), agg)
  }

  function OffsetsOf(c: nat -> int, pos: nat): (int, int, int) { (c(pos), c(pos + 1), c(pos + 2)) }

  function LevelCorr(poplar: Poplar, coins: Coins, param: AggParam): ((int, int), (int, int))
    requires poplar.Sized()
  {
    if IsLeaf(poplar, param) then LeafCorr(poplar, coins) else InnerCorr(poplar, coins, param.level)
  }

  function HonestSketch(poplar: Poplar, input: seq<bool>, coins: Coins, param: AggParam, agg: nat): (int, int, int)
    requires poplar.Sized() && |input| == poplar.bits && ValidParam(param) && param.level < poplar.bits
  {
    SketchOf(poplar.Modulus(IsLeaf(poplar, param)), HonestSharesAt(poplar, input, coins, param, agg), poplar.verify(param.level),
             OffsetsOf(CorrStream(poplar, coins, param, agg), ReadAt(poplar, param)))
  }

  /** The sum of the verifier shares that both parties compute from first-round sketches x and y. */
  function VerifierSum(p: int, x: (int, int, int), y: (int, int, int), k: ((int, int), (int, int))): int
    requires p > 1
  {
    var z := SketchSum(p, x, y);
    FinishSketch(p, z, k.0.0, k.0.1, true)[0] + FinishSketch(p, z, k.1.0, k.1.1, false)[0]
  }

  /** The verifier shares of an honest report add to its residue. */
  lemma {:induction false} HonestVerifier(poplar: Poplar, input: seq<bool>, coins: Coins, param: AggParam)
    requires Honest(poplar, input, coins, param)
    ensures Cong(poplar.Modulus(IsLeaf(poplar, param)),
                 VerifierSum(poplar.Modulus(IsLeaf(poplar, param)), HonestSketch(poplar, input, coins, param, 0), HonestSketch(poplar, input, coins, param, 1),
                             LevelCorr(poplar, coins, param)),
                 Residue(poplar, input, coins, param))
  {
    hide Honest, ValidParam, Res, Cong, poplar.Sized, SharesOf, OneHot, Data, Auths, Scaled, HonestSharesAt,
         Indicator, SketchOf, LevelCorr, FinishSketch, Mismatch, Dot;
    var level, p, e := param.level, poplar.Modulus(IsLeaf(poplar, param)), Indicator(param.prefixes, input);
    var u, w := HonestSharesAt(poplar, input, coins, param, 0), HonestSharesAt(poplar, input, coins, param, 1);
    var c0, c1 := CorrStream(poplar, coins, param, 0), CorrStream(poplar, coins, param, 1);
    var pos := ReadAt(poplar, param);
    var r, auth := poplar.verify(level), coins.draw(level);
    ShareTotals(poplar, input, coins, param);
    ParamOneHot(param, input);
    SketchTotals(p, u, w, e, auth, r, OffsetsOf(c0, pos), OffsetsOf(c1, pos));
    LevelCorrTotals(poplar, coins, param);
    var (k0, k1) := LevelCorr(poplar, coins, param);
    var z := SketchSum(p, HonestSketch(poplar, input, coins, param, 0), HonestSketch(poplar, input, coins, param, 1));
    VerifierTotal(p, z, k0, k1, auth, Dot(e, r), Offsets(c0, c1, SharedAt(poplar, param)), Offsets(c0, c1, pos));
  }

  lemma {:induction false} ParamOneHot(param: AggParam, input: seq<bool>)
    requires ValidParam(param)
    ensures OneHot(Indicator(param.prefixes, input))
  {
    IndicatorOneHot(param.prefixes, param.level + 1, input);
  }

  function SketchSum(p: int, x: (int, int, int), y: (int, int, int)): (int, int, int)
    requires p > 1
  {
    (Res(p, x.0 + y.0), Res(p, x.1 + y.1), Res(p, x.2 + y.2))
  }

  lemma {:induction false} LevelCorrTotals(poplar: Poplar, coins: Coins, param: AggParam)
    requires poplar.Sized() && param.level < poplar.bits
    ensures var p, (k0, k1) := poplar.Modulus(IsLeaf(poplar, param)), LevelCorr(poplar, coins, param);
            var o := Offsets(CorrStream(poplar, coins, param, 0), CorrStream(poplar, coins, param, 1), SharedAt(poplar, param));
            var auth := coins.draw(param.level);
            && Cong(p, k0.0 + k1.0, -2 * o.0 + auth)
            && Cong(p, k0.1 + k1.1, o.0 * o.0 + o.1 - o.0 * auth + o.2)
  {
    hide CorrShares, Res, Cong;
    var c0, c1, level := CorrStream(poplar, coins, param, 0), CorrStream(poplar, coins, param, 1), param.level;
    if IsLeaf(poplar, param) {
      CorrTotals(poplar.pLeaf, c0, c1, 0, coins.draw(level), coins.draw(3 * poplar.bits - 2), coins.draw(3 * poplar.bits - 1));
    } else {
      CorrTotals(poplar.pInner, c0, c1, 3 * level, coins.draw(level), coins.draw(poplar.bits + 2 * level), coins.draw(poplar.bits + 2 * level + 1));
    }
  }

  /** What the aggregators hold when an honest report arrives. */
  lemma {:induction false} StartIs(poplar: Poplar, input: seq<bool>, coins: Coins, param: AggParam)
    requires Honest(poplar, input, coins, param)
    ensures var leaf, (k0, k1) := IsLeaf(poplar, param), LevelCorr(poplar, coins, param);
            HonestStart(poplar, input, coins, param) ==
              Running(PrepareState(leaf, RoundOne(k0.0, k0.1, true), Data(HonestSharesAt(poplar, input, coins, param, 0))),
                      PrepareState(leaf, RoundOne(k1.0, k1.1, false), Data(HonestSharesAt(poplar, input, coins, param, 1))),
                      FieldVec(leaf, Triple(HonestSketch(poplar, input, coins, param, 0))),
                      FieldVec(leaf, Triple(HonestSketch(poplar, input, coins, param, 1))))
  {
    hide Increasing, SketchOf, CorrShares, ShardPublic, SharesAt, Data, DrawsInField;
  }

  /** Two rounds from any pair of matching first-round states. */
  lemma {:induction false} TwoRounds(poplar: Poplar, leaf: bool, out0: seq<int>, out1: seq<int>, x: (int, int, int), y: (int, int, int),
                  k0: (int, int), k1: (int, int), residue: int)
    requires poplar.Sized()
    requires Cong(poplar.Modulus(leaf), VerifierSum(poplar.Modulus(leaf), x, y, (k0, k1)), residue)
    ensures var run := Running(PrepareState(leaf, RoundOne(k0.0, k0.1, true), out0),
                               PrepareState(leaf, RoundOne(k1.0, k1.1, false), out1), FieldVec(leaf, Triple(x)), FieldVec(leaf, Triple(y)));
            && Round(poplar, run).Running?
            && Round(poplar, Round(poplar, run)) ==
                 if Cong(poplar.Modulus(leaf), residue, 0) then Finished(FieldVec(leaf, out0), FieldVec(leaf, out1)) else Failed(SketchFailed)
  {
    var p, z := poplar.Modulus(leaf), SketchSum(poplar.Modulus(leaf), x, y);
    var v0, v1 := FinishSketch(p, z, k0.0, k0.1, true), FinishSketch(p, z, k1.0, k1.1, false);
    VanishesIff(p, v0[0] + v1[0], residue);
    hide FinishSketch, Res, Cong;
  }

  lemma {:induction false} VanishesIff(p: int, v: int, residue: int)
    requires p > 1 && Cong(p, v, residue)
    ensures Res(p, v) == 0 <==> Cong(p, residue, 0)
  {
    CongEqual(p, v, residue);
  }

  // ------------------------------------------------------------------ the 16-bit fast-forward

  /** The 16-bit product is exact up to level 21845 and at no other level. */
  lemma {:induction false} FastForwardExact(level: nat)
    requires level <= 0xFFFF
    ensures FastForward(level) == 3 * level <==> level <= 21845
  {
  }

  predicate Aligned(poplar: Poplar, param: AggParam) { IsLeaf(poplar, param) || param.level <= 21845 }

  ghost predicate Accepted(poplar: Poplar, input: seq<bool>, coins: Coins, param: AggParam)
    requires Honest(poplar, input, coins, param)
  {
    var run := HonestStart(poplar, input, coins, param);
    run.Running? && Round(poplar, run).Running? && Round(poplar, Round(poplar, run)).Finished?
  }

  /** The outputs of an honest run are shares of the indicator, of the level's field. */
  ghost predicate OutputsIndicator(poplar: Poplar, input: seq<bool>, coins: Coins, param: AggParam)
    requires Honest(poplar, input, coins, param) && Accepted(poplar, input, coins, param)
  {
    var end := Round(poplar, Round(poplar, HonestStart(poplar, input, coins, param)));
    && end.out0.leaf == end.out1.leaf == IsLeaf(poplar, param)
    && SharesOf(poplar.Modulus(IsLeaf(poplar, param)), end.out0.elems, end.out1.elems, Indicator(param.prefixes, input))
  }

  /** Completeness: at leaf level and at inner levels up to 21845, both aggregators finish after
      exactly two rounds with shares of the indicator. */
  lemma {:induction false} HonestAccepted(poplar: Poplar, input: seq<bool>, coins: Coins, param: AggParam)
    requires Honest(poplar, input, coins, param) && Aligned(poplar, param)
    ensures Accepted(poplar, input, coins, param) && OutputsIndicator(poplar, input, coins, param)
  {
    AlignedResidue(poplar, input, coins, param);
    CongRefl(poplar.Modulus(IsLeaf(poplar, param)), 0);
    HonestRun(poplar, input, coins, param);
    hide Honest, HonestStart, Round, SharesOf, Res, Cong, Residue, ValidParam, Indicator;
  }

  lemma {:induction false} AlignedResidue(poplar: Poplar, input: seq<bool>, coins: Coins, param: AggParam)
    requires Honest(poplar, input, coins, param) && Aligned(poplar, param)
    ensures Residue(poplar, input, coins, param) == 0
  {
    hide Dot, Indicator;
    if !IsLeaf(poplar, param) {
      FastForwardExact(param.level);
    }
  }

  /** Correlation streams that are zero except for the leader's second offset of one inner level. */
  ghost function Spike(level: nat): (Seed, bool, nat) -> (nat -> int) {
    (s: Seed, leaf: bool, agg: nat) => (k: nat) => if !leaf && agg == 0 && k == 3 * level + 1 then 1 else 0
  }

  /** Past level 21845 the aggregators read offsets of another level, and an honest report can fail. */
  lemma {:induction false} WrapRejects(poplar: Poplar, input: seq<bool>, coins: Coins, param: AggParam)
    requires Honest(poplar, input, coins, param) && !Aligned(poplar, param)
    ensures Honest(poplar.(corr := Spike(param.level)), input, coins, param)
    ensures !Accepted(poplar.(corr := Spike(param.level)), input, coins, param)
  {
    var spiked := poplar.(corr := Spike(param.level));
    assert Honest(spiked, input, coins, param);
    SpikeResidue(poplar, input, coins, param);
    HonestRun(spiked, input, coins, param);
    ResSmall(spiked.Modulus(IsLeaf(spiked, param)), 1);
    ResSmall(spiked.Modulus(IsLeaf(spiked, param)), 0);
    hide Honest, HonestStart, Round, SharesOf, Res, Residue, ValidParam, Indicator;
  }

  lemma {:induction false} SpikeResidue(poplar: Poplar, input: seq<bool>, coins: Coins, param: AggParam)
    requires Honest(poplar, input, coins, param) && !Aligned(poplar, param)
    ensures Residue(poplar.(corr := Spike(param.level)), input, coins, param) == 1
  {
    hide Dot, Indicator, Honest;
    var spiked, level := poplar.(corr := Spike(param.level)), param.level;
    var c0, c1 := CorrStream(spiked, coins, param, 0), CorrStream(spiked, coins, param, 1);
    var pos := ReadAt(spiked, param);
    assert pos + 2 < 3 * level;
    assert Offsets(c0, c1, 3 * level) == (0, 1, 0) && Offsets(c0, c1, pos) == (0, 0, 0);
  }

  /** The exact condition: an honest report is accepted whatever its correlation streams are if and
      only if the level is a leaf level or at most 21845. */
  lemma {:induction false} AcceptedIffAligned(poplar: Poplar, input: seq<bool>, coins: Coins, param: AggParam)
    requires Honest(poplar, input, coins, param)
    ensures (forall corr: (Seed, bool, nat) -> (nat -> int) ::
               Honest(poplar.(corr := corr), input, coins, param) && Accepted(poplar.(corr := corr), input, coins, param))
            <==> Aligned(poplar, param)
  {
    if Aligned(poplar, param) {
      forall corr: (Seed, bool, nat) -> (nat -> int)
        ensures Honest(poplar.(corr := corr), input, coins, param) && Accepted(poplar.(corr := corr), input, coins, param)
      {
        assert Honest(poplar.(corr := corr), input, coins, param);
        HonestAccepted(poplar.(corr := corr), input, coins, param);
      }
    } else {
      WrapRejects(poplar, input, coins, param);
      assert !Accepted(poplar.(corr := Spike(param.level)), input, coins, param);
    }
    hide Accepted, Spike;
  }

  // ------------------------------------------------------------------ batches

  /** Column sums over the integers. */
  ghost function Total(e: seq<seq<int>>, j: nat): int
    requires forall i :: 0 <= i < |e| ==> j < |e[i]|
  {
    if e == [] then 0 else Total(e[..|e| - 1], j) + e[|e| - 1][j]
  }

  ghost predicate BatchShares(p: int, leaf: bool, len: nat, s0: seq<FieldVec>, s1: seq<FieldVec>, e: seq<seq<int>>)
    requires p > 1
  {
    && |s0| == |s1| == |e|
    && forall i :: 0 <= i < |e| ==> |e[i]| == len && s0[i].leaf == leaf && s1[i].leaf == leaf && SharesOf(p, s0[i].elems, s1[i].elems, e[i])
  }

  /** Aggregating both sides of a batch keeps the sums. */
  lemma {:induction false} AggregateTotals(poplar: Poplar, leaf: bool, len: nat, s0: seq<FieldVec>, s1: seq<FieldVec>, e: seq<seq<int>>, j: nat)
    requires poplar.Sized() && BatchShares(poplar.Modulus(leaf), leaf, len, s0, s1, e) && j < len
    ensures var a, b := AggregateOf(poplar, leaf, len, s0), AggregateOf(poplar, leaf, len, s1);
            && a.Success? && b.Success?
            && Cong(poplar.Modulus(leaf), a.value.elems[j] + b.value.elems[j], Total(e, j))
    decreases |e|
  {
    hide Res, Cong;
    var p, n := poplar.Modulus(leaf), |e| - 1;
    if e == [] {
      CongRefl(p, 0);
    } else {
      AggregateTotals(poplar, leaf, len, s0[..n], s1[..n], e[..n], j);
      var a, b := AggregateOf(poplar, leaf, len, s0[..n]).value.elems, AggregateOf(poplar, leaf, len, s1[..n]).value.elems;
      var x, y := s0[n].elems, s1[n].elems;
      assert BatchShares(p, leaf, len, s0, s1, e);
      AddVecCong(p, x, y, e[n]);
      AddShares(p, a[j], b[j], Total(e[..n], j), x[j], y[j], e[n][j]);
    }
  }

  lemma {:induction false} AddShares(p: int, a: int, b: int, t: int, x: int, y: int, e: int)
    requires p > 1 && Cong(p, a + b, t) && Cong(p, x + y, e)
    ensures Cong(p, Res(p, a + x) + Res(p, b + y), t + e)
  {
    hide Res, Cong;
    CongAdd(p, a + b, t, x + y, e);
    CongRes(p, a + x);
    CongRes(p, b + y);
    CongAdd(p, Res(p, a + x), a + x, Res(p, b + y), b + y);
    CongTrans(p, Res(p, a + x) + Res(p, b + y), a + x + (b + y), t + e);
  }

  /** Unsharding the two aggregate shares returns the column sums, when these fit. */
  lemma {:induction false} UnshardTotals(poplar: Poplar, param: AggParam, s0: seq<FieldVec>, s1: seq<FieldVec>, e: seq<seq<int>>)
    requires poplar.Sized() && BatchShares(poplar.Modulus(IsLeaf(poplar, param)), IsLeaf(poplar, param), |param.prefixes|, s0, s1, e)
    requires 1 <= |param.prefixes|
    requires forall j :: 0 <= j < |param.prefixes| ==>
               0 <= Total(e, j) < poplar.Modulus(IsLeaf(poplar, param)) && Total(e, j) <= 0xFFFF_FFFF_FFFF_FFFF
    ensures var leaf, len := IsLeaf(poplar, param), |param.prefixes|;
            var a, b := AggregateOf(poplar, leaf, len, s0), AggregateOf(poplar, leaf, len, s1);
            && a.Success? && b.Success?
            && var r := UnshardOf(poplar, param, [a.value, b.value]);
               r.Success? && |r.value| == len && forall j :: 0 <= j < len ==> r.value[j] == Total(e, j)
  {
    var leaf, len, p := IsLeaf(poplar, param), |param.prefixes|, poplar.Modulus(IsLeaf(poplar, param));
    AggregateTotals(poplar, leaf, len, s0, s1, e, 0);
    var a, b := AggregateOf(poplar, leaf, len, s0).value, AggregateOf(poplar, leaf, len, s1).value;
    TwoShares(poplar, leaf, len, a, b);
    var sum := AggregateOf(poplar, leaf, len, [a, b]).value.elems;
    forall j | 0 <= j < len ensures sum[j] == Total(e, j) {
      AggregateTotals(poplar, leaf, len, s0, s1, e, j);
      CongEqual(p, a.elems[j] + b.elems[j], Total(e, j));
      ResSmall(p, Total(e, j));
    }
    hide AggregateOf, BatchShares, Total, Res, Cong;
  }

  lemma {:induction false} TwoShares(poplar: Poplar, leaf: bool, len: nat, a: FieldVec, b: FieldVec)
    requires poplar.Sized() && a.leaf == b.leaf == leaf && |a.elems| == |b.elems| == len
    ensures var r := AggregateOf(poplar, leaf, len, [a, b]);
            r.Success? && forall j :: 0 <= j < len ==> r.value.elems[j] == Res(poplar.Modulus(leaf), a.elems[j] + b.elems[j])
  {
    var p := poplar.Modulus(leaf);
    assert [a, b][..1] == [a] && [a][..0] == [];
    assert AggregateOf(poplar, leaf, len, []) == Success(FieldVec(leaf, Zeros(len)));
    assert AggregateOf(poplar, leaf, len, [a]) == Success(FieldVec(leaf, AddVec(p, Zeros(len), a.elems)));
    hide Res;
    forall j | 0 <= j < len ensures Res(p, Res(p, 0 + a.elems[j]) + b.elems[j]) == Res(p, a.elems[j] + b.elems[j]) {
      ResAdd(p, a.elems[j], b.elems[j]);
    }
  }

  /** A report: the instance for its nonce, its measurement and the client's coins. */
  datatype Report = Report(poplar: Poplar, input: seq<bool>, coins: Coins)

  /** An honest batch for one aggregation parameter, at a level where sketches align. */
  ghost predicate HonestBatch(poplar: Poplar, reports: seq<Report>, param: AggParam)
    requires poplar.Sized()
  {
    && ValidParam(param) && param.level < poplar.bits
    && forall i :: 0 <= i < |reports| ==> HonestReport(poplar, reports[i], param)
  }

  ghost predicate HonestReport(poplar: Poplar, report: Report, param: AggParam) {
    && report.poplar.bits == poplar.bits && report.poplar.pInner == poplar.pInner && report.poplar.pLeaf == poplar.pLeaf
    && Honest(report.poplar, report.input, report.coins, param) && Aligned(report.poplar, param)
  }

  /** The outputs of the two-round run of a report. */
  ghost function Outputs(poplar: Poplar, report: Report, param: AggParam): (FieldVec, FieldVec)
    requires HonestReport(poplar, report, param)
  {
    HonestAccepted(report.poplar, report.input, report.coins, param);
    var end := Round(report.poplar, Round(report.poplar, HonestStart(report.poplar, report.input, report.coins, param)));
    (end.out0, end.out1)
  }

  ghost function BatchOutputs(poplar: Poplar, reports: seq<Report>, param: AggParam, agg: nat): (s: seq<FieldVec>)
    requires poplar.Sized() && HonestBatch(poplar, reports, param)
    ensures |s| == |reports|
  {
    seq(|reports|, i requires 0 <= i < |reports| =>
      if agg == 0 then Outputs(poplar, reports[i], param).0 else Outputs(poplar, reports[i], param).1)
  }

  ghost function Indicators(reports: seq<Report>, prefixes: seq<seq<bool>>): (e: seq<seq<int>>)
    ensures |e| == |reports| && forall i :: 0 <= i < |e| ==> |e[i]| == |prefixes|
  {
    seq(|reports|, i requires 0 <= i < |reports| => Indicator(prefixes, reports[i].input))
  }

  /** How many measurements of the batch have the given prefix. */
  ghost function CountPrefix(reports: seq<Report>, prefix: seq<bool>): nat {
    if reports == [] then 0
    else CountPrefix(reports[..|reports| - 1], prefix) + if prefix <= reports[|reports| - 1].input then 1 else 0
  }

  lemma {:induction false} CountIsTotal(reports: seq<Report>, prefixes: seq<seq<bool>>, j: nat)
    requires j < |prefixes|
    ensures Total(Indicators(reports, prefixes), j) == CountPrefix(reports, prefixes[j]) <= |reports|
  {
    if reports != [] {
      var n := |reports| - 1;
      CountIsTotal(reports[..n], prefixes, j);
      assert Indicators(reports, prefixes)[..n] == Indicators(reports[..n], prefixes);
    }
  }

  /** End to end: for every honest batch smaller than the field, unsharding the two aggregate shares
      returns, for every prefix, exactly the number of measurements that have it. */
  lemma {:induction false} BatchCounts(poplar: Poplar, reports: seq<Report>, param: AggParam)
    requires poplar.Sized() && HonestBatch(poplar, reports, param)
    requires |reports| < poplar.Modulus(IsLeaf(poplar, param)) && |reports| <= 0xFFFF_FFFF_FFFF_FFFF
    ensures var leaf, len := IsLeaf(poplar, param), |param.prefixes|;
            var a := AggregateOf(poplar, leaf, len, BatchOutputs(poplar, reports, param, 0));
            var b := AggregateOf(poplar, leaf, len, BatchOutputs(poplar, reports, param, 1));
            && a.Success? && b.Success?
            && var r := UnshardOf(poplar, param, [a.value, b.value]);
               && r.Success? && |r.value| == len
               && forall j :: 0 <= j < len ==> r.value[j] == CountPrefix(reports, param.prefixes[j])
  {
    var e := Indicators(reports, param.prefixes);
    BatchIsShared(poplar, reports, param);
    forall j | 0 <= j < |param.prefixes| ensures Total(e, j) == CountPrefix(reports, param.prefixes[j]) <= |reports| {
      CountIsTotal(reports, param.prefixes, j);
    }
    UnshardTotals(poplar, param, BatchOutputs(poplar, reports, param, 0), BatchOutputs(poplar, reports, param, 1), e);
    hide HonestReport, BatchOutputs, Indicators, AggregateOf, UnshardOf, CountPrefix, Total, BatchShares, Increasing;
  }

  lemma {:induction false} BatchIsShared(poplar: Poplar, reports: seq<Report>, param: AggParam)
    requires poplar.Sized() && HonestBatch(poplar, reports, param)
    ensures var leaf := IsLeaf(poplar, param);
            BatchShares(poplar.Modulus(leaf), leaf, |param.prefixes|, BatchOutputs(poplar, reports, param, 0), BatchOutputs(poplar, reports, param, 1),
                        Indicators(reports, param.prefixes))
  {
    var leaf, e := IsLeaf(poplar, param), Indicators(reports, param.prefixes);
    var s0, s1 := BatchOutputs(poplar, reports, param, 0), BatchOutputs(poplar, reports, param, 1);
    hide Indicator, SharesOf, Round, HonestStart, Honest, ValidParam;
    forall i | 0 <= i < |e|
      ensures s0[i].leaf == leaf && s1[i].leaf == leaf && SharesOf(poplar.Modulus(leaf), s0[i].elems, s1[i].elems, e[i])
    {
      var report := reports[i];
      assert HonestReport(poplar, report, param);
      HonestAccepted(report.poplar, report.input, report.coins, param);
    }
  }
}
