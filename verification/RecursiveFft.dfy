/** The recursive FFT of src/polynomial.rs (decimation in frequency), proved to compute the same
    discrete Fourier transform as the iterative one. */
module RecursiveFft {
  import opened Field
  import opened Powers
  import opened Sums
  import opened Fft
  import opened InverseFft

  function TermAt(w: elem, ys: seq<elem>, k: nat, m: int): elem {
    if m < 0 then 0 else Mul(Pad(ys, m), Pow(w, k * m))
  }

  /** Value k of the transform of order n with root w: the sum over m < n of ys[m] * w^(k*m). */
  function Transform(w: elem, ys: seq<elem>, n: nat, k: nat): elem {
    Sum(n, m => TermAt(w, ys, k, m))
  }

  /** For the table's root this is the transform that the iterative FFT computes. */
  lemma {:induction false} TransformIsDft(ys: seq<elem>, l: nat, k: nat)
    requires l <= MAX_ROOTS
    ensures Transform(Root(l), ys, Exp2(l), k) == Dft(ys, l, k)
  {
    hide Mul, Pow;
    SumExt(Exp2(l), m => TermAt(Root(l), ys, k, m), m => Term(ys, 0, 1, l, k, m));
  }

  /** w has order 2^l, and its half power is minus one. */
  ghost predicate RootOfOrder(w: elem, l: nat) {
    Pow(w, Exp2(l)) == 1 && (l > 0 ==> Pow(w, Exp2(l - 1)) == Neg(1))
  }

  lemma {:induction false} TableRoots(l: nat)
    requires l <= MAX_ROOTS
    ensures RootOfOrder(Root(l), l)
  {
    hide Pow, Exp2;
    RootFull(l);
    if l > 0 {
      RootHalf(l);
    }
  }

  lemma {:induction false} SquareOrder(w: elem, l: nat)
    requires l > 0 && RootOfOrder(w, l)
    ensures RootOfOrder(Mul(w, w), l - 1)
    ensures forall n: nat :: Pow(Mul(w, w), n) == Pow(w, 2 * n)
  {
    forall n: nat ensures Pow(Mul(w, w), n) == Pow(w, 2 * n) {
      PowTwo(w);
      PowPow(w, 2, n);
    }
    hide Pow, Mul;
    if l > 1 {
      assert Exp2(l - 1) == 2 * Exp2(l - 2);
    }
    assert Exp2(l) == 2 * Exp2(l - 1);
  }

  lemma {:induction false} PowTwo(w: elem)
    ensures Pow(w, 2) == Mul(w, w)
  {
    hide Mul;
    MulOne(w);
    assert Pow(w, 1) == Mul(w, Pow(w, 0));
  }

  /** w^(a*(h+m)) is w^(a*m), with the sign of (-1)^a. */
  lemma {:induction false} UpperExponent(w: elem, l: nat, a: nat, m: nat)
    requires l > 0 && RootOfOrder(w, l)
    ensures 0 <= a * m && 0 <= a * (Exp2(l - 1) + m)
    ensures Pow(w, a * (Exp2(l - 1) + m)) == if a % 2 == 0 then Pow(w, a * m) else Neg(Pow(w, a * m))
  {
    hide Pow, Mul, Exp2, Neg;
    var h := Exp2(l - 1);
    ExponentParts(a, h, m);
    PowAdd(w, h * a, a * m);
    PowPow(w, h, a);
    NegOnePow(a);
    var e := Pow(w, a * m);
    MulOne(e);
    if a % 2 == 1 {
      MulNeg(1, e);
    }
  }

  lemma {:induction false} ExponentParts(a: nat, h: nat, m: nat)
    ensures 0 <= a * m && 0 <= h * a && a * (h + m) == h * a + a * m
  {
  }

  lemma {:induction false} NegOneSquared()
    ensures Mul(Neg(1), Neg(1)) == 1
  {
    hide Mul, Neg;
    MulNeg(1, Neg(1));
    MulOne(Neg(1));
    NegNeg(1);
  }

  /** The folded input whose half-size transform gives the even values. */
  function Folded(ys: seq<elem>, h: nat): (r: seq<elem>)
    requires 2 * h <= |ys|
    ensures |r| == h
  {
    seq(h, i requires 0 <= i < h => Add(ys[i], ys[i + h]))
  }

  /** The twisted input whose half-size transform gives the odd values. */
  function Twisted(w: elem, ys: seq<elem>, h: nat): (r: seq<elem>)
    requires 2 * h <= |ys|
    ensures |r| == h
  {
    seq(h, i requires 0 <= i < h => Mul(Sub(ys[i], ys[i + h]), Pow(w, i)))
  }

  lemma {:induction false} EvenTerm(w: elem, ys: seq<elem>, l: nat, k: nat, m: nat)
    requires l > 0 && RootOfOrder(w, l) && 2 * Exp2(l - 1) <= |ys| && m < Exp2(l - 1)
    ensures Add(TermAt(w, ys, 2 * k, m), TermAt(w, ys, 2 * k, Exp2(l - 1) + m)) == TermAt(Mul(w, w), Folded(ys, Exp2(l - 1)), k, m)
  {
    hide *;
    var h, k2: nat := Exp2(l - 1), 2 * k;
    EvenExponent(k, k2, m);
    UpperExponent(w, l, k2, m);
    SquareOrder(w, l);
    TermIs(w, ys, k2, m);
    TermIs(w, ys, k2, h + m);
    TermIs(Mul(w, w), Folded(ys, h), k, m);
    FoldedAt(ys, h, m);
    CommonFactor(ys[m], ys[m + h], Pow(w, k2 * m));
  }

  lemma {:induction false} TermIs(w: elem, ys: seq<elem>, k: nat, m: nat)
    requires m < |ys|
    ensures 0 <= k * m && TermAt(w, ys, k, m) == Mul(ys[m], Pow(w, k * m))
  {
    hide Mul, Pow;
  }

  lemma {:induction false} FoldedAt(ys: seq<elem>, h: nat, m: nat)
    requires 2 * h <= |ys| && m < h
    ensures Folded(ys, h)[m] == Add(ys[m], ys[m + h])
  {
    hide Add;
  }

  lemma {:induction false} CommonFactor(a: elem, b: elem, e: elem)
    ensures Add(Mul(a, e), Mul(b, e)) == Mul(Add(a, b), e)
  {
    hide Add, Mul;
    MulComm(a, e);
    MulComm(b, e);
    Distrib(e, a, b);
    MulComm(e, Add(a, b));
  }

  lemma {:induction false} OddTerm(w: elem, ys: seq<elem>, l: nat, k: nat, m: nat)
    requires l > 0 && RootOfOrder(w, l) && 2 * Exp2(l - 1) <= |ys| && m < Exp2(l - 1)
    ensures Add(TermAt(w, ys, 2 * k + 1, m), TermAt(w, ys, 2 * k + 1, Exp2(l - 1) + m))
         == TermAt(Mul(w, w), Twisted(w, ys, Exp2(l - 1)), k, m)
  {
    SquareOrder(w, l);
    hide Pow, Mul, Add, Sub, Neg, Exp2, RootOfOrder;
    var h := Exp2(l - 1);
    var a, b := ys[m], ys[m + h];
    UpperExponent(w, l, 2 * k + 1, m);
    var e := Pow(w, (2 * k + 1) * m);
    OddExponent(k, m);
    PowAdd(w, m, 2 * (k * m));
    var d := Sub(a, b);
    calc {
      Add(Mul(a, e), Mul(b, Neg(e)));
      { MulNeg(b, e); SubIsAddNeg(Mul(a, e), Mul(b, e)); }
      Sub(Mul(a, e), Mul(b, e));
      { MulComm(a, e); MulComm(b, e); DistribSub(e, a, b); MulComm(e, d); }
      Mul(d, e);
      { MulAssoc(d, Pow(w, m), Pow(w, 2 * (k * m))); }
      Mul(Mul(d, Pow(w, m)), Pow(w, 2 * (k * m)));
    }
  }

  lemma {:induction false} EvenExponent(k: nat, k2: nat, m: nat)
    requires k2 == 2 * k
    ensures 0 <= k * m && k2 * m == 2 * (k * m)
  {
  }

  lemma {:induction false} OddExponent(k: nat, m: nat)
    ensures 0 <= k * m && (2 * k + 1) * m == m + 2 * (k * m)
  {
  }

  /** Splitting the sum in halves: each value is a value of a half-size transform. */
  lemma {:induction false} HalfSize(w: elem, ys: seq<elem>, l: nat, k: nat)
    requires l > 0 && RootOfOrder(w, l) && 2 * Exp2(l - 1) <= |ys|
    ensures Transform(w, ys, Exp2(l), 2 * k) == Transform(Mul(w, w), Folded(ys, Exp2(l - 1)), Exp2(l - 1), k)
    ensures Transform(w, ys, Exp2(l), 2 * k + 1) == Transform(Mul(w, w), Twisted(w, ys, Exp2(l - 1)), Exp2(l - 1), k)
  {
    hide *;
    HalfDouble(l);
    EvenHalf(w, ys, l, k);
    OddHalf(w, ys, l, k);
  }

  lemma {:induction false} HalfDouble(l: nat)
    requires l > 0
    ensures Exp2(l) == Exp2(l - 1) + Exp2(l - 1)
  {
  }

  lemma {:induction false} EvenHalf(w: elem, ys: seq<elem>, l: nat, k: nat)
    requires l > 0 && RootOfOrder(w, l) && 2 * Exp2(l - 1) <= |ys|
    ensures Transform(w, ys, Exp2(l - 1) + Exp2(l - 1), 2 * k) == Transform(Mul(w, w), Folded(ys, Exp2(l - 1)), Exp2(l - 1), k)
  {
    hide *;
    var h, x, v := Exp2(l - 1), Folded(ys, Exp2(l - 1)), Mul(w, w);
    var f: int -> elem := m => TermAt(v, x, k, m);
    forall m | 0 <= m < h ensures Add(TermAt(w, ys, 2 * k, m), TermAt(w, ys, 2 * k, h + m)) == f(m) {
      EvenTerm(w, ys, l, k, m);
    }
    HalvesSum(h, w, ys, 2 * k, f);
    TransformIs(v, x, h, k, f);
  }

  lemma {:induction false} OddHalf(w: elem, ys: seq<elem>, l: nat, k: nat)
    requires l > 0 && RootOfOrder(w, l) && 2 * Exp2(l - 1) <= |ys|
    ensures Transform(w, ys, Exp2(l - 1) + Exp2(l - 1), 2 * k + 1) == Transform(Mul(w, w), Twisted(w, ys, Exp2(l - 1)), Exp2(l - 1), k)
  {
    hide *;
    var h, x, v := Exp2(l - 1), Twisted(w, ys, Exp2(l - 1)), Mul(w, w);
    var f: int -> elem := m => TermAt(v, x, k, m);
    forall m | 0 <= m < h ensures Add(TermAt(w, ys, 2 * k + 1, m), TermAt(w, ys, 2 * k + 1, h + m)) == f(m) {
      OddTerm(w, ys, l, k, m);
    }
    HalvesSum(h, w, ys, 2 * k + 1, f);
    TransformIs(v, x, h, k, f);
  }

  lemma {:induction false} TransformIs(w: elem, ys: seq<elem>, n: nat, k: nat, f: int -> elem)
    requires forall m :: 0 <= m < n ==> f(m) == TermAt(w, ys, k, m)
    ensures Transform(w, ys, n, k) == Sum(n, f)
  {
    hide TermAt, Sum;
    SumExt(n, f, m => TermAt(w, ys, k, m));
  }

  lemma {:induction false} HalvesSum(h: nat, w: elem, ys: seq<elem>, k: nat, g: int -> elem)
    requires forall m :: 0 <= m < h ==> Add(TermAt(w, ys, k, m), TermAt(w, ys, k, h + m)) == g(m)
    ensures Transform(w, ys, h + h, k) == Sum(h, g)
  {
    hide Add, TermAt, Transform, Sum;
    var f: int -> elem := m => TermAt(w, ys, k, m);
    TransformIs(w, ys, h + h, k, f);
    SumHalves(h, f, g);
  }

  lemma {:induction false} SumHalves(h: nat, f: int -> elem, g: int -> elem)
    requires forall m :: 0 <= m < h ==> Add(f(m), f(h + m)) == g(m)
    ensures Sum(h + h, f) == Sum(h, g)
  {
    hide Add, Sum;
    var u: int -> elem := m => f(h + m);
    SumConcat(h, h, f);
    SumExt(h, u, m => f(h + m));
    SumAdd(h, f, u);
    SumExt(h, m => Add(f(m), u(m)), g);
  }

  /** The loop that folds the input and squares the roots. */
  method Fold(roots: seq<elem>, ys: seq<elem>, halfN: nat) returns (ySub: seq<elem>, rootsSub: seq<elem>)
    requires 2 * halfN <= |roots| && 2 * halfN <= |ys|
    ensures ySub == Folded(ys, halfN)
    ensures |rootsSub| == halfN && forall j :: 0 <= j < halfN ==> rootsSub[j] == roots[2 * j]
  {
    hide Add;
    ySub, rootsSub := [], [];
    for i := 0 to halfN
      invariant |ySub| == |rootsSub| == i
      invariant forall j :: 0 <= j < i ==> ySub[j] == Add(ys[j], ys[j + halfN]) && rootsSub[j] == roots[2 * j]
    {
      ySub := ySub + [Add(ys[i], ys[i + halfN])];
      rootsSub := rootsSub + [roots[2 * i]];
    }
  }

  /** The loop that twists the input. */
  method Twist(roots: seq<elem>, ys: seq<elem>, halfN: nat, ghost w: elem) returns (ySub: seq<elem>)
    requires 2 * halfN <= |roots| && 2 * halfN <= |ys| && forall i :: 0 <= i < halfN ==> roots[i] == Pow(w, i)
    ensures ySub == Twisted(w, ys, halfN)
  {
    hide Sub, Mul, Pow;
    ySub := [];
    for i := 0 to halfN
      invariant |ySub| == i && forall j :: 0 <= j < i ==> ySub[j] == Mul(Sub(ys[j], ys[j + halfN]), Pow(w, j))
    {
      ySub := ySub + [Mul(Sub(ys[i], ys[i + halfN]), roots[i])];
    }
  }

  /** The loops that write the two half-size results to the even and odd positions of the output. */
  method Interleave(first: seq<elem>, second: seq<elem>) returns (out: seq<elem>)
    requires |first| == |second|
    ensures |out| == 2 * |first|
    ensures forall j :: 0 <= j < |first| ==> out[2 * j] == first[j] && out[2 * j + 1] == second[j]
  {
    var n := |first|;
    var res := new elem[2 * n](_ => 0);
    for i := 0 to n
      invariant forall j :: 0 <= j < i ==> res[2 * j] == first[j]
    {
      res[2 * i] := first[i];
    }
    for i := 0 to n
      invariant forall j :: 0 <= j < n ==> res[2 * j] == first[j]
      invariant forall j :: 0 <= j < i ==> res[2 * j + 1] == second[j]
    {
      res[2 * i + 1] := second[i];
    }
    out := res[..];
  }

  /** `fft_recurse`. The scratch buffers hold the folded or twisted input, the squared roots and the
      half-size result. */
  method FftRecurse(n: nat, ghost l: nat, ghost w: elem, roots: seq<elem>, ys: seq<elem>) returns (out: seq<elem>)
    requires n == Exp2(l) && n <= |roots| && n <= |ys| && RootOfOrder(w, l)
    requires forall i :: 0 <= i < n ==> roots[i] == Pow(w, i)
    ensures |out| == n && forall k :: 0 <= k < n ==> out[k] == Transform(w, ys, n, k)
    decreases l
  {
    hide Add, Sub, Mul, Pow, Transform, RootOfOrder, Exp2, Folded, Twisted;
    if n == 1 {
      SizeOne(l, w, ys);
      return [ys[0]];
    }
    SizeMore(l);
    var halfN := n / 2;
    var ySub, rootsSub := Fold(roots, ys, halfN);
    SquareOrder(w, l);
    forall i | 0 <= i < halfN ensures rootsSub[i] == Pow(Mul(w, w), i) {
      assert Pow(Mul(w, w), i) == Pow(w, 2 * i);
    }
    var first := FftRecurse(halfN, l - 1, Mul(w, w), rootsSub, ySub);
    ySub := Twist(roots, ys, halfN, w);
    var second := FftRecurse(halfN, l - 1, Mul(w, w), rootsSub, ySub);
    out := Interleave(first, second);
    Interleaved(w, ys, l, out, first, second);
  }

  lemma {:induction false} SizeOne(l: nat, w: elem, ys: seq<elem>)
    requires Exp2(l) == 1 && |ys| >= 1
    ensures l == 0 && Transform(w, ys, 1, 0) == ys[0]
  {
    hide Mul, Add;
    MulOne(ys[0]);
    AddZero(ys[0]);
    assert Sum(1, m => TermAt(w, ys, 0, m)) == Add(Sum(0, m => TermAt(w, ys, 0, m)), TermAt(w, ys, 0, 0));
  }

  lemma {:induction false} SizeMore(l: nat)
    requires Exp2(l) != 1
    ensures l > 0 && Exp2(l) == 2 * Exp2(l - 1)
  {
  }

  lemma {:induction false} Interleaved(w: elem, ys: seq<elem>, l: nat, out: seq<elem>, first: seq<elem>, second: seq<elem>)
    requires l > 0 && RootOfOrder(w, l) && |out| == Exp2(l) <= |ys| && |first| == |second| == Exp2(l - 1) && Exp2(l) == 2 * Exp2(l - 1)
    requires forall j :: 0 <= j < |first| ==> first[j] == Transform(Mul(w, w), Folded(ys, Exp2(l - 1)), Exp2(l - 1), j)
    requires forall j :: 0 <= j < |first| ==> second[j] == Transform(Mul(w, w), Twisted(w, ys, Exp2(l - 1)), Exp2(l - 1), j)
    requires forall j :: 0 <= j < |first| ==> out[2 * j] == first[j] && out[2 * j + 1] == second[j]
    ensures forall k :: 0 <= k < |out| ==> out[k] == Transform(w, ys, Exp2(l), k)
  {
    hide Mul, Transform, RootOfOrder, Exp2, Folded, Twisted;
    forall k | 0 <= k < |out| ensures out[k] == Transform(w, ys, Exp2(l), k) {
      var j := k / 2;
      HalfSize(w, ys, l, j);
      assert out[2 * j] == first[j] && out[2 * j + 1] == second[j];
    }
  }

  // ------------------------------------------------------------------ the inverse roots

  /** The root of order 2^l that a transform uses, or its inverse for the inverse transform. */
  function Base(l: nat, invert: bool): elem
    requires l <= MAX_ROOTS
  {
    if invert then Inv(Root(l)) else Root(l)
  }

  lemma {:induction false} RootUnit(l: nat)
    requires l <= MAX_ROOTS
    ensures Mul(Root(l), Inv(Root(l))) == 1
  {
    hide Mul, Inv;
    RootFull(l);
    Exp2Positive(l);
    MulZero(Pow(Root(l), Exp2(l) - 1));
    MulComm(0, Pow(Root(l), Exp2(l) - 1));
  }

  /** Powers of the inverse are inverses of powers. */
  lemma {:induction false} PowInverse(a: elem, b: elem, n: nat)
    requires Mul(a, b) == 1
    ensures Mul(Pow(a, n), Pow(b, n)) == 1 && Inv(Pow(a, n)) == Pow(b, n)
  {
    hide Mul, Pow;
    PowMul(a, b, n);
    PowOne(n);
    InvUnique(Pow(a, n), Pow(b, n));
  }

  lemma {:induction false} BaseOrder(l: nat, invert: bool)
    requires l <= MAX_ROOTS
    ensures RootOfOrder(Base(l, invert), l)
  {
    hide Mul, Pow, Exp2, Inv;
    TableRoots(l);
    if invert {
      RootUnit(l);
      PowInverse(Root(l), Inv(Root(l)), Exp2(l));
      MulOne(1);
      InvUnique(1, 1);
      if l > 0 {
        PowInverse(Root(l), Inv(Root(l)), Exp2(l - 1));
        NegOneSquared();
        InvUnique(Neg(1), Neg(1));
      }
    }
  }

  /** A generator of order 2^n, from which the table's roots derive. */
  predicate Generates(g: elem, n: nat) {
    MAX_ROOTS <= n && Pow(g, Exp2(n - MAX_ROOTS)) == Root(MAX_ROOTS)
  }

  /** The generator that a transform uses, or its inverse. */
  function Start(g: elem, invert: bool): elem { if invert then Inv(g) else g }

  lemma {:induction false} GeneratorUnit(g: elem, n: nat)
    requires Generates(g, n)
    ensures Mul(g, Inv(g)) == 1
  {
    hide Mul, Inv;
    var e := Exp2(n - MAX_ROOTS);
    Exp2Positive(n - MAX_ROOTS);
    RootUnit(MAX_ROOTS);
    MulZero(Pow(g, e - 1));
    MulComm(0, Pow(g, e - 1));
    MulZero(Inv(Root(MAX_ROOTS)));
    MulComm(0, Inv(Root(MAX_ROOTS)));
  }

  /** The step from the generator down to order 2^l. */
  lemma {:induction false} StartStep(g: elem, n: nat, l: nat, invert: bool)
    requires Generates(g, n) && l <= MAX_ROOTS
    ensures Pow(Start(g, invert), Exp2(n - l)) == Base(l, invert)
  {
    hide Mul, Pow, Exp2, Inv;
    RootPow(MAX_ROOTS, MAX_ROOTS - l);
    PowPow(g, Exp2(n - MAX_ROOTS), Exp2(MAX_ROOTS - l));
    Exp2Add(n - MAX_ROOTS, MAX_ROOTS - l);
    assert Pow(g, Exp2(n - l)) == Root(l);
    if invert {
      GeneratorUnit(g, n);
      PowInverse(g, Inv(g), Exp2(n - l));
    }
  }

  /** With the inverse root, the transform is the unscaled inverse transform. */
  lemma {:induction false} TransformIsInverse(ys: seq<elem>, l: nat, k: nat)
    requires l <= MAX_ROOTS && k < Exp2(l)
    ensures Transform(Base(l, true), ys, Exp2(l), k) == Dft(ys, l, Reflect(Exp2(l), k))
  {
    hide Mul, Pow, Inv, Exp2, Reflect;
    var r := Reflect(Exp2(l), k);
    forall m | 0 <= m < Exp2(l) ensures TermAt(Base(l, true), ys, k, m) == Term(ys, 0, 1, l, r, m) {
      RootUnit(l);
      PowInverse(Root(l), Inv(Root(l)), k * m);
      ReflectInverse(l, k, m);
      InvUnique(Pow(Root(l), k * m), Pow(Root(l), r * m));
    }
    SumExt(Exp2(l), m => TermAt(Base(l, true), ys, k, m), m => Term(ys, 0, 1, l, r, m));
  }

  /** `fft_get_roots` for count = 2^l, from a generator of any order 2^n: the powers of the root of order
      2^l or of its inverse. */
  method FftGetRoots(count: nat, ghost l: nat, generator: elem, order: nat, ghost n: nat, invert: bool) returns (roots: seq<elem>)
    requires 1 <= l <= MAX_ROOTS && count == Exp2(l) && Generates(generator, n) && order == Exp2(n)
    ensures |roots| == count && forall i :: 0 <= i < count ==> roots[i] == Pow(Base(l, invert), i)
  {
    hide Mul, Exp2, Inv;
    StartStep(generator, n, l, invert);
    AtLeastTwo(l);
    StepSize(l, n);
    var gen := generator;
    if invert {
      gen := Inv(gen);
    }
    gen := Pow(gen, order / count);
    roots := [1, gen];
    MulOne(gen);
    assert Pow(gen, 1) == Mul(gen, Pow(gen, 0));
    for i := 2 to count
      invariant |roots| == i && forall j :: 0 <= j < i ==> roots[j] == Pow(gen, j)
    {
      roots := roots + [Mul(gen, roots[i - 1])];
    }
  }

  lemma {:induction false} AtLeastTwo(l: nat)
    requires 1 <= l
    ensures 2 <= Exp2(l)
  {
    Exp2Positive(l - 1);
  }

  lemma {:induction false} StepSize(l: nat, n: nat)
    requires l <= n
    ensures Exp2(l) > 0 && Exp2(n) / Exp2(l) == Exp2(n - l)
  {
    Exp2Positive(l);
    Exp2Add(n - l, l);
    hide Exp2;
    DivModUnique(Exp2(n), Exp2(l), Exp2(n - l), 0);
  }

  /** `poly_fft` on the roots of `fft_get_roots`. The recursive FFT agrees with the iterative one: both
      are the discrete Fourier transform, or its inverse. */
  method PolyFft(ys: seq<elem>, l: nat, generator: elem, order: nat, ghost n: nat, invert: bool) returns (out: seq<elem>)
    requires 1 <= l <= MAX_ROOTS && |ys| == Exp2(l) && Generates(generator, n) && order == Exp2(n)
    ensures out == if invert then InvDftSeq(ys, l) else DftSeq(ys, l)
  {
    hide Pow, Transform, Dft, RootOfOrder, Exp2, Inv, Mod, Mul, Base;
    var roots := FftGetRoots(Exp2(l), l, generator, order, n, invert);
    BaseOrder(l, invert);
    var raw := FftRecurse(Exp2(l), l, Base(l, invert), roots, ys);
    RawValues(ys, l, invert);
    if invert {
      out := Scale(raw, Inv(Mod(Exp2(l))));
      InverseValues(ys, l, raw, out);
    } else {
      out := raw;
    }
  }

  lemma {:induction false} RawValues(ys: seq<elem>, l: nat, invert: bool)
    requires 1 <= l <= MAX_ROOTS
    ensures forall k :: 0 <= k < Exp2(l) ==>
              Transform(Base(l, invert), ys, Exp2(l), k) == if invert then Dft(ys, l, Reflect(Exp2(l), k)) else DftSeq(ys, l)[k]
  {
    hide Transform, Dft, Exp2;
    forall k | 0 <= k < Exp2(l)
      ensures Transform(Base(l, invert), ys, Exp2(l), k) == if invert then Dft(ys, l, Reflect(Exp2(l), k)) else DftSeq(ys, l)[k]
    {
      if invert {
        TransformIsInverse(ys, l, k);
      } else {
        TransformIsDft(ys, l, k);
      }
    }
  }

  lemma {:induction false} InverseValues(ys: seq<elem>, l: nat, raw: seq<elem>, out: seq<elem>)
    requires l <= MAX_ROOTS && |raw| == |out| == Exp2(l)
    requires forall k :: 0 <= k < Exp2(l) ==> raw[k] == Dft(ys, l, Reflect(Exp2(l), k))
    requires forall k :: 0 <= k < Exp2(l) ==> out[k] == Mul(raw[k], Inv(Mod(Exp2(l))))
    ensures out == InvDftSeq(ys, l)
  {
    hide Mul, Inv, Mod, Dft, Exp2;
    forall k | 0 <= k < Exp2(l) ensures out[k] == InvDftSeq(ys, l)[k] {
      MulComm(raw[k], Inv(Mod(Exp2(l))));
    }
  }

  /** The scaling loop of `fft_interpolate_raw`. */
  method Scale(raw: seq<elem>, nInverse: elem) returns (out: seq<elem>)
    ensures |out| == |raw| && forall k :: 0 <= k < |raw| ==> out[k] == Mul(raw[k], nInverse)
  {
    hide Mul;
    out := [];
    for i := 0 to |raw|
      invariant |out| == i && forall k :: 0 <= k < i ==> out[k] == Mul(raw[k], nInverse)
    {
      out := out + [Mul(raw[i], nInverse)];
    }
  }
}
