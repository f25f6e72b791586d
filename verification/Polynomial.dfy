/** Polynomials over the field, as coefficient vectors: evaluation, multiplication, degree and root
    counting (src/polynomial.rs). */
module Polynomial {
  import opened Field
  import opened Powers
  import opened Sums
  import opened Fft

  function Eval(p: seq<elem>, x: elem): elem {
    if p == [] then 0 else Add(p[0], Mul(x, Eval(p[1..], x)))
  }

  /** Equality of polynomials: the same coefficients, whatever the zero padding. */
  ghost predicate SamePoly(p: seq<elem>, q: seq<elem>) {
    forall k :: Pad(p, k) == Pad(q, k)
  }

  // ------------------------------------------------------------------ evaluation

  function Monomial(p: seq<elem>, x: elem, i: int): elem {
    if i < 0 then 0 else Mul(Pad(p, i), Pow(x, i))
  }

  lemma {:induction false} MonomialShift(p: seq<elem>, x: elem, i: nat)
    requires p != []
    ensures Monomial(p, x, 1 + i) == Mul(x, Monomial(p[1..], x, i))
  {
    hide Mul;
    var c := Pad(p[1..], i);
    assert Pow(x, 1 + i) == Mul(x, Pow(x, i));
    assert Pad(p, 1 + i) == c;
    MulAssoc(c, x, Pow(x, i));
    MulComm(c, x);
    MulAssoc(x, c, Pow(x, i));
  }

  lemma {:induction false} FirstTerm(p: seq<elem>, x: elem, f: int -> elem)
    requires p != [] && f(0) == Monomial(p, x, 0)
    ensures Sum(1, f) == p[0]
  {
    hide Add, Mul;
    MulOne(p[0]);
    AddZero(p[0]);
    assert Sum(1, f) == Add(Sum(0, f), f(0));
  }

  lemma {:induction false} EvalStep(p: seq<elem>, x: elem)
    requires p != []
    ensures Eval(p, x) == Add(p[0], Mul(x, Eval(p[1..], x)))
  {
  }

  lemma {:induction false} EvalIsSum(p: seq<elem>, x: elem, n: nat)
    requires |p| <= n
    ensures Eval(p, x) == Sum(n, i => Monomial(p, x, i))
  {
    var f: int -> elem := i => Monomial(p, x, i);
    if p == [] {
      NoMonomials(x, n, f);
    } else {
      hide Add, Mul, Pow, Eval;
      EvalIsSum(p[1..], x, n - 1);
      TailSum(p, x, n - 1, f);
      EvalStep(p, x);
    }
    SumExt(n, f, i => Monomial(p, x, i));
  }

  lemma {:induction false} NoMonomials(x: elem, n: nat, f: int -> elem)
    requires forall i :: f(i) == Monomial([], x, i)
    ensures Sum(n, f) == 0
  {
    hide Mul, Pow;
    forall i | 0 <= i < n ensures f(i) == 0 {
      MulZero(Pow(x, i));
    }
    SumZero(n, f);
  }

  /** Horner's step on sums. */
  lemma {:induction false} TailSum(p: seq<elem>, x: elem, n: nat, f: int -> elem)
    requires p != [] && forall i :: f(i) == Monomial(p, x, i)
    ensures Sum(1 + n, f) == Add(p[0], Mul(x, Sum(n, i => Monomial(p[1..], x, i))))
  {
    hide Add, Mul, Pow, Sum, Monomial;
    var g: int -> elem := i => Monomial(p[1..], x, i);
    SumConcat(1, n, f);
    FirstTerm(p, x, f);
    forall i: nat ensures f(1 + i) == Mul(x, g(i)) {
      MonomialShift(p, x, i);
    }
    SumExt(n, i => f(1 + i), i => Mul(x, g(i)));
    SumScale(n, x, g);
    SumExt(n, g, i => Monomial(p[1..], x, i));
  }

  lemma {:induction false} EvalSame(p: seq<elem>, q: seq<elem>, x: elem)
    requires SamePoly(p, q)
    ensures Eval(p, x) == Eval(q, x)
  {
    hide Mul;
    var n := if |p| > |q| then |p| else |q|;
    EvalIsSum(p, x, n);
    EvalIsSum(q, x, n);
    SumExt(n, i => Monomial(p, x, i), i => Monomial(q, x, i));
  }

  lemma {:induction false} EvalNil(x: elem)
    ensures Eval([], x) == 0
  {
  }

  lemma {:induction false} EvalConstant(c: elem, x: elem)
    ensures Eval([c], x) == c
  {
    hide Mul, Add;
    assert ([c])[1..] == [];
    MulZero(x);
    AddZero(c);
  }

  lemma {:induction false} EvalAppend(p: seq<elem>, c: elem, x: elem)
    ensures Eval(p + [c], x) == Add(Eval(p, x), Mul(c, Pow(x, |p|)))
  {
    hide Mul, Add;
    if p == [] {
      assert (p + [c])[1..] == [];
      MulZero(x);
      AddZero(c);
      MulOne(c);
    } else {
      var t := p[1..];
      assert (p + [c])[1..] == t + [c];
      EvalAppend(t, c, x);
      var u, w := Eval(t, x), Pow(x, |t|);
      Distrib(x, u, Mul(c, w));
      MulAssoc(x, c, w);
      MulComm(x, c);
      MulAssoc(c, x, w);
      AddAssoc(p[0], Mul(x, u), Mul(c, Pow(x, |p|)));
    }
  }

  /** The transform evaluates the polynomial at the powers of the root of unity. */
  lemma {:induction false} DftIsEval(p: seq<elem>, l: nat, k: nat)
    requires l <= MAX_ROOTS && |p| <= Exp2(l)
    ensures Dft(p, l, k) == Eval(p, Pow(Root(l), k))
  {
    hide Mul, Pow, Exp2;
    var x, n := Pow(Root(l), k), Exp2(l);
    EvalIsSum(p, x, n);
    forall m: nat ensures Term(p, 0, 1, l, k, m) == Monomial(p, x, m) {
      PowPow(Root(l), k, m);
    }
    SumExt(n, m => Term(p, 0, 1, l, k, m), i => Monomial(p, x, i));
  }

  /** `poly_eval`, Horner's method. */
  method PolyEval(poly: seq<elem>, evalAt: elem) returns (result: elem)
    ensures result == Eval(poly, evalAt)
  {
    hide Add, Mul;
    if |poly| == 0 {
      return 0;
    }
    result := poly[|poly| - 1];
    EvalLast(poly, evalAt);
    for i := |poly| - 1 downto 0
      invariant result == Eval(poly[i..], evalAt)
    {
      result := Mul(result, evalAt);
      result := Add(result, poly[i]);
      HornerStep(poly, i, evalAt);
    }
    assert poly[0..] == poly;
  }

  lemma {:induction false} EvalLast(poly: seq<elem>, x: elem)
    requires |poly| > 0
    ensures Eval(poly[|poly| - 1..], x) == poly[|poly| - 1]
  {
    hide Add, Mul;
    var t := poly[|poly| - 1..];
    assert t[1..] == [];
    MulZero(x);
    AddZero(t[0]);
  }

  lemma {:induction false} HornerStep(poly: seq<elem>, i: nat, x: elem)
    requires i + 1 < |poly|
    ensures Add(Mul(Eval(poly[i + 1..], x), x), poly[i]) == Eval(poly[i..], x)
  {
    hide Add, Mul;
    var t := poly[i..];
    assert t[1..] == poly[i + 1..];
    MulComm(x, Eval(poly[i + 1..], x));
    AddComm(poly[i], Mul(x, Eval(poly[i + 1..], x)));
  }

  // ------------------------------------------------------------------ the polynomial ring

  function AddPoly(p: seq<elem>, q: seq<elem>): (r: seq<elem>)
    ensures |r| == if |p| > |q| then |p| else |q|
    ensures forall k :: Pad(r, k) == Add(Pad(p, k), Pad(q, k))
  {
    AddZero(0);
    seq(if |p| > |q| then |p| else |q|, k requires 0 <= k => Add(Pad(p, k), Pad(q, k)))
  }

  function ScalePoly(c: elem, p: seq<elem>): (r: seq<elem>)
    ensures |r| == |p|
    ensures forall k :: Pad(r, k) == Mul(c, Pad(p, k))
  {
    MulZero(c);
    seq(|p|, k requires 0 <= k => Mul(c, Pad(p, k)))
  }

  /** Schoolbook product. */
  function MulPoly(p: seq<elem>, q: seq<elem>): (r: seq<elem>)
    ensures p != [] && q != [] ==> |r| == |p| + |q| - 1
  {
    if p == [] then []
    else AddPoly(ScalePoly(p[0], q), [0] + MulPoly(p[1..], q))
  }

  lemma {:induction false} EvalAdd(p: seq<elem>, q: seq<elem>, x: elem)
    ensures Eval(AddPoly(p, q), x) == Add(Eval(p, x), Eval(q, x))
  {
    hide Mul, Add;
    var n, r := if |p| > |q| then |p| else |q|, AddPoly(p, q);
    EvalIsSum(p, x, n);
    EvalIsSum(q, x, n);
    EvalIsSum(r, x, n);
    var f: int -> elem := i => Monomial(p, x, i);
    var g: int -> elem := i => Monomial(q, x, i);
    forall i: nat ensures Monomial(r, x, i) == Add(f(i), g(i)) {
      var w := Pow(x, i);
      MulComm(Pad(r, i), w);
      MulComm(Pad(p, i), w);
      MulComm(Pad(q, i), w);
      Distrib(w, Pad(p, i), Pad(q, i));
    }
    SumExt(n, i => Monomial(r, x, i), i => Add(f(i), g(i)));
    SumAdd(n, f, g);
    SumExt(n, f, i => Monomial(p, x, i));
    SumExt(n, g, i => Monomial(q, x, i));
  }

  lemma {:induction false} EvalScale(c: elem, p: seq<elem>, x: elem)
    ensures Eval(ScalePoly(c, p), x) == Mul(c, Eval(p, x))
  {
    hide Mul, Add;
    var n, r := |p|, ScalePoly(c, p);
    EvalIsSum(p, x, n);
    EvalIsSum(r, x, n);
    var f: int -> elem := i => Monomial(p, x, i);
    forall i: nat ensures Monomial(r, x, i) == Mul(c, f(i)) {
      MulAssoc(c, Pad(p, i), Pow(x, i));
    }
    SumExt(n, i => Monomial(r, x, i), i => Mul(c, f(i)));
    SumScale(n, c, f);
    SumExt(n, f, i => Monomial(p, x, i));
  }

  lemma {:induction false} EvalShift(p: seq<elem>, x: elem)
    ensures Eval([0] + p, x) == Mul(x, Eval(p, x))
  {
    assert ([0] + p)[1..] == p;
    AddZero(Mul(x, Eval(p, x)));
  }

  /** Evaluation is a ring homomorphism. */
  lemma {:induction false} EvalMul(p: seq<elem>, q: seq<elem>, x: elem)
    ensures Eval(MulPoly(p, q), x) == Mul(Eval(p, x), Eval(q, x))
  {
    hide Mul, Add;
    if p == [] {
      MulZero(Eval(q, x));
    } else {
      var t, y := p[1..], Eval(q, x);
      EvalAdd(ScalePoly(p[0], q), [0] + MulPoly(t, q), x);
      EvalScale(p[0], q, x);
      EvalShift(MulPoly(t, q), x);
      EvalMul(t, q, x);
      MulAssoc(x, Eval(t, x), y);
      MulComm(Eval(p, x), y);
      Distrib(y, p[0], Mul(x, Eval(t, x)));
      MulComm(y, p[0]);
      MulComm(y, Mul(x, Eval(t, x)));
    }
  }

  /** Coefficient k of the product, from the first row. */
  lemma {:induction false} MulPolyCoef(p: seq<elem>, q: seq<elem>, k: int)
    requires p != []
    ensures Pad(MulPoly(p, q), k) == Add(Mul(p[0], Pad(q, k)), Pad(MulPoly(p[1..], q), k - 1))
  {
    hide Mul, Add;
    var t := MulPoly(p[1..], q);
    assert Pad([0] + t, k) == Pad(t, k - 1);
  }

  /** Coefficient k of the product, from the last row; this is the order of the source's loops. */
  lemma {:induction false} MulPolyAppend(p: seq<elem>, c: elem, q: seq<elem>, k: int)
    ensures Pad(MulPoly(p + [c], q), k) == Add(Pad(MulPoly(p, q), k), Mul(c, Pad(q, k - |p|)))
  {
    hide Mul, Add, MulPoly;
    MulPolyCoef(p + [c], q, k);
    if p == [] {
      MulPolyNil(q);
      assert (p + [c])[1..] == [];
      AddZero(0);
      AddZero(Mul(c, Pad(q, k)));
    } else {
      var t := p[1..];
      assert (p + [c])[1..] == t + [c];
      MulPolyAppend(t, c, q, k - 1);
      MulPolyCoef(p, q, k);
      AddAssoc(Mul(p[0], Pad(q, k)), Pad(MulPoly(t, q), k - 1), Mul(c, Pad(q, k - |p|)));
    }
  }

  lemma {:induction false} MulPolySame(p: seq<elem>, p': seq<elem>, q: seq<elem>, q': seq<elem>, k: int)
    requires SamePoly(p, p') && SamePoly(q, q')
    ensures Pad(MulPoly(p, q), k) == Pad(MulPoly(p', q'), k)
    decreases |p| + |p'|
  {
    hide Mul, Add;
    if p == [] && p' == [] {
    } else if p == [] {
      MulPolyCoef(p', q', k);
      assert Pad(p, 0) == p'[0];
      TailSame(p, p');
      MulPolySame(p, p'[1..], q, q', k - 1);
      MulZero(Pad(q', k));
      AddZero(0);
    } else if p' == [] {
      MulPolyCoef(p, q, k);
      assert Pad(p', 0) == p[0];
      TailSame(p', p);
      MulPolySame(p[1..], p', q, q', k - 1);
      MulZero(Pad(q, k));
      AddZero(0);
    } else {
      MulPolyCoef(p, q, k);
      MulPolyCoef(p', q', k);
      assert Pad(p, 0) == p[0] && Pad(p', 0) == p'[0];
      forall j ensures Pad(p[1..], j) == Pad(p'[1..], j) {
        assert j >= 0 ==> Pad(p, j + 1) == Pad(p', j + 1);
      }
      MulPolySame(p[1..], p'[1..], q, q', k - 1);
    }
  }

  lemma {:induction false} TailSame(z: seq<elem>, p: seq<elem>)
    requires z == [] && p != [] && SamePoly(z, p)
    ensures SamePoly(z, p[1..])
  {
    forall j ensures Pad(z, j) == Pad(p[1..], j) {
      assert j >= 0 ==> Pad(z, j + 1) == Pad(p, j + 1);
    }
  }

  // ------------------------------------------------------------------ degree and multiplication

  /** Number of coefficients up to the last nonzero one. */
  function TrimLen(p: seq<elem>): (d: nat)
    ensures d <= |p| && (d > 0 ==> p[d - 1] != 0) && forall k :: d <= k < |p| ==> p[k] == 0
  {
    if p == [] || p[|p| - 1] != 0 then |p| else TrimLen(p[..|p| - 1])
  }

  /** `poly_deg`. */
  method PolyDeg(p: seq<elem>) returns (r: nat)
    ensures r == if TrimLen(p) == 0 then 0 else TrimLen(p) - 1
  {
    var d := |p|;
    assert p[..d] == p;
    while d > 0 && p[d - 1] == 0
      invariant d <= |p| && TrimLen(p[..d]) == TrimLen(p)
    {
      assert p[..d][..d - 1] == p[..d - 1];
      d := d - 1;
    }
    r := if d > 0 then d - 1 else 0;
  }

  /** `poly_mul`: the product, without leading zeros (but never empty). */
  method PolyMul(p: seq<elem>, q: seq<elem>) returns (out: seq<elem>)
    requires p != [] && q != []
    ensures SamePoly(out, MulPoly(p, q))
    ensures |out| == if TrimLen(MulPoly(p, q)) == 0 then 1 else TrimLen(MulPoly(p, q))
  {
    hide Mul, Add, MulPoly;
    var dp := PolyDeg(p);
    var dq := PolyDeg(q);
    var pSize, qSize := dp + 1, dq + 1;
    ghost var p', q' := p[..pSize], q[..qSize];
    var buf := Schoolbook(p, q, pSize, qSize);
    ghost var full := MulPoly(p, q);
    TrimmedSame(p, pSize);
    TrimmedSame(q, qSize);
    MulPolyLen(p', q');
    forall k: int ensures Pad(buf, k) == Pad(full, k) {
      MulPolySame(p', p, q', q, k);
    }
    var d := PolyDeg(buf);
    TrimLenSame(buf, full);
    out := buf[..d + 1];
  }

  /** The double loop of `poly_mul` over the trimmed operands. */
  method Schoolbook(p: seq<elem>, q: seq<elem>, pSize: nat, qSize: nat) returns (out: seq<elem>)
    requires 1 <= pSize <= |p| && 1 <= qSize <= |q|
    ensures |out| == pSize + qSize
    ensures forall k :: 0 <= k < |out| ==> out[k] == Pad(MulPoly(p[..pSize], q[..qSize]), k)
  {
    hide Mul, Add, MulPoly;
    ghost var p', q' := p[..pSize], q[..qSize];
    var buf := new elem[pSize + qSize](_ => 0);
    MulPolyNil(q');
    assert p'[..0] == [];
    for i := 0 to pSize
      invariant forall k :: 0 <= k < buf.Length ==> buf[k] == Pad(MulPoly(p'[..i], q'), k)
    {
      ghost var before := buf[..];
      for j := 0 to qSize
        invariant forall k :: 0 <= k < buf.Length ==>
                    buf[k] == if i <= k < i + j then Add(before[k], Mul(p[i], q[k - i])) else before[k]
      {
        buf[i + j] := Add(buf[i + j], Mul(p[i], q[j]));
      }
      ProductRow(p', q', i, before, buf[..]);
    }
    assert p'[..pSize] == p';
    out := buf[..];
  }

  /** One row of the schoolbook product. */
  lemma {:induction false} ProductRow(p: seq<elem>, q: seq<elem>, i: nat, s: seq<elem>, s': seq<elem>)
    requires i < |p| && |s| == |s'| && q != []
    requires forall k :: 0 <= k < |s| ==> s[k] == Pad(MulPoly(p[..i], q), k)
    requires forall k :: 0 <= k < |s| ==> s'[k] == if i <= k < i + |q| then Add(s[k], Mul(p[i], q[k - i])) else s[k]
    ensures forall k :: 0 <= k < |s| ==> s'[k] == Pad(MulPoly(p[..i + 1], q), k)
  {
    hide Mul, Add, MulPoly;
    forall k | 0 <= k < |s| ensures s'[k] == Pad(MulPoly(p[..i + 1], q), k) {
      assert p[..i + 1] == p[..i] + [p[i]];
      MulPolyAppend(p[..i], p[i], q, k);
      MulZero(p[i]);
      AddZero(s[k]);
    }
  }

  lemma {:induction false} MulPolyLen(p: seq<elem>, q: seq<elem>)
    ensures |MulPoly(p, q)| <= |p| + |q|
  {
    if p != [] && q == [] {
      MulPolyLen(p[1..], q);
    }
  }

  lemma {:induction false} MulPolyNil(q: seq<elem>)
    ensures MulPoly([], q) == []
  {
  }

  lemma {:induction false} TrimmedSame(p: seq<elem>, n: nat)
    requires p != [] && n == if TrimLen(p) == 0 then 1 else TrimLen(p)
    ensures SamePoly(p[..n], p)
  {
  }

  lemma {:induction false} TrimLenSame(p: seq<elem>, q: seq<elem>)
    requires SamePoly(p, q)
    ensures TrimLen(p) == TrimLen(q)
  {
    var d, e := TrimLen(p), TrimLen(q);
    assert d > 0 ==> Pad(p, d - 1) == Pad(q, d - 1);
    assert e > 0 ==> Pad(p, e - 1) == Pad(q, e - 1);
  }

  // ------------------------------------------------------------------ root counting

  /** Quotient of p by (X - a): synthetic division. */
  function Quotient(p: seq<elem>, a: elem): (q: seq<elem>)
    requires p != []
    ensures |q| == |p| - 1
  {
    if |p| == 1 then [] else [Eval(p[1..], a)] + Quotient(p[1..], a)
  }

  /** Factor theorem: p(x) = p(a) + (x - a) q(x). */
  lemma {:induction false} FactorTheorem(p: seq<elem>, a: elem, x: elem)
    requires p != []
    ensures Eval(p, x) == Add(Eval(p, a), Mul(Sub(x, a), Eval(Quotient(p, a), x)))
  {
    hide Mul, Add, Sub;
    var t := p[1..];
    if |p| == 1 {
      MulZero(x);
      MulZero(a);
      MulZero(Sub(x, a));
      AddZero(p[0]);
    } else {
      var q := Quotient(t, a);
      FactorTheorem(t, a, x);
      assert Quotient(p, a)[1..] == q;
      FactorAlgebra(p[0], x, a, Eval(t, a), Eval(q, x));
    }
  }

  /** c + x (e + (x-a) q) == (c + a e) + (x - a)(e + x q). */
  lemma {:induction false} FactorAlgebra(c: elem, x: elem, a: elem, e: elem, q: elem)
    ensures Add(c, Mul(x, Add(e, Mul(Sub(x, a), q)))) == Add(Add(c, Mul(a, e)), Mul(Sub(x, a), Add(e, Mul(x, q))))
  {
    ModId(c);
    ModId(x);
    ModId(e);
    ModId(q);
    ModMul(x - a, q);
    ModAdd(e, (x - a) * q);
    ModMul(x, e + (x - a) * q);
    ModAdd(c, x * (e + (x - a) * q));
    ModMul(x, q);
    ModAdd(e, x * q);
    ModMul(x - a, e + x * q);
    ModAdd(c, a * e);
    ModAdd(c + a * e, (x - a) * (e + x * q));
    FactorInt(c, x, a, e, q);
  }

  lemma {:induction false} FactorInt(c: int, x: int, a: int, e: int, q: int)
    ensures c + x * (e + (x - a) * q) == c + a * e + (x - a) * (e + x * q)
  {
    var d := x - a;
    assert x * (e + d * q) == x * e + x * (d * q);
    assert d * (e + x * q) == d * e + d * (x * q);
    assert x * (d * q) == d * (x * q);
    assert x * e == d * e + a * e;
  }

  ghost predicate Distinct(xs: seq<elem>) {
    forall i, j :: 0 <= i < j < |xs| ==> xs[i] != xs[j]
  }

  ghost predicate IsZeroPoly(p: seq<elem>) {
    forall k :: Pad(p, k) == 0
  }

  /** A polynomial with as many distinct roots as coefficients is zero. */
  lemma {:induction false} RootCounting(p: seq<elem>, xs: seq<elem>)
    requires |xs| >= |p| && Distinct(xs)
    requires forall i :: 0 <= i < |xs| ==> Eval(p, xs[i]) == 0
    ensures IsZeroPoly(p)
    decreases |p|
  {
    hide Mul, Add, Sub;
    if p != [] {
      var a, rest := xs[0], xs[1..];
      var q := Quotient(p, a);
      forall i | 0 <= i < |rest| ensures Eval(q, rest[i]) == 0 {
        FactorTheorem(p, a, rest[i]);
        AddZero(Mul(Sub(rest[i], a), Eval(q, rest[i])));
        MulCancel(Sub(rest[i], a), Eval(q, rest[i]));
        SubZeroEq(rest[i], a);
        assert xs[i + 1] == rest[i];
      }
      RootCounting(q, rest);
      ZeroQuotient(p, a);
    }
  }

  lemma {:induction false} ZeroQuotient(p: seq<elem>, a: elem)
    requires p != [] && Eval(p, a) == 0 && IsZeroPoly(Quotient(p, a))
    ensures IsZeroPoly(p)
  {
    hide Mul, Add;
    MulZero(a);
    AddZero(p[0]);
    if |p| == 1 {
      assert p[1..] == [];
    } else {
      var t, q := p[1..], Quotient(p, a);
      assert Pad(q, 0) == Eval(t, a);
      forall k ensures Pad(Quotient(t, a), k) == 0 {
        assert k >= 0 ==> Pad(q, k + 1) == Pad(Quotient(t, a), k);
      }
      ZeroQuotient(t, a);
      forall k ensures Pad(p, k) == 0 {
        assert k > 0 ==> Pad(p, k) == Pad(t, k - 1);
      }
    }
  }

  function NegPoly(p: seq<elem>): (r: seq<elem>)
    ensures |r| == |p|
  {
    ScalePoly(Neg(1), p)
  }

  /** Two polynomials of at most n coefficients that agree at n distinct points are the same. */
  lemma {:induction false} AgreeEverywhere(p: seq<elem>, q: seq<elem>, xs: seq<elem>)
    requires |p| <= |xs| && |q| <= |xs| && Distinct(xs)
    requires forall i :: 0 <= i < |xs| ==> Eval(p, xs[i]) == Eval(q, xs[i])
    ensures SamePoly(p, q)
  {
    hide Mul, Add, Sub, Neg, Eval;
    var d := AddPoly(p, NegPoly(q));
    forall x: elem ensures Eval(d, x) == Sub(Eval(p, x), Eval(q, x)) {
      EvalAdd(p, NegPoly(q), x);
      EvalScale(Neg(1), q, x);
      NegOneMul(Eval(q, x));
      SubIsAddNeg(Eval(p, x), Eval(q, x));
    }
    forall i | 0 <= i < |xs| ensures Eval(d, xs[i]) == 0 {
      SubSelf(Eval(p, xs[i]));
    }
    RootCounting(d, xs);
    forall k ensures Pad(p, k) == Pad(q, k) {
      assert Pad(d, k) == Add(Pad(p, k), Mul(Neg(1), Pad(q, k)));
      NegOneMul(Pad(q, k));
      SubIsAddNeg(Pad(p, k), Pad(q, k));
      SubZeroEq(Pad(p, k), Pad(q, k));
    }
  }

  lemma {:induction false} NegOneMul(c: elem)
    ensures Mul(Neg(1), c) == Neg(c)
  {
    MulNeg(1, c);
    MulOne(c);
  }

  // ------------------------------------------------------------------ range checks

  /** `poly_range_check`: the product of X - i over the range vanishes exactly on the range. */
  method PolyRangeCheck(start: nat, end: nat) returns (p: seq<elem>)
    requires start <= end
    ensures p != []
    ensures forall x: elem :: Eval(p, x) == 0 <==> exists i :: start <= i < end && x == Mod(i)
  {
    hide Mul, Add, Sub, Neg, Mod, Eval, MulPoly;
    p := [1];
    forall x: elem ensures Eval([1], x) != 0 {
      EvalOne(x);
    }
    for i := start to end
      invariant p != []
      invariant forall x: elem :: Eval(p, x) == 0 <==> exists k :: start <= k < i && x == Mod(k)
    {
      var q := [Neg(Mod(i)), 1];
      var next := PolyMul(p, q);
      forall x: elem ensures Eval(next, x) == 0 <==> Eval(p, x) == 0 || x == Mod(i) {
        FactorStep(p, q, next, i, x);
      }
      p := next;
    }
  }

  lemma {:induction false} EvalOne(x: elem)
    ensures Eval([1], x) == 1
  {
    hide Mul, Add;
    assert [1][1..] == [];
    MulZero(x);
    AddZero(1);
  }

  lemma {:induction false} FactorStep(p: seq<elem>, q: seq<elem>, next: seq<elem>, i: nat, x: elem)
    requires p != [] && q == [Neg(Mod(i)), 1] && SamePoly(next, MulPoly(p, q))
    ensures Eval(next, x) == 0 <==> Eval(p, x) == 0 || x == Mod(i)
  {
    hide Mul, Add, Sub, Mod, Neg, MulPoly, SamePoly;
    EvalSame(next, MulPoly(p, q), x);
    EvalMul(p, q, x);
    assert q[1..] == [1];
    EvalOne(x);
    assert Eval(q, x) == Add(Neg(Mod(i)), Mul(x, Eval([1], x)));
    MulOne(x);
    AddComm(Neg(Mod(i)), x);
    SubIsAddNeg(x, Mod(i));
    SubZeroEq(x, Mod(i));
    MulZero(Eval(p, x));
    MulZero(Eval(q, x));
    if Eval(next, x) == 0 {
      MulCancel(Eval(p, x), Eval(q, x));
    }
  }
}
