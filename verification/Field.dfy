/** The prime field GF(p) in which the proof system works.

    The modulus and the table of principal roots of unity are arbitrary: `PARAMS` is any value
    satisfying the relations that src/fp.rs documents for its parameter tables, so every theorem
    below holds for each of the library's FFT-friendly fields. Elements are represented by their
    residues; `Montgomery` shows that the limb arithmetic of src/fp.rs computes on residues. */
module Field {

  predicate Divides(d: int, n: int)
    requires d != 0
  {
    n % d == 0
  }

  predicate IsOddPrime(n: int) {
    2 < n && forall d :: 2 <= d < n ==> !Divides(d, n)
  }

  /** `roots[l]` has order 2^l: roots[0] is one, roots[1] is minus one and squaring steps down. */
  datatype FieldParameters = FieldParameters(p: int, roots: seq<int>) {
    predicate Valid() {
      && IsOddPrime(p)
      && 2 <= |roots|
      && (forall l :: 0 <= l < |roots| ==> 0 <= roots[l] < p)
      && roots[0] == 1
      && roots[1] == p - 1
      && (forall l :: 1 <= l < |roots| ==> (roots[l] * roots[l]) % p == roots[l - 1])
    }
  }

  type ValidParameters = f: FieldParameters | f.Valid() witness FieldParameters(3, [1, 2])

  const PARAMS: ValidParameters
  const P: int := PARAMS.p
  const MAX_ROOTS: nat := |PARAMS.roots| - 1

  type elem = x: int | 0 <= x < PARAMS.p witness 0

  function Mod(x: int): elem { x % P }

  function Add(a: elem, b: elem): elem { Mod(a + b) }

  function Sub(a: elem, b: elem): elem { Mod(a - b) }

  function Neg(a: elem): elem { Sub(0, a) }

  function Mul(a: elem, b: elem): elem { Mod(a * b) }

  function Pow(a: elem, n: nat): elem {
    if n == 0 then 1 else Mul(a, Pow(a, n - 1))
  }

  /** `F::root(l)`, defined for l <= MAX_ROOTS. */
  function Root(l: nat): elem
    requires l <= MAX_ROOTS
  {
    PARAMS.roots[l]
  }

  // ------------------------------------------------------------------ residues

  lemma {:induction false} ModUnique(x: int, k: int, r: int)
    requires 0 <= r < P && x == k * P + r
    ensures Mod(x) == r
  {
    var q, t := x / P, x % P;
    assert x == q * P + t;
    EuclidUnique(P, q, t, k, r);
  }

  lemma {:induction false} EuclidUnique(p: int, q: int, t: int, k: int, r: int)
    requires 0 <= t < p && 0 <= r < p && q * p + t == k * p + r
    ensures q == k && t == r
  {
    var d := q - k;
    assert d * p == r - t;
    if d > 0 {
      MulAtLeast(d, p);
    } else if d < 0 {
      assert (-d) * p == -(d * p);
      MulAtLeast(-d, p);
    }
  }

  lemma {:induction false} MulAtLeast(d: int, p: int)
    requires 1 <= d && 0 <= p
    ensures p <= d * p
  {
    assert d * p == (d - 1) * p + p;
  }

  lemma {:induction false} ModShift(x: int, k: int)
    ensures Mod(x + k * P) == Mod(x)
  {
    var q := x / P;
    assert x == q * P + x % P;
    assert x + k * P == (q + k) * P + x % P;
    ModUnique(x + k * P, q + k, x % P);
  }

  lemma {:induction false} ModId(a: elem)
    ensures Mod(a) == a
  {
    ModUnique(a, 0, a);
  }

  lemma {:induction false} ModAdd(x: int, y: int)
    ensures Add(Mod(x), Mod(y)) == Mod(x + y)
  {
    var q, t := x / P, y / P;
    assert x == q * P + Mod(x) && y == t * P + Mod(y);
    assert x + y == (Mod(x) + Mod(y)) + (q + t) * P;
    ModShift(Mod(x) + Mod(y), q + t);
  }

  lemma {:induction false} ModSub(x: int, y: int)
    ensures Sub(Mod(x), Mod(y)) == Mod(x - y)
  {
    var q, t := x / P, y / P;
    assert x == q * P + Mod(x) && y == t * P + Mod(y);
    assert x - y == (Mod(x) - Mod(y)) + (q - t) * P;
    ModShift(Mod(x) - Mod(y), q - t);
  }

  lemma {:induction false} ProductAlgebra(p: int, x: int, y: int, q: int, t: int, a: int, b: int)
    requires x == q * p + a && y == t * p + b
    ensures x * y == a * b + (q * t * p + q * b + a * t) * p
  {
    calc {
      x * y;
      (q * p + a) * (t * p + b);
      a * b + (q * t * p + q * b + a * t) * p;
    }
  }

  lemma {:induction false} ModMul(x: int, y: int)
    ensures Mul(Mod(x), Mod(y)) == Mod(x * y)
  {
    var q, t, a, b := x / P, y / P, Mod(x), Mod(y);
    ProductAlgebra(P, x, y, q, t, a, b);
    ModShift(a * b, q * t * P + q * b + a * t);
  }

  // ------------------------------------------------------------------ ring laws

  lemma {:induction false} AddComm(a: elem, b: elem)
    ensures Add(a, b) == Add(b, a)
  {
  }

  lemma {:induction false} MulComm(a: elem, b: elem)
    ensures Mul(a, b) == Mul(b, a)
  {
  }

  lemma {:induction false} AddAssoc(a: elem, b: elem, c: elem)
    ensures Add(Add(a, b), c) == Add(a, Add(b, c))
  {
    hide Mod;
    ModId(a);
    ModId(c);
    ModAdd(a + b, c);
    ModAdd(a, b + c);
  }

  lemma {:induction false} IntMulAssoc(a: int, b: int, c: int)
    ensures a * b * c == a * (b * c)
  {
  }

  lemma {:induction false} IntDistrib(a: int, b: int, c: int)
    ensures a * (b + c) == a * b + a * c && a * (b - c) == a * b - a * c
  {
  }

  lemma {:induction false} MulAssoc(a: elem, b: elem, c: elem)
    ensures Mul(Mul(a, b), c) == Mul(a, Mul(b, c))
  {
    hide Mod;
    ModId(a);
    ModId(c);
    ModMul(a * b, c);
    ModMul(a, b * c);
    IntMulAssoc(a, b, c);
  }

  lemma {:induction false} Distrib(a: elem, b: elem, c: elem)
    ensures Mul(a, Add(b, c)) == Add(Mul(a, b), Mul(a, c))
  {
    hide Mod;
    ModId(a);
    ModMul(a, b + c);
    ModAdd(a * b, a * c);
    IntDistrib(a, b, c);
  }

  lemma {:induction false} DistribSub(a: elem, b: elem, c: elem)
    ensures Mul(a, Sub(b, c)) == Sub(Mul(a, b), Mul(a, c))
  {
    hide Mod;
    ModId(a);
    ModMul(a, b - c);
    ModSub(a * b, a * c);
    IntDistrib(a, b, c);
  }

  lemma {:induction false} AddZero(a: elem)
    ensures Add(a, 0) == a && Add(0, a) == a && Sub(a, 0) == a
  {
    hide Mod;
    ModId(a);
  }

  lemma {:induction false} MulOne(a: elem)
    ensures Mul(1, a) == a && Mul(a, 1) == a
  {
    hide Mod;
    ModId(a);
  }

  lemma {:induction false} MulZero(a: elem)
    ensures Mul(0, a) == 0 && Mul(a, 0) == 0
  {
    hide Mod;
    ModId(0);
  }

  lemma {:induction false} SubSelf(a: elem)
    ensures Sub(a, a) == 0
  {
    hide Mod;
    ModId(0);
  }

  lemma {:induction false} SubAdd(a: elem, b: elem)
    ensures Add(Sub(a, b), b) == a && Sub(Add(a, b), b) == a
  {
    hide Mod;
    ModId(a);
    ModId(b);
    ModAdd(a - b, b);
    ModSub(a + b, b);
  }

  lemma {:induction false} SubZeroEq(a: elem, b: elem)
    ensures Sub(a, b) == 0 <==> a == b
  {
    hide Mod;
    SubSelf(a);
    SubAdd(a, b);
    AddZero(b);
  }

  lemma {:induction false} SubIsAddNeg(a: elem, b: elem)
    ensures Sub(a, b) == Add(a, Neg(b))
  {
    hide Mod;
    ModId(a);
    ModAdd(a, 0 - b);
  }

  /** (a + b) + (c + d) == (a + c) + (b + d). */
  lemma {:induction false} AddExchange(a: elem, b: elem, c: elem, d: elem)
    ensures Add(Add(a, b), Add(c, d)) == Add(Add(a, c), Add(b, d))
  {
    hide Mod;
    ModAdd(a + b, c + d);
    ModAdd(a + c, b + d);
  }

  lemma {:induction false} MulNeg(a: elem, b: elem)
    ensures Mul(Neg(a), b) == Neg(Mul(a, b)) && Mul(a, Neg(b)) == Neg(Mul(a, b))
  {
    hide Mod;
    ModId(0);
    ModId(a);
    ModId(b);
    ModMul(0 - a, b);
    ModMul(a, 0 - b);
    ModSub(0, a * b);
    assert (0 - a) * b == 0 - a * b && a * (0 - b) == 0 - a * b;
  }

  // ------------------------------------------------------------------ the field

  lemma {:induction false} InverseExists(a: elem) returns (b: elem)
    requires a != 0
    ensures Mul(a, b) == 1
    decreases a
  {
    hide Mod, Mul;
    if a == 1 {
      MulOne(1);
      b := 1;
    } else {
      var q, r := P / a, P % a;
      assert !Divides(a, P);
      assert P == q * a + r && 0 < r < a;
      var s := InverseExists(r);
      b := Mod(-q * s);
      InverseStep(a, q, r, s);
    }
  }

  /** a * (-q * s) == (r - P) * s == r * s - s * P. */
  lemma {:induction false} InverseStep(a: elem, q: int, r: elem, s: elem)
    requires P == q * a + r && Mul(r, s) == 1
    ensures Mul(a, Mod(-q * s)) == 1
  {
    hide Mod;
    var ai: int, ri: int, si: int := a, r, s;
    ModId(a);
    ModMul(ai, -q * si);
    InverseAlgebra(P, ai, q, ri, si);
    ModShift(ri * si, -si);
  }

  lemma {:induction false} InverseAlgebra(p: int, a: int, q: int, r: int, s: int)
    requires p == q * a + r
    ensures a * (-q * s) == r * s + (-s) * p
  {
    calc {
      a * (-q * s);
      -(q * a) * s;
      (r - p) * s;
      r * s + (-s) * p;
    }
  }

  /** No zero divisors. */
  lemma {:induction false} MulCancel(a: elem, b: elem)
    requires Mul(a, b) == 0
    ensures a == 0 || b == 0
  {
    if a != 0 {
      var i := InverseExists(a);
      MulComm(a, i);
      MulAssoc(i, a, b);
      MulOne(b);
      MulZero(i);
    }
  }

  // ------------------------------------------------------------------ powers

  lemma {:induction false} PowAdd(a: elem, m: nat, n: nat)
    ensures Pow(a, m + n) == Mul(Pow(a, m), Pow(a, n))
  {
    if m == 0 {
      MulOne(Pow(a, n));
    } else {
      PowAdd(a, m - 1, n);
      MulAssoc(a, Pow(a, m - 1), Pow(a, n));
    }
  }

  lemma {:induction false} PowOne(n: nat)
    ensures Pow(1, n) == 1
  {
    if n > 0 {
      PowOne(n - 1);
      MulOne(1);
    }
  }

  lemma {:induction false} PowMul(a: elem, b: elem, n: nat)
    ensures Pow(Mul(a, b), n) == Mul(Pow(a, n), Pow(b, n))
  {
    if n == 0 {
      MulOne(1);
    } else {
      var x, y := Pow(a, n - 1), Pow(b, n - 1);
      calc {
        Pow(Mul(a, b), n);
        { PowMul(a, b, n - 1); }
        Mul(Mul(a, b), Mul(x, y));
        { MulExchange(a, b, x, y); }
        Mul(Mul(a, x), Mul(b, y));
      }
    }
  }

  lemma {:induction false} MulExchange(a: elem, b: elem, c: elem, d: elem)
    ensures Mul(Mul(a, b), Mul(c, d)) == Mul(Mul(a, c), Mul(b, d))
  {
    MulAssoc(a, b, Mul(c, d));
    MulAssoc(b, c, d);
    MulComm(b, c);
    MulAssoc(c, b, d);
    MulAssoc(a, c, Mul(b, d));
  }

  lemma {:induction false} PowPow(a: elem, m: nat, n: nat)
    ensures 0 <= m * n && Pow(Pow(a, m), n) == Pow(a, m * n)
  {
    if n > 0 {
      PowPow(a, m, n - 1);
      assert m * n == m + m * (n - 1);
      PowAdd(a, m, m * (n - 1));
    }
  }

  // ------------------------------------------------------------------ inversion by exponentiation

  /** `inv`: the modular inverse, computed as x^(p-2); it maps zero to zero. */
  function Inv(a: elem): (b: elem)
    ensures a != 0 ==> Mul(a, b) == 1
  {
    assert a != 0 ==> Mul(a, Pow(a, P - 2)) == 1 by {
      if a != 0 {
        Fermat(a);
      }
    }
    Pow(a, P - 2)
  }

  ghost function Product(s: seq<elem>): elem {
    if s == [] then 1 else Mul(s[0], Product(s[1..]))
  }

  ghost predicate Injective(s: seq<int>) {
    forall i, j :: 0 <= i < j < |s| ==> s[i] != s[j]
  }

  ghost function Without(s: seq<int>, k: nat): seq<int>
    requires k < |s|
  {
    s[..k] + s[k + 1..]
  }

  /** An injective sequence over 1 .. m has at most m elements. */
  lemma {:induction false} Pigeonhole(s: seq<int>, m: nat)
    requires Injective(s) && forall i :: 0 <= i < |s| ==> 1 <= s[i] <= m
    ensures |s| <= m
  {
    if s != [] {
      assert 1 <= s[0] <= m;
      if k: nat :| k < |s| && s[k] == m {
        Pigeonhole(Without(s, k), m - 1);
      } else {
        Pigeonhole(s, m - 1);
      }
    }
  }

  ghost function UpTo(n: nat): seq<int> {
    if n == 0 then [] else UpTo(n - 1) + [n]
  }

  /** An injective sequence of length n over 1 .. n. */
  ghost predicate Permutes(s: seq<int>, n: nat) {
    |s| == n && Injective(s) && forall i :: 0 <= i < n ==> 1 <= s[i] <= n
  }

  /** Such a sequence is a rearrangement of 1 .. n. */
  lemma {:induction false} InjectiveRearranges(s: seq<int>, n: nat)
    requires Permutes(s, n)
    ensures multiset(s) == multiset(UpTo(n))
  {
    if n > 0 {
      var k := Largest(s, n);
      WithoutLargest(s, n, k);
      hide Permutes, Without, UpTo, Injective;
      InjectiveRearranges(Without(s, k), n - 1);
      MultisetWithout(s, k);
      UpToStep(n);
    }
  }

  lemma {:induction false} Largest(s: seq<int>, n: nat) returns (k: nat)
    requires n > 0 && Permutes(s, n)
    ensures k < |s| && s[k] == n
  {
    if i: nat :| i < n && s[i] == n {
      k := i;
    } else {
      Pigeonhole(s, n - 1);
      assert false;
    }
  }

  lemma {:induction false} WithoutLargest(s: seq<int>, n: nat, k: nat)
    requires n > 0 && Permutes(s, n) && k < n && s[k] == n
    ensures Permutes(Without(s, k), n - 1)
  {
  }

  lemma {:induction false} UpToStep(n: nat)
    requires n > 0
    ensures multiset(UpTo(n)) == multiset(UpTo(n - 1)) + multiset{n}
  {
  }

  lemma {:induction false} MultisetWithout(s: seq<int>, k: nat)
    requires k < |s|
    ensures multiset(s) == multiset(Without(s, k)) + multiset{s[k]}
  {
    assert s == s[..k] + [s[k]] + s[k + 1..];
  }

  lemma {:induction false} ProductPick(s: seq<elem>, k: nat)
    requires k < |s|
    ensures Product(s) == Mul(s[k], Product(s[..k] + s[k + 1..]))
  {
    hide Mul;
    var r := s[..k] + s[k + 1..];
    if k == 0 {
      assert r == s[1..];
    } else {
      var s' := s[1..];
      ProductPick(s', k - 1);
      var r' := s'[..k - 1] + s'[k..];
      assert r[1..] == r';
      MulAssoc(s[0], s[k], Product(r'));
      MulComm(s[0], s[k]);
      MulAssoc(s[k], s[0], Product(r'));
    }
  }

  lemma {:induction false} ProductRearranged(s: seq<elem>, t: seq<elem>)
    requires multiset(s) == multiset(t)
    ensures Product(s) == Product(t)
  {
    hide Mul;
    if s == [] {
      assert |multiset(t)| == 0;
      assert t == [];
    } else {
      var k := RemoveHead(s, t);
      ProductPick(t, k);
      ProductRearranged(s[1..], t[..k] + t[k + 1..]);
    }
  }

  lemma {:induction false} RemoveHead(s: seq<int>, t: seq<int>) returns (k: nat)
    requires s != [] && multiset(s) == multiset(t)
    ensures k < |t| && t[k] == s[0] && multiset(s[1..]) == multiset(t[..k] + t[k + 1..])
  {
    assert s[0] in multiset(t);
    k :| k < |t| && t[k] == s[0];
    MultisetWithout(t, k);
    MultisetWithout(s, 0);
    assert Without(s, 0) == s[1..];
    var a, b, c := multiset(s[1..]), multiset(Without(t, k)), multiset{s[0]};
    assert a == (a + c) - c && b == (b + c) - c;
  }

  ghost function Scaled(a: elem, n: nat): (s: seq<elem>)
    requires n < P
    ensures |s| == n && forall i :: 0 <= i < n ==> s[i] == Mul(a, i + 1)
  {
    seq(n, i requires 0 <= i < n => Mul(a, i + 1))
  }

  ghost function Counting(n: nat): (s: seq<elem>)
    requires n < P
    ensures s == UpTo(n) && |s| == n && forall i :: 0 <= i < n ==> s[i] == i + 1
  {
    if n == 0 then [] else Counting(n - 1) + [n]
  }

  lemma {:induction false} ProductAppend(s: seq<elem>, c: elem)
    ensures Product(s + [c]) == Mul(c, Product(s))
  {
    ProductPick(s + [c], |s|);
    assert (s + [c])[..|s|] + (s + [c])[|s| + 1..] == s;
  }

  lemma {:induction false} ProductScaled(a: elem, n: nat)
    requires n < P
    ensures Product(Scaled(a, n)) == Mul(Pow(a, n), Product(Counting(n)))
  {
    hide Mul;
    if n == 0 {
      MulOne(1);
    } else {
      assert Scaled(a, n) == Scaled(a, n - 1) + [Mul(a, n)];
      ProductAppend(Scaled(a, n - 1), Mul(a, n));
      ProductAppend(Counting(n - 1), n);
      ProductScaled(a, n - 1);
      MulExchange(a, n, Pow(a, n - 1), Product(Counting(n - 1)));
    }
  }

  lemma {:induction false} ProductCountingUnit(n: nat)
    requires n < P
    ensures Product(Counting(n)) != 0
  {
    hide Mul;
    if n > 0 {
      ProductAppend(Counting(n - 1), n);
      ProductCountingUnit(n - 1);
      if Product(Counting(n)) == 0 {
        MulCancel(n, Product(Counting(n - 1)));
      }
    }
  }

  /** Fermat's little theorem: multiplication by a permutes the nonzero residues. */
  lemma {:induction false} Fermat(a: elem)
    requires a != 0
    ensures Mul(a, Pow(a, P - 2)) == 1
  {
    hide Mul;
    var n := P - 1;
    var s := Scaled(a, n);
    forall i | 0 <= i < n ensures 1 <= s[i] <= n {
      if s[i] == 0 {
        MulCancel(a, i + 1);
      }
    }
    forall i, j | 0 <= i < j < n ensures s[i] != s[j] {
      if s[i] == s[j] {
        LeftCancel(a, i + 1, j + 1);
      }
    }
    InjectiveRearranges(s, n);
    ProductRearranged(s, Counting(n));
    ProductScaled(a, n);
    ProductCountingUnit(n);
    var c := Product(Counting(n));
    MulOne(c);
    MulComm(Pow(a, n), c);
    LeftCancel(c, Pow(a, n), 1);
  }

  lemma {:induction false} LeftCancel(a: elem, b: elem, c: elem)
    requires a != 0 && Mul(a, b) == Mul(a, c)
    ensures b == c
  {
    hide Mul, Sub;
    DistribSub(a, b, c);
    SubSelf(Mul(a, b));
    MulCancel(a, Sub(b, c));
    SubZeroEq(b, c);
  }

  lemma {:induction false} InvUnique(a: elem, b: elem)
    requires Mul(a, b) == 1
    ensures Inv(a) == b
  {
    MulZero(b);
    calc {
      Inv(a);
      { MulOne(Inv(a)); }
      Mul(Inv(a), Mul(a, b));
      { MulAssoc(Inv(a), a, b); MulComm(Inv(a), a); }
      Mul(1, b);
      { MulOne(b); }
      b;
    }
  }
}
