/** Residues and congruences for an explicit modulus. Proofs about several residues hide the
    definitions of `Res` and `Cong` and use the lemmas. */
module Congruence {

  /** The residue of x modulo p. */
  function Res(p: int, x: int): (r: int)
    requires p > 0
    ensures 0 <= r < p
  {
    x % p
  }

  /** x and y have the same residue. */
  predicate Cong(p: int, x: int, y: int)
    requires p > 0
  {
    Res(p, x) == Res(p, y)
  }

  /** A non-zero multiple of p is at least p away from zero. */
  lemma {:induction false} Multiples(p: int, k: int)
    requires p > 0
    ensures k >= 1 ==> k * p >= p
    ensures k <= -1 ==> k * p <= -p
    ensures k * p == 0 ==> k == 0
  {
    if k >= 1 {
      assert k * p == (k - 1) * p + p;
      assert (k - 1) * p >= 0;
    } else if k <= -1 {
      assert k * p == (k + 1) * p - p;
      assert (k + 1) * p <= 0;
    }
  }

  /** Division with remainder is unique. */
  lemma {:induction false} ResUnique(p: int, x: int, k: int, r: int)
    requires 0 <= r < p && x == k * p + r
    ensures Res(p, x) == r
  {
    var q, t := x / p, x % p;
    assert x == q * p + t && 0 <= t < p;
    assert (q - k) * p == r - t;
    Multiples(p, q - k);
  }

  lemma {:induction false} CongFrom(p: int, x: int, y: int, k: int)
    requires p > 0 && x == y + k * p
    ensures Cong(p, x, y)
  {
    var q, r := y / p, y % p;
    assert y == q * p + r;
    assert (q + k) * p == q * p + k * p;
    ResUnique(p, x, q + k, r);
  }

  lemma {:induction false} CongTo(p: int, x: int, y: int) returns (k: int)
    requires p > 0 && Cong(p, x, y)
    ensures x == y + k * p
  {
    var q, t := x / p, y / p;
    assert x == q * p + x % p && y == t * p + y % p;
    k := q - t;
    assert k * p == q * p - t * p;
  }

  lemma {:induction false} CongAdd(p: int, x: int, y: int, u: int, v: int)
    requires p > 0 && Cong(p, x, y) && Cong(p, u, v)
    ensures Cong(p, x + u, y + v) && Cong(p, x - u, y - v)
  {
    hide Cong, Res;
    var k := CongTo(p, x, y);
    var l := CongTo(p, u, v);
    assert (k + l) * p == k * p + l * p && (k - l) * p == k * p - l * p;
    CongFrom(p, x + u, y + v, k + l);
    CongFrom(p, x - u, y - v, k - l);
  }

  lemma {:induction false} CongMul(p: int, x: int, y: int, u: int, v: int)
    requires p > 0 && Cong(p, x, y) && Cong(p, u, v)
    ensures Cong(p, x * u, y * v)
  {
    hide Cong, Res;
    var k := CongTo(p, x, y);
    var l := CongTo(p, u, v);
    calc {
      x * u;
      (y + k * p) * (v + l * p);
      y * v + (y * l + k * v + k * l * p) * p;
    }
    CongFrom(p, x * u, y * v, y * l + k * v + k * l * p);
  }

  lemma {:induction false} CongRefl(p: int, x: int)
    requires p > 0
    ensures Cong(p, x, x)
  {
  }

  lemma {:induction false} CongSym(p: int, x: int, y: int)
    requires p > 0 && Cong(p, x, y)
    ensures Cong(p, y, x)
  {
  }

  lemma {:induction false} CongTrans(p: int, x: int, y: int, z: int)
    requires p > 0 && Cong(p, x, y) && Cong(p, y, z)
    ensures Cong(p, x, z)
  {
  }

  lemma {:induction false} ResSmall(p: int, x: int)
    requires 0 <= x < p
    ensures Res(p, x) == x
  {
    ResUnique(p, x, 0, x);
  }

  lemma {:induction false} CongRes(p: int, x: int)
    requires p > 0
    ensures Cong(p, Res(p, x), x)
  {
    ResSmall(p, Res(p, x));
  }

  lemma {:induction false} CongEqual(p: int, x: int, y: int)
    requires p > 0 && Cong(p, x, y)
    ensures Res(p, x) == Res(p, y)
  {
  }

  /** Reducing an operand does not change the residue of a sum. */
  lemma {:induction false} ResAdd(p: int, x: int, y: int)
    requires p > 0
    ensures Res(p, Res(p, x) + y) == Res(p, x + y) && Res(p, x + Res(p, y)) == Res(p, x + y)
  {
    hide Cong, Res;
    CongRes(p, x);
    CongRes(p, y);
    CongRefl(p, x);
    CongRefl(p, y);
    CongAdd(p, Res(p, x), x, y, y);
    CongAdd(p, x, x, Res(p, y), y);
    CongEqual(p, Res(p, x) + y, x + y);
    CongEqual(p, x + Res(p, y), x + y);
  }

  /** Residues form an abelian group under addition. */
  lemma {:induction false} ResidueGroup(p: int, a: int, b: int, c: int)
    requires p > 1 && 0 <= a < p && 0 <= b < p && 0 <= c < p
    ensures Res(p, a + 0) == a && Res(p, a + Res(p, -a)) == 0
    ensures Res(p, Res(p, a + b) + c) == Res(p, a + Res(p, b + c))
  {
    hide Res;
    ResSmall(p, 0);
    ResAdd(p, a, -a);
    ResSmall(p, a);
    ResAdd(p, a + b, c);
    ResAdd(p, a, b + c);
    assert a + b + c == a + (b + c);
  }
}
