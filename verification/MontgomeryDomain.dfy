/** Machine words and the Montgomery domain, shared by the one- and two-limb fields. */
module MontgomeryDomain {
  import opened Congruence
  import opened Powers

  /** 2^64 and 2^128. */
  const B: int := 0x1_0000_0000_0000_0000
  const R2: int := 0x1_0000_0000_0000_0000_0000_0000_0000_0000

  type u64 = x: int | 0 <= x < B witness 0
  type u128 = x: int | 0 <= x < R2 witness 0

  /** `hi64`. */
  function Hi(x: u128): (h: u64)
    ensures B * h <= x < B * h + B
  {
    x / B
  }

  /** `lo64`. */
  function Lo(x: u128): (l: u64)
    ensures x == l + B * Hi(x)
  {
    x % B
  }

  /** The product of two words leaves room for two more words. */
  lemma {:induction false} WordProduct(x: int, y: int)
    requires 0 <= x < B && 0 <= y < B
    ensures 0 <= x * y <= R2 - 2 * B + 1
  {
    ProductBelow(x, y, B);
  }

  lemma {:induction false} ProductBelow(x: int, y: int, b: int)
    requires 0 <= x < b && 0 <= y < b
    ensures 0 <= x * y <= b * b - 2 * b + 1
  {
    MulMonotone(x, b - 1, y);
    MulMonotone(y, b - 1, b - 1);
    MulMonotone(0, x, y);
    assert (b - 1) * y == y * (b - 1);
    assert (b - 1) * (b - 1) == b * b - 2 * b + 1;
  }

  lemma {:induction false} MulMonotone(a: int, b: int, c: int)
    requires a <= b && 0 <= c
    ensures a * c <= b * c
  {
    assert (b - a) * c >= 0;
  }

  /** A borrow mask of all ones or all zeros selects one of two 128-bit values. */
  lemma {:induction false} MaskSelects(a: bv128, b: bv128, borrow: bool)
    ensures var m: bv128 := if borrow then 0xFFFF_FFFF_FFFF_FFFF_FFFF_FFFF_FFFF_FFFF else 0;
            (a & m) | (b & !m) == (if borrow then a else b) && m & b == if borrow then b else 0
  {
    if borrow {
      assert (a & 0xFFFF_FFFF_FFFF_FFFF_FFFF_FFFF_FFFF_FFFF) | (b & 0) == a;
    } else {
      assert (a & 0) | (b & 0xFFFF_FFFF_FFFF_FFFF_FFFF_FFFF_FFFF_FFFF) == b;
    }
  }

  /** The same for words of one limb. */
  lemma {:induction false} MaskSelects64(a: bv64, b: bv64, borrow: bool)
    ensures var m: bv64 := if borrow then 0xFFFF_FFFF_FFFF_FFFF else 0;
            (a & m) | (b & !m) == (if borrow then a else b) && m & b == if borrow then b else 0
  {
    if borrow {
      assert (a & 0xFFFF_FFFF_FFFF_FFFF) | (b & 0) == a;
    } else {
      assert (a & 0) | (b & 0xFFFF_FFFF_FFFF_FFFF) == b;
    }
  }

  /** The selection that such a mask makes. */
  function Select(borrow: bool, a: int, b: int): int { if borrow then a else b }

  // ------------------------------------------------------------------ the domain

  /** Since mu * p is minus one modulo 2^64, (mu * p + 1) / 2^64 inverts 2^64 modulo p. */
  lemma {:induction false} WordInverse(p: int, mu: int)
    requires p > 1 && 0 <= mu && (mu * p + 1) % B == 0
    ensures Cong(p, B * ((mu * p + 1) / B), 1)
  {
    var j := (mu * p + 1) / B;
    assert B * j == 1 + mu * p;
    CongFrom(p, B * j, 1, mu);
  }

  lemma {:induction false} InverseSquared(p: int, r: int, j: int)
    requires p > 1 && Cong(p, r * j, 1)
    ensures Cong(p, r * r * (j * j), 1)
  {
    hide Cong, Res;
    CongMul(p, r * j, 1, r * j, 1);
    assert r * j * (r * j) == r * r * (j * j);
  }

  /** Multiplication by an invertible radix can be cancelled. */
  lemma {:induction false} CancelRadix(p: int, r: int, j: int, a: int, b: int)
    requires p > 1 && Cong(p, r * j, 1) && Cong(p, a * r, b * r)
    ensures Cong(p, a, b)
  {
    hide Cong, Res;
    CongRefl(p, j);
    CongMul(p, a * r, b * r, j, j);
    TimesUnit(p, r, j, a);
    TimesUnit(p, r, j, b);
    CongSym(p, a * r * j, a);
    CongTrans(p, a, a * r * j, b * r * j);
    CongTrans(p, a, b * r * j, b);
  }

  lemma {:induction false} TimesUnit(p: int, r: int, j: int, a: int)
    requires p > 1 && Cong(p, r * j, 1)
    ensures Cong(p, a * r * j, a)
  {
    hide Cong, Res;
    CongRefl(p, a);
    CongMul(p, a, a, r * j, 1);
    assert a * (r * j) == a * r * j;
  }

  /** t stores X: it is congruent to X times the radix. */
  predicate Stores(p: int, r: int, t: int, X: int)
    requires p > 0
  {
    Cong(p, t, X * r)
  }

  /** A reduced product of stored values stores the product. */
  lemma {:induction false} StoresProduct(p: int, r: int, j: int, t: int, u: int, v: int, X: int, Y: int)
    requires p > 1 && Cong(p, r * j, 1) && Stores(p, r, t, X) && Stores(p, r, u, Y) && Cong(p, v * r, t * u)
    ensures Stores(p, r, v, X * Y)
  {
    hide Cong, Res;
    CongMul(p, t, X * r, u, Y * r);
    assert X * r * (Y * r) == X * Y * r * r by { ProductShuffle(X, Y, r); }
    CongTrans(p, v * r, t * u, X * Y * r * r);
    CancelRadix(p, r, j, v, X * Y * r);
  }

  lemma {:induction false} ProductShuffle(x: int, y: int, r: int)
    ensures x * r * (y * r) == x * y * r * r
  {
    calc {
      x * r * (y * r);
      x * (r * (y * r));
      x * (y * r * r);
      x * y * r * r;
    }
  }

  /** Reducing x times radix^2 stores x. */
  lemma {:induction false} StoresEntry(p: int, r: int, j: int, x: int, sq: int, v: int)
    requires p > 1 && Cong(p, r * j, 1) && Cong(p, sq, r * r) && Cong(p, v * r, x * sq)
    ensures Stores(p, r, v, x)
  {
    hide Cong, Res;
    CongRefl(p, x);
    CongMul(p, x, x, sq, r * r);
    CongTrans(p, v * r, x * sq, x * (r * r));
    assert x * (r * r) == x * r * r;
    CancelRadix(p, r, j, v, x * r);
  }

  /** Reducing a stored value by the radix recovers it. */
  lemma {:induction false} StoresExit(p: int, r: int, j: int, t: int, X: int, v: int)
    requires p > 1 && Cong(p, r * j, 1) && Stores(p, r, t, X) && Cong(p, v * r, t) && 0 <= v < p
    ensures v == Res(p, X)
  {
    hide Cong, Res;
    CongTrans(p, v * r, t, X * r);
    CancelRadix(p, r, j, v, X);
    CongEqual(p, v, X);
    ResSmall(p, v);
  }

  function IntPow(x: int, n: nat): int { if n == 0 then 1 else x * IntPow(x, n - 1) }

  lemma {:induction false} IntPowAdd(x: int, m: nat, n: nat)
    ensures IntPow(x, m + n) == IntPow(x, m) * IntPow(x, n)
  {
    if m == 0 {
    } else {
      IntPowAdd(x, m - 1, n);
      assert x * (IntPow(x, m - 1) * IntPow(x, n)) == IntPow(x, m) * IntPow(x, n);
    }
  }

  /** The number of significant bits: the word size minus `leading_zeros`. */
  function BitLength(x: nat): nat { if x == 0 then 0 else 1 + BitLength(x / 2) }

  lemma {:induction false} BitLengthBound(x: nat)
    ensures x < Exp2(BitLength(x))
  {
    if x > 0 {
      BitLengthBound(x / 2);
    }
  }

  /** `x >> i`. */
  function ShiftRight(x: nat, i: nat): nat {
    Exp2Positive(i);
    QuotientNatural(x, Exp2(i));
    x / Exp2(i)
  }

  lemma {:induction false} QuotientNatural(x: int, d: int)
    requires 0 <= x && 0 < d
    ensures 0 <= x / d
  {
    var q := x / d;
    assert x == q * d + x % d;
    Multiples(d, q);
  }

  /** Shifting by one bit less brings in one more bit. */
  lemma {:induction false} ShiftStep(x: nat, i: nat)
    ensures ShiftRight(x, i) == 2 * ShiftRight(x, i + 1) + ShiftRight(x, i) % 2
  {
    Exp2Positive(i);
    HalvedQuotient(x, Exp2(i));
  }

  lemma {:induction false} ShiftEnds(x: nat)
    ensures ShiftRight(x, 0) == x && ShiftRight(x, BitLength(x)) == 0
  {
    BitLengthBound(x);
    DivUnique(x, Exp2(BitLength(x)), 0, x);
    assert Exp2(0) == 1;
  }

  /** The exponent laws that square-and-multiply uses. */
  lemma {:induction false} PowStep(X: int, e: nat)
    ensures IntPow(X, 0) == 1 && IntPow(X, e) * IntPow(X, e) == IntPow(X, 2 * e)
    ensures IntPow(X, 2 * e) * X == IntPow(X, 2 * e + 1)
  {
    IntPowAdd(X, e, e);
    IntPowAdd(X, 2 * e, 1);
    assert IntPow(X, 1) == X;
  }

  lemma {:induction false} HalvedQuotient(e: int, d: int)
    requires 0 <= e && 0 < d
    ensures e / (2 * d) == e / d / 2
  {
    var q, r := e / d, e % d;
    assert e == q * d + r && 0 <= r < d;
    var h, b := q / 2, q % 2;
    assert q == 2 * h + b && 0 <= b <= 1;
    RegroupQuotient(e, d, q, r, h, b);
    DivUnique(e, 2 * d, h, b * d + r);
  }

  lemma {:induction false} RegroupQuotient(e: int, d: int, q: int, r: int, h: int, b: int)
    requires e == q * d + r && q == 2 * h + b && 0 <= b <= 1 && 0 <= r < d
    ensures e == h * (2 * d) + (b * d + r) && 0 <= b * d + r < 2 * d
  {
    assert (2 * h + b) * d == h * (2 * d) + b * d;
    if b == 0 { assert b * d == 0; } else { assert b * d == d; }
  }

  lemma {:induction false} DivUnique(e: int, d: int, q: int, r: int)
    requires 0 <= r < d && e == q * d + r
    ensures e / d == q
  {
    var k := e / d;
    assert (k - q) * d == r - e % d;
    Multiples(d, k - q);
  }

  // ------------------------------------------------------------------ reduction

  /** A value below 2p is reduced by at most one subtraction. */
  lemma {:induction false} ReduceOnce(p: int, v: int)
    requires 1 < p && 0 <= v < 2 * p
    ensures Res(p, v) == if v < p then v else v - p
  {
    if v < p {
      ResUnique(p, v, 0, v);
    } else {
      ResUnique(p, v, 1, v - p);
    }
  }

  /** With w = mu * z mod 2^64, adding w times the low limb of p clears the low limb z. */
  lemma {:induction false} ClearsLimb(p: int, mu: int, z: int, p0: int, p1: int, w: int) returns (k: int)
    requires (mu * p + 1) % B == 0 && p == p0 + B * p1 && w == mu * z % B
    ensures z + p0 * w == B * k
  {
    var j, q := (mu * p + 1) / B, mu * z / B;
    assert mu * p + 1 == B * j && mu * z == B * q + w;
    k := ClearsLimbFor(B, p, mu, z, p0, p1, w, j, q);
  }

  lemma {:induction false} ClearsLimbFor(b: int, p: int, mu: int, z: int, p0: int, p1: int, w: int, j: int, q: int) returns (k: int)
    requires mu * p + 1 == b * j && p == p0 + b * p1 && mu * z == b * q + w
    ensures z + p0 * w == b * k
  {
    k := z * j - p * q - p1 * w;
    Distribute3(b, z * j, p * q, p1 * w);
    PullOut(b, z, j);
    PullOut(b, p, q);
    PullOut(b, p1, w);
    assert p1 * (b * w) == b * p1 * w;
    ClearsAlgebra(p, mu, z, p0, w);
  }

  lemma {:induction false} PullOut(b: int, x: int, y: int)
    ensures b * (x * y) == x * (b * y)
  {
  }

  lemma {:induction false} ClearsAlgebra(p: int, mu: int, z: int, p0: int, w: int)
    ensures z * (mu * p + 1) - p * (mu * z - w) - (p - p0) * w == z + p0 * w
  {
    SwapFactors(z, mu, p);
  }

  lemma {:induction false} Distribute3(b: int, x: int, y: int, z: int)
    ensures b * (x - y - z) == b * x - b * y - b * z
  {
  }

  lemma {:induction false} SwapFactors(x: int, y: int, z: int)
    ensures x * (y * z) == z * (y * x)
  {
    assert x * (y * z) == x * y * z;
    assert z * (y * x) == z * (x * y);
  }

  lemma {:induction false} MulCongruentFor(p: int, radix: int, b: int, xy: int, w: int, v: int, t: int, r: int)
    requires 1 < p && t * radix == xy + p * w + b * (p * v)
    requires r == if t < p then t else t - p
    ensures Cong(p, r * radix, xy)
  {
    hide Cong, Res;
    var k := w + b * v - if t < p then 0 else radix;
    assert k * p == p * w + b * (p * v) - (if t < p then 0 else p * radix) by { assert b * v * p == b * (p * v); }
    assert r * radix == t * radix - if t < p then 0 else p * radix;
    CongFrom(p, r * radix, xy, k);
  }
}
