/** Two-limb Montgomery arithmetic (src/fp.rs), for every modulus up to 2^128 - 2^64. Every u128
    variable is checked to stay below 2^128, so no addition or product overflows. */
module Montgomery {
  import opened Congruence
  import opened MontgomeryDomain

  /** `FieldParameters`: `mu * p` is minus one modulo 2^64 and `r2` is 2^256 modulo p. */
  datatype Params = Params(p: int, mu: int, r2: int) {
    predicate Valid() {
      && 1 < p <= R2 - B
      && 0 <= mu < B && (mu * p + 1) % B == 0
      && r2 == R2 * R2 % p
    }
  }

  // ------------------------------------------------------------------ addition and subtraction

  /** `add`. */
  method Add(f: Params, x: u128, y: u128) returns (r: u128)
    requires f.Valid() && x < f.p && y < f.p
    ensures r < f.p && r == Res(f.p, x + y)
  {
    var carry := if x + y >= R2 then 1 else 0;
    var z: u128 := x + y - carry * R2;
    var b0 := if z < f.p then 1 else 0;
    var s0: u128 := z - f.p + b0 * R2;
    var b1 := carry < b0;
    r := Select(b1, z, s0);
    ReduceOnce(f.p, x + y);
  }

  /** `sub`. */
  method Sub(f: Params, x: u128, y: u128) returns (r: u128)
    requires f.Valid() && x < f.p && y < f.p
    ensures r < f.p && r == Res(f.p, x - y)
  {
    var b0 := x < y;
    var z0: u128 := if b0 then x - y + R2 else x - y;
    var s := z0 + Select(b0, f.p, 0);
    r := if s >= R2 then s - R2 else s;
    ReduceOnce(f.p, x - y + f.p);
    CongFrom(f.p, x - y + f.p, x - y, 1);
  }

  /** `modp`: one conditional correction, which leaves values below p alone. */
  function ModP(x: u128, p: int): (r: int)
    requires 1 < p <= R2 - B && x < 2 * p
    ensures 0 <= r < p && r == Res(p, x)
  {
    ReduceOnce(p, x);
    var borrow := x < p;
    var z: u128 := if borrow then x - p + R2 else x - p;
    var s := z + Select(borrow, p, 0);
    if s >= R2 then s - R2 else s
  }

  // ------------------------------------------------------------------ multiplication

  /** The integer held in four limbs. */
  function Value4(z0: int, z1: int, z2: int, z3: int): int { z0 + B * z1 + R2 * z2 + B * R2 * z3 }

  lemma {:induction false} LimbProduct(x0: int, x1: int, y0: int, y1: int)
    ensures (x0 + B * x1) * (y0 + B * y1) == x0 * y0 + B * (x0 * y1 + x1 * y0) + R2 * (x1 * y1)
  {
    LimbProductFor(B, x0, x1, y0, y1);
    assert B * B == R2;
  }

  lemma {:induction false} LimbProductFor(b: int, x0: int, x1: int, y0: int, y1: int)
    ensures (x0 + b * x1) * (y0 + b * y1) == x0 * y0 + b * (x0 * y1 + x1 * y0) + b * b * (x1 * y1)
  {
    calc {
      (x0 + b * x1) * (y0 + b * y1);
      x0 * y0 + x0 * (b * y1) + b * x1 * y0 + b * x1 * (b * y1);
      { assert x0 * (b * y1) == b * (x0 * y1) && b * x1 * y0 == b * (x1 * y0) && b * x1 * (b * y1) == b * b * (x1 * y1); }
      x0 * y0 + b * (x0 * y1 + x1 * y0) + b * b * (x1 * y1);
    }
  }

  /** The four limbs of the sum of the partial products a, (b + c) and d, shifted by 0, 1 and 2 limbs.
      Carries are absorbed: a partial product leaves room for two more words. */
  method Accumulate(a: u128, b: u128, c: u128, d: u128) returns (z0: u64, z1: u64, z2: u64, z3: u64)
    requires a <= R2 - 2 * B + 1 && b <= R2 - 2 * B + 1 && c <= R2 - 2 * B + 1 && d <= R2 - 2 * B + 1
    requires a + B * (b + c) + R2 * d < R2 * R2
    ensures Value4(z0, z1, z2, z3) == a + B * (b + c) + R2 * d
  {
    hide Lo, Hi;
    z0 := Lo(a);
    z2, z1 := AddCarry(b, Hi(a));
    var hi, lo := Hi(c), Lo(c);
    var result: u128 := z1 + lo;
    z1 := Lo(result);
    var cc := Hi(result);
    result := hi + cc;
    var carry := Lo(result);
    assert z0 + B * z1 + R2 * (z2 + carry) == a + B * (b + c);
    hi, lo := AddCarry(d, carry);
    result := z2 + lo;
    z2 := Lo(result);
    cc := Hi(result);
    result := hi + cc;
    z3 := Lo(result);
  }

  /** The integer multiplication: z = x * y. */
  method Product(x: u128, y: u128) returns (z0: u64, z1: u64, z2: u64, z3: u64)
    ensures Value4(z0, z1, z2, z3) == x * y
  {
    hide Value4, Lo, Hi;
    var x0: int, x1: int, y0: int, y1: int := Lo(x), Hi(x), Lo(y), Hi(y);
    WordProduct(x0, y0);
    WordProduct(x0, y1);
    WordProduct(x1, y0);
    WordProduct(x1, y1);
    LimbProduct(x0, x1, y0, y1);
    ProductBelow(x, y, R2);
    z0, z1, z2, z3 := Accumulate(x0 * y0, x0 * y1, x1 * y0, x1 * y1);
  }

  /** The limb carries of the first reduction, for the products m0 and m1 of w with the limbs of p.
      The carry out of the fourth limb is discarded: the bound on the total makes it zero. */
  method FirstCarries(z0: u64, z1: u64, z2: u64, z3: u64, m0: u128, m1: u128, ghost k: int) returns (y1: u64, y2: u64, y3: u64)
    requires m0 <= R2 - 2 * B + 1 && m1 <= R2 - 2 * B + 1
    requires z0 + m0 == B * k && Value4(z0, z1, z2, z3) + m0 + B * m1 < R2 * R2
    ensures Value4(0, y1, y2, y3) == Value4(z0, z1, z2, z3) + m0 + B * m1
  {
    hide Lo, Hi;
    var carry := LowCarry(z0, m0, k);
    var hi, lo := AddCarry(m1, carry);
    var result: u128 := z1 + lo;
    y1 := Lo(result);
    var cc := Hi(result);
    result := z2 + hi + cc;
    y2 := Lo(result);
    cc := Hi(result);
    result := z3 + cc;
    y3 := Lo(result);
  }

  /** The lowest limb becomes zero and carries into the next. */
  method LowCarry(z: u64, m: u128, ghost k: int) returns (carry: u64)
    requires m <= R2 - 2 * B + 1 && z + m == B * k
    ensures B * carry == z + m
  {
    hide Lo, Hi;
    var hi, lo := Hi(m), Lo(m);
    var result: u128 := z + lo;
    var cleared := Lo(result);
    var cc := Hi(result);
    result := hi + cc;
    carry := Lo(result);
    assert cleared + B * carry == z + m;
  }

  /** A product and a carry, in two limbs. */
  method AddCarry(m: u128, carry: u64) returns (hi: u64, lo: u64)
    requires m <= R2 - 2 * B + 1
    ensures lo + B * hi == m + carry
  {
    hide Lo, Hi;
    hi, lo := Hi(m), Lo(m);
    var result: u128 := lo + carry;
    lo := Lo(result);
    var cc := Hi(result);
    result := hi + cc;
    hi := Lo(result);
  }

  /** The limb carries of the second reduction; the last carry is kept. */
  method SecondCarries(z1: u64, z2: u64, z3: u64, m0: u128, m1: u128, ghost k: int) returns (y2: u64, y3: u64, cc: u64)
    requires m0 <= R2 - 2 * B + 1 && m1 <= R2 - 2 * B + 1 && z1 + m0 == B * k
    ensures B * (y2 + B * y3 + R2 * cc) == z1 + B * z2 + R2 * z3 + m0 + B * m1
  {
    hide Lo, Hi;
    var carry := LowCarry(z1, m0, k);
    var hi, lo := AddCarry(m1, carry);
    var result: u128 := z2 + lo;
    y2 := Lo(result);
    cc := Hi(result);
    result := z3 + hi + cc;
    y3 := Lo(result);
    cc := Hi(result);
  }

  /** The final subtraction with borrows, on a value of up to 129 bits. */
  method FinalSubtract(p: int, cc: u64, prod: u128) returns (r: u128)
    requires 1 < p <= R2 - B && cc * R2 + prod < 2 * p
    ensures r == (if cc * R2 + prod < p then cc * R2 + prod else cc * R2 + prod - p) && r < p
  {
    var b0 := if prod < p then 1 else 0;
    var s0: u128 := prod - p + b0 * R2;
    var b1 := cc < b0;
    r := Select(b1, prod, s0);
  }

  /** `mul`: the Montgomery product of any x and y with x * y < 2^128 * p. */
  method Mul(f: Params, x: u128, y: u128) returns (r: u128)
    requires f.Valid() && x * y < R2 * f.p
    ensures r < f.p && Cong(f.p, r * R2, x * y)
  {
    hide Lo, Hi, Cong, Res;
    var p0, p1 := Lo(f.p), Hi(f.p);
    var z0, z1, z2, z3 := Product(x, y);
    var w: u64 := f.mu * z0 % B;
    ghost var k := ClearsLimb(f.p, f.mu, z0, p0, p1, w);
    ReductionBounds(f.p, p0, p1, w);
    z1, z2, z3 := FirstCarries(z0, z1, z2, z3, p0 * w, p1 * w, k);
    var v: u64 := f.mu * z1 % B;
    k := ClearsLimb(f.p, f.mu, z1, p0, p1, v);
    ReductionBounds(f.p, p0, p1, v);
    var cc: u64;
    z2, z3, cc := SecondCarries(z1, z2, z3, p0 * v, p1 * v, k);
    ghost var t := z2 + B * z3 + R2 * cc;
    assert t * R2 == x * y + f.p * w + B * (f.p * v);
    r := FinalSubtract(f.p, cc, z2 + z3 * B);
    MulCongruent(f.p, x * y, w, v, t, r);
  }

  /** w times p by limbs, and its bounds. */
  lemma {:induction false} ReductionBounds(p: int, p0: int, p1: int, w: int)
    requires 1 < p <= R2 - B && p == p0 + B * p1 && 0 <= p0 < B && 0 <= p1 < B && 0 <= w < B
    ensures p0 * w + B * (p1 * w) == p * w && 0 <= p * w <= (B - 1) * p
    ensures 0 <= p0 * w <= R2 - 2 * B + 1 && 0 <= p1 * w <= R2 - 2 * B + 1
  {
    WordProduct(p0, w);
    WordProduct(p1, w);
    LimbTimes(B, p0, p1, w);
    MulMonotone(w, B - 1, p);
    MulMonotone(0, w, p);
    assert w * p == p * w;
  }

  lemma {:induction false} LimbTimes(b: int, p0: int, p1: int, w: int)
    ensures p0 * w + b * (p1 * w) == (p0 + b * p1) * w
  {
    assert b * (p1 * w) == b * p1 * w;
  }

  lemma {:induction false} MulCongruent(p: int, xy: int, w: int, v: int, t: int, r: int)
    requires 1 < p && t * R2 == xy + p * w + B * (p * v)
    requires r == if t < p then t else t - p
    ensures Cong(p, r * R2, xy)
  {
    MulCongruentFor(p, R2, B, xy, w, v, t, r);
  }

  // ------------------------------------------------------------------ the Montgomery domain

  /** The inverse of 2^128 modulo p that mu provides. */
  ghost function RadixInverse(f: Params): int
    requires f.Valid()
  {
    var j := (f.mu * f.p + 1) / B;
    j * j
  }

  lemma {:induction false} RadixInvertible(f: Params)
    requires f.Valid()
    ensures Cong(f.p, R2 * RadixInverse(f), 1)
  {
    var j := (f.mu * f.p + 1) / B;
    WordInverse(f.p, f.mu);
    hide Cong;
    InverseSquared(f.p, B, j);
    assert B * B == R2;
  }

  /** `montgomery`: stores any 128-bit integer. */
  method ToMontgomery(f: Params, x: u128) returns (r: u128)
    requires f.Valid()
    ensures r < f.p && Stores(f.p, R2, r, x)
  {
    hide Cong, Res;
    EntryBound(f, x);
    var t := Mul(f, x, f.r2);
    RadixInvertible(f);
    StoresEntry(f.p, R2, RadixInverse(f), x, f.r2, t);
    ResSmall(f.p, t);
    r := ModP(t, f.p);
  }

  lemma {:induction false} EntryBound(f: Params, x: u128)
    requires f.Valid()
    ensures 0 <= f.r2 < f.p && x * f.r2 < R2 * f.p && Cong(f.p, f.r2, R2 * R2)
  {
    var bound: int, y: int := f.r2, x;
    MulMonotone(bound, f.p - 1, y);
    MulMonotone(y, R2 - 1, f.p - 1);
    assert (f.p - 1) * y == y * (f.p - 1) && bound * y == y * bound;
    ResSmall(f.p, f.r2);
  }

  /** `residue`: recovers what a field element stores. */
  method Residue(f: Params, x: u128, ghost X: int) returns (r: u128)
    requires f.Valid() && x < f.p && Stores(f.p, R2, x, X)
    ensures r == Res(f.p, X)
  {
    hide Cong, Res;
    var t := Mul(f, x, 1);
    RadixInvertible(f);
    StoresExit(f.p, R2, RadixInverse(f), x, X, t);
    ResSmall(f.p, t);
    r := ModP(t, f.p);
  }

  /** `residue(montgomery(x))` is x modulo p, for every 128-bit x. */
  method RoundTrip(f: Params, x: u128) returns (r: u128)
    requires f.Valid()
    ensures r == Res(f.p, x)
  {
    var t := ToMontgomery(f, x);
    r := Residue(f, t, x);
  }

  /** The product of two stored values stores their product. */
  method MulStored(f: Params, x: u128, y: u128, ghost X: int, ghost Y: int) returns (r: u128)
    requires f.Valid() && x < f.p && y < f.p && Stores(f.p, R2, x, X) && Stores(f.p, R2, y, Y)
    ensures r < f.p && Stores(f.p, R2, r, X * Y)
  {
    hide Cong, Res;
    ElementsBound(f, x, y);
    r := Mul(f, x, y);
    RadixInvertible(f);
    StoresProduct(f.p, R2, RadixInverse(f), x, y, r, X, Y);
  }

  lemma {:induction false} ElementsBound(f: Params, x: u128, y: u128)
    requires f.Valid() && x < f.p && y < f.p
    ensures x * y < R2 * f.p
  {
    MulMonotone(y, f.p, x);
    MulMonotone(x, R2 - 1, f.p);
    var a: int, b: int := x, y;
    assert b * a == a * b && f.p * a == a * f.p;
  }

  /** `pow`: square and multiply from the most significant bit stores the repeated product. */
  method Pow(f: Params, x: u128, exp: u128, ghost X: int) returns (t: u128)
    requires f.Valid() && x < f.p && Stores(f.p, R2, x, X)
    ensures t < f.p && Stores(f.p, R2, t, IntPow(X, exp))
  {
    hide Cong, Res, Stores, IntPow, ShiftRight;
    t := ToMontgomery(f, 1);
    ShiftEnds(exp);
    PowStep(X, 0);
    for i := BitLength(exp) downto 0
      invariant t < f.p && Stores(f.p, R2, t, IntPow(X, ShiftRight(exp, i)))
    {
      ShiftStep(exp, i);
      ghost var e := ShiftRight(exp, i + 1);
      PowStep(X, e);
      t := MulStored(f, t, t, IntPow(X, e), IntPow(X, e));
      if ShiftRight(exp, i) % 2 != 0 {
        t := MulStored(f, t, x, IntPow(X, 2 * e), X);
      }
    }
  }
}
