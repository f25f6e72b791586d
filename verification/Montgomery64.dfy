/** One-limb Montgomery arithmetic (src/fp64.rs), for every odd modulus below 2^64. */
module Montgomery64 {
  import opened Congruence
  import opened MontgomeryDomain

  /** `FieldParameters64`: `mu * p` is minus one modulo 2^64 and `r2` is 2^128 modulo p. */
  datatype Params = Params(p: int, mu: int, r2: int) {
    predicate Valid() {
      && 1 < p < B
      && 0 <= mu < B && (mu * p + 1) % B == 0
      && r2 == R2 % p
    }
  }

  /** `add`. */
  method Add(f: Params, x: u64, y: u64) returns (r: u64)
    requires f.Valid() && x < f.p && y < f.p
    ensures r < f.p && r == Res(f.p, x + y)
  {
    var carry := if x + y >= B then 1 else 0;
    var z: u64 := x + y - carry * B;
    var b0 := if z < f.p then 1 else 0;
    var s0: u64 := z - f.p + b0 * B;
    var b1 := carry < b0;
    r := Select(b1, z, s0);
    ReduceOnce(f.p, x + y);
  }

  /** `sub`. */
  method Sub(f: Params, x: u64, y: u64) returns (r: u64)
    requires f.Valid() && x < f.p && y < f.p
    ensures r < f.p && r == Res(f.p, x - y)
  {
    var b0 := x < y;
    var z0: u64 := if b0 then x - y + B else x - y;
    var s := z0 + Select(b0, f.p, 0);
    r := if s >= B then s - B else s;
    ReduceOnce(f.p, x - y + f.p);
    CongFrom(f.p, x - y + f.p, x - y, 1);
  }

  /** `modp`. */
  function ModP(x: u64, p: int): (r: int)
    requires 1 < p < B && x < 2 * p
    ensures 0 <= r < p && r == Res(p, x)
  {
    ReduceOnce(p, x);
    var borrow := x < p;
    var z: u64 := if borrow then x - p + B else x - p;
    var s := z + Select(borrow, p, 0);
    if s >= B then s - B else s
  }

  /** The carries of the reduction, for the product m of w with p. */
  method Carries(z0: u64, z1: u64, m: u128, ghost k: int) returns (y1: u64, cc: u64)
    requires m <= R2 - 2 * B + 1 && z0 + m == B * k
    ensures B * (y1 + B * cc) == z0 + B * z1 + m
  {
    hide Lo, Hi;
    var hi, lo := Hi(m), Lo(m);
    var carry := if z0 + lo >= B then 1 else 0;
    var cleared: u64 := z0 + lo - carry * B;
    var result: u128 := z1 + hi + carry;
    y1 := Lo(result);
    cc := Hi(result);
    assert cleared == B * (k - hi - carry);
  }

  /** The final subtraction with borrows, on a value of up to 65 bits. */
  method FinalSubtract(p: int, cc: u64, prod: u64) returns (r: u64)
    requires 1 < p < B && cc * B + prod < 2 * p
    ensures r == (if cc * B + prod < p then cc * B + prod else cc * B + prod - p) && r < p
  {
    var b0 := if prod < p then 1 else 0;
    var s0: u64 := prod - p + b0 * B;
    var b1 := cc < b0;
    r := Select(b1, prod, s0);
  }

  /** `mul`: the Montgomery product of any x and y with x * y < 2^64 * p. */
  method Mul(f: Params, x: u64, y: u64) returns (r: u64)
    requires f.Valid() && x * y < B * f.p
    ensures r < f.p && Cong(f.p, r * B, x * y)
  {
    hide Lo, Hi, Cong, Res;
    WordProduct(x, y);
    var z: u128 := x * y;
    var z0, z1 := Lo(z), Hi(z);
    var w: u64 := f.mu * z0 % B;
    ghost var k := ClearsLimb(f.p, f.mu, z0, f.p, 0, w);
    WordProduct(f.p, w);
    MulMonotone(w, B - 1, f.p);
    assert w * f.p == f.p * w by { Commute(w, f.p); }
    var cc: u64;
    z1, cc := Carries(z0, z1, f.p * w, k);
    ghost var t := z1 + B * cc;
    r := FinalSubtract(f.p, cc, z1);
    assert f.p * 0 == 0;
    MulCongruentFor(f.p, B, 0, x * y, w, 0, t, r);
  }

  lemma {:induction false} Commute(a: int, b: int)
    ensures a * b == b * a
  {
  }

  // ------------------------------------------------------------------ the Montgomery domain

  ghost function RadixInverse(f: Params): int
    requires f.Valid()
  {
    (f.mu * f.p + 1) / B
  }

  /** `montgomery`: stores any 64-bit integer. */
  method ToMontgomery(f: Params, x: u64) returns (r: u64)
    requires f.Valid()
    ensures r < f.p && Stores(f.p, B, r, x)
  {
    hide Cong, Res;
    EntryBound(f, x);
    var t := Mul(f, x, f.r2);
    WordInverse(f.p, f.mu);
    StoresEntry(f.p, B, RadixInverse(f), x, f.r2, t);
    ResSmall(f.p, t);
    r := ModP(t, f.p);
  }

  lemma {:induction false} EntryBound(f: Params, x: u64)
    requires f.Valid()
    ensures 0 <= f.r2 < f.p && x * f.r2 < B * f.p && Cong(f.p, f.r2, B * B)
  {
    var bound: int, y: int := f.r2, x;
    MulMonotone(bound, f.p - 1, y);
    MulMonotone(y, B - 1, f.p - 1);
    assert (f.p - 1) * y == y * (f.p - 1) && bound * y == y * bound;
    ResSmall(f.p, f.r2);
    assert B * B == R2;
  }

  /** `residue`: recovers what a field element stores. */
  method Residue(f: Params, x: u64, ghost X: int) returns (r: u64)
    requires f.Valid() && x < f.p && Stores(f.p, B, x, X)
    ensures r == Res(f.p, X)
  {
    hide Cong, Res;
    var t := Mul(f, x, 1);
    WordInverse(f.p, f.mu);
    StoresExit(f.p, B, RadixInverse(f), x, X, t);
    ResSmall(f.p, t);
    r := ModP(t, f.p);
  }

  /** `residue(montgomery(x))` is x modulo p, for every 64-bit x. */
  method RoundTrip(f: Params, x: u64) returns (r: u64)
    requires f.Valid()
    ensures r == Res(f.p, x)
  {
    var t := ToMontgomery(f, x);
    r := Residue(f, t, x);
  }

  /** The product of two stored values stores their product. */
  method MulStored(f: Params, x: u64, y: u64, ghost X: int, ghost Y: int) returns (r: u64)
    requires f.Valid() && x < f.p && y < f.p && Stores(f.p, B, x, X) && Stores(f.p, B, y, Y)
    ensures r < f.p && Stores(f.p, B, r, X * Y)
  {
    hide Cong, Res;
    MulMonotone(y, f.p, x);
    MulMonotone(x, B - 1, f.p);
    Commute(x, y);
    Commute(x, f.p);
    r := Mul(f, x, y);
    WordInverse(f.p, f.mu);
    StoresProduct(f.p, B, RadixInverse(f), x, y, r, X, Y);
  }

  /** `pow`: square and multiply stores the repeated product. */
  method Pow(f: Params, x: u64, exp: u64, ghost X: int) returns (t: u64)
    requires f.Valid() && x < f.p && Stores(f.p, B, x, X)
    ensures t < f.p && Stores(f.p, B, t, IntPow(X, exp))
  {
    hide Cong, Res, Stores, IntPow, ShiftRight;
    t := ToMontgomery(f, 1);
    ShiftEnds(exp);
    PowStep(X, 0);
    for i := BitLength(exp) downto 0
      invariant t < f.p && Stores(f.p, B, t, IntPow(X, ShiftRight(exp, i)))
    {
      ShiftStep(exp, i);
      ghost var e := ShiftRight(exp, i + 1);
      PowStep(X, e);
      t := MulStored(f, t, t, IntPow(X, e), IntPow(X, e));
      if ShiftRight(exp, i) % 2 != 0 {
        t := MulStored(f, t, x, IntPow(X, 2 * e), X);
      }
    }
  }
}
