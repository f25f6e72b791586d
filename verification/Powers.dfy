/** Powers of two and base-two logarithms. */
module Powers {
  function Exp2(n: nat): nat {
    if n == 0 then 1 else 2 * Exp2(n - 1)
  }

  lemma {:induction false} Exp2Positive(n: nat)
    ensures Exp2(n) >= 1
  {
    if n > 0 {
      Exp2Positive(n - 1);
    }
  }

  lemma {:induction false} Exp2Add(m: nat, n: nat)
    ensures Exp2(m + n) == Exp2(m) * Exp2(n)
  {
    if m > 0 {
      Exp2Add(m - 1, n);
      DoubleFactor(Exp2(m - 1), Exp2(n));
    }
  }

  lemma {:induction false} DoubleFactor(a: int, b: int)
    ensures 2 * (a * b) == 2 * a * b
  {
  }

  lemma {:induction false} Exp2Monotone(m: nat, n: nat)
    requires m <= n
    ensures Exp2(m) <= Exp2(n)
  {
    if m < n {
      Exp2Monotone(m, n - 1);
      Exp2Positive(n - 1);
    }
  }

  lemma {:induction false} Exp2Strict(m: nat, n: nat)
    requires m < n
    ensures Exp2(m) < Exp2(n)
  {
    Exp2Monotone(m, n - 1);
    Exp2Positive(n - 1);
  }

  function FloorLog2(x: nat): (y: nat)
    requires 1 <= x
    ensures Exp2(y) <= x < 2 * Exp2(y)
  {
    if x == 1 then 0 else 1 + FloorLog2(x / 2)
  }

  /** `fp::log2`: the base-two logarithm rounded up. */
  function Log2(x: nat): (y: nat)
    requires 1 <= x
    ensures x <= Exp2(y)
    ensures y > 0 ==> Exp2(y - 1) < x
  {
    var y := FloorLog2(x);
    y + if x > Exp2(y) then 1 else 0
  }

  lemma {:induction false} Log2Exp2(d: nat)
    ensures Exp2(d) >= 1 && Log2(Exp2(d)) == d
  {
    Exp2Positive(d);
    Log2Unique(Exp2(d), d);
  }

  lemma {:induction false} Log2Unique(x: nat, d: nat)
    requires 1 <= x <= Exp2(d) && (d > 0 ==> Exp2(d - 1) < x)
    ensures Log2(x) == d
  {
    hide FloorLog2, Exp2;
    var y := Log2(x);
    if y < d {
      Exp2Monotone(y, d - 1);
    } else if y > d {
      Exp2Monotone(d, y - 1);
    }
  }
}
