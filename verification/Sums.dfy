/** Finite sums of field elements and powers of two. */
module Sums {
  import opened Field

  function Sum(n: nat, f: int -> elem): elem {
    if n == 0 then 0 else Add(Sum(n - 1, f), f(n - 1))
  }

  lemma {:induction false} SumExt(n: nat, f: int -> elem, g: int -> elem)
    requires forall i :: 0 <= i < n ==> f(i) == g(i)
    ensures Sum(n, f) == Sum(n, g)
  {
    hide Add;
    if n > 0 {
      SumExt(n - 1, f, g);
    }
  }

  lemma {:induction false} SumAdd(n: nat, f: int -> elem, g: int -> elem)
    ensures Sum(n, i => Add(f(i), g(i))) == Add(Sum(n, f), Sum(n, g))
  {
    var h := i => Add(f(i), g(i));
    if n == 0 {
      AddZero(0);
    } else {
      SumAdd(n - 1, f, g);
      SumExt(n - 1, h, i => Add(f(i), g(i)));
      AddExchange(Sum(n - 1, f), Sum(n - 1, g), f(n - 1), g(n - 1));
      SumExt(n, h, i => Add(f(i), g(i)));
    }
  }

  lemma {:induction false} SumScale(n: nat, c: elem, f: int -> elem)
    ensures Sum(n, i => Mul(c, f(i))) == Mul(c, Sum(n, f))
  {
    var h := i => Mul(c, f(i));
    if n == 0 {
      MulZero(c);
    } else {
      SumScale(n - 1, c, f);
      SumExt(n - 1, h, i => Mul(c, f(i)));
      Distrib(c, Sum(n - 1, f), f(n - 1));
      SumExt(n, h, i => Mul(c, f(i)));
    }
  }

  lemma {:induction false} SumZero(n: nat, f: int -> elem)
    requires forall i :: 0 <= i < n ==> f(i) == 0
    ensures Sum(n, f) == 0
  {
    if n > 0 {
      SumZero(n - 1, f);
      AddZero(0);
    }
  }

  /** Only the term at `k` contributes. */
  lemma {:induction false} SumSingle(n: nat, k: nat, f: int -> elem)
    requires k < n
    requires forall i :: 0 <= i < n && i != k ==> f(i) == 0
    ensures Sum(n, f) == f(k)
  {
    AddZero(Sum(n - 1, f));
    if k == n - 1 {
      SumZero(n - 1, f);
      AddZero(f(k));
    } else {
      SumSingle(n - 1, k, f);
    }
  }

  lemma {:induction false} SumConcat(m: nat, n: nat, f: int -> elem)
    ensures Sum(m + n, f) == Add(Sum(m, f), Sum(n, i => f(m + i)))
  {
    var g := i => f(m + i);
    if n == 0 {
      AddZero(Sum(m, f));
    } else {
      SumConcat(m, n - 1, f);
      SumExt(n - 1, g, i => f(m + i));
      AddAssoc(Sum(m, f), Sum(n - 1, g), f(m + n - 1));
      SumExt(n, g, i => f(m + i));
    }
  }

  /** Even-indexed plus odd-indexed terms. */
  lemma {:induction false} SumParity(n: nat, f: int -> elem)
    ensures Sum(2 * n, f) == Add(Sum(n, i => f(2 * i)), Sum(n, i => f(2 * i + 1)))
  {
    hide Add;
    var e: int -> elem, o: int -> elem := i => f(2 * i), i => f(2 * i + 1);
    if n == 0 {
      AddZero(0);
    } else {
      SumParity(n - 1, f);
      SumExt(n - 1, e, i => f(2 * i));
      SumExt(n - 1, o, i => f(2 * i + 1));
      var x, y := Sum(n - 1, e), Sum(n - 1, o);
      calc {
        Sum(2 * n, f);
        Add(Add(Sum(2 * (n - 1), f), f(2 * n - 2)), f(2 * n - 1));
        Add(Add(Add(x, y), f(2 * n - 2)), f(2 * n - 1));
        { AddAssoc(Add(x, y), f(2 * n - 2), f(2 * n - 1)); }
        Add(Add(x, y), Add(f(2 * n - 2), f(2 * n - 1)));
        { AddExchange(x, y, f(2 * n - 2), f(2 * n - 1)); }
        Add(Sum(n, e), Sum(n, o));
      }
      SumExt(n, e, i => f(2 * i));
      SumExt(n, o, i => f(2 * i + 1));
    }
  }

  /** Exchange of the order of summation. */
  lemma {:induction false} SumSwap(m: nat, n: nat, f: (int, int) -> elem)
    ensures Sum(m, i => Sum(n, j => f(i, j))) == Sum(n, j => Sum(m, i => f(i, j)))
  {
    var row := i => Sum(n, j => f(i, j));
    var col := j => Sum(m, i => f(i, j));
    if m == 0 {
      SumZero(n, col);
    } else {
      SumSwap(m - 1, n, f);
      SumExt(m - 1, row, i => Sum(n, j => f(i, j)));
      var col' := j => Sum(m - 1, i => f(i, j));
      var last := j => f(m - 1, j);
      SumExt(n, j => Sum(m - 1, i => f(i, j)), col');
      SumAdd(n, col', last);
      SumExt(n, last, j => f(m - 1, j));
      forall j | 0 <= j < n ensures col(j) == Add(col'(j), last(j)) {
        SumExt(m, i => f(i, j), i => f(i, j));
      }
      SumExt(n, col, j => Add(col'(j), last(j)));
    }
    SumExt(m, row, i => Sum(n, j => f(i, j)));
    SumExt(n, col, j => Sum(m, i => f(i, j)));
  }
}
