/** The iterative radix-2 FFT of src/fft.rs, proved against the textbook discrete Fourier
    transform, and its inverse. */
module Fft {
  import opened Field
  import opened Powers
  import opened Sums

  datatype FftResult = Ok | OutputTooSmall | SizeTooLarge | SizeInvalid

  /** Element `i` of the zero-padded sequence `x`. */
  function Pad(x: seq<elem>, i: int): elem {
    if 0 <= i < |x| then x[i] else 0
  }

  // ------------------------------------------------------------------ the specification

  /** One term of the transform, of order 2^l, of the subsequence x[off], x[off + stride], ... */
  function Term(x: seq<elem>, off: nat, stride: nat, l: nat, k: nat, m: int): elem
    requires l <= MAX_ROOTS
  {
    if m < 0 then 0 else Mul(Pad(x, off + stride * m), Pow(Root(l), k * m))
  }

  function StridedDft(x: seq<elem>, off: nat, stride: nat, l: nat, k: nat): elem
    requires l <= MAX_ROOTS
  {
    Sum(Exp2(l), m => Term(x, off, stride, l, k, m))
  }

  /** The `k`-th value of the transform of order 2^l: sum over m of x[m] * root(l)^(k*m). */
  function Dft(x: seq<elem>, l: nat, k: nat): elem
    requires l <= MAX_ROOTS
  {
    StridedDft(x, 0, 1, l, k)
  }

  function DftSeq(x: seq<elem>, l: nat): (r: seq<elem>)
    requires l <= MAX_ROOTS
    ensures |r| == Exp2(l)
  {
    seq(Exp2(l), k requires 0 <= k => Dft(x, l, k))
  }

  // ------------------------------------------------------------------ roots of unity

  lemma {:induction false} RootPow(l: nat, j: nat)
    requires j <= l <= MAX_ROOTS
    ensures Pow(Root(l), Exp2(j)) == Root(l - j)
  {
    if j == 0 {
      assert Pow(Root(l), 1) == Mul(Root(l), Pow(Root(l), 0));
      MulOne(Root(l));
    } else {
      var y := Exp2(j - 1);
      RootPow(l, j - 1);
      PowAdd(Root(l), y, y);
      assert Exp2(j) == y + y;
      assert Mul(Root(l - j + 1), Root(l - j + 1)) == Root(l - j);
    }
  }

  lemma {:induction false} RootFull(l: nat)
    requires l <= MAX_ROOTS
    ensures Pow(Root(l), Exp2(l)) == 1
  {
    RootPow(l, l);
  }

  lemma {:induction false} RootHalf(l: nat)
    requires 1 <= l <= MAX_ROOTS
    ensures Pow(Root(l), Exp2(l - 1)) == Neg(1)
  {
    RootPow(l, l - 1);
    ModUnique(0 - 1, -1, P - 1);
  }

  /** Root(l)^(2n) == Root(l-1)^n. */
  lemma {:induction false} RootSquare(l: nat, n: nat)
    requires 1 <= l <= MAX_ROOTS
    ensures Pow(Root(l), 2 * n) == Pow(Root(l - 1), n)
  {
    PowPow(Root(l), 2, n);
    RootPow(l, 1);
    assert Exp2(1) == 2 by { assert Exp2(0) == 1; }
  }

  /** Exponents of Root(l) may be reduced modulo 2^l. */
  lemma {:induction false} RootPeriod(l: nat, k: nat, m: nat)
    requires l <= MAX_ROOTS
    ensures 0 <= (k + Exp2(l)) * m && 0 <= k * m
    ensures Pow(Root(l), (k + Exp2(l)) * m) == Pow(Root(l), k * m)
  {
    hide Mul, Pow, Exp2;
    var n := Exp2(l);
    MulDistrib(k, n, m);
    PowAdd(Root(l), k * m, n * m);
    PowPow(Root(l), n, m);
    RootFull(l);
    PowOne(m);
    MulOne(Pow(Root(l), k * m));
  }

  // ------------------------------------------------------------------ decimation in time

  lemma {:induction false} StridedPeriod(x: seq<elem>, off: nat, stride: nat, l: nat, k: nat)
    requires l <= MAX_ROOTS
    ensures StridedDft(x, off, stride, l, k + Exp2(l)) == StridedDft(x, off, stride, l, k)
  {
    var n := Exp2(l);
    forall m: nat ensures Term(x, off, stride, l, k + n, m) == Term(x, off, stride, l, k, m) {
      RootPeriod(l, k, m);
    }
    SumExt(n, m => Term(x, off, stride, l, k + n, m), m => Term(x, off, stride, l, k, m));
  }

  lemma {:induction false} SplitTerm(x: seq<elem>, off: nat, stride: nat, l: nat, k: nat, m: nat)
    requires 1 <= l <= MAX_ROOTS
    ensures Term(x, off, stride, l, k, 2 * m) == Term(x, off, 2 * stride, l - 1, k, m)
    ensures Term(x, off, stride, l, k, 2 * m + 1)
         == Mul(Pow(Root(l), k), Term(x, off + stride, 2 * stride, l - 1, k, m))
  {
    hide Mul, Pow;
    MulDoubleOdd(k, m);
    MulDoubleOdd(stride, m);
    var w, e := Root(l), k * m;
    RootSquare(l, e);
    var i := off + stride * (2 * m + 1);
    calc {
      Term(x, off, stride, l, k, 2 * m + 1);
      Mul(Pad(x, i), Pow(w, k + 2 * e));
      { PowAdd(w, k, 2 * e); }
      Mul(Pad(x, i), Mul(Pow(w, k), Pow(Root(l - 1), e)));
      { MulAssoc(Pad(x, i), Pow(w, k), Pow(Root(l - 1), e)); MulComm(Pad(x, i), Pow(w, k)); }
      Mul(Mul(Pow(w, k), Pad(x, i)), Pow(Root(l - 1), e));
      { MulAssoc(Pow(w, k), Pad(x, i), Pow(Root(l - 1), e)); }
      Mul(Pow(w, k), Term(x, off + stride, 2 * stride, l - 1, k, m));
    }
  }

  /** The transform is the transform of the even part plus a twiddled transform of the odd part. */
  lemma {:induction false} StridedSplit(x: seq<elem>, off: nat, stride: nat, l: nat, k: nat)
    requires 1 <= l <= MAX_ROOTS
    ensures StridedDft(x, off, stride, l, k)
         == Add(StridedDft(x, off, 2 * stride, l - 1, k),
                Mul(Pow(Root(l), k), StridedDft(x, off + stride, 2 * stride, l - 1, k)))
  {
    hide Add, Mul, Pow, Term;
    var y, c := Exp2(l - 1), Pow(Root(l), k);
    var f := m => Term(x, off, stride, l, k, m);
    var off': nat, stride': nat, l': nat := off + stride, 2 * stride, l - 1;
    var e: int -> elem := m => Term(x, off, stride', l', k, m);
    var o: int -> elem := m => Term(x, off', stride', l', k, m);
    forall m: nat ensures f(2 * m) == e(m) && f(2 * m + 1) == Mul(c, o(m)) {
      SplitTerm(x, off, stride, l, k, m);
    }
    SumTwiddle(y, f, e, o, c);
  }

  lemma {:induction false} SumTwiddle(y: nat, f: int -> elem, e: int -> elem, o: int -> elem, c: elem)
    requires forall m: nat :: f(2 * m) == e(m) && f(2 * m + 1) == Mul(c, o(m))
    ensures Sum(2 * y, f) == Add(Sum(y, e), Mul(c, Sum(y, o)))
  {
    hide Add, Mul;
    SumParity(y, f);
    SumExt(y, m => f(2 * m), e);
    SumExt(y, m => f(2 * m + 1), m => Mul(c, o(m)));
    SumScale(y, c, o);
  }

  /** The butterfly: the two halves of a transform from the transforms of its parts. */
  lemma {:induction false} ButterflyValue(x: seq<elem>, off: nat, stride: nat, l: nat, q: nat)
    requires 1 <= l <= MAX_ROOTS && q < Exp2(l - 1)
    ensures var e := StridedDft(x, off, 2 * stride, l - 1, q);
            var o := Mul(Pow(Root(l), q), StridedDft(x, off + stride, 2 * stride, l - 1, q));
            && StridedDft(x, off, stride, l, q) == Add(e, o)
            && StridedDft(x, off, stride, l, q + Exp2(l - 1)) == Sub(e, o)
  {
    var y, w := Exp2(l - 1), Root(l);
    var oo := StridedDft(x, off + stride, 2 * stride, l - 1, q);
    StridedSplit(x, off, stride, l, q);
    StridedSplit(x, off, stride, l, q + y);
    StridedPeriod(x, off, 2 * stride, l - 1, q);
    StridedPeriod(x, off + stride, 2 * stride, l - 1, q);
    calc {
      Mul(Pow(w, q + y), oo);
      { PowAdd(w, q, y); RootHalf(l); MulComm(Pow(w, q), Neg(1)); }
      Mul(Mul(Neg(1), Pow(w, q)), oo);
      { MulAssoc(Neg(1), Pow(w, q), oo); MulNeg(1, Mul(Pow(w, q), oo)); MulOne(Mul(Pow(w, q), oo)); }
      Neg(Mul(Pow(w, q), oo));
    }
    SubIsAddNeg(StridedDft(x, off, 2 * stride, l - 1, q), Mul(Pow(w, q), oo));
  }

  // ------------------------------------------------------------------ bit reversal

  /** The low `w` bits of `x` in reverse order, as `reverse_bits` on a w-bit word. */
  function ReverseBits(w: nat, x: nat): nat {
    if w == 0 then 0 else x % 2 * Exp2(w - 1) + ReverseBits(w - 1, x / 2)
  }

  const WORD: nat := 64

  function BitRev(d: nat, x: nat): nat
    requires d <= WORD
  {
    Exp2Positive(WORD - d);
    ReverseBits(WORD, x) / Exp2(WORD - d)
  }

  lemma {:induction false} ReverseBitsBound(w: nat, x: nat)
    ensures ReverseBits(w, x) < Exp2(w)
  {
    if w > 0 {
      ReverseBitsBound(w - 1, x / 2);
      TopBit(x % 2, Exp2(w - 1));
    }
  }

  lemma {:induction false} TopBit(bit: nat, h: nat)
    requires bit <= 1
    ensures 0 <= bit * h <= h
  {
  }

  lemma {:induction false} BitTimes(bit: nat, a: nat, b: nat)
    requires bit < 2
    ensures bit * (a * b) == bit * a * b
  {
  }

  lemma {:induction false} ReverseBitsShift(n: nat, k: nat, x: nat)
    ensures Exp2(k) >= 1 && ReverseBits(n + k, x) / Exp2(k) == ReverseBits(n, x)
  {
    Exp2Positive(k);
    var e := Exp2(k);
    if n == 0 {
      ReverseBitsBound(k, x);
      DivModUnique(ReverseBits(k, x), e, 0, ReverseBits(k, x));
    } else {
      ReverseBitsShift(n - 1, k, x / 2);
      Exp2Add(n - 1, k);
      var c, r := x % 2 * Exp2(n - 1), ReverseBits(n - 1 + k, x / 2);
      BitTimes(x % 2, Exp2(n - 1), e);
      assert ReverseBits(n + k, x) == c * e + r;
      hide ReverseBits, Exp2;
      DivAddMultiple(c, r, e);
    }
  }

  /** `bitrev(d, .)` reverses the first d bits. */
  lemma {:induction false} BitRevIsReverse(d: nat, x: nat)
    requires d <= WORD
    ensures BitRev(d, x) == ReverseBits(d, x)
  {
    ReverseBitsShift(d, WORD - d, x);
  }

  lemma {:induction false} DivAddMultiple(c: int, r: int, e: int)
    requires 1 <= e
    ensures (c * e + r) / e == c + r / e
  {
    var q, m := r / e, r % e;
    assert r == q * e + m;
    MulDistrib(c, q, e);
    DivModUnique(c * e + r, e, c + q, m);
  }

  lemma {:induction false} MulDistrib(a: int, b: int, c: int)
    ensures (a + b) * c == a * c + b * c
    ensures a >= 0 && c >= 0 ==> a * c >= 0
    ensures b >= 0 && c >= 0 ==> b * c >= 0
  {
  }

  lemma {:induction false} MulDoubleOdd(k: int, m: int)
    ensures k * (2 * m) == 2 * (k * m) == 2 * k * m
    ensures k * (2 * m + 1) == k + 2 * (k * m)
    ensures k >= 0 && m >= 0 ==> k * m >= 0
  {
  }

  lemma {:induction false} DivModUnique(t: int, y: int, a: int, q: int)
    requires 0 <= q < y && t == a * y + q
    ensures t / y == a && t % y == q
  {
    assert t == t / y * y + t % y;
    EuclidUnique(y, t / y, t % y, a, q);
  }

  // ------------------------------------------------------------------ one level of the loop

  /** After level l, position t holds value t mod 2^l of the transform of its block's subsequence. */
  ghost predicate LevelDone(x: seq<elem>, d: nat, l: nat, s: seq<elem>)
    requires l <= d <= MAX_ROOTS
  {
    Exp2Positive(l);
    && |s| == Exp2(d)
    && forall t :: 0 <= t < |s| ==>
         s[t] == StridedDft(x, ReverseBits(d - l, t / Exp2(l)), Exp2(d - l), l, t % Exp2(l))
  }

  /** Position t belongs to butterfly column `t mod y`. */
  function Column(y: nat, t: nat): nat
    requires 1 <= y
  {
    var q := t % (2 * y);
    if q < y then q else q - y
  }

  /** What the butterfly through position t writes there, for half-block size y and twiddle w. */
  function PairValue(s: seq<elem>, y: nat, w: elem, t: nat): elem
    requires 1 <= y
  {
    if t % (2 * y) < y then Add(Pad(s, t), Mul(w, Pad(s, t + y)))
    else Sub(Pad(s, t - y), Mul(w, Pad(s, t)))
  }

  /** What one level with twiddle base r writes at position t. */
  function Butterfly(s: seq<elem>, y: nat, r: elem, t: nat): elem
    requires 1 <= y
  {
    PairValue(s, y, Pow(r, Column(y, t)), t)
  }

  lemma {:induction false} BlockOf(y: nat, t: nat, d: nat, l: nat)
    requires 1 <= l <= d && y == Exp2(l - 1) && t < Exp2(d)
    ensures y >= 1
    ensures var b, q := t / (2 * y), t % (2 * y);
            && (q < y ==> t / y == 2 * b && t % y == q && (t + y) / y == 2 * b + 1 && (t + y) % y == q && t + y < Exp2(d))
            && (q >= y ==> t / y == 2 * b + 1 && t % y == q - y && (t - y) / y == 2 * b && (t - y) % y == q - y && t >= y)
  {
    Exp2Positive(l - 1);
    Exp2Add(d - l, l);
    BlockArith(y, t, Exp2(d - l), Exp2(d));
  }

  lemma {:induction false} BlockArith(y: int, t: int, n: int, size: int)
    requires 1 <= y && 0 <= t < size && size == n * (2 * y)
    ensures var b, q := t / (2 * y), t % (2 * y);
            && (q < y ==> t / y == 2 * b && t % y == q && (t + y) / y == 2 * b + 1 && (t + y) % y == q && t + y < size)
            && (q >= y ==> t / y == 2 * b + 1 && t % y == q - y && (t - y) / y == 2 * b && (t - y) % y == q - y && t >= y)
  {
    var b, q := DivMod(t, 2 * y);
    HalfBlocks(y, b, q, t);
    MulFits(b, n, 2 * y, q);
  }

  lemma {:induction false} DivMod(t: int, e: int) returns (b: int, q: int)
    requires 1 <= e && 0 <= t
    ensures b == t / e && q == t % e && t == b * e + q && 0 <= b && 0 <= q < e
  {
    b, q := t / e, t % e;
  }

  lemma {:induction false} HalfBlocks(y: nat, b: int, q: int, t: int)
    requires 1 <= y && 0 <= q < 2 * y && t == b * (2 * y) + q && 0 <= b
    ensures q < y ==> t / y == 2 * b && t % y == q && (t + y) / y == 2 * b + 1 && (t + y) % y == q
    ensures q >= y ==> t / y == 2 * b + 1 && t % y == q - y && (t - y) / y == 2 * b && (t - y) % y == q - y && t >= y
  {
    MulDoubleOdd(y, b);
    assert b * (2 * y) == (2 * b) * y && (2 * b + 1) * y == (2 * b) * y + y;
    if q < y {
      DivModUnique(t, y, 2 * b, q);
      DivModUnique(t + y, y, 2 * b + 1, q);
    } else {
      DivModUnique(t, y, 2 * b + 1, q - y);
      DivModUnique(t - y, y, 2 * b, q - y);
    }
  }

  /** A block that starts below n * e ends at or below it. */
  lemma {:induction false} MulFits(b: int, n: int, e: int, q: int)
    requires 1 <= e && 0 <= q && b * e + q < n * e
    ensures b * e + e <= n * e
  {
    if b >= n {
      MulDistrib(b - n, n, e);
      assert false;
    }
    MulDistrib(n - b - 1, b + 1, e);
    MulDistrib(b, 1, e);
  }

  lemma {:induction false} LevelStep(x: seq<elem>, d: nat, l: nat, s: seq<elem>, s': seq<elem>)
    requires 1 <= l <= d <= MAX_ROOTS
    requires LevelDone(x, d, l - 1, s) && |s'| == |s|
    requires Exp2(l - 1) >= 1
    requires forall t :: 0 <= t < |s| ==> s'[t] == Butterfly(s, Exp2(l - 1), Root(l), t)
    ensures LevelDone(x, d, l, s')
  {
    hide Butterfly, StridedDft, Exp2, ReverseBits;
    Exp2Positive(l);
    forall t | 0 <= t < |s'|
      ensures s'[t] == StridedDft(x, ReverseBits(d - l, t / Exp2(l)), Exp2(d - l), l, t % Exp2(l))
    {
      LevelStepAt(x, d, l, s, t);
    }
  }

  lemma {:induction false} LevelStepAt(x: seq<elem>, d: nat, l: nat, s: seq<elem>, t: nat)
    requires 1 <= l <= d <= MAX_ROOTS
    requires LevelDone(x, d, l - 1, s) && t < |s|
    requires Exp2(l - 1) >= 1
    ensures Butterfly(s, Exp2(l - 1), Root(l), t)
         == StridedDft(x, ReverseBits(d - l, t / Exp2(l)), Exp2(d - l), l, t % Exp2(l))
  {
    hide Add, Mul, Sub, StridedDft, Pow, Exp2, ReverseBits, LevelDone;
    LevelSizes(d, l);
    var y := Exp2(l - 1);
    LevelDoneAt(x, d, l - 1, s, t);
    BlockOf(y, t, d, l);
    var b, q := t / (2 * y), t % (2 * y);
    if q < y {
      PairTransforms(x, d, l, s, b, q, t);
    } else {
      PairTransforms(x, d, l, s, b, q - y, t - y);
    }
  }

  /** The two values a butterfly makes from positions u and u + y of block b. */
  lemma {:induction false} PairTransforms(x: seq<elem>, d: nat, l: nat, s: seq<elem>, b: nat, q: nat, u: nat)
    requires 1 <= l <= d <= MAX_ROOTS && LevelDone(x, d, l - 1, s) && Exp2(l - 1) >= 1 && q < Exp2(l - 1)
    requires var y := Exp2(l - 1);
             u + y < |s| && u / y == 2 * b && u % y == q && (u + y) / y == 2 * b + 1 && (u + y) % y == q
    ensures var off, stride, w := ReverseBits(d - l, b), Exp2(d - l), Mul(Pow(Root(l), q), s[u + Exp2(l - 1)]);
            && StridedDft(x, off, stride, l, q) == Add(s[u], w)
            && StridedDft(x, off, stride, l, q + Exp2(l - 1)) == Sub(s[u], w)
  {
    hide Add, Mul, Sub, StridedDft, Pow, Exp2, ReverseBits, LevelDone;
    LevelSizes(d, l);
    ReverseChildren(d - l, b);
    LevelDoneAt(x, d, l - 1, s, u);
    LevelDoneAt(x, d, l - 1, s, u + Exp2(l - 1));
    ButterflyValue(x, ReverseBits(d - l, b), Exp2(d - l), l, q);
  }

  lemma {:induction false} LevelSizes(d: nat, l: nat)
    requires 1 <= l <= d
    ensures Exp2(l) == 2 * Exp2(l - 1) && Exp2(d - (l - 1)) == 2 * Exp2(d - l) && Exp2(d - l) >= 1
  {
    Exp2Positive(d - l);
  }

  lemma {:induction false} LevelDoneAt(x: seq<elem>, d: nat, l: nat, s: seq<elem>, t: nat)
    requires l <= d <= MAX_ROOTS && LevelDone(x, d, l, s)
    ensures |s| == Exp2(d) && Exp2(l) >= 1
    ensures t < |s| ==> s[t] == StridedDft(x, ReverseBits(d - l, t / Exp2(l)), Exp2(d - l), l, t % Exp2(l))
  {
    Exp2Positive(l);
  }

  lemma {:induction false} ReverseChildren(n: nat, b: nat)
    ensures ReverseBits(n + 1, 2 * b) == ReverseBits(n, b)
    ensures ReverseBits(n + 1, 2 * b + 1) == ReverseBits(n, b) + Exp2(n)
  {
  }

  lemma {:induction false} LevelZero(x: seq<elem>, d: nat, s: seq<elem>)
    requires d <= MAX_ROOTS && |s| == Exp2(d)
    requires forall t :: 0 <= t < |s| ==> s[t] == Pad(x, ReverseBits(d, t))
    ensures LevelDone(x, d, 0, s)
  {
    forall t | 0 <= t < |s|
      ensures s[t] == StridedDft(x, ReverseBits(d, t / Exp2(0)), Exp2(d), 0, t % Exp2(0))
    {
      StridedOne(x, ReverseBits(d, t), Exp2(d));
    }
  }

  lemma {:induction false} StridedOne(x: seq<elem>, off: nat, stride: nat)
    ensures StridedDft(x, off, stride, 0, 0) == Pad(x, off)
  {
    var f := m => Term(x, off, stride, 0, 0, m);
    assert Sum(1, f) == Add(Sum(0, f), f(0));
    assert f(0) == Mul(Pad(x, off), 1);
    MulOne(Pad(x, off));
    AddZero(Pad(x, off));
    SumExt(1, f, m => Term(x, off, stride, 0, 0, m));
  }

  lemma {:induction false} LevelLast(x: seq<elem>, d: nat, s: seq<elem>)
    requires d <= MAX_ROOTS && LevelDone(x, d, d, s)
    ensures s == DftSeq(x, d)
  {
    forall t | 0 <= t < |s| ensures s[t] == Dft(x, d, t) {
      DivModUnique(t, Exp2(d), 0, t);
    }
  }

  // ------------------------------------------------------------------ the in-place algorithm

  /** Position t lies in column i, in one of the first j blocks. */
  predicate InColumn(y: nat, i: nat, j: nat, t: nat)
    requires 1 <= y
  {
    Column(y, t) == i && t / (2 * y) < j
  }

  /** One column of butterflies: every block's pair at offset i, with twiddle w. */
  method ButterflyColumn(outp: array<elem>, size: nat, y: nat, i: nat, w: elem)
    requires 1 <= y && i < y && size <= outp.Length
    requires size == size / y / 2 * (2 * y)
    modifies outp
    ensures forall t :: 0 <= t < outp.Length ==>
              outp[t] == if InColumn(y, i, size / y / 2, t) then PairValue(old(outp[..]), y, w, t) else old(outp[t])
  {
    hide Add, Sub, Mul, InColumn, PairValue;
    ghost var s := outp[..];
    var chunk := size / y / 2;
    EmptyColumn(y, i);
    for j := 0 to chunk
      invariant forall t :: 0 <= t < outp.Length ==>
                  outp[t] == if InColumn(y, i, j, t) then PairValue(s, y, w, t) else s[t]
    {
      var x := j * (2 * y) + i;
      PairOfBlock(s, j, y, i, chunk, w);
      var u := outp[x];
      var v := Mul(w, outp[x + y]);
      outp[x] := Add(u, v);
      outp[x + y] := Sub(u, v);
    }
  }

  lemma {:induction false} EmptyColumn(y: nat, i: nat)
    requires 1 <= y
    ensures forall t: nat :: !InColumn(y, i, 0, t)
  {
    forall t: nat ensures !InColumn(y, i, 0, t) {
      NotBelowZero(y, i, t);
    }
    hide InColumn;
  }

  lemma {:induction false} NotBelowZero(y: nat, i: nat, t: nat)
    requires 1 <= y
    ensures !InColumn(y, i, 0, t)
  {
    hide Column;
    var b, q := DivMod(t, 2 * y);
  }

  lemma {:induction false} PairOfBlock(s: seq<elem>, j: nat, y: nat, i: nat, chunk: nat, w: elem)
    requires j < chunk && i < y && chunk * (2 * y) <= |s|
    ensures 0 <= j * (2 * y) && j * (2 * y) + i + y < |s|
    ensures var x := j * (2 * y) + i;
            && !InColumn(y, i, j, x) && !InColumn(y, i, j, x + y)
            && (forall t: nat :: InColumn(y, i, j + 1, t) <==> InColumn(y, i, j, t) || t == x || t == x + y)
            && PairValue(s, y, w, x) == Add(s[x], Mul(w, s[x + y]))
            && PairValue(s, y, w, x + y) == Sub(s[x], Mul(w, s[x + y]))
  {
    hide Add, Sub, Mul;
    PairInBlock(j, y, i, chunk);
    var x := j * (2 * y) + i;
    forall t: nat ensures Column(y, t) == i && t / (2 * y) == j <==> t == x || t == x + y {
      PairUnique(j, y, i, t);
    }
  }

  lemma {:induction false} PairUnique(j: nat, y: nat, i: nat, t: nat)
    requires i < y
    ensures Column(y, t) == i && t / (2 * y) == j <==> t == j * (2 * y) + i || t == j * (2 * y) + i + y
  {
    var b, q := DivMod(t, 2 * y);
    DivModUnique(j * (2 * y) + i, 2 * y, j, i);
    DivModUnique(j * (2 * y) + i + y, 2 * y, j, i + y);
  }

  lemma {:induction false} PairInBlock(j: int, y: int, i: int, chunk: int)
    requires 0 <= j < chunk && 0 <= i < y
    ensures 0 <= j * (2 * y)
    ensures j * (2 * y) + i + y < chunk * (2 * y)
    ensures (j * (2 * y) + i) % (2 * y) == i && (j * (2 * y) + i + y) % (2 * y) == i + y
  {
    MulDistrib(j, 1, 2 * y);
    MulDistrib(chunk - j - 1, j + 1, 2 * y);
    DivModUnique(j * (2 * y) + i, 2 * y, j, i);
    DivModUnique(j * (2 * y) + i + y, 2 * y, j, i + y);
  }

  /** Position t has been rewritten by columns 0 .. i-1 of a level. */
  predicate ColumnsBefore(size: nat, y: nat, i: nat, t: nat)
    requires 1 <= y
  {
    t < size && Column(y, t) < i
  }

  /** The i-loop: all columns of one level; the first one, unrolled in the source, has twiddle 1. */
  method Level(outp: array<elem>, size: nat, y: nat, r: elem)
    requires 1 <= y && size <= outp.Length
    requires size == size / y / 2 * (2 * y)
    modifies outp
    ensures forall t :: 0 <= t < size ==> outp[t] == Butterfly(old(outp[..]), y, r, t)
    ensures forall t :: size <= t < outp.Length ==> outp[t] == old(outp[t])
  {
    hide Add, Sub, Mul, InColumn, PairValue, Butterfly, ColumnsBefore;
    ghost var s := outp[..];
    var w: elem := 1;
    ButterflyColumn(outp, size, y, 0, w);
    NoColumns(size, y);
    ColumnStep(s, s, outp[..], size, y, r, 0, w);
    for i := 1 to y
      invariant w == Pow(r, i - 1)
      invariant forall t :: 0 <= t < outp.Length ==>
                  outp[t] == if ColumnsBefore(size, y, i, t) then Butterfly(s, y, r, t) else s[t]
    {
      ghost var s1 := outp[..];
      w := Mul(w, r);
      PowNext(r, i - 1);
      ButterflyColumn(outp, size, y, i, w);
      ColumnStep(s, s1, outp[..], size, y, r, i, w);
    }
    ColumnsAll(size, y);
  }

  lemma {:induction false} PowNext(r: elem, n: nat)
    ensures Mul(Pow(r, n), r) == Pow(r, n + 1)
  {
    MulComm(r, Pow(r, n));
  }

  lemma {:induction false} NoColumns(size: nat, y: nat)
    requires 1 <= y
    ensures forall t: nat :: !ColumnsBefore(size, y, 0, t)
  {
  }

  lemma {:induction false} ColumnsAll(size: nat, y: nat)
    requires 1 <= y
    ensures forall t: nat :: t < size ==> ColumnsBefore(size, y, y, t)
    ensures forall t: nat :: t >= size ==> !ColumnsBefore(size, y, y, t)
  {
  }

  /** Rewriting column i of a state in which columns before i are done completes columns up to i. */
  lemma {:induction false} ColumnStep(s: seq<elem>, s1: seq<elem>, s2: seq<elem>, size: nat, y: nat, r: elem, i: nat, w: elem)
    requires 1 <= y && i < y && size <= |s| == |s1| == |s2|
    requires size == size / y / 2 * (2 * y) && w == Pow(r, i)
    requires forall t :: 0 <= t < |s| ==> s1[t] == if ColumnsBefore(size, y, i, t) then Butterfly(s, y, r, t) else s[t]
    requires forall t :: 0 <= t < |s| ==> s2[t] == if InColumn(y, i, size / y / 2, t) then PairValue(s1, y, w, t) else s1[t]
    ensures forall t :: 0 <= t < |s| ==> s2[t] == if ColumnsBefore(size, y, i + 1, t) then Butterfly(s, y, r, t) else s[t]
  {
    hide Add, Sub, Mul, PairValue, InColumn, Pow;
    forall t | 0 <= t < |s|
      ensures s2[t] == if ColumnsBefore(size, y, i + 1, t) then Butterfly(s, y, r, t) else s[t]
    {
      InColumnIff(size, y, i, t);
      if InColumn(y, i, size / y / 2, t) {
        PairFrame(s, s1, size, y, i, w, t);
      }
    }
  }

  lemma {:induction false} InColumnIff(size: nat, y: nat, i: nat, t: nat)
    requires 1 <= y && size == size / y / 2 * (2 * y)
    ensures InColumn(y, i, size / y / 2, t) <==> t < size && Column(y, t) == i
  {
    var n := size / y / 2;
    var b, q := DivMod(t, 2 * y);
    if b < n {
      MulDistrib(n - b - 1, b + 1, 2 * y);
      MulDistrib(b, 1, 2 * y);
    } else {
      MulDistrib(b - n, n, 2 * y);
    }
  }

  /** The butterfly through a position of column i reads only positions of column i. */
  lemma {:induction false} PairFrame(s: seq<elem>, s1: seq<elem>, size: nat, y: nat, i: nat, w: elem, t: nat)
    requires 1 <= y && |s| == |s1| && Column(y, t) == i
    requires forall u: nat :: u < |s| && Column(y, u) == i ==> s1[u] == s[u]
    ensures PairValue(s1, y, w, t) == PairValue(s, y, w, t)
  {
    hide Add, Sub, Mul;
    var b, q := DivMod(t, 2 * y);
    if q < y {
      DivModUnique(t + y, 2 * y, b, q + y);
    } else {
      DivModUnique(t - y, 2 * y, b, q - y);
    }
  }

  /** `discrete_fourier_transform`. The source panics on size zero and on an empty input of size
      one; every other call is covered, and a failing call leaves the buffer alone. */
  method DiscreteFourierTransform(outp: array<elem>, inp: seq<elem>, size: nat) returns (res: FftResult)
    requires 1 <= size && (size == 1 ==> 1 <= |inp|)
    requires MAX_ROOTS <= WORD
    modifies outp
    ensures res == if size > outp.Length then OutputTooSmall
                   else if size > Exp2(MAX_ROOTS) then SizeTooLarge
                   else if size != Exp2(Log2(size)) then SizeInvalid
                   else Ok
    ensures res.Ok? ==> Log2(size) <= MAX_ROOTS && outp[..size] == DftSeq(inp, Log2(size))
    ensures res.Ok? ==> outp[size..] == old(outp[size..])
    ensures !res.Ok? ==> outp[..] == old(outp[..])
  {
    hide Log2, LevelDone, ReverseBits, DftSeq, Pad;
    var d := Log2(size);
    if size > outp.Length {
      return OutputTooSmall;
    }
    if size > Exp2(MAX_ROOTS) {
      return SizeTooLarge;
    }
    if size != Exp2(d) {
      return SizeInvalid;
    }
    Log2AtMost(size, MAX_ROOTS);
    BitReversedCopy(outp, inp, size, d);
    LevelZero(inp, d, outp[..size]);
    for l := 1 to d + 1
      invariant LevelDone(inp, d, l - 1, outp[..size])
      invariant outp[size..] == old(outp[size..])
    {
      ghost var s := outp[..];
      var y := Exp2(l - 1);
      ChunkCount(size, d, l);
      Level(outp, size, y, Root(l));
      LevelOnPrefix(inp, d, l, s, outp[..]);
    }
    LevelLast(inp, d, outp[..size]);
    return Ok;
  }

  lemma {:induction false} Log2AtMost(size: nat, m: nat)
    requires 1 <= size <= Exp2(m)
    ensures Log2(size) <= m
  {
    hide FloorLog2, Exp2;
    if Log2(size) > m {
      Exp2Monotone(m, Log2(size) - 1);
    }
  }

  lemma {:induction false} ChunkCount(size: nat, d: nat, l: nat)
    requires 1 <= l <= d && size == Exp2(d)
    ensures Exp2(l - 1) >= 1 && size == size / Exp2(l - 1) / 2 * (2 * Exp2(l - 1))
  {
    Exp2Positive(l - 1);
    Exp2Add(d - l, l);
    var y, n := Exp2(l - 1), Exp2(d - l);
    MulDoubleOdd(n, y);
    assert size == 2 * n * y + 0;
    DivModUnique(size, y, 2 * n, 0);
  }

  lemma {:induction false} LevelOnPrefix(x: seq<elem>, d: nat, l: nat, s: seq<elem>, s': seq<elem>)
    requires 1 <= l <= d <= MAX_ROOTS && Exp2(l - 1) >= 1
    requires Exp2(d) <= |s| == |s'|
    requires LevelDone(x, d, l - 1, s[..Exp2(d)])
    requires forall t :: 0 <= t < Exp2(d) ==> s'[t] == Butterfly(s, Exp2(l - 1), Root(l), t)
    ensures LevelDone(x, d, l, s'[..Exp2(d)])
  {
    hide LevelDone, Pow, Exp2;
    var n, y := Exp2(d), Exp2(l - 1);
    forall t | 0 <= t < n ensures Butterfly(s, y, Root(l), t) == Butterfly(s[..n], y, Root(l), t) {
      BlockOf(y, t, d, l);
    }
    assert |s[..n]| == |s'[..n]| == n;
    LevelStep(x, d, l, s[..n], s'[..n]);
  }

  /** The initial copy in bit-reversed order, zero-padding a short input. */
  method BitReversedCopy(outp: array<elem>, inp: seq<elem>, size: nat, d: nat)
    requires size == Exp2(d) <= outp.Length && d <= WORD && (size == 1 ==> 1 <= |inp|)
    modifies outp
    ensures forall t :: 0 <= t < size ==> outp[t] == Pad(inp, ReverseBits(d, t))
    ensures outp[size..] == old(outp[size..])
  {
    hide Exp2;
    if d > 0 {
      for i := 0 to size
        invariant forall t :: 0 <= t < i ==> outp[t] == Pad(inp, ReverseBits(d, t))
        invariant outp[size..] == old(outp[size..])
      {
        var j := BitRev(d, i);
        BitRevIsReverse(d, i);
        outp[i] := if j < |inp| then inp[j] else 0;
      }
    } else {
      Exp2Zero();
      outp[0] := inp[0];
    }
  }

  lemma {:induction false} Exp2Zero()
    ensures Exp2(0) == 1
  {
  }
}
