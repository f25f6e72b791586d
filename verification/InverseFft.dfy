/** Inversion of the discrete Fourier transform: orthogonality of the characters, the two inversion
    theorems, and the in-place finishing step of src/fft.rs. */
module InverseFft {
  import opened Field
  import opened Powers
  import opened Sums
  import opened Fft

  // ------------------------------------------------------------------ orthogonality

  function Character(l: nat, e: nat, m: int): elem
    requires l <= MAX_ROOTS
  {
    if m < 0 then 0 else Pow(Root(l), e * m)
  }

  /** The sum over m < 2^l of root(l)^(e*m) is 2^l when 2^l divides e, and zero otherwise. */
  lemma {:induction false} Orthogonality(l: nat, e: nat)
    requires l <= MAX_ROOTS
    ensures Exp2(l) >= 1
    ensures Sum(Exp2(l), m => Character(l, e, m)) == if e % Exp2(l) == 0 then Mod(Exp2(l)) else 0
  {
    hide Add, Mul, Mod;
    Exp2Positive(l);
    var f: int -> elem := m => Character(l, e, m);
    SumExt(Exp2(l), f, m => Character(l, e, m));
    if l == 0 {
      assert Sum(1, f) == Add(Sum(0, f), f(0));
      assert f(0) == 1;
      AddZero(1);
      ModId(1);
    } else {
      var y, c, l': nat := Exp2(l - 1), Pow(Root(l), e), l - 1;
      var g: int -> elem := m => Character(l', e, m);
      forall m: nat ensures f(2 * m) == g(m) && f(2 * m + 1) == Mul(c, g(m)) {
        CharacterSplit(l, e, m);
      }
      SumTwiddle(y, f, g, g, c);
      Orthogonality(l', e);
      SumExt(y, g, m => Character(l', e, m));
      OrthogonalityStep(l, e, Sum(y, g));
    }
  }

  lemma {:induction false} CharacterSplit(l: nat, e: nat, m: nat)
    requires 1 <= l <= MAX_ROOTS
    ensures Character(l, e, 2 * m) == Character(l - 1, e, m)
    ensures Character(l, e, 2 * m + 1) == Mul(Pow(Root(l), e), Character(l - 1, e, m))
  {
    hide Mul, Pow;
    MulDoubleOdd(e, m);
    RootSquare(l, e * m);
    PowAdd(Root(l), e, 2 * (e * m));
  }

  /** S + root(l)^e * S, where S is the character sum one level down. */
  lemma {:induction false} OrthogonalityStep(l: nat, e: nat, s: elem)
    requires 1 <= l <= MAX_ROOTS && Exp2(l) >= 1 && Exp2(l - 1) >= 1
    requires s == if e % Exp2(l - 1) == 0 then Mod(Exp2(l - 1)) else 0
    ensures Add(s, Mul(Pow(Root(l), e), s)) == if e % Exp2(l) == 0 then Mod(Exp2(l)) else 0
  {
    hide Pow, Mul, Add, Mod;
    var y := Exp2(l - 1);
    var c, q := DivMod(e, y);
    assert Exp2(l) == 2 * y;
    hide Exp2;
    ParityOfQuotient(e, y, c, q);
    if q != 0 {
      MulZero(Pow(Root(l), e));
      AddZero(0);
    } else {
      PowPow(Root(l), y, c);
      assert y * c == c * y;
      RootHalf(l);
      NegOnePow(c);
      if c % 2 == 0 {
        MulOne(s);
        ModAdd(y, y);
      } else {
        MulNeg(1, s);
        MulOne(s);
        SubIsAddNeg(s, s);
        SubSelf(s);
      }
    }
  }

  lemma {:induction false} ParityOfQuotient(e: int, y: int, c: int, q: int)
    requires 1 <= y && 0 <= q < y && e == c * y + q && 0 <= c
    ensures e % (2 * y) == 0 <==> q == 0 && c % 2 == 0
  {
    var h := c / 2;
    MulDoubleOdd(y, h);
    if c % 2 == 0 {
      assert c == 2 * h;
      assert e == h * (2 * y) + q;
      DivModUnique(e, 2 * y, h, q);
    } else {
      assert c == 2 * h + 1;
      assert e == h * (2 * y) + (q + y);
      DivModUnique(e, 2 * y, h, q + y);
    }
  }

  lemma {:induction false} NegOnePow(c: nat)
    ensures Pow(Neg(1), c) == if c % 2 == 0 then 1 else Neg(1)
  {
    hide Mul, Sub, Neg;
    if c > 0 {
      NegOnePow(c - 1);
      MulNeg(1, 1);
      MulNeg(1, Neg(1));
      MulOne(1);
      MulOne(Neg(1));
      NegNeg(1);
    }
  }

  lemma {:induction false} NegNeg(a: elem)
    ensures Neg(Neg(a)) == a
  {
    ModId(a);
    ModId(0);
    ModSub(0, 0 - a);
  }

  // ------------------------------------------------------------------ inversion

  function Reflect(n: nat, i: nat): nat
    requires 1 <= n && i < n
  {
    (n - i) % n
  }

  /** The inverse transform, written as `discrete_fourier_transform_inv_finish` leaves it. */
  ghost function InvDftSeq(y: seq<elem>, l: nat): (r: seq<elem>)
    requires l <= MAX_ROOTS
    ensures |r| == Exp2(l)
  {
    Exp2Positive(l);
    seq(Exp2(l), i requires 0 <= i < Exp2(l) => Mul(Inv(Mod(Exp2(l))), Dft(y, l, Reflect(Exp2(l), i))))
  }

  /** `x` cut or zero-padded to length n. */
  function PadTo(x: seq<elem>, n: nat): (r: seq<elem>)
    ensures |r| == n
  {
    seq(n, i requires 0 <= i < n => Pad(x, i))
  }

  lemma {:induction false} TwoPowerUnit(l: nat)
    ensures Mod(Exp2(l)) != 0
  {
    hide Mul, Mod;
    ModId(1);
    ModId(2);
    if l > 0 {
      TwoPowerUnit(l - 1);
      ModMul(2, Exp2(l - 1));
      if Mod(Exp2(l)) == 0 {
        MulCancel(2, Mod(Exp2(l - 1)));
      }
    }
  }

  function Inner(z: seq<elem>, l: nat, s: int -> nat, a: nat, b: int): elem
    requires l <= MAX_ROOTS
  {
    Mul(Pad(z, b), Pow(Root(l), s(b) * a))
  }

  function OuterTerm(z: seq<elem>, l: nat, s: int -> nat, t: nat, a: int): elem
    requires l <= MAX_ROOTS
  {
    if a < 0 then 0 else Mul(Sum(Exp2(l), b => Inner(z, l, s, a, b)), Pow(Root(l), t * a))
  }

  function Cell(z: seq<elem>, l: nat, s: int -> nat, t: nat, a: int, b: int): elem
    requires l <= MAX_ROOTS
  {
    Mul(Pad(z, b), Character(l, s(b) + t, a))
  }

  /** Sum over a of (sum over b of z[b] root^(a s(b))) root^(a t) picks out the b with s(b)+t = 0. */
  lemma {:induction false} DoubleTransform(z: seq<elem>, l: nat, s: int -> nat, t: nat, b0: nat)
    requires l <= MAX_ROOTS && b0 < Exp2(l) && Exp2(l) >= 1
    requires forall b :: 0 <= b < Exp2(l) ==> ((s(b) + t) % Exp2(l) == 0 <==> b == b0)
    ensures Sum(Exp2(l), a => OuterTerm(z, l, s, t, a)) == Mul(Mod(Exp2(l)), Pad(z, b0))
  {
    hide Add, Mul, Mod, Inner, OuterTerm, Cell, Exp2, Pow;
    var n := Exp2(l);
    var cell: (int, int) -> elem := (a, b) => Cell(z, l, s, t, a, b);
    forall a | 0 <= a < n ensures OuterTerm(z, l, s, t, a) == Sum(n, b => cell(a, b)) {
      OuterExpand(z, l, s, t, a);
      SumExt(n, b => Cell(z, l, s, t, a, b), b => cell(a, b));
    }
    SumExt(n, a => OuterTerm(z, l, s, t, a), a => Sum(n, b => cell(a, b)));
    SumSwap(n, n, cell);
    var col: int -> elem := b => Sum(n, a => cell(a, b));
    forall b | 0 <= b < n ensures col(b) == if b == b0 then Mul(Mod(n), Pad(z, b0)) else 0 {
      SumExt(n, a => cell(a, b), a => Cell(z, l, s, t, a, b));
      ColumnSum(z, l, s, t, b);
    }
    SumSingle(n, b0, col);
    SumExt(n, col, b => Sum(n, a => cell(a, b)));
  }

  lemma {:induction false} ColumnSum(z: seq<elem>, l: nat, s: int -> nat, t: nat, b: nat)
    requires l <= MAX_ROOTS && Exp2(l) >= 1
    ensures Sum(Exp2(l), a => Cell(z, l, s, t, a, b))
         == if (s(b) + t) % Exp2(l) == 0 then Mul(Mod(Exp2(l)), Pad(z, b)) else 0
  {
    hide Add, Mul, Mod, Character, Exp2;
    var n, c, e := Exp2(l), Pad(z, b), s(b) + t;
    var ch: int -> elem := a => Character(l, e, a);
    SumExt(n, a => Cell(z, l, s, t, a, b), a => Mul(c, ch(a)));
    SumScale(n, c, ch);
    SumExt(n, ch, a => Character(l, e, a));
    Orthogonality(l, e);
    MulZero(c);
    MulComm(c, Mod(n));
  }

  lemma {:induction false} OuterExpand(z: seq<elem>, l: nat, s: int -> nat, t: nat, a: nat)
    requires l <= MAX_ROOTS
    ensures OuterTerm(z, l, s, t, a) == Sum(Exp2(l), b => Cell(z, l, s, t, a, b))
  {
    hide Add, Mul, Pow, Exp2;
    var n, c := Exp2(l), Pow(Root(l), t * a);
    var g: int -> elem := b => Inner(z, l, s, a, b);
    SumExt(n, b => Inner(z, l, s, a, b), g);
    MulComm(Sum(n, g), c);
    SumScale(n, c, g);
    forall b: int ensures Mul(c, g(b)) == Cell(z, l, s, t, a, b) {
      CellExpand(z, l, s, t, a, b);
    }
    SumExt(n, b => Mul(c, g(b)), b => Cell(z, l, s, t, a, b));
  }

  lemma {:induction false} CellExpand(z: seq<elem>, l: nat, s: int -> nat, t: nat, a: nat, b: int)
    requires l <= MAX_ROOTS
    ensures Mul(Pow(Root(l), t * a), Inner(z, l, s, a, b)) == Cell(z, l, s, t, a, b)
  {
    hide Mul, Pow;
    var w, x, u := Root(l), Pad(z, b), s(b);
    MulDistrib(u, t, a);
    calc {
      Mul(Pow(w, t * a), Mul(x, Pow(w, u * a)));
      { MulComm(Pow(w, t * a), Mul(x, Pow(w, u * a))); MulAssoc(x, Pow(w, u * a), Pow(w, t * a)); }
      Mul(x, Mul(Pow(w, u * a), Pow(w, t * a)));
      { PowAdd(w, u * a, t * a); }
      Mul(x, Pow(w, (u + t) * a));
    }
  }

  lemma {:induction false} ReflectSum(n: nat, i: nat, j: nat)
    requires i < n && j < n
    ensures (j + Reflect(n, i)) % n == 0 <==> j == i
  {
    if i == 0 {
      DivModUnique(n, n, 1, 0);
      DivModUnique(j, n, 0, j);
    } else {
      DivModUnique(n - i, n, 0, n - i);
      if j >= i {
        DivModUnique(j + n - i, n, 1, j - i);
      } else {
        DivModUnique(j + n - i, n, 0, j + n - i);
      }
    }
  }

  /** First inversion theorem: the inverse transform undoes the transform. */
  lemma {:induction false} InverseOfDft(x: seq<elem>, l: nat)
    requires l <= MAX_ROOTS
    ensures InvDftSeq(DftSeq(x, l), l) == PadTo(x, Exp2(l))
  {
    hide Mul, Mod, Dft, Pow, Inv, Exp2, Reflect;
    Exp2Positive(l);
    var n, y := Exp2(l), DftSeq(x, l);
    var id: int -> nat := b => if b < 0 then 0 else b;
    forall i | 0 <= i < n ensures Mul(Inv(Mod(n)), Dft(y, l, Reflect(n, i))) == Pad(x, i) {
      var t := Reflect(n, i);
      forall b | 0 <= b < n ensures (id(b) + t) % n == 0 <==> b == i {
        ReflectSum(n, i, b);
      }
      DftOfDft(x, l, t, id);
      DoubleTransform(x, l, id, t, i);
      UnscaleByInverse(l, Pad(x, i));
    }
  }

  lemma {:induction false} UnscaleByInverse(l: nat, c: elem)
    ensures Mul(Inv(Mod(Exp2(l))), Mul(Mod(Exp2(l)), c)) == c
  {
    hide Mul, Mod, Exp2;
    TwoPowerUnit(l);
    var n := Mod(Exp2(l));
    MulAssoc(Inv(n), n, c);
    MulComm(Inv(n), n);
    MulOne(c);
  }

  lemma {:induction false} DftOfDft(x: seq<elem>, l: nat, t: nat, id: int -> nat)
    requires l <= MAX_ROOTS
    requires forall b: nat :: id(b) == b
    ensures Dft(DftSeq(x, l), l, t) == Sum(Exp2(l), a => OuterTerm(x, l, id, t, a))
  {
    hide Add, Mul, Pow, Exp2;
    var n, y := Exp2(l), DftSeq(x, l);
    forall a | 0 <= a < n ensures Term(y, 0, 1, l, t, a) == OuterTerm(x, l, id, t, a) {
      forall b: nat ensures Term(x, 0, 1, l, a, b) == Inner(x, l, id, a, b) {
        assert a * b == b * a;
      }
      SumExt(n, m => Term(x, 0, 1, l, a, m), b => Inner(x, l, id, a, b));
    }
    SumExt(n, m => Term(y, 0, 1, l, t, m), a => OuterTerm(x, l, id, t, a));
  }

  /** Second inversion theorem: the inverse transform interpolates its input. */
  lemma {:induction false} DftOfInverse(y: seq<elem>, l: nat)
    requires l <= MAX_ROOTS
    ensures DftSeq(InvDftSeq(y, l), l) == PadTo(y, Exp2(l))
  {
    hide Mul, Mod, Dft, Pow, Inv, Exp2, Reflect;
    Exp2Positive(l);
    var n, z := Exp2(l), InvDftSeq(y, l);
    var refl: int -> nat := b => if 0 <= b < n then Reflect(n, b) else 0;
    forall k | 0 <= k < n ensures Dft(z, l, k) == Pad(y, k) {
      forall b | 0 <= b < n ensures (refl(b) + k) % n == 0 <==> b == k {
        ReflectSum(n, b, k);
      }
      DftOfInvDft(y, l, k, refl);
      DoubleTransform(y, l, refl, k, k);
      UnscaleByInverse(l, Pad(y, k));
    }
  }

  lemma {:induction false} DftOfInvDft(y: seq<elem>, l: nat, k: nat, refl: int -> nat)
    requires l <= MAX_ROOTS && Exp2(l) >= 1
    requires forall b :: 0 <= b < Exp2(l) ==> refl(b) == Reflect(Exp2(l), b)
    ensures Dft(InvDftSeq(y, l), l, k)
         == Mul(Inv(Mod(Exp2(l))), Sum(Exp2(l), a => OuterTerm(y, l, refl, k, a)))
  {
    hide Add, Mul, Mod, Pow, Exp2, Inv, Reflect, OuterTerm;
    var n, z, c := Exp2(l), InvDftSeq(y, l), Inv(Mod(Exp2(l)));
    var g: int -> elem := a => OuterTerm(y, l, refl, k, a);
    forall a | 0 <= a < n ensures Term(z, 0, 1, l, k, a) == Mul(c, g(a)) {
      InvTerm(y, l, k, refl, a);
    }
    SumExt(n, m => Term(z, 0, 1, l, k, m), a => Mul(c, g(a)));
    SumScale(n, c, g);
    SumExt(n, g, a => OuterTerm(y, l, refl, k, a));
  }

  lemma {:induction false} InvTerm(y: seq<elem>, l: nat, k: nat, refl: int -> nat, a: nat)
    requires l <= MAX_ROOTS && Exp2(l) >= 1 && a < Exp2(l)
    requires forall b :: 0 <= b < Exp2(l) ==> refl(b) == Reflect(Exp2(l), b)
    ensures Term(InvDftSeq(y, l), 0, 1, l, k, a) == Mul(Inv(Mod(Exp2(l))), OuterTerm(y, l, refl, k, a))
  {
    hide Add, Mul, Mod, Pow, Exp2, Inv, Reflect;
    var n, c := Exp2(l), Inv(Mod(Exp2(l)));
    var r := Reflect(n, a);
    forall b | 0 <= b < n ensures Term(y, 0, 1, l, r, b) == Inner(y, l, refl, a, b) {
      ReflectExponent(l, a, b);
    }
    SumExt(n, m => Term(y, 0, 1, l, r, m), b => Inner(y, l, refl, a, b));
    MulAssoc(c, Dft(y, l, r), Pow(Root(l), k * a));
  }

  /** root^((n-a) b) == root^((n-b) a): both invert root^(a b). */
  lemma {:induction false} ReflectExponent(l: nat, a: nat, b: nat)
    requires l <= MAX_ROOTS && a < Exp2(l) && b < Exp2(l)
    ensures Pow(Root(l), Reflect(Exp2(l), a) * b) == Pow(Root(l), Reflect(Exp2(l), b) * a)
  {
    hide Mul, Pow, Exp2, Reflect;
    var w := Root(l);
    ReflectInverse(l, a, b);
    ReflectInverse(l, b, a);
    assert a * b == b * a;
    var u, v, x := Pow(w, a * b), Pow(w, Reflect(Exp2(l), a) * b), Pow(w, Reflect(Exp2(l), b) * a);
    InvUnique(u, v);
    InvUnique(u, x);
  }

  lemma {:induction false} ReflectInverse(l: nat, a: nat, b: nat)
    requires l <= MAX_ROOTS && a < Exp2(l)
    ensures 0 <= a * b && Mul(Pow(Root(l), a * b), Pow(Root(l), Reflect(Exp2(l), a) * b)) == 1
  {
    hide Mul, Pow, Exp2;
    var n, w := Exp2(l), Root(l);
    var r := Reflect(n, a);
    MulDistrib(a, r, b);
    PowAdd(w, a * b, r * b);
    if a == 0 {
      DivModUnique(n, n, 1, 0);
      assert (a + r) * b == 0;
      PowZero(w);
    } else {
      DivModUnique(n - a, n, 0, n - a);
      PowPow(w, n, b);
      RootFull(l);
      PowOne(b);
    }
  }

  lemma {:induction false} PowZero(a: elem)
    ensures Pow(a, 0) == 1
  {
  }

  // ------------------------------------------------------------------ the finishing step

  /** `discrete_fourier_transform_inv_finish`: reverse all but the first element and scale. For
      size one the single element is scaled twice, as in the source. */
  method DiscreteFourierTransformInvFinish(outp: array<elem>, size: nat, sizeInv: elem)
    requires 1 <= size <= outp.Length && (size == 1 || size % 2 == 0)
    modifies outp
    ensures size == 1 ==> outp[0] == Mul(Mul(old(outp[0]), sizeInv), sizeInv)
    ensures size > 1 ==> forall t: nat :: t < size ==> outp[t] == Mul(old(outp[..])[Reflect(size, t)], sizeInv)
    ensures outp[size..] == old(outp[size..])
  {
    hide Mul, Reflect;
    ghost var s := outp[..];
    outp[0] := Mul(outp[0], sizeInv);
    outp[size / 2] := Mul(outp[size / 2], sizeInv);
    ReflectValues(size);
    for i := 1 to (if size == 1 then 1 else size / 2)
      invariant size == 1 ==> outp[0] == Mul(Mul(s[0], sizeInv), sizeInv)
      invariant forall t: nat :: t < size && size > 1 ==>
                  outp[t] == if t < i || t > size - i || t == size / 2 then Mul(s[Reflect(size, t)], sizeInv) else s[t]
      invariant outp[size..] == s[size..]
    {
      var tmp := Mul(outp[i], sizeInv);
      outp[i] := Mul(outp[size - i], sizeInv);
      outp[size - i] := tmp;
    }
  }

  lemma {:induction false} ReflectValues(n: nat)
    requires 1 <= n
    ensures forall t: nat :: t < n ==> Reflect(n, t) == if t == 0 then 0 else n - t
  {
    forall t: nat | t < n ensures Reflect(n, t) == if t == 0 then 0 else n - t {
      if t == 0 {
        DivModUnique(n, n, 1, 0);
      } else {
        DivModUnique(n - t, n, 0, n - t);
      }
    }
  }

  /** A transform followed by the finishing step, the pattern `prove`, `query` and the gadgets use
      to interpolate; `discrete_fourier_transform_inv` packages it for the tests. */
  method InverseTransform(outp: array<elem>, inp: seq<elem>, size: nat, sizeInv: elem) returns (res: FftResult)
    requires 1 <= size && (size == 1 ==> 1 <= |inp|)
    requires MAX_ROOTS <= WORD && sizeInv == Inv(Mod(size))
    modifies outp
    ensures res == if size > outp.Length then OutputTooSmall
                   else if size > Exp2(MAX_ROOTS) then SizeTooLarge
                   else if size != Exp2(Log2(size)) then SizeInvalid
                   else Ok
    ensures res.Ok? ==> Log2(size) <= MAX_ROOTS && outp[..size] == InvDftSeq(inp, Log2(size))
    ensures res.Ok? ==> outp[size..] == old(outp[size..])
    ensures !res.Ok? ==> outp[..] == old(outp[..])
  {
    res := DiscreteFourierTransform(outp, inp, size);
    if res.Ok? {
      hide Inv, Mul, Dft, Mod, Reflect, Log2;
      ghost var l, s := Log2(size), outp[..];
      PowerOfTwoEven(size, l);
      DiscreteFourierTransformInvFinish(outp, size, sizeInv);
      FinishIsInverse(inp, l, s, outp[..]);
    }
  }

  lemma {:induction false} PowerOfTwoEven(size: nat, l: nat)
    requires size == Exp2(l)
    ensures size == 1 || size % 2 == 0
    ensures size == 1 <==> l == 0
  {
    if l > 0 {
      Exp2Positive(l - 1);
      var h := Exp2(l - 1);
      assert size == 2 * h;
      DoubleIsEven(h);
    }
  }

  lemma {:induction false} DoubleIsEven(h: int)
    ensures (2 * h) % 2 == 0
  {
  }

  lemma {:induction false} FinishIsInverse(inp: seq<elem>, l: nat, s: seq<elem>, r: seq<elem>)
    requires l <= MAX_ROOTS && Exp2(l) >= 1 && Exp2(l) <= |s| == |r|
    requires s[..Exp2(l)] == DftSeq(inp, l)
    requires Exp2(l) == 1 ==> r[0] == Mul(Mul(s[0], Inv(Mod(Exp2(l)))), Inv(Mod(Exp2(l))))
    requires Exp2(l) > 1 ==>
               forall t: nat :: t < Exp2(l) ==> r[t] == Mul(s[Reflect(Exp2(l), t)], Inv(Mod(Exp2(l))))
    ensures r[..Exp2(l)] == InvDftSeq(inp, l)
  {
    hide Inv, Mul, Dft, Mod, Reflect, Exp2;
    var n, c, d := Exp2(l), Inv(Mod(Exp2(l))), DftSeq(inp, l);
    ReflectValues(n);
    if n == 1 {
      MulOne(1);
      ModId(1);
      InvUnique(1, 1);
      MulOne(s[0]);
      MulOne(Mul(s[0], c));
    }
    forall t: nat | t < n ensures r[t] == Mul(c, Dft(inp, l, Reflect(n, t))) {
      assert s[Reflect(n, t)] == d[Reflect(n, t)];
      MulComm(s[Reflect(n, t)], c);
    }
  }
}
