/** The fixed-point vectors of bounded norm of src/flp/types/fixedpoint_l2.rs: the norm is computed
    without wrapping, exactly the vectors of norm below one can be encoded, and their encodings
    satisfy the validity circuit. Entries are the unsigned integers that encode fixed-point numbers,
    with 2^(n-1) encoding zero. */
module FixedPointL2 {
  import opened Wrappers
  import opened Powers
  import opened Field
  import opened Polynomial
  import opened Gadgets
  import opened FlpTypes
  import opened FlpCompleteness
  import opened FlpSoundness
  import opened Bitvector

  /** What `new` accepts, for entries of n bits: the sum of all squares fits in the field. */
  predicate Accepts(entries: nat, n: nat) {
    2 <= n && ValidIntegerBitlength(n) && ValidIntegerBitlength(2 * n - 2) && entries * Exp2(2 * n - 2) < P
  }

  predicate InRange(ys: seq<nat>, n: nat) { forall i :: 0 <= i < |ys| ==> ys[i] < Exp2(n) }

  /** The square of the encoded number, scaled to an integer. */
  function Square(y: int, n: nat): int
    requires 1 <= n
  {
    (y - Exp2(n - 1)) * (y - Exp2(n - 1))
  }

  /** The squared norm over the integers. */
  function Norm(ys: seq<nat>, n: nat): int
    requires 1 <= n
  {
    if ys == [] then 0 else Norm(ys[..|ys| - 1], n) + Square(ys[|ys| - 1], n)
  }

  // ------------------------------------------------------------------ no wrap-around

  lemma {:induction false} SquareBound(y: int, h: int)
    requires 0 <= y <= 2 * h
    ensures 0 <= (y - h) * (y - h) <= h * h
  {
    var d := y - h;
    assert d * d >= 0 by { if d < 0 { assert (-d) * (-d) == d * d; } }
    assert h * h - d * d == (h - d) * (h + d);
    assert (h - d) * (h + d) >= 0;
  }

  lemma {:induction false} HalfPowers(n: nat)
    requires 1 <= n
    ensures Exp2(n) == 2 * Exp2(n - 1) && Exp2(2 * n - 2) == Exp2(n - 1) * Exp2(n - 1)
  {
    Exp2Add(n - 1, n - 1);
  }

  /** The norm is at most the bound that `new` checks against the modulus. */
  lemma {:induction false} NormBound(ys: seq<nat>, n: nat)
    requires 1 <= n && InRange(ys, n)
    ensures 0 <= Norm(ys, n) <= |ys| * Exp2(2 * n - 2)
  {
    hide Exp2;
    if ys != [] {
      var m := |ys| - 1;
      NormBound(ys[..m], n);
      HalfPowers(n);
      SquareBound(ys[m], Exp2(n - 1));
      NextMultipleOf(m, Exp2(2 * n - 2));
    }
  }

  lemma {:induction false} NextMultipleOf(m: nat, k: nat)
    ensures (m + 1) * k == m * k + k
  {
  }

  /** The norm is its own residue. */
  lemma {:induction false} NormFits(ys: seq<nat>, n: nat)
    requires Accepts(|ys|, n) && InRange(ys, n)
    ensures 0 <= Norm(ys, n) < P && Mod(Norm(ys, n)) == Norm(ys, n)
  {
    hide Exp2, Norm, Mod;
    NormBound(ys, n);
    ModId(Norm(ys, n));
  }

  // ------------------------------------------------------------------ the summand

  /** The polynomial 2^(2n-2) - 2^n y + y^2. */
  function NormPoly(n: nat): seq<elem>
    requires 1 <= n
  {
    [Mod(Exp2(2 * n - 2)), Neg(Mod(Exp2(n))), 1]
  }

  lemma {:induction false} SquareExpanded(y: int, n: nat)
    requires 1 <= n
    ensures Square(y, n) == y * y + Exp2(2 * n - 2) - Exp2(n) * y
  {
    HalfPowers(n);
    hide Exp2;
    ExpandSquare(y, Exp2(n - 1));
    assert 2 * Exp2(n - 1) * y == Exp2(n) * y;
  }

  lemma {:induction false} ExpandSquare(y: int, h: int)
    ensures (y - h) * (y - h) == y * y + h * h - 2 * h * y
  {
  }

  /** The summand computed in the field. */
  function Summand(y: elem, n: nat): elem
    requires 1 <= n
  {
    Sub(Add(Mul(y, y), Mod(Exp2(2 * n - 2))), Mul(Mod(Exp2(n)), y))
  }

  lemma {:induction false} SummandIs(y: nat, n: nat)
    requires 1 <= n
    ensures Summand(Mod(y), n) == Mod(Square(y, n))
  {
    hide Mod, Add, Sub, Mul, Exp2;
    var a, b := Exp2(2 * n - 2), Exp2(n);
    ModMul(y, y);
    ModAdd(y * y, a);
    ModMul(b, y);
    ModSub(y * y + a, b * y);
    SquareExpanded(y, n);
  }

  /** The gadget polynomial computes the same summand. */
  lemma {:induction false} NormPolyValue(y: elem, n: nat)
    requires 1 <= n
    ensures Eval(NormPoly(n), y) == Summand(y, n)
  {
    hide Mod, Add, Sub, Mul, Neg, Exp2;
    var p, a, b := NormPoly(n), Mod(Exp2(2 * n - 2)), Mod(Exp2(n));
    assert p[1..][1..] == [1] && [1][1..] == [];
    assert Eval([1], y) == Add(1, Mul(y, Eval([], y)));
    MulZero(y);
    AddZero(1);
    assert Eval(p[1..], y) == Add(Neg(b), Mul(y, Eval([1], y)));
    MulOne(y);
    calc {
      Eval(p, y);
      Add(a, Mul(y, Add(Neg(b), y)));
      { Distrib(y, Neg(b), y); MulNeg(y, b); MulComm(y, b); }
      Add(a, Add(Neg(Mul(b, y)), Mul(y, y)));
      { AddComm(Neg(Mul(b, y)), Mul(y, y)); AddAssoc(a, Mul(y, y), Neg(Mul(b, y))); AddComm(a, Mul(y, y)); }
      Add(Add(Mul(y, y), a), Neg(Mul(b, y)));
      { SubIsAddNeg(Add(Mul(y, y), a), Mul(b, y)); }
      Summand(y, n);
    }
  }

  /** `compute_norm_of_entries`: the residue of the integer norm. */
  method ComputeNorm(entries: seq<elem>, n: nat, ghost ys: seq<nat>) returns (norm: elem)
    requires 1 <= n && |entries| == |ys| && forall i :: 0 <= i < |ys| ==> entries[i] == Mod(ys[i])
    ensures norm == Mod(Norm(ys, n))
  {
    hide Mod, Add, Summand, Exp2, Square;
    norm := 0;
    ModId(0);
    for i := 0 to |entries|
      invariant norm == Mod(Norm(ys[..i], n))
    {
      assert ys[..i + 1][..i] == ys[..i];
      SummandIs(ys[i], n);
      ModAdd(Norm(ys[..i], n), Square(ys[i], n));
      norm := Add(norm, Summand(entries[i], n));
    }
    assert ys[..|ys|] == ys;
  }

  // ------------------------------------------------------------------ encoding

  datatype EncodeError = UnexpectedLength | Bits(e: BitvectorError)

  /** The bits of all entries. */
  function EntryBits(ys: seq<nat>, n: nat): seq<elem> {
    if ys == [] then [] else Bitvector.Bits(ys[0], n) + EntryBits(ys[1..], n)
  }

  function Encoding(ys: seq<nat>, n: nat): seq<elem>
    requires 1 <= n && 0 <= Norm(ys, n)
  {
    EntryBits(ys, n) + Bitvector.Bits(Norm(ys, n), 2 * n - 2)
  }

  /** `encode_measurement`: succeeds exactly when the squared norm is below 2^(2n-2), that is when the
      encoded vector has norm below one. */
  method EncodeMeasurement(ys: seq<nat>, entries: nat, n: nat) returns (res: Result<seq<elem>, EncodeError>)
    requires Accepts(entries, n) && InRange(ys, n)
    ensures |ys| != entries ==> res == Failure(UnexpectedLength)
    ensures |ys| == entries ==> 0 <= Norm(ys, n)
    ensures |ys| == entries ==>
              res == if Norm(ys, n) < Exp2(2 * n - 2) then Success(Encoding(ys, n)) else Failure(EncodeError.Bits(InputSizeMismatch))
  {
    hide Exp2, Norm, Mod, Bitvector.Bits;
    if |ys| != entries {
      return Failure(UnexpectedLength);
    }
    var encoded: seq<elem> := [];
    assert ys[0..] == ys;
    for i := 0 to |ys|
      invariant encoded + EntryBits(ys[i..], n) == EntryBits(ys, n)
    {
      var bits := EncodeAsBitvector(ys[i], n);
      assert ys[i..][1..] == ys[i + 1..];
      encoded := encoded + bits.value;
    }
    assert encoded == EntryBits(ys, n);
    var field := seq(|ys|, i requires 0 <= i < |ys| => Mod(ys[i]));
    var norm := ComputeNorm(field, n, ys);
    NormFits(ys, n);
    var bits := EncodeAsBitvector(norm, 2 * n - 2);
    if bits.Failure? {
      return Failure(EncodeError.Bits(bits.error));
    }
    return Success(encoded + bits.value);
  }

  // ------------------------------------------------------------------ the circuit

  /** The summing gadget for norms, with chunks of the given length. */
  function NormGadget(n: nat, chunk: nat, calls: nat): Gadget
    requires 1 <= n
  {
    ParallelSum(PolyEvalGadget(NormPoly(n), calls), chunk)
  }

  /** A chunk, extended to full length with the encoding of zero. */
  function PadChunk(v: seq<elem>, chunk: nat, n: nat): (r: seq<elem>)
    requires 1 <= n && |v| <= chunk
    ensures |r| == chunk
  {
    v + seq(chunk - |v|, _ => Mod(Exp2(n - 1)))
  }

  /** The norm of the decoded entries, one gadget call for every chunk. */
  function ChunkedNorm(v: seq<elem>, n: nat, chunk: nat, calls: nat): elem
    requires 1 <= n && 1 <= chunk
    decreases |v|
  {
    if v == [] then 0
    else if |v| <= chunk then GadgetCall(PadChunk(v, chunk, n), n, chunk, calls)
    else Add(GadgetCall(v[..chunk], n, chunk, calls), ChunkedNorm(v[chunk..], n, chunk, calls))
  }

  function GadgetCall(v: seq<elem>, n: nat, chunk: nat, calls: nat): elem
    requires 1 <= n && |v| == chunk
  {
    assert chunk * 1 == chunk;
    NormGadget(n, chunk, calls).Call(v)
  }

  /** The entries decoded from their bits. */
  function DecodedEntries(x: seq<elem>, n: nat, d: nat): (v: seq<elem>)
    requires 1 <= n && n * d <= |x|
    ensures |v| == d
  {
    if d == 0 then []
    else
      NextChunk(n, d);
      [Eval(x[..n], Mod(2))] + DecodedEntries(x[n..], n, d - 1)
  }

  lemma {:induction false} NextChunk(n: nat, d: nat)
    requires d >= 1
    ensures n * d == n + n * (d - 1) && 0 <= n * (d - 1)
  {
  }

  /** `valid` on the true gadgets: a random combination of the range checks of all bits and of the
      comparison of the computed with the submitted norm. */
  function ValidValue(x: seq<elem>, d: nat, n: nat, chunk0: nat, chunk1: nat, calls: nat, jr: (elem, elem)): elem
    requires 2 <= n && 1 <= chunk0 && 1 <= chunk1 && n * d <= |x| && 1 <= |x|
  {
    var rangeCheck := CircuitValue(SumVec(|x|, 1, chunk0), x, [jr.0]);
    var computed := ChunkedNorm(DecodedEntries(x, n, d), n, chunk1, calls);
    var submitted := Eval(x[n * d..], Mod(2));
    Add(Mul(jr.1, rangeCheck), Mul(Mul(jr.1, jr.1), Sub(computed, submitted)))
  }

  /** One gadget call adds up the summands of its chunk. */
  lemma {:induction false} CallIsNorm(v: seq<elem>, ys: seq<nat>, n: nat, chunk: nat, calls: nat)
    requires 1 <= n && |v| == |ys| == chunk && forall i :: 0 <= i < chunk ==> v[i] == Mod(ys[i])
    ensures chunk * 1 == chunk && CallChunks(PolyEvalGadget(NormPoly(n), calls), chunk, v) == Mod(Norm(ys, n))
  {
    hide Mod, Add, Exp2, Square, Eval, NormPoly, Summand;
    var g := PolyEvalGadget(NormPoly(n), calls);
    if chunk == 0 {
      ModId(0);
    } else {
      var m := chunk - 1;
      assert Cut(g, chunk) == m && v[m..] == [v[m]];
      CallIsNorm(v[..m], ys[..m], n, m, calls);
      NormPolyValue(v[m], n);
      SummandIs(ys[m], n);
      ModAdd(Norm(ys[..m], n), Square(ys[m], n));
    }
  }

  /** Padding with encoded zeros does not change the norm. */
  lemma {:induction false} NormPadded(ys: seq<nat>, n: nat, k: nat)
    requires 1 <= n
    ensures Norm(ys + seq(k, _ => Exp2(n - 1)), n) == Norm(ys, n)
  {
    hide Exp2;
    var zero: nat := Exp2(n - 1);
    if k == 0 {
      assert ys + seq(0, _ => Exp2(n - 1)) == ys;
    } else {
      NormPadded(ys, n, k - 1);
      var all := ys + seq(k, _ => Exp2(n - 1));
      assert all[..|all| - 1] == ys + seq(k - 1, _ => Exp2(n - 1)) && all[|all| - 1] == zero;
      assert (zero - zero) * (zero - zero) == 0;
    }
  }

  lemma {:induction false} NormConcat(a: seq<nat>, b: seq<nat>, n: nat)
    requires 1 <= n
    ensures Norm(a + b, n) == Norm(a, n) + Norm(b, n)
  {
    hide Square;
    if b == [] {
      assert a + b == a;
    } else {
      var m := |b| - 1;
      NormConcat(a, b[..m], n);
      assert (a + b)[..|a| + m] == a + b[..m];
    }
  }

  lemma {:induction false} NormEmpty(ys: seq<nat>, n: nat)
    requires 1 <= n && ys == []
    ensures Norm(ys, n) == 0
  {
  }

  /** The chunked computation gives the norm, whatever the chunk length. */
  lemma {:induction false} ChunkedNormIs(v: seq<elem>, ys: seq<nat>, n: nat, chunk: nat, calls: nat)
    requires 1 <= n && 1 <= chunk && |v| == |ys| && forall i :: 0 <= i < |v| ==> v[i] == Mod(ys[i])
    ensures ChunkedNorm(v, n, chunk, calls) == Mod(Norm(ys, n))
    decreases |v|
  {
    hide Mod, Add, Exp2, Norm, CallChunks;
    if v == [] {
      ModId(0);
      NormEmpty(ys, n);
    } else if |v| <= chunk {
      var k := chunk - |v|;
      var zs := ys + seq(k, _ => Exp2(n - 1));
      NormPadded(ys, n, k);
      CallIsNorm(PadChunk(v, chunk, n), zs, n, chunk, calls);
    } else {
      CallIsNorm(v[..chunk], ys[..chunk], n, chunk, calls);
      ChunkedNormIs(v[chunk..], ys[chunk..], n, chunk, calls);
      NormConcat(ys[..chunk], ys[chunk..], n);
      assert ys == ys[..chunk] + ys[chunk..];
      ModAdd(Norm(ys[..chunk], n), Norm(ys[chunk..], n));
    }
  }

  lemma {:induction false} EntryBitsLength(ys: seq<nat>, n: nat)
    ensures |EntryBits(ys, n)| == n * |ys| && forall i :: 0 <= i < |EntryBits(ys, n)| ==> IsBit(EntryBits(ys, n)[i])
  {
    hide Bitvector.Bits;
    if ys != [] {
      EntryBitsLength(ys[1..], n);
      NextChunk(n, |ys|);
    } else {
      assert n * 0 == 0;
    }
  }

  lemma {:induction false} DecodesEntries(ys: seq<nat>, n: nat, tail: seq<elem>)
    requires 1 <= n && InRange(ys, n)
    ensures n * |ys| <= |EntryBits(ys, n) + tail|
    ensures DecodedEntries(EntryBits(ys, n) + tail, n, |ys|) == seq(|ys|, i requires 0 <= i < |ys| => Mod(ys[i]))
  {
    hide Mod, Eval, Exp2, Bitvector.Bits;
    EntryBitsLength(ys, n);
    if ys != [] {
      var x := EntryBits(ys, n) + tail;
      assert x[..n] == Bitvector.Bits(ys[0], n) && x[n..] == EntryBits(ys[1..], n) + tail;
      DecodeBits(ys[0], n);
      DecodesEntries(ys[1..], n, tail);
    }
  }

  /** The encoding of every vector of norm below one makes the circuit vanish, for all joint
      randomness and all chunk lengths, padded last chunks included. */
  lemma {:induction false} HonestVanishes(ys: seq<nat>, n: nat, chunk0: nat, chunk1: nat, calls: nat, jr: (elem, elem))
    requires Accepts(|ys|, n) && InRange(ys, n) && 1 <= chunk0 && 1 <= chunk1
    requires 0 <= Norm(ys, n) < Exp2(2 * n - 2)
    ensures n * |ys| <= |Encoding(ys, n)| && 1 <= |Encoding(ys, n)|
    ensures ValidValue(Encoding(ys, n), |ys|, n, chunk0, chunk1, calls, jr) == 0
  {
    hide Mod, Add, Sub, Mul, Eval, Exp2, Norm, CircuitValue, ChunkedNorm, DecodedEntries, EntryBits, Bitvector.Bits;
    var x, tail := Encoding(ys, n), Bitvector.Bits(Norm(ys, n), 2 * n - 2);
    EntryBitsLength(ys, n);
    BitsVanish(x, chunk0, jr.0);
    DecodesEntries(ys, n, tail);
    ChunkedNormIs(DecodedEntries(x, n, |ys|), ys, n, chunk1, calls);
    DecodeBits(Norm(ys, n), 2 * n - 2);
    assert x[n * |ys|..] == tail;
    SubSelf(Mod(Norm(ys, n)));
    MulZero(jr.1);
    MulZero(Mul(jr.1, jr.1));
    AddZero(0);
  }

  lemma {:induction false} BitsVanish(x: seq<elem>, chunk: nat, r: elem)
    requires 1 <= |x| && 1 <= chunk && forall i :: 0 <= i < |x| ==> IsBit(x[i])
    ensures CircuitValue(SumVec(|x|, 1, chunk), x, [r]) == 0
  {
    var t := SumVec(|x|, 1, chunk);
    assert t.InputLen() == 1 * |x| == |x|;
    assert ValidInput(t, x);
    hide CircuitValue;
    ValidVanishes(t, x, [r]);
  }

  // ------------------------------------------------------------------ soundness of the norm check

  /** Every vector of bits is the decomposition of a number. */
  lemma {:induction false} BitsOnto(b: seq<elem>) returns (m: nat)
    requires forall i :: 0 <= i < |b| ==> IsBit(b[i])
    ensures m < Exp2(|b|) && Bitvector.Bits(m, |b|) == b
  {
    if b == [] {
      m := 0;
    } else {
      var h := BitsOnto(b[1..]);
      m := b[0] + 2 * h;
      assert b == [b[0]] + b[1..];
    }
  }

  lemma {:induction false} EntriesOnto(x: seq<elem>, n: nat, d: nat) returns (ys: seq<nat>)
    requires 1 <= n && |x| == n * d && forall i :: 0 <= i < |x| ==> IsBit(x[i])
    ensures |ys| == d && InRange(ys, n) && EntryBits(ys, n) == x
  {
    hide Exp2, Bitvector.Bits;
    if d == 0 {
      assert n * 0 == 0;
      ys := [];
    } else {
      NextChunk(n, d);
      var first := BitsOnto(x[..n]);
      var rest := EntriesOnto(x[n..], n, d - 1);
      ys := [first] + rest;
      assert ys[1..] == rest && x == x[..n] + x[n..];
    }
  }

  /** Bits that pass the norm check are the encoding of a vector of norm below one: because the sum of
      squares cannot wrap around, equality in the field is equality of integers. */
  lemma {:induction false} NormCheckSound(x: seq<elem>, d: nat, n: nat, chunk: nat, calls: nat) returns (ys: seq<nat>)
    requires Accepts(d, n) && 1 <= chunk && |x| == n * d + (2 * n - 2) && forall i :: 0 <= i < |x| ==> IsBit(x[i])
    requires Sub(ChunkedNorm(DecodedEntries(x, n, d), n, chunk, calls), Eval(x[n * d..], Mod(2))) == 0
    ensures |ys| == d && InRange(ys, n) && 0 <= Norm(ys, n) < Exp2(2 * n - 2) && x == Encoding(ys, n)
  {
    hide Mod, Sub, Eval, Exp2, Norm, ChunkedNorm, DecodedEntries, EntryBits, Bitvector.Bits, InRange, Encoding, Accepts;
    SmallPowers(d, n);
    assert 0 <= n * d;
    var head, tail := x[..n * d], x[n * d..];
    assert x == head + tail;
    ys := EntriesOnto(head, n, d);
    var m := BitsOnto(tail);
    DecodesEntries(ys, n, tail);
    ChunkedNormIs(DecodedEntries(x, n, d), ys, n, chunk, calls);
    DecodeBits(m, 2 * n - 2);
    NormFits(ys, n);
    ModId(m);
    SubZeroEq(Norm(ys, n), m);
    EncodingIs(ys, n);
  }

  lemma {:induction false} SmallPowers(d: nat, n: nat)
    requires Accepts(d, n)
    ensures 1 <= n && Exp2(2 * n - 2) <= P
  {
    hide Exp2;
  }

  lemma {:induction false} EncodingIs(ys: seq<nat>, n: nat)
    requires 1 <= n && 0 <= Norm(ys, n)
    ensures Encoding(ys, n) == EntryBits(ys, n) + Bitvector.Bits(Norm(ys, n), 2 * n - 2)
  {
  }

  // ------------------------------------------------------------------ what the circuit computes

  /** The circuit, for any input: the weighted sum of the bit checks of all bits, times the second joint
      randomness value, plus the integer norm of the decoded entries minus the submitted norm, times its
      square. */
  lemma {:induction false} FixedPointCircuit(x: seq<elem>, d: nat, n: nat, chunk0: nat, chunk1: nat, calls: nat, jr: (elem, elem))
    requires 2 <= n && 1 <= chunk0 && 1 <= chunk1 && n * d <= |x| && 1 <= |x|
    ensures ValidValue(x, d, n, chunk0, chunk1, calls, jr)
         == Add(Mul(jr.1, Weighted(BitChecks(x), jr.0)),
                Mul(Mul(jr.1, jr.1), Sub(Mod(Norm(DecodedEntries(x, n, d), n)), Eval(x[n * d..], Mod(2)))))
  {
    var v, t := DecodedEntries(x, n, d), SumVec(|x|, 1, chunk0);
    assert t.InputLen() == 1 * |x| == |x|;
    hide Mod, Add, Sub, Mul, Eval, Exp2, Norm, CircuitValue, ChunkedNorm, DecodedEntries, Weighted, FlpType.InputLen;
    SumVecCircuit(t, x, [jr.0]);
    forall i | 0 <= i < |v| ensures v[i] == Mod(v[i]) {
      ModId(v[i]);
    }
    ChunkedNormIs(v, v, n, chunk1, calls);
  }

  /** Soundness: if the circuit vanishes for more first joint randomness values than there are bits, each with
      two nonzero second values, the input is the encoding of a vector of norm below one. */
  lemma {:induction false} FixedPointSoundness(x: seq<elem>, d: nat, n: nat, chunk0: nat, chunk1: nat, calls: nat, js: seq<elem>, a: elem, b: elem)
    returns (ys: seq<nat>)
    requires Accepts(d, n) && 1 <= chunk0 && 1 <= chunk1 && |x| == n * d + (2 * n - 2) && 1 <= |x| && n * d <= |x|
    requires Distinct(js) && |js| > |x| && a != b && a != 0 && b != 0
    requires forall i :: 0 <= i < |js| ==>
               && ValidValue(x, d, n, chunk0, chunk1, calls, (js[i], a)) == 0
               && ValidValue(x, d, n, chunk0, chunk1, calls, (js[i], b)) == 0
    ensures |ys| == d && InRange(ys, n) && 0 <= Norm(ys, n) < Exp2(2 * n - 2) && x == Encoding(ys, n)
  {
    hide Mod, Add, Sub, Mul, Eval, Exp2, Norm, ChunkedNorm, DecodedEntries, Weighted, ValidValue, InRange, Encoding, ValidIntegerBitlength;
    var v, submitted := DecodedEntries(x, n, d), Eval(x[n * d..], Mod(2));
    var e := Sub(Mod(Norm(v, n)), submitted);
    forall i | 0 <= i < |js| ensures Weighted(BitChecks(x), js[i]) == 0 && e == 0 {
      FixedPointCircuit(x, d, n, chunk0, chunk1, calls, (js[i], a));
      FixedPointCircuit(x, d, n, chunk0, chunk1, calls, (js[i], b));
      TwoPoints(Weighted(BitChecks(x), js[i]), e, a, b);
    }
    WeightedSoundness(x, js);
    assert 0 < |js| && Weighted(BitChecks(x), js[0]) == 0;
    forall i | 0 <= i < |v| ensures v[i] == Mod(v[i]) {
      ModId(v[i]);
    }
    ChunkedNormIs(v, v, n, chunk1, calls);
    ys := NormCheckSound(x, d, n, chunk1, calls);
  }
}
