/** Integers as vectors of field elements (src/field.rs): the bit decomposition of a measurement and
    its linear inverse. */
module Bitvector {
  import opened Wrappers
  import opened Congruence
  import opened Powers
  import opened Field
  import opened Polynomial
  import opened FlpTypes
  import opened MontgomeryDomain

  datatype BitvectorError = BitVectorTooLong | InputSizeMismatch

  /** The bits of m, least significant first. */
  function Bits(m: nat, bits: nat): (x: seq<elem>)
    ensures |x| == bits && forall i :: 0 <= i < bits ==> x[i] == 0 || x[i] == 1
  {
    if bits == 0 then [] else [m % 2] + Bits(m / 2, bits - 1)
  }

  /** `encode_as_bitvector`: bit i is the low bit of the input shifted right by i. */
  method EncodeAsBitvector(input: nat, bits: nat) returns (res: Result<seq<elem>, BitvectorError>)
    ensures res == if !ValidIntegerBitlength(bits) then Failure(BitVectorTooLong)
                   else if input >= Exp2(bits) then Failure(InputSizeMismatch)
                   else Success(Bits(input, bits))
  {
    hide Exp2, ShiftRight, Bits;
    if !ValidIntegerBitlength(bits) {
      return Failure(BitVectorTooLong);
    }
    ShiftedOutIff(input, bits);
    if ShiftRight(input, bits) != 0 {
      return Failure(InputSizeMismatch);
    }
    var out: seq<elem> := [];
    ShiftEnds(input);
    for i := 0 to bits
      invariant out + Bits(ShiftRight(input, i), bits - i) == Bits(input, bits)
    {
      ShiftStep(input, i);
      BitsStep(ShiftRight(input, i), bits - i);
      out := out + [ShiftRight(input, i) % 2];
    }
    assert out + Bits(ShiftRight(input, bits), 0) == out;
    return Success(out);
  }

  lemma {:induction false} BitsStep(m: nat, bits: nat)
    requires bits > 0
    ensures Bits(m, bits) == [m % 2] + Bits(m / 2, bits - 1)
  {
  }

  lemma {:induction false} ShiftedOutIff(x: nat, n: nat)
    ensures ShiftRight(x, n) != 0 <==> x >= Exp2(n)
  {
    var d := Exp2(n);
    Exp2Positive(n);
    var q := x / d;
    assert x == q * d + x % d;
    Quotient(x, d, q);
  }

  lemma {:induction false} Quotient(x: int, d: int, q: int)
    requires 0 <= x && 0 < d && x == q * d + x % d
    ensures q != 0 <==> x >= d
  {
    Multiples(d, q);
  }

  /** `decode_bitvector`: the inner product with successive powers of two, that is the polynomial
      with these coefficients evaluated at two. */
  method DecodeBitvector(input: seq<elem>) returns (res: Result<elem, BitvectorError>)
    ensures res == if !ValidIntegerBitlength(|input|) then Failure(BitVectorTooLong)
                   else Success(Eval(input, Mod(2)))
  {
    hide Exp2, Add, Mul, Mod, Eval;
    if !ValidIntegerBitlength(|input|) {
      return Failure(BitVectorTooLong);
    }
    var decoded: elem := 0;
    var two := Mod(2);
    var power: elem := 1;
    assert input[..0] == [];
    EvalNil(two);
    for i := 0 to |input|
      invariant power == Pow(two, i) && decoded == Eval(input[..i], two)
    {
      decoded := Add(decoded, Mul(input[i], power));
      assert input[..i + 1] == input[..i] + [input[i]];
      EvalAppend(input[..i], input[i], two);
      MulComm(power, two);
      power := Mul(power, two);
    }
    assert input[..|input|] == input;
    return Success(decoded);
  }

  /** Decoding the bits of a number gives the number. */
  lemma {:induction false} DecodeBits(m: nat, bits: nat)
    requires m < Exp2(bits)
    ensures Eval(Bits(m, bits), Mod(2)) == Mod(m)
  {
    hide Mul, Add, Mod;
    if bits == 0 {
      ModId(0);
    } else {
      var h, b := m / 2, m % 2;
      var x := Bits(m, bits);
      assert x[1..] == Bits(h, bits - 1) && x[0] == b;
      DecodeBits(h, bits - 1);
      ModId(b);
      ModMul(2, h);
      ModAdd(b, 2 * h);
      assert m == b + 2 * h;
    }
  }
}
