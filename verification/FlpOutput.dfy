/** Measurements and aggregate results of src/flp/types.rs: encoding a measurement as a circuit input,
    the linear truncation of an input to an output, and decoding a sum of outputs. */
module FlpOutput {
  import opened Wrappers
  import opened Powers
  import opened Field
  import opened Sums
  import opened Fft
  import opened Polynomial
  import opened Gadgets
  import opened FlpTypes
  import opened FlpCompleteness
  import opened FlpSoundness
  import opened Bitvector

  // ------------------------------------------------------------------ measurements

  /** What the types measure: Count a flag, Sum an integer, SumVec integers, Histogram a bucket. */
  datatype Measurement = Flag(b: bool) | Integer(n: nat) | Integers(ns: seq<nat>) | Bucket(k: nat)

  datatype MeasurementError = BitsFailed(e: BitvectorError) | WrongLength | SummandTooLarge

  /** The measurement has the type's measurement type; `Histogram` indexes its buckets unchecked. */
  predicate Suits(t: FlpType, m: Measurement) {
    match t
    case Count => m.Flag?
    case Sum(_) => m.Integer?
    case SumVec(_, _, _) => m.Integers?
    case Histogram(length, _) => m.Bucket? && m.k < length
  }

  function OneAt(k: nat, n: nat): (x: seq<elem>)
    ensures |x| == n && forall i :: 0 <= i < n ==> x[i] == if i == k then 1 else 0
  {
    seq(n, i => if i == k then 1 else 0)
  }

  /** The bits of the summands, one summand after the other. */
  function Flattened(ns: seq<nat>, bits: nat): (x: seq<elem>)
    ensures |x| == bits * |ns| && forall i :: 0 <= i < |x| ==> IsBit(x[i])
  {
    if ns == [] then []
    else
      MulDistrib(|ns| - 1, 1, bits);
      Flattened(ns[..|ns| - 1], bits) + Bits(ns[|ns| - 1], bits)
  }

  /** The first fault of the summands, checked one after the other. */
  function FirstFault(ns: seq<nat>, bits: nat): Option<MeasurementError> {
    if ns == [] then None
    else if FirstFault(ns[..|ns| - 1], bits).Some? then FirstFault(ns[..|ns| - 1], bits)
    else if ns[|ns| - 1] >= Exp2(bits) then Some(SummandTooLarge)
    else if !ValidIntegerBitlength(bits) then Some(BitsFailed(BitVectorTooLong))
    else None
  }

  lemma {:induction false} FaultStays(ns: seq<nat>, bits: nat, n: nat)
    requires n <= |ns| && FirstFault(ns[..n], bits).Some?
    ensures FirstFault(ns, bits) == FirstFault(ns[..n], bits)
  {
    hide Exp2, ValidIntegerBitlength;
    if n == |ns| {
      assert ns[..n] == ns;
    } else {
      assert ns[..|ns| - 1][..n] == ns[..n];
      FaultStays(ns[..|ns| - 1], bits, n);
    }
  }

  lemma {:induction false} NoFault(ns: seq<nat>, bits: nat)
    ensures FirstFault(ns, bits).None?
            <==> (forall k :: 0 <= k < |ns| ==> ns[k] < Exp2(bits)) && (ns != [] ==> ValidIntegerBitlength(bits))
  {
    hide Exp2, ValidIntegerBitlength;
    if ns != [] {
      NoFault(ns[..|ns| - 1], bits);
      assert forall k :: 0 <= k < |ns| - 1 ==> ns[..|ns| - 1][k] == ns[k];
    }
  }

  /** The outcome of `encode_measurement`. */
  function EncodingOf(t: FlpType, m: Measurement): (x: Result<seq<elem>, MeasurementError>)
    requires Suits(t, m)
    ensures x.Success? ==> |x.value| == t.InputLen()
  {
    match t
    case Count => Success([if m.b then 1 else 0])
    case Sum(bits) =>
      if !ValidIntegerBitlength(bits) then Failure(BitsFailed(BitVectorTooLong))
      else if m.n >= Exp2(bits) then Failure(BitsFailed(InputSizeMismatch))
      else Success(Bits(m.n, bits))
    case SumVec(len, bits, _) =>
      if |m.ns| != len then Failure(WrongLength)
      else if FirstFault(m.ns, bits).Some? then Failure(FirstFault(m.ns, bits).value)
      else Success(Flattened(m.ns, bits))
    case Histogram(length, _) => Success(OneAt(m.k, length))
  }

  /** A measurement is encoded exactly when it is in range: every flag and bucket; for Sum every integer below
      2^bits; for SumVec every list of `len` such integers, if 2^bits is not above the modulus. */
  lemma {:induction false} EncodingIff(t: FlpType, m: Measurement)
    requires t.Valid() && Suits(t, m)
    ensures EncodingOf(t, m).Success?
            <==> match t
                 case Count => true
                 case Sum(bits) => m.n < Exp2(bits)
                 case SumVec(len, bits, _) => |m.ns| == len && Exp2(bits) <= P && forall k :: 0 <= k < len ==> m.ns[k] < Exp2(bits)
                 case Histogram(_, _) => true
  {
    hide Exp2, Flattened, FirstFault, Bits;
    if t.SumVec? {
      NoFault(m.ns, t.bits);
    }
  }

  /** `encode_measurement`. */
  method EncodeMeasurement(t: FlpType, m: Measurement) returns (res: Result<seq<elem>, MeasurementError>)
    requires Suits(t, m)
    ensures res == EncodingOf(t, m)
  {
    hide Exp2, Bits, Flattened, ValidIntegerBitlength, FirstFault;
    match t {
      case Count =>
        return Success([if m.b then 1 else 0]);
      case Sum(bits) =>
        var x := EncodeAsBitvector(m.n, bits);
        return if x.Success? then Success(x.value) else Failure(BitsFailed(x.error));
      case SumVec(len, bits, _) =>
        if |m.ns| != len {
          return Failure(WrongLength);
        }
        res := EncodeSummands(m.ns, bits);
      case Histogram(length, _) =>
        var data := new elem[length](_ => 0);
        data[m.k] := 1;
        assert data[..] == OneAt(m.k, length);
        return Success(data[..]);
    }
  }

  /** The loop over the summands of a SumVec measurement. */
  method EncodeSummands(ns: seq<nat>, bits: nat) returns (res: Result<seq<elem>, MeasurementError>)
    ensures res == if FirstFault(ns, bits).Some? then Failure(FirstFault(ns, bits).value) else Success(Flattened(ns, bits))
  {
    hide Exp2, Bits, ValidIntegerBitlength;
    var flattened: seq<elem> := [];
    for i := 0 to |ns|
      invariant FirstFault(ns[..i], bits).None? && flattened == Flattened(ns[..i], bits)
    {
      assert ns[..i + 1][..i] == ns[..i];
      if ns[i] >= Exp2(bits) {
        FaultStays(ns, bits, i + 1);
        return Failure(SummandTooLarge);
      }
      var x := EncodeAsBitvector(ns[i], bits);
      if x.Failure? {
        FaultStays(ns, bits, i + 1);
        return Failure(BitsFailed(x.error));
      }
      flattened := flattened + x.value;
    }
    assert ns[..|ns|] == ns;
    return Success(flattened);
  }

  // ------------------------------------------------------------------ truncation

  function OutputLen(t: FlpType): nat {
    match t
    case Count => 1
    case Sum(_) => 1
    case SumVec(len, _, _) => len
    case Histogram(length, _) => length
  }

  /** The k-th group of bits. */
  function Group(x: seq<elem>, bits: nat, n: nat, k: nat): (g: seq<elem>)
    requires |x| == bits * n && k < n
    ensures |g| == bits
  {
    MulDistrib(k, 1, bits);
    MulDistrib(n - k - 1, k + 1, bits);
    x[k * bits..(k + 1) * bits]
  }

  /** Coordinate k of the output: the bits of a group weighted by powers of two, or the entry itself. */
  function Coordinate(t: FlpType, x: seq<elem>, k: nat): elem
    requires |x| == t.InputLen() && k < OutputLen(t)
  {
    match t
    case Count => x[k]
    case Sum(_) => Eval(x, Mod(2))
    case SumVec(len, bits, _) => Eval(Group(x, bits, len, k), Mod(2))
    case Histogram(_, _) => x[k]
  }

  function Truncated(t: FlpType, x: seq<elem>): (y: seq<elem>)
    requires |x| == t.InputLen()
    ensures |y| == OutputLen(t) && forall k :: 0 <= k < |y| ==> y[k] == Coordinate(t, x, k)
  {
    seq(OutputLen(t), k requires 0 <= k < OutputLen(t) => Coordinate(t, x, k))
  }

  datatype TruncateError = TruncateLength | TruncateBits(e: BitvectorError)

  /** Decoding the type's groups of bits succeeds. */
  predicate Decodable(t: FlpType) {
    (t.Sum? || (t.SumVec? && t.len > 0)) ==> ValidIntegerBitlength(t.bits)
  }

  /** The outcome of `truncate`. */
  function TruncationOf(t: FlpType, x: seq<elem>): Result<seq<elem>, TruncateError>
  {
    if |x| != t.InputLen() then Failure(TruncateLength)
    else if !Decodable(t) then Failure(TruncateBits(BitVectorTooLong))
    else Success(Truncated(t, x))
  }

  /** `truncate`. */
  method Truncate(t: FlpType, x: seq<elem>) returns (res: Result<seq<elem>, TruncateError>)
    ensures res == TruncationOf(t, x)
  {
    hide Exp2, Eval, ValidIntegerBitlength, Mod;
    if |x| != t.InputLen() {
      return Failure(TruncateLength);
    }
    match t {
      case Count =>
        assert x == Truncated(t, x);
        return Success(x);
      case Sum(bits) =>
        var y := DecodeBitvector(x);
        if y.Failure? {
          return Failure(TruncateBits(y.error));
        }
        assert [y.value] == Truncated(t, x);
        return Success([y.value]);
      case SumVec(len, bits, _) =>
        var out: seq<elem> := [];
        for k := 0 to len
          invariant |out| == k && (k > 0 ==> ValidIntegerBitlength(bits))
          invariant forall j :: 0 <= j < k ==> out[j] == Coordinate(t, x, j)
        {
          var y := DecodeBitvector(Group(x, bits, len, k));
          if y.Failure? {
            return Failure(TruncateBits(y.error));
          }
          out := out + [y.value];
        }
        assert out == Truncated(t, x);
        return Success(out);
      case Histogram(_, _) =>
        assert x == Truncated(t, x);
        return Success(x);
    }
  }

  lemma {:induction false} GroupAdd(x: seq<elem>, y: seq<elem>, bits: nat, n: nat, k: nat)
    requires |x| == |y| == bits * n && k < n
    ensures Group(AddVec(x, y), bits, n, k) == AddVec(Group(x, bits, n, k), Group(y, bits, n, k))
  {
    hide Add;
    MulDistrib(k, 1, bits);
    MulDistrib(n - k - 1, k + 1, bits);
    SliceAdd(x, y, k * bits, (k + 1) * bits);
  }

  lemma {:induction false} SliceAdd(x: seq<elem>, y: seq<elem>, i: nat, j: nat)
    requires |x| == |y| && i <= j <= |x|
    ensures AddVec(x, y)[i..j] == AddVec(x[i..j], y[i..j])
  {
    hide Add;
  }

  lemma {:induction false} CoordinateAdd(t: FlpType, x: seq<elem>, y: seq<elem>, k: nat)
    requires |x| == |y| == t.InputLen() && k < OutputLen(t)
    ensures Coordinate(t, AddVec(x, y), k) == Add(Coordinate(t, x, k), Coordinate(t, y, k))
  {
    hide Add, Eval, Mod, Group;
    match t
    case Count =>
    case Sum(_) => EvalAddVec(x, y, Mod(2));
    case SumVec(len, bits, _) =>
      GroupAdd(x, y, bits, len, k);
      EvalAddVec(Group(x, bits, len, k), Group(y, bits, len, k), Mod(2));
    case Histogram(_, _) =>
  }

  /** Truncation is linear. */
  lemma {:induction false} TruncatedAdd(t: FlpType, x: seq<elem>, y: seq<elem>)
    requires |x| == |y| == t.InputLen()
    ensures Truncated(t, AddVec(x, y)) == AddVec(Truncated(t, x), Truncated(t, y))
  {
    hide Coordinate, Add;
    forall k: nat | k < OutputLen(t) ensures Truncated(t, AddVec(x, y))[k] == AddVec(Truncated(t, x), Truncated(t, y))[k] {
      CoordinateAdd(t, x, y, k);
    }
  }

  lemma {:induction false} TruncatedZeros(t: FlpType)
    ensures Truncated(t, Zeros(t.InputLen())) == Zeros(OutputLen(t))
  {
    hide Coordinate, Add, FlpType.InputLen;
    var z := Zeros(t.InputLen());
    AddVecZeros(z);
    TruncatedAdd(t, z, z);
    var y := Truncated(t, z);
    forall k | 0 <= k < |y| ensures y[k] == 0 {
      assert y[k] == Add(y[k], y[k]);
      SubAdd(y[k], y[k]);
      SubSelf(y[k]);
    }
  }

  function TruncatedAll(t: FlpType, xs: seq<seq<elem>>): (ys: seq<seq<elem>>)
    requires forall i :: 0 <= i < |xs| ==> |xs[i]| == t.InputLen()
    ensures |ys| == |xs| && forall i :: 0 <= i < |ys| ==> ys[i] == Truncated(t, xs[i])
  {
    seq(|xs|, i requires 0 <= i < |xs| => Truncated(t, xs[i]))
  }

  /** The truncated shares of an input add up to its truncation. */
  lemma {:induction false} TruncatedSum(t: FlpType, xs: seq<seq<elem>>)
    requires forall i :: 0 <= i < |xs| ==> |xs[i]| == t.InputLen()
    ensures VecSum(TruncatedAll(t, xs), OutputLen(t)) == Truncated(t, VecSum(xs, t.InputLen()))
  {
    hide Truncated, FlpType.InputLen, AddVec;
    if xs == [] {
      TruncatedZeros(t);
    } else {
      var n := |xs| - 1;
      TruncatedSum(t, xs[..n]);
      assert TruncatedAll(t, xs)[..n] == TruncatedAll(t, xs[..n]);
      TruncatedAdd(t, VecSum(xs[..n], t.InputLen()), xs[n]);
    }
  }

  // ------------------------------------------------------------------ results

  /** The integers a measurement contributes to the result. */
  function Plain(t: FlpType, m: Measurement): (p: seq<nat>)
    requires Suits(t, m)
  {
    match m
    case Flag(b) => [if b then 1 else 0]
    case Integer(n) => [n]
    case Integers(ns) => ns
    case Bucket(k) => seq(OutputLen(t), i => if i == k then 1 else 0)
  }

  lemma {:induction false} GroupOfFlattened(ns: seq<nat>, bits: nat, k: nat)
    requires k < |ns|
    ensures Group(Flattened(ns, bits), bits, |ns|, k) == Bits(ns[k], bits)
  {
    var n := |ns| - 1;
    FlattenedStep(ns, bits);
    hide Bits, Flattened, Group;
    if k < n {
      GroupOfFlattened(ns[..n], bits, k);
      EarlierGroup(Flattened(ns[..n], bits), Bits(ns[n], bits), bits, n, k);
    } else {
      LastGroup(Flattened(ns[..n], bits), Bits(ns[n], bits), bits, n);
    }
  }

  lemma {:induction false} FlattenedStep(ns: seq<nat>, bits: nat)
    requires ns != []
    ensures Flattened(ns, bits) == Flattened(ns[..|ns| - 1], bits) + Bits(ns[|ns| - 1], bits)
  {
  }

  lemma {:induction false} EarlierGroup(x: seq<elem>, g: seq<elem>, bits: nat, n: nat, k: nat)
    requires |x| == bits * n && |g| == bits && k < n
    ensures |x + g| == bits * (n + 1) && Group(x + g, bits, n + 1, k) == Group(x, bits, n, k)
  {
    MulDistrib(n, 1, bits);
    MulDistrib(k, 1, bits);
    MulDistrib(n - k - 1, k + 1, bits);
    var i, j := k * bits, (k + 1) * bits;
    assert (x + g)[i..j] == x[i..j];
  }

  lemma {:induction false} LastGroup(x: seq<elem>, g: seq<elem>, bits: nat, n: nat)
    requires |x| == bits * n && |g| == bits
    ensures |x + g| == bits * (n + 1) && Group(x + g, bits, n + 1, n) == g
  {
    MulDistrib(n, 1, bits);
    var i := n * bits;
    assert (x + g)[i..i + bits] == g;
  }

  /** A successful encoding is valid, and truncates to the measurement. */
  lemma {:induction false} EncodingTruncates(t: FlpType, m: Measurement)
    requires t.Valid() && Suits(t, m) && EncodingOf(t, m).Success?
    ensures ValidInput(t, EncodingOf(t, m).value) && Decodable(t) && |Plain(t, m)| == OutputLen(t)
    ensures forall k :: 0 <= k < OutputLen(t) ==> Coordinate(t, EncodingOf(t, m).value, k) == Mod(Plain(t, m)[k])
  {
    hide Exp2, Bits, Eval, Mod, Total, Flattened;
    ModId(0);
    ModId(1);
    match t
    case Count =>
    case Sum(bits) => DecodeBits(m.n, bits);
    case SumVec(len, bits, _) =>
      NoFault(m.ns, bits);
      forall k: nat | k < len ensures Coordinate(t, Flattened(m.ns, bits), k) == Mod(m.ns[k]) {
        GroupOfFlattened(m.ns, bits, k);
        DecodeBits(m.ns[k], bits);
      }
    case Histogram(length, _) => OneAtTotal(m.k, length);
  }

  lemma {:induction false} OneAtTotal(k: nat, n: nat)
    requires k < n
    ensures Total(OneAt(k, n)) == 1
  {
    hide Add;
    var x := OneAt(k, n);
    var f: int -> elem := i => VecElem(x, i);
    SumSingle(n, k, f);
    SumExt(n, f, i => VecElem(x, i));
  }

  /** The outcome of `decode_result`: the integers of the output's coordinates. */
  function ResultOf(t: FlpType, data: seq<elem>): Option<seq<nat>> {
    if |data| != OutputLen(t) then None else Some(seq(|data|, k requires 0 <= k < |data| => data[k] as nat))
  }
}
