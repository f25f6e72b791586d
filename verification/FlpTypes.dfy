/** The validity circuits of src/flp/types.rs. A circuit is described by the inputs of each gadget
    call and by its output as a function of the gadget outputs; `c` is the inverse of the number of
    shares, which scales the circuit's constants. */
module FlpTypes {
  import opened Field
  import opened Powers
  import opened Sums
  import opened Fft
  import opened Polynomial
  import opened Gadgets

  /** X^2 - X, the polynomial `poly_range_check(0, 2)`. */
  const RANGE_CHECKER: seq<elem> := [0, Neg(1), 1]

  datatype FlpType =
    | Count
    | Sum(bits: nat)
    | SumVec(len: nat, bits: nat, chunkLength: nat)
    | Histogram(length: nat, chunkLength: nat)
  {
    /** What the constructors check, apart from machine word sizes. */
    predicate Valid() {
      match this
      case Count => true
      case Sum(bits) => ValidIntegerBitlength(bits)
      case SumVec(len, bits, chunk) => 1 <= len && 1 <= bits && 1 <= chunk
      case Histogram(length, chunk) => 1 <= length && 1 <= chunk
    }

    predicate Chunked() { SumVec? || Histogram? }

    function InputLen(): nat {
      match this
      case Count => 1
      case Sum(bits) => bits
      case SumVec(len, bits, _) => bits * len
      case Histogram(length, _) => length
    }

    function GadgetCalls(): nat
      requires Valid()
    {
      match this
      case Count => 1
      case Sum(bits) => bits
      case SumVec(_, _, chunk) => CeilDiv(InputLen(), chunk)
      case Histogram(_, chunk) => CeilDiv(InputLen(), chunk)
    }

    function TheGadget(): Gadget
      requires Valid()
    {
      match this
      case Count => MulGadget(1)
      case Sum(bits) => PolyEvalGadget(RANGE_CHECKER, bits)
      case SumVec(_, _, chunk) => ParallelSum(MulGadget(GadgetCalls()), chunk)
      case Histogram(_, chunk) => ParallelSum(MulGadget(GadgetCalls()), chunk)
    }

    function JointRandLen(): nat {
      match this
      case Count => 0
      case Sum(_) => 1
      case SumVec(_, _, _) => 1
      case Histogram(_, _) => 2
    }

    function ProveRandLen(): nat {
      match this
      case Count => 2
      case Sum(_) => 1
      case SumVec(_, _, chunk) => chunk * 2
      case Histogram(_, chunk) => chunk * 2
    }

    function QueryRandLen(): nat { 1 }

    function ProofLen(): nat
      requires Valid()
    {
      match this
      case Count => 5
      case Sum(bits) => 2 * (NextPowerOfTwo(1 + bits) - 1) + 2
      case SumVec(_, _, chunk) => chunk * 2 + 2 * (NextPowerOfTwo(1 + GadgetCalls()) - 1) + 1
      case Histogram(_, chunk) => chunk * 2 + 2 * (NextPowerOfTwo(1 + GadgetCalls()) - 1) + 1
    }

    function VerifierLen(): nat {
      match this
      case Count => 4
      case Sum(_) => 3
      case SumVec(_, _, chunk) => 2 + chunk * 2
      case Histogram(_, chunk) => 2 + chunk * 2
    }
  }

  /** `valid_integer_bitlength`: 2^bits - 1 is representable in the field. */
  predicate ValidIntegerBitlength(bits: nat) { Exp2(bits) <= P }

  function CeilDiv(a: nat, b: nat): nat
    requires 1 <= b
  {
    a / b + if a % b != 0 then 1 else 0
  }

  /** The lengths the types declare are the ones `prove` and `query` compute from the gadget. */
  lemma {:induction false} DeclaredLengths(t: FlpType)
    requires t.Valid()
    ensures var g := t.TheGadget();
            && g.WellFormed() && g.Degree() == 2 && g.Calls() == t.GadgetCalls()
            && g.Arity() == t.ProveRandLen() && 1 <= g.Arity()
            && t.ProofLen() == g.Arity() + GadgetPolyLen(g.Degree(), WirePolyLen(g.Calls()))
            && t.VerifierLen() == 2 + g.Arity()
  {
    hide NextPowerOfTwo, WirePolyLen, GadgetPolyLen, CeilDiv;
    WireIsPower(t.TheGadget().Calls());
    QuadraticLength(WirePolyLen(t.TheGadget().Calls()));
    match t
    case Count => TwoWires();
    case Sum(bits) => assert TrimLen(RANGE_CHECKER) == 3;
    case SumVec(_, _, chunk) => assert MulGadget(t.GadgetCalls()).Arity() == 2;
    case Histogram(_, chunk) => assert MulGadget(t.GadgetCalls()).Arity() == 2;
  }

  lemma {:induction false} WireIsPower(calls: nat)
    ensures WirePolyLen(calls) == NextPowerOfTwo(1 + calls)
  {
  }

  lemma {:induction false} QuadraticLength(m: nat)
    requires 1 <= m
    ensures GadgetPolyLen(2, m) == 2 * (m - 1) + 1
  {
  }

  lemma {:induction false} TwoWires()
    ensures WirePolyLen(1) == 2
  {
    Log2Unique(2, 1);
    assert Exp2(1) == 2 && Exp2(0) == 1;
  }

  // ------------------------------------------------------------------ circuits

  /** Input u of call k to a summed multiplication gadget. */
  function ChunkedWire(x: seq<elem>, r: elem, chunk: nat, c: elem, k: nat, u: nat): elem {
    var i := k * chunk + u / 2;
    if u % 2 == 0 then (if i < |x| then Mul(Pow(r, i + 1), x[i]) else 0)
    else Sub(Pad(x, i), c)
  }

  /** The inputs of gadget call k. */
  function WireRow(t: FlpType, x: seq<elem>, jr: seq<elem>, c: elem, k: nat): (row: seq<elem>)
    requires t.Valid() && |x| == t.InputLen() && |jr| == t.JointRandLen() && k < t.GadgetCalls()
    ensures |row| == t.ProveRandLen()
  {
    match t
    case Count => [x[0], x[0]]
    case Sum(_) => [x[k]]
    case SumVec(_, _, chunk) => seq(chunk * 2, u requires 0 <= u => ChunkedWire(x, jr[0], chunk, c, k, u))
    case Histogram(_, chunk) => seq(chunk * 2, u requires 0 <= u => ChunkedWire(x, jr[0], chunk, c, k, u))
  }

  function VecElem(v: seq<elem>, i: int): elem { Pad(v, i) }

  function WeightedElem(v: seq<elem>, r: elem, i: int): elem {
    if i < 0 then 0 else Mul(Pow(r, i + 1), Pad(v, i))
  }

  function Total(v: seq<elem>): elem {
    Sums.Sum(|v|, i => VecElem(v, i))
  }

  /** The sum over i of r^(i+1) v[i]. */
  function Weighted(v: seq<elem>, r: elem): elem {
    Sums.Sum(|v|, i => WeightedElem(v, r, i))
  }

  /** The circuit output, given the gadget outputs. */
  function Output(t: FlpType, x: seq<elem>, outs: seq<elem>, jr: seq<elem>, c: elem): elem
    requires t.Valid() && |x| == t.InputLen() && |jr| == t.JointRandLen() && |outs| == t.GadgetCalls()
  {
    match t
    case Count => Sub(outs[0], x[0])
    case Sum(_) => Weighted(outs, jr[0])
    case SumVec(_, _, _) => Total(outs)
    case Histogram(_, _) => Add(Mul(jr[1], Total(outs)), Mul(Mul(jr[1], jr[1]), Sub(Total(x), c)))
  }

  // ------------------------------------------------------------------ the circuits are affine

  lemma {:induction false} TotalAdd(a: seq<elem>, b: seq<elem>)
    requires |a| == |b|
    ensures Total(AddVec(a, b)) == Add(Total(a), Total(b))
  {
    hide Add;
    var n := |a|;
    var f: int -> elem := i => VecElem(a, i);
    var g: int -> elem := i => VecElem(b, i);
    SumExt(n, i => VecElem(AddVec(a, b), i), i => Add(f(i), g(i)));
    SumAdd(n, f, g);
    SumExt(n, f, i => VecElem(a, i));
    SumExt(n, g, i => VecElem(b, i));
  }

  lemma {:induction false} WeightedAdd(a: seq<elem>, b: seq<elem>, r: elem)
    requires |a| == |b|
    ensures Weighted(AddVec(a, b), r) == Add(Weighted(a, r), Weighted(b, r))
  {
    hide Add, Mul, Pow;
    var n := |a|;
    var f: int -> elem := i => WeightedElem(a, r, i);
    var g: int -> elem := i => WeightedElem(b, r, i);
    forall i | 0 <= i < n ensures WeightedElem(AddVec(a, b), r, i) == Add(f(i), g(i)) {
      Distrib(Pow(r, i + 1), a[i], b[i]);
    }
    SumExt(n, i => WeightedElem(AddVec(a, b), r, i), i => Add(f(i), g(i)));
    SumAdd(n, f, g);
    SumExt(n, f, i => WeightedElem(a, r, i));
    SumExt(n, g, i => WeightedElem(b, r, i));
  }

  /** (a + b) - (c + d) == (a - c) + (b - d). */
  lemma {:induction false} SubExchange(a: elem, b: elem, c: elem, d: elem)
    ensures Sub(Add(a, b), Add(c, d)) == Add(Sub(a, c), Sub(b, d))
  {
    ModSub(a + b, c + d);
    ModAdd(a - c, b - d);
  }

  lemma {:induction false} ChunkedWireAdd(x: seq<elem>, y: seq<elem>, r: elem, chunk: nat, c: elem, d: elem, k: nat, u: nat)
    requires |x| == |y|
    ensures ChunkedWire(AddVec(x, y), r, chunk, Add(c, d), k, u)
         == Add(ChunkedWire(x, r, chunk, c, k, u), ChunkedWire(y, r, chunk, d, k, u))
  {
    hide Add, Sub, Mul, Pow;
    var i := k * chunk + u / 2;
    AddZero(0);
    if i < |x| {
      Distrib(Pow(r, i + 1), x[i], y[i]);
      SubExchange(x[i], y[i], c, d);
    } else {
      SubExchange(0, 0, c, d);
    }
  }

  /** The gadget inputs are additive in the input and the constant scale. */
  lemma {:induction false} WireRowAdd(t: FlpType, x: seq<elem>, y: seq<elem>, jr: seq<elem>, c: elem, d: elem, k: nat)
    requires t.Valid() && |x| == |y| == t.InputLen() && |jr| == t.JointRandLen() && k < t.GadgetCalls()
    ensures WireRow(t, AddVec(x, y), jr, Add(c, d), k) == AddVec(WireRow(t, x, jr, c, k), WireRow(t, y, jr, d, k))
  {
    hide Add, ChunkedWire;
    if t.Chunked() {
      forall u: nat | u < t.chunkLength * 2
        ensures ChunkedWire(AddVec(x, y), jr[0], t.chunkLength, Add(c, d), k, u)
             == Add(ChunkedWire(x, jr[0], t.chunkLength, c, k, u), ChunkedWire(y, jr[0], t.chunkLength, d, k, u))
      {
        ChunkedWireAdd(x, y, jr[0], t.chunkLength, c, d, k, u);
      }
    }
  }

  /** The circuit output is additive in the input, the gadget outputs and the constant scale. */
  lemma {:induction false} OutputAdd(t: FlpType, x: seq<elem>, y: seq<elem>, o: seq<elem>, q: seq<elem>, jr: seq<elem>, c: elem, d: elem)
    requires t.Valid() && |x| == |y| == t.InputLen() && |jr| == t.JointRandLen()
    requires |o| == |q| == t.GadgetCalls()
    ensures Output(t, AddVec(x, y), AddVec(o, q), jr, Add(c, d))
         == Add(Output(t, x, o, jr, c), Output(t, y, q, jr, d))
  {
    hide Add, Sub, Mul, Total, Weighted;
    match t
    case Count => SubExchange(o[0], q[0], x[0], y[0]);
    case Sum(_) => WeightedAdd(o, q, jr[0]);
    case SumVec(_, _, _) => TotalAdd(o, q);
    case Histogram(_, _) =>
      TotalAdd(o, q);
      TotalAdd(x, y);
      var j, j2 := jr[1], Mul(jr[1], jr[1]);
      Distrib(j, Total(o), Total(q));
      SubExchange(Total(x), Total(y), c, d);
      Distrib(j2, Sub(Total(x), c), Sub(Total(y), d));
      AddExchange(Mul(j, Total(o)), Mul(j, Total(q)), Mul(j2, Sub(Total(x), c)), Mul(j2, Sub(Total(y), d)));
  }
}
