/** The choice of chunk length for Prio3Histogram and Prio3SumVec (src/vdaf/prio3.rs): searching only
    numbers of gadget calls of the form 2^k - 1 finds the shortest proof over all chunk lengths. */
module ChunkLength {
  import opened Powers
  import opened Gadgets
  import opened FlpTypes

  /** The length of a proof over inputs of length n with the given chunk length. */
  function ProofLength(n: nat, chunk: nat): nat
    requires 1 <= n && 1 <= chunk
  {
    Histogram(n, chunk).ProofLen()
  }

  /** Both chunked types have this proof length. */
  lemma {:induction false} SumVecProofLength(len: nat, bits: nat, chunk: nat)
    requires 1 <= len && 1 <= bits && 1 <= chunk
    ensures 1 <= bits * len && SumVec(len, bits, chunk).ProofLen() == ProofLength(bits * len, chunk)
  {
    PositiveProduct(bits, len);
  }

  lemma {:induction false} PositiveProduct(a: nat, b: nat)
    requires 1 <= a && 1 <= b
    ensures 1 <= a * b
  {
    assert a * b == (a - 1) * b + b && (a - 1) * b >= 0;
  }

  /** Rounding up a quotient: the least c with n <= c * d. */
  lemma {:induction false} CeilDivLeast(n: nat, d: nat)
    requires 1 <= d
    ensures n <= CeilDiv(n, d) * d
    ensures n >= 1 ==> CeilDiv(n, d) >= 1 && (CeilDiv(n, d) - 1) * d < n
  {
    var q, r := n / d, n % d;
    assert n == q * d + r && 0 <= r < d;
    assert (q + 1) * d == q * d + d;
  }

  lemma {:induction false} CeilDivAtMost(n: nat, d: nat, c: nat)
    requires 1 <= d && n <= c * d
    ensures CeilDiv(n, d) <= c
  {
    CeilDivLeast(n, d);
    var k: int := CeilDiv(n, d);
    OrderedProducts(c, k - 1, d);
    if n == 0 {
      ZeroQuotient(d);
    }
  }

  lemma {:induction false} OrderedProducts(a: int, b: int, d: int)
    requires 0 <= d
    ensures a <= b ==> a * d <= b * d
  {
    if a <= b {
      assert (b - a) * d >= 0;
    }
  }

  lemma {:induction false} Swapped(a: int, b: int)
    ensures a * b == b * a
  {
  }

  lemma {:induction false} ZeroQuotient(d: nat)
    requires 1 <= d
    ensures CeilDiv(0, d) == 0
  {
  }

  /** The calls, chunk length and cost of the candidate with 2^k - 1 gadget calls. */
  function Calls(k: nat): (g: nat)
    requires 1 <= k
    ensures 1 <= g == Exp2(k) - 1
  {
    Exp2Positive(k - 1);
    Exp2(k) - 1
  }

  function CandidateChunk(n: nat, k: nat): nat
    requires 1 <= k
  {
    CeilDiv(n, Calls(k))
  }

  function CandidateCost(n: nat, k: nat): nat
    requires 1 <= k
  {
    CandidateChunk(n, k) * 2 + 2 * (Exp2(k) - 1)
  }

  /** The cost of a candidate bounds the real proof length, which may need fewer calls. */
  lemma {:induction false} CostIsEnough(n: nat, k: nat)
    requires 1 <= n && 1 <= k
    ensures CandidateChunk(n, k) >= 1 && ProofLength(n, CandidateChunk(n, k)) <= CandidateCost(n, k) + 1
  {
    hide NextPowerOfTwo, CeilDiv, Exp2;
    var g, c := Calls(k), CandidateChunk(n, k);
    CeilDivLeast(n, g);
    Swapped(c, g);
    CeilDivAtMost(n, c, g);
    PowerAtMost(1 + CeilDiv(n, c), k);
  }

  lemma {:induction false} PowerAtMost(x: nat, k: nat)
    requires 1 <= x <= Exp2(k)
    ensures NextPowerOfTwo(x) <= Exp2(k)
  {
    hide Exp2, FloorLog2;
    if Log2(x) > k {
      Exp2Monotone(k, Log2(x) - 1);
    } else {
      Exp2Monotone(Log2(x), k);
    }
  }

  lemma {:induction false} OneIsPower()
    ensures Exp2(0) == 1
  {
  }

  /** Every chunk length costs at least as much as some candidate with k up to log2(n + 1). */
  lemma {:induction false} SomeCandidate(n: nat, chunk: nat, top: nat) returns (k: nat)
    requires 2 <= n && 1 <= chunk && 1 <= top && Exp2(top) <= n + 1 < 2 * Exp2(top)
    ensures 1 <= k <= top && CandidateCost(n, k) + 1 <= ProofLength(n, chunk)
  {
    hide CeilDiv, FloorLog2, Exp2;
    var g := CeilDiv(n, chunk);
    CeilDivLeast(n, chunk);
    k := Log2(1 + g);
    OneIsPower();
    CandidateBelow(n, chunk, g, k);
    if k > top {
      TopCandidate(n, chunk, g, k, top);
      k := top;
    }
  }

  /** With the same number of calls rounded up, the candidate's chunk is not longer. */
  lemma {:induction false} CandidateBelow(n: nat, chunk: nat, g: nat, k: nat)
    requires 1 <= n && 1 <= chunk && 1 <= k && g == CeilDiv(n, chunk) && k == Log2(1 + g)
    ensures CandidateCost(n, k) + 1 <= ProofLength(n, chunk)
    ensures ProofLength(n, chunk) == chunk * 2 + 2 * (Exp2(k) - 1) + 1
  {
    hide CeilDiv, FloorLog2, Exp2, Log2;
    CeilDivLeast(n, chunk);
    OrderedProducts(g, Calls(k), chunk);
    Swapped(chunk, Calls(k));
    CeilDivAtMost(n, Calls(k), chunk);
  }

  /** When the calls exceed the search range, two chunks per call already do with 2^top - 1 calls. */
  lemma {:induction false} TopCandidate(n: nat, chunk: nat, g: nat, k: nat, top: nat)
    requires 2 <= n && 1 <= chunk && 1 <= top < k && Exp2(top) <= n + 1 < 2 * Exp2(top)
    requires ProofLength(n, chunk) == chunk * 2 + 2 * (Exp2(k) - 1) + 1
    ensures CandidateCost(n, top) + 1 <= ProofLength(n, chunk)
  {
    hide CeilDiv, FloorLog2, Log2;
    Exp2Monotone(top + 1, k);
    assert Exp2(top + 1) == 2 * Exp2(top);
    Exp2Positive(top - 1);
    CeilDivAtMost(n, Calls(top), 2);
  }

  /** `optimal_chunk_length`: the first of the cheapest candidates, from the largest number of calls
      down. No chunk length gives a shorter proof. */
  method OptimalChunkLength(n: nat) returns (chunk: nat)
    ensures chunk >= 1
    ensures n >= 1 ==> forall c :: c >= 1 ==> ProofLength(n, chunk) <= ProofLength(n, c)
  {
    hide Exp2, CeilDiv, FloorLog2, CandidateCost, CandidateChunk, ProofLength;
    if n <= 1 {
      if n == 1 {
        forall c | c >= 1 ensures ProofLength(1, 1) <= ProofLength(1, c) {
          OneElement(c);
        }
      }
      return 1;
    }
    var top := FloorLog2(n + 1);
    TopPositive(n, top);
    var best := top;
    for k := top downto 1
      invariant 1 <= best <= top
      invariant forall i :: k <= i <= top && i >= 1 ==> CandidateCost(n, best) <= CandidateCost(n, i)
    {
      if CandidateCost(n, k) < CandidateCost(n, best) {
        best := k;
      }
    }
    chunk := CandidateChunk(n, best);
    CostIsEnough(n, best);
    forall c | c >= 1 ensures ProofLength(n, chunk) <= ProofLength(n, c) {
      var k := SomeCandidate(n, c, top);
    }
  }

  lemma {:induction false} TopPositive(n: nat, top: nat)
    requires 2 <= n && Exp2(top) <= n + 1 < 2 * Exp2(top)
    ensures 1 <= top
  {
    assert Exp2(0) == 1;
  }

  lemma {:induction false} OneElement(c: nat)
    requires c >= 1
    ensures ProofLength(1, 1) <= ProofLength(1, c)
  {
    CeilDivLeast(1, c);
    CeilDivAtMost(1, c, 1);
    CeilDivLeast(1, 1);
    CeilDivAtMost(1, 1, 1);
    hide CeilDiv, NextPowerOfTwo;
  }
}
