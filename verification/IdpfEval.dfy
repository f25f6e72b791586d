/** IDPF evaluation through a memoising cache (src/idpf.rs), proved equal to the uncached walk. */
module IdpfEval {
  import opened Wrappers
  import opened Idpf

  type Entry = (seq<bool>, Node)

  /** The cache implementations `NoCache`, `HashMapCache` and `RingBufferCache`, and any other cache: its
      lookup picks, by whatever rule, one of the insertions so far; only one under the same key is a hit. */
  datatype CacheKind = NoCache | HashMapCache | RingBufferCache(capacity: nat) | AnyCache(pick: (seq<Entry>, seq<bool>) -> Option<nat>)

  /** The picked insertion, if it exists and has the right key. */
  function Picked(log: seq<Entry>, choice: Option<nat>, input: seq<bool>): (r: Option<Node>)
    ensures r.Some? ==> (input, r.value) in log
  {
    if choice.Some? && choice.value < |log| && log[choice.value].0 == input then Some(log[choice.value].1) else None
  }

  /** Most recently pushed entry for `input`. */
  function LastMatch(ring: seq<Entry>, input: seq<bool>): Option<Node> {
    if ring == [] then None
    else if ring[|ring| - 1].0 == input then Some(ring[|ring| - 1].1)
    else LastMatch(ring[..|ring| - 1], input)
  }

  lemma {:induction false} LastMatchIn(ring: seq<Entry>, input: seq<bool>)
    ensures LastMatch(ring, input).Some? ==> (input, LastMatch(ring, input).value) in ring
    ensures LastMatch(ring, input).None? ==> forall e :: e in ring ==> e.0 != input
  {
    if ring != [] {
      LastMatchIn(ring[..|ring| - 1], input);
      assert ring == ring[..|ring| - 1] + [ring[|ring| - 1]];
    }
  }

  class IdpfCache {
    const kind: CacheKind
    var table: map<seq<bool>, Node>
    var ring: seq<Entry>
    var log: seq<Entry>
    /** Everything ever inserted. */
    ghost var inserted: set<Entry>

    ghost predicate Valid()
      reads this
    {
      && (forall k :: k in table ==> (k, table[k]) in inserted)
      && (forall e :: e in ring ==> e in inserted)
      && (forall e :: e in log ==> e in inserted)
      && (kind.RingBufferCache? ==> 1 <= kind.capacity && |ring| <= kind.capacity)
    }

    /** What a lookup returns. */
    function Lookup(input: seq<bool>): Option<Node>
      reads this
    {
      match kind
      case NoCache => None
      case HashMapCache => if input in table then Some(table[input]) else None
      case RingBufferCache(_) => LastMatch(ring, input)
      case AnyCache(pick) => Picked(log, pick(log, input), input)
    }

    constructor (k: CacheKind)
      ensures Valid() && inserted == {} && table == map[] && ring == log == []
      ensures kind == if k.RingBufferCache? && k.capacity == 0 then RingBufferCache(1) else k
    {
      kind := if k.RingBufferCache? && k.capacity == 0 then RingBufferCache(1) else k;
      table := map[];
      ring := [];
      log := [];
      inserted := {};
    }

    /** `get`. A hit is always a value inserted under the same key. */
    method Get(input: seq<bool>) returns (r: Option<Node>)
      requires Valid()
      ensures r == Lookup(input)
      ensures r.Some? ==> (input, r.value) in inserted
    {
      match kind {
        case NoCache => r := None;
        case HashMapCache => r := if input in table then Some(table[input]) else None;
        case RingBufferCache(_) =>
          r := None;
          assert ring[..|ring|] == ring;
          for i := |ring| downto 0
            invariant LastMatch(ring, input) == LastMatch(ring[..i], input)
          {
            assert ring[..i + 1][..i] == ring[..i];
            if ring[i].0 == input {
              r := Some(ring[i].1);
              LastMatchIn(ring, input);
              return;
            }
          }
        case AnyCache(pick) => r := Picked(log, pick(log, input), input);
      }
    }

    /** `insert`: the hash map keeps the first value, the ring evicts the oldest entry first. */
    method Insert(input: seq<bool>, node: Node)
      requires Valid()
      modifies this
      ensures Valid() && inserted == old(inserted) + {(input, node)}
      ensures table == if kind.HashMapCache? && input !in old(table) then old(table)[input := node] else old(table)
      ensures ring == if !kind.RingBufferCache? then old(ring)
                      else (if |old(ring)| == kind.capacity then old(ring)[1..] else old(ring)) + [(input, node)]
      ensures log == if kind.AnyCache? then old(log) + [(input, node)] else old(log)
    {
      match kind {
        case NoCache =>
        case HashMapCache =>
          if input !in table {
            table := table[input := node];
          }
        case RingBufferCache(capacity) =>
          if |ring| == capacity {
            ring := ring[1..];
          }
          ring := ring + [(input, node)];
        case AnyCache(_) =>
          log := log + [(input, node)];
      }
      inserted := inserted + {(input, node)};
    }
  }

  /** Every entry ever inserted is the true node of this party's walk. */
  ghost predicate Sound<VI, VL>(I: Instance<VI, VL>, pub: PublicShare<VI, VL>, isLeader: bool, key: Seed, entries: set<Entry>) {
    forall e :: e in entries ==> |e.0| <= |pub.inner| && e.1 == Walk(I, pub, isLeader, key, e.0)
  }

  lemma {:induction false} WalkStep<VI, VL>(I: Instance<VI, VL>, pub: PublicShare<VI, VL>, isLeader: bool, key: Seed, prefix: seq<bool>, n: nat)
    requires n < |prefix| && n < |pub.inner|
    ensures Walk(I, pub, isLeader, key, prefix[..n + 1])
         == EvalLevel(I.gi, I.Inner(), isLeader, Walk(I, pub, isLeader, key, prefix[..n]), pub.inner[n], prefix[n]).0
  {
    hide EvalLevel;
    assert prefix[..n + 1][..n] == prefix[..n];
  }

  /** `eval_from_node`: from a known node at `startLevel` down to the prefix, caching every inner
      node on the way. The output is always available when the loop ends. */
  method EvalFromNode<VI, VL>(I: Instance<VI, VL>, isLeader: bool, pub: PublicShare<VI, VL>, startLevel: nat, start: Node,
                              prefix: seq<bool>, cache: IdpfCache, ghost key: Seed)
    returns (out: OutputShare<VI, VL>)
    requires 1 <= |prefix| <= |pub.inner| + 1 && startLevel < |prefix|
    requires start == Walk(I, pub, isLeader, key, prefix[..startLevel])
    requires cache.Valid() && Sound(I, pub, isLeader, key, cache.inserted)
    modifies cache
    ensures cache.Valid() && Sound(I, pub, isLeader, key, cache.inserted)
    ensures out == EvalSpec(I, pub, isLeader, key, prefix)
  {
    hide EvalLevel;
    var bits := |pub.inner| + 1;
    var node := start;
    var lastInnerOutput: Option<VI> := None;
    var last := if |prefix| < bits then |prefix| else bits - 1;
    for level := startLevel to last
      invariant cache.Valid() && Sound(I, pub, isLeader, key, cache.inserted)
      invariant node == Walk(I, pub, isLeader, key, prefix[..level])
      invariant level == |prefix| ==> lastInnerOutput == Some(EvalSpec(I, pub, isLeader, key, prefix).vi)
    {
      var (next, share) := EvalLevel(I.gi, I.Inner(), isLeader, node, pub.inner[level], prefix[level]);
      WalkStep(I, pub, isLeader, key, prefix, level);
      node := next;
      lastInnerOutput := Some(share);
      cache.Insert(prefix[..level + 1], node);
    }
    if |prefix| == bits {
      var (_, leaf) := EvalLevel(I.gl, I.Leaf(), isLeader, node, pub.leaf, prefix[bits - 1]);
      return LeafShare(leaf);
    } else {
      return InnerShare(lastInnerOutput.value);
    }
  }

  /** `Idpf::eval`. Whatever the cache holds, provided it was only ever used with this key and
      public share, the result is that of the uncached walk, and the cache stays sound. */
  method Eval<VI, VL>(I: Instance<VI, VL>, aggId: nat, pub: PublicShare<VI, VL>, key: Seed, prefix: seq<bool>, cache: IdpfCache)
    returns (res: Result<OutputShare<VI, VL>, IdpfError>)
    requires cache.Valid() && Sound(I, pub, aggId == 0, key, cache.inserted)
    modifies cache
    ensures cache.Valid() && Sound(I, pub, aggId == 0, key, cache.inserted)
    ensures res == if aggId > 1 then Failure(InvalidAggregator)
                   else if |prefix| == 0 then Failure(EmptyPrefix)
                   else if |prefix| > |pub.inner| + 1 then Failure(PrefixTooLong)
                   else Success(EvalSpec(I, pub, aggId == 0, key, prefix))
  {
    if aggId > 1 {
      return Failure(InvalidAggregator);
    }
    var isLeader := aggId == 0;
    if |prefix| == 0 {
      return Failure(EmptyPrefix);
    }
    if |prefix| > |pub.inner| + 1 {
      return Failure(PrefixTooLong);
    }
    var out: OutputShare<VI, VL>;
    if |prefix| > 1 {
      var n := |prefix| - 1;
      while n > 0
        invariant 0 <= n < |prefix| && cache.Valid() && Sound(I, pub, isLeader, key, cache.inserted)
      {
        var hit := cache.Get(prefix[..n]);
        if hit.Some? {
          out := EvalFromNode(I, isLeader, pub, n, hit.value, prefix, cache, key);
          return Success(out);
        }
        n := n - 1;
      }
    }
    out := EvalFromNode(I, isLeader, pub, 0, Node(key, !isLeader), prefix, cache, key);
    return Success(out);
  }

  /** Cache transparency over a whole sequence of evaluations with one cache. */
  method EvalMany<VI, VL>(I: Instance<VI, VL>, aggId: nat, pub: PublicShare<VI, VL>, key: Seed, prefixes: seq<seq<bool>>, kind: CacheKind)
    returns (outs: seq<OutputShare<VI, VL>>)
    requires aggId <= 1 && forall i :: 0 <= i < |prefixes| ==> 1 <= |prefixes[i]| <= |pub.inner| + 1
    ensures |outs| == |prefixes|
    ensures forall i :: 0 <= i < |prefixes| ==> outs[i] == EvalSpec(I, pub, aggId == 0, key, prefixes[i])
  {
    hide EvalSpec;
    var cache := new IdpfCache(kind);
    outs := [];
    for i := 0 to |prefixes|
      invariant fresh(cache) && cache.Valid() && Sound(I, pub, aggId == 0, key, cache.inserted)
      invariant |outs| == i && forall j :: 0 <= j < i ==> outs[j] == EvalSpec(I, pub, aggId == 0, key, prefixes[j])
    {
      var r := Eval(I, aggId, pub, key, prefixes[i], cache);
      outs := outs + [r.value];
    }
  }
}
