/** The append-only binary tree of src/bt.rs. An owned tree is a value; a mutable reference into it is
    the path of the place it refers to. */
module BinaryTree {
  import opened Wrappers
  import opened Codec

  type Path = seq<bool>

  /** `SubTree`: an optional boxed node. */
  datatype Tree<V> = Empty | Node(value: V, left: Tree<V>, right: Tree<V>)

  datatype InsertError<V> = InsertNonEmptyNode(value: V) | UnreachableNode(value: V)

  function Child<V>(t: Tree<V>, bit: bool): Tree<V>
    requires t.Node?
  {
    if bit then t.right else t.left
  }

  /** The subtree at the end of a path; nothing when the path leaves the tree. */
  function At<V>(t: Tree<V>, path: Path): Option<Tree<V>> {
    if path == [] then Some(t)
    else if t.Empty? then None
    else At(Child(t, path[0]), path[1..])
  }

  /** The abstract map: the value stored at a path. */
  function Lookup<V>(t: Tree<V>, path: Path): Option<V> {
    match At(t, path)
    case Some(Node(v, _, _)) => Some(v)
    case _ => None
  }

  /** The tree with the place at the end of the path assigned. */
  function Assign<V>(t: Tree<V>, path: Path, sub: Tree<V>): Tree<V>
    requires At(t, path).Some?
  {
    if path == [] then sub
    else if path[0] then Node(t.value, t.left, Assign(t.right, path[1..], sub))
    else Node(t.value, Assign(t.left, path[1..], sub), t.right)
  }

  /** A new node without children. */
  function NewNode<V>(v: V): Tree<V> { Node(v, Empty, Empty) }

  /** When a value can be inserted: the path ends at an empty place of the tree. */
  predicate Insertable<V>(t: Tree<V>, path: Path) { At(t, path) == Some(Empty) }

  class BinaryTree<V> {
    var root: Tree<V>

    constructor ()
      ensures root == Empty
    {
      root := Empty;
    }

    /** `insert`: stores the value at an empty place that the tree reaches; otherwise nothing changes
        and the error says which of the two conditions failed. */
    method Insert(path: Path, value: V) returns (res: Result<(), InsertError<V>>)
      modifies this
      ensures Insertable(old(root), path) ==> res == Success(()) && root == Assign(old(root), path, NewNode(value))
      ensures !Insertable(old(root), path) ==> root == old(root)
      ensures !Insertable(old(root), path) ==>
                res == Failure(if At(old(root), path).None? then UnreachableNode(value) else InsertNonEmptyNode(value))
    {
      var node := root;
      for i := 0 to |path|
        invariant At(root, path) == At(node, path[i..])
      {
        if node.Empty? {
          return Failure(UnreachableNode(value));
        }
        node := Child(node, path[i]);
      }
      if node.Node? {
        return Failure(InsertNonEmptyNode(value));
      }
      root := Assign(root, path, NewNode(value));
      return Success(());
    }

    /** `get`. */
    method Get(path: Path) returns (r: Option<V>)
      ensures r == Lookup(root, path)
    {
      var node := root;
      for i := 0 to |path|
        invariant At(root, path) == At(node, path[i..])
      {
        if node.Empty? {
          return None;
        }
        node := Child(node, path[i]);
      }
      return if node.Node? then Some(node.value) else None;
    }
  }

  // ------------------------------------------------------------------ the map

  lemma {:induction false} AtAssign<V>(t: Tree<V>, path: Path, sub: Tree<V>, tail: Path)
    requires At(t, path).Some?
    ensures At(Assign(t, path, sub), path + tail) == At(sub, tail)
    decreases |path|
  {
    if path != [] {
      AtAssign(Child(t, path[0]), path[1..], sub, tail);
      assert (path + tail)[1..] == path[1..] + tail;
    } else {
      assert path + tail == tail;
    }
  }

  /** Inserting changes the map at the inserted path only. */
  lemma {:induction false} InsertLookup<V>(t: Tree<V>, path: Path, v: V, q: Path)
    requires Insertable(t, path)
    ensures Lookup(Assign(t, path, NewNode(v)), q) == if q == path then Some(v) else Lookup(t, q)
    decreases |path|
  {
    if path == [] {
      if q != [] {
        assert At(Tree<V>.Empty, q[1..]) == if q[1..] == [] then Some(Empty) else None;
      }
    } else if q != [] {
      if q[0] == path[0] {
        InsertLookup(Child(t, path[0]), path[1..], v, q[1..]);
        assert q == [q[0]] + q[1..] && path == [path[0]] + path[1..];
      }
    }
  }

  /** A place is insertable exactly when it holds no value and its parent does (the root needs none). */
  lemma {:induction false} InsertableIff<V>(t: Tree<V>, path: Path)
    ensures Insertable(t, path)
            <==> Lookup(t, path).None? && (path == [] || Lookup(t, path[..|path| - 1]).Some?)
    decreases |path|
  {
    if path != [] && t.Node? {
      InsertableIff(Child(t, path[0]), path[1..]);
      var n := |path| - 1;
      if n > 0 {
        assert path[..n][1..] == path[1..][..n - 1];
      }
    }
  }

  /** The domain of the map is closed under prefixes. */
  lemma {:induction false} PrefixClosed<V>(t: Tree<V>, path: Path, n: nat)
    requires n <= |path| && Lookup(t, path).Some?
    ensures Lookup(t, path[..n]).Some?
    decreases |path|
  {
    if n > 0 {
      PrefixClosed(Child(t, path[0]), path[1..], n - 1);
      assert path[..n][1..] == path[1..][..n - 1];
    }
  }

  /** The tree represents the map. */
  ghost predicate Represents<V>(t: Tree<V>, m: map<Path, V>) {
    forall q: Path :: Lookup(t, q) == if q in m then Some(m[q]) else None
  }

  /** The specification of one insert on maps: paths grow one bit at a time from the root. */
  function MapInsert<V>(m: map<Path, V>, path: Path, v: V): map<Path, V> {
    if path !in m && (path == [] || path[..|path| - 1] in m) then m[path := v] else m
  }

  function MapRun<V>(m: map<Path, V>, ops: seq<(Path, V)>): map<Path, V> {
    if ops == [] then m
    else
      var n := |ops| - 1;
      MapInsert(MapRun(m, ops[..n]), ops[n].0, ops[n].1)
  }

  lemma {:induction false} InsertRepresents<V>(t: Tree<V>, m: map<Path, V>, path: Path, v: V)
    requires Represents(t, m)
    ensures Represents(if Insertable(t, path) then Assign(t, path, NewNode(v)) else t, MapInsert(m, path, v))
  {
    hide Lookup;
    InsertableIff(t, path);
    if Insertable(t, path) {
      forall q: Path ensures Lookup(Assign(t, path, NewNode(v)), q) == if q in m[path := v] then Some(m[path := v][q]) else None {
        InsertLookup(t, path, v, q);
      }
    }
  }

  /** The map only grows, and keeps every value it holds. */
  lemma {:induction false} MapRunGrows<V>(m: map<Path, V>, ops: seq<(Path, V)>, q: Path)
    requires q in m
    ensures q in MapRun(m, ops) && MapRun(m, ops)[q] == m[q]
    decreases |ops|
  {
    if ops != [] {
      MapRunGrows(m, ops[..|ops| - 1], q);
    }
  }

  /** Every run of inserts on a new tree represents the run on the empty map. */
  method RunInserts<V>(ops: seq<(Path, V)>) returns (tree: BinaryTree<V>)
    ensures fresh(tree) && Represents(tree.root, MapRun(map[], ops))
  {
    tree := new BinaryTree();
    EmptyRepresents<V>();
    for i := 0 to |ops|
      invariant fresh(tree) && Represents(tree.root, MapRun(map[], ops[..i]))
    {
      assert ops[..i + 1][..i] == ops[..i];
      InsertRepresents(tree.root, MapRun(map[], ops[..i]), ops[i].0, ops[i].1);
      var _ := tree.Insert(ops[i].0, ops[i].1);
    }
    assert ops[..|ops|] == ops;
  }

  lemma {:induction false} EmptyRepresents<V>()
    ensures Represents(Tree<V>.Empty, map[])
  {
  }

  // ------------------------------------------------------------------ the codec

  const LEAF: bv8 := 0
  const INNER: bv8 := 1

  /** Pre-order, with a one-byte marker for every place. */
  function PreOrder<V>(c: ValueCodec<V>, t: Tree<V>): Bytes {
    match t
    case Empty => [LEAF]
    case Node(v, l, r) => [INNER] + (c.encode(v) + (PreOrder(c, l) + PreOrder(c, r)))
  }

  /** The format, at every place of the tree: an empty place is one zero byte; a stored value is a one byte
      and its encoding, followed by everything below its left child and then by everything below its
      right child. */
  lemma {:induction false} PreOrderAt<V>(c: ValueCodec<V>, t: Tree<V>, p: Path) returns (before: Bytes, after: Bytes)
    requires At(t, p).Some?
    ensures PreOrder(c, t) == before + PreOrder(c, At(t, p).value) + after
    ensures match At(t, p).value
            case Empty => PreOrder(c, At(t, p).value) == [0]
            case Node(v, l, r) =>
              && PreOrder(c, At(t, p).value) == [1] + c.encode(v) + PreOrder(c, l) + PreOrder(c, r)
              && At(t, p + [false]) == Some(l) && At(t, p + [true]) == Some(r)
  {
    before, after := SubtreeBytes(c, t, p);
    PlaceFormat(c, At(t, p).value);
    hide PreOrder, At;
    if At(t, p).value.Node? {
      AtChildren(t, p);
    }
  }

  lemma {:induction false} PlaceFormat<V>(c: ValueCodec<V>, t: Tree<V>)
    ensures match t
            case Empty => PreOrder(c, t) == [0]
            case Node(v, l, r) => PreOrder(c, t) == [1] + c.encode(v) + PreOrder(c, l) + PreOrder(c, r)
  {
  }

  lemma {:induction false} SubtreeBytes<V>(c: ValueCodec<V>, t: Tree<V>, p: Path) returns (before: Bytes, after: Bytes)
    requires At(t, p).Some?
    ensures PreOrder(c, t) == before + PreOrder(c, At(t, p).value) + after
    decreases |p|
  {
    if p == [] {
      before, after := [], [];
    } else {
      PlaceFormat(c, t);
      before, after := SubtreeBytes(c, Child(t, p[0]), p[1..]);
      hide PreOrder;
      before, after := Surround(c, t, p[0], before, PreOrder(c, At(t, p).value), after);
    }
  }

  /** What surrounds a part of a child's encoding in the parent's. */
  lemma {:induction false} Surround<V>(c: ValueCodec<V>, t: Tree<V>, bit: bool, before: Bytes, s: Bytes, after: Bytes) returns (before': Bytes, after': Bytes)
    requires t.Node? && PreOrder(c, Child(t, bit)) == before + s + after
    requires PreOrder(c, t) == [1] + c.encode(t.value) + PreOrder(c, t.left) + PreOrder(c, t.right)
    ensures PreOrder(c, t) == before' + s + after'
  {
    hide PreOrder;
    var e, l, r := [1] + c.encode(t.value), PreOrder(c, t.left), PreOrder(c, t.right);
    if bit {
      before', after' := e + l + before, after;
      Regroup5(e, l, before, s, after);
    } else {
      before', after' := e + before, after + r;
      Regroup4(e, before, s, after, r);
    }
  }

  lemma {:induction false} Regroup4(a: Bytes, b: Bytes, c: Bytes, d: Bytes, e: Bytes)
    ensures a + (b + c + d) + e == a + b + c + (d + e)
  {
  }

  lemma {:induction false} Regroup5(a: Bytes, b: Bytes, c: Bytes, d: Bytes, e: Bytes)
    ensures a + b + (c + d + e) == a + b + c + d + e
  {
  }

  lemma {:induction false} AtChildren<V>(t: Tree<V>, p: Path)
    requires At(t, p).Some? && At(t, p).value.Node?
    ensures At(t, p + [false]) == Some(At(t, p).value.left) && At(t, p + [true]) == Some(At(t, p).value.right)
  {
    if p == [] {
      assert p + [false] == [false] && p + [true] == [true];
      assert [false][1..] == [] && [true][1..] == [];
    } else {
      assert (p + [false])[1..] == p[1..] + [false] && (p + [true])[1..] == p[1..] + [true];
      AtChildren(if p[0] then t.right else t.left, p[1..]);
    }
  }

  function Size<V>(t: Tree<V>): nat {
    match t
    case Empty => 1
    case Node(_, l, r) => 1 + Size(l) + Size(r)
  }

  /** The encodings of a stack of trees, top first; the top is the last element. */
  function PreOrders<V>(c: ValueCodec<V>, stack: seq<Tree<V>>): Bytes {
    if stack == [] then [] else PreOrder(c, stack[|stack| - 1]) + PreOrders(c, stack[..|stack| - 1])
  }

  function Sizes<V>(stack: seq<Tree<V>>): nat {
    if stack == [] then 0 else Size(stack[|stack| - 1]) + Sizes(stack[..|stack| - 1])
  }

  lemma {:induction false} PushTwo<V>(c: ValueCodec<V>, stack: seq<Tree<V>>, r: Tree<V>, l: Tree<V>)
    ensures PreOrders(c, stack + [r] + [l]) == PreOrder(c, l) + (PreOrder(c, r) + PreOrders(c, stack))
    ensures Sizes(stack + [r] + [l]) == Size(l) + Size(r) + Sizes(stack)
  {
    var s := stack + [r] + [l];
    assert s[..|s| - 1] == stack + [r] && (stack + [r])[..|stack|] == stack;
  }

  lemma {:induction false} EmptyStack<V>(c: ValueCodec<V>)
    ensures PreOrders(c, []) == []
  {
  }

  lemma {:induction false} StackTop<V>(c: ValueCodec<V>, stack: seq<Tree<V>>)
    requires stack != []
    ensures PreOrders(c, stack) == PreOrder(c, stack[|stack| - 1]) + PreOrders(c, stack[..|stack| - 1])
    ensures Sizes(stack) == Size(stack[|stack| - 1]) + Sizes(stack[..|stack| - 1])
  {
  }

  /** `encode`: the explicit-stack traversal emits the pre-order encoding. */
  method Encode<V>(c: ValueCodec<V>, t: Tree<V>) returns (bytes: Bytes)
    ensures bytes == PreOrder(c, t)
  {
    hide PreOrders, Sizes;
    if t.Empty? {
      return [LEAF];
    }
    bytes := [INNER] + c.encode(t.value);
    var stack := [t.right, t.left];
    assert stack == [] + [t.right] + [t.left];
    PushTwo(c, [], t.right, t.left);
    EmptyStack(c);
    while stack != []
      invariant bytes + PreOrders(c, stack) == PreOrder(c, t)
      decreases Sizes(stack)
    {
      var elem := stack[|stack| - 1];
      var below := stack[..|stack| - 1];
      StackTop(c, stack);
      match elem {
        case Empty =>
          LeafEmitted(c, bytes, stack);
          bytes := bytes + [LEAF];
          stack := below;
        case Node(v, l, r) =>
          EncodeStep(c, bytes, below, v, l, r);
          bytes := bytes + [INNER] + c.encode(v);
          stack := below + [r] + [l];
      }
    }
  }

  lemma {:induction false} LeafEmitted<V>(c: ValueCodec<V>, bytes: Bytes, stack: seq<Tree<V>>)
    requires stack != [] && stack[|stack| - 1].Empty?
    ensures bytes + PreOrders(c, stack) == bytes + [LEAF] + PreOrders(c, stack[..|stack| - 1])
    ensures Sizes(stack[..|stack| - 1]) < Sizes(stack)
  {
    var w := PreOrders(c, stack[..|stack| - 1]);
    assert bytes + ([LEAF] + w) == bytes + [LEAF] + w;
  }

  lemma {:induction false} EncodeStep<V>(c: ValueCodec<V>, bytes: Bytes, below: seq<Tree<V>>, v: V, l: Tree<V>, r: Tree<V>)
    ensures bytes + (PreOrder(c, Node(v, l, r)) + PreOrders(c, below))
         == bytes + [INNER] + c.encode(v) + PreOrders(c, below + [r] + [l])
    ensures Sizes(below + [r] + [l]) < Size(Node(v, l, r)) + Sizes(below)
  {
    hide PreOrders, Sizes;
    PushTwo(c, below, r, l);
    var a, b, d, e := PreOrder(c, l), PreOrder(c, r), PreOrders(c, below), c.encode(v);
    assert bytes + ([INNER] + (e + (a + b)) + d) == bytes + [INNER] + e + (a + (b + d));
  }

  /** Parsing one subtree from the front of the bytes. */
  function Parse<V>(c: ValueCodec<V>, b: Bytes): (r: Option<(Tree<V>, Bytes)>)
    ensures r.Some? ==> |r.value.1| < |b|
    decreases |b|
  {
    if b == [] then None
    else if b[0] == LEAF then Some((Empty, b[1..]))
    else if b[0] != INNER then None
    else
      match c.decode(b[1..])
      case None => None
      case Some((v, b')) =>
        if |b'| >= |b| then None
        else
          match Parse(c, b')
          case None => None
          case Some((l, b'')) =>
            match Parse(c, b'')
            case None => None
            case Some((r, rest)) => Some((Node(v, l, r), rest))
  }

  lemma {:induction false} DecodeCanonical<V(!new)>(c: ValueCodec<V>, b: Bytes)
    requires Inverse(c) && c.decode(b).Some?
    ensures b == c.encode(c.decode(b).value.0) + c.decode(b).value.1 && |c.decode(b).value.1| <= |b|
  {
  }

  /** Parsing undoes the pre-order encoding. */
  lemma {:induction false} ParsePreOrder<V(!new)>(c: ValueCodec<V>, t: Tree<V>, rest: Bytes)
    requires Inverse(c)
    ensures Parse(c, PreOrder(c, t) + rest) == Some((t, rest))
  {
    match t
    case Empty =>
      assert ([LEAF] + rest)[1..] == rest;
    case Node(v, l, r) =>
      var a, d, e := PreOrder(c, l), PreOrder(c, r), c.encode(v);
      var b := PreOrder(c, t) + rest;
      assert b[1..] == e + (a + (d + rest));
      ParsePreOrder(c, l, d + rest);
      ParsePreOrder(c, r, rest);
  }

  /** What parses is the encoding of the tree and the rest: no other bytes decode to it. */
  lemma {:induction false} PreOrderParse<V(!new)>(c: ValueCodec<V>, b: Bytes)
    requires Inverse(c) && Parse(c, b).Some?
    ensures b == PreOrder(c, Parse(c, b).value.0) + Parse(c, b).value.1
    decreases |b|
  {
    var (t, rest) := Parse(c, b).value;
    assert b == [b[0]] + b[1..];
    if t.Node? {
      DecodeCanonical(c, b[1..]);
      var (v, b') := c.decode(b[1..]).value;
      hide Inverse;
      PreOrderParse(c, b');
      var b'' := Parse(c, b').value.1;
      PreOrderParse(c, b'');
      Regroup(c.encode(v), PreOrder(c, t.left), PreOrder(c, t.right), rest);
    }
  }

  lemma {:induction false} Regroup(e: Bytes, a: Bytes, d: Bytes, rest: Bytes)
    ensures [INNER] + (e + (a + (d + rest))) == [INNER] + (e + (a + d)) + rest
  {
  }

  // ------------------------------------------------------------------ the decoder's worklist

  /** The places on the stack are empty places of the tree, and pairwise apart. */
  predicate Pending<V>(t: Tree<V>, stack: seq<Path>) {
    && (forall i :: 0 <= i < |stack| ==> At(t, stack[i]) == Some(Empty))
    && (forall i, j :: 0 <= i < j < |stack| ==> stack[i] != stack[j])
  }

  lemma {:induction false} AssignApart<V>(t: Tree<V>, path: Path, sub: Tree<V>, q: Path)
    requires At(t, path) == Some(Empty) && At(t, q) == Some(Empty) && q != path
    ensures At(Assign(t, path, sub), q) == Some(Empty)
    decreases |path|
  {
    if path != [] && q != [] && q[0] == path[0] {
      AssignApart(Child(t, path[0]), path[1..], sub, q[1..]);
      assert q == [q[0]] + q[1..] && path == [path[0]] + path[1..];
    }
  }

  lemma {:induction false} AssignTwice<V>(t: Tree<V>, path: Path, sub: Tree<V>, tail: Path, leaf: Tree<V>)
    requires At(t, path).Some? && At(sub, tail).Some?
    ensures At(Assign(t, path, sub), path + tail).Some?
    ensures Assign(Assign(t, path, sub), path + tail, leaf) == Assign(t, path, Assign(sub, tail, leaf))
    decreases |path|
  {
    AtAssign(t, path, sub, tail);
    if path != [] {
      AssignTwice(Child(t, path[0]), path[1..], sub, tail, leaf);
      assert (path + tail)[1..] == path[1..] + tail;
    } else {
      assert path + tail == tail;
    }
  }

  /** What the decoder's loop still has to do: parse a subtree for each pending place, top first. */
  function Complete<V>(c: ValueCodec<V>, t: Tree<V>, stack: seq<Path>, b: Bytes): Option<(Tree<V>, Bytes)>
    decreases |stack|
  {
    if stack == [] then Some((t, b))
    else
      var top := stack[|stack| - 1];
      match Parse(c, b)
      case None => None
      case Some((sub, rest)) =>
        if At(t, top).None? then None
        else Complete(c, Assign(t, top, sub), stack[..|stack| - 1], rest)
  }

  lemma {:induction false} AssignSame<V>(t: Tree<V>, path: Path)
    requires At(t, path) == Some(Empty)
    ensures Assign(t, path, Empty) == t
    decreases |path|
  {
    if path != [] {
      AssignSame(Child(t, path[0]), path[1..]);
    }
  }

  /** Reading a leaf marker for the top place. */
  lemma {:induction false} LeafStep<V>(c: ValueCodec<V>, t: Tree<V>, stack: seq<Path>, b: Bytes)
    requires stack != [] && Pending(t, stack) && b != [] && b[0] == LEAF
    ensures Complete(c, t, stack, b) == Complete(c, t, stack[..|stack| - 1], b[1..])
  {
    AssignSame(t, stack[|stack| - 1]);
  }

  /** Reading a node for the top place: its two children become pending, the left one first. */
  lemma {:induction false} NodeStep<V>(c: ValueCodec<V>, t: Tree<V>, below: seq<Path>, p: Path, b: Bytes)
    requires Pending(t, below + [p]) && At(t, p) == Some(Empty) && b != [] && b[0] == INNER
    requires c.decode(b[1..]).Some? && |c.decode(b[1..]).value.1| < |b|
    ensures var (v, b') := c.decode(b[1..]).value;
            Complete(c, t, below + [p], b) == Complete(c, Assign(t, p, NewNode(v)), below + [p + [true]] + [p + [false]], b')
  {
    var (v, b') := c.decode(b[1..]).value;
    var t1, right, left := Assign(t, p, NewNode(v)), p + [true], p + [false];
    var stack := below + [right] + [left];
    assert stack[..|stack| - 1] == below + [right] && (below + [right])[..|below|] == below;
    assert (below + [p])[..|below|] == below;
    AtAssign(t, p, NewNode(v), [false]);
    NewNodePlaces(v);
    if Parse(c, b').Some? {
      var (l, b'') := Parse(c, b').value;
      ChildAssign(t, p, v, l);
      if Parse(c, b'').Some? {
        BothChildren(t, p, v, l, Parse(c, b'').value.0);
      }
    }
    hide Assign, At, Parse;
  }

  lemma {:induction false} NewNodePlaces<V>(v: V)
    ensures At(NewNode(v), [false]) == Some(Empty) && At(NewNode(v), [true]) == Some(Empty)
  {
    assert [false][1..] == [] && [true][1..] == [];
  }

  lemma {:induction false} RightPlace<V>(v: V, l: Tree<V>, r: Tree<V>)
    ensures At(Node(v, l, r), [true]) == Some(r)
  {
    assert [true][1..] == [];
  }

  lemma {:induction false} ChildAssign<V>(t: Tree<V>, p: Path, v: V, l: Tree<V>)
    requires At(t, p) == Some(Empty)
    ensures At(Assign(t, p, NewNode(v)), p + [false]).Some?
    ensures Assign(Assign(t, p, NewNode(v)), p + [false], l) == Assign(t, p, Node(v, l, Empty))
    ensures At(Assign(t, p, Node(v, l, Empty)), p + [true]) == Some(Empty)
  {
    NewNodePlaces(v);
    RightPlace(v, l, Empty);
    assert Assign(NewNode(v), [false], l) == Node(v, l, Empty);
    AssignTwice(t, p, NewNode(v), [false], l);
    AtAssign(t, p, Node(v, l, Empty), [true]);
  }

  lemma {:induction false} BothChildren<V>(t: Tree<V>, p: Path, v: V, l: Tree<V>, r: Tree<V>)
    requires At(t, p) == Some(Empty)
    ensures At(Assign(t, p, Node(v, l, Empty)), p + [true]).Some?
    ensures Assign(Assign(t, p, Node(v, l, Empty)), p + [true], r) == Assign(t, p, Node(v, l, r))
  {
    RightPlace(v, l, Empty);
    assert Assign(Node(v, l, Empty), [true], r) == Node(v, l, r);
    AssignTwice(t, p, Node(v, l, Empty), [true], r);
  }

  /** The places stay pending when the top one is filled and its children are pushed. */
  lemma {:induction false} PushPending<V>(t: Tree<V>, below: seq<Path>, p: Path, v: V)
    requires Pending(t, below + [p])
    ensures At(t, p) == Some(Empty)
    ensures Pending(Assign(t, p, NewNode(v)), below + [p + [true]] + [p + [false]])
  {
    var stack := below + [p];
    assert stack[|below|] == p;
    var t' := Assign(t, p, NewNode(v));
    NewNodePlaces(v);
    AtAssign(t, p, NewNode(v), [false]);
    AtAssign(t, p, NewNode(v), [true]);
    var stack' := below + [p + [true]] + [p + [false]];
    forall i | 0 <= i < |below| ensures At(t', stack'[i]) == Some(Empty) && stack'[i] != p + [true] && stack'[i] != p + [false] {
      assert stack[i] == below[i] == stack'[i];
      AssignApart(t, p, NewNode(v), below[i]);
      NotBelow(t, p, below[i], true);
      NotBelow(t, p, below[i], false);
    }
    forall i, j | 0 <= i < j < |stack'| ensures stack'[i] != stack'[j] {
      if j < |below| {
        assert stack[i] == stack'[i] && stack[j] == stack'[j];
      } else if i >= |below| {
        assert (p + [true])[|p|] && !(p + [false])[|p|];
      }
    }
  }

  /** Nothing lies below an empty place. */
  lemma {:induction false} NotBelow<V>(t: Tree<V>, p: Path, q: Path, bit: bool)
    requires At(t, p) == Some(Empty) && At(t, q) == Some(Empty)
    ensures q != p + [bit]
    decreases |p|
  {
    if p != [] && q != [] && q[0] == p[0] {
      NotBelow(Child(t, p[0]), p[1..], q[1..], bit);
      assert (p + [bit])[1..] == p[1..] + [bit];
    } else if p == [] {
      assert q == [] || At(t, q) == None;
    } else {
      assert (p + [bit])[0] == p[0];
    }
  }

  /** `decode_with_param`: the explicit-stack decoder accepts exactly what parses, and builds that
      tree. Every iteration reads at least one byte. */
  method Decode<V(!new)>(c: ValueCodec<V>, bytes: Bytes) returns (r: Option<(Tree<V>, Bytes)>)
    requires Inverse(c)
    ensures r == Parse(c, bytes)
  {
    hide Inverse, Complete, Pending;
    if bytes == [] || (bytes[0] != LEAF && bytes[0] != INNER) {
      return None;
    }
    if bytes[0] == LEAF {
      return Some((Empty, bytes[1..]));
    }
    var first := c.decode(bytes[1..]);
    if first.None? {
      return None;
    }
    DecodeCanonical(c, bytes[1..]);
    var (value, b) := first.value;
    var t := NewNode(value);
    var stack: seq<Path> := [[true], [false]];
    StartPending(c, bytes);
    while stack != []
      invariant Pending(t, stack) && Complete(c, t, stack, b) == Parse(c, bytes)
      decreases |b|
    {
      var p, below := stack[|stack| - 1], stack[..|stack| - 1];
      assert stack == below + [p];
      if b == [] || (b[0] != LEAF && b[0] != INNER) {
        NoParse(c, t, stack, b);
        return None;
      }
      if b[0] == LEAF {
        LeafStep(c, t, stack, b);
        PopPending(t, stack);
        b, stack := b[1..], below;
      } else {
        var next := c.decode(b[1..]);
        if next.None? {
          NoParse(c, t, stack, b);
          return None;
        }
        assert next == c.decode(b[1..]);
        DecodeCanonical(c, b[1..]);
        PushPending(t, below, p, next.value.0);
        NodeStep(c, t, below, p, b);
        t := Assign(t, p, NewNode(next.value.0));
        stack := below + [p + [true]] + [p + [false]];
        b := next.value.1;
      }
    }
    Completed(c, t, b);
    return Some((t, b));
  }

  lemma {:induction false} NoParse<V>(c: ValueCodec<V>, t: Tree<V>, stack: seq<Path>, b: Bytes)
    requires stack != [] && Parse(c, b).None?
    ensures Complete(c, t, stack, b).None?
  {
  }

  lemma {:induction false} Completed<V>(c: ValueCodec<V>, t: Tree<V>, b: Bytes)
    ensures Complete(c, t, [], b) == Some((t, b))
  {
  }

  lemma {:induction false} PopPending<V>(t: Tree<V>, stack: seq<Path>)
    requires stack != [] && Pending(t, stack)
    ensures Pending(t, stack[..|stack| - 1])
  {
  }

  /** After the root's value, its two children are pending. */
  lemma {:induction false} StartPending<V>(c: ValueCodec<V>, bytes: Bytes)
    requires bytes != [] && bytes[0] == INNER && c.decode(bytes[1..]).Some? && |c.decode(bytes[1..]).value.1| < |bytes|
    ensures var (v, b) := c.decode(bytes[1..]).value;
            Pending(NewNode(v), [[true], [false]]) && Complete(c, NewNode(v), [[true], [false]], b) == Parse(c, bytes)
  {
    hide Parse, Complete, Pending, Assign;
    var (v, b) := c.decode(bytes[1..]).value;
    var root: Path := [];
    assert [] + [root] == [root] && [] + [[true]] + [[false]] == [[true], [false]];
    assert root + [true] == [true] && root + [false] == [false];
    RootPending<V>();
    PushPending(Tree<V>.Empty, [], root, v);
    NodeStep(c, Tree<V>.Empty, [], root, bytes);
    RootComplete(c, bytes, v);
  }

  lemma {:induction false} RootPending<V>()
    ensures Pending(Tree<V>.Empty, [[]])
  {
  }

  lemma {:induction false} RootComplete<V>(c: ValueCodec<V>, bytes: Bytes, v: V)
    ensures Complete(c, Tree<V>.Empty, [[]], bytes) == Parse(c, bytes)
    ensures Assign(Tree<V>.Empty, [], NewNode(v)) == NewNode(v)
  {
    hide Parse;
    var stack: seq<Path> := [[]];
    assert stack[..0] == [];
    if Parse(c, bytes).Some? {
      Completed(c, Parse(c, bytes).value.0, Parse(c, bytes).value.1);
    }
  }

  /** The codec round trip in both directions, for any tree and any bytes. */
  lemma {:induction false} CodecInverse<V(!new)>(c: ValueCodec<V>, t: Tree<V>, b: Bytes)
    requires Inverse(c)
    ensures Parse(c, PreOrder(c, t)) == Some((t, []))
    ensures Parse(c, b) == Some((t, [])) ==> b == PreOrder(c, t)
  {
    ParsePreOrder(c, t, []);
    assert PreOrder(c, t) + [] == PreOrder(c, t);
    if Parse(c, b) == Some((t, [])) {
      PreOrderParse(c, b);
    }
  }
}
