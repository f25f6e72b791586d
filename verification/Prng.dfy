/** Pseudorandom streams: the buffered rejection sampler of src/prng.rs, proved equal to unbuffered
    sampling from the same bytes, and the block-wise key stream of src/vdaf/xof.rs, whose output
    depends only on the stream position. */
module Prng {
  import opened Wrappers
  import BitPacking

  type byte = bv8

  /** A field as the sampler sees it: the encoded size of an element, and the interpretation of that
      many random bytes, which rejects integers that are not below the modulus. */
  datatype FieldCodec<!E> = FieldCodec(size: nat, accept: seq<byte> -> Option<E>)

  /** A seed stream: the byte at every position. */
  type Stream = nat -> byte

  function Bytes(stream: Stream, pos: nat, n: nat): (b: seq<byte>)
    ensures |b| == n
  {
    seq(n, i requires 0 <= i < n => stream(pos + i))
  }

  /** Unbuffered rejection sampling, as in `generate_random`: try consecutive chunks. Some chunk within
      `distance` rejections is acceptable. Returns the element and the position after its chunk. */
  function Sample<E>(stream: Stream, f: FieldCodec<E>, pos: nat, distance: nat): (E, nat)
    requires AcceptableAt(stream, f, pos, distance)
    decreases distance
  {
    match f.accept(Bytes(stream, pos, f.size))
    case Some(x) => (x, pos + f.size)
    case None => Sample(stream, f, pos + f.size, distance - 1)
  }

  /** Within the next `distance` chunks there is one that encodes an element. */
  predicate AcceptableAt<E>(stream: Stream, f: FieldCodec<E>, pos: nat, distance: nat)
    decreases distance
  {
    f.accept(Bytes(stream, pos, f.size)).Some? || (distance > 0 && AcceptableAt(stream, f, pos + f.size, distance - 1))
  }

  lemma {:induction false} SampleHit<E>(stream: Stream, f: FieldCodec<E>, pos: nat, distance: nat)
    requires AcceptableAt(stream, f, pos, distance)
    ensures var x := f.accept(Bytes(stream, pos, f.size));
            x.Some? ==> Sample(stream, f, pos, distance) == (x.value, pos + f.size)
  {
  }

  lemma {:induction false} SampleMiss<E>(stream: Stream, f: FieldCodec<E>, pos: nat, distance: nat)
    requires AcceptableAt(stream, f, pos, distance) && f.accept(Bytes(stream, pos, f.size)).None?
    ensures distance > 0 && AcceptableAt(stream, f, pos + f.size, distance - 1)
    ensures Sample(stream, f, pos, distance) == Sample(stream, f, pos + f.size, distance - 1)
  {
  }

  /** Sampling takes the first acceptable of the consecutive chunks, and ends behind it. */
  lemma {:induction false} SampleIsFirst<E>(stream: Stream, f: FieldCodec<E>, pos: nat, distance: nat) returns (k: nat)
    requires AcceptableAt(stream, f, pos, distance)
    ensures k <= distance && 0 <= k * f.size
    ensures forall j: nat :: j < k ==> 0 <= j * f.size && f.accept(Bytes(stream, pos + j * f.size, f.size)).None?
    ensures f.accept(Bytes(stream, pos + k * f.size, f.size)).Some?
    ensures Sample(stream, f, pos, distance)
         == (f.accept(Bytes(stream, pos + k * f.size, f.size)).value, pos + k * f.size + f.size)
    decreases distance
  {
    if f.accept(Bytes(stream, pos, f.size)).Some? {
      k := 0;
      SampleHit(stream, f, pos, distance);
    } else {
      SampleMiss(stream, f, pos, distance);
      hide Bytes, Sample, AcceptableAt;
      var rest := SampleIsFirst(stream, f, pos + f.size, distance - 1);
      k := rest + 1;
      NextChunkAt(rest, f.size);
      forall j: nat | j < k ensures 0 <= j * f.size && f.accept(Bytes(stream, pos + j * f.size, f.size)).None? {
        if j > 0 {
          NextChunkAt(j - 1, f.size);
          assert f.accept(Bytes(stream, pos + f.size + (j - 1) * f.size, f.size)).None?;
        } else {
          NoChunkAt(f.size);
        }
      }
    }
  }

  lemma {:induction false} NoChunkAt(size: nat)
    ensures 0 * size == 0
  {
  }

  lemma {:induction false} NextChunkAt(k: nat, size: nat)
    ensures 0 <= k * size && (k + 1) * size == k * size + size
  {
  }

  const BUFFER_SIZE_IN_ELEMENTS: nat := 32

  class Prng<E> {
    /** The seed stream and how much of it has been read. */
    const stream: Stream
    var consumed: nat
    var buffer: array<byte>
    var bufferIndex: nat
    var field: FieldCodec<E>

    ghost predicate Valid()
      reads this, buffer
    {
      && 0 < field.size <= buffer.Length <= consumed
      && bufferIndex <= buffer.Length
      && forall i :: bufferIndex <= i < buffer.Length ==> buffer[i] == stream(consumed - buffer.Length + i)
    }

    /** The stream position of the next chunk. */
    ghost function Position(): nat
      requires Valid()
      reads this, buffer
    {
      consumed - buffer.Length + bufferIndex
    }

    /** `from_seed_stream`. */
    constructor (s: Stream, f: FieldCodec<E>)
      requires 0 < f.size
      ensures Valid() && fresh(buffer) && buffer.Length == BUFFER_SIZE_IN_ELEMENTS * f.size
      ensures Position() == 0 && stream == s && field == f
    {
      var b := new byte[BUFFER_SIZE_IN_ELEMENTS * f.size](i requires 0 <= i => s(i));
      stream := s;
      field := f;
      buffer := b;
      bufferIndex := 0;
      consumed := BUFFER_SIZE_IN_ELEMENTS * f.size;
    }

    /** `into_new_field`: keeps the buffer and the position, whatever the encoded sizes are. */
    method IntoNewField(f: FieldCodec<E>)
      requires Valid() && 0 < f.size <= buffer.Length
      modifies this`field
      ensures Valid() && Position() == old(Position()) && field == f
    {
      field := f;
    }

    /** `get`: the element and position that unbuffered sampling reaches. */
    method Get(ghost distance: nat) returns (x: E)
      requires Valid() && AcceptableAt(stream, field, Position(), distance)
      modifies this`bufferIndex, this`consumed, buffer
      ensures Valid() && (x, Position()) == Sample(stream, field, old(Position()), distance)
    {
      hide Sample, AcceptableAt;
      ghost var d := distance;
      ghost var target := Sample(stream, field, Position(), distance);
      while true
        invariant Valid() && AcceptableAt(stream, field, Position(), d) && Sample(stream, field, Position(), d) == target
        decreases d, bufferIndex
      {
        var found, rest := ScanBuffer(d);
        if found.Some? {
          return found.value;
        }
        d := rest;
        Refill();
      }
    }

    /** The inner loop of `get`: the first acceptable chunk that is already buffered, or none. Rejected
        chunks bring the next acceptable one closer. */
    method ScanBuffer(ghost distance: nat) returns (found: Option<E>, ghost rest: nat)
      requires Valid() && AcceptableAt(stream, field, Position(), distance)
      modifies this`bufferIndex
      ensures Valid()
      ensures found.Some? ==> (found.value, Position()) == Sample(stream, field, old(Position()), distance)
      ensures found.None? ==>
                && rest <= distance && AcceptableAt(stream, field, Position(), rest)
                && Sample(stream, field, Position(), rest) == Sample(stream, field, old(Position()), distance)
                && (rest < distance || bufferIndex == old(bufferIndex)) && buffer.Length < bufferIndex + field.size
    {
      hide Sample, AcceptableAt;
      rest := distance;
      while bufferIndex + field.size <= buffer.Length
        invariant Valid() && AcceptableAt(stream, field, Position(), rest)
        invariant Sample(stream, field, Position(), rest) == Sample(stream, field, old(Position()), distance)
        invariant rest <= distance && (rest < distance || bufferIndex == old(bufferIndex))
        decreases buffer.Length - bufferIndex
      {
        var i, j := bufferIndex, bufferIndex + field.size;
        ghost var pos := Position();
        assert buffer[i..j] == Bytes(stream, pos, field.size);
        bufferIndex := j;
        found := field.accept(buffer[i..j]);
        SampleHit(stream, field, pos, rest);
        if found.Some? {
          return;
        }
        SampleMiss(stream, field, pos, rest);
        rest := rest - 1;
      }
      found := None;
    }

    /** Shifts the unread bytes to the front and reads the rest from the stream. */
    method Refill()
      requires Valid()
      modifies this`bufferIndex, this`consumed, buffer
      ensures Valid() && Position() == old(Position()) && bufferIndex == 0
    {
      var leftOver := buffer.Length - bufferIndex;
      var unread := buffer[bufferIndex..];
      ghost var start := Position();
      for i := 0 to buffer.Length
        modifies buffer
        invariant forall k :: 0 <= k < i ==> buffer[k] == stream(start + k)
      {
        buffer[i] := if i < leftOver then unread[i] else stream(consumed + (i - leftOver));
      }
      consumed := consumed + bufferIndex;
      bufferIndex := 0;
    }
  }

  // ------------------------------------------------------------------ whole runs

  /** A use of the sampler: reading an element, with the number of rejections within which the stream
      has one, or switching to another field. */
  datatype Op<!E> = Read(distance: nat) | Switch(field: FieldCodec<E>)

  /** Every read finds an element, and every field fits the buffer. */
  predicate Readable<E>(stream: Stream, f: FieldCodec<E>, pos: nat, ops: seq<Op<E>>, capacity: nat)
    decreases |ops|
  {
    ops != [] ==>
      match ops[0]
      case Switch(next) => 0 < next.size <= capacity && Readable(stream, next, pos, ops[1..], capacity)
      case Read(distance) =>
        && AcceptableAt(stream, f, pos, distance)
        && Readable(stream, f, Sample(stream, f, pos, distance).1, ops[1..], capacity)
  }

  /** What unbuffered sampling yields. */
  function Unbuffered<E>(stream: Stream, f: FieldCodec<E>, pos: nat, ops: seq<Op<E>>, capacity: nat): seq<E>
    requires Readable(stream, f, pos, ops, capacity)
    decreases |ops|
  {
    if ops == [] then []
    else
      match ops[0]
      case Switch(next) => Unbuffered(stream, next, pos, ops[1..], capacity)
      case Read(distance) =>
        var (x, after) := Sample(stream, f, pos, distance);
        [x] + Unbuffered(stream, f, after, ops[1..], capacity)
  }

  /** Over any interleaving of `get` and `into_new_field`, the sampler yields what unbuffered sampling
      reads from the same bytes. */
  method RunOps<E>(s: Stream, f: FieldCodec<E>, ops: seq<Op<E>>) returns (out: seq<E>)
    requires 0 < f.size && Readable(s, f, 0, ops, BUFFER_SIZE_IN_ELEMENTS * f.size)
    ensures out == Unbuffered(s, f, 0, ops, BUFFER_SIZE_IN_ELEMENTS * f.size)
  {
    hide Sample, AcceptableAt;
    var prng := new Prng(s, f);
    ghost var capacity := BUFFER_SIZE_IN_ELEMENTS * f.size;
    out := [];
    var i := 0;
    while i < |ops|
      invariant 0 <= i <= |ops|
      invariant fresh(prng) && fresh(prng.buffer) && prng.Valid() && prng.stream == s && prng.buffer.Length == capacity
      invariant Readable(s, prng.field, prng.Position(), ops[i..], capacity)
      invariant out + Unbuffered(s, prng.field, prng.Position(), ops[i..], capacity) == Unbuffered(s, f, 0, ops, capacity)
    {
      assert ops[i..][1..] == ops[i + 1..];
      match ops[i] {
        case Switch(next) => prng.IntoNewField(next);
        case Read(distance) =>
          var x := prng.Get(distance);
          out := out + [x];
      }
      i := i + 1;
    }
  }

  // ------------------------------------------------------------------ the fixed-key stream

  type Block = b: seq<byte> | |b| == 16 witness seq(16, _ => 0)

  /** The eight little-endian bytes of a counter. */
  function LittleEndian(n: nat, count: nat): (b: seq<byte>)
    ensures |b| == count
  {
    if count == 0 then [] else [BitPacking.LowByte(n)] + LittleEndian(n / 256, count - 1)
  }

  /** The number with these little-endian bytes. */
  function Counter(b: seq<byte>): nat { if b == [] then 0 else (b[0] as nat) + 256 * Counter(b[1..]) }

  lemma {:induction false} CounterBytes(n: nat, count: nat)
    requires n < Power256(count)
    ensures Counter(LittleEndian(n, count)) == n
  {
    if count > 0 {
      hide BitPacking.LowByte;
      CounterBytes(n / 256, count - 1);
      assert LittleEndian(n, count)[1..] == LittleEndian(n / 256, count - 1);
      BitPacking.LowByteNumber(n);
    }
  }

  function Power256(k: nat): nat { if k == 0 then 1 else 256 * Power256(k - 1) }

  /** The block input for a counter. */
  function CounterBlock(base: Block, counter: nat): Block {
    var c := LittleEndian(counter, 8);
    seq(16, i requires 0 <= i < 16 => if i < 8 then base[i] ^ c[i] else base[i])
  }

  lemma {:induction false} XorOut(a: byte, c: byte)
    ensures (a ^ c) ^ a == c
  {
  }

  /** What the first eight bytes of a block hold beside the base. */
  function Masked(base: Block, block: Block): (b: seq<byte>)
    ensures |b| == 8
  {
    seq(8, i requires 0 <= i < 8 => block[i] ^ base[i])
  }

  /** A counter block is the base with the counter, little-endian, exclusive-or'ed into its first eight bytes;
      so different counters below 2^64 make different blocks. */
  lemma {:induction false} CounterRecovered(base: Block, counter: nat)
    requires counter < Power256(8)
    ensures Power256(8) == 0x1_0000_0000_0000_0000
    ensures Counter(Masked(base, CounterBlock(base, counter))) == counter
    ensures CounterBlock(base, counter)[8..] == base[8..]
  {
    hide Counter, LittleEndian, Power256, CounterBlock, Masked;
    CounterBytes(counter, 8);
    EightBytes();
    UnmaskedCounter(base, counter);
  }

  lemma {:induction false} UnmaskedCounter(base: Block, counter: nat)
    ensures Masked(base, CounterBlock(base, counter)) == LittleEndian(counter, 8)
    ensures CounterBlock(base, counter)[8..] == base[8..]
  {
    hide LittleEndian;
    var m, c := Masked(base, CounterBlock(base, counter)), LittleEndian(counter, 8);
    forall i | 0 <= i < 8 ensures m[i] == c[i] {
      XorOut(base[i], c[i]);
    }
  }

  lemma {:induction false} EightBytes()
    ensures Power256(8) == 0x1_0000_0000_0000_0000
  {
    assert Power256(0) == 1 && Power256(1) == 0x100 && Power256(2) == 0x1_0000 && Power256(3) == 0x100_0000 && Power256(4) == 0x1_0000_0000;
    assert Power256(5) == 0x100_0000_0000 && Power256(6) == 0x1_0000_0000_0000 && Power256(7) == 0x100_0000_0000_0000;
  }

  lemma {:induction false} CountersDiffer(base: Block, a: nat, b: nat)
    requires a < 0x1_0000_0000_0000_0000 && b < 0x1_0000_0000_0000_0000
    ensures CounterBlock(base, a) == CounterBlock(base, b) <==> a == b
  {
    hide CounterBlock, Masked, Counter, Power256;
    EightBytes();
    CounterRecovered(base, a);
    CounterRecovered(base, b);
  }

  /** The key stream: the hash of consecutive counter blocks. */
  function KeyByte(hash: Block -> Block, base: Block, i: nat): byte { hash(CounterBlock(base, i / 16))[i % 16] }

  class FixedKeyStream {
    const hash: Block -> Block
    const base: Block
    var lengthConsumed: nat

    constructor (hash: Block -> Block, base: Block)
      ensures this.hash == hash && this.base == base && lengthConsumed == 0
    {
      this.hash := hash;
      this.base := base;
      lengthConsumed := 0;
    }

    /** `fill`: the bytes at the current position of the key stream, however earlier reads were split. */
    method Fill(buf: array<byte>)
      requires lengthConsumed + buf.Length < 0x1_0000_0000_0000_0000 - 15
      modifies this, buf
      ensures lengthConsumed == old(lengthConsumed) + buf.Length
      ensures forall k :: 0 <= k < buf.Length ==> buf[k] == KeyByte(hash, base, old(lengthConsumed) + k)
    {
      hide CounterBlock;
      var next := lengthConsumed + buf.Length;
      var offset := lengthConsumed % 16;
      var index := 0;
      var first, last := lengthConsumed / 16, (next + 15) / 16;
      for counter := first to last
        invariant lengthConsumed == old(lengthConsumed)
        invariant offset == (if counter == first then lengthConsumed % 16 else 0) && 0 <= index <= buf.Length
        invariant if counter < last then lengthConsumed + index == 16 * counter + offset else index == buf.Length
        invariant forall k :: 0 <= k < index ==> buf[k] == KeyByte(hash, base, lengthConsumed + k)
      {
        var block := hash(CounterBlock(base, counter));
        var read := if 16 - offset < buf.Length - index then 16 - offset else buf.Length - index;
        CopyBlock(buf, index, block, offset, read);
        offset := 0;
        index := index + read;
      }
      lengthConsumed := next;
    }

    /** `copy_from_slice` of one part of a block. */
    static method CopyBlock(buf: array<byte>, index: nat, block: Block, offset: nat, read: nat)
      requires offset + read <= 16 && index + read <= buf.Length
      modifies buf
      ensures forall k :: 0 <= k < buf.Length ==>
                buf[k] == if index <= k < index + read then block[offset + (k - index)] else old(buf[k])
    {
      for i := 0 to read
        invariant forall k :: 0 <= k < buf.Length ==>
                    buf[k] == if index <= k < index + i then block[offset + (k - index)] else old(buf[k])
      {
        buf[index + i] := block[offset + i];
      }
    }
  }

  function Total(lengths: seq<nat>): nat { if lengths == [] then 0 else Total(lengths[..|lengths| - 1]) + lengths[|lengths| - 1] }

  lemma {:induction false} TotalMonotone(lengths: seq<nat>, i: nat)
    requires i <= |lengths|
    ensures Total(lengths[..i]) <= Total(lengths)
    decreases |lengths|
  {
    if i < |lengths| {
      var n := |lengths| - 1;
      TotalMonotone(lengths[..n], i);
      assert lengths[..n][..i] == lengths[..i];
    } else {
      assert lengths[..i] == lengths;
    }
  }

  /** Any split of reads yields the same bytes: the key stream in order. */
  method FillInParts(hash: Block -> Block, base: Block, lengths: seq<nat>) returns (out: seq<byte>)
    requires Total(lengths) < 0x1_0000_0000_0000_0000 - 15
    ensures out == seq(Total(lengths), i requires 0 <= i => KeyByte(hash, base, i))
  {
    hide KeyByte;
    var stream := new FixedKeyStream(hash, base);
    out := [];
    for i := 0 to |lengths|
      invariant fresh(stream) && stream.hash == hash && stream.base == base && stream.lengthConsumed == |out| == Total(lengths[..i])
      invariant forall k :: 0 <= k < |out| ==> out[k] == KeyByte(hash, base, k)
    {
      assert lengths[..i + 1][..i] == lengths[..i];
      TotalMonotone(lengths, i + 1);
      var buf := new byte[lengths[i]];
      stream.Fill(buf);
      out := out + buf[..];
    }
    assert lengths[..|lengths|] == lengths;
  }
}
