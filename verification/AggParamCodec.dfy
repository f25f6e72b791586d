/** The encoding of Poplar1 aggregation parameters (src/vdaf/poplar1.rs): level, number of prefixes,
    and the prefixes packed as one big-endian integer. Decoding and encoding are inverses in both
    directions. */
module AggParamCodec {
  import opened Wrappers
  import opened Codec
  import opened BitPacking
  import opened Poplar1

  function Rev<T>(s: seq<T>): (r: seq<T>)
    ensures |r| == |s|
  {
    seq(|s|, i requires 0 <= i < |s| => s[|s| - 1 - i])
  }

  lemma {:induction false} RevRev<T>(s: seq<T>)
    ensures Rev(Rev(s)) == s
  {
  }

  /** The bits of all prefixes, each with its last bit first. */
  function PrefixBits(prefixes: seq<seq<bool>>): seq<bool> {
    if prefixes == [] then [] else Rev(prefixes[0]) + PrefixBits(prefixes[1..])
  }

  /** The first `count` chunks of a bit vector, each reversed. */
  function Chunks(bits: seq<bool>, len: nat, count: nat): (r: seq<seq<bool>>)
    requires len * count <= |bits|
    ensures |r| == count && SameLength(r, len)
  {
    if count == 0 then []
    else
      ChunkRoom(len, count);
      [Rev(bits[..len])] + Chunks(bits[len..], len, count - 1)
  }

  lemma {:induction false} ChunkRoom(len: nat, count: nat)
    requires count >= 1
    ensures len * count == len + len * (count - 1) && 0 <= len * (count - 1)
  {
  }

  lemma {:induction false} PrefixBitsLength(prefixes: seq<seq<bool>>, len: nat)
    requires SameLength(prefixes, len)
    ensures |PrefixBits(prefixes)| == len * |prefixes|
  {
    if prefixes != [] {
      SameLengthTail(prefixes, len);
      PrefixBitsLength(prefixes[1..], len);
      ChunkRoom(len, |prefixes|);
    } else {
      assert len * 0 == 0;
    }
  }

  lemma {:induction false} SameLengthTail(prefixes: seq<seq<bool>>, len: nat)
    requires prefixes != [] && SameLength(prefixes, len)
    ensures |prefixes[0]| == len && SameLength(prefixes[1..], len)
  {
  }

  lemma {:induction false} ChunksOfBits(prefixes: seq<seq<bool>>, len: nat, tail: seq<bool>)
    requires SameLength(prefixes, len)
    ensures len * |prefixes| <= |PrefixBits(prefixes) + tail|
    ensures Chunks(PrefixBits(prefixes) + tail, len, |prefixes|) == prefixes
  {
    PrefixBitsLength(prefixes, len);
    if prefixes != [] {
      SameLengthTail(prefixes, len);
      ChunksOfBits(prefixes[1..], len, tail);
      var bits := PrefixBits(prefixes) + tail;
      assert bits[..len] == Rev(prefixes[0]) && bits[len..] == PrefixBits(prefixes[1..]) + tail;
      RevRev(prefixes[0]);
      assert prefixes == [prefixes[0]] + prefixes[1..];
    }
  }

  lemma {:induction false} BitsOfChunks(bits: seq<bool>, len: nat, count: nat)
    requires len * count <= |bits|
    ensures PrefixBits(Chunks(bits, len, count)) == bits[..len * count]
  {
    hide Rev, Chunks, PrefixBits;
    if count == 0 {
      assert len * 0 == 0;
      NoChunks(bits, len);
    } else {
      ChunkRoom(len, count);
      var rest := Chunks(bits[len..], len, count - 1);
      BitsOfChunks(bits[len..], len, count - 1);
      FirstChunk(bits, len, count);
      SliceSplit(bits, len, len * (count - 1));
    }
  }

  lemma {:induction false} NoChunks(bits: seq<bool>, len: nat)
    requires len * 0 == 0
    ensures PrefixBits(Chunks(bits, len, 0)) == []
  {
  }

  lemma {:induction false} FirstChunk(bits: seq<bool>, len: nat, count: nat)
    requires count >= 1 && len * count <= |bits| && len <= |bits| && len * (count - 1) <= |bits| - len
    ensures PrefixBits(Chunks(bits, len, count)) == bits[..len] + PrefixBits(Chunks(bits[len..], len, count - 1))
  {
    var rest := Chunks(bits[len..], len, count - 1);
    assert Chunks(bits, len, count) == [Rev(bits[..len])] + rest;
    assert ([Rev(bits[..len])] + rest)[1..] == rest;
    RevRev(bits[..len]);
  }

  lemma {:induction false} SliceSplit(bits: seq<bool>, a: nat, b: nat)
    requires a + b <= |bits|
    ensures bits[..a] + bits[a..][..b] == bits[..a + b]
  {
  }

  /** The integer codecs of the header. */
  datatype Ints = Ints(u16: ValueCodec<nat>, u32: ValueCodec<nat>)

  ghost predicate IntsInverse(c: Ints) { InverseBelow(c.u16, 0x1_0000, 2) && InverseBelow(c.u32, 0x1_0000_0000, 4) }

  /** What `encode` appends. */
  function Encoded(c: Ints, param: AggParam): Bytes {
    c.u16.encode(param.level) + (c.u32.encode(|param.prefixes|) + Rev(Pack(PrefixBits(param.prefixes))))
  }

  /** `encode`: the bits of the prefixes are collected, packed and the bytes reversed. */
  method Encode(c: Ints, param: AggParam) returns (bytes: Bytes)
    ensures bytes == Encoded(c, param)
  {
    hide Pack;
    bytes := c.u16.encode(param.level) + c.u32.encode(|param.prefixes|);
    var packed: seq<bool> := [];
    assert param.prefixes[0..] == param.prefixes;
    for i := 0 to |param.prefixes|
      invariant packed + PrefixBits(param.prefixes[i..]) == PrefixBits(param.prefixes)
    {
      assert param.prefixes[i..][1..] == param.prefixes[i + 1..];
      packed := packed + Rev(param.prefixes[i]);
    }
    assert packed == PrefixBits(param.prefixes);
    bytes := bytes + Rev(Pack(packed));
  }

  /** The packed part has no bit set beyond the prefixes: its first byte has the unused high bits. */
  predicate UnusedClear(packed: Bytes, count: nat)
    requires |packed| == (count + 7) / 8
  {
    count % 8 != 0 ==> packed[0] >> (count % 8) == 0
  }

  lemma {:induction false} UnpackLast(bytes: Bytes, i: nat)
    requires bytes != [] && i < 8
    ensures Unpack(bytes)[8 * (|bytes| - 1) + i] == UnpackByte(bytes[|bytes| - 1])[i]
  {
    hide UnpackByte;
    if |bytes| > 1 {
      UnpackLast(bytes[1..], i);
    } else {
      assert bytes[1..] == [];
    }
  }

  /** Clear bits from an offset on, seen from the last byte and from the whole vector. */
  lemma {:induction false} ShiftedIndex(all: seq<bool>, last: seq<bool>, base: nat, r: nat)
    requires |last| == 8 && |all| == base + 8 && r <= 8 && forall i :: 0 <= i < 8 ==> all[base + i] == last[i]
    ensures (forall i :: base + r <= i < base + 8 ==> !all[i]) <==> (forall i :: r <= i < 8 ==> !last[i])
  {
    assert all[base..] == last;
    if forall i :: base + r <= i < base + 8 ==> !all[i] {
      forall i | r <= i < 8 ensures !last[i] {
        assert !all[base + i];
      }
    }
    if forall i :: r <= i < 8 ==> !last[i] {
      forall i | base + r <= i < base + 8 ensures !all[i] {
        assert all[base + (i - base)] == last[i - base];
      }
    }
  }

  lemma {:induction false} UnusedClearIff(packed: Bytes, count: nat)
    requires |packed| == (count + 7) / 8
    ensures UnusedClear(packed, count) <==> forall i :: count <= i < 8 * |packed| ==> !Unpack(Rev(packed))[i]
  {
    hide UnpackByte, Unpack;
    var r, le := count % 8, Rev(packed);
    if r != 0 {
      ShiftedZero(packed[0], r);
      var base := 8 * (|packed| - 1);
      assert base + r == count && le[|packed| - 1] == packed[0];
      forall i | 0 <= i < 8 ensures Unpack(le)[base + i] == UnpackByte(packed[0])[i] {
        UnpackLast(le, i);
      }
      ShiftedIndex(Unpack(le), UnpackByte(packed[0]), base, r);
    }
  }

  /** What `decode` returns. */
  function Decoded(c: Ints, b: Bytes): Option<(AggParam, Bytes)> {
    match c.u16.decode(b)
    case None => None
    case Some((level, b1)) =>
      match c.u32.decode(b1)
      case None => None
      case Some((count, b2)) => DecodedPrefixes(level, count, b2)
  }

  /** What remains after the level and the number of prefixes. */
  function DecodedPrefixes(level: nat, count: nat, b2: Bytes): Option<(AggParam, Bytes)> {
    var bits := (level + 1) * count;
    var n := (bits + 7) / 8;
    if |b2| < n || !UnusedClear(b2[..n], bits) then None
    else
      var param := AggParam(level, Chunks(Unpack(Rev(b2[..n])), level + 1, count));
      if ValidParam(param) then Some((param, b2[n..])) else None
  }

  /** `decode`. */
  method Decode(c: Ints, b: Bytes) returns (r: Option<(AggParam, Bytes)>)
    requires IntsInverse(c)
    ensures r == Decoded(c, b)
  {
    hide DecodedPrefixes, InverseBelow;
    var h1 := c.u16.decode(b);
    if h1.None? {
      return None;
    }
    var (level, b1) := h1.value;
    var h2 := c.u32.decode(b1);
    if h2.None? {
      return None;
    }
    var (count, b2) := h2.value;
    LevelInRange(c, b);
    r := DecodePrefixes(level, count, b2);
  }

  lemma {:induction false} LevelInRange(c: Ints, b: Bytes)
    requires IntsInverse(c) && c.u16.decode(b).Some?
    ensures c.u16.decode(b).value.0 < 0x1_0000
  {
  }

  /** The prefixes: packed bits whose unused bits are clear, and that make a valid parameter. */
  method DecodePrefixes(level: nat, count: nat, b2: Bytes) returns (r: Option<(AggParam, Bytes)>)
    requires level < 0x1_0000
    ensures r == DecodedPrefixes(level, count, b2)
  {
    hide Pack, Unpack, FirstFault, Increasing, UnusedClear, Chunks, Rev;
    var bits := (level + 1) * count;
    var n := (bits + 7) / 8;
    if |b2| < n {
      return None;
    }
    var packed := b2[..n];
    if !UnusedClear(packed, bits) {
      return None;
    }
    var prefixes := Chunks(Unpack(Rev(packed)), level + 1, count);
    var param := TryFromPrefixes(prefixes);
    if param.Failure? {
      return None;
    }
    return Some((param.value, b2[n..]));
  }

  /** Round trip: every parameter that can be constructed decodes from its encoding. */
  lemma {:induction false} DecodeEncoded(c: Ints, param: AggParam, rest: Bytes)
    requires IntsInverse(c) && ValidParam(param)
    ensures Decoded(c, Encoded(c, param) + rest) == Some((param, rest))
  {
    hide IntsInverse, InverseBelow, Increasing, Pack, Unpack, UnusedClear, Chunks, PrefixBits, Rev, Falses;
    var level, count := param.level, |param.prefixes|;
    var bits := PrefixBits(param.prefixes);
    var packed := Rev(Pack(bits));
    var b2 := packed + rest;
    assert Encoded(c, param) + rest == c.u16.encode(level) + (c.u32.encode(count) + b2);
    HeaderDecodes(c, level, count, b2);
    PrefixBitsLength(param.prefixes, level + 1);
    var n := (|bits| + 7) / 8;
    assert b2[..n] == packed && b2[n..] == rest;
    PackedPrefixes(bits);
    ChunksOfBits(param.prefixes, level + 1, Falses(8 * n - |bits|));
  }

  lemma {:induction false} HeaderDecodes(c: Ints, level: nat, count: nat, b2: Bytes)
    requires IntsInverse(c) && level < 0x1_0000 && count < 0x1_0000_0000
    ensures c.u16.decode(c.u16.encode(level) + (c.u32.encode(count) + b2)) == Some((level, c.u32.encode(count) + b2))
    ensures c.u32.decode(c.u32.encode(count) + b2) == Some((count, b2))
  {
  }

  lemma {:induction false} PackedPrefixes(bits: seq<bool>)
    ensures var packed := Rev(Pack(bits));
            && Unpack(Rev(packed)) == bits + Falses(8 * |packed| - |bits|)
            && UnusedClear(packed, |bits|)
  {
    UnpackPack(bits);
    RevRev(Pack(bits));
    hide Pack, Unpack, UnusedClear;
    UnusedClearIff(Rev(Pack(bits)), |bits|);
  }

  /** Canonical form: any accepted bytes are the encoding of the parameter they decode to. */
  lemma {:induction false} EncodedDecode(c: Ints, b: Bytes)
    requires IntsInverse(c) && Decoded(c, b).Some?
    ensures var (param, rest) := Decoded(c, b).value;
            ValidParam(param) && b == Encoded(c, param) + rest
  {
    hide IntsInverse, InverseBelow, Increasing, Pack, Unpack, UnusedClear, Chunks, PrefixBits, SameLength;
    var (param, rest) := Decoded(c, b).value;
    var (level, b1) := c.u16.decode(b).value;
    var (count, b2) := c.u32.decode(b1).value;
    HeaderCanonical(c, b, b1);
    var bits := (level + 1) * count;
    var n := (bits + 7) / 8;
    var packed := b2[..n];
    Repacked(packed, level + 1, count, bits);
    assert b2 == packed + rest;
    assert c.u16.encode(level) + (c.u32.encode(count) + (packed + rest)) == c.u16.encode(level) + (c.u32.encode(count) + packed) + rest;
  }

  lemma {:induction false} HeaderCanonical(c: Ints, b: Bytes, b1: Bytes)
    requires IntsInverse(c)
    ensures c.u16.decode(b).Some? ==> b == c.u16.encode(c.u16.decode(b).value.0) + c.u16.decode(b).value.1
    ensures c.u32.decode(b1).Some? ==> b1 == c.u32.encode(c.u32.decode(b1).value.0) + c.u32.decode(b1).value.1
  {
  }

  lemma {:induction false} Repacked(packed: Bytes, len: nat, count: nat, bits: nat)
    requires bits == len * count && |packed| == (bits + 7) / 8 && UnusedClear(packed, bits)
    ensures Rev(Pack(PrefixBits(Chunks(Unpack(Rev(packed)), len, count)))) == packed
  {
    hide Pack, Unpack, UnusedClear, Chunks;
    UnusedClearIff(packed, bits);
    BitsOfChunks(Unpack(Rev(packed)), len, count);
    PackUnpack(Rev(packed), bits);
    RevRev(packed);
  }

  /** `encoded_len`. */
  lemma {:induction false} EncodedLength(c: Ints, param: AggParam)
    requires IntsInverse(c) && ValidParam(param)
    ensures |Encoded(c, param)| == 6 + ((param.level + 1) * |param.prefixes| + 7) / 8
  {
    PrefixBitsLength(param.prefixes, param.level + 1);
    assert c.u16.decode(c.u16.encode(param.level) + []).Some? && c.u32.decode(c.u32.encode(|param.prefixes|) + []).Some?;
  }
}
