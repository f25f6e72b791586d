/** What the bit-packed encodings are as numbers: packed bits are a little-endian integer, and the prefixes
    of an aggregation parameter, read as integers, are shifted together into a big-endian one. */
module CodecLayout {
  import opened Wrappers
  import opened Powers
  import opened Codec
  import opened BitPacking
  import opened Idpf
  import opened Poplar1
  import AggParamCodec
  import PublicShareCodec

  // ------------------------------------------------------------------ bits as numbers

  /** The number whose binary digits are the bits, least significant first. */
  function Number(bits: seq<bool>): nat { if bits == [] then 0 else Value(bits[0]) + 2 * Number(bits[1..]) }

  /** The number whose digits are the bytes, least significant first. */
  function LittleNumber(bytes: Bytes): nat { if bytes == [] then 0 else (bytes[0] as nat) + 256 * LittleNumber(bytes[1..]) }

  /** The number whose digits are the bytes, most significant first. */
  function BigNumber(bytes: Bytes): nat {
    if bytes == [] then 0 else 256 * BigNumber(bytes[..|bytes| - 1]) + (bytes[|bytes| - 1] as nat)
  }

  /** An index of the tree as an integer: the first bit is the most significant. */
  function Index(prefix: seq<bool>): nat {
    if prefix == [] then 0 else 2 * Index(prefix[..|prefix| - 1]) + Value(prefix[|prefix| - 1])
  }

  function DropFour(bits: seq<bool>): seq<bool> { if |bits| <= 4 then [] else bits[4..] }

  function Tail(bits: seq<bool>): seq<bool> { if bits == [] then [] else bits[1..] }

  lemma {:induction false} FirstDigit(bits: seq<bool>)
    ensures Number(bits) == Value(Get(bits, 0)) + 2 * Number(Tail(bits))
  {
  }

  lemma {:induction false} TailDigit(bits: seq<bool>, i: nat)
    ensures Get(Tail(bits), i) == Get(bits, i + 1)
  {
  }

  lemma {:induction false} FourTails(bits: seq<bool>)
    ensures Tail(Tail(Tail(Tail(bits)))) == DropFour(bits)
  {
  }

  /** The low four digits. */
  lemma {:induction false} FourDigits(bits: seq<bool>)
    ensures Number(bits)
         == Value(Get(bits, 0)) + 2 * Value(Get(bits, 1)) + 4 * Value(Get(bits, 2)) + 8 * Value(Get(bits, 3)) + 16 * Number(DropFour(bits))
  {
    hide Value, Get, Number, Tail, DropFour;
    var t := Tail(bits);
    var u := Tail(t);
    FirstDigit(bits);
    FirstDigit(t);
    FirstDigit(u);
    FirstDigit(Tail(u));
    TailDigit(bits, 0);
    TailDigit(bits, 1);
    TailDigit(bits, 2);
    TailDigit(t, 0);
    TailDigit(t, 1);
    TailDigit(u, 0);
    FourTails(bits);
  }

  lemma {:induction false} PackByteNumber(bits: seq<bool>)
    requires |bits| <= 8
    ensures (PackByte(bits) as nat) == Number(bits)
  {
    FourDigits(bits);
    FourDigits(DropFour(bits));
    assert DropFour(DropFour(bits)) == [];
    Dropped(bits, 0);
    Dropped(bits, 1);
    Dropped(bits, 2);
    Dropped(bits, 3);
    NoBits();
    hide Get, DropFour, Number, ByteOf, Value;
    ByteOfNumber(Get(bits, 0), Get(bits, 1), Get(bits, 2), Get(bits, 3), Get(bits, 4), Get(bits, 5), Get(bits, 6), Get(bits, 7));
  }

  lemma {:induction false} Dropped(bits: seq<bool>, i: nat)
    ensures Get(DropFour(bits), i) == Get(bits, i + 4)
  {
  }

  lemma {:induction false} NumberAppend(a: seq<bool>, b: seq<bool>)
    ensures Number(a + b) == Number(a) + Exp2(|a|) * Number(b)
  {
    if a == [] {
      assert a + b == b;
    } else {
      assert (a + b)[1..] == a[1..] + b;
      NumberAppend(a[1..], b);
      DoubleFactor(Exp2(|a| - 1), Number(b));
    }
  }

  /** Packed bits are a little-endian number. */
  lemma {:induction false} PackNumber(bits: seq<bool>)
    ensures LittleNumber(Pack(bits)) == Number(bits)
  {
    hide PackByte;
    if bits == [] {
    } else if |bits| <= 8 {
      PackByteNumber(bits);
      assert [PackByte(bits)][1..] == [];
    } else {
      var head, tail := bits[..8], bits[8..];
      PackByteNumber(head);
      PackNumber(tail);
      NumberAppend(head, tail);
      EightBits();
      assert bits == head + tail;
      assert Pack(bits)[1..] == Pack(tail);
      hide Pack, Number, Exp2;
    }
  }

  lemma {:induction false} EightBits()
    ensures Exp2(8) == 256
  {
    assert Exp2(0) == 1 && Exp2(1) == 2 && Exp2(2) == 4 && Exp2(3) == 8 && Exp2(4) == 16;
  }

  lemma {:induction false} BigOfReversed(bytes: Bytes)
    ensures BigNumber(AggParamCodec.Rev(bytes)) == LittleNumber(bytes)
  {
    if bytes != [] {
      BigOfReversed(bytes[1..]);
      var r := AggParamCodec.Rev(bytes);
      assert r[..|r| - 1] == AggParamCodec.Rev(bytes[1..]) && r[|r| - 1] == bytes[0];
    }
  }

  lemma {:induction false} ReversedIndex(prefix: seq<bool>)
    ensures Number(AggParamCodec.Rev(prefix)) == Index(prefix)
  {
    if prefix != [] {
      var n := |prefix| - 1;
      ReversedIndex(prefix[..n]);
      var r := AggParamCodec.Rev(prefix);
      assert r[1..] == AggParamCodec.Rev(prefix[..n]) && r[0] == prefix[n];
    }
  }

  // ------------------------------------------------------------------ aggregation parameters

  /** The indices, shifted and added together: the first is the least significant. */
  function Combined(prefixes: seq<seq<bool>>, len: nat): nat {
    if prefixes == [] then 0 else Index(prefixes[0]) + Exp2(len) * Combined(prefixes[1..], len)
  }

  lemma {:induction false} PrefixBitsNumber(prefixes: seq<seq<bool>>, len: nat)
    requires SameLength(prefixes, len)
    ensures Number(AggParamCodec.PrefixBits(prefixes)) == Combined(prefixes, len)
  {
    hide Index, Number, Exp2;
    if prefixes == [] {
      NoBits();
    } else {
      AggParamCodec.SameLengthTail(prefixes, len);
      PrefixBitsNumber(prefixes[1..], len);
      ReversedIndex(prefixes[0]);
      NumberAppend(AggParamCodec.Rev(prefixes[0]), AggParamCodec.PrefixBits(prefixes[1..]));
    }
  }

  lemma {:induction false} NoBits()
    ensures Number([]) == 0
  {
  }

  /** An encoded parameter: level, number of prefixes, and the shortest big-endian integer that has room for
      all indices. */
  lemma {:induction false} ParamLayout(c: AggParamCodec.Ints, param: AggParam) returns (body: Bytes)
    requires ValidParam(param)
    ensures AggParamCodec.Encoded(c, param) == c.u16.encode(param.level) + c.u32.encode(|param.prefixes|) + body
    ensures BigNumber(body) == Combined(param.prefixes, param.level + 1)
    ensures |body| == ((param.level + 1) * |param.prefixes| + 7) / 8
  {
    var bits := AggParamCodec.PrefixBits(param.prefixes);
    body := AggParamCodec.Rev(Pack(bits));
    hide Pack, AggParamCodec.PrefixBits, Increasing, BigNumber, Combined, LittleNumber, Number;
    PackNumber(bits);
    BigOfReversed(Pack(bits));
    PrefixBitsNumber(param.prefixes, param.level + 1);
    AggParamCodec.PrefixBitsLength(param.prefixes, param.level + 1);
  }

  lemma {:induction false} IndexFromFront(prefix: seq<bool>)
    requires prefix != []
    ensures Index(prefix) == Value(prefix[0]) * Exp2(|prefix| - 1) + Index(prefix[1..])
    ensures Index(prefix[1..]) < Exp2(|prefix| - 1)
    decreases |prefix|
  {
    var n := |prefix| - 1;
    if n == 0 {
      assert prefix[..0] == [] && prefix[1..] == [];
    } else {
      IndexFromFront(prefix[..n]);
      assert prefix[..n][1..] == prefix[1..][..n - 1] && prefix[1..][n - 1] == prefix[n];
      assert Exp2(n) == 2 * Exp2(n - 1);
    }
  }

  /** The order of the prefixes is the order of their indices. */
  lemma {:induction false} LexIsNumeric(a: seq<bool>, b: seq<bool>)
    requires |a| == |b|
    ensures LexLess(a, b) <==> Index(a) < Index(b)
  {
    hide Index;
    if a != [] {
      IndexFromFront(a);
      IndexFromFront(b);
      LexIsNumeric(a[1..], b[1..]);
      hide Exp2;
    } else {
      assert a == b;
    }
  }

  // ------------------------------------------------------------------ public shares

  /** An encoded public share: the control bits of all levels as a little-endian number, left bit of a level
      before its right bit, then seed and value of every level in order. */
  lemma {:induction false} ShareLayout<VI, VL>(ci: ValueCodec<VI>, cl: ValueCodec<VL>, pub: PublicShare<VI, VL>) returns (controls: Bytes, bits: seq<bool>)
    ensures PublicShareCodec.Encoded(ci, cl, pub)
         == controls + PublicShareCodec.Words(ci, pub.inner) + pub.leaf.seed + cl.encode(pub.leaf.value)
    ensures LittleNumber(controls) == Number(bits) && |bits| == 2 * (|pub.inner| + 1) && |controls| == (|bits| + 7) / 8
    ensures forall l :: 0 <= l < |pub.inner| ==> bits[2 * l] == pub.inner[l].bits.0 && bits[2 * l + 1] == pub.inner[l].bits.1
    ensures bits[|bits| - 2] == pub.leaf.bits.0 && bits[|bits| - 1] == pub.leaf.bits.1
  {
    bits := PublicShareCodec.AllControls(pub);
    controls := Pack(bits);
    PackNumber(bits);
    hide Pack, LittleNumber, Number, PublicShareCodec.Words;
    forall l | 0 <= l < |pub.inner| ensures bits[2 * l] == pub.inner[l].bits.0 && bits[2 * l + 1] == pub.inner[l].bits.1 {
      PublicShareCodec.ControlsAt(pub.inner, l);
    }
    var w, t := PublicShareCodec.Words(ci, pub.inner), cl.encode(pub.leaf.value);
    assert controls + (w + (pub.leaf.seed + t)) == controls + w + pub.leaf.seed + t;
  }

  /** The words of the inner levels, split at a level: its seed precedes its value. */
  lemma {:induction false} WordsAt<V>(c: ValueCodec<V>, cws: seq<CorrectionWord<V>>, l: nat)
    requires l < |cws|
    ensures PublicShareCodec.Words(c, cws)
         == PublicShareCodec.Words(c, cws[..l]) + cws[l].seed + c.encode(cws[l].value) + PublicShareCodec.Words(c, cws[l + 1..])
  {
    FirstWord(c, cws);
    if l == 0 {
      assert cws[..0] == [];
      NoWord(c);
      assert [] + cws[0].seed == cws[0].seed;
    } else {
      WordsAt(c, cws[1..], l - 1);
      FirstWord(c, cws[..l]);
      assert cws[1..][..l - 1] == cws[1..l] && cws[..l][1..] == cws[1..l] && cws[1..][l..] == cws[l + 1..];
      hide PublicShareCodec.Words;
      Regroup(cws[0].seed + c.encode(cws[0].value), PublicShareCodec.Words(c, cws[1..l]), cws[l].seed, c.encode(cws[l].value),
              PublicShareCodec.Words(c, cws[l + 1..]));
    }
  }

  lemma {:induction false} FirstWord<V>(c: ValueCodec<V>, cws: seq<CorrectionWord<V>>)
    requires cws != []
    ensures PublicShareCodec.Words(c, cws) == cws[0].seed + c.encode(cws[0].value) + PublicShareCodec.Words(c, cws[1..])
  {
  }

  lemma {:induction false} NoWord<V>(c: ValueCodec<V>)
    ensures PublicShareCodec.Words(c, []) == []
  {
  }

  lemma {:induction false} Regroup(a: Bytes, b: Bytes, s: Bytes, e: Bytes, r: Bytes)
    ensures a + (b + s + e + r) == a + b + s + e + r
  {
  }
}
