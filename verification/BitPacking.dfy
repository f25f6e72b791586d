/** Bits packed into bytes, least significant bit first, with unused bits zero. */
module BitPacking {
  import opened Codec

  /** Bit i of a byte. */
  function Bit(b: bv8, i: nat): bool
    requires i < 8
  {
    match i
    case 0 => b & 0x01 != 0
    case 1 => b & 0x02 != 0
    case 2 => b & 0x04 != 0
    case 3 => b & 0x08 != 0
    case 4 => b & 0x10 != 0
    case 5 => b & 0x20 != 0
    case 6 => b & 0x40 != 0
    case _ => b & 0x80 != 0
  }

  function ByteOf(b0: bool, b1: bool, b2: bool, b3: bool, b4: bool, b5: bool, b6: bool, b7: bool): bv8 {
    (if b0 then 0x01 else 0) | (if b1 then 0x02 else 0) | (if b2 then 0x04 else 0) | (if b3 then 0x08 else 0)
    | (if b4 then 0x10 else 0) | (if b5 then 0x20 else 0) | (if b6 then 0x40 else 0) | (if b7 then 0x80 else 0)
  }

  lemma {:induction false} BitsOfByte(b0: bool, b1: bool, b2: bool, b3: bool, b4: bool, b5: bool, b6: bool, b7: bool)
    ensures var b := ByteOf(b0, b1, b2, b3, b4, b5, b6, b7);
            && Bit(b, 0) == b0 && Bit(b, 1) == b1 && Bit(b, 2) == b2 && Bit(b, 3) == b3
            && Bit(b, 4) == b4 && Bit(b, 5) == b5 && Bit(b, 6) == b6 && Bit(b, 7) == b7
  {
  }

  lemma {:induction false} ByteOfBits(b: bv8)
    ensures ByteOf(Bit(b, 0), Bit(b, 1), Bit(b, 2), Bit(b, 3), Bit(b, 4), Bit(b, 5), Bit(b, 6), Bit(b, 7)) == b
  {
  }

  // ------------------------------------------------------------------ bytes as numbers

  function Value(bit: bool): nat { if bit then 1 else 0 }

  lemma {:induction false} ByteOfNumber(b0: bool, b1: bool, b2: bool, b3: bool, b4: bool, b5: bool, b6: bool, b7: bool)
    ensures (ByteOf(b0, b1, b2, b3, b4, b5, b6, b7) as nat)
         == Value(b0) + 2 * Value(b1) + 4 * Value(b2) + 8 * Value(b3) + 16 * Value(b4) + 32 * Value(b5) + 64 * Value(b6) + 128 * Value(b7)
  {
    var l := ByteOf(b0, b1, b2, b3, false, false, false, false);
    var h := ByteOf(false, false, false, false, b4, b5, b6, b7);
    assert ByteOf(b0, b1, b2, b3, b4, b5, b6, b7) == l + h;
  }

  function Odd(n: nat): bool { n % 2 == 1 }

  /** The byte with the low eight binary digits of a number. */
  function LowByte(n: nat): bv8 {
    ByteOf(Odd(n), Odd(n / 2), Odd(n / 2 / 2), Odd(n / 2 / 2 / 2), Odd(n / 2 / 2 / 2 / 2), Odd(n / 2 / 2 / 2 / 2 / 2),
           Odd(n / 2 / 2 / 2 / 2 / 2 / 2), Odd(n / 2 / 2 / 2 / 2 / 2 / 2 / 2))
  }

  lemma {:induction false} LowByteNumber(n: nat)
    ensures (LowByte(n) as nat) == n % 256
  {
    hide ByteOf, Value, Odd;
    EightDigits(n);
    ByteOfNumber(Odd(n), Odd(n / 2), Odd(n / 2 / 2), Odd(n / 2 / 2 / 2), Odd(n / 2 / 2 / 2 / 2), Odd(n / 2 / 2 / 2 / 2 / 2),
                 Odd(n / 2 / 2 / 2 / 2 / 2 / 2), Odd(n / 2 / 2 / 2 / 2 / 2 / 2 / 2));
  }

  lemma {:induction false} EightDigits(n: nat)
    ensures n % 256
         == Value(Odd(n)) + 2 * Value(Odd(n / 2)) + 4 * Value(Odd(n / 2 / 2)) + 8 * Value(Odd(n / 2 / 2 / 2)) + 16 * Value(Odd(n / 2 / 2 / 2 / 2))
            + 32 * Value(Odd(n / 2 / 2 / 2 / 2 / 2)) + 64 * Value(Odd(n / 2 / 2 / 2 / 2 / 2 / 2)) + 128 * Value(Odd(n / 2 / 2 / 2 / 2 / 2 / 2 / 2))
  {
    hide Value, Odd;
    var n1 := n / 2;
    var n2 := n1 / 2;
    var n3 := n2 / 2;
    var n4 := n3 / 2;
    var n5 := n4 / 2;
    var n6 := n5 / 2;
    var n7 := n6 / 2;
    var h := n7 / 2;
    Halve(n, n1);
    Halve(n1, n2);
    Halve(n2, n3);
    Halve(n3, n4);
    Halve(n4, n5);
    Halve(n5, n6);
    Halve(n6, n7);
    Halve(n7, h);
    Remainder(n, h, n - 256 * h);
  }

  lemma {:induction false} Remainder(n: int, h: int, r: int)
    requires n == 256 * h + r && 0 <= r < 256
    ensures n % 256 == r
  {
  }

  lemma {:induction false} Halve(n: nat, h: nat)
    requires h == n / 2
    ensures n == Value(Odd(n)) + 2 * h && Value(Odd(n)) <= 1
  {
  }

  function Get(bits: seq<bool>, i: nat): bool { i < |bits| && bits[i] }

  function Falses(n: nat): (r: seq<bool>)
    ensures |r| == n
  {
    seq(n, _ => false)
  }

  /** A byte from up to eight bits. */
  function PackByte(bits: seq<bool>): bv8 {
    ByteOf(Get(bits, 0), Get(bits, 1), Get(bits, 2), Get(bits, 3), Get(bits, 4), Get(bits, 5), Get(bits, 6), Get(bits, 7))
  }

  function UnpackByte(b: bv8): (bits: seq<bool>)
    ensures |bits| == 8
  {
    [Bit(b, 0), Bit(b, 1), Bit(b, 2), Bit(b, 3), Bit(b, 4), Bit(b, 5), Bit(b, 6), Bit(b, 7)]
  }

  /** The first eight bits, padded. */
  function Octet(bits: seq<bool>): (o: seq<bool>)
    ensures |o| == 8
  {
    [Get(bits, 0), Get(bits, 1), Get(bits, 2), Get(bits, 3), Get(bits, 4), Get(bits, 5), Get(bits, 6), Get(bits, 7)]
  }

  lemma {:induction false} OctetAt(bits: seq<bool>, i: nat)
    requires i < 8
    ensures Octet(bits)[i] == Get(bits, i)
  {
    hide Get;
  }

  lemma {:induction false} UnpackPackByte(bits: seq<bool>)
    requires |bits| <= 8
    ensures UnpackByte(PackByte(bits)) == bits + Falses(8 - |bits|)
  {
    UnpacksOctet(bits);
    hide PackByte, UnpackByte, Octet;
    forall i | 0 <= i < 8 ensures Octet(bits)[i] == (bits + Falses(8 - |bits|))[i] {
      OctetAt(bits, i);
    }
  }

  lemma {:induction false} UnpacksOctet(bits: seq<bool>)
    ensures UnpackByte(PackByte(bits)) == Octet(bits)
  {
    hide Bit, ByteOf, Get;
    BitsOfByte(Get(bits, 0), Get(bits, 1), Get(bits, 2), Get(bits, 3), Get(bits, 4), Get(bits, 5), Get(bits, 6), Get(bits, 7));
  }

  lemma {:induction false} PackUnpackByte(b: bv8, n: nat)
    requires n <= 8 && forall i :: n <= i < 8 ==> !UnpackByte(b)[i]
    ensures PackByte(UnpackByte(b)[..n]) == b
  {
    hide Bit, ByteOf;
    ByteOfBits(b);
    var bits := UnpackByte(b)[..n];
    forall i | 0 <= i < 8 ensures Get(bits, i) == UnpackByte(b)[i] {
    }
  }

  /** The packed form of a bit vector. */
  function Pack(bits: seq<bool>): (bytes: Bytes)
    ensures |bytes| == (|bits| + 7) / 8
  {
    if bits == [] then []
    else if |bits| <= 8 then [PackByte(bits)]
    else [PackByte(bits[..8])] + Pack(bits[8..])
  }

  function Unpack(bytes: Bytes): (bits: seq<bool>)
    ensures |bits| == 8 * |bytes|
  {
    if bytes == [] then [] else UnpackByte(bytes[0]) + Unpack(bytes[1..])
  }

  lemma {:induction false} UnpackFirst(b: bv8, rest: Bytes)
    ensures Unpack([b] + rest) == UnpackByte(b) + Unpack(rest)
  {
    hide UnpackByte;
    assert ([b] + rest)[1..] == rest;
  }

  /** Unpacking gives the bits back, followed by the unused bits, which are zero. */
  lemma {:induction false} UnpackPack(bits: seq<bool>)
    ensures Unpack(Pack(bits)) == bits + Falses(8 * |Pack(bits)| - |bits|)
  {
    hide PackByte, UnpackByte, Unpack;
    if bits == [] {
      UnpackNothing();
    } else if |bits| <= 8 {
      UnpackPackByte(bits);
      UnpackFirst(PackByte(bits), []);
      UnpackNothing();
      assert [PackByte(bits)] + [] == [PackByte(bits)];
    } else {
      var head, tail := bits[..8], bits[8..];
      UnpackPackByte(head);
      UnpackPack(tail);
      UnpackFirst(PackByte(head), Pack(tail));
      assert bits == head + tail;
      hide Pack;
    }
  }

  lemma {:induction false} UnpackNothing()
    ensures Unpack([]) == []
  {
  }

  /** Bytes whose unused bits are zero are the packed form of their first n bits. */
  lemma {:induction false} PackUnpack(bytes: Bytes, n: nat)
    requires |bytes| == (n + 7) / 8 && forall i :: n <= i < 8 * |bytes| ==> !Unpack(bytes)[i]
    ensures Pack(Unpack(bytes)[..n]) == bytes
  {
    hide PackByte, UnpackByte;
    if bytes != [] {
      var all, head, rest := Unpack(bytes), UnpackByte(bytes[0]), Unpack(bytes[1..]);
      assert bytes == [bytes[0]] + bytes[1..];
      UnpackFirst(bytes[0], bytes[1..]);
      UnpackNothing();
      hide Unpack;
      if n <= 8 {
        assert bytes[1..] == [] && all == head;
        PackUnpackByte(bytes[0], n);
        assert bytes == [bytes[0]];
      } else {
        forall i | n - 8 <= i < 8 * |bytes[1..]| ensures !rest[i] {
          assert rest[i] == all[i + 8];
        }
        PackUnpack(bytes[1..], n - 8);
        var bits := all[..n];
        assert bits[..8] == head && bits[8..] == rest[..n - 8];
        PackUnpackByte(bytes[0], 8);
        assert head[..8] == head;
      }
    }
  }

  /** A byte shifted right by r is zero exactly when its bits from r on are zero. */
  lemma {:induction false} ShiftedZero(b: bv8, r: nat)
    requires 1 <= r <= 7
    ensures b >> r == 0 <==> forall i :: r <= i < 8 ==> !UnpackByte(b)[i]
  {
    var bits := UnpackByte(b);
    assert (forall i :: r <= i < 8 ==> !bits[i]) <==> (forall i | 1 <= i < 8 :: r <= i ==> !Bit(b, i)) by {
      forall i | 0 <= i < 8 ensures bits[i] == Bit(b, i) {
      }
    }
    match r
    case 1 => assert b >> 1 == 0 <==> b & 0xFE == 0; HighBits(b);
    case 2 => assert b >> 2 == 0 <==> b & 0xFC == 0; HighBits(b);
    case 3 => assert b >> 3 == 0 <==> b & 0xF8 == 0; HighBits(b);
    case 4 => assert b >> 4 == 0 <==> b & 0xF0 == 0; HighBits(b);
    case 5 => assert b >> 5 == 0 <==> b & 0xE0 == 0; HighBits(b);
    case 6 => assert b >> 6 == 0 <==> b & 0xC0 == 0; HighBits(b);
    case _ => assert b >> 7 == 0 <==> b & 0x80 == 0; HighBits(b);
  }

  lemma {:induction false} HighBits(b: bv8)
    ensures b & 0xFE == 0 <==> !Bit(b, 1) && !Bit(b, 2) && !Bit(b, 3) && !Bit(b, 4) && !Bit(b, 5) && !Bit(b, 6) && !Bit(b, 7)
    ensures b & 0xFC == 0 <==> !Bit(b, 2) && !Bit(b, 3) && !Bit(b, 4) && !Bit(b, 5) && !Bit(b, 6) && !Bit(b, 7)
    ensures b & 0xF8 == 0 <==> !Bit(b, 3) && !Bit(b, 4) && !Bit(b, 5) && !Bit(b, 6) && !Bit(b, 7)
    ensures b & 0xF0 == 0 <==> !Bit(b, 4) && !Bit(b, 5) && !Bit(b, 6) && !Bit(b, 7)
    ensures b & 0xE0 == 0 <==> !Bit(b, 5) && !Bit(b, 6) && !Bit(b, 7)
    ensures b & 0xC0 == 0 <==> !Bit(b, 6) && !Bit(b, 7)
    ensures b & 0x80 == 0 <==> !Bit(b, 7)
  {
  }
}
