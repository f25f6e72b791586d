/** The contract of src/codec.rs codecs: encoding appends bytes, decoding consumes a prefix. */
module Codec {
  import opened Wrappers

  type Bytes = seq<bv8>

  /** `decode` returns the value and the remaining bytes. */
  datatype ValueCodec<!V> = ValueCodec(encode: V -> Bytes, decode: Bytes -> Option<(V, Bytes)>)

  /** Encoding and decoding are mutual inverses. */
  ghost predicate Inverse<V(!new)>(c: ValueCodec<V>) {
    && (forall v, rest :: c.decode(c.encode(v) + rest) == Some((v, rest)))
    && (forall b :: c.decode(b).Some? ==> b == c.encode(c.decode(b).value.0) + c.decode(b).value.1)
  }

  /** The same for the integers below a limit, all encoded in `size` bytes. */
  ghost predicate InverseBelow(c: ValueCodec<nat>, limit: nat, size: nat) {
    && (forall v: nat, rest :: v < limit ==> |c.encode(v)| == size && c.decode(c.encode(v) + rest) == Some((v, rest)))
    && (forall b :: c.decode(b).Some? ==> c.decode(b).value.0 < limit && b == c.encode(c.decode(b).value.0) + c.decode(b).value.1)
  }
}
