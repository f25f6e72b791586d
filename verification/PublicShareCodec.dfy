/** The encoding of IDPF public shares (src/idpf.rs): control bits packed into bytes, then the seed
    and value of every correction word. Decoding and encoding are inverses in both directions. */
module PublicShareCodec {
  import opened Wrappers
  import opened Codec
  import opened BitPacking
  import opened Idpf

  /** The control bits of the correction words, in order. */
  function Controls<V>(cws: seq<CorrectionWord<V>>): (bits: seq<bool>)
    ensures |bits| == 2 * |cws|
  {
    if cws == [] then [] else Controls(cws[..|cws| - 1]) + [cws[|cws| - 1].bits.0, cws[|cws| - 1].bits.1]
  }

  lemma {:induction false} ControlsAt<V>(cws: seq<CorrectionWord<V>>, i: nat)
    requires i < |cws|
    ensures Controls(cws)[2 * i] == cws[i].bits.0 && Controls(cws)[2 * i + 1] == cws[i].bits.1
  {
    if i < |cws| - 1 {
      ControlsAt(cws[..|cws| - 1], i);
    }
  }

  function AllControls<VI, VL>(pub: PublicShare<VI, VL>): (bits: seq<bool>)
    ensures |bits| == 2 * |pub.inner| + 2
  {
    Controls(pub.inner) + [pub.leaf.bits.0, pub.leaf.bits.1]
  }

  /** Seeds and values of correction words. */
  function Words<V>(c: ValueCodec<V>, cws: seq<CorrectionWord<V>>): Bytes {
    if cws == [] then [] else cws[0].seed + c.encode(cws[0].value) + Words(c, cws[1..])
  }

  /** What `encode` appends. */
  function Encoded<VI, VL>(ci: ValueCodec<VI>, cl: ValueCodec<VL>, pub: PublicShare<VI, VL>): Bytes {
    Pack(AllControls(pub)) + (Words(ci, pub.inner) + (pub.leaf.seed + cl.encode(pub.leaf.value)))
  }

  lemma {:induction false} NoWords<V>(c: ValueCodec<V>, cws: seq<CorrectionWord<V>>)
    requires cws == []
    ensures Words(c, cws) == []
  {
  }

  lemma {:induction false} WordsStep<V>(c: ValueCodec<V>, cws: seq<CorrectionWord<V>>, i: nat, bytes: Bytes)
    requires i < |cws|
    ensures bytes + Words(c, cws[i..]) == bytes + cws[i].seed + c.encode(cws[i].value) + Words(c, cws[i + 1..])
  {
    assert cws[i..][1..] == cws[i + 1..];
    var w := Words(c, cws[i + 1..]);
    assert bytes + (cws[i].seed + c.encode(cws[i].value) + w) == bytes + cws[i].seed + c.encode(cws[i].value) + w;
  }

  /** `encode`. */
  method Encode<VI, VL>(ci: ValueCodec<VI>, cl: ValueCodec<VL>, pub: PublicShare<VI, VL>) returns (bytes: Bytes)
    ensures bytes == Encoded(ci, cl, pub)
  {
    hide Pack, Words;
    var control: seq<bool> := [];
    for i := 0 to |pub.inner|
      invariant control == Controls(pub.inner[..i])
    {
      assert pub.inner[..i + 1][..i] == pub.inner[..i];
      control := control + [pub.inner[i].bits.0, pub.inner[i].bits.1];
    }
    assert pub.inner[..|pub.inner|] == pub.inner;
    control := control + [pub.leaf.bits.0, pub.leaf.bits.1];
    bytes := Pack(control);
    ghost var packed := bytes;
    assert pub.inner[0..] == pub.inner;
    for i := 0 to |pub.inner|
      invariant bytes + Words(ci, pub.inner[i..]) == packed + Words(ci, pub.inner)
    {
      WordsStep(ci, pub.inner, i, bytes);
      bytes := bytes + pub.inner[i].seed + ci.encode(pub.inner[i].value);
    }
    NoWords(ci, pub.inner[|pub.inner|..]);
    assert bytes == packed + Words(ci, pub.inner);
    bytes := bytes + pub.leaf.seed + cl.encode(pub.leaf.value);
  }

  /** One seed and value. */
  function ParseWord<V>(c: ValueCodec<V>, bits: (bool, bool), b: Bytes): Option<(CorrectionWord<V>, Bytes)> {
    if |b| < 16 then None
    else
      match c.decode(b[16..])
      case None => None
      case Some((v, rest)) => Some((CorrectionWord(b[..16], bits, v), rest))
  }

  lemma {:induction false} ParseWordIff<V(!new)>(c: ValueCodec<V>, bits: (bool, bool), b: Bytes, cw: CorrectionWord<V>, rest: Bytes)
    requires Inverse(c)
    ensures ParseWord(c, bits, b) == Some((cw, rest)) <==> b == cw.seed + c.encode(cw.value) + rest && cw.bits == bits
  {
    if b == cw.seed + c.encode(cw.value) + rest {
      assert b[..16] == cw.seed && b[16..] == c.encode(cw.value) + rest;
    }
    if ParseWord(c, bits, b) == Some((cw, rest)) {
      assert b == b[..16] + b[16..];
      assert c.decode(b[16..]).Some?;
    }
  }

  /** The words from index i to n. */
  function ParseWords<V>(c: ValueCodec<V>, ctl: seq<bool>, i: nat, n: nat, b: Bytes): (r: Option<(seq<CorrectionWord<V>>, Bytes)>)
    requires i <= n && 2 * n <= |ctl|
    ensures r.Some? ==> |r.value.0| == n - i
    decreases n - i
  {
    if i == n then Some(([], b))
    else
      match ParseWord(c, (ctl[2 * i], ctl[2 * i + 1]), b)
      case None => None
      case Some((cw, b')) =>
        match ParseWords(c, ctl, i + 1, n, b')
        case None => None
        case Some((cws, rest)) => Some(([cw] + cws, rest))
  }

  /** The words carry the given control bits. */
  ghost predicate Carries<V>(cws: seq<CorrectionWord<V>>, ctl: seq<bool>, i: nat)
    requires 2 * (i + |cws|) <= |ctl|
  {
    forall k :: 0 <= k < |cws| ==> cws[k].bits == (ctl[2 * (i + k)], ctl[2 * (i + k) + 1])
  }

  /** Parsing words succeeds exactly on their encoding. */
  lemma {:induction false} ParseWordsIff<V(!new)>(c: ValueCodec<V>, ctl: seq<bool>, i: nat, n: nat, b: Bytes, cws: seq<CorrectionWord<V>>, rest: Bytes)
    requires Inverse(c) && i <= n && 2 * n <= |ctl| && |cws| == n - i
    ensures ParseWords(c, ctl, i, n, b) == Some((cws, rest)) <==> b == Words(c, cws) + rest && Carries(cws, ctl, i)
  {
    hide Inverse, ParseWords, Words, Carries;
    if b == Words(c, cws) + rest && Carries(cws, ctl, i) {
      WordsParse(c, ctl, i, n, cws, rest);
    }
    if ParseWords(c, ctl, i, n, b) == Some((cws, rest)) {
      ParsedWords(c, ctl, i, n, b, cws, rest);
    }
  }

  /** The encoding of the first word, then that of the others. */
  lemma {:induction false} WordsSplit<V>(c: ValueCodec<V>, cws: seq<CorrectionWord<V>>, rest: Bytes)
    requires cws != []
    ensures Words(c, cws) + rest == cws[0].seed + c.encode(cws[0].value) + (Words(c, cws[1..]) + rest)
  {
  }

  lemma {:induction false} WordsParse<V(!new)>(c: ValueCodec<V>, ctl: seq<bool>, i: nat, n: nat, cws: seq<CorrectionWord<V>>, rest: Bytes)
    requires Inverse(c) && i <= n && 2 * n <= |ctl| && |cws| == n - i && Carries(cws, ctl, i)
    ensures ParseWords(c, ctl, i, n, Words(c, cws) + rest) == Some((cws, rest))
    decreases n - i
  {
    hide Inverse, ParseWord, Carries;
    if i == n {
      assert Words(c, cws) + rest == rest;
    } else {
      var tail := cws[1..];
      CarriesStep(cws, ctl, i);
      WordsSplit(c, cws, rest);
      ParseWordIff(c, (ctl[2 * i], ctl[2 * i + 1]), Words(c, cws) + rest, cws[0], Words(c, tail) + rest);
      WordsParse(c, ctl, i + 1, n, tail, rest);
      assert cws == [cws[0]] + tail;
      hide Words;
    }
  }

  lemma {:induction false} ParsedWords<V(!new)>(c: ValueCodec<V>, ctl: seq<bool>, i: nat, n: nat, b: Bytes, cws: seq<CorrectionWord<V>>, rest: Bytes)
    requires Inverse(c) && i <= n && 2 * n <= |ctl| && |cws| == n - i
    requires ParseWords(c, ctl, i, n, b) == Some((cws, rest))
    ensures b == Words(c, cws) + rest && Carries(cws, ctl, i)
    decreases n - i
  {
    hide Inverse, ParseWord, Carries;
    if i == n {
      assert Words(c, cws) + rest == rest;
      CarriesNothing(cws, ctl, i);
    } else {
      var bits, tail := (ctl[2 * i], ctl[2 * i + 1]), cws[1..];
      var (cw, b') := ParseWord(c, bits, b).value;
      assert cw == cws[0] && ParseWords(c, ctl, i + 1, n, b').value.0 == tail;
      ParsedWords(c, ctl, i + 1, n, b', tail, rest);
      ParseWordIff(c, bits, b, cw, b');
      WordsSplit(c, cws, rest);
      CarriesStep(cws, ctl, i);
      hide Words;
    }
  }

  lemma {:induction false} CarriesNothing<V>(cws: seq<CorrectionWord<V>>, ctl: seq<bool>, i: nat)
    requires cws == [] && 2 * i <= |ctl|
    ensures Carries(cws, ctl, i)
  {
  }

  lemma {:induction false} CarriesStep<V>(cws: seq<CorrectionWord<V>>, ctl: seq<bool>, i: nat)
    requires cws != [] && 2 * (i + |cws|) <= |ctl|
    ensures Carries(cws, ctl, i) <==> cws[0].bits == (ctl[2 * i], ctl[2 * i + 1]) && Carries(cws[1..], ctl, i + 1)
  {
    var tail := cws[1..];
    if Carries(tail, ctl, i + 1) && cws[0].bits == (ctl[2 * i], ctl[2 * i + 1]) {
      forall k | 0 <= k < |cws| ensures cws[k].bits == (ctl[2 * (i + k)], ctl[2 * (i + k) + 1]) {
        if k > 0 {
          assert tail[k - 1] == cws[k];
        }
      }
    }
    if Carries(cws, ctl, i) {
      forall k | 0 <= k < |tail| ensures tail[k].bits == (ctl[2 * (i + 1 + k)], ctl[2 * (i + 1 + k) + 1]) {
        assert tail[k] == cws[k + 1];
      }
      assert cws[0].bits == (ctl[2 * (i + 0)], ctl[2 * (i + 0) + 1]);
    }
  }

  /** What `decode_with_param` returns for a bit count: unused control bits must be zero. */
  function Decoded<VI, VL>(ci: ValueCodec<VI>, cl: ValueCodec<VL>, bits: nat, b: Bytes): Option<(PublicShare<VI, VL>, Bytes)>
    requires 1 <= bits
  {
    var n := (bits + 3) / 4;
    if |b| < n then None
    else
      var ctl := Unpack(b[..n]);
      match ParseWords(ci, ctl, 0, bits - 1, b[n..])
      case None => None
      case Some((inner, b')) =>
        match ParseWord(cl, (ctl[2 * bits - 2], ctl[2 * bits - 1]), b')
        case None => None
        case Some((leaf, rest)) =>
          if exists i :: 2 * bits <= i < |ctl| && ctl[i] then None else Some((PublicShare(inner, leaf), rest))
  }

  function Prepend<V>(inner: seq<CorrectionWord<V>>, r: Option<(seq<CorrectionWord<V>>, Bytes)>): Option<(seq<CorrectionWord<V>>, Bytes)> {
    match r
    case None => None
    case Some((cws, rest)) => Some((inner + cws, rest))
  }

  lemma {:induction false} PrependStep<V>(c: ValueCodec<V>, ctl: seq<bool>, i: nat, n: nat, b: Bytes, inner: seq<CorrectionWord<V>>)
    requires i < n && 2 * n <= |ctl|
    ensures var w := ParseWord(c, (ctl[2 * i], ctl[2 * i + 1]), b);
            Prepend(inner, ParseWords(c, ctl, i, n, b))
            == if w.None? then None else Prepend(inner + [w.value.0], ParseWords(c, ctl, i + 1, n, w.value.1))
  {
    hide ParseWord;
    var w := ParseWord(c, (ctl[2 * i], ctl[2 * i + 1]), b);
    if w.Some? {
      var (cw, b') := w.value;
      var r := ParseWords(c, ctl, i + 1, n, b');
      if r.Some? {
        assert inner + ([cw] + r.value.0) == inner + [cw] + r.value.0;
      }
    }
  }

  lemma {:induction false} PrependEmpty<V>(r: Option<(seq<CorrectionWord<V>>, Bytes)>)
    ensures Prepend([], r) == r
  {
    if r.Some? {
      assert [] + r.value.0 == r.value.0;
    }
  }

  lemma {:induction false} PrependNone<V>(inner: seq<CorrectionWord<V>>, b: Bytes)
    ensures Prepend(inner, Some(([], b))) == Some((inner, b))
  {
    assert inner + [] == inner;
  }

  /** `decode_with_param`. */
  method Decode<VI, VL>(ci: ValueCodec<VI>, cl: ValueCodec<VL>, bits: nat, bytes: Bytes) returns (r: Option<(PublicShare<VI, VL>, Bytes)>)
    requires 1 <= bits
    ensures r == Decoded(ci, cl, bits, bytes)
  {
    hide ParseWord, Unpack, Prepend;
    var n := (bits + 3) / 4;
    if |bytes| < n {
      return None;
    }
    var ctl := Unpack(bytes[..n]);
    var b := bytes[n..];
    var inner: seq<CorrectionWord<VI>> := [];
    PrependEmpty(ParseWords(ci, ctl, 0, bits - 1, b));
    for i := 0 to bits - 1
      invariant |inner| == i
      invariant ParseWords(ci, ctl, 0, bits - 1, bytes[n..]) == Prepend(inner, ParseWords(ci, ctl, i, bits - 1, b))
    {
      var w := ParseWord(ci, (ctl[2 * i], ctl[2 * i + 1]), b);
      PrependStep(ci, ctl, i, bits - 1, b, inner);
      if w.None? {
        return None;
      }
      inner, b := inner + [w.value.0], w.value.1;
    }
    PrependNone(inner, b);
    var leaf := ParseWord(cl, (ctl[2 * bits - 2], ctl[2 * bits - 1]), b);
    if leaf.None? {
      return None;
    }
    for i := 2 * bits to |ctl|
      invariant forall k :: 2 * bits <= k < i ==> !ctl[k]
    {
      if ctl[i] {
        return None;
      }
    }
    return Some((PublicShare(inner, leaf.value.0), leaf.value.1));
  }

  /** The packed controls of a public share decode to its control bits and zeros. */
  lemma {:induction false} ControlsDecode<VI, VL>(pub: PublicShare<VI, VL>, ctl: seq<bool>)
    requires ctl == Unpack(Pack(AllControls(pub)))
    ensures 2 * |pub.inner| + 2 <= |ctl| && Carries(pub.inner, ctl, 0)
    ensures pub.leaf.bits == (ctl[2 * |pub.inner|], ctl[2 * |pub.inner| + 1])
    ensures forall i :: 2 * |pub.inner| + 2 <= i < |ctl| ==> !ctl[i]
  {
    UnpackPack(AllControls(pub));
    hide Pack, Unpack, Controls;
    forall k | 0 <= k < |pub.inner| ensures pub.inner[k].bits == (ctl[2 * (0 + k)], ctl[2 * (0 + k) + 1]) {
      ControlsAt(pub.inner, k);
    }
  }

  /** Round trip: decoding what was encoded, followed by anything. */
  lemma {:induction false} DecodeEncoded<VI(!new), VL(!new)>(ci: ValueCodec<VI>, cl: ValueCodec<VL>, pub: PublicShare<VI, VL>, rest: Bytes)
    requires Inverse(ci) && Inverse(cl)
    ensures Decoded(ci, cl, |pub.inner| + 1, Encoded(ci, cl, pub) + rest) == Some((pub, rest))
  {
    hide Inverse, ParseWord, ParseWords, Words, Pack, Unpack, AllControls, Carries;
    var bits, b := |pub.inner| + 1, Encoded(ci, cl, pub) + rest;
    var n := (bits + 3) / 4;
    var packed := Pack(AllControls(pub));
    assert |packed| == n && b[..n] == packed;
    var tail := pub.leaf.seed + cl.encode(pub.leaf.value) + rest;
    assert b[n..] == Words(ci, pub.inner) + tail;
    var ctl := Unpack(packed);
    ControlsDecode(pub, ctl);
    ParseWordsIff(ci, ctl, 0, bits - 1, b[n..], pub.inner, tail);
    ParseWordIff(cl, (ctl[2 * bits - 2], ctl[2 * bits - 1]), tail, pub.leaf, rest);
  }

  /** Canonical form: any accepted bytes are the encoding of what they decode to. */
  lemma {:induction false} EncodedDecode<VI(!new), VL(!new)>(ci: ValueCodec<VI>, cl: ValueCodec<VL>, bits: nat, b: Bytes)
    requires Inverse(ci) && Inverse(cl) && 1 <= bits && Decoded(ci, cl, bits, b).Some?
    ensures var (pub, rest) := Decoded(ci, cl, bits, b).value;
            |pub.inner| == bits - 1 && b == Encoded(ci, cl, pub) + rest
  {
    hide Inverse, ParseWord, ParseWords, Words, Pack, Unpack, Carries;
    var (pub, rest) := Decoded(ci, cl, bits, b).value;
    var n := (bits + 3) / 4;
    var ctl := Unpack(b[..n]);
    var (inner, b') := ParseWords(ci, ctl, 0, bits - 1, b[n..]).value;
    ParseWordsIff(ci, ctl, 0, bits - 1, b[n..], inner, b');
    ParseWordIff(cl, (ctl[2 * bits - 2], ctl[2 * bits - 1]), b', pub.leaf, rest);
    CarriedControls(pub, ctl, bits);
    PackUnpack(b[..n], 2 * bits);
    assert b == b[..n] + b[n..];
    assert Encoded(ci, cl, pub) + rest == b[..n] + (Words(ci, inner) + (pub.leaf.seed + cl.encode(pub.leaf.value) + rest));
  }

  lemma {:induction false} CarriedControls<VI, VL>(pub: PublicShare<VI, VL>, ctl: seq<bool>, bits: nat)
    requires |pub.inner| == bits - 1 && 2 * bits <= |ctl| && Carries(pub.inner, ctl, 0)
    requires pub.leaf.bits == (ctl[2 * bits - 2], ctl[2 * bits - 1])
    ensures AllControls(pub) == ctl[..2 * bits]
  {
    hide Controls;
    forall i | 0 <= i < 2 * bits ensures AllControls(pub)[i] == ctl[i] {
      if i < 2 * |pub.inner| {
        ControlsAt(pub.inner, i / 2);
        assert pub.inner[i / 2].bits == (ctl[2 * (0 + i / 2)], ctl[2 * (0 + i / 2) + 1]);
      }
    }
  }

  /** The encoded lengths of the inner values. */
  function ValuesLength<V>(c: ValueCodec<V>, cws: seq<CorrectionWord<V>>): nat {
    if cws == [] then 0 else |c.encode(cws[0].value)| + ValuesLength(c, cws[1..])
  }

  /** `encoded_len`. */
  lemma {:induction false} EncodedLength<VI, VL>(ci: ValueCodec<VI>, cl: ValueCodec<VL>, pub: PublicShare<VI, VL>)
    ensures |Encoded(ci, cl, pub)|
         == (2 * (|pub.inner| + 1) + 7) / 8 + 16 * (|pub.inner| + 1) + ValuesLength(ci, pub.inner) + |cl.encode(pub.leaf.value)|
  {
    WordsLength(ci, pub.inner);
  }

  lemma {:induction false} WordsLength<V>(c: ValueCodec<V>, cws: seq<CorrectionWord<V>>)
    ensures |Words(c, cws)| == 16 * |cws| + ValuesLength(c, cws)
  {
    if cws != [] {
      WordsLength(c, cws[1..]);
    }
  }
}
