/** Decoding undoes encoding, for every message. */
module WakuRoundTrip {
  import opened ByteStrings
  import opened Wire
  import opened WakuCodec
  import opened Wrappers

  /** Length prefixes are written as 32-bit numbers, so no byte field is 2^32 bytes or longer. */
  ghost predicate ProofSized(p: RateLimitProof) {
    && (forall k | 1 <= k <= 7 :: |ProofField(p, k)| < U32_LIMIT)
    && |ProofBytes(p)| < U32_LIMIT
  }

  ghost predicate Sized(m: WakuMessage) {
    && |m.payload| < U32_LIMIT && |m.contentTopic| < U32_LIMIT
    && (m.meta.Some? ==> |m.meta.value| < U32_LIMIT)
    && (m.rateLimitProof.Some? ==> ProofSized(m.rateLimitProof.value))
  }

  /** `acc` holds the first `k` fields of `p` and defaults elsewhere. */
  ghost predicate ProofSoFar(acc: RateLimitProof, p: RateLimitProof, k: nat) {
    forall j | 1 <= j <= 7 :: ProofField(acc, j) == if j <= k then ProofField(p, j) else []
  }

  lemma ProofsEqual(a: RateLimitProof, b: RateLimitProof)
    requires forall j | 1 <= j <= 7 :: ProofField(a, j) == ProofField(b, j)
    ensures a == b
  {
    assert ProofField(a, 1) == ProofField(b, 1) && ProofField(a, 2) == ProofField(b, 2);
    assert ProofField(a, 3) == ProofField(b, 3) && ProofField(a, 4) == ProofField(b, 4);
    assert ProofField(a, 5) == ProofField(b, 5) && ProofField(a, 6) == ProofField(b, 6);
    assert ProofField(a, 7) == ProofField(b, 7);
  }

  lemma DelimitedReadBack(buf: Bytes, pos: nat, tag: u32, v: Bytes) returns (p: nat)
    requires At(buf, pos, DelimitedField(tag, v)) && |v| < U32_LIMIT
    ensures p <= |buf| && ReadUint32(buf, pos) == Got(tag, p) && At(buf, p, Varint(|v|) + v)
    ensures ReadBytes(buf, p) == Got(v, pos + |DelimitedField(tag, v)|)
    ensures p + |Varint(|v|)| + |v| == pos + |DelimitedField(tag, v)|
  {
    AtSplit(buf, pos, Varint(tag), Varint(|v|) + v);
    Uint32ReadBack(buf, pos, tag);
    p := pos + |Varint(tag)|;
    BytesReadBack(buf, p, v);
  }

  /** One proof field, written or left out, is decoded into `acc`. */
  lemma ProofFieldReadBack(buf: Bytes, pos: nat, end: nat, acc: RateLimitProof, k: nat, v: Bytes)
    requires 1 <= k <= 7 && |v| < U32_LIMIT && ProofField(acc, k) == []
    requires At(buf, pos, NonEmptyField(8 * k + 2, v)) && pos + |NonEmptyField(8 * k + 2, v)| <= end
    ensures DecodeProof(buf, pos, end, acc)
         == DecodeProof(buf, pos + |NonEmptyField(8 * k + 2, v)|, end, SetProofField(acc, k, v))
  {
    if v != [] {
      var p := DelimitedReadBack(buf, pos, 8 * k + 2, v);
      assert (8 * k + 2) / 8 == k;
    }
  }

  lemma ProofSoFarStep(acc: RateLimitProof, p: RateLimitProof, k: nat)
    requires k < 7 && ProofSoFar(acc, p, k)
    ensures ProofSoFar(SetProofField(acc, k + 1, ProofField(p, k + 1)), p, k + 1)
  {
    var next := SetProofField(acc, k + 1, ProofField(p, k + 1));
    forall j | 1 <= j <= 7
      ensures ProofField(next, j) == if j == k + 1 then ProofField(p, j) else ProofField(acc, j)
    {}
  }

  lemma NothingLeft(buf: Bytes, end: nat, p: RateLimitProof)
    ensures Join(ProofParts(p)[7..]) == []
    ensures end <= |buf| ==> DecodeProof(buf, end, end, p) == Got(p, end)
  {}

  lemma NthProofPart(buf: Bytes, pos: nat, p: RateLimitProof, k: nat) returns (part: Bytes)
    requires k < 7 && At(buf, pos, Join(ProofParts(p)[k..]))
    ensures part == NonEmptyField(8 * (k + 1) + 2, ProofField(p, k + 1))
    ensures At(buf, pos, part) && At(buf, pos + |part|, Join(ProofParts(p)[k + 1..]))
    ensures |Join(ProofParts(p)[k..])| == |part| + |Join(ProofParts(p)[k + 1..])|
  {
    hide NonEmptyField;
    var parts := ProofParts(p);
    part := parts[k];
    assert parts[k..][0] == part && parts[k..][1..] == parts[k + 1..];
    AtSplit(buf, pos, part, Join(parts[k + 1..]));
  }

  lemma {:induction false} ProofReadBack(buf: Bytes, pos: nat, end: nat, p: RateLimitProof, k: nat, acc: RateLimitProof)
    requires k <= 7 && ProofSized(p) && ProofSoFar(acc, p, k)
    requires At(buf, pos, Join(ProofParts(p)[k..])) && end == pos + |Join(ProofParts(p)[k..])|
    ensures DecodeProof(buf, pos, end, acc) == Got(p, end)
    decreases 7 - k
  {
    hide ProofParts, NonEmptyField, DecodeProof, SetProofField, ProofField;
    if k == 7 {
      NothingLeft(buf, end, p);
      ProofsEqual(acc, p);
    } else {
      var part := NthProofPart(buf, pos, p, k);
      ProofFieldReadBack(buf, pos, end, acc, k + 1, ProofField(p, k + 1));
      ProofSoFarStep(acc, p, k);
      ProofReadBack(buf, pos + |part|, end, p, k + 1, SetProofField(acc, k + 1, ProofField(p, k + 1)));
    }
  }

  /** The first `i` fields of `m`, in the order they are written, and defaults elsewhere. */
  ghost function FirstFields(m: WakuMessage, i: nat): WakuMessage {
    WakuMessage(
      if i > 0 then m.payload else [],
      if i > 1 then m.contentTopic else [],
      if i > 2 then m.version else None,
      if i > 3 then m.timestamp else None,
      if i > 4 then m.meta else None,
      if i > 5 then m.rateLimitProof else None,
      if i > 6 then m.ephemeral else None)
  }

  lemma UintFieldReadBack(buf: Bytes, pos: nat, tag: u32, n: nat) returns (p: nat)
    requires At(buf, pos, Varint(tag) + Varint(n))
    ensures p <= |buf| && ReadUint32(buf, pos) == Got(tag, p)
    ensures At(buf, p, Varint(n)) && p + |Varint(n)| == pos + |Varint(tag) + Varint(n)|
  {
    AtSplit(buf, pos, Varint(tag), Varint(n));
    Uint32ReadBack(buf, pos, tag);
    p := pos + |Varint(tag)|;
  }

  /** One field read at `pos` moves the decoder past it. */
  lemma DecodeOne(buf: Bytes, pos: nat, tag: u32, p: nat, acc: WakuMessage, next: WakuMessage, q: nat)
    requires pos <= |buf| && p <= |buf| && ReadUint32(buf, pos) == Got(tag, p)
    requires WakuStep(buf, tag, p, acc) == Got(next, q)
    ensures DecodeWaku(buf, pos, acc) == DecodeWaku(buf, q, next)
  {}

  lemma DelimitedFieldDecodes(buf: Bytes, pos: nat, tag: u32, v: Bytes, acc: WakuMessage, next: WakuMessage)
    requires tag == 10 || tag == 18 || tag == 90
    requires At(buf, pos, DelimitedField(tag, v)) && |v| < U32_LIMIT
    requires next == if tag == 10 then acc.(payload := v) else if tag == 18 then acc.(contentTopic := v)
                     else acc.(meta := Some(v))
    ensures DecodeWaku(buf, pos, acc) == DecodeWaku(buf, pos + |DelimitedField(tag, v)|, next)
  {
    hide DelimitedField, DecodeWaku, ReadUint32, ReadBytes, Varint;
    var p := DelimitedReadBack(buf, pos, tag, v);
    DecodeOne(buf, pos, tag, p, acc, next, pos + |DelimitedField(tag, v)|);
  }

  lemma VersionDecodes(buf: Bytes, pos: nat, v: u32, acc: WakuMessage)
    requires At(buf, pos, Varint(24) + Varint(v))
    ensures DecodeWaku(buf, pos, acc) == DecodeWaku(buf, pos + |Varint(24) + Varint(v)|, acc.(version := Some(v)))
  {
    hide DecodeWaku, ReadUint32, ReadSint64, ReadBool, Varint, ZigZag;
    var p := UintFieldReadBack(buf, pos, 24, v);
    Uint32ReadBack(buf, p, v);
    DecodeOne(buf, pos, 24, p, acc, acc.(version := Some(v)), p + |Varint(v)|);
  }

  lemma TimestampDecodes(buf: Bytes, pos: nat, v: i64, acc: WakuMessage)
    requires At(buf, pos, Varint(80) + Varint(ZigZag(v)))
    ensures DecodeWaku(buf, pos, acc)
         == DecodeWaku(buf, pos + |Varint(80) + Varint(ZigZag(v))|, acc.(timestamp := Some(v)))
  {
    hide DecodeWaku, ReadUint32, ReadSint64, ReadBool, Varint, ZigZag;
    var p := UintFieldReadBack(buf, pos, 80, ZigZag(v));
    Sint64ReadBack(buf, p, v);
    DecodeOne(buf, pos, 80, p, acc, acc.(timestamp := Some(v)), p + |Varint(ZigZag(v))|);
  }

  lemma EphemeralDecodes(buf: Bytes, pos: nat, v: bool, acc: WakuMessage)
    requires At(buf, pos, Varint(248) + Varint(if v then 1 else 0))
    ensures DecodeWaku(buf, pos, acc)
         == DecodeWaku(buf, pos + |Varint(248) + Varint(if v then 1 else 0)|, acc.(ephemeral := Some(v)))
  {
    hide DecodeWaku, ReadUint32, ReadBool;
    var p := UintFieldReadBack(buf, pos, 248, if v then 1 else 0);
    BoolReadBack(buf, p, v);
    DecodeOne(buf, pos, 248, p, acc, acc.(ephemeral := Some(v)), p + 1);
  }

  lemma BodyReadBack(buf: Bytes, pos: nat, x: RateLimitProof)
    requires ProofSized(x) && At(buf, pos, ProofBytes(x))
    ensures DecodeProof(buf, pos, pos + |ProofBytes(x)|, BLANK_PROOF) == Got(x, pos + |ProofBytes(x)|)
  {
    hide ProofParts, DecodeProof, Join, NonEmptyField;
    assert ProofParts(x)[0..] == ProofParts(x);
    ProofReadBack(buf, pos, pos + |ProofBytes(x)|, x, 0, BLANK_PROOF);
  }

  /** The length prefix of a nested proof delimits exactly the proof's own fields. */
  lemma {:induction false} NestedProofDecodes(buf: Bytes, pos: nat, x: RateLimitProof, acc: WakuMessage)
    requires ProofSized(x) && At(buf, pos, DelimitedField(170, ProofBytes(x)))
    ensures DecodeWaku(buf, pos, acc)
         == DecodeWaku(buf, pos + |DelimitedField(170, ProofBytes(x))|, acc.(rateLimitProof := Some(x)))
  {
    hide ProofBytes, DecodeProof, DecodeWaku, ReadUint32, ReadBytes, Varint, ProofParts;
    var body := ProofBytes(x);
    var p := DelimitedReadBack(buf, pos, 170, body);
    AtSplit(buf, p, Varint(|body|), body);
    Uint32ReadBack(buf, p, |body|);
    var q := p + |Varint(|body|)|;
    BodyReadBack(buf, q, x);
    DecodeOne(buf, pos, 170, p, acc, acc.(rateLimitProof := Some(x)), q + |body|);
  }

  /** The `i`-th field, written or left out, is decoded into what the fields before it gave. */
  lemma WakuFieldReadBack(buf: Bytes, pos: nat, m: WakuMessage, i: nat)
    requires i < 7 && Sized(m) && At(buf, pos, WakuParts(m)[i])
    ensures DecodeWaku(buf, pos, FirstFields(m, i))
         == DecodeWaku(buf, pos + |WakuParts(m)[i]|, FirstFields(m, i + 1))
  {
    hide DecodeWaku, ProofBytes, Varint;
    var acc, next := FirstFields(m, i), FirstFields(m, i + 1);
    if WakuParts(m)[i] == [] {
      assert acc == next;
    } else {
      match i
      case 0 => DelimitedFieldDecodes(buf, pos, 10, m.payload, acc, next);
      case 1 => DelimitedFieldDecodes(buf, pos, 18, m.contentTopic, acc, next);
      case 2 => VersionDecodes(buf, pos, m.version.value, acc);
      case 3 => TimestampDecodes(buf, pos, m.timestamp.value, acc);
      case 4 => DelimitedFieldDecodes(buf, pos, 90, m.meta.value, acc, next);
      case 5 => NestedProofDecodes(buf, pos, m.rateLimitProof.value, acc);
      case _ => EphemeralDecodes(buf, pos, m.ephemeral.value, acc);
    }
  }

  lemma AllFieldsRead(buf: Bytes, m: WakuMessage)
    ensures FirstFields(m, 7) == m && FirstFields(m, 0) == BLANK_MESSAGE
    ensures Join(WakuParts(m)[7..]) == []
    ensures DecodeWaku(buf, |buf|, m) == Got(m, |buf|)
  {}

  lemma {:induction false} WakuReadBack(buf: Bytes, pos: nat, m: WakuMessage, i: nat)
    requires i <= 7 && Sized(m)
    requires At(buf, pos, Join(WakuParts(m)[i..])) && pos + |Join(WakuParts(m)[i..])| == |buf|
    ensures DecodeWaku(buf, pos, FirstFields(m, i)) == Got(m, |buf|)
    decreases 7 - i
  {
    hide WakuPart, WakuStep, Sized, FirstFields, WakuParts, DecodeWaku;
    if i == 7 {
      AllFieldsRead(buf, m);
    } else {
      var parts := WakuParts(m);
      assert parts[i..][0] == parts[i] && parts[i..][1..] == parts[i + 1..];
      AtSplit(buf, pos, parts[i], Join(parts[i + 1..]));
      WakuFieldReadBack(buf, pos, m, i);
      WakuReadBack(buf, pos + |parts[i]|, m, i + 1);
    }
  }

  /** WakuMessage.decode(WakuMessage.encode(m)) gives back m. */
  lemma {:induction false} WakuRoundTrips(m: WakuMessage)
    requires Sized(m)
    ensures Outcome(DecodeWaku(WakuBytes(m), 0, BLANK_MESSAGE)) == Some(m)
  {
    var buf := WakuBytes(m);
    assert buf[0..0 + |buf|] == buf && WakuParts(m)[0..] == WakuParts(m);
    AllFieldsRead(buf, m);
    WakuReadBack(buf, 0, m, 0);
  }
}
