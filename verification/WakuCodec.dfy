/**
 * The generated codecs of WakuMessage, its nested RateLimitProof, and the TopicOnlyMessage that relay uses to
 * route. Strings are the bytes of their UTF-8 encoding.
 */
module WakuCodec {
  import opened ByteStrings
  import opened Wire
  import opened Wrappers

  datatype RateLimitProof = RateLimitProof(
    proof: Bytes, merkleRoot: Bytes, epoch: Bytes, shareX: Bytes, shareY: Bytes, nullifier: Bytes, rlnIdentifier: Bytes)

  datatype WakuMessage = WakuMessage(
    payload: Bytes,
    contentTopic: Bytes,
    version: Option<u32>,
    timestamp: Option<i64>,
    meta: Option<Bytes>,
    rateLimitProof: Option<RateLimitProof>,
    ephemeral: Option<bool>)

  datatype TopicOnlyMessage = TopicOnlyMessage(contentTopic: Bytes)

  const BLANK_PROOF := RateLimitProof([], [], [], [], [], [], [])
  const BLANK_MESSAGE := WakuMessage([], [], None, None, None, None, None)

  /** Field `k` of a proof, 1 to 7. */
  function ProofField(p: RateLimitProof, k: nat): Bytes
    requires 1 <= k <= 7
  {
    match k
    case 1 => p.proof
    case 2 => p.merkleRoot
    case 3 => p.epoch
    case 4 => p.shareX
    case 5 => p.shareY
    case 6 => p.nullifier
    case _ => p.rlnIdentifier
  }

  function SetProofField(p: RateLimitProof, k: nat, v: Bytes): RateLimitProof
    requires 1 <= k <= 7
  {
    match k
    case 1 => p.(proof := v)
    case 2 => p.(merkleRoot := v)
    case 3 => p.(epoch := v)
    case 4 => p.(shareX := v)
    case 5 => p.(shareY := v)
    case 6 => p.(nullifier := v)
    case _ => p.(rlnIdentifier := v)
  }

  // ---- Encoding ----

  function DelimitedField(tag: nat, v: Bytes): Bytes {
    Varint(tag) + (Varint(|v|) + v)
  }

  /** Fields holding the default are left out. */
  function NonEmptyField(tag: nat, v: Bytes): Bytes {
    if v == [] then [] else DelimitedField(tag, v)
  }

  /** The `k`-th field a proof is written with; it belongs to field number `k + 1`. */
  function ProofPart(p: RateLimitProof, k: nat): Bytes
    requires k < 7
  {
    NonEmptyField(8 * k + 10, ProofField(p, k + 1))
  }

  function ProofParts(p: RateLimitProof): (parts: seq<Bytes>)
    ensures |parts| == 7
    ensures forall k | 0 <= k < 7 :: parts[k] == ProofPart(p, k)
  {
    seq(7, k requires 0 <= k < 7 => ProofPart(p, k))
  }

  function ProofBytes(p: RateLimitProof): Bytes { Join(ProofParts(p)) }

  function OptionalUint(tag: nat, v: Option<nat>): Bytes {
    if v.None? then [] else Varint(tag) + Varint(v.value)
  }

  function OptionalBytes(tag: nat, v: Option<Bytes>): Bytes {
    if v.None? then [] else DelimitedField(tag, v.value)
  }

  function OptionalProof(v: Option<RateLimitProof>): Bytes {
    if v.None? then [] else DelimitedField(170, ProofBytes(v.value))
  }

  /** The `i`-th field a message is written with. */
  function WakuPart(m: WakuMessage, i: nat): Bytes
    requires i < 7
  {
    match i
    case 0 => NonEmptyField(10, m.payload)
    case 1 => NonEmptyField(18, m.contentTopic)
    case 2 => OptionalUint(24, if m.version.None? then None else Some(m.version.value))
    case 3 => OptionalUint(80, if m.timestamp.None? then None else Some(ZigZag(m.timestamp.value)))
    case 4 => OptionalBytes(90, m.meta)
    case 5 => OptionalProof(m.rateLimitProof)
    case _ => OptionalUint(248, if m.ephemeral.None? then None else Some(if m.ephemeral.value then 1 else 0))
  }

  function WakuParts(m: WakuMessage): (parts: seq<Bytes>)
    ensures |parts| == 7
    ensures forall i | 0 <= i < 7 :: parts[i] == WakuPart(m, i)
  {
    seq(7, i requires 0 <= i < 7 => WakuPart(m, i))
  }

  lemma WakuPartsListed(m: WakuMessage)
    ensures WakuParts(m) == [
              NonEmptyField(10, m.payload),
              NonEmptyField(18, m.contentTopic),
              OptionalUint(24, if m.version.None? then None else Some(m.version.value)),
              OptionalUint(80, if m.timestamp.None? then None else Some(ZigZag(m.timestamp.value))),
              OptionalBytes(90, m.meta),
              OptionalProof(m.rateLimitProof),
              OptionalUint(248, if m.ephemeral.None? then None else Some(if m.ephemeral.value then 1 else 0))]
  {
    hide NonEmptyField, OptionalUint, OptionalBytes, OptionalProof, ZigZag;
  }

  function WakuBytes(m: WakuMessage): Bytes { Join(WakuParts(m)) }

  method PutNonEmpty(w: Writer, tag: nat, v: Bytes)
    modifies w`out
    ensures w.out == old(w.out) + NonEmptyField(tag, v)
  {
    hide Varint;
    if |v| > 0 {
      w.Uint(tag);
      w.Put(v);
    }
  }

  /** The seven conditional writes of RateLimitProof's encoder. */
  method PutProofFields(w: Writer, p: RateLimitProof)
    modifies w`out
    ensures w.out == old(w.out) + ProofBytes(p)
  {
    hide NonEmptyField, Join;
    ghost var parts := ProofParts(p);
    assert parts[0..] == parts;
    PutNonEmpty(w, 10, p.proof);
    JoinStep(parts, 0, old(w.out), w.out);
    ghost var done := w.out;
    PutNonEmpty(w, 18, p.merkleRoot);
    JoinStep(parts, 1, done, w.out);
    done := w.out;
    PutNonEmpty(w, 26, p.epoch);
    JoinStep(parts, 2, done, w.out);
    done := w.out;
    PutNonEmpty(w, 34, p.shareX);
    JoinStep(parts, 3, done, w.out);
    done := w.out;
    PutNonEmpty(w, 42, p.shareY);
    JoinStep(parts, 4, done, w.out);
    done := w.out;
    PutNonEmpty(w, 50, p.nullifier);
    JoinStep(parts, 5, done, w.out);
    done := w.out;
    PutNonEmpty(w, 58, p.rlnIdentifier);
    JoinStep(parts, 6, done, w.out);
  }

  /** RateLimitProof.codec().encode with its length prefix, as it is called for a nested proof. */
  method EncodeNestedProof(p: RateLimitProof, w: Writer)
    modifies w
    ensures w.forks == old(w.forks)
    ensures w.out == old(w.out) + (Varint(|ProofBytes(p)|) + ProofBytes(p))
  {
    w.Fork();
    PutProofFields(w, p);
    w.Ldelim();
    ConcatAssociative(old(w.out), Varint(|ProofBytes(p)|), ProofBytes(p));
  }

  method PutOptionalUint(w: Writer, tag: nat, v: Option<nat>)
    modifies w`out
    ensures w.out == old(w.out) + OptionalUint(tag, v)
  {
    if v.Some? {
      w.Uint(tag);
      w.Uint(v.value);
    }
  }

  method PutOptionalProof(w: Writer, v: Option<RateLimitProof>)
    modifies w
    ensures w.out == old(w.out) + OptionalProof(v) && w.forks == old(w.forks)
  {
    if v.Some? {
      w.Uint(170);
      EncodeNestedProof(v.value, w);
    }
  }

  method PutOptionalBytes(w: Writer, tag: nat, v: Option<Bytes>)
    modifies w`out
    ensures w.out == old(w.out) + OptionalBytes(tag, v)
  {
    if v.Some? {
      w.Uint(tag);
      w.Put(v.value);
    }
  }

  /** WakuMessage.encode. */
  method EncodeWaku(m: WakuMessage) returns (bytes: Bytes)
    ensures bytes == WakuBytes(m)
  {
    hide NonEmptyField, OptionalUint, OptionalBytes, OptionalProof, Join, ZigZag, WakuPart, WakuParts;
    var w := new Writer();
    ghost var parts := WakuParts(m);
    WakuPartsListed(m);
    assert parts[0..] == parts;
    PutNonEmpty(w, 10, m.payload);
    JoinStep(parts, 0, [], w.out);
    ghost var done := w.out;
    PutNonEmpty(w, 18, m.contentTopic);
    JoinStep(parts, 1, done, w.out);
    done := w.out;
    PutOptionalUint(w, 24, if m.version.None? then None else Some(m.version.value));
    JoinStep(parts, 2, done, w.out);
    done := w.out;
    PutOptionalUint(w, 80, if m.timestamp.None? then None else Some(ZigZag(m.timestamp.value)));
    JoinStep(parts, 3, done, w.out);
    done := w.out;
    PutOptionalBytes(w, 90, m.meta);
    JoinStep(parts, 4, done, w.out);
    done := w.out;
    PutOptionalProof(w, m.rateLimitProof);
    JoinStep(parts, 5, done, w.out);
    done := w.out;
    PutOptionalUint(w, 248, if m.ephemeral.None? then None else Some(if m.ephemeral.value then 1 else 0));
    JoinStep(parts, 6, done, w.out);
    bytes := w.out;
  }

  /** TopicOnlyMessage.encode. */
  method EncodeTopicOnly(t: TopicOnlyMessage) returns (bytes: Bytes)
    ensures bytes == NonEmptyField(18, t.contentTopic)
  {
    var w := new Writer();
    PutNonEmpty(w, 18, t.contentTopic);
    bytes := w.out;
  }

  // ---- Decoding ----

  /** Skips an unknown field and keeps what was decoded so far. */
  function SkipField<T>(buf: Bytes, tag: nat, pos: nat, acc: T): (r: Read<T>)
    requires pos <= |buf|
    ensures r.Got? ==> pos < r.next <= |buf|
  {
    match SkipType(buf, pos, tag % 8)
    case Failed => Failed
    case Got(_, next) => Got(acc, next)
  }

  /** One turn of the switch in RateLimitProof's decoder. */
  function ProofStep(buf: Bytes, tag: nat, pos: nat, acc: RateLimitProof): (r: Read<RateLimitProof>)
    requires pos <= |buf|
    ensures r.Got? ==> pos < r.next <= |buf|
  {
    if 1 <= tag / 8 <= 7 then
      match ReadBytes(buf, pos)
      case Failed => Failed
      case Got(v, next) => Got(SetProofField(acc, tag / 8, v), next)
    else SkipField(buf, tag, pos, acc)
  }

  function DecodeProof(buf: Bytes, pos: nat, end: nat, acc: RateLimitProof): (r: Read<RateLimitProof>)
    requires pos <= |buf|
    ensures r.Got? ==> pos <= r.next <= |buf|
    decreases |buf| - pos
  {
    if pos >= end then Got(acc, pos)
    else
      match ReadUint32(buf, pos)
      case Failed => Failed
      case Got(tag, p) =>
        match ProofStep(buf, tag, p, acc)
        case Failed => Failed
        case Got(next, q) => DecodeProof(buf, q, end, next)
  }

  /** One turn of the switch in WakuMessage's decoder. */
  function WakuStep(buf: Bytes, tag: nat, pos: nat, acc: WakuMessage): (r: Read<WakuMessage>)
    requires pos <= |buf|
    ensures r.Got? ==> pos < r.next <= |buf|
  {
    match tag / 8
    case 1 => (match ReadBytes(buf, pos) case Failed => Failed case Got(v, p) => Got(acc.(payload := v), p))
    case 2 => (match ReadBytes(buf, pos) case Failed => Failed case Got(v, p) => Got(acc.(contentTopic := v), p))
    case 3 => (match ReadUint32(buf, pos) case Failed => Failed case Got(v, p) => Got(acc.(version := Some(v)), p))
    case 10 => (match ReadSint64(buf, pos) case Failed => Failed case Got(v, p) => Got(acc.(timestamp := Some(v)), p))
    case 11 => (match ReadBytes(buf, pos) case Failed => Failed case Got(v, p) => Got(acc.(meta := Some(v)), p))
    case 21 => (match ReadUint32(buf, pos)
                case Failed => Failed
                case Got(length, p) =>
                  match DecodeProof(buf, p, p + length, BLANK_PROOF)
                  case Failed => Failed
                  case Got(v, q) => Got(acc.(rateLimitProof := Some(v)), q))
    case 31 => (match ReadBool(buf, pos) case Failed => Failed case Got(v, p) => Got(acc.(ephemeral := Some(v)), p))
    case _ => SkipField(buf, tag, pos, acc)
  }

  function DecodeWaku(buf: Bytes, pos: nat, acc: WakuMessage): (r: Read<WakuMessage>)
    requires pos <= |buf|
    decreases |buf| - pos
  {
    if pos >= |buf| then Got(acc, pos)
    else
      match ReadUint32(buf, pos)
      case Failed => Failed
      case Got(tag, p) =>
        match WakuStep(buf, tag, p, acc)
        case Failed => Failed
        case Got(next, q) => DecodeWaku(buf, q, next)
  }

  /** One turn of the switch in TopicOnlyMessage's decoder. */
  function TopicStep(buf: Bytes, tag: nat, pos: nat, acc: TopicOnlyMessage): (r: Read<TopicOnlyMessage>)
    requires pos <= |buf|
    ensures r.Got? ==> pos < r.next <= |buf|
  {
    if tag / 8 == 2 then
      match ReadBytes(buf, pos)
      case Failed => Failed
      case Got(v, next) => Got(TopicOnlyMessage(v), next)
    else SkipField(buf, tag, pos, acc)
  }

  function DecodeTopicOnly(buf: Bytes, pos: nat, acc: TopicOnlyMessage): (r: Read<TopicOnlyMessage>)
    requires pos <= |buf|
    decreases |buf| - pos
  {
    if pos >= |buf| then Got(acc, pos)
    else
      match ReadUint32(buf, pos)
      case Failed => Failed
      case Got(tag, p) =>
        match TopicStep(buf, tag, p, acc)
        case Failed => Failed
        case Got(next, q) => DecodeTopicOnly(buf, q, next)
  }

  function Outcome<T>(r: Read<T>): Option<T> {
    if r.Got? then Some(r.value) else None
  }

  method ReadProof(reader: Reader, length: nat) returns (r: Option<RateLimitProof>)
    requires reader.Valid()
    modifies reader
    ensures reader.Valid()
    ensures reader.Advanced(DecodeProof(reader.buf, old(reader.pos), old(reader.pos) + length, BLANK_PROOF), r)
  {
    var obj := BLANK_PROOF;
    var end := reader.pos + length;
    while reader.pos < end
      invariant reader.Valid()
      invariant DecodeProof(reader.buf, reader.pos, end, obj)
             == DecodeProof(reader.buf, old(reader.pos), end, BLANK_PROOF)
      decreases |reader.buf| - reader.pos
    {
      var tag := reader.Uint32();
      if tag.None? {
        return None;
      }
      if 1 <= tag.value / 8 <= 7 {
        var v := reader.TakeBytes();
        if v.None? {
          return None;
        }
        obj := SetProofField(obj, tag.value / 8, v.value);
      } else {
        var skipped := reader.Skip(tag.value % 8);
        if skipped.None? {
          return None;
        }
      }
    }
    r := Some(obj);
  }

  method ReadWakuField(reader: Reader, tag: u32, obj: WakuMessage) returns (r: Option<WakuMessage>)
    requires reader.Valid()
    modifies reader
    ensures reader.Valid() && reader.Advanced(WakuStep(reader.buf, tag, old(reader.pos), obj), r)
  {
    match tag / 8 {
      case 1 =>
        var v := reader.TakeBytes();
        r := if v.Some? then Some(obj.(payload := v.value)) else None;
      case 2 =>
        var v := reader.TakeBytes();
        r := if v.Some? then Some(obj.(contentTopic := v.value)) else None;
      case 3 =>
        var v := reader.Uint32();
        r := if v.Some? then Some(obj.(version := v)) else None;
      case 10 =>
        var v := reader.Sint64();
        r := if v.Some? then Some(obj.(timestamp := v)) else None;
      case 11 =>
        var v := reader.TakeBytes();
        r := if v.Some? then Some(obj.(meta := v)) else None;
      case 21 =>
        var length := reader.Uint32();
        if length.None? {
          return None;
        }
        var v := ReadProof(reader, length.value);
        r := if v.Some? then Some(obj.(rateLimitProof := v)) else None;
      case 31 =>
        var v := reader.Bool();
        r := if v.Some? then Some(obj.(ephemeral := v)) else None;
      case _ =>
        var v := reader.Skip(tag % 8);
        r := if v.Some? then Some(obj) else None;
    }
  }

  /** WakuMessage.decode; None is a thrown error. */
  method DecodeWakuMessage(bytes: Bytes) returns (r: Option<WakuMessage>)
    ensures r == Outcome(DecodeWaku(bytes, 0, BLANK_MESSAGE))
  {
    var reader := new Reader(bytes);
    var obj := BLANK_MESSAGE;
    while reader.pos < |bytes|
      invariant reader.Valid() && reader.buf == bytes && fresh(reader)
      invariant DecodeWaku(bytes, reader.pos, obj) == DecodeWaku(bytes, 0, BLANK_MESSAGE)
      decreases |bytes| - reader.pos
    {
      var tag := reader.Uint32();
      if tag.None? {
        return None;
      }
      var next := ReadWakuField(reader, tag.value, obj);
      if next.None? {
        return None;
      }
      obj := next.value;
    }
    r := Some(obj);
  }

  /** TopicOnlyMessage.decode; None is a thrown error. */
  method DecodeTopicOnlyMessage(bytes: Bytes) returns (r: Option<TopicOnlyMessage>)
    ensures r == Outcome(DecodeTopicOnly(bytes, 0, TopicOnlyMessage([])))
  {
    var reader := new Reader(bytes);
    var obj := TopicOnlyMessage([]);
    while reader.pos < |bytes|
      invariant reader.Valid() && reader.buf == bytes && fresh(reader)
      invariant DecodeTopicOnly(bytes, reader.pos, obj) == DecodeTopicOnly(bytes, 0, TopicOnlyMessage([]))
      decreases |bytes| - reader.pos
    {
      var tag := reader.Uint32();
      if tag.None? {
        return None;
      }
      if tag.value / 8 == 2 {
        var v := reader.TakeBytes();
        if v.None? {
          return None;
        }
        obj := TopicOnlyMessage(v.value);
      } else {
        var skipped := reader.Skip(tag.value % 8);
        if skipped.None? {
          return None;
        }
      }
    }
    r := Some(obj);
  }
}
