/**
 * Any list of fields, in any order, repeated or unknown: what both decoders make of its topic is the last topic
 * field, as the Protocol Buffers rule for repeated singular fields has it.
 */
module FieldStreams {
  import opened ByteStrings
  import opened Wire
  import opened WakuCodec
  import opened WakuProjection
  import opened Wrappers

  datatype Field =
    | Scalar(number: nat, n: nat)
    | Wide(number: nat, value: Bytes)
    | Narrow(number: nat, value: Bytes)
    | Delimited(number: nat, value: Bytes)
    | Nested(number: nat, fields: seq<Field>)
    | Group(number: nat, fields: seq<Field>)

  function WireType(f: Field): nat {
    match f
    case Scalar(_, _) => 0
    case Wide(_, _) => 1
    case Delimited(_, _) => 2
    case Nested(_, _) => 2
    case Group(_, _) => 3
    case Narrow(_, _) => 5
  }

  function Content(f: Field): Bytes
    decreases f, 0
  {
    match f
    case Scalar(_, n) => Varint(n)
    case Wide(_, v) => v
    case Narrow(_, v) => v
    case Delimited(_, v) => Varint(|v|) + v
    case Nested(_, fs) => Varint(|Serialized(fs)|) + Serialized(fs)
    case Group(k, fs) => Serialized(fs) + Varint(8 * k + 4)
  }

  function Serialized(fs: seq<Field>): Bytes
    decreases fs, 0
  {
    if fs == [] then [] else Varint(8 * fs[0].number + WireType(fs[0])) + (Content(fs[0]) + Serialized(fs[1..]))
  }

  lemma NothingSerialized()
    ensures Serialized([]) == []
  {}

  /** Numbers and sizes are in the ranges the format allows. */
  ghost predicate Wellformed(f: Field)
    decreases f, 0
  {
    && f.number < 0x2000_0000
    && match f
       case Scalar(_, n) => n < U64_LIMIT
       case Wide(_, v) => |v| == 8
       case Narrow(_, v) => |v| == 4
       case Delimited(_, v) => |v| < U32_LIMIT
       case Nested(_, fs) => AllWellformed(fs) && |Serialized(fs)| < U32_LIMIT
       case Group(_, fs) => AllWellformed(fs)
  }

  ghost predicate AllWellformed(fs: seq<Field>)
    decreases fs, 0
  {
    fs == [] || (Wellformed(fs[0]) && AllWellformed(fs[1..]))
  }

  ghost predicate AllProofTyped(fs: seq<Field>) {
    forall i | 0 <= i < |fs| :: 1 <= fs[i].number <= 7 ==> WireType(fs[i]) == 2
  }

  /** The field has the type its number is declared with; a nested proof holds proof fields and unknown ones. */
  ghost predicate Typed(f: Field) {
    match DeclaredType(f.number)
    case None => true
    case Some(w) => WireType(f) == w && (f.number == 21 ==> f.Nested? && AllProofTyped(f.fields))
  }

  ghost predicate AllTyped(fs: seq<Field>) {
    forall i | 0 <= i < |fs| :: Typed(fs[i])
  }

  /** The bytes of a length-delimited field. */
  function Payload(f: Field): Bytes
    requires WireType(f) == 2
  {
    if f.Nested? then Serialized(f.fields) else f.value
  }

  /** The last field with the number, if any. */
  function Last(fs: seq<Field>, number: nat): Option<Field> {
    if fs == [] then None
    else
      match Last(fs[1..], number)
      case Some(f) => Some(f)
      case None => if fs[0].number == number then Some(fs[0]) else None
  }

  function BytesOf(f: Option<Field>, before: Bytes): Bytes {
    if f.Some? && WireType(f.value) == 2 then Payload(f.value) else before
  }

  /** What a list of fields says about a proof; what it does not mention stays as before. */
  function ProofOf(fs: seq<Field>, before: RateLimitProof): RateLimitProof {
    RateLimitProof(
      BytesOf(Last(fs, 1), before.proof),
      BytesOf(Last(fs, 2), before.merkleRoot),
      BytesOf(Last(fs, 3), before.epoch),
      BytesOf(Last(fs, 4), before.shareX),
      BytesOf(Last(fs, 5), before.shareY),
      BytesOf(Last(fs, 6), before.nullifier),
      BytesOf(Last(fs, 7), before.rlnIdentifier))
  }

  /** What a list of fields says about a message; a later proof replaces an earlier one as a whole. */
  function MessageOf(fs: seq<Field>, before: WakuMessage): WakuMessage {
    WakuMessage(
      BytesOf(Last(fs, 1), before.payload),
      BytesOf(Last(fs, 2), before.contentTopic),
      match Last(fs, 3) { case Some(Scalar(_, n)) => Some(n % U32_LIMIT) case _ => before.version },
      match Last(fs, 10) { case Some(Scalar(_, n)) => Some(UnZigZag(n % U64_LIMIT)) case _ => before.timestamp },
      match Last(fs, 11) { case Some(f) => Some(BytesOf(Some(f), [])) case None => before.meta },
      match Last(fs, 21) { case Some(Nested(_, inner)) => Some(ProofOf(inner, BLANK_PROOF))
                           case _ => before.rateLimitProof },
      match Last(fs, 31) { case Some(Scalar(_, n)) => Some(n % U32_LIMIT != 0) case _ => before.ephemeral })
  }

  lemma {:induction false} LastExactly(fs: seq<Field>, number: nat)
    ensures Last(fs, number).None? <==> forall i | 0 <= i < |fs| :: fs[i].number != number
    ensures forall i | 0 <= i < |fs| && fs[i].number == number && (forall j | i < j < |fs| :: fs[j].number != number) ::
              Last(fs, number) == Some(fs[i])
  {
    if fs != [] {
      LastExactly(fs[1..], number);
      assert forall i | 0 <= i < |fs| - 1 :: fs[1..][i] == fs[i + 1];
    }
  }

  lemma LastOfOne(f: Field, number: nat)
    ensures Last([f], number) == if f.number == number then Some(f) else None
  {
    assert [f][1..] == [];
  }

  lemma {:induction false} LastConcat(a: seq<Field>, b: seq<Field>, number: nat)
    ensures Last(a + b, number) == if Last(b, number).Some? then Last(b, number) else Last(a, number)
  {
    if a == [] {
      assert a + b == b;
    } else {
      assert (a + b)[1..] == a[1..] + b;
      LastConcat(a[1..], b, number);
    }
  }

  lemma {:induction false} LastIsField(fs: seq<Field>, number: nat)
    ensures Last(fs, number).Some? ==> Last(fs, number).value in fs && Last(fs, number).value.number == number
  {
    if fs != [] {
      LastIsField(fs[1..], number);
    }
  }

  lemma ProofOfCons(fs: seq<Field>, before: RateLimitProof)
    requires fs != [] && AllProofTyped(fs)
    ensures ProofOf(fs, before) == ProofOf(fs[1..], ProofOf([fs[0]], before))
  {
    hide Last, Payload;
    assert fs == [fs[0]] + fs[1..];
    forall k: nat
      ensures Last(fs, k) == if Last(fs[1..], k).Some? then Last(fs[1..], k) else Last([fs[0]], k)
    {
      LastConcat([fs[0]], fs[1..], k);
    }
    forall k: nat | 1 <= k <= 7
      ensures Last(fs[1..], k).Some? ==> WireType(Last(fs[1..], k).value) == 2
    {
      LastIsField(fs[1..], k);
    }
  }

  lemma MessageOfCons(fs: seq<Field>, before: WakuMessage)
    requires fs != [] && AllTyped(fs)
    ensures MessageOf(fs, before) == MessageOf(fs[1..], MessageOf([fs[0]], before))
  {
    hide Last, Payload, ProofOf;
    assert fs == [fs[0]] + fs[1..];
    forall k: nat
      ensures Last(fs, k) == if Last(fs[1..], k).Some? then Last(fs[1..], k) else Last([fs[0]], k)
    {
      LastConcat([fs[0]], fs[1..], k);
    }
    forall k: nat
      ensures Last(fs[1..], k).Some? ==> Typed(Last(fs[1..], k).value) && Last(fs[1..], k).value.number == k
    {
      LastIsField(fs[1..], k);
    }
  }

  lemma HeadReadBack(buf: Bytes, pos: nat, fs: seq<Field>) returns (p: nat)
    requires fs != [] && Wellformed(fs[0]) && At(buf, pos, Serialized(fs))
    ensures pos < p && ReadUint32(buf, pos) == Got(8 * fs[0].number + WireType(fs[0]), p)
    ensures At(buf, p, Content(fs[0])) && At(buf, p + |Content(fs[0])|, Serialized(fs[1..]))
    ensures pos + |Serialized(fs)| == p + |Content(fs[0])| + |Serialized(fs[1..])|
  {
    hide Content, Varint, ReadUint32;
    var tag := 8 * fs[0].number + WireType(fs[0]);
    AtSplit(buf, pos, Varint(tag), Content(fs[0]) + Serialized(fs[1..]));
    Uint32ReadBack(buf, pos, tag);
    p := pos + |Varint(tag)|;
    AtSplit(buf, p, Content(fs[0]), Serialized(fs[1..]));
  }

  lemma PayloadReadBack(buf: Bytes, pos: nat, f: Field)
    requires WireType(f) == 2 && Wellformed(f) && At(buf, pos, Content(f))
    ensures ReadBytes(buf, pos) == Got(Payload(f), pos + |Content(f)|)
    ensures ReadUint32(buf, pos) == Got(|Payload(f)|, pos + |Content(f)| - |Payload(f)|)
    ensures pos + |Content(f)| >= |Payload(f)| && At(buf, pos + |Content(f)| - |Payload(f)|, Payload(f))
  {
    hide Varint, ReadUint32, ReadBytes;
    var v := Payload(f);
    AtSplit(buf, pos, Varint(|v|), v);
    Uint32ReadBack(buf, pos, |v|);
    BytesReadBack(buf, pos, v);
  }

  lemma WireTypeExists(f: Field)
    ensures WireType(f) in {0, 1, 2, 3, 5}
    ensures (8 * f.number + WireType(f)) % 8 == WireType(f)
  {}

  lemma SkipGroupReadBack(buf: Bytes, pos: nat, fs: seq<Field>, k: nat)
    requires k < 0x2000_0000 && At(buf, pos + |Serialized(fs)|, Varint(8 * k + 4))
    requires SkipGroup(buf, pos) == SkipGroup(buf, pos + |Serialized(fs)|)
    ensures SkipGroup(buf, pos).Got?
    ensures SkipGroup(buf, pos).next == pos + |Serialized(fs)| + |Varint(8 * k + 4)|
  {
    hide Varint, ReadUint32, SkipType, Serialized;
    Uint32ReadBack(buf, pos + |Serialized(fs)|, 8 * k + 4);
  }

  /** Skipping a field consumes exactly its content, groups included. */
  lemma {:induction false} SkipReadBack(buf: Bytes, pos: nat, f: Field)
    requires Wellformed(f) && At(buf, pos, Content(f))
    ensures SkipType(buf, pos, WireType(f)).Got? && SkipType(buf, pos, WireType(f)).next == pos + |Content(f)|
    decreases f, 0
  {
    hide Varint, ReadVarint;
    match f
    case Scalar(_, n) =>
      Varint64Length(n);
      VarintReadBack(buf, pos, n, VARINT_BYTES);
    case Wide(_, _) =>
    case Narrow(_, _) =>
    case Delimited(_, _) => PayloadReadBack(buf, pos, f);
    case Nested(_, _) => PayloadReadBack(buf, pos, f);
    case Group(k, fs) =>
      AtSplit(buf, pos, Serialized(fs), Varint(8 * k + 4));
      SkipGroupPrefix(buf, pos, fs);
      SkipGroupReadBack(buf, pos, fs, k);
  }

  /** In a group the fields at the front are skipped, and skipping goes on behind them. */
  lemma {:induction false} SkipGroupPrefix(buf: Bytes, pos: nat, fs: seq<Field>)
    requires AllWellformed(fs) && At(buf, pos, Serialized(fs))
    ensures SkipGroup(buf, pos) == SkipGroup(buf, pos + |Serialized(fs)|)
    decreases fs, 0
  {
    hide Varint, ReadUint32, Content, SkipType, Wellformed, Serialized;
    if fs == [] {
      NothingSerialized();
    } else {
      var p := HeadReadBack(buf, pos, fs);
      SkipReadBack(buf, p, fs[0]);
      WireTypeExists(fs[0]);
      SkipGroupPrefix(buf, p + |Content(fs[0])|, fs[1..]);
    }
  }

  /** One turn of the proof decoder takes in one field. */
  lemma ProofFieldTaken(buf: Bytes, p: nat, f: Field, acc: RateLimitProof)
    requires Wellformed(f) && AllProofTyped([f]) && At(buf, p, Content(f))
    ensures ProofStep(buf, 8 * f.number + WireType(f), p, acc) == Got(ProofOf([f], acc), p + |Content(f)|)
  {
    hide Content, ReadUint32, SkipType, ReadBytes, Last, Payload;
    var tag := 8 * f.number + WireType(f);
    assert tag / 8 == f.number && tag % 8 == WireType(f);
    SkipReadBack(buf, p, f);
    assert [f][0] == f;
    if 1 <= f.number <= 7 {
      PayloadReadBack(buf, p, f);
    }
    forall k: nat
      ensures Last([f], k) == if f.number == k then Some(f) else None
    {
      LastOfOne(f, k);
    }
  }

  lemma NothingSaid(proof: RateLimitProof, message: WakuMessage)
    ensures ProofOf([], proof) == proof && MessageOf([], message) == message
  {}

  /** A proof made of typed fields is decoded up to exactly its end, to what its last fields say. */
  lemma {:induction false} ProofStreamDecodes(buf: Bytes, pos: nat, end: nat, fs: seq<Field>, acc: RateLimitProof)
    requires AllWellformed(fs) && AllProofTyped(fs)
    requires At(buf, pos, Serialized(fs)) && end == pos + |Serialized(fs)|
    ensures DecodeProof(buf, pos, end, acc) == Got(ProofOf(fs, acc), end)
    decreases fs
  {
    hide Content, ReadUint32, SkipType, ReadBytes, ProofStep, ProofOf, Wellformed;
    if fs != [] {
      var p := HeadReadBack(buf, pos, fs);
      ProofFieldTaken(buf, p, fs[0], acc);
      ProofStreamDecodes(buf, p + |Content(fs[0])|, end, fs[1..], ProofOf([fs[0]], acc));
      ProofOfCons(fs, acc);
    } else {
      NothingSaid(acc, BLANK_MESSAGE);
    }
  }

  lemma NestedTaken(buf: Bytes, p: nat, f: Field)
    requires Wellformed(f) && f.Nested? && AllProofTyped(f.fields) && At(buf, p, Content(f))
    ensures ReadUint32(buf, p).Got?
    ensures var length, q := ReadUint32(buf, p).value, ReadUint32(buf, p).next;
            DecodeProof(buf, q, q + length, BLANK_PROOF) == Got(ProofOf(f.fields, BLANK_PROOF), p + |Content(f)|)
  {
    hide Content, ReadBytes, ReadUint32, ProofOf, DecodeProof, AllProofTyped, Serialized;
    PayloadReadBack(buf, p, f);
    var q := p + |Content(f)| - |Payload(f)|;
    ProofStreamDecodes(buf, q, q + |Payload(f)|, f.fields, BLANK_PROOF);
  }

  lemma TypedFieldInBuffer(buf: Bytes, p: nat, f: Field)
    requires Wellformed(f) && Typed(f) && At(buf, p, Content(f))
    ensures FieldTyped(buf, 8 * f.number + WireType(f), p)
  {
    hide Content, ReadUint32, DecodeProof, ReadBytes, Serialized, ProofOf, AllProofTyped;
    var tag := 8 * f.number + WireType(f);
    assert tag / 8 == f.number && tag % 8 == WireType(f);
    if f.number == 21 {
      NestedTaken(buf, p, f);
      PayloadReadBack(buf, p, f);
    }
  }

  lemma ScalarReadBack(buf: Bytes, p: nat, f: Field)
    requires WireType(f) == 0 && Wellformed(f) && At(buf, p, Content(f))
    ensures ReadUint32(buf, p) == Got(f.n % U32_LIMIT, p + |Content(f)|)
    ensures ReadSint64(buf, p) == Got(UnZigZag(f.n % U64_LIMIT), p + |Content(f)|)
    ensures ReadBool(buf, p) == Got(f.n % U32_LIMIT != 0, p + |Content(f)|)
  {
    hide Varint, ReadVarint, UnZigZag;
    Varint64Length(f.n);
    VarintReadBack(buf, p, f.n, VARINT_BYTES);
  }

  /** One turn of the full decoder takes in one field. */
  lemma MessageFieldTaken(buf: Bytes, p: nat, f: Field, m: WakuMessage)
    requires Wellformed(f) && Typed(f) && At(buf, p, Content(f))
    ensures WakuStep(buf, 8 * f.number + WireType(f), p, m) == Got(MessageOf([f], m), p + |Content(f)|)
  {
    hide Content, ReadBytes, ReadUint32, SkipType, Last, Payload, DecodeProof, ProofOf, AllProofTyped, ReadSint64,
      ReadBool, UnZigZag;
    var tag := 8 * f.number + WireType(f);
    assert tag / 8 == f.number && tag % 8 == WireType(f);
    SkipReadBack(buf, p, f);
    forall k: nat
      ensures Last([f], k) == if f.number == k then Some(f) else None
    {
      LastOfOne(f, k);
    }
    if WireType(f) == 2 {
      PayloadReadBack(buf, p, f);
    } else if WireType(f) == 0 {
      ScalarReadBack(buf, p, f);
    }
    if f.number == 21 {
      NestedTaken(buf, p, f);
    }
  }

  /** The fields at the front are taken in, and decoding goes on behind them. */
  lemma {:induction false} MessageStreamDecodes(buf: Bytes, pos: nat, fs: seq<Field>, m: WakuMessage)
    requires AllWellformed(fs) && AllTyped(fs) && At(buf, pos, Serialized(fs))
    ensures DecodeWaku(buf, pos, m) == DecodeWaku(buf, pos + |Serialized(fs)|, MessageOf(fs, m))
    decreases fs
  {
    hide Content, ReadUint32, WakuStep, MessageOf, Wellformed, Typed;
    if fs != [] {
      var p := HeadReadBack(buf, pos, fs);
      MessageFieldTaken(buf, p, fs[0], m);
      MessageStreamDecodes(buf, p + |Content(fs[0])|, fs[1..], MessageOf([fs[0]], m));
      MessageOfCons(fs, m);
    } else {
      NothingSaid(BLANK_PROOF, m);
    }
  }

  lemma DecodedAtEnd(buf: Bytes, m: WakuMessage)
    ensures DecodeWaku(buf, |buf|, m) == Got(m, |buf|)
  {}

  /**
   * Of every typed stream of fields the full decoder makes the message whose every part is what the last field of its
   * number carries, and the default where there is none.
   */
  lemma {:induction false} StreamMessage(fs: seq<Field>)
    requires AllWellformed(fs) && AllTyped(fs)
    ensures Outcome(DecodeWaku(Serialized(fs), 0, BLANK_MESSAGE)) == Some(MessageOf(fs, BLANK_MESSAGE))
  {
    hide MessageOf, Wellformed, Typed, AllTyped, Serialized, DecodeWaku;
    var buf := Serialized(fs);
    assert buf[0..0 + |buf|] == buf;
    MessageStreamDecodes(buf, 0, fs, BLANK_MESSAGE);
    DecodedAtEnd(buf, MessageOf(fs, BLANK_MESSAGE));
  }

  lemma BrokenBytes(buf: Bytes, pos: nat, number: nat, length: nat, rest: Bytes, m: WakuMessage)
    requires number < 0x2000_0000 && length < U32_LIMIT && |rest| < length
    requires DeclaredType(number) == None || (DeclaredType(number) == Some(2) && number != 21)
    requires var tail := Varint(8 * number + 2) + (Varint(length) + rest);
             At(buf, pos, tail) && |buf| == pos + |tail|
    ensures DecodeWaku(buf, pos, m).Failed?
  {
    hide Varint, ReadUint32, ReadVarint;
    var tag := 8 * number + 2;
    assert tag / 8 == number && tag % 8 == 2;
    AtSplit(buf, pos, Varint(tag), Varint(length) + rest);
    Uint32ReadBack(buf, pos, tag);
    var p := pos + |Varint(tag)|;
    AtSplit(buf, p, Varint(length), rest);
    BytesNeedAll(buf, p, length);
  }

  lemma NothingToRead(buf: Bytes)
    ensures ReadUint32(buf, |buf|).Failed?
  {}

  lemma BrokenGroup(buf: Bytes, pos: nat, number: nat, inner: seq<Field>, k: nat, wireType: nat, rest: Bytes, cut: bool,
                    m: WakuMessage)
    requires AllWellformed(inner) && wireType in {6, 7} && DeclaredType(number) == None
    requires number < 0x2000_0000 && k < 0x2000_0000 && At(buf, pos, Varint(8 * number + 3))
    requires At(buf, pos + |Varint(8 * number + 3)|, Serialized(inner))
    requires var end := pos + |Varint(8 * number + 3)| + |Serialized(inner)|;
             if cut then end == |buf| else At(buf, end, Varint(8 * k + wireType) + rest)
    ensures DecodeWaku(buf, pos, m).Failed?
  {
    hide Varint, ReadUint32, ReadVarint, AllWellformed, Serialized;
    var tag := 8 * number + 3;
    assert tag / 8 == number && tag % 8 == 3;
    Uint32ReadBack(buf, pos, tag);
    var p := pos + |Varint(tag)|;
    SkipGroupPrefix(buf, p, inner);
    var end := p + |Serialized(inner)|;
    if cut {
      NothingToRead(buf);
    } else {
      AtSplit(buf, end, Varint(8 * k + wireType), rest);
      Uint32ReadBack(buf, end, 8 * k + wireType);
      assert (8 * k + wireType) % 8 == wireType;
    }
  }

  /**
   * A group that breaks off, or in which a wire type occurs that does not exist, is refused: only the tag that ends a
   * group ends it.
   */
  lemma BrokenGroupRefused(
    fs: seq<Field>, number: nat, inner: seq<Field>, k: nat, wireType: nat, rest: Bytes, cut: bool)
    requires AllWellformed(fs) && AllTyped(fs) && AllWellformed(inner)
    requires number < 0x2000_0000 && k < 0x2000_0000 && wireType in {6, 7} && DeclaredType(number) == None
    ensures var tail := if cut then [] else Varint(8 * k + wireType) + rest;
            var buf := Serialized(fs) + (Varint(8 * number + 3) + (Serialized(inner) + tail));
            Outcome(DecodeWaku(buf, 0, BLANK_MESSAGE)) == None
  {
    hide MessageOf, Wellformed, Typed, Serialized, Varint, DecodeWaku, AllTyped, AllWellformed;
    var tail := if cut then [] else Varint(8 * k + wireType) + rest;
    var n := |Serialized(fs)|;
    var group := Varint(8 * number + 3) + (Serialized(inner) + tail);
    var buf := Serialized(fs) + group;
    assert buf[0..n] == Serialized(fs) && buf[n..n + |group|] == group;
    MessageStreamDecodes(buf, 0, fs, BLANK_MESSAGE);
    AtSplit(buf, n, Varint(8 * number + 3), Serialized(inner) + tail);
    AtSplit(buf, n + |Varint(8 * number + 3)|, Serialized(inner), tail);
    BrokenGroup(buf, n, number, inner, k, wireType, rest, cut, MessageOf(fs, BLANK_MESSAGE));
  }

  lemma NoSuchType(buf: Bytes, pos: nat, number: nat, wireType: nat, m: WakuMessage)
    requires number < 0x2000_0000 && wireType in {4, 6, 7} && DeclaredType(number) == None
    requires At(buf, pos, Varint(8 * number + wireType))
    ensures DecodeWaku(buf, pos, m).Failed?
  {
    hide Varint, ReadUint32, ReadVarint;
    var tag := 8 * number + wireType;
    assert tag / 8 == number && tag % 8 == wireType;
    Uint32ReadBack(buf, pos, tag);
  }

  /** A stream that breaks off within a length-delimited field is refused as a whole. */
  lemma BrokenStreamRefused(fs: seq<Field>, number: nat, length: nat, rest: Bytes)
    requires AllWellformed(fs) && AllTyped(fs) && number < 0x2000_0000 && length < U32_LIMIT && |rest| < length
    requires DeclaredType(number) == None || (DeclaredType(number) == Some(2) && number != 21)
    ensures Outcome(DecodeWaku(Serialized(fs) + (Varint(8 * number + 2) + (Varint(length) + rest)), 0, BLANK_MESSAGE))
         == None
  {
    hide MessageOf, Wellformed, Typed, Serialized, Varint, DecodeWaku, AllTyped, ReadUint32;
    var n := |Serialized(fs)|;
    var tail := Varint(8 * number + 2) + (Varint(length) + rest);
    var buf := Serialized(fs) + tail;
    assert buf[0..n] == Serialized(fs) && buf[n..n + |tail|] == tail;
    MessageStreamDecodes(buf, 0, fs, BLANK_MESSAGE);
    BrokenBytes(buf, n, number, length, rest, MessageOf(fs, BLANK_MESSAGE));
  }

  /** A wire type that does not exist, or the end of a group never begun, is refused for numbers not in the message. */
  lemma NoSuchTypeRefused(fs: seq<Field>, number: nat, wireType: nat, rest: Bytes)
    requires AllWellformed(fs) && AllTyped(fs) && number < 0x2000_0000
    requires wireType in {4, 6, 7} && DeclaredType(number) == None
    ensures Outcome(DecodeWaku(Serialized(fs) + (Varint(8 * number + wireType) + rest), 0, BLANK_MESSAGE)) == None
  {
    hide MessageOf, Wellformed, Typed, Serialized, Varint, DecodeWaku, AllTyped;
    var n := |Serialized(fs)|;
    var tag := Varint(8 * number + wireType);
    var buf := Serialized(fs) + (tag + rest);
    assert buf[0..n] == Serialized(fs) && buf[n..n + |tag|] == tag;
    MessageStreamDecodes(buf, 0, fs, BLANK_MESSAGE);
    NoSuchType(buf, n, number, wireType, MessageOf(fs, BLANK_MESSAGE));
  }

  lemma SaysNothing(a: seq<Field>, f: Field, b: seq<Field>, k: nat)
    requires f.number != k
    ensures Last(a + [f] + b, k) == Last(a + b, k)
  {
    hide Last;
    LastConcat(a + [f], b, k);
    LastConcat(a, [f], k);
    LastConcat(a, b, k);
    LastOfOne(f, k);
  }

  /** A field of unknown number, wherever it stands, changes nothing in the decoded message. */
  lemma UnknownIgnored(a: seq<Field>, f: Field, b: seq<Field>)
    requires DeclaredType(f.number).None?
    requires AllWellformed(a + [f] + b) && AllTyped(a + [f] + b) && AllWellformed(a + b) && AllTyped(a + b)
    ensures Outcome(DecodeWaku(Serialized(a + [f] + b), 0, BLANK_MESSAGE))
         == Outcome(DecodeWaku(Serialized(a + b), 0, BLANK_MESSAGE))
  {
    hide Last, DecodeWaku, Serialized, AllWellformed, AllTyped, ProofOf, BytesOf, UnZigZag;
    StreamMessage(a + [f] + b);
    StreamMessage(a + b);
    forall k: nat | DeclaredType(k).Some?
      ensures Last(a + [f] + b, k) == Last(a + b, k)
    {
      SaysNothing(a, f, b, k);
    }
  }

  /** The same inside a proof, for numbers a proof does not have. */
  lemma UnknownInProofIgnored(before: seq<Field>, a: seq<Field>, f: Field, b: seq<Field>, rest: seq<Field>)
    requires !(1 <= f.number <= 7)
    requires var outer := before + [Nested(21, a + [f] + b)] + rest; AllWellformed(outer) && AllTyped(outer)
    requires var outer := before + [Nested(21, a + b)] + rest; AllWellformed(outer) && AllTyped(outer)
    ensures Outcome(DecodeWaku(Serialized(before + [Nested(21, a + [f] + b)] + rest), 0, BLANK_MESSAGE))
         == Outcome(DecodeWaku(Serialized(before + [Nested(21, a + b)] + rest), 0, BLANK_MESSAGE))
  {
    hide Last, DecodeWaku, Serialized, AllWellformed, AllTyped, BytesOf, UnZigZag;
    var x, y := Nested(21, a + [f] + b), Nested(21, a + b);
    StreamMessage(before + [x] + rest);
    StreamMessage(before + [y] + rest);
    forall k: nat | 1 <= k <= 7
      ensures Last(a + [f] + b, k) == Last(a + b, k)
    {
      SaysNothing(a, f, b, k);
    }
    assert ProofOf(x.fields, BLANK_PROOF) == ProofOf(y.fields, BLANK_PROOF);
    hide ProofOf;
    forall k: nat
      ensures Last(before + [x] + rest, k) == Last(before + [y] + rest, k)
        || (k == 21 && Last(before + [x] + rest, k) == Some(x) && Last(before + [y] + rest, k) == Some(y))
    {
      LastConcat(before + [x], rest, k);
      LastConcat(before, [x], k);
      LastConcat(before + [y], rest, k);
      LastConcat(before, [y], k);
      LastOfOne(x, k);
      LastOfOne(y, k);
    }
  }

  lemma NoTopicSaid(before: Bytes)
    ensures BytesOf(Last([], 2), before) == before
  {}

  lemma TopicCons(fs: seq<Field>, before: Bytes)
    requires fs != [] && AllTyped(fs)
    ensures BytesOf(Last(fs, 2), before) == BytesOf(Last(fs[1..], 2), BytesOf(Last([fs[0]], 2), before))
  {
    hide Last, Payload;
    assert fs == [fs[0]] + fs[1..];
    LastConcat([fs[0]], fs[1..], 2);
    LastIsField(fs[1..], 2);
  }

  /** One turn of the reduced decoder takes in one field. */
  lemma TopicFieldTaken(buf: Bytes, p: nat, f: Field, t: TopicOnlyMessage)
    requires Wellformed(f) && Typed(f) && At(buf, p, Content(f))
    ensures TopicStep(buf, 8 * f.number + WireType(f), p, t)
         == Got(TopicOnlyMessage(BytesOf(Last([f], 2), t.contentTopic)), p + |Content(f)|)
  {
    hide Content, ReadBytes, SkipType, Last, Payload, AllProofTyped;
    var tag := 8 * f.number + WireType(f);
    assert tag / 8 == f.number && tag % 8 == WireType(f);
    SkipReadBack(buf, p, f);
    LastOfOne(f, 2);
    if f.number == 2 {
      PayloadReadBack(buf, p, f);
    }
  }

  /** From a typed list of fields on, the buffer is well typed and the reduced decoder ends with the last topic. */
  lemma {:induction false} StreamFrom(buf: Bytes, pos: nat, fs: seq<Field>, t: TopicOnlyMessage)
    requires AllWellformed(fs) && AllTyped(fs)
    requires At(buf, pos, Serialized(fs)) && pos + |Serialized(fs)| == |buf|
    ensures WellTyped(buf, pos)
    ensures Outcome(DecodeTopicOnly(buf, pos, t)) == Some(TopicOnlyMessage(BytesOf(Last(fs, 2), t.contentTopic)))
    decreases fs
  {
    hide Content, ReadUint32, TopicStep, FieldTyped, Last, BytesOf, Wellformed, Typed;
    if fs == [] {
      NoTopicSaid(t.contentTopic);
    } else {
      var p := HeadReadBack(buf, pos, fs);
      var f := fs[0];
      TypedFieldInBuffer(buf, p, f);
      TopicFieldTaken(buf, p, f, t);
      TopicFieldTaken(buf, p, f, TopicOnlyMessage([]));
      StreamFrom(buf, p + |Content(f)|, fs[1..], TopicOnlyMessage(BytesOf(Last([f], 2), t.contentTopic)));
      TopicCons(fs, t.contentTopic);
    }
  }

  /** Both decoders accept every typed stream of fields and take the topic from its last topic field. */
  lemma {:induction false} StreamTopic(fs: seq<Field>)
    requires AllWellformed(fs) && AllTyped(fs)
    ensures Outcome(DecodeTopicOnly(Serialized(fs), 0, TopicOnlyMessage([])))
         == Some(TopicOnlyMessage(BytesOf(Last(fs, 2), [])))
    ensures var full := Outcome(DecodeWaku(Serialized(fs), 0, BLANK_MESSAGE));
            full.Some? && full.value.contentTopic == BytesOf(Last(fs, 2), [])
  {
    hide Last;
    var buf := Serialized(fs);
    assert buf[0..0 + |buf|] == buf;
    StreamFrom(buf, 0, fs, TopicOnlyMessage([]));
    TopicOnlyIsProjection(buf);
  }
}
