/**
 * Relay routes on the topic the reduced decoder reads, while observers get what the full decoder reads. The two
 * agree on every buffer whose fields have their declared wire types.
 */
module WakuProjection {
  import opened ByteStrings
  import opened Wire
  import opened WakuCodec
  import opened Wrappers

  /** The wire type the WakuMessage schema declares for a field number. */
  function DeclaredType(field: nat): Option<nat> {
    match field
    case 1 => Some(2)
    case 2 => Some(2)
    case 3 => Some(0)
    case 10 => Some(0)
    case 11 => Some(2)
    case 21 => Some(2)
    case 31 => Some(0)
    case _ => None
  }

  /** A nested proof that fits the buffer decodes, and stops exactly where its length prefix says. */
  predicate NestedExact(buf: Bytes, pos: nat) {
    match ReadUint32(buf, pos)
    case Failed => true
    case Got(length, p) =>
      p + length <= |buf| ==>
        var r := DecodeProof(buf, p, p + length, BLANK_PROOF);
        r.Got? && r.next == p + length
  }

  /** The wire type is the declared one; for the topic, which both decoders read alike, any will do. */
  predicate TagTyped(tag: nat) {
    match DeclaredType(tag / 8)
    case None => true
    case Some(wireType) => tag / 8 == 2 || tag % 8 == wireType
  }

  predicate FieldTyped(buf: Bytes, tag: nat, pos: nat) {
    TagTyped(tag) && (tag / 8 == 21 ==> NestedExact(buf, pos))
  }

  /** Every field from `pos` on, up to the first one the reduced decoder rejects if any, is typed. */
  predicate WellTyped(buf: Bytes, pos: nat)
    requires pos <= |buf|
    decreases |buf| - pos
  {
    pos == |buf| ||
    match ReadUint32(buf, pos)
    case Failed => true
    case Got(tag, p) =>
      && FieldTyped(buf, tag, p)
      && match TopicStep(buf, tag, p, TopicOnlyMessage([]))
         case Failed => true
         case Got(_, q) => WellTyped(buf, q)
  }

  /** A nested decode cannot reach an end that lies beyond the buffer. */
  lemma {:induction false} DecodeProofNeedsEnd(buf: Bytes, pos: nat, end: nat, acc: RateLimitProof)
    requires pos <= |buf| < end
    ensures DecodeProof(buf, pos, end, acc).Failed?
    decreases |buf| - pos
  {
    match ReadUint32(buf, pos)
    case Failed =>
    case Got(tag, p) =>
      match ProofStep(buf, tag, p, acc)
      case Failed =>
      case Got(next, q) => DecodeProofNeedsEnd(buf, q, end, next);
  }

  /** On a typed field both decoders move equally far and agree on the topic, or both fail; others are skipped. */
  lemma TypedFieldAdvances(buf: Bytes, tag: u32, pos: nat, m: WakuMessage, t: TopicOnlyMessage)
    requires pos <= |buf| && FieldTyped(buf, tag, pos) && m.contentTopic == t.contentTopic
    ensures var w, s := WakuStep(buf, tag, pos, m), TopicStep(buf, tag, pos, t);
            && (w.Got? <==> s.Got?)
            && (s.Got? ==> w.next == s.next && w.value.contentTopic == s.value.contentTopic)
    ensures tag / 8 != 2 ==>
              var s, skipped := TopicStep(buf, tag, pos, t), SkipType(buf, pos, tag % 8);
              (s.Got? <==> skipped.Got?) && (s.Got? ==> s.next == skipped.next)
  {
    hide DecodeProof, ReadVarint, SkipGroup;
    if tag / 8 == 21 {
      match ReadUint32(buf, pos)
      case Failed =>
      case Got(length, p) =>
        if p + length > |buf| {
          DecodeProofNeedsEnd(buf, p, p + length, BLANK_PROOF);
        }
    }
  }

  /** How far the reduced decoder moves does not depend on what it has read. */
  lemma TopicStepNext(buf: Bytes, tag: nat, pos: nat, t: TopicOnlyMessage)
    requires pos <= |buf|
    ensures var s, blank := TopicStep(buf, tag, pos, t), TopicStep(buf, tag, pos, TopicOnlyMessage([]));
            (s.Got? <==> blank.Got?) && (s.Got? ==> s.next == blank.next)
  {}

  lemma {:induction false} DecodersAgreeFrom(buf: Bytes, pos: nat, m: WakuMessage, t: TopicOnlyMessage)
    requires pos <= |buf| && WellTyped(buf, pos) && m.contentTopic == t.contentTopic
    ensures DecodeWaku(buf, pos, m).Got? <==> DecodeTopicOnly(buf, pos, t).Got?
    ensures DecodeWaku(buf, pos, m).Got? ==>
              DecodeWaku(buf, pos, m).value.contentTopic == DecodeTopicOnly(buf, pos, t).value.contentTopic
    decreases |buf| - pos
  {
    hide FieldTyped, ReadUint32, SkipType, WakuStep, TopicStep;
    if pos < |buf| {
      match ReadUint32(buf, pos)
      case Failed =>
      case Got(tag, p) =>
        TypedFieldAdvances(buf, tag, p, m, t);
        TopicStepNext(buf, tag, p, t);
        match TopicStep(buf, tag, p, t)
        case Failed =>
        case Got(next, q) => DecodersAgreeFrom(buf, q, WakuStep(buf, tag, p, m).value, next);
    }
  }

  /** On every well-typed buffer the reduced decoder succeeds exactly when the full one does, with the same topic. */
  lemma TopicOnlyIsProjection(buf: Bytes)
    requires WellTyped(buf, 0)
    ensures var full := Outcome(DecodeWaku(buf, 0, BLANK_MESSAGE));
            var reduced := Outcome(DecodeTopicOnly(buf, 0, TopicOnlyMessage([])));
            reduced == if full.Some? then Some(TopicOnlyMessage(full.value.contentTopic)) else None
  {
    DecodersAgreeFrom(buf, 0, BLANK_MESSAGE, TopicOnlyMessage([]));
  }

  /**
   * Without the wire types the two can disagree: field 3 sent length-delimited is one number to the full decoder,
   * which then reads the record's content as further fields, and one skipped record to the reduced decoder.
   */
  lemma MistypedFieldSplitsDecoders()
    ensures var buf := [26, 3, 18, 1, 65];
            && !WellTyped(buf, 0)
            && Outcome(DecodeWaku(buf, 0, BLANK_MESSAGE))
               == Some(BLANK_MESSAGE.(version := Some(3), contentTopic := [65]))
            && Outcome(DecodeTopicOnly(buf, 0, TopicOnlyMessage([]))) == Some(TopicOnlyMessage([]))
  {
    var buf: Bytes := [26, 3, 18, 1, 65];
    assert ReadVarint(buf, 0, 10) == Got(26, 1) && ReadVarint(buf, 1, 10) == Got(3, 2);
    assert ReadVarint(buf, 2, 10) == Got(18, 3) && ReadVarint(buf, 3, 10) == Got(1, 4);
    assert buf[2..5] == [18, 1, 65] && buf[4..5] == [65];
    assert ReadBytes(buf, 1) == Got([18, 1, 65], 5) && ReadBytes(buf, 3) == Got([65], 5);
    var m := BLANK_MESSAGE.(version := Some(3));
    assert DecodeWaku(buf, 2, m) == DecodeWaku(buf, 5, m.(contentTopic := [65]));
    assert DecodeWaku(buf, 0, BLANK_MESSAGE) == DecodeWaku(buf, 2, m);
    assert DecodeTopicOnly(buf, 0, TopicOnlyMessage([])) == DecodeTopicOnly(buf, 5, TopicOnlyMessage([]));
  }

  // ---- Which types are needed ----

  /** On this field both decoders move equally far, or both fail. */
  predicate MoveAlike(buf: Bytes, tag: u32, pos: nat)
    requires pos <= |buf|
  {
    var w, s := WakuStep(buf, tag, pos, BLANK_MESSAGE), TopicStep(buf, tag, pos, TopicOnlyMessage([]));
    (w.Got? <==> s.Got?) && (w.Got? ==> w.next == s.next)
  }

  /** A nested proof with its declared type is passed alike exactly when its prefix delimits it. */
  lemma NestedAlikeExactly(buf: Bytes, tag: u32, pos: nat)
    requires pos <= |buf| && tag / 8 == 21 && tag % 8 == 2
    ensures MoveAlike(buf, tag, pos) <==> NestedExact(buf, pos)
  {
    hide DecodeProof, ReadVarint;
    match ReadUint32(buf, pos)
    case Failed =>
    case Got(length, p) =>
      if p + length > |buf| {
        DecodeProofNeedsEnd(buf, p, p + length, BLANK_PROOF);
      }
  }

  /** A content on which both decoders part, for a field of a wire type other than declared. */
  function Splitting(tag: nat): Bytes {
    if tag % 8 == 0 || tag % 8 == 2 then [2, 64, 0] else [0]
  }

  lemma ShortReads()
    ensures ReadVarint([2, 64, 0], 0, VARINT_BYTES) == Got(2, 1)
    ensures ReadUint32([2, 64, 0], 0) == Got(2, 1) && ReadBytes([2, 64, 0], 0) == Got([64, 0], 3)
    ensures ReadUint32([0], 0) == Got(0, 1) && ReadBytes([0], 0) == Got([], 1)
    ensures SkipGroup([0], 0).Failed?
    ensures DecodeProof([2, 64, 0], 1, 3, BLANK_PROOF) == Got(BLANK_PROOF, 3)
    ensures DecodeProof([0], 1, 1, BLANK_PROOF) == Got(BLANK_PROOF, 1)
  {
    var buf: Bytes := [2, 64, 0];
    assert ReadVarint(buf, 1, VARINT_BYTES) == Got(64, 2) && ReadVarint(buf, 2, VARINT_BYTES) == Got(0, 3);
    assert buf[1..3] == [64, 0];
    assert ProofStep(buf, 64, 2, BLANK_PROOF) == Got(BLANK_PROOF, 3);
    assert DecodeProof(buf, 3, 3, BLANK_PROOF) == Got(BLANK_PROOF, 3);
    var zero: Bytes := [0];
    assert zero[1..1] == [];
    assert ReadVarint(zero, 0, VARINT_BYTES) == Got(0, 1) && ReadVarint(zero, 1, VARINT_BYTES).Failed?;
  }

  lemma MistypedSplits(tag: u32)
    requires !TagTyped(tag)
    ensures !MoveAlike(Splitting(tag), tag, 0) && NestedExact(Splitting(tag), 0)
  {
    hide ReadVarint, DecodeProof, SkipGroup;
    ShortReads();
  }

  lemma TypedMoveAlike(buf: Bytes, tag: u32, pos: nat)
    requires pos <= |buf| && FieldTyped(buf, tag, pos)
    ensures MoveAlike(buf, tag, pos)
  {
    TypedFieldAdvances(buf, tag, pos, BLANK_MESSAGE, TopicOnlyMessage([]));
  }

  /**
   * Both decoders pass a field equally far, whatever its content, if and only if its wire type is the declared one, it
   * is the topic, or its number is unknown; for a nested proof, whatever content its prefix delimits.
   */
  lemma TypesNeeded(tag: u32)
    ensures TagTyped(tag)
       <==> forall buf: Bytes, pos: nat | pos <= |buf| && (tag / 8 == 21 ==> NestedExact(buf, pos)) ::
              MoveAlike(buf, tag, pos)
  {
    hide MoveAlike, NestedExact;
    if TagTyped(tag) {
      forall buf: Bytes, pos: nat | pos <= |buf| && (tag / 8 == 21 ==> NestedExact(buf, pos))
        ensures MoveAlike(buf, tag, pos)
      {
        TypedMoveAlike(buf, tag, pos);
      }
    } else {
      MistypedSplits(tag);
    }
  }
}
