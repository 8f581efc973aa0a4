/** An encoded message is a typed stream of fields, so relay routes every encoded message on its own topic. */
module EncodedFields {
  import opened ByteStrings
  import opened Wire
  import opened WakuCodec
  import opened WakuRoundTrip
  import opened FieldStreams
  import opened Wrappers

  /** The field written for number `k`, or none for the default. */
  function NonEmpty(k: nat, v: Bytes): seq<Field> { if v == [] then [] else [Delimited(k, v)] }

  function ProofFieldsFrom(p: RateLimitProof, k: nat): seq<Field>
    requires 1 <= k <= 8
    decreases 8 - k
  {
    if k == 8 then [] else NonEmpty(k, ProofField(p, k)) + ProofFieldsFrom(p, k + 1)
  }

  /** The fields of the `i`-th part of an encoded message: one or none. */
  function PartFields(m: WakuMessage, i: nat): seq<Field>
    requires i < 7
  {
    match i
    case 0 => NonEmpty(1, m.payload)
    case 1 => NonEmpty(2, m.contentTopic)
    case 2 => if m.version.None? then [] else [Scalar(3, m.version.value)]
    case 3 => if m.timestamp.None? then [] else [Scalar(10, ZigZag(m.timestamp.value))]
    case 4 => if m.meta.None? then [] else [Delimited(11, m.meta.value)]
    case 5 => if m.rateLimitProof.None? then [] else [Nested(21, ProofFieldsFrom(m.rateLimitProof.value, 1))]
    case _ => if m.ephemeral.None? then [] else [Scalar(31, if m.ephemeral.value then 1 else 0)]
  }

  function FieldsFrom(m: WakuMessage, i: nat): seq<Field>
    requires i <= 7
    decreases 7 - i
  {
    if i == 7 then [] else PartFields(m, i) + FieldsFrom(m, i + 1)
  }

  lemma {:induction false} SerializedOne(f: Field, rest: seq<Field>)
    ensures Serialized([f] + rest) == Varint(8 * f.number + WireType(f)) + Content(f) + Serialized(rest)
  {}

  /** At most one field in front of a stream is serialized in front of it. */
  lemma SerializedFront(fs: seq<Field>, rest: seq<Field>)
    requires |fs| <= 1
    ensures Serialized(fs + rest) == Serialized(fs) + Serialized(rest)
  {
    hide Content, Varint;
    if fs == [] {
      assert fs + rest == rest;
      assert [] + Serialized(rest) == Serialized(rest);
    } else {
      assert fs == [fs[0]] + [];
      SerializedOne(fs[0], []);
      SerializedOne(fs[0], rest);
      assert Serialized([]) == [];
    }
  }

  lemma SingleField(f: Field)
    ensures Serialized([f]) == Varint(8 * f.number + WireType(f)) + Content(f)
  {}

  lemma NonEmptySerialized(k: nat, v: Bytes)
    ensures Serialized(NonEmpty(k, v)) == NonEmptyField(8 * k + 2, v)
  {}

  lemma AtMostOne(k: nat, v: Bytes)
    ensures |NonEmpty(k, v)| <= 1
  {}

  lemma {:induction false} ProofSerialized(p: RateLimitProof, k: nat)
    requires k <= 7
    ensures Serialized(ProofFieldsFrom(p, k + 1)) == Join(ProofParts(p)[k..])
    decreases 7 - k
  {
    hide Serialized, NonEmptyField, NonEmpty, ProofField;
    if k == 7 {
      NothingSerialized();
      assert ProofParts(p)[7..] == [];
    } else {
      var parts := ProofParts(p);
      assert parts[k..][0] == parts[k] && parts[k..][1..] == parts[k + 1..];
      AtMostOne(k + 1, ProofField(p, k + 1));
      SerializedFront(NonEmpty(k + 1, ProofField(p, k + 1)), ProofFieldsFrom(p, k + 2));
      NonEmptySerialized(k + 1, ProofField(p, k + 1));
      ProofSerialized(p, k + 1);
    }
  }

  lemma NestedContent(p: RateLimitProof)
    ensures Content(Nested(21, ProofFieldsFrom(p, 1))) == Varint(|ProofBytes(p)|) + ProofBytes(p)
  {
    hide Serialized, ProofFieldsFrom, Join, ProofParts;
    ProofSerialized(p, 0);
    assert ProofParts(p)[0..] == ProofParts(p);
  }

  lemma PartSerialized(m: WakuMessage, i: nat)
    requires i < 7
    ensures Serialized(PartFields(m, i)) == WakuPart(m, i) && |PartFields(m, i)| <= 1
  {
    hide Serialized, NonEmptyField, Varint, ProofFieldsFrom, ProofBytes;
    NothingSerialized();
    if |PartFields(m, i)| == 1 {
      SingleField(PartFields(m, i)[0]);
    }
    match i
    case 0 => NonEmptySerialized(1, m.payload);
    case 1 => NonEmptySerialized(2, m.contentTopic);
    case 5 =>
      if m.rateLimitProof.Some? {
        NestedContent(m.rateLimitProof.value);
      }
    case _ =>
  }

  lemma {:induction false} MessageSerialized(m: WakuMessage, i: nat)
    requires i <= 7
    ensures Serialized(FieldsFrom(m, i)) == Join(WakuParts(m)[i..])
    decreases 7 - i
  {
    hide Serialized, PartFields, WakuPart;
    if i == 7 {
      NothingSerialized();
      assert WakuParts(m)[7..] == [];
    } else {
      var parts := WakuParts(m);
      assert parts[i..][0] == parts[i] && parts[i..][1..] == parts[i + 1..];
      PartSerialized(m, i);
      SerializedFront(PartFields(m, i), FieldsFrom(m, i + 1));
      MessageSerialized(m, i + 1);
    }
  }

  lemma {:induction false} ProofFieldsFit(p: RateLimitProof, k: nat)
    requires 1 <= k <= 8 && ProofSized(p)
    ensures AllWellformed(ProofFieldsFrom(p, k)) && AllProofTyped(ProofFieldsFrom(p, k))
    decreases 8 - k
  {
    hide ProofField, Serialized, Content;
    if k < 8 {
      ProofFieldsFit(p, k + 1);
      var rest := ProofFieldsFrom(p, k + 1);
      if ProofField(p, k) != [] {
        var f := Delimited(k, ProofField(p, k));
        assert ProofFieldsFrom(p, k) == [f] + rest && ([f] + rest)[1..] == rest;
      } else {
        assert ProofFieldsFrom(p, k) == rest;
      }
    }
  }

  lemma ProofBytesSize(p: RateLimitProof)
    requires ProofSized(p)
    ensures |Join(ProofParts(p))| < U32_LIMIT
  {}

  lemma PartFits(m: WakuMessage, i: nat)
    requires i < 7 && Sized(m)
    ensures forall f | f in PartFields(m, i) :: Wellformed(f) && Typed(f)
  {
    hide Serialized, Content, ProofFieldsFrom, ProofBytes, AllProofTyped;
    if i == 5 && m.rateLimitProof.Some? {
      var p := m.rateLimitProof.value;
      ProofFieldsFit(p, 1);
      ProofSerialized(p, 0);
      assert ProofParts(p)[0..] == ProofParts(p);
      ProofBytesSize(p);
    }
  }

  lemma {:induction false} MessageFits(m: WakuMessage, i: nat)
    requires i <= 7 && Sized(m)
    ensures AllWellformed(FieldsFrom(m, i)) && AllTyped(FieldsFrom(m, i))
    decreases 7 - i
  {
    hide PartFields, Wellformed, Typed, Sized;
    if i < 7 {
      MessageFits(m, i + 1);
      PartFits(m, i);
      PartSerialized(m, i);
      var part, rest := PartFields(m, i), FieldsFrom(m, i + 1);
      if part == [] {
        assert part + rest == rest;
      } else {
        assert part[0] in part && (part + rest)[1..] == rest;
      }
    }
  }

  /** The reduced decoder reads the topic of every encoded message. */
  lemma {:induction false} EncodedMessageRouted(m: WakuMessage)
    requires Sized(m)
    ensures Outcome(DecodeTopicOnly(WakuBytes(m), 0, TopicOnlyMessage([]))) == Some(TopicOnlyMessage(m.contentTopic))
  {
    hide DecodeWaku, DecodeTopicOnly, Serialized, FieldsFrom, WakuParts, Join, AllWellformed, AllTyped, Sized;
    MessageSerialized(m, 0);
    assert WakuParts(m)[0..] == WakuParts(m);
    MessageFits(m, 0);
    StreamTopic(FieldsFrom(m, 0));
    WakuRoundTrips(m);
  }

  lemma {:induction false} EmptyParts(parts: seq<Bytes>)
    requires forall i | 0 <= i < |parts| :: parts[i] == []
    ensures Join(parts) == []
  {
    if parts != [] {
      EmptyParts(parts[1..]);
    }
  }

  lemma OnlyTopicWritten(topic: Bytes)
    ensures WakuBytes(BLANK_MESSAGE.(contentTopic := topic)) == NonEmptyField(18, topic)
  {
    hide DelimitedField, Varint;
    var parts := WakuParts(BLANK_MESSAGE.(contentTopic := topic));
    var field := NonEmptyField(18, topic);
    WakuPartsListed(BLANK_MESSAGE.(contentTopic := topic));
    assert parts == [[], field, [], [], [], [], []];
    assert parts[1..] == [field, [], [], [], [], []] && parts[2..] == [[], [], [], [], []];
    EmptyParts(parts[2..]);
    assert Join(parts[1..]) == field + [] by {
      assert parts[1..][1..] == parts[2..];
    }
    assert Join(parts) == [] + Join(parts[1..]);
  }

  /** A topic-only message is written as a full message with nothing but the topic, and read back. */
  lemma TopicOnlyRoundTrips(topic: Bytes)
    requires |topic| < U32_LIMIT
    ensures NonEmptyField(18, topic) == WakuBytes(BLANK_MESSAGE.(contentTopic := topic))
    ensures Outcome(DecodeTopicOnly(NonEmptyField(18, topic), 0, TopicOnlyMessage([]))) == Some(TopicOnlyMessage(topic))
  {
    hide DecodeTopicOnly, NonEmptyField, Join, WakuParts;
    var m := BLANK_MESSAGE.(contentTopic := topic);
    EncodedMessageRouted(m);
    OnlyTopicWritten(topic);
  }
}
