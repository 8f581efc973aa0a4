/** Opening an envelope gives back what was put in, exactly for payloads below 2^24 bytes. */
module EnvelopeRoundTrip {
  import opened Bits
  import opened ByteStrings
  import opened Envelope
  import opened Wrappers

  const PAYLOAD_LIMIT := 0x100_0000

  lemma SizeFieldBound(n: nat)
    ensures SizeFieldLength(n) <= 3 <==> n < PAYLOAD_LIMIT
  {
    var a := n / 256;
    var b := a / 256;
    assert SizeFieldLength(n) == if n < 256 then 1 else 1 + SizeFieldLength(a);
    assert SizeFieldLength(a) == if a < 256 then 1 else 1 + SizeFieldLength(b);
    assert SizeFieldLength(b) == if b < 256 then 1 else 1 + SizeFieldLength(b / 256);
  }

  /** The low bits of the flags byte hold the size-field length and bit 2 says whether a signature follows. */
  lemma FlagsByte(fieldSize: nat, signed: bool)
    requires 1 <= fieldSize <= 3
    ensures var flags := if signed then OrByte(OrByte(0, fieldSize), IS_SIGNED_MASK) else OrByte(0, fieldSize);
            && BitAnd(flags, FLAG_MASK) == fieldSize
            && (BitAnd(flags, IS_SIGNED_MASK) == IS_SIGNED_MASK <==> signed)
  {
    hide BitOr, BitAnd;
    OrZero(fieldSize);
    OrMask4(fieldSize);
    AndMask3(fieldSize);
    AndMask3(fieldSize + 4);
    AndMask4(fieldSize);
    AndMask4(fieldSize + 4);
  }

  lemma SizeReadsBack(n: nat)
    requires n < PAYLOAD_LIMIT
    ensures LittleEndianValue(Slice(LittleEndian32(n), 0, SizeFieldLength(n))) == n
  {
    SizeFieldBound(n);
    var s := SizeFieldLength(n);
    var field := LittleEndian32(n)[..s];
    if s == 1 {
      assert n < 256 && field[1..] == [];
    } else if s == 2 {
      assert n / 256 < 256 && field[1..][1..] == [];
      assert LittleEndianValue(field[1..]) == n / 256;
    } else {
      assert n / 256 / 256 < 256 && field[1..][1..][1..] == [];
      assert LittleEndianValue(field[1..][1..]) == n / 0x1_0000;
      assert LittleEndianValue(field[1..]) == n / 0x100 % 256 + 256 * (n / 0x1_0000);
    }
  }

  lemma LittleEndianHead(s: Bytes)
    ensures s == [] ==> LittleEndianValue(s) == 0
    ensures |s| == 1 ==> LittleEndianValue(s) < 256
    ensures s != [] ==> LittleEndianValue(s) <= 255 + 256 * LittleEndianValue(s[1..])
  {}

  lemma {:induction false} LittleEndianBound(s: Bytes)
    requires |s| <= 3
    ensures LittleEndianValue(s) < PAYLOAD_LIMIT
  {
    LittleEndianHead(s);
    if s != [] {
      LittleEndianHead(s[1..]);
      if |s| > 1 {
        LittleEndianHead(s[1..][1..]);
      }
    }
  }

  lemma WithFlagOnHead(b: u8, rest: Bytes, mask: nat)
    ensures WithFlag([b] + rest, mask) == [OrByte(b, mask)] + rest
  {}

  lemma Regroup(a: Bytes, b: Bytes, c: Bytes, d: Bytes)
    ensures a + b + c + d == a + (b + (c + d))
  {}

  /** How an envelope is laid out: one flags byte, the size field, the payload, and the rest. */
  lemma Layout(payload: Bytes, signed: bool, pad: Bytes)
    ensures var s := SizeFieldLength(|payload|);
            var flags := if signed then OrByte(OrByte(0, s), IS_SIGNED_MASK) else OrByte(0, s);
            Unsigned(payload, signed, pad) == [flags] + (Slice(LittleEndian32(|payload|), 0, s) + (payload + pad))
  {
    hide OrByte, LittleEndian32, Slice, SizeFieldLength, WithFlag;
    var s := SizeFieldLength(|payload|);
    var field := Slice(LittleEndian32(|payload|), 0, s);
    WithFlagOnHead(0, field, s);
    var head: Bytes := [OrByte(0, s)];
    Regroup(head, field, payload, pad);
    WithFlagOnHead(OrByte(0, s), field + (payload + pad), IS_SIGNED_MASK);
  }

  /** A payload of 2^24 bytes or more never comes back. */
  lemma TooLongIsLost(c: Signer, message: Bytes, payload: Bytes)
    requires |payload| >= PAYLOAD_LIMIT
    ensures var r := PostCipher(c, message);
            r.Ok? && r.value.Some? ==> r.value.value.payload != payload
  {
    if message != [] {
      var fieldSize := GetSizeOfPayloadSizeField(message);
      AndMask3(message[0]);
      LittleEndianBound(Slice(message, 1, 1 + fieldSize));
    }
  }

  /** What was put into an envelope: the payload and, with a key, the signature over the bytes before it. */
  function Sent(c: Signer, payload: Bytes, key: Option<Bytes>, pad: Bytes): Opened {
    Opened(payload,
           if key.None? then None
           else
             var hash := c.keccak256(Unsigned(payload, key.Some?, pad));
             var signature := c.sign(hash, key.value);
             Some(Signature(signature, c.recover(hash, signature))))
  }

  /** What the header of an envelope says, whatever follows its body. */
  ghost predicate Readable(message: Bytes, payload: Bytes, fieldSize: nat, signed: bool) {
    && message != [] && 1 <= fieldSize <= 3
    && GetSizeOfPayloadSizeField(message) == fieldSize
    && (IsMessageSigned(message) <==> signed)
    && GetPayloadSize(message, fieldSize) == |payload|
    && Slice(message, 1 + fieldSize, 1 + fieldSize + |payload|) == payload
  }

  lemma HeaderReadable(message: Bytes, flags: u8, field: Bytes, payload: Bytes, signed: bool)
    requires message != [] && message[0] == flags && 1 <= |field| <= 3
    requires BitAnd(flags, FLAG_MASK) == |field| && (BitAnd(flags, IS_SIGNED_MASK) == IS_SIGNED_MASK <==> signed)
    requires Slice(message, 1, 1 + |field|) == field && LittleEndianValue(field) == |payload|
    requires Slice(message, 1 + |field|, 1 + |field| + |payload|) == payload
    ensures Readable(message, payload, |field|, signed)
  {
    hide BitAnd, Slice, LittleEndianValue;
  }

  lemma SliceLength(s: Bytes, n: nat)
    requires n <= |s|
    ensures |Slice(s, 0, n)| == n
  {}

  lemma BodyParts(flags: u8, field: Bytes, payload: Bytes, pad: Bytes, tail: Bytes)
    ensures var message := [flags] + (field + (payload + pad)) + tail;
            && message[0] == flags && Slice(message, 1, 1 + |field|) == field
            && Slice(message, 1 + |field|, 1 + |field| + |payload|) == payload
  {}

  lemma BodyReadable(payload: Bytes, signed: bool, pad: Bytes, tail: Bytes)
    requires |payload| < PAYLOAD_LIMIT
    ensures Readable(Unsigned(payload, signed, pad) + tail, payload, SizeFieldLength(|payload|), signed)
  {
    hide Unsigned, OrByte, SizeFieldLength, LittleEndian32, BitAnd, LittleEndianValue, Slice, Readable;
    var s := SizeFieldLength(|payload|);
    SizeFieldBound(|payload|);
    FlagsByte(s, signed);
    var flags := if signed then OrByte(OrByte(0, s), IS_SIGNED_MASK) else OrByte(0, s);
    SizeReadsBack(|payload|);
    var field := Slice(LittleEndian32(|payload|), 0, s);
    SliceLength(LittleEndian32(|payload|), s);
    Layout(payload, signed, pad);
    BodyParts(flags, field, payload, pad, tail);
    HeaderReadable(Unsigned(payload, signed, pad) + tail, flags, field, payload, signed);
  }

  lemma OpensSigned(c: Signer, body: Bytes, signature: Bytes, payload: Bytes, fieldSize: nat)
    requires |signature| == SIGNATURE_LENGTH && Readable(body + signature, payload, fieldSize, true)
    ensures PostCipher(c, body + signature)
         == Ok(Some(Opened(payload, Some(Signature(signature, c.recover(c.keccak256(body), signature))))))
  {
    hide GetSizeOfPayloadSizeField, IsMessageSigned, GetPayloadSize;
    var message := body + signature;
    assert message[0..|body|] == body && message[|body|..|message|] == signature;
  }

  lemma OpensUnsigned(c: Signer, message: Bytes, payload: Bytes, fieldSize: nat)
    requires Readable(message, payload, fieldSize, false)
    ensures PostCipher(c, message) == Ok(Some(Opened(payload, None)))
  {}

  /** Opening an envelope with less than 2^24 bytes gives what was put in. */
  lemma ShortIsRecovered(c: Signer, payload: Bytes, key: Option<Bytes>, pad: Bytes)
    requires SignatureSized(c) && |payload| < PAYLOAD_LIMIT && PreCipher(c, payload, key, pad).Ok?
    ensures PostCipher(c, PreCipher(c, payload, key, pad).value) == Ok(Some(Sent(c, payload, key, pad)))
  {
    hide Unsigned, SizeFieldLength, ValidDataIntegrity, PaddingSize, PostCipher, GetSizeOfPayloadSizeField,
      IsMessageSigned, Slice, LittleEndian32, LittleEndianValue;
    var s := SizeFieldLength(|payload|);
    SizeFieldBound(|payload|);
    var body := Unsigned(payload, key.Some?, pad);
    var tail := if key.Some? then c.sign(c.keccak256(body), key.value) else [];
    assert body + [] == body;
    BodyReadable(payload, key.Some?, pad, tail);
    if key.Some? {
      OpensSigned(c, body, tail, payload, s);
    } else {
      OpensUnsigned(c, body, payload, s);
    }
  }

  /**
   * postCipher undoes preCipher exactly below 2^24 bytes: from there on the size field needs a fourth byte, whose
   * count does not fit the two flag bits.
   */
  lemma EnvelopeRoundTrips(c: Signer, payload: Bytes, key: Option<Bytes>, pad: Bytes)
    requires SignatureSized(c) && PreCipher(c, payload, key, pad).Ok?
    ensures var r := PostCipher(c, PreCipher(c, payload, key, pad).value);
            (r.Ok? && r.value.Some? && r.value.value.payload == payload) <==> |payload| < PAYLOAD_LIMIT
  {
    hide PreCipher, PostCipher;
    if |payload| < PAYLOAD_LIMIT {
      ShortIsRecovered(c, payload, key, pad);
    } else {
      TooLongIsLost(c, PreCipher(c, payload, key, pad).value, payload);
    }
  }

  /** Below the bound a signature is reported exactly when a key was given, over exactly the bytes that were signed. */
  lemma SignatureReported(c: Signer, payload: Bytes, key: Option<Bytes>, pad: Bytes, publicKey: Bytes)
    requires SignatureSized(c) && |payload| < PAYLOAD_LIMIT && PreCipher(c, payload, key, pad).Ok?
    requires key.Some? ==> forall hash :: c.recover(hash, c.sign(hash, key.value)) == Some(publicKey)
    ensures var envelope := PreCipher(c, payload, key, pad).value;
            var r := PostCipher(c, envelope);
            && r.Ok? && r.value.Some?
            && var sig := r.value.value.sig;
            && (sig.Some? <==> key.Some?)
            && (key.Some? ==>
                  && envelope == HashedPart(envelope, true) + sig.value.signature
                  && sig.value.signature == c.sign(c.keccak256(HashedPart(envelope, true)), key.value)
                  && sig.value.publicKey == Some(publicKey))
  {
    hide PostCipher, Unsigned;
    ShortIsRecovered(c, payload, key, pad);
    var body := Unsigned(payload, key.Some?, pad);
    var envelope := PreCipher(c, payload, key, pad).value;
    assert key.Some? ==> envelope[..|body|] == body;
  }

  lemma UnsignedLength(payload: Bytes, signed: bool, pad: Bytes)
    requires SizeFieldLength(|payload|) <= 4
    ensures |Unsigned(payload, signed, pad)| == 1 + SizeFieldLength(|payload|) + |payload| + |pad|
  {}

  lemma BlockArithmetic(n: nat)
    ensures (n + (PADDING_TARGET - n % PADDING_TARGET)) % PADDING_TARGET == 0
  {}

  /** Below 2^32 bytes the envelope fills whole blocks of 256 bytes, with 1 to 256 bytes of padding. */
  lemma WholeBlocks(c: Signer, payload: Bytes, key: Option<Bytes>, pad: Bytes)
    requires SignatureSized(c) && |payload| < U32_LIMIT && PreCipher(c, payload, key, pad).Ok?
    ensures |PreCipher(c, payload, key, pad).value| % PADDING_TARGET == 0
    ensures 1 <= |pad| <= PADDING_TARGET
  {
    hide Unsigned, LittleEndian32, OrByte, Slice;
    var s := SizeFieldLength(|payload|);
    SizeFieldBound(|payload| / 256);
    assert s <= 4;
    UnsignedLength(payload, key.Some?, pad);
    var rawSize := FLAGS_LENGTH + s + |payload| + if key.Some? then SIGNATURE_LENGTH else 0;
    assert |PreCipher(c, payload, key, pad).value| == rawSize + |pad|;
    BlockArithmetic(rawSize);
  }

  // ---- The bytes ----

  function Pow256(k: nat): nat { if k == 0 then 1 else 256 * Pow256(k - 1) }

  /** The size field is as long as the length has digits to base 256. */
  lemma {:induction false} SizeFieldIsDigitCount(n: nat)
    ensures n < Pow256(SizeFieldLength(n))
    ensures SizeFieldLength(n) > 1 ==> Pow256(SizeFieldLength(n) - 1) <= n
  {
    if n >= 256 {
      SizeFieldIsDigitCount(n / 256);
    } else {
      assert Pow256(1) == 256;
    }
  }

  /** One to three bytes, the least significant first. */
  function Little(field: Bytes): nat
    requires 1 <= |field| <= 3
  {
    (field[0] as int) + (if |field| > 1 then 256 * (field[1] as int) else 0)
    + (if |field| > 2 then 65536 * (field[2] as int) else 0)
  }

  lemma LittleIsValue(field: Bytes)
    requires 1 <= |field| <= 3
    ensures LittleEndianValue(field) == Little(field)
  {
    assert LittleEndianValue([]) == 0;
    if |field| == 1 {
      assert field[1..] == [];
    } else if |field| == 2 {
      assert field[1..][1..] == [];
      assert LittleEndianValue(field[1..]) == field[1];
    } else {
      assert field[1..][1..][1..] == [];
      assert LittleEndianValue(field[1..][1..]) == field[2];
      assert LittleEndianValue(field[1..]) == (field[1] as int) + 256 * (field[2] as int);
    }
  }

  lemma FlagsValue(s: nat, signed: bool)
    requires 1 <= s <= 3
    ensures var flags := if signed then OrByte(OrByte(0, s), IS_SIGNED_MASK) else OrByte(0, s);
            flags == if signed then s + 4 else s
  {
    hide BitOr;
    OrZero(s);
    OrMask4(s);
  }

  lemma BodyBytes(payload: Bytes, signed: bool, pad: Bytes) returns (flags: u8, field: Bytes)
    requires |payload| < 0x100_0000
    ensures |field| == SizeFieldLength(|payload|) <= 3 && Little(field) == |payload|
    ensures flags == if signed then |field| + 4 else |field|
    ensures Unsigned(payload, signed, pad) == [flags] + field + payload + pad
  {
    hide Unsigned, SizeFieldLength, LittleEndian32, LittleEndianValue, OrByte, Slice, Little;
    var s := SizeFieldLength(|payload|);
    SizeFieldBound(|payload|);
    FlagsValue(s, signed);
    field := Slice(LittleEndian32(|payload|), 0, s);
    SliceLength(LittleEndian32(|payload|), s);
    SizeReadsBack(|payload|);
    LittleIsValue(field);
    Layout(payload, signed, pad);
    flags := if signed then s + 4 else s;
    var head: Bytes := [flags];
    Regroup(head, field, payload, pad);
  }

  /**
   * The envelope byte by byte: flags, little-endian length, payload, padding, and with a key the signature of the hash
   * of everything before it.
   */
  lemma EnvelopeBytes(c: Signer, payload: Bytes, key: Option<Bytes>, pad: Bytes) returns (flags: u8, field: Bytes)
    requires |payload| < 0x100_0000 && PreCipher(c, payload, key, pad).Ok?
    ensures 1 <= |field| <= 3 && Little(field) == |payload| && |field| == SizeFieldLength(|payload|)
    ensures flags == if key.Some? then |field| + 4 else |field|
    ensures var body := [flags] + field + payload + pad;
            PreCipher(c, payload, key, pad)
            == Ok(if key.Some? then body + c.sign(c.keccak256(body), key.value) else body)
  {
    hide Unsigned, SizeFieldLength, Little, ValidDataIntegrity, PaddingSize;
    flags, field := BodyBytes(payload, key.Some?, pad);
  }

  /** The last block of 256 bytes is filled, with at least one byte. */
  predicate FillsBlock(raw: nat, padding: nat) {
    (raw + padding) % 256 == 0 && 1 <= padding <= 256
  }

  lemma FillsExactly(raw: nat, padding: nat)
    ensures FillsBlock(raw, padding) <==> padding == 256 - raw % 256
  {
    var q, r := raw / 256, raw % 256;
    assert raw == 256 * q + r;
    if padding == 256 - r {
      assert raw + padding == 256 * (q + 1);
    } else if 1 <= padding <= 256 {
      assert raw + padding == 256 * q + (r + padding);
    }
  }

  lemma PaddingIs(payload: Bytes, signed: bool)
    ensures var rawSize := 1 + SizeFieldLength(|payload|) + |payload| + if signed then 65 else 0;
            PaddingSize(payload, signed) == 256 - rawSize % 256
  {
    hide SizeFieldLength;
  }

  lemma PaddingValid(pad: Bytes, needed: nat)
    ensures ValidDataIntegrity(pad, needed)
       <==> |pad| == needed && (|pad| <= 3 || exists i | 0 <= i < |pad| :: pad[i] != 0)
  {}

  lemma OkExactly(c: Signer, payload: Bytes, key: Option<Bytes>, pad: Bytes)
    ensures PreCipher(c, payload, key, pad).Ok? <==> ValidDataIntegrity(pad, PaddingSize(payload, key.Some?))
  {
    hide PaddingSize, Unsigned, ValidDataIntegrity;
  }

  /** The padding is refused exactly when it does not fill the last block, or has more than three bytes, all zero. */
  lemma PaddingExactly(c: Signer, payload: Bytes, key: Option<Bytes>, pad: Bytes)
    ensures PreCipher(c, payload, key, pad).Ok?
       <==> && FillsBlock(1 + SizeFieldLength(|payload|) + |payload| + (if key.Some? then 65 else 0), |pad|)
            && (|pad| <= 3 || exists i | 0 <= i < |pad| :: pad[i] != 0)
  {
    hide SizeFieldLength, PaddingSize, PreCipher, FillsBlock, ValidDataIntegrity;
    OkExactly(c, payload, key, pad);
    PaddingIs(payload, key.Some?);
    PaddingValid(pad, PaddingSize(payload, key.Some?));
    FillsExactly(1 + SizeFieldLength(|payload|) + |payload| + (if key.Some? then 65 else 0), |pad|);
  }

  lemma MessageParts(flags: u8, field: Bytes, rest: Bytes, size: nat)
    ensures var message := [flags] + field + rest;
            && message[0] == flags && Slice(message, 1, 1 + |field|) == field
            && Slice(message, 1 + |field|, 1 + |field| + size) == (if size < |rest| then rest[..size] else rest)
  {
    var message := [flags] + field + rest;
    assert message[1..1 + |field|] == field && message[1 + |field|..] == rest;
  }

  lemma SignatureParts(message: Bytes)
    requires |message| >= 65
    ensures var n := |message| - 65;
            GetSignature(message) == message[n..] && HashedPart(message, true) == message[..n]
  {}

  /** What opening makes of any message with a length field: the payload may come out short at the end. */
  lemma OpenedBytes(c: Signer, flags: u8, field: Bytes, rest: Bytes)
    requires 1 <= |field| == flags % 4
    ensures var message := [flags] + field + rest;
            var payload := if Little(field) < |rest| then rest[..Little(field)] else rest;
            && (flags / 4 % 2 == 0 ==> PostCipher(c, message) == Ok(Some(Opened(payload, None))))
            && (flags / 4 % 2 == 1 && |message| >= 65 ==>
                  var body, signature := message[..|message| - 65], message[|message| - 65..];
                  PostCipher(c, message)
                  == Ok(Some(Opened(payload, Some(Signature(signature, c.recover(c.keccak256(body), signature)))))))
  {
    hide BitAnd, LittleEndianValue, Slice, Little, GetSignature, HashedPart;
    AndMask3(flags);
    AndMask4(flags);
    LittleIsValue(field);
    MessageParts(flags, field, rest, Little(field));
    var message := [flags] + field + rest;
    if |message| >= 65 {
      SignatureParts(message);
    }
  }

  /** Without a length field there is nothing to open, and nothing at all is an error. */
  lemma NothingOpened(c: Signer, message: Bytes)
    ensures PostCipher(c, message).Err? <==> message == []
    ensures PostCipher(c, message) == Ok(None) <==> message != [] && message[0] % 4 == 0
  {
    if message != [] {
      AndMask3(message[0]);
    }
  }
}
