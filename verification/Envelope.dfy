/**
 * The envelope of 26/WAKU2-PAYLOAD that is encrypted: flags, payload size, payload, padding to 256 bytes and an
 * optional signature.
 */
module Envelope {
  import opened Bits
  import opened ByteStrings
  import opened Wrappers

  const FLAGS_LENGTH: nat := 1
  const FLAG_MASK: nat := 3
  const IS_SIGNED_MASK: nat := 4
  const PADDING_TARGET: nat := 256
  const SIGNATURE_LENGTH: nat := 65

  /** Hashing and signing, which this model does not look into. */
  datatype Signer = Signer(
    keccak256: Bytes -> Bytes,
    sign: (Bytes, Bytes) -> Bytes,
    recover: (Bytes, Bytes) -> Option<Bytes>)

  ghost predicate SignatureSized(c: Signer) {
    forall hash, key :: |c.sign(hash, key)| == SIGNATURE_LENGTH
  }

  datatype Signature = Signature(signature: Bytes, publicKey: Option<Bytes>)

  datatype Opened = Opened(payload: Bytes, sig: Option<Signature>)

  /** The number of base-256 digits of `n`. */
  function SizeFieldLength(n: nat): (s: nat)
    ensures s >= 1
  {
    if n < 256 then 1 else 1 + SizeFieldLength(n / 256)
  }

  lemma FloorOfQuotient(x: real)
    requires x >= 0.0
    ensures (x / 256.0).Floor == x.Floor / 256
  {}

  /** computeSizeOfPayloadSizeField, whose loop divides as real numbers. */
  method ComputeSizeOfPayloadSizeField(payload: Bytes) returns (s: nat)
    ensures s == SizeFieldLength(|payload|)
  {
    s := 1;
    var i := |payload| as real;
    while i >= 256.0
      invariant i >= 0.0 && s >= 1
      invariant s - 1 + SizeFieldLength(i.Floor) == SizeFieldLength(|payload|)
      decreases i.Floor
    {
      FloorOfQuotient(i);
      s := s + 1;
      i := i / 256.0;
    }
  }

  /** The four little-endian bytes DataView.setUint32 stores. */
  function LittleEndian32(n: nat): (r: Bytes)
    ensures |r| == 4
  {
    [n % 256, n / 0x100 % 256, n / 0x1_0000 % 256, n / 0x100_0000 % 256]
  }

  function LittleEndianValue(s: Bytes): nat {
    if s == [] then 0 else s[0] + 256 * LittleEndianValue(s[1..])
  }

  /** `byte |= mask` on a Uint8Array element. */
  function OrByte(b: u8, mask: nat): u8 { BitOr(b, mask) % 256 }

  function WithFlag(message: Bytes, mask: nat): Bytes
    requires message != []
  {
    [OrByte(message[0], mask)] + message[1..]
  }

  function AddPayloadSizeField(message: Bytes, payload: Bytes): Bytes
    requires message != []
  {
    var fieldSize := SizeFieldLength(|payload|);
    WithFlag(message + Slice(LittleEndian32(|payload|), 0, fieldSize), fieldSize)
  }

  function PaddingSize(payload: Bytes, signed: bool): (n: nat)
    ensures 1 <= n <= PADDING_TARGET
  {
    var rawSize := FLAGS_LENGTH + SizeFieldLength(|payload|) + |payload| + if signed then SIGNATURE_LENGTH else 0;
    PADDING_TARGET - rawSize % PADDING_TARGET
  }

  predicate ValidDataIntegrity(value: Bytes, expectedSize: nat) {
    |value| == expectedSize && (expectedSize <= 3 || exists i | 0 <= i < |value| :: value[i] != 0)
  }

  /** The envelope up to the signature. */
  function Unsigned(payload: Bytes, signed: bool, pad: Bytes): (r: Bytes)
    ensures r != []
  {
    var padded := AddPayloadSizeField([0], payload) + payload + pad;
    if signed then WithFlag(padded, IS_SIGNED_MASK) else padded
  }

  /** preCipher, when the random source answers `pad`. */
  function PreCipher(c: Signer, payload: Bytes, key: Option<Bytes>, pad: Bytes): Result<Bytes, string> {
    if !ValidDataIntegrity(pad, PaddingSize(payload, key.Some?)) then
      Err("failed to generate random padding")
    else
      var body := Unsigned(payload, key.Some?, pad);
      Ok(if key.Some? then body + c.sign(c.keccak256(body), key.value) else body)
  }

  method AddPayloadSize(message: Bytes, payload: Bytes) returns (r: Bytes)
    requires message != []
    ensures r == AddPayloadSizeField(message, payload)
  {
    var fieldSize := ComputeSizeOfPayloadSizeField(payload);
    var field := LittleEndian32(|payload|);
    field := Slice(field, 0, fieldSize);
    r := message + field;
    r := [OrByte(r[0], fieldSize)] + r[1..];
  }

  method PreCipherMessage(c: Signer, payload: Bytes, key: Option<Bytes>, pad: Bytes) returns (r: Result<Bytes, string>)
    ensures r == PreCipher(c, payload, key, pad)
  {
    hide OrByte, LittleEndian32, Slice, SizeFieldLength;
    var envelope: Bytes := [0];
    envelope := AddPayloadSize(envelope, payload);
    envelope := envelope + payload;
    var sizeField := ComputeSizeOfPayloadSizeField(payload);
    var rawSize := FLAGS_LENGTH + sizeField + |payload|;
    if key.Some? {
      rawSize := rawSize + SIGNATURE_LENGTH;
    }
    var remainder := rawSize % PADDING_TARGET;
    var paddingSize := PADDING_TARGET - remainder;
    if !ValidDataIntegrity(pad, paddingSize) {
      return Err("failed to generate random padding");
    }
    envelope := envelope + pad;
    if key.Some? {
      envelope := [OrByte(envelope[0], IS_SIGNED_MASK)] + envelope[1..];
      var hash := c.keccak256(envelope);
      var signature := c.sign(hash, key.value);
      envelope := envelope + signature;
    }
    r := Ok(envelope);
  }

  // ---- Opening ----

  function GetSizeOfPayloadSizeField(message: Bytes): (n: nat)
    requires message != []
  {
    BitAnd(message[0], FLAG_MASK)
  }

  predicate IsMessageSigned(message: Bytes)
    requires message != []
  {
    BitAnd(message[0], IS_SIGNED_MASK) == IS_SIGNED_MASK
  }

  /** The size field padded with zeros and read as a little-endian number; it has at most three bytes. */
  function GetPayloadSize(message: Bytes, fieldSize: nat): nat {
    LittleEndianValue(Slice(message, 1, 1 + fieldSize))
  }

  function GetSignature(message: Bytes): Bytes {
    Slice(message, |message| - SIGNATURE_LENGTH, |message|)
  }

  function HashedPart(message: Bytes, isSigned: bool): Bytes {
    if isSigned then Slice(message, 0, |message| - SIGNATURE_LENGTH) else message
  }

  /** postCipher: None is the `undefined` result, Err the thrown RangeError. */
  function PostCipher(c: Signer, message: Bytes): Result<Option<Opened>, string> {
    if message == [] then Err("Offset is outside the bounds of the DataView")
    else
      var fieldSize := GetSizeOfPayloadSizeField(message);
      if fieldSize == 0 then Ok(None)
      else
        var payloadSize := GetPayloadSize(message, fieldSize);
        var start := 1 + fieldSize;
        var payload := Slice(message, start, start + payloadSize);
        if IsMessageSigned(message) then
          var signature := GetSignature(message);
          var hash := c.keccak256(HashedPart(message, true));
          Ok(Some(Opened(payload, Some(Signature(signature, c.recover(hash, signature))))))
        else
          Ok(Some(Opened(payload, None)))
  }
}
