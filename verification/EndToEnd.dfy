/** From payload to wire and back, for both kinds of encryption. */
module EndToEnd {
  import opened ByteStrings
  import opened Ecies
  import opened Envelope
  import opened EnvelopeRoundTrip
  import opened Wrappers

  /** The receiver cuts a frame where the sender joined it. */
  lemma FrameParts(a: Bytes, iv: Bytes, cipher: Bytes, mac: Bytes)
    requires |a| == 65 && |iv| == 16 && |mac| == 32
    ensures var frame := a + (iv + cipher) + mac;
            && |frame| == META_LENGTH + |cipher|
            && Slice(frame, 0, 65) == a && Slice(frame, 65, 81) == iv
            && Slice(frame, 65, 81 + |cipher|) == iv + cipher
            && Slice(frame, 81 + |cipher|, |frame|) == mac
            && Slice(iv + cipher, 16, |iv + cipher|) == cipher
            && frame[0] == a[0]
  {}

  /** Both ends derive the same secret. */
  lemma SharedSecret(p: Primitives, privateKey: Bytes, ephemPrivateKey: Bytes)
    requires Laws(p) && |privateKey| == 32 && |ephemPrivateKey| == 32
    ensures Derive(p, ephemPrivateKey, p.getPublicKey(privateKey)).Ok?
    ensures Derive(p, ephemPrivateKey, p.getPublicKey(privateKey))
         == Derive(p, privateKey, p.getPublicKey(ephemPrivateKey))
  {}

  /**
   * ecies.decrypt undoes ecies.encrypt for every message but the empty one, which its length check takes for a
   * truncated frame.
   */
  lemma EciesRoundTrips(p: Primitives, privateKey: Bytes, msg: Bytes, ephemPrivateKey: Bytes, iv: Bytes)
    requires Laws(p) && |privateKey| == 32 && |ephemPrivateKey| == 32 && |iv| == 16
    ensures var sent := Encrypt(p, p.getPublicKey(privateKey), msg, ephemPrivateKey, iv);
            && sent.Ok?
            && Decrypt(p, privateKey, sent.value) == if |msg| > 0 then Ok(msg) else Err(TOO_SMALL)
  {
    hide Slice, Derive, KeysFrom;
    SharedSecret(p, privateKey, ephemPrivateKey);
    var keys := KeysFrom(p, Derive(p, ephemPrivateKey, p.getPublicKey(privateKey)).value);
    var cipher := p.ctrEncrypt(iv, keys.encryptionKey, msg);
    FrameParts(p.getPublicKey(ephemPrivateKey), iv, cipher, p.hmac(keys.macKey, iv + cipher));
  }

  /** What both sides make of a shared secret: the hash of counter 1 and the secret without its first byte. */
  function KeyHash(p: Primitives, sharedSecret: Bytes): Bytes
    requires |sharedSecret| == 33
  {
    p.sha256([0, 0, 0, 1] + sharedSecret[1..])
  }

  /** The MAC over initialization vector and cipher text, under the hash of the second half of the key hash. */
  function FrameMac(p: Primitives, keyHash: Bytes, ivCipherText: Bytes): Bytes
    requires |keyHash| == 32
  {
    p.hmac(p.sha256(keyHash[16..]), ivCipherText)
  }

  lemma KeysAreHash(p: Primitives, privateKey: Bytes, publicKey: Bytes)
    requires Laws(p) && |privateKey| == 32 && |publicKey| == 65 && publicKey[0] == 4
    ensures Derive(p, privateKey, publicKey).Ok?
    ensures var h := KeyHash(p, p.getSharedSecret(privateKey, publicKey));
            |h| == 32 && KeysFrom(p, Derive(p, privateKey, publicKey).value) == Keys(h[..16], p.sha256(h[16..]))
  {
    var secret := p.getSharedSecret(privateKey, publicKey);
    var px := secret[1..];
    assert Slice(secret, 1, |secret|) == px;
    assert Derive(p, privateKey, publicKey) == Ok(px);
    var h := p.sha256([0, 0, 0, 1] + px);
    assert CounterBytes(1) == [0, 0, 0, 1];
    assert KdfBlocks(p, px, 2, 0) == [];
    assert KdfBlocks(p, px, 1, 32) == h + [] == h;
  }

  /**
   * What is sent, in the primitives alone: ephemeral public key, initialization vector, message encrypted under the
   * first half of the hash of the shared secret, and the MAC.
   */
  lemma EncryptedFrame(p: Primitives, publicKeyTo: Bytes, msg: Bytes, ephemPrivateKey: Bytes, iv: Bytes)
    requires Laws(p) && |publicKeyTo| == 65 && publicKeyTo[0] == 4 && |ephemPrivateKey| == 32
    ensures var h := KeyHash(p, p.getSharedSecret(ephemPrivateKey, publicKeyTo));
            var ivCipherText := iv + p.ctrEncrypt(iv, h[..16], msg);
            Encrypt(p, publicKeyTo, msg, ephemPrivateKey, iv)
            == Ok(p.getPublicKey(ephemPrivateKey) + ivCipherText + FrameMac(p, h, ivCipherText))
  {
    hide KeysFrom, Derive, KeyHash;
    KeysAreHash(p, ephemPrivateKey, publicKeyTo);
  }

  /**
   * A well-formed frame from anyone is accepted exactly with the MAC under the keys the receiver shares with the
   * ephemeral key, and then deciphered with the first half of their hash.
   */
  lemma WrongMacRefused(p: Primitives, privateKey: Bytes, ephemPublicKey: Bytes, iv: Bytes, cipher: Bytes, mac: Bytes)
    requires Laws(p) && |privateKey| == 32 && |ephemPublicKey| == 65 && ephemPublicKey[0] == 4
    requires |iv| == 16 && |mac| == 32 && cipher != []
    ensures var h := KeyHash(p, p.getSharedSecret(privateKey, ephemPublicKey));
            Decrypt(p, privateKey, ephemPublicKey + (iv + cipher) + mac)
            == if mac == FrameMac(p, h, iv + cipher) then Ok(p.ctrDecrypt(iv, h[..16], cipher))
               else Err(INCORRECT_MAC)
  {
    hide Slice, KeysFrom, Derive, KeyHash;
    KeysAreHash(p, privateKey, ephemPublicKey);
    FrameParts(ephemPublicKey, iv, cipher, mac);
  }

  /** Only uncompressed public keys are encrypted to, with an ephemeral key of 32 bytes. */
  lemma BadKeysRefused(p: Primitives, publicKeyTo: Bytes, msg: Bytes, ephemPrivateKey: Bytes, iv: Bytes)
    ensures Encrypt(p, publicKeyTo, msg, ephemPrivateKey, iv).Err?
       <==> |ephemPrivateKey| != 32 || |publicKeyTo| != 65 || publicKeyTo[0] != 4
  {
    hide KeysFrom, Slice;
  }

  /** Frames that are too short, or whose first byte is not that of an uncompressed key, or a bad key: refused. */
  lemma MalformedRefused(p: Primitives, privateKey: Bytes, encrypted: Bytes)
    ensures |encrypted| <= 113 ==> Decrypt(p, privateKey, encrypted) == Err("Invalid Ciphertext. Data is too small")
    ensures |encrypted| > 113 && encrypted[0] != 4 ==>
              Decrypt(p, privateKey, encrypted) == Err("Not a valid ciphertext")
    ensures |encrypted| > 113 && encrypted[0] == 4 && |privateKey| != 32 ==>
              Decrypt(p, privateKey, encrypted) == Err("Bad private key, it should be 32 bytes")
  {}

  lemma SecretsAgree(p: Primitives, a: Bytes, b: Bytes)
    requires Laws(p)
    ensures p.getSharedSecret(a, p.getPublicKey(b)) == p.getSharedSecret(b, p.getPublicKey(a))
  {}

  lemma HashOfSecret(p: Primitives, privateKey: Bytes, publicKey: Bytes)
    requires Laws(p)
    ensures |p.getSharedSecret(privateKey, publicKey)| == 33
    ensures |KeyHash(p, p.getSharedSecret(privateKey, publicKey))| == 32
  {}

  /**
   * A message sent to one key is refused by the holder of another exactly when the keys the two derive give different
   * MACs; otherwise it is deciphered with the other's key.
   */
  lemma OthersRefuse(p: Primitives, a: Bytes, b: Bytes, msg: Bytes, ephemPrivateKey: Bytes, iv: Bytes)
    requires Laws(p) && |a| == 32 && |b| == 32 && |ephemPrivateKey| == 32 && |iv| == 16 && msg != []
    ensures var ephem := p.getPublicKey(ephemPrivateKey);
            var ha, hb := KeyHash(p, p.getSharedSecret(a, ephem)), KeyHash(p, p.getSharedSecret(b, ephem));
            var ivCipherText := iv + p.ctrEncrypt(iv, ha[..16], msg);
            var sent := Encrypt(p, p.getPublicKey(a), msg, ephemPrivateKey, iv);
            && sent.Ok?
            && (Decrypt(p, b, sent.value) == Err(INCORRECT_MAC)
                <==> FrameMac(p, ha, ivCipherText) != FrameMac(p, hb, ivCipherText))
            && (Decrypt(p, b, sent.value) != Err(INCORRECT_MAC) ==>
                  Decrypt(p, b, sent.value) == Ok(p.ctrDecrypt(iv, hb[..16], p.ctrEncrypt(iv, ha[..16], msg))))
  {
    hide Encrypt, Decrypt, KeyHash;
    var ephem := p.getPublicKey(ephemPrivateKey);
    EncryptedFrame(p, p.getPublicKey(a), msg, ephemPrivateKey, iv);
    SecretsAgree(p, a, ephemPrivateKey);
    var ha := KeyHash(p, p.getSharedSecret(a, ephem));
    HashOfSecret(p, a, ephem);
    HashOfSecret(p, b, ephem);
    var cipher := p.ctrEncrypt(iv, ha[..16], msg);
    assert cipher != [];
    WrongMacRefused(p, b, ephem, iv, cipher, FrameMac(p, ha, iv + cipher));
  }

  /** Whatever precedes the last twelve bytes of a frame is deciphered with those as the initialization vector. */
  lemma SymmetricFrame(p: Primitives, cipher: Bytes, key: Bytes, iv: Bytes)
    requires |iv| == 12
    ensures DecryptSymmetric(p, cipher + iv, key) == p.gcmDecrypt(iv, key, cipher)
  {
    var sent := cipher + iv;
    var ivStart := |sent| - 12;
    assert sent[0..ivStart] == cipher && sent[ivStart..|sent|] == iv;
    assert Slice(sent, ivStart, |sent|) == iv && Slice(sent, 0, ivStart) == cipher;
  }

  /** What is sent has that form, so its receiver gets the data back. */
  lemma SymmetricRoundTrips(p: Primitives, data: Bytes, key: Bytes, iv: Bytes)
    requires Laws(p) && |iv| == IV_SIZE
    ensures EncryptSymmetric(p, data, key, iv) == p.gcmEncrypt(iv, key, data) + iv
    ensures DecryptSymmetric(p, EncryptSymmetric(p, data, key, iv), key) == Some(data)
  {
    hide DecryptSymmetric;
    SymmetricFrame(p, p.gcmEncrypt(iv, key, data), key, iv);
  }

  /** What the recipient of a message ends up with. */
  function ReceiveAsymmetric(p: Primitives, c: Signer, privateKey: Bytes, sent: Bytes): Option<Opened> {
    match Decrypt(p, privateKey, sent)
    case Err(_) => None
    case Ok(envelope) =>
      match PostCipher(c, envelope)
      case Err(_) => None
      case Ok(content) => content
  }

  function ReceiveSymmetric(p: Primitives, c: Signer, key: Bytes, sent: Bytes): Option<Opened> {
    match DecryptSymmetric(p, sent, key)
    case None => None
    case Some(envelope) =>
      match PostCipher(c, envelope)
      case Err(_) => None
      case Ok(content) => content
  }

  lemma EnvelopeNotEmpty(c: Signer, payload: Bytes, key: Option<Bytes>, pad: Bytes)
    requires PreCipher(c, payload, key, pad).Ok?
    ensures |PreCipher(c, payload, key, pad).value| > 0
  {}

  /**
   * preCipher, encrypt, decrypt, postCipher with ECIES gives back the payload exactly when it is shorter than 2^24
   * bytes, and then the signature and its public key as well.
   */
  lemma AsymmetricEndToEnd(
    p: Primitives, c: Signer, payload: Bytes, key: Option<Bytes>, pad: Bytes,
    privateKey: Bytes, ephemPrivateKey: Bytes, iv: Bytes)
    requires Laws(p) && SignatureSized(c)
    requires |privateKey| == 32 && |ephemPrivateKey| == 32 && |iv| == 16
    requires PreCipher(c, payload, key, pad).Ok?
    ensures var envelope := PreCipher(c, payload, key, pad).value;
            var sent := Encrypt(p, p.getPublicKey(privateKey), envelope, ephemPrivateKey, iv);
            && sent.Ok?
            && var received := ReceiveAsymmetric(p, c, privateKey, sent.value);
            && ((received.Some? && received.value.payload == payload) <==> |payload| < PAYLOAD_LIMIT)
            && (|payload| < PAYLOAD_LIMIT ==> received == Some(Sent(c, payload, key, pad)))
  {
    hide PreCipher, PostCipher, Encrypt, Decrypt, Sent;
    if |payload| < PAYLOAD_LIMIT {
      ShortIsRecovered(c, payload, key, pad);
    }
    EnvelopeNotEmpty(c, payload, key, pad);
    EciesRoundTrips(p, privateKey, PreCipher(c, payload, key, pad).value, ephemPrivateKey, iv);
    EnvelopeRoundTrips(c, payload, key, pad);
  }

  /** The same for symmetric encryption. */
  lemma SymmetricEndToEnd(
    p: Primitives, c: Signer, payload: Bytes, sigKey: Option<Bytes>, pad: Bytes, key: Bytes, iv: Bytes)
    requires Laws(p) && SignatureSized(c) && |iv| == IV_SIZE
    requires PreCipher(c, payload, sigKey, pad).Ok?
    ensures var envelope := PreCipher(c, payload, sigKey, pad).value;
            var received := ReceiveSymmetric(p, c, key, EncryptSymmetric(p, envelope, key, iv));
            && ((received.Some? && received.value.payload == payload) <==> |payload| < PAYLOAD_LIMIT)
            && (|payload| < PAYLOAD_LIMIT ==> received == Some(Sent(c, payload, sigKey, pad)))
  {
    hide PreCipher, PostCipher, EncryptSymmetric, DecryptSymmetric, Sent;
    if |payload| < PAYLOAD_LIMIT {
      ShortIsRecovered(c, payload, sigKey, pad);
    }
    SymmetricRoundTrips(p, PreCipher(c, payload, sigKey, pad).value, key, iv);
    EnvelopeRoundTrips(c, payload, sigKey, pad);
  }
}
