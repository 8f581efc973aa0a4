/** ECIES and symmetric framing around abstract primitives. */
module Ecies {
  import opened ByteStrings
  import opened Wrappers

  const META_LENGTH: nat := 1 + 64 + 16 + 32
  const IV_SIZE: nat := 12

  /** The primitives of secp256k1, SHA-256, AES-CTR, HMAC and AES-GCM. */
  datatype Primitives = Primitives(
    sha256: Bytes -> Bytes,
    getPublicKey: Bytes -> Bytes,
    getSharedSecret: (Bytes, Bytes) -> Bytes,
    ctrEncrypt: (Bytes, Bytes, Bytes) -> Bytes,
    ctrDecrypt: (Bytes, Bytes, Bytes) -> Bytes,
    hmac: (Bytes, Bytes) -> Bytes,
    gcmEncrypt: (Bytes, Bytes, Bytes) -> Bytes,
    gcmDecrypt: (Bytes, Bytes, Bytes) -> Option<Bytes>)

  /** What is taken for granted about them: sizes, inverses and a key agreement both sides compute. */
  ghost predicate Laws(p: Primitives) {
    && (forall m :: |p.sha256(m)| == 32)
    && (forall k, m :: |p.hmac(k, m)| == 32)
    && (forall k :: |p.getPublicKey(k)| == 65 && p.getPublicKey(k)[0] == 4)
    && (forall a, b :: |p.getSharedSecret(a, b)| == 33)
    && (forall a, b :: p.getSharedSecret(a, p.getPublicKey(b)) == p.getSharedSecret(b, p.getPublicKey(a)))
    && (forall iv, k, m :: |p.ctrEncrypt(iv, k, m)| == |m| && p.ctrDecrypt(iv, k, p.ctrEncrypt(iv, k, m)) == m)
    && (forall iv, k, m :: p.gcmDecrypt(iv, k, p.gcmEncrypt(iv, k, m)) == Some(m))
  }

  /** The four bytes of the block counter, most significant first. */
  function CounterBytes(ctr: nat): (r: Bytes)
    ensures |r| == 4
  {
    [ctr / 0x100_0000 % 256, ctr / 0x1_0000 % 256, ctr / 0x100 % 256, ctr % 256]
  }

  /** Blocks `ctr`, `ctr + 1`, ... until `wanted` bytes are covered. */
  function KdfBlocks(p: Primitives, secret: Bytes, ctr: nat, wanted: int): Bytes
    decreases wanted
  {
    if wanted <= 0 then [] else p.sha256(CounterBytes(ctr) + secret) + KdfBlocks(p, secret, ctr + 1, wanted - 32)
  }

  lemma KdfOnce(p: Primitives, secret: Bytes, ctr: nat, wanted: int, before: Bytes)
    requires wanted > 0
    ensures before + KdfBlocks(p, secret, ctr, wanted)
         == before + p.sha256(CounterBytes(ctr) + secret) + KdfBlocks(p, secret, ctr + 1, wanted - 32)
  {}

  method Kdf(p: Primitives, secret: Bytes, outputLength: nat) returns (result: Bytes)
    ensures result == KdfBlocks(p, secret, 1, outputLength)
  {
    var ctr: nat, written := 1, 0;
    result := [];
    while written < outputLength
      invariant result + KdfBlocks(p, secret, ctr, outputLength - written) == KdfBlocks(p, secret, 1, outputLength)
    {
      var hashResult := p.sha256(CounterBytes(ctr) + secret);
      KdfOnce(p, secret, ctr, outputLength - written, result);
      result := result + hashResult;
      written := written + 32;
      ctr := ctr + 1;
    }
    assert result + [] == result;
  }

  lemma HashSize(p: Primitives, m: Bytes)
    requires Laws(p)
    ensures |p.sha256(m)| == 32
  {}

  /** The key material is long enough and overshoots by less than one block. */
  lemma {:induction false} KdfLength(p: Primitives, secret: Bytes, ctr: nat, wanted: nat)
    requires Laws(p)
    ensures wanted <= |KdfBlocks(p, secret, ctr, wanted)| < wanted + 32
    decreases wanted
  {
    hide Laws, CounterBytes;
    if wanted > 0 {
      HashSize(p, CounterBytes(ctr) + secret);
      if wanted > 32 {
        KdfLength(p, secret, ctr + 1, wanted - 32);
      }
    }
  }

  lemma FourDigits(n: nat, x: nat, y: nat, z: nat, w: nat, a: nat, b: nat, c: nat, d: nat)
    requires n == 0x100 * x + d && x == 0x100 * y + c && y == 0x100 * z + b && z == 0x100 * w + a
    requires a < 256 && b < 256 && c < 256 && d < 256
    ensures n % U32_LIMIT == 0x100_0000 * a + 0x1_0000 * b + 0x100 * c + d
  {
    assert n == U32_LIMIT * w + (0x100_0000 * a + 0x1_0000 * b + 0x100 * c + d);
  }

  lemma CounterValue(ctr: nat) returns (a: u8, b: u8, c: u8, d: u8)
    ensures CounterBytes(ctr) == [a, b, c, d]
    ensures 0x100_0000 * (a as int) + 0x1_0000 * (b as int) + 0x100 * (c as int) + d as int == ctr % U32_LIMIT
  {
    var x := ctr / 0x100;
    var y := x / 0x100;
    var z := y / 0x100;
    assert y == ctr / 0x1_0000;
    assert z == ctr / 0x100_0000;
    a, b, c, d := z % 0x100, y % 0x100, x % 0x100, ctr % 0x100;
    FourDigits(ctr, x, y, z, z / 0x100, a, b, c, d);
  }

  /** Key material is made of hashes: block `i` hashes the big-endian number `i + 1` followed by the secret. */
  lemma {:induction false} KdfBlockAt(p: Primitives, secret: Bytes, ctr: nat, wanted: nat, i: nat)
    requires Laws(p) && 32 * i < wanted
    ensures |KdfBlocks(p, secret, ctr, wanted)| >= 32 * i + 32
    ensures exists a: u8, b: u8, c: u8, d: u8 ::
              && 0x100_0000 * (a as int) + 0x1_0000 * (b as int) + 0x100 * (c as int) + d as int
                 == (ctr + i) % U32_LIMIT
              && KdfBlocks(p, secret, ctr, wanted)[32 * i..32 * i + 32] == p.sha256([a, b, c, d] + secret)
    decreases i
  {
    hide Laws, CounterBytes, KdfBlocks;
    KdfOnce(p, secret, ctr, wanted, []);
    var block := p.sha256(CounterBytes(ctr) + secret);
    var rest := KdfBlocks(p, secret, ctr + 1, wanted - 32);
    assert [] + KdfBlocks(p, secret, ctr, wanted) == KdfBlocks(p, secret, ctr, wanted) && [] + block == block;
    HashSize(p, CounterBytes(ctr) + secret);
    if i == 0 {
      var a, b, c, d := CounterValue(ctr);
      assert (block + rest)[0..32] == block;
    } else {
      KdfBlockAt(p, secret, ctr + 1, wanted - 32, i - 1);
      assert (block + rest)[32 * i..32 * i + 32] == rest[32 * (i - 1)..32 * (i - 1) + 32];
    }
  }

  const BAD_PRIVATE_KEY := "Bad private key, it should be 32 bytes"
  const BAD_PUBLIC_KEY := "Bad public key, it should be 65 bytes"
  const BAD_PREFIX := "Bad public key, a valid public key would begin with 4"
  const TOO_SMALL := "Invalid Ciphertext. Data is too small"
  const NOT_CIPHERTEXT := "Not a valid ciphertext"
  const INCORRECT_MAC := "Incorrect MAC"

  function Derive(p: Primitives, privateKeyA: Bytes, publicKeyB: Bytes): Result<Bytes, string> {
    if |privateKeyA| != 32 then Err(BAD_PRIVATE_KEY)
    else if |publicKeyB| != 65 then Err(BAD_PUBLIC_KEY)
    else if publicKeyB[0] != 4 then Err(BAD_PREFIX)
    else Ok(Slice(p.getSharedSecret(privateKeyA, publicKeyB), 1, |p.getSharedSecret(privateKeyA, publicKeyB)|))
  }

  /** The keys both sides derive from the shared secret. */
  datatype Keys = Keys(encryptionKey: Bytes, macKey: Bytes)

  function KeysFrom(p: Primitives, px: Bytes): Keys {
    var hash := KdfBlocks(p, px, 1, 32);
    Keys(Slice(hash, 0, 16), p.sha256(Slice(hash, 16, |hash|)))
  }

  /** ecies.encrypt, when the random source answers `ephemPrivateKey` and `iv`. */
  function Encrypt(p: Primitives, publicKeyTo: Bytes, msg: Bytes, ephemPrivateKey: Bytes, iv: Bytes)
    : Result<Bytes, string>
  {
    match Derive(p, ephemPrivateKey, publicKeyTo)
    case Err(e) => Err(e)
    case Ok(sharedPx) =>
      var keys := KeysFrom(p, sharedPx);
      var ivCipherText := iv + p.ctrEncrypt(iv, keys.encryptionKey, msg);
      Ok(p.getPublicKey(ephemPrivateKey) + ivCipherText + p.hmac(keys.macKey, ivCipherText))
  }

  /** ecies.decrypt. */
  function Decrypt(p: Primitives, privateKey: Bytes, encrypted: Bytes): Result<Bytes, string> {
    if |encrypted| <= META_LENGTH then Err(TOO_SMALL)
    else if encrypted[0] != 4 then Err(NOT_CIPHERTEXT)
    else
      var cipherTextLength := |encrypted| - META_LENGTH;
      var ephemPublicKey := Slice(encrypted, 0, 65);
      var iv := Slice(encrypted, 65, 65 + 16);
      var cipherAndIv := Slice(encrypted, 65, 65 + 16 + cipherTextLength);
      var ciphertext := Slice(cipherAndIv, 16, |cipherAndIv|);
      var msgMac := Slice(encrypted, 65 + 16 + cipherTextLength, |encrypted|);
      match Derive(p, privateKey, ephemPublicKey)
      case Err(e) => Err(e)
      case Ok(px) =>
        var keys := KeysFrom(p, px);
        if p.hmac(keys.macKey, cipherAndIv) != msgMac then Err(INCORRECT_MAC)
        else Ok(p.ctrDecrypt(iv, keys.encryptionKey, ciphertext))
  }

  /** encryptSymmetric: `cipher | tag | iv`. */
  function EncryptSymmetric(p: Primitives, data: Bytes, key: Bytes, iv: Bytes): Bytes {
    p.gcmEncrypt(iv, key, data) + iv
  }

  /** decryptSymmetric; None is the rejected promise. */
  function DecryptSymmetric(p: Primitives, payload: Bytes, key: Bytes): Option<Bytes> {
    var ivStart := |payload| - IV_SIZE;
    p.gcmDecrypt(Slice(payload, ivStart, |payload|), key, Slice(payload, 0, ivStart))
  }
}
