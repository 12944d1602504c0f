/** utils/crypto_utils.py: `VectorEncryption`, the AES-GCM envelope for facial
    vectors. Key validation, encryption with a fixed-length nonce, the
    format-sniffing normalisation of stored IV/ciphertext text, and the
    validation of decrypted payloads are modelled concretely; the cipher, the
    JSON/base64/UTF-8 codecs and the random source are parameters. */
module VectorEncryption {
  import opened Common
  import opened Primitives

  /** `self.iv_length`: 96-bit nonces, the length section 5.2.1.1 of NIST
      SP 800-38D recommends for GCM. */
  const IvLength: nat := 12

  /** `generate_key` draws 32 random bytes (an AES-256 key). */
  const GeneratedKeyLength: nat := 32

  /** AES-128, AES-192 and AES-256 key lengths in bytes. */
  predicate IsAesKeyLength(n: int)
  {
    n == 16 || n == 24 || n == 32
  }

  /** `VectorEncryptionError`, split by the reason it was raised. */
  datatype VectorEncryptionError = KeyNotSet | InvalidKey | DecryptionFailed

  /** A constructed `VectorEncryption`: the decoded raw key. */
  datatype Cipher = Cipher(key: Bytes)

  /** `key or os.getenv("VECTOR_ENCRYPTION_KEY")`. */
  function KeySource(key: Option<string>, env: Option<string>): Option<string>
  {
    if Truthy(key) then key else env
  }

  /** `base64.urlsafe_b64decode`: translate the url-safe alphabet, then decode. */
  function UrlsafeB64Decode(c: Codecs, s: string): Option<Bytes>
  {
    c.b64Decode(UrlsafeToStandard(s))
  }

  /** `VectorEncryption.__init__(key)`, with the environment variable's value
      passed in as `env`. */
  function NewCipher(c: Codecs, key: Option<string>, env: Option<string>): (r: Result<Cipher, VectorEncryptionError>)
    ensures r == Failure(KeyNotSet) <==> !Truthy(key) && !Truthy(env)
    ensures r.Success? ==> IsAesKeyLength(|r.value.key|)
    ensures r.Success? <==>
      && Truthy(KeySource(key, env))
      && UrlsafeB64Decode(c, KeySource(key, env).value).Some?
      && IsAesKeyLength(|UrlsafeB64Decode(c, KeySource(key, env).value).value|)
    ensures r.Success? ==> UrlsafeB64Decode(c, KeySource(key, env).value) == Some(r.value.key)
  {
    var keyStr := KeySource(key, env);
    if !Truthy(keyStr) then Failure(KeyNotSet)
    else
      match UrlsafeB64Decode(c, keyStr.value)
      case None => Failure(InvalidKey)
      case Some(k) => if IsAesKeyLength(|k|) then Success(Cipher(k)) else Failure(InvalidKey)
  }

  /** `generate_key()`: base64 of 32 bytes drawn from `os.urandom`, which are
      passed in. */
  function GenerateKey(c: Codecs, entropy: Bytes): string
    requires |entropy| == GeneratedKeyLength
  {
    c.b64Encode(entropy)
  }

  /** A generated key is 44 characters of base64 that the constructor accepts,
      recovering exactly the 32 random bytes. */
  lemma GeneratedKeyAccepted(c: Codecs, entropy: Bytes, env: Option<string>)
    requires LawfulCodecs(c)
    requires |entropy| == GeneratedKeyLength
    ensures |GenerateKey(c, entropy)| == 44
    ensures NewCipher(c, Some(GenerateKey(c, entropy)), env) == Success(Cipher(entropy))
  {
    var key := GenerateKey(c, entropy);
    assert |key| == Base64Length(32) == 44;
    StandardTextIsUrlsafeFixpoint(key);
    assert KeySource(Some(key), env) == Some(key);
  }

  /** `json.dumps(vector).encode('utf-8')`. */
  function Serialize(c: Codecs, v: Vector): Bytes
  {
    c.utf8Encode(c.jsonDumps(v))
  }

  /** `encrypt_vector(vector)` with the fresh nonce `os.urandom(12)` passed in:
      the ciphertext (tag included) and the nonce, no associated data. */
  function EncryptVector(cipher: Cipher, c: Codecs, aead: Aead, v: Vector, nonce: Bytes): (r: (Bytes, Bytes))
    requires |nonce| == IvLength
    ensures r.1 == nonce
    ensures LawfulAead(aead) ==> aead.open(cipher.key, r.1, r.0) == Some(Serialize(c, v))
  {
    (aead.seal(cipher.key, nonce, Serialize(c, v)), nonce)
  }

  /** The stored form of an IV or a ciphertext: bytes, or text. */
  datatype Blob = Raw(bytes: Bytes) | Text(text: string)

  /** `iv.startswith("b'") and iv.endswith("'")`: text that looks like `str(bytes)`. */
  predicate IsBytesLiteral(s: string)
  {
    StartsWith(s, "b'") && EndsWith(s, "'")
  }

  /** `s[2:-1]`; for the two-character text `b'` Python yields the empty string. */
  function LiteralBody(s: string): string
    requires |s| >= 2
  {
    if |s| >= 3 then s[2..|s| - 1] else ""
  }

  /** The IV normalisation of `decrypt_vector`: a `b'...'` text becomes its
      body encoded as Latin-1 (failing on characters above U+00FF); any other
      text is base64-decoded, or UTF-8 encoded when that decoding raises;
      bytes pass unchanged. */
  function NormalizeIv(c: Codecs, iv: Blob): Result<Bytes, VectorEncryptionError>
  {
    match iv
    case Raw(bs) => Success(bs)
    case Text(s) =>
      if IsBytesLiteral(s) then
        match Latin1Encode(LiteralBody(s))
        case None => Failure(DecryptionFailed)
        case Some(bs) => Success(bs)
      else
        match c.b64Decode(s)
        case Some(bs) => Success(bs)
        case None => Success(c.utf8Encode(s))
  }

  /** The ciphertext normalisation: base64 first, UTF-8 as the fallback; no
      `b'...'` case. */
  function NormalizeData(c: Codecs, data: Blob): Bytes
  {
    match data
    case Raw(bs) => bs
    case Text(s) =>
      match c.b64Decode(s)
      case Some(bs) => bs
      case None => c.utf8Encode(s)
  }

  /** Normalise, authenticate and decrypt, then decode the plaintext as UTF-8. */
  function OpenPayload(cipher: Cipher, c: Codecs, aead: Aead, data: Blob, iv: Blob): Option<string>
  {
    match NormalizeIv(c, iv)
    case Failure(_) => None
    case Success(ivBytes) =>
      match aead.open(cipher.key, ivBytes, NormalizeData(c, data))
      case None => None
      case Some(plain) => c.utf8Decode(plain)
  }

  /** `json.loads`, falling back to `ast.literal_eval` only on a JSON syntax
      error; whichever parses must yield a list. */
  function ParsePayload(c: Codecs, text: string): (r: Result<PyValue, VectorEncryptionError>)
    ensures r.Success? ==> r.value.PyList?
    ensures c.jsonLoads(text).Some? ==> (r.Success? <==> c.jsonLoads(text).value.PyList?)
    ensures c.jsonLoads(text).Some? && r.Success? ==> r.value == c.jsonLoads(text).value
    ensures c.jsonLoads(text).None? ==>
      && (r.Success? <==> c.literalEval(text).Some? && c.literalEval(text).value.PyList?)
      && (r.Success? ==> r.value == c.literalEval(text).value)
  {
    match c.jsonLoads(text)
    case Some(v) => if v.PyList? then Success(v) else Failure(DecryptionFailed)
    case None =>
      match c.literalEval(text)
      case Some(v) => if v.PyList? then Success(v) else Failure(DecryptionFailed)
      case None => Failure(DecryptionFailed)
  }

  /** `decrypt_vector(encrypted_data, iv)`: a vector only when the tag
      verifies, the plaintext parses to a list, and every element is an int or
      float; every other outcome is `VectorEncryptionError`. */
  function DecryptVector(cipher: Cipher, c: Codecs, aead: Aead, data: Blob, iv: Blob): (r: Result<Vector, VectorEncryptionError>)
    ensures r.Failure? ==> r.error == DecryptionFailed
    ensures r.Success? ==>
      && NormalizeIv(c, iv).Success?
      && aead.open(cipher.key, NormalizeIv(c, iv).value, NormalizeData(c, data)).Some?
    ensures r.Success? ==>
      && OpenPayload(cipher, c, aead, data, iv).Some?
      && ParsePayload(c, OpenPayload(cipher, c, aead, data, iv).value).Success?
      && AsVector(ParsePayload(c, OpenPayload(cipher, c, aead, data, iv).value).value) == Some(r.value)
    ensures OpenPayload(cipher, c, aead, data, iv).Some?
      && ParsePayload(c, OpenPayload(cipher, c, aead, data, iv).value).Success?
      && AsVector(ParsePayload(c, OpenPayload(cipher, c, aead, data, iv).value).value).Some?
      ==> r.Success?
  {
    match OpenPayload(cipher, c, aead, data, iv)
    case None => Failure(DecryptionFailed)
    case Some(text) =>
      match ParsePayload(c, text)
      case Failure(e) => Failure(e)
      case Success(v) =>
        match AsVector(v)
        case None => Failure(DecryptionFailed)
        case Some(vec) => Success(vec)
  }

  /** Round trip: what `encrypt_vector` returns decrypts to the same vector
      under the same key. */
  lemma EncryptThenDecrypt(cipher: Cipher, c: Codecs, aead: Aead, v: Vector, nonce: Bytes)
    requires LawfulCodecs(c) && LawfulAead(aead) && JsonReadsBack(c, v)
    requires |nonce| == IvLength
    ensures var (ct, iv) := EncryptVector(cipher, c, aead, v, nonce);
      DecryptVector(cipher, c, aead, Raw(ct), Raw(iv)) == Success(v)
  {
    var (ct, iv) := EncryptVector(cipher, c, aead, v, nonce);
    assert OpenPayload(cipher, c, aead, Raw(ct), Raw(iv)) == Some(c.jsonDumps(v));
    assert ParsePayload(c, c.jsonDumps(v)) == Success(VectorValue(v));
    VectorValueIsVector(v);
  }

  /** No base64 text takes the `b'...'` branch: `'` is outside the alphabet. */
  lemma Base64TextIsNotBytesLiteral(s: string)
    requires IsBase64Text(s)
    ensures !IsBytesLiteral(s)
  {
    if |s| >= 1 {
      assert IsBase64Char(s[|s| - 1]);
      assert s[|s| - 1..] == [s[|s| - 1]];
    }
  }

  /** The stored form written by the seeder (scripts/seed_data.py): ciphertext
      and IV as base64 text. Both normalise back to the original bytes, so the
      vector is recovered. */
  lemma Base64StoredRoundTrip(cipher: Cipher, c: Codecs, aead: Aead, v: Vector, nonce: Bytes)
    requires LawfulCodecs(c) && LawfulAead(aead) && JsonReadsBack(c, v)
    requires |nonce| == IvLength
    ensures var (ct, iv) := EncryptVector(cipher, c, aead, v, nonce);
      DecryptVector(cipher, c, aead, Text(c.b64Encode(ct)), Text(c.b64Encode(iv))) == Success(v)
  {
    var (ct, iv) := EncryptVector(cipher, c, aead, v, nonce);
    Base64TextIsNotBytesLiteral(c.b64Encode(iv));
    assert NormalizeIv(c, Text(c.b64Encode(iv))) == Success(iv);
    assert NormalizeData(c, Text(c.b64Encode(ct))) == ct;
    assert OpenPayload(cipher, c, aead, Text(c.b64Encode(ct)), Text(c.b64Encode(iv)))
        == OpenPayload(cipher, c, aead, Raw(ct), Raw(iv));
    EncryptThenDecrypt(cipher, c, aead, v, nonce);
  }

  /** The characters whose Latin-1 codes are the given bytes. */
  function Latin1Text(bs: Bytes): (s: string)
    ensures |s| == |bs|
    ensures forall i :: 0 <= i < |bs| ==> s[i] as int == bs[i]
  {
    seq(|bs|, i requires 0 <= i < |bs| => bs[i] as char)
  }

  /** The `b'...'` branch inverts Latin-1 text: wrapping any bytes' Latin-1
      characters in `b'` and `'` normalises back to those bytes. */
  lemma BytesLiteralRoundTrip(c: Codecs, bs: Bytes)
    ensures NormalizeIv(c, Text("b'" + Latin1Text(bs) + "'")) == Success(bs)
  {
    var s := "b'" + Latin1Text(bs) + "'";
    assert s[..2] == "b'";
    assert s[|s| - 1..] == "'";
    assert IsBytesLiteral(s);
    assert LiteralBody(s) == Latin1Text(bs);
    var enc := Latin1Encode(Latin1Text(bs));
    assert enc.Some?;
    assert enc.value == bs;
  }

  /** A Latin-1 body with a character above U+00FF is rejected, not passed on
      to the base64 branch. */
  lemma WideBytesLiteralRejected(c: Codecs, s: string, i: nat)
    requires IsBytesLiteral(s) && 2 <= i < |s| - 1 && (s[i] as int) >= 256
    ensures NormalizeIv(c, Text(s)) == Failure(DecryptionFailed)
  {
    assert LiteralBody(s)[i - 2] == s[i];
  }

  /** Integrity: a ciphertext that is not the sealing of any plaintext under
      this key and nonce never decrypts. */
  lemma ForgedCiphertextRejected(cipher: Cipher, c: Codecs, aead: Aead, ct: Bytes, iv: Bytes)
    requires LawfulAead(aead)
    requires forall pt :: aead.seal(cipher.key, iv, pt) != ct
    ensures DecryptVector(cipher, c, aead, Raw(ct), Raw(iv)) == Failure(DecryptionFailed)
  {
    var result := aead.open(cipher.key, iv, ct);
    assert result.None?;
  }

  /** A payload that is JSON but not a list, or a list holding a non-number,
      raises instead of being returned. */
  lemma NonVectorPayloadRejected(cipher: Cipher, c: Codecs, aead: Aead, data: Blob, iv: Blob, text: string)
    requires OpenPayload(cipher, c, aead, data, iv) == Some(text)
    requires c.jsonLoads(text).Some? && AsVector(c.jsonLoads(text).value).None?
    ensures DecryptVector(cipher, c, aead, data, iv) == Failure(DecryptionFailed)
  {
  }
}
