/**
  The encryption helpers (utils/encryption.py): password-based key
  derivation, the derived-key fingerprint, wrapping and unwrapping of the
  application key under the derived key, and encryption of site passwords
  under the application key. Only the helpers' own logic is modelled: the
  str-to-bytes coercions, the `None` results on empty input, and which key
  reaches which cipher.
 */
module Encryption {
  import opened Base
  import opened Crypto

  /** The fixed PBKDF2 parameters: one salt for every installation. */
  const Salt: Bytes := Ascii("salt_for_derived_key_generation")
  const Iterations: nat := 100000
  const KeyLength: nat := 32

  /** `x.encode() if isinstance(x, str) else x` */
  function AsBytes(p: Primitives, t: Text): Bytes {
    match t
    case Str(s) => p.utf8Encode(s)
    case Raw(b) => b
  }

  /** `generate_derived_key_from_passwd`: PBKDF2 over the password's bytes with the fixed parameters. */
  function GenerateDerivedKey(p: Primitives, password: Text): (key: Bytes)
    ensures Pbkdf2Length(p) ==> |key| == KeyLength
  {
    p.pbkdf2(AsBytes(p, password), Salt, Iterations, KeyLength)
  }

  /** `hash_derived_key`: the SHA-256 hex digest of the derived key. */
  function HashDerivedKey(p: Primitives, derivedKey: Bytes): (h: string)
    ensures HexDigests(p) ==> IsHexDigest(h)
  {
    p.sha256Hex(derivedKey)
  }

  /** The Fernet key both private-key helpers build: `urlsafe_b64encode(derived_key)`. */
  function WrappingKey(p: Primitives, derivedKey: Bytes): Bytes {
    p.b64(derivedKey)
  }

  /** `encrypt_user_private_key`: a Fernet token of the key's bytes under the wrapping key. */
  function EncryptUserPrivateKey(p: Primitives, userKey: Text, derivedKey: Bytes, nonce: Nonce): (token: Bytes)
    ensures FernetRoundTrip(p) ==> p.open(WrappingKey(p, derivedKey), token) == Some(AsBytes(p, userKey))
  {
    p.seal(WrappingKey(p, derivedKey), nonce, AsBytes(p, userKey))
  }

  /**
    `decrypt_user_private_key`: opens the token under the wrapping key and
    decodes the plaintext to `str`. Fernet's `InvalidToken` and the decode's
    `UnicodeDecodeError` propagate.
   */
  function DecryptUserPrivateKey(p: Primitives, token: Text, derivedKey: Bytes): (r: Result<string, Error>)
    ensures r.Ok? <==> exists m :: p.open(WrappingKey(p, derivedKey), AsBytes(p, token)) == Some(m) && p.utf8Decode(m).Some?
    ensures r.Ok? ==> p.utf8Decode(p.open(WrappingKey(p, derivedKey), AsBytes(p, token)).value) == Some(r.value)
    ensures r.Err? ==>
      r.error == if p.open(WrappingKey(p, derivedKey), AsBytes(p, token)).None? then InvalidToken else UnicodeDecodeError
  {
    match p.open(WrappingKey(p, derivedKey), AsBytes(p, token))
    case None => Err(InvalidToken)
    case Some(m) =>
      match p.utf8Decode(m)
      case None => Err(UnicodeDecodeError)
      case Some(s) => Ok(s)
  }

  /** `encrypt(data, key)`: `None` for `None` or `""`, else the Fernet token as `str`. */
  function Encrypt(p: Primitives, data: Option<string>, key: Text, nonce: Nonce): (r: Result<Option<string>, Error>)
    ensures !Truthy(data) ==> r == Ok(None)
    ensures Truthy(data) && FernetTokensAreText(p) ==> r.Ok? && Truthy(r.value)
  {
    if !Truthy(data) then Ok(None)
    else
      match p.utf8Decode(p.seal(AsBytes(p, key), nonce, p.utf8Encode(data.value)))
      case None => Err(UnicodeDecodeError)
      case Some(t) => Ok(Some(t))
  }

  /** `decrypt(encrypted_data, key)`: `None` for `None` or `""`; a cipher failure is not caught. */
  function Decrypt(p: Primitives, data: Option<string>, key: Text): (r: Result<Option<string>, Error>)
    ensures !Truthy(data) ==> r == Ok(None)
    ensures Truthy(data) ==> (r.Ok? <==> exists m :: p.open(AsBytes(p, key), p.utf8Encode(data.value)) == Some(m) && p.utf8Decode(m).Some?)
    ensures r.Ok? && Truthy(data) ==> r.value.Some?
    ensures r.Err? ==>
      && Truthy(data)
      && r.error == if p.open(AsBytes(p, key), p.utf8Encode(data.value)).None? then InvalidToken else UnicodeDecodeError
  {
    if !Truthy(data) then Ok(None)
    else
      match p.open(AsBytes(p, key), p.utf8Encode(data.value))
      case None => Err(InvalidToken)
      case Some(m) =>
        match p.utf8Decode(m)
        case None => Err(UnicodeDecodeError)
        case Some(s) => Ok(Some(s))
  }

  /** The derived key depends on nothing but the password's bytes: a `str` and its encoding derive the same key. */
  lemma DerivedKeyOfEncodedPassword(p: Primitives, password: string)
    ensures GenerateDerivedKey(p, Str(password)) == GenerateDerivedKey(p, Raw(p.utf8Encode(password)))
  {
  }

  /** Unwrapping with the derived key that wrapped gives back the application key, decoded to `str`. */
  lemma UserKeyRoundTrip(p: Primitives, userKey: Text, derivedKey: Bytes, nonce: Nonce)
    requires FernetRoundTrip(p) && Utf8RoundTrip(p)
    ensures p.utf8Decode(AsBytes(p, userKey)).Some? ==>
      DecryptUserPrivateKey(p, Raw(EncryptUserPrivateKey(p, userKey, derivedKey, nonce)), derivedKey)
        == Ok(p.utf8Decode(AsBytes(p, userKey)).value)
    ensures userKey.Str? ==>
      DecryptUserPrivateKey(p, Raw(EncryptUserPrivateKey(p, userKey, derivedKey, nonce)), derivedKey) == Ok(userKey.s)
  {
  }

  /**
    The token is stored as `str` (`encrypted_app_key.decode()`) and handed back
    as `str`; the round trip survives the detour.
   */
  lemma StoredUserKeyRoundTrip(p: Primitives, userKey: Bytes, derivedKey: Bytes, nonce: Nonce, text: string)
    requires FernetRoundTrip(p) && Utf8RoundTrip(p)
    requires p.utf8Decode(EncryptUserPrivateKey(p, Raw(userKey), derivedKey, nonce)) == Some(text)
    requires p.utf8Decode(userKey).Some?
    ensures DecryptUserPrivateKey(p, Str(text), derivedKey) == Ok(p.utf8Decode(userKey).value)
  {
    var token := EncryptUserPrivateKey(p, Raw(userKey), derivedKey, nonce);
    assert AsBytes(p, Str(text)) == token;
  }

  /** A wrong derived key never unwraps the application key. */
  lemma UnwrapWithOtherKeyFails(p: Primitives, userKey: Text, d1: Bytes, d2: Bytes, nonce: Nonce)
    requires FernetRejectsOtherKeys(p) && B64Injective(p)
    requires d1 != d2
    ensures DecryptUserPrivateKey(p, Raw(EncryptUserPrivateKey(p, userKey, d1, nonce)), d2) == Err(InvalidToken)
  {
    assert WrappingKey(p, d1) != WrappingKey(p, d2);
  }

  /** `decrypt(encrypt(s, k), k) == s` for every non-empty `s`. */
  lemma SecretRoundTrip(p: Primitives, secret: string, key: Text, nonce: Nonce)
    requires FernetRoundTrip(p) && FernetTokensAreText(p) && Utf8RoundTrip(p)
    requires secret != ""
    ensures Encrypt(p, Some(secret), key, nonce).Ok?
    ensures Decrypt(p, Encrypt(p, Some(secret), key, nonce).value, key) == Ok(Some(secret))
  {
    var token := p.seal(AsBytes(p, key), nonce, p.utf8Encode(secret));
    var text := p.utf8Decode(token).value;
    assert Encrypt(p, Some(secret), key, nonce) == Ok(Some(text));
    assert p.utf8Encode(text) == token;
  }

  /** A site password sealed under one application key does not open under another. */
  lemma SecretUnderOtherKeyFails(p: Primitives, secret: string, k1: Text, k2: Text, nonce: Nonce)
    requires FernetRejectsOtherKeys(p) && FernetTokensAreText(p) && Utf8RoundTrip(p)
    requires secret != "" && AsBytes(p, k1) != AsBytes(p, k2)
    ensures Decrypt(p, Encrypt(p, Some(secret), k1, nonce).value, k2) == Err(InvalidToken)
  {
    var token := p.seal(AsBytes(p, k1), nonce, p.utf8Encode(secret));
    var text := p.utf8Decode(token).value;
    assert p.utf8Encode(text) == token;
  }
}
