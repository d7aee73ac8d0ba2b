/**
  The foreign primitives the vault calls: UTF-8 text encoding, the project's
  `sha256` string helper, `hashlib.sha256(...).hexdigest()`, PBKDF2-HMAC-SHA256,
  url-safe base64 and the Fernet cipher. None of them is modelled; each is a
  field of `Primitives`, so every statement in this project holds for ANY
  choice of them, and the properties of the real libraries that a proof needs
  are named below and passed as explicit hypotheses.
 */
module Crypto {
  import opened Base

  /** The random IV and timestamp that Fernet puts into each token. */
  type Nonce = nat

  datatype Primitives = Primitives(
    utf8Encode: string -> Bytes,           // str.encode()
    utf8Decode: Bytes -> Option<string>,   // bytes.decode(); None = UnicodeDecodeError
    sha256: string -> string,              // the project's sha256(text) helper
    sha256Hex: Bytes -> string,            // hashlib.sha256(b).hexdigest()
    pbkdf2: (Bytes, Bytes, nat, nat) -> Bytes, // PBKDF2HMAC(SHA256, length, salt, iterations).derive(password)
    b64: Bytes -> Bytes,                   // base64.urlsafe_b64encode
    seal: (Bytes, Nonce, Bytes) -> Bytes,  // Fernet(key).encrypt(data)
    open: (Bytes, Bytes) -> Option<Bytes>  // Fernet(key).decrypt(token); None = InvalidToken
  )

  /** Decoding what was encoded gives the text back, and a successful decode is undone by encoding. */
  ghost predicate Utf8RoundTrip(p: Primitives) {
    && (forall s :: p.utf8Decode(p.utf8Encode(s)) == Some(s))
    && (forall b :: p.utf8Decode(b).Some? ==> p.utf8Encode(p.utf8Decode(b).value) == b)
  }

  /** A Fernet token opens, under the key it was sealed with, to the sealed data. */
  ghost predicate FernetRoundTrip(p: Primitives) {
    forall k, n, m :: p.open(k, p.seal(k, n, m)) == Some(m)
  }

  /** A Fernet token does not open under any other key (authenticated encryption). */
  ghost predicate FernetRejectsOtherKeys(p: Primitives) {
    forall k, k', n, m :: k != k' ==> p.open(k', p.seal(k, n, m)) == None
  }

  /** Fernet tokens are non-empty url-safe base64, hence ASCII, hence valid UTF-8. */
  ghost predicate FernetTokensAreText(p: Primitives) {
    forall k, n, m :: p.utf8Decode(p.seal(k, n, m)).Some? && p.utf8Decode(p.seal(k, n, m)).value != ""
  }

  /** PBKDF2 returns exactly the requested number of bytes. */
  ghost predicate Pbkdf2Length(p: Primitives) {
    forall pw, salt, it, len :: |p.pbkdf2(pw, salt, it, len)| == len
  }

  /** Base64 encoding loses nothing. */
  ghost predicate B64Injective(p: Primitives) {
    forall a, b :: p.b64(a) == p.b64(b) ==> a == b
  }

  predicate IsHexDigit(c: char) {
    '0' <= c <= '9' || 'a' <= c <= 'f'
  }

  /** A SHA-256 `hexdigest()`: 64 lower-case hexadecimal characters. */
  predicate IsHexDigest(s: string) {
    |s| == 64 && forall i :: 0 <= i < |s| ==> IsHexDigit(s[i])
  }

  ghost predicate HexDigests(p: Primitives) {
    forall b :: IsHexDigest(p.sha256Hex(b))
  }

  /** Everything assumed of the libraries, in one place. */
  ghost predicate Assumptions(p: Primitives) {
    && Utf8RoundTrip(p)
    && FernetRoundTrip(p)
    && FernetRejectsOtherKeys(p)
    && FernetTokensAreText(p)
    && Pbkdf2Length(p)
    && B64Injective(p)
    && HexDigests(p)
  }
}
