/**
  Shared vocabulary of the vault model: optional values, results that carry
  the Python exception a call would raise, bytes, and the "str or bytes"
  arguments that the encryption helpers coerce.
 */
module Base {

  /** Python's `None` versus a present value. */
  datatype Option<+T> = None | Some(value: T)

  /** A call that either returns a value or raises `error`. */
  datatype Result<+T, +E> = Ok(value: T) | Err(error: E)

  /** The Python exceptions the modelled code can let escape. */
  datatype Error =
    | InvalidToken          // cryptography.fernet.InvalidToken: wrong key or tampered token
    | UnicodeDecodeError    // bytes.decode() on bytes that are not UTF-8
    | KeyError(key: string) // dict lookup of a missing key
    | ValueError(reason: string)
    | AttributeError        // `.get` on a decoded payload that is not a dict
    | BadPayload            // itsdangerous.BadPayload: signed, but not decodable
    | FileNotFound          // the vault file does not exist
    | OSError(reason: string)

  type Byte = bv8
  type Bytes = seq<Byte>

  /** A value that is either a Python `str` or a Python `bytes`. */
  datatype Text = Str(s: string) | Raw(b: Bytes)

  /** Python truthiness of an optional string: neither `None` nor `""`. */
  predicate Truthy(o: Option<string>) {
    o.Some? && o.value != ""
  }

  /** The bytes of an ASCII literal such as `b'salt'`. */
  function Ascii(s: string): (b: Bytes)
    ensures |b| == |s|
  {
    seq(|s|, i requires 0 <= i < |s| => ((s[i] as int) % 256) as bv8)
  }
}
