/**
  Session tokens (utils/authentication.py): a token is an itsdangerous
  `URLSafeTimedSerializer` signature over `{'master_passwd_hash': h}`, and
  confirming one sorts the serializer's verdict into "no session" (`None`)
  or the payload. The serializer, its clock and the secret key (imported
  from a `constants` module that is not part of this model) are parameters.
 */
module Authentication {
  import opened Base

  /** A decoded JSON value. */
  datatype Json =
    | JNull
    | JBool(b: bool)
    | JInt(i: int)
    | JStr(s: string)
    | JList(elems: seq<Json>)
    | JObject(fields: map<string, Json>)

  /** What `serializer.loads(token, max_age=...)` does: return the payload or raise. */
  datatype LoadOutcome =
    | Loaded(data: Json)
    | Expired      // itsdangerous.SignatureExpired
    | BadSignature // itsdangerous.BadSignature (tampered token, other key or salt)
    | Undecodable  // itsdangerous.BadPayload: not a BadSignature, so not caught

  /**
    `URLSafeTimedSerializer(secret_key, salt)`: `dumps` signs a payload with a
    timestamp, `loads` checks a token against a maximum age at time `now`.
   */
  datatype Serializer = Serializer(
    dumps: (string, string, Json, int) -> string,             // secret, salt, payload, issued at
    loads: (string, string, string, int, int) -> LoadOutcome  // secret, salt, token, max age, now
  )

  const Salt: string := "terminal_session_token_from_user_master_passwd_hash"
  /** The default lifetime of a session: three hours, in seconds. */
  const Expiration: int := 3600 * 3
  const HashField: string := "master_passwd_hash"

  /**
    Assumed of itsdangerous: a token loads, under the key and salt that signed
    it, to its payload when its age lies in `[0, max_age]`; otherwise it has
    expired (a timestamp in the future counts as expired too).
   */
  ghost predicate SerializerRoundTrip(s: Serializer) {
    forall secret, salt, d, t0, maxAge, now ::
      s.loads(secret, salt, s.dumps(secret, salt, d, t0), maxAge, now)
        == if 0 <= now - t0 <= maxAge then Loaded(d) else Expired
  }

  /** Assumed of itsdangerous: a token signed under another key or salt has a bad signature. */
  ghost predicate SerializerRejectsOtherKeys(s: Serializer) {
    forall secret, salt, secret', salt', d, t0, maxAge, now ::
      (secret, salt) != (secret', salt') ==>
        s.loads(secret', salt', s.dumps(secret, salt, d, t0), maxAge, now) == BadSignature
  }

  /** The payload a session token carries. */
  function SessionPayload(masterPasswdHash: Json): Json {
    JObject(map[HashField := masterPasswdHash])
  }

  /** `get_session_token(h)`: the signed payload `{'master_passwd_hash': h}`, issued at `now`. */
  function GetSessionToken(s: Serializer, secretKey: string, masterPasswdHash: Json, now: int): (token: string)
    ensures SerializerRoundTrip(s) ==>
      s.loads(secretKey, Salt, token, Expiration, now) == Loaded(JObject(map[HashField := masterPasswdHash]))
  {
    s.dumps(secretKey, Salt, SessionPayload(masterPasswdHash), now)
  }

  /**
    `confirm_session_token(token, expiration)` at time `now`: `None` on expiry,
    on a bad signature, and on a payload without a non-null hash; otherwise a
    dict holding only the hash. A payload that is not a dict makes `.get`
    raise, and a bad payload is not caught.
   */
  function ConfirmSessionToken(s: Serializer, secretKey: string, token: string, expiration: int, now: int)
    : (r: Result<Option<Json>, Error>)
    ensures var out := s.loads(secretKey, Salt, token, expiration, now);
      (out.Expired? || out.BadSignature?) ==> r == Ok(None)
    ensures var out := s.loads(secretKey, Salt, token, expiration, now);
      r.Err? <==> (out.Undecodable? || (out.Loaded? && !out.data.JObject?))
    ensures var out := s.loads(secretKey, Salt, token, expiration, now);
      out.Loaded? && out.data.JObject? ==>
        (r == Ok(None) <==> HashField !in out.data.fields || out.data.fields[HashField] == JNull)
    ensures var out := s.loads(secretKey, Salt, token, expiration, now);
      r.Ok? && r.value.Some? ==>
        && out.Loaded? && out.data.JObject? && HashField in out.data.fields
        && r.value.value == JObject(map[HashField := out.data.fields[HashField]])
  {
    match s.loads(secretKey, Salt, token, expiration, now)
    case Expired => Ok(None)
    case BadSignature => Ok(None)
    case Undecodable => Err(BadPayload)
    case Loaded(data) =>
      match data
      case JObject(fields) =>
        if HashField in fields && fields[HashField] != JNull then
          Ok(Some(JObject(map[HashField := fields[HashField]])))
        else Ok(None) // invalid token structure
      case _ => Err(AttributeError)
  }

  /**
    A token from `get_session_token(h)` confirms, under the default three-hour
    window, to `{'master_passwd_hash': h}` exactly while its age is between
    0 and 10800 seconds and `h` is not `None`; otherwise to `None`.
   */
  lemma SessionTokenRoundTrip(s: Serializer, secretKey: string, h: Json, issuedAt: int, now: int)
    requires SerializerRoundTrip(s)
    ensures ConfirmSessionToken(s, secretKey, GetSessionToken(s, secretKey, h, issuedAt), Expiration, now)
      == if 0 <= now - issuedAt <= 10800 && h != JNull then Ok(Some(JObject(map[HashField := h]))) else Ok(None)
  {
    var payload := SessionPayload(h);
    assert payload.fields[HashField] == h;
  }

  /** A token signed under another secret key (or salt) never confirms. */
  lemma ForeignTokenRejected(s: Serializer, secretKey: string, otherKey: string, h: Json, issuedAt: int, now: int)
    requires SerializerRejectsOtherKeys(s)
    requires otherKey != secretKey
    ensures ConfirmSessionToken(s, secretKey, GetSessionToken(s, otherKey, h, issuedAt), Expiration, now) == Ok(None)
  {
    assert (otherKey, Salt) != (secretKey, Salt);
  }
}
