/**
  The commands of main.py as transitions of the files the program keeps:
  the vault (`websites_data.json`) and the session-token file. Each command
  maps the files it finds to the files it leaves, its way of ending
  (normally, through `sys.exit()`, or with an uncaught exception) and, for
  `visit`, the URL and password it hands to the browser and clipboard.
 */
module Commands {
  import opened Base
  import opened Crypto
  import opened Encryption
  import opened Mappings
  import Dict

  /** The vault file. */
  datatype Vault = Vault(
    passwordHash: string,    // sha256(master password)
    encryptedAppKey: string, // the application key wrapped under the derived key
    derivedKeyHash: string,  // hex SHA-256 of the derived key
    websites: Websites)

  /** The two files; `None` when a file does not exist. */
  datatype World = World(vault: Option<Vault>, sessionToken: Option<string>)

  /** A JSON object never holds a key twice. */
  predicate WellFormed(w: World) {
    w.vault.Some? ==> Dict.Valid(w.vault.value.websites)
  }

  /**
    Helpers main.py imports but that are not part of this model:
    `validate_user`, `generate_session_token`, and the session lookup
    `confirm_session_token(get_existing_session_token())`, which main.py
    treats as giving back the application key (or something falsy).
   */
  datatype Host = Host(
    validateUser: (string, string) -> bool,          // saved password hash, given password
    generateSessionToken: Text -> string,            // application key -> token
    sessionAppKey: Option<string> -> Option<string>  // token file contents -> application key
  )

  /** The host's password check accepts the password whose hash is stored. */
  ghost predicate ValidatorAcceptsOwner(p: Primitives, h: Host) {
    forall pw :: h.validateUser(p.sha256(pw), pw)
  }

  /** The reasons main.py calls `sys.exit()`. */
  datatype Exit = AlreadyInitialized | WrongPassword | UnknownWebsite

  datatype Status = Completed | Exited(reason: Exit) | Raised(error: Error)

  /** The arguments of the `visit_site(url, passwd)` call. */
  datatype Opened = Opened(url: string, password: Option<string>)

  datatype Run = Run(world: World, status: Status, visited: Option<Opened>)

  /**
    `_validate_user_and_get_app_key(user_data, password)`: exits on a
    rejected password, else unwraps the application key with the key derived
    from that password.
   */
  function ValidateUserAndGetAppKey(p: Primitives, h: Host, v: Vault, password: string): (r: Result<string, Status>)
    ensures !h.validateUser(v.passwordHash, password) ==> r == Err(Exited(WrongPassword))
    ensures r.Ok? ==>
      && h.validateUser(v.passwordHash, password)
      && DecryptUserPrivateKey(p, Str(v.encryptedAppKey), GenerateDerivedKey(p, Str(password))) == Ok(r.value)
    ensures h.validateUser(v.passwordHash, password)
      && DecryptUserPrivateKey(p, Str(v.encryptedAppKey), GenerateDerivedKey(p, Str(password))).Err?
      ==> r == Err(Raised(DecryptUserPrivateKey(p, Str(v.encryptedAppKey), GenerateDerivedKey(p, Str(password))).error))
    ensures h.validateUser(v.passwordHash, password)
      && DecryptUserPrivateKey(p, Str(v.encryptedAppKey), GenerateDerivedKey(p, Str(password))).Ok?
      ==> r == Ok(DecryptUserPrivateKey(p, Str(v.encryptedAppKey), GenerateDerivedKey(p, Str(password))).value)
  {
    if !h.validateUser(v.passwordHash, password) then Err(Exited(WrongPassword))
    else
      match DecryptUserPrivateKey(p, Str(v.encryptedAppKey), GenerateDerivedKey(p, Str(password)))
      case Err(e) => Err(Raised(e))
      case Ok(k) => Ok(k)
  }

  /**
    `init`: exits if the vault exists. Otherwise saves a session token for
    the fresh key `appKey` (from `Fernet.generate_key()`), then writes a
    vault with no websites, the password's hash, the key wrapped under the
    password's derived key, and the derived key's fingerprint.
   */
  function Init(p: Primitives, h: Host, w: World, appKey: Bytes, rawPassword: string, nonce: Nonce): (r: Run)
    ensures w.vault.Some? ==> r == Run(w, Exited(AlreadyInitialized), None)
    ensures w.vault.None? ==> r.world.sessionToken == Some(h.generateSessionToken(Raw(appKey))) && r.visited.None?
    ensures w.vault.None? && FernetTokensAreText(p) ==>
      && r.status == Completed
      && r.world.vault.Some?
      && r.world.vault.value.websites == Dict.Empty()
      && r.world.vault.value.passwordHash == p.sha256(rawPassword)
      && r.world.vault.value.derivedKeyHash == HashDerivedKey(p, GenerateDerivedKey(p, Str(rawPassword)))
      && p.utf8Decode(EncryptUserPrivateKey(p, Raw(appKey), GenerateDerivedKey(p, Str(rawPassword)), nonce))
        == Some(r.world.vault.value.encryptedAppKey)
    ensures w.vault.None? ==> WellFormed(r.world)
  {
    if w.vault.Some? then Run(w, Exited(AlreadyInitialized), None)
    else
      var w1 := w.(sessionToken := Some(h.generateSessionToken(Raw(appKey))));
      var derivedKey := GenerateDerivedKey(p, Str(rawPassword));
      var wrapped := EncryptUserPrivateKey(p, Raw(appKey), derivedKey, nonce);
      match p.utf8Decode(wrapped)
      case None => Run(w1, Raised(UnicodeDecodeError), None)
      case Some(text) =>
        var vault := Vault(p.sha256(rawPassword), text, HashDerivedKey(p, derivedKey), Dict.Empty());
        Run(w1.(vault := Some(vault)), Completed, None)
  }

  /**
    After `init` with password `P` and fresh key `K`, validating `P` against
    the new vault gives back `K` (as text): the envelope round trip.
   */
  lemma InitThenUnlock(p: Primitives, h: Host, w: World, appKey: Bytes, appKeyText: string, password: string, nonce: Nonce)
    requires Assumptions(p) && ValidatorAcceptsOwner(p, h)
    requires w.vault.None?
    requires p.utf8Decode(appKey) == Some(appKeyText)
    ensures Init(p, h, w, appKey, password, nonce).status == Completed
    ensures ValidateUserAndGetAppKey(p, h, Init(p, h, w, appKey, password, nonce).world.vault.value, password)
      == Ok(appKeyText)
    ensures IsHexDigest(Init(p, h, w, appKey, password, nonce).world.vault.value.derivedKeyHash)
  {
    var v := Init(p, h, w, appKey, password, nonce).world.vault.value;
    var derivedKey := GenerateDerivedKey(p, Str(password));
    StoredUserKeyRoundTrip(p, appKey, derivedKey, nonce, v.encryptedAppKey);
  }

  /**
    `add`: validates the password (exiting on a wrong one), encrypts the site
    password under the application key, and adds the site; only the
    `websites` part of the vault changes, and only on success.
   */
  function Add(p: Primitives, h: Host, w: World, password: string, url: string, keys: seq<string>,
               sitePassword: Option<string>, siteUsername: Option<string>, nonce: Nonce): (r: Run)
    requires WellFormed(w)
    ensures WellFormed(r.world) && r.visited.None?
    ensures w.vault.None? ==> r == Run(w, Raised(FileNotFound), None)
    ensures r.status != Completed ==> r.world == w
    ensures w.vault.Some? && !h.validateUser(w.vault.value.passwordHash, password) ==> r.status == Exited(WrongPassword)
    ensures w.vault.Some? ==>
      var unlocked := ValidateUserAndGetAppKey(p, h, w.vault.value, password);
      && (unlocked.Err? ==> r.status == unlocked.error)
      && (unlocked.Ok? ==>
            var sealed := Encrypt(p, sitePassword, Str(unlocked.value), nonce);
            && (sealed.Ok? ==> r.status == Completed)
            && (sealed.Err? ==> r.status == Raised(sealed.error)))
    ensures r.status == Completed ==>
      && w.vault.Some? && r.world.vault.Some?
      && r.world.sessionToken == w.sessionToken
      && r.world.vault.value.passwordHash == w.vault.value.passwordHash
      && r.world.vault.value.encryptedAppKey == w.vault.value.encryptedAppKey
      && r.world.vault.value.derivedKeyHash == w.vault.value.derivedKeyHash
      && exists appKey, enc ::
        && ValidateUserAndGetAppKey(p, h, w.vault.value, password) == Ok(appKey)
        && Encrypt(p, sitePassword, Str(appKey), nonce) == Ok(enc)
        && r.world.vault.value.websites
          == AddWebsiteToDatabase(p, w.vault.value.websites, url, keys, enc, siteUsername)
  {
    match w.vault
    case None => Run(w, Raised(FileNotFound), None)
    case Some(v) =>
      match ValidateUserAndGetAppKey(p, h, v, password)
      case Err(st) => Run(w, st, None)
      case Ok(appKey) =>
        match Encrypt(p, sitePassword, Str(appKey), nonce)
        case Err(e) => Run(w, Raised(e), None)
        case Ok(enc) =>
          var websites := AddWebsiteToDatabase(p, v.websites, url, keys, enc, siteUsername);
          Run(w.(vault := Some(v.(websites := websites))), Completed, None)
  }

  /** The aliases `update` passes on: the new ones if given, else the entry's own. */
  function UpdateKeys(v: Vault, hash: string, keys: Option<seq<string>>): seq<string>
    requires hash in Dict.Keys(v.websites)
  {
    if keys.Some? && keys.value != [] then keys.value else Dict.Get(v.websites, hash).value.keys
  }

  /**
    `update`: exits unless the URL's hash is already stored, and checks that
    BEFORE the password; then proceeds like `add`, with the entry's own
    aliases when no `--keys` are given.
   */
  function Update(p: Primitives, h: Host, w: World, password: string, url: string, keys: Option<seq<string>>,
                  sitePassword: Option<string>, siteUsername: Option<string>, nonce: Nonce): (r: Run)
    requires WellFormed(w)
    ensures WellFormed(r.world) && r.visited.None?
    ensures w.vault.None? ==> r == Run(w, Raised(FileNotFound), None)
    ensures w.vault.Some? && p.sha256(url) !in Dict.Keys(w.vault.value.websites) ==>
      r == Run(w, Exited(UnknownWebsite), None)
    ensures w.vault.Some? && p.sha256(url) in Dict.Keys(w.vault.value.websites) ==>
      var unlocked := ValidateUserAndGetAppKey(p, h, w.vault.value, password);
      && (!h.validateUser(w.vault.value.passwordHash, password) ==> r.status == Exited(WrongPassword))
      && (unlocked.Err? ==> r.status == unlocked.error)
      && (unlocked.Ok? ==>
            var sealed := Encrypt(p, sitePassword, Str(unlocked.value), nonce);
            && (sealed.Ok? ==> r.status == Completed)
            && (sealed.Err? ==> r.status == Raised(sealed.error)))
    ensures r.status != Completed ==> r.world == w
    ensures r.status == Completed ==>
      && w.vault.Some? && r.world.vault.Some?
      && p.sha256(url) in Dict.Keys(w.vault.value.websites)
      && Dict.Keys(r.world.vault.value.websites) == Dict.Keys(w.vault.value.websites)
      && r.world == w.(vault := Some(w.vault.value.(websites := r.world.vault.value.websites)))
      && exists appKey, enc ::
        && ValidateUserAndGetAppKey(p, h, w.vault.value, password) == Ok(appKey)
        && Encrypt(p, sitePassword, Str(appKey), nonce) == Ok(enc)
        && r.world.vault.value.websites == AddWebsiteToDatabase(p, w.vault.value.websites, url,
             UpdateKeys(w.vault.value, p.sha256(url), keys), enc, siteUsername)
  {
    match w.vault
    case None => Run(w, Raised(FileNotFound), None)
    case Some(v) =>
      var hash := p.sha256(url);
      if hash !in Dict.Keys(v.websites) then Run(w, Exited(UnknownWebsite), None)
      else
        match ValidateUserAndGetAppKey(p, h, v, password)
        case Err(st) => Run(w, st, None)
        case Ok(appKey) =>
          match Encrypt(p, sitePassword, Str(appKey), nonce)
          case Err(e) => Run(w, Raised(e), None)
          case Ok(enc) =>
            var websites := AddWebsiteToDatabase(p, v.websites, url, UpdateKeys(v, hash, keys), enc, siteUsername);
            Run(w.(vault := Some(v.(websites := websites))), Completed, None)
  }

  /**
    An `update` without `--keys` keeps the entry's alias set and URL, and one
    without a site password (or username) keeps the stored one.
   */
  lemma UpdateKeepsWhatIsNotGiven(p: Primitives, h: Host, w: World, password: string, url: string,
                                  sitePassword: Option<string>, siteUsername: Option<string>, nonce: Nonce)
    requires WellFormed(w)
    requires Update(p, h, w, password, url, None, sitePassword, siteUsername, nonce).status == Completed
    ensures var before := Dict.Get(w.vault.value.websites, p.sha256(url)).value;
      var after := Dict.Get(Update(p, h, w, password, url, None, sitePassword, siteUsername, nonce)
                              .world.vault.value.websites, p.sha256(url)).value;
      && after.url == before.url
      && KeySet(after) == KeySet(before)
      && (!Truthy(sitePassword) ==> after.password == before.password)
      && (!Truthy(siteUsername) ==> after.username == before.username)
  {
  }

  /**
    What an `update` is given is what the entry holds afterwards: a truthy
    username is stored as is, new `--keys` join the entry's aliases, and a
    truthy site password is stored sealed under the application key, so
    that it decrypts back to exactly what was given.
   */
  lemma UpdateStoresWhatIsGiven(p: Primitives, h: Host, w: World, password: string, url: string, keys: Option<seq<string>>,
                                sitePassword: Option<string>, siteUsername: Option<string>, nonce: Nonce)
    requires WellFormed(w)
    requires Update(p, h, w, password, url, keys, sitePassword, siteUsername, nonce).status == Completed
    ensures var before := Dict.Get(w.vault.value.websites, p.sha256(url)).value;
      var after := Dict.Get(Update(p, h, w, password, url, keys, sitePassword, siteUsername, nonce)
                              .world.vault.value.websites, p.sha256(url)).value;
      && after.url == before.url
      && (Truthy(siteUsername) ==> after.username == siteUsername)
      && (keys.Some? && keys.value != [] ==> KeySet(after) == KeySet(before) + set a | a in keys.value)
    ensures Truthy(sitePassword) && FernetRoundTrip(p) && FernetTokensAreText(p) && Utf8RoundTrip(p) ==>
      var after := Dict.Get(Update(p, h, w, password, url, keys, sitePassword, siteUsername, nonce)
                              .world.vault.value.websites, p.sha256(url)).value;
      && ValidateUserAndGetAppKey(p, h, w.vault.value, password).Ok?
      && DecryptEntry(p, Str(ValidateUserAndGetAppKey(p, h, w.vault.value, password).value), after) == Ok(sitePassword)
  {
    var v := w.vault.value;
    var appKey := ValidateUserAndGetAppKey(p, h, v, password).value;
    if Truthy(sitePassword) && FernetRoundTrip(p) && FernetTokensAreText(p) && Utf8RoundTrip(p) {
      SecretRoundTrip(p, sitePassword.value, Str(appKey), nonce);
    }
  }

  /**
    The application key `visit` works with: the session's when that is
    truthy, otherwise the key unwrapped with the typed password (or the
    exception the unwrap raises).
   */
  function VisitKey(p: Primitives, h: Host, v: Vault, sessionToken: Option<string>, typedPassword: string)
    : Result<string, Error>
  {
    var session := h.sessionAppKey(sessionToken);
    if Truthy(session) then Ok(session.value)
    else DecryptUserPrivateKey(p, Str(v.encryptedAppKey), GenerateDerivedKey(p, Str(typedPassword)))
  }

  /**
    `visit`: takes the application key from the session if it has one;
    otherwise asks for the password, REPORTS (but does not exit on) a
    rejected one, unwraps the key (an uncaught failure if the password was
    wrong) and saves a new session token. It then builds both indexes
    (failing if ANY entry lacks a password) and, if the alias is known,
    opens that entry's URL with its decrypted password.
   */
  function Visit(p: Primitives, h: Host, w: World, siteKey: string, typedPassword: string): (r: Run)
    requires WellFormed(w)
    ensures r.world.vault == w.vault && WellFormed(r.world)
    ensures w.vault.None? ==> r == Run(w, Raised(FileNotFound), None)
    ensures r.world.sessionToken != w.sessionToken ==>
      && w.vault.Some?
      && !Truthy(h.sessionAppKey(w.sessionToken))
      && exists k ::
        && DecryptUserPrivateKey(p, Str(w.vault.value.encryptedAppKey), GenerateDerivedKey(p, Str(typedPassword))) == Ok(k)
        && r.world.sessionToken == Some(h.generateSessionToken(Str(k)))
    ensures r.visited.Some? ==>
      && r.status == Completed && w.vault.Some?
      && siteKey in CreateSiteMapping(w.vault.value.websites.items)
      && var hash := CreateSiteMapping(w.vault.value.websites.items)[siteKey];
        && Dict.Get(w.vault.value.websites, hash).Some?
        && siteKey in Dict.Get(w.vault.value.websites, hash).value.keys
        && r.visited.value.url == Dict.Get(w.vault.value.websites, hash).value.url
    ensures r.status == Completed && siteKey !in CreateSiteMapping(w.vault.value.websites.items) ==> r.visited.None?
    ensures r.visited.Some? ==>
      && w.vault.Some?
      && var key := VisitKey(p, h, w.vault.value, w.sessionToken, typedPassword);
        var items := w.vault.value.websites.items;
        && key.Ok?
        && var passwords := CreatePasswordMapping(p, Str(key.value), items);
          && passwords.Ok?
          && CreateSiteMapping(items)[siteKey] in passwords.value
          && r.visited.value.password == passwords.value[CreateSiteMapping(items)[siteKey]]
    ensures w.vault.Some? ==>
      var key := VisitKey(p, h, w.vault.value, w.sessionToken, typedPassword);
      var items := w.vault.value.websites.items;
      && (key.Err? ==> r.status == Raised(key.error) && r.visited.None?)
      && (key.Ok? ==>
            var passwords := CreatePasswordMapping(p, Str(key.value), items);
            && (passwords.Err? ==> r.status == Raised(passwords.error) && r.visited.None?)
            && (passwords.Ok? && siteKey in CreateSiteMapping(items) ==> r.visited.Some?)
            && (passwords.Ok? && siteKey !in CreateSiteMapping(items) ==> r.status == Completed && r.visited.None?))
    ensures w.vault.Some? ==>
      var key := VisitKey(p, h, w.vault.value, w.sessionToken, typedPassword);
      && (!Truthy(h.sessionAppKey(w.sessionToken)) && key.Ok? ==>
            r.world.sessionToken == Some(h.generateSessionToken(Str(key.value))))
      && (Truthy(h.sessionAppKey(w.sessionToken)) ==> r.world.sessionToken == w.sessionToken)
  {
    match w.vault
    case None => Run(w, Raised(FileNotFound), None)
    case Some(v) =>
      match VisitKey(p, h, v, w.sessionToken, typedPassword)
      case Err(e) => Run(w, Raised(e), None)
      case Ok(appKey) =>
        var w1 := if Truthy(h.sessionAppKey(w.sessionToken)) then w
          else w.(sessionToken := Some(h.generateSessionToken(Str(appKey))));
        var siteMapping := CreateSiteMapping(v.websites.items);
        match CreatePasswordMapping(p, Str(appKey), v.websites.items)
        case Err(e) => Run(w1, Raised(e), None)
        case Ok(passwords) =>
          if siteKey !in siteMapping then Run(w1, Completed, None)
          else
            var hash := siteMapping[siteKey];
            SiteMappingLeadsToListingEntry(v.websites, siteKey);
            PasswordMappingSpec(p, Str(appKey), v.websites.items);
            assert hash in Hashes(v.websites.items);
            var passwd := if hash in passwords then passwords[hash] else None;
            Run(w1, Completed, Some(Opened(Dict.Get(v.websites, hash).value.url, passwd)))
  }

  /**
    The password `visit` hands over is the decryption, under the key it
    unlocked, of the password stored in the entry the alias leads to.
   */
  lemma VisitHandsOverStoredPassword(p: Primitives, h: Host, w: World, siteKey: string, typedPassword: string)
    requires WellFormed(w)
    requires Visit(p, h, w, siteKey, typedPassword).visited.Some?
    ensures w.vault.Some? && VisitKey(p, h, w.vault.value, w.sessionToken, typedPassword).Ok?
    ensures var websites := w.vault.value.websites;
      var entry := Dict.Get(websites, CreateSiteMapping(websites.items)[siteKey]).value;
      var shown := Visit(p, h, w, siteKey, typedPassword).visited.value;
      var key := VisitKey(p, h, w.vault.value, w.sessionToken, typedPassword).value;
      && siteKey in entry.keys
      && shown.url == entry.url
      && DecryptEntry(p, Str(key), entry) == Ok(shown.password)
  {
    var websites := w.vault.value.websites;
    var items := websites.items;
    var key := Str(VisitKey(p, h, w.vault.value, w.sessionToken, typedPassword).value);
    SiteMappingIsLastListing(items, siteKey);
    var j :| LastToList(items, siteKey, j) && CreateSiteMapping(items)[siteKey] == items[j].0;
    Dict.GetAt(websites, j);
    PasswordMappingValues(p, key, websites, j);
  }

  /**
    On the password path of `visit`, a rejected password does not stop the
    command: if the key still unwraps, the visit proceeds and a fresh session
    token is saved.
   */
  lemma VisitOnlyReportsWrongPassword(p: Primitives, h: Host, w: World, siteKey: string, typedPassword: string, k: string)
    requires WellFormed(w) && w.vault.Some?
    requires !Truthy(h.sessionAppKey(w.sessionToken))
    requires !h.validateUser(w.vault.value.passwordHash, typedPassword)
    requires DecryptUserPrivateKey(p, Str(w.vault.value.encryptedAppKey), GenerateDerivedKey(p, Str(typedPassword))) == Ok(k)
    ensures !Visit(p, h, w, siteKey, typedPassword).status.Exited?
    ensures Visit(p, h, w, siteKey, typedPassword).world.sessionToken == Some(h.generateSessionToken(Str(k)))
  {
  }

  /**
    A site stored without a password makes `visit` fail with `KeyError` once
    the password map reaches it, whichever alias is asked for and even when
    the alias is unknown: the map is built before the alias is looked up.
   */
  lemma VisitFailsOnPasswordlessSite(p: Primitives, h: Host, w: World, siteKey: string, typedPassword: string, i: nat)
    requires WellFormed(w) && w.vault.Some? && Truthy(h.sessionAppKey(w.sessionToken))
    requires var items := w.vault.value.websites.items;
      && i < |items| && items[i].1.password.None?
      && forall j :: 0 <= j < i ==> DecryptEntry(p, Str(h.sessionAppKey(w.sessionToken).value), items[j].1).Ok?
    ensures Visit(p, h, w, siteKey, typedPassword).status == Raised(KeyError("password"))
    ensures Visit(p, h, w, siteKey, typedPassword).visited.None?
  {
    var items := w.vault.value.websites.items;
    var key := Str(h.sessionAppKey(w.sessionToken).value);
    PasswordMappingSpec(p, key, items);
    var r := CreatePasswordMapping(p, key, items);
    assert DecryptEntry(p, key, items[i].1).Err?;
    var f :| FirstFailure(p, key, items, f) && DecryptEntry(p, key, items[f].1) == Err(r.error);
    if f != i {
      assert false;
    }
  }

  /**
    The whole envelope, end to end: `init` with password `P` and fresh key
    `K`, then `add` of a site with aliases and a site password `s`, then a
    `visit` of any of its aliases (with no live session, or one holding `K`)
    opens that site's URL with exactly `s` as its password.
   */
  lemma InitAddVisit(p: Primitives, h: Host, w: World, appKey: Bytes, appKeyText: string, password: string,
                     url: string, aliases: seq<string>, secret: string, alias: string, n1: Nonce, n2: Nonce)
    requires Assumptions(p) && ValidatorAcceptsOwner(p, h)
    requires w.vault.None?
    requires p.utf8Decode(appKey) == Some(appKeyText)
    requires secret != "" && alias in aliases
    requires var session := h.sessionAppKey(Some(h.generateSessionToken(Raw(appKey))));
      !Truthy(session) || session == Some(appKeyText)
    ensures var w1 := Init(p, h, w, appKey, password, n1).world;
      var w2 := Add(p, h, w1, password, url, aliases, Some(secret), None, n2).world;
      Visit(p, h, w2, alias, password).visited == Some(Opened(url, Some(secret)))
  {
    var r1 := Init(p, h, w, appKey, password, n1);
    InitThenUnlock(p, h, w, appKey, appKeyText, password, n1);
    var r2 := Add(p, h, r1.world, password, url, aliases, Some(secret), None, n2);
    SecretRoundTrip(p, secret, Str(appKeyText), n2);
    var enc := Encrypt(p, Some(secret), Str(appKeyText), n2).value;
    var entry := NewEntry(url, aliases, enc, None);
    assert r2.world.vault.value.websites.items == [(p.sha256(url), entry)];
    var v2 := r2.world.vault.value;
    assert v2.encryptedAppKey == r1.world.vault.value.encryptedAppKey;
    assert VisitKey(p, h, v2, r2.world.sessionToken, password) == Ok(appKeyText);
    assert DecryptEntry(p, Str(appKeyText), entry) == Ok(Some(secret));
    VisitOfOnlySite(p, h, r2.world, alias, password, p.sha256(url), entry);
  }

  /** A visit to a store holding one site opens that site with its decrypted password. */
  lemma VisitOfOnlySite(p: Primitives, h: Host, w: World, alias: string, typedPassword: string, hash: string, entry: Entry)
    requires WellFormed(w) && w.vault.Some? && w.vault.value.websites.items == [(hash, entry)]
    requires alias in entry.keys
    requires VisitKey(p, h, w.vault.value, w.sessionToken, typedPassword).Ok?
    requires DecryptEntry(p, Str(VisitKey(p, h, w.vault.value, w.sessionToken, typedPassword).value), entry).Ok?
    ensures var key := VisitKey(p, h, w.vault.value, w.sessionToken, typedPassword).value;
      Visit(p, h, w, alias, typedPassword).visited == Some(Opened(entry.url, DecryptEntry(p, Str(key), entry).value))
  {
    var items := w.vault.value.websites.items;
    var key := VisitKey(p, h, w.vault.value, w.sessionToken, typedPassword).value;
    assert CreateSiteMapping(items) == AssignKeys(map[], entry.keys, hash) by {
      assert items[..0] == [];
    }
    assert CreatePasswordMapping(p, Str(key), items).Ok? by {
      assert items[..0] == [];
    }
    VisitHandsOverStoredPassword(p, h, w, alias, typedPassword);
    Dict.GetAt(w.vault.value.websites, 0);
  }
}
