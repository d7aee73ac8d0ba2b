# WebPassAccess vault, modelled in Dafny

WebPassAccess is a command-line password vault. A master password derives a
key (PBKDF2) that wraps a random application key (Fernet). The application
key encrypts each site's password. Sites are stored in `websites_data.json`
under the SHA-256 of their URL, together with their aliases ("keys"). A
signed session token (itsdangerous) lets `visit` skip the password prompt
for three hours. Shell aliases for the commands are written into
`~/.bashrc`.

This project models that core as pure functions over immutable data:

- `base.dfy` (`Base`): optional values, results that carry the Python
  exception a call would raise, bytes, and "str or bytes" arguments.
- `strings.dfy` (`Strings`): the Python string and list built-ins the code
  relies on. These are `startswith`, `in`, `split`, `join`, `lstrip`,
  `readlines`/`writelines` and `list(set(xs))`.
- `dict.dfy` (`Dict`): an insertion-ordered Python dict with distinct keys.
  Order matters because a later site wins a shared alias.
- `crypto.dfy` (`Crypto`): the foreign primitives, as fields of a record.
  These are UTF-8, `sha256`, `hexdigest`, PBKDF2, base64 and Fernet. The
  properties a proof needs of them are named predicates, passed as
  hypotheses.
- `encryption.dfy` (`Encryption`): utils/encryption.py.
- `authentication.dfy` (`Authentication`): utils/authentication.py. The
  serializer, its clock and `SECRET_KEY` are parameters.
- `mappings.dfy` (`Mappings`): mappings.py. Loading and saving the JSON
  file become the dict passed in and returned.
- `commands.dfy` (`Commands`): `init`, `add`, `update`, `visit` and
  `_validate_user_and_get_app_key` of main.py. Each is a transition from
  the files found (vault, session token) to the files left behind, plus how
  the command ended: normally, through `sys.exit()`, or with an uncaught
  exception. For `visit` it also records what was handed to the browser and
  clipboard.
- `bash_utilities.dfy` (`BashUtilities`): utils/bash_utilities.py. The
  `.bashrc` is its text, or `None` when the file is absent.

Parameters of the model:

- Randomness (`Fernet.generate_key()`, Fernet's IV and timestamp) and the
  clock are parameters.
- So are the interactive password prompt and the helpers main.py imports
  that the modelled files do not define. These are `validate_user`,
  `generate_session_token`, `get_existing_session_token` and `sha256`.
  They form the `Commands.Host` record and the `sha256` field of
  `Crypto.Primitives`.

Three behaviours of the code are easy to miss:

- A site stored without a password makes every `visit` fail, not only a
  visit of that site. Building the password map raises `KeyError` at the
  first such entry (unless an earlier entry fails to decrypt), before the
  alias is even looked up (`Commands.VisitFailsOnPasswordlessSite`).
- A wrong password on the `visit` prompt is only reported. The command goes
  on, and fails only if the key then does not unwrap
  (`Commands.VisitOnlyReportsWrongPassword`).
- `confirm_session_token` returns `{'master_passwd_hash': h}`, not a key.
  Its docstring's default of "1 hour" is really `3600 * 3` seconds.

## Model

| member | source | states |
|---|---|---|
| Encryption.GenerateDerivedKey | utils/encryption.py:26-37 | The derived key is PBKDF2 over the password's bytes (a `str` is encoded first), with the fixed salt, 100000 iterations and a length of 32. Given PBKDF2's length guarantee, the key is exactly 32 bytes. |
| Encryption.DerivedKeyOfEncodedPassword | utils/encryption.py:26-27 | A password given as `str` and the same password given as its encoded bytes derive the same key. |
| Encryption.HashDerivedKey | utils/encryption.py:51-54 | The fingerprint stored in the vault is a 64-character lower-case hex digest. |
| Encryption.EncryptUserPrivateKey | utils/encryption.py:68-75 | The wrapped key opens, under `urlsafe_b64encode(derived_key)`, to the bytes of the application key. |
| Encryption.DecryptUserPrivateKey | utils/encryption.py:91-95 | Unwrapping succeeds exactly when the token opens under the b64 of the derived key and the plaintext is valid UTF-8. The result is that decoded plaintext. Otherwise a token that does not open raises `InvalidToken`, and a plaintext that is not UTF-8 raises `UnicodeDecodeError` (for a token whose text is ASCII, as every Fernet token is). |
| Encryption.UserKeyRoundTrip | utils/encryption.py:68-95 | Unwrapping with the derived key that wrapped gives back the application key as `str`. |
| Encryption.StoredUserKeyRoundTrip | main.py:92-98 | The round trip survives storing the token as `encrypted_app_key.decode()` and handing it back as `str`. |
| Encryption.UnwrapWithOtherKeyFails | utils/encryption.py:91-94 | A different derived key (a wrong password) never unwraps the key. It raises `InvalidToken`. |
| Encryption.Encrypt | utils/encryption.py:98-99 | `None` or `""` encrypts to `None`. Any other secret gives a non-empty token as `str`. |
| Encryption.Decrypt | utils/encryption.py:101-102 | `None` or `""` decrypts to `None`. Otherwise the result is a string exactly when the token opens under the key and decodes. A failure is always on a non-empty token: one that does not open raises `InvalidToken`, and a plaintext that is not UTF-8 raises `UnicodeDecodeError` (for an ASCII token). |
| Encryption.SecretRoundTrip | utils/encryption.py:98-102 | `decrypt(encrypt(s, k), k) == s` for every non-empty secret `s` and key `k`. |
| Encryption.SecretUnderOtherKeyFails | utils/encryption.py:98-102 | A secret encrypted under one application key raises `InvalidToken` under any other. |
| Authentication.GetSessionToken | utils/authentication.py:32-42 | The token signs `{'master_passwd_hash': h}` with the fixed salt. Loaded at its issue time, it gives that payload back. |
| Authentication.ConfirmSessionToken | utils/authentication.py:45-71 | Expiry and a bad signature give `None`. A dict payload gives `None` exactly when the hash field is missing or null, and otherwise a dict holding only the hash. A non-dict payload or a bad payload raises. |
| Authentication.SessionTokenRoundTrip | utils/authentication.py:29-71 | A fresh token confirms to `{'master_passwd_hash': h}` for 10800 seconds after issue, provided `h` is not null. Before issue or after that window it confirms to `None`. |
| Authentication.ForeignTokenRejected | utils/authentication.py:45-71 | A token signed under another secret key confirms to `None`. |
| Mappings.NewEntry | mappings.py:53-60 | A new entry keeps the URL and aliases as given. It has a password or username field exactly when that argument is truthy. |
| Mappings.MergeEntry | mappings.py:44-50 | A merged entry keeps its URL. Its alias set is the union of old and new aliases, without repetitions. Password and username are overwritten only by truthy arguments. |
| Mappings.AddWebsiteToDatabase | mappings.py:28-62 | The store stays a dict and gains exactly the key `sha256(url)`. Every other entry is unchanged. An unknown URL's entry is appended at the end. A known one is replaced by its merge at the same position in dict order, so the order that decides shared aliases is kept. |
| Mappings.AddIsIdempotent | mappings.py:28-62 | Repeating an identical add changes nothing, up to the order and repetition of aliases. |
| Mappings.SiteMappingIsLastListing | mappings.py:67-84 | The alias index holds exactly the aliases of all entries. Each alias maps to the hash of the LAST entry, in dict order, that lists it. |
| Mappings.SiteMappingLeadsToListingEntry | mappings.py:79-82 | Every indexed alias leads to a stored entry that lists that alias. |
| Mappings.PasswordMappingSpec | mappings.py:87-100 | The password map is built exactly when every entry has a password field that decrypts. It then maps exactly the stored hashes. Otherwise it raises what the first failing entry raises (`KeyError('password')` for a missing field). |
| Mappings.PasswordMappingValues | mappings.py:95-98 | Each stored hash maps to the decryption of the password stored under it. |
| Commands.ValidateUserAndGetAppKey | main.py:30-44 | A rejected password exits. An accepted one returns exactly the key unwrapped with that password's derived key when it unwraps, and otherwise raises the exception the unwrap raised. |
| Commands.Init | main.py:68-106 | An existing vault makes `init` exit without touching anything. Otherwise a session token for the fresh key is saved first. Then a vault is written with no sites, the password's hash, the derived key's fingerprint, and the key wrapped under the derived key. |
| Commands.InitThenUnlock | main.py:68-106 | After `init` with password `P` and key `K`, validating `P` against the new vault gives back `K`. |
| Commands.Add | main.py:108-126 | A missing vault raises and a wrong password exits, both with no change. An accepted password whose key unwraps and a site password that encrypts always complete; a failing unwrap or encryption ends with that exception. On success only the `websites` part changes, and it changes exactly as `add_website_to_database` does with the site password encrypted under the unlocked key. |
| Commands.Update | main.py:179-208 | An unknown URL exits before the password is checked. For a known URL a wrong password exits, a failing unwrap or encryption raises, and otherwise the update completes. Any failure changes nothing. Success changes only the `websites` part, keeps its set of hashes, and changes it as `add_website_to_database` does with the new aliases (or the entry's own when none are given) and the site password encrypted under the unlocked key. |
| Commands.UpdateKeepsWhatIsNotGiven | main.py:194-207 | An update without new aliases keeps the entry's URL and alias set. One without a site password or username keeps the stored one. |
| Commands.UpdateStoresWhatIsGiven | main.py:192-207 | After an update, a truthy username given is the entry's username, new aliases join the entry's alias set, and a truthy site password given decrypts, under the unlocked key, to exactly that password. |
| Commands.Visit | main.py:138-177 | The vault is never changed. A new session token is saved exactly on the password path, and always once the typed password unwraps the key, whether or not the password check accepted it; a live session keeps the token file as it is. A failed unwrap or password map raises and opens nothing. Otherwise a known alias always opens the URL of the stored entry that lists it, with the password map's value for that entry's hash, and an unknown alias returns normally and opens nothing. |
| Commands.VisitHandsOverStoredPassword | main.py:165-177 | The password a visit hands over is the decryption, under the key the visit unlocked, of the password stored in the entry the alias leads to. |
| Commands.VisitOnlyReportsWrongPassword | main.py:150-163 | A rejected password does not stop `visit`. If the key still unwraps, a fresh session token is saved. |
| Commands.VisitFailsOnPasswordlessSite | main.py:165-166 | With a live session, a stored site without a password makes `visit` raise `KeyError('password')` and open nothing, whatever alias is asked for, provided every entry before it in dict order decrypts. An earlier undecryptable entry raises `InvalidToken` instead. |
| Commands.InitAddVisit | main.py:68-177 | Run `init` with password `P`, then `add` a site with secret `s`. A `visit` of any of its aliases then opens that URL with exactly `s`. |
| BashUtilities.GenerateAlias | utils/bash_utilities.py:21-33 | The alias string starts with `alias NAME=`. |
| BashUtilities.GeneratedAliasSplits | utils/bash_utilities.py:32 | When neither name nor commands contain `=`, a generated alias splits at `=` into `alias NAME` and the quoted, space-joined commands. |
| BashUtilities.FirstLine | utils/bash_utilities.py:62-67 | The line found is the first that starts with the prefix. `None` means no line does. |
| BashUtilities.ReplaceAlias | utils/bash_utilities.py:36-76 | A missing file raises `OSError`. `ValueError` is raised exactly when no line starts with `alias NAME=`. Otherwise the file is rewritten with that first line replaced by `alias NAME=CONTENT\n`. |
| BashUtilities.ReplaceAliasRewritesOneLine | utils/bash_utilities.py:58-74 | Read back, the rewritten file has the same lines as before except the first `alias NAME=` line, which now holds the new definition. |
| BashUtilities.ReplaceAliasWithSameLine | utils/bash_utilities.py:58-74 | Rewriting an alias to the definition its first line already holds leaves the text unchanged. |
| BashUtilities.AliasStringInBashrc | utils/bash_utilities.py:82-89 | The test is true exactly when the text before the alias string's first `=` (all of it when there is no `=`) occurs at some position of the file, not necessarily at the start of a line. |
| BashUtilities.AddAliasToBashProfile | utils/bash_utilities.py:92-124 | An absent alias is appended on a line of its own, and a missing file is created empty first. A present alias raises `ValueError` without `replace`, or when the string does not split into exactly two parts. With `replace`, it calls `replace_alias` with the name `lstrip`ped of the characters of `'alias '`. |
| BashUtilities.AppendedAliasIsFound | utils/bash_utilities.py:82-124 | After an alias is appended, the presence test finds it, so a second add without `replace` raises `ValueError`. |
| BashUtilities.LStripLosesName | utils/bash_utilities.py:119 | `lstrip('alias ')` does not recover a name that starts with `a`, `l`, `i`, `s` or a space. |
| BashUtilities.ReplaceLosesStrippedName | utils/bash_utilities.py:114-119 | As written: re-adding with `replace` an alias whose name is made of those characters (such as `ls`) raises `ValueError`, even when the file defines exactly that alias. |
| BashUtilities.ReplaceMissesLongerName | utils/bash_utilities.py:82-119 | As written: adding alias `visit` with `replace` to a file that only defines `visitor` raises `ValueError`. |
| BashUtilities.GeneratedAliasName | utils/bash_utilities.py:21-33 | Removing the literal prefix `alias ` recovers the name of every generated alias. |
| BashUtilities.AddAlias | utils/bash_utilities.py:92-124 | Corrected add: an alias counts as present only when a line starts with `alias NAME=`. The name passed on is the alias's own name. |
| BashUtilities.AddAliasInstalls | utils/bash_utilities.py:92-124 | The corrected add with `replace` always succeeds for a generated alias. Afterwards the first line defining the alias is the generated definition. |
| BashUtilities.AddAliasIdempotent | utils/bash_utilities.py:92-124 | Adding the same generated alias twice with `replace` leaves the file as the first add left it. |
| Dict.PutSpec | mappings.py:62 | Storing under a key keeps keys distinct and adds that key. The key reads back the new value, and every other key reads as before. |
| Strings.ConcatLines | utils/bash_utilities.py:58-74 | Writing back the lines read from a text gives the same text. |
| Strings.LinesOfConcat | utils/bash_utilities.py:58-74 | Reading back lines that `writelines` wrote gives the same lines, when all but the last are terminated and none holds an inner line break. |
| Strings.Dedup | mappings.py:46 | `list(set(xs))` holds exactly the elements of `xs`, each once. |

## Left out

- Reading and writing files, `json` (de)serialisation, `argparse`, `input`, `print`, `logging`, `pyperclip` and `webbrowser` are left out. They become the values passed in and returned, and the `Opened` record.
- `visit_site` (main.py:46-66) is left out: it only logs and performs I/O. A visit records its `url` and `passwd` arguments instead.
- `source_bashrc`, the `os.name` checks (only the POSIX branch is modelled) and `add_wpa_command_aliases_to_bashrc` are left out. The last is a fixed sequence of calls to the modelled functions with paths from the running interpreter.
- `help`, `main`, config.py, websites.py and google_search.py are not part of this model.
- `validate_user`, `generate_session_token`, `save_session_token`, `get_existing_session_token`, `get_password` and `sha256` are imported by main.py but defined outside the modelled files. They are abstract parameters.
- `sha256` is imported twice: by main.py from `utils.encryption` (main.py:18), where it hashes the master password and finds the site `update` changes, and by mappings.py from `utils.authentication` (mappings.py:15), where it computes the key a site is stored under. Neither is defined in the modelled files. The model assumes both are the same function, the `sha256` field of `Crypto.Primitives`; that `update` finds a site `add` stored rests on this assumption.
- Fernet, PBKDF2, SHA-256, base64 and UTF-8 are not implemented. Every statement holds for any choice of them. Where a proof needs a library property (round trips, authenticated decryption, digest shape), that property is an explicit hypothesis.
- Fernet's `ValueError` for a malformed key is left out. The keys derived from passwords are 32 bytes, url-safe base64 encoded, and the key `visit` takes from the session lookup (main.py:144, 166) is assumed to be such a key as well: `Host.sessionAppKey` is otherwise unconstrained.
- Encryption.DecryptUserPrivateKey: a `str` token reaches Fernet as text, and Fernet's base64 decoding of a non-ASCII `str` raises `ValueError`, not `InvalidToken`. The model hands the cipher the token's UTF-8 bytes, so that `ValueError` is not modelled; its error clauses are promised for ASCII tokens only.
- Encryption.Decrypt: the same holds for a stored site password token (utils/encryption.py:102): a non-ASCII `str` would raise `ValueError`, which is not modelled.
- A vault missing `websites`, `password_hash` or `encrypted_app_key`, or an entry missing `url` or `keys`, is left out. The source raises `KeyError` there; the vault record always has these fields.
- Mappings.MergeEntry: `list(set(...))` leaves alias order unspecified in Python. The model fixes one order, and its contracts state only the alias set and the absence of repetitions.
- Authentication.ConfirmSessionToken: `data.get` on a list payload raises `AttributeError`, as on any non-dict. Other payload types are not told apart.
- `.bashrc` is modelled as the text that text-mode reading yields (utils/bash_utilities.py:58, 73, 85, 122). The locale decoding, which can raise `UnicodeDecodeError`, and the newline translation are left out. So a file with `\r\n` or `\r` line ends is written back with `\n`, and "the same text" in BashUtilities.ReplaceAliasWithSameLine and Strings.ConcatLines is not "the same bytes" for such a file.
- Commands.Visit: the session key is whatever the host's session lookup returns, because main.py treats the result of `confirm_session_token` as the application key.

## Findings

| source | as written | input that shows it | evidently intended | confidence | as-written member | corrected member |
|---|---|---|---|---|---|---|
| utils/bash_utilities.py:119 | `alias_name.lstrip('alias ')` strips any leading `a`, `l`, `i`, `s` or space characters, not the prefix `alias ` | `.bashrc` = `alias ls='a'\n`, `add_alias_to_bash_profile("alias ls='b'", replace=True)`: the name becomes `""` and `ValueError` is raised | replace the `ls` line with `alias ls='b'` | high; not executed | BashUtilities.ReplaceLosesStrippedName | BashUtilities.AddAliasInstalls |
| utils/bash_utilities.py:87 | the presence test looks for `alias NAME` anywhere in the file, while `replace_alias` needs a line starting with `alias NAME=` | `.bashrc` = `alias visitor='x'\n`, `add_alias_to_bash_profile("alias visit='y'", replace=True)`: `ValueError` | append `alias visit='y'` as a new line | high; not executed | BashUtilities.ReplaceMissesLongerName | BashUtilities.AddAliasInstalls |
